# BootstrapBuilder component list, modelled in Dafny

BootstrapBuilder is a drag-and-drop page builder. A palette offers a fixed
catalog of Bootstrap component templates (container, row, column, heading,
paragraph, button, card, alert). Dragging an entry onto the canvas appends a
component built from that template. A placed component can be edited (its
markup replaced), removed, or dragged over another component to reorder the
list. The export is the components' markup joined with line breaks.

This project models the editing engine behind those gestures:

- `catalog.dfy`, module `Catalog`: the template catalog. It is a constant map
  from type key to name, icon and markup, with the markup of every entry
  spelled out exactly, including the line breaks and blanks of the card
  template.
- `components.dfy`, module `Components`: the component record and the pure
  list transforms. These are the drop (`Dropped`), remove-by-id (`Remove`,
  a filter), edit-by-id (`Edit`, a map) and move-by-index. The move is the
  method `Move`, which copies the list and splices it twice as the handler
  does. It is proved equal to `Moved`, an independent position-by-position
  definition. The lemmas state order preservation, counts, permutation,
  identity and inverse of moves, the drop/remove round trip, and that every
  operation keeps ids unique.
- `export.dfy`, module `Export`: `Html`, the contents joined by `"\n"`.
  `Join` has a partner `Split`, and the round trip between them is proved.
- `builder.dfy`, module `Builder`: the class `App`. Its fields are
  `components` and `dragged` (the palette type being dragged, or `None`).
  Each handler is a method: drag start, drop, remove, edit, move, and the
  drag-over guard of a placed component. `GenerateHTML` is a function that
  reads the state.

The record field the source calls `type` is named `kind`, because `type` is
a Dafny keyword. Ids are integers supplied by the caller of `HandleDrop`.

### Shape of the code

The components have no children, and every operation works on one flat
list. The export joins the contents with line breaks and adds no
indentation.

No handler runs when a drag ends or is cancelled. Only an accepted drop
(`HandleDrop`) clears the dragged type. A palette drag released outside the
canvas therefore leaves `dragged` set, and the next drop on the canvas
appends that type. The model keeps this behaviour: only `HandleDrop` and
`HandleDragStart` change `dragged`.

## Model

| member | source | states |
|---|---|---|
| `Catalog.CatalogTypes` | assets/js/scripts.js:1-49 | the catalog has exactly the eight types container, row, col, heading, paragraph, button, card and alert, and no type is the empty string |
| `Builder.TruthyIffDragging` | assets/js/scripts.js:63 | while the dragged state holds only catalog types, the drop's truthiness test accepts exactly when something is dragged |
| `Builder.App.constructor` | assets/js/scripts.js:52-53 | the editor starts with an empty list and nothing dragged |
| `Builder.App.HandleDragStart` | assets/js/scripts.js:57-59 | the dragged state becomes the palette entry's type and the list is untouched |
| `Builder.App.HandleDrop` | assets/js/scripts.js:61-72 | with a type dragged, the list becomes the drop of that type with the given id and the dragged state is reset to none; with nothing dragged, neither the list nor the dragged state changes |
| `Components.Dropped` | assets/js/scripts.js:63-69 | a drop appends exactly one component at the end, with the given id, the dragged type and that type's catalog markup, and leaves every earlier component as it was |
| `Components.DroppedKeepsUniqueIds` | assets/js/scripts.js:64-69 | dropping with an id no component has keeps all ids distinct |
| `Components.Remove` | assets/js/scripts.js:83-85 | no remaining component has the removed id, every remaining one was in the list, and if no component had the id the list is unchanged |
| `Components.RemoveIsSubsequence` | assets/js/scripts.js:83-85 | removal keeps the other components in their original relative order |
| `Components.RemoveCounts` | assets/js/scripts.js:84 | removal deletes every occurrence of a component with the id and keeps every other component exactly as often as before |
| `Components.RemoveAppend` | assets/js/scripts.js:84 | removing from a concatenation is the concatenation of the removals |
| `Components.RemoveUndoesDrop` | assets/js/scripts.js:63-69 | removing the id of a component just dropped with a fresh id gives back the list from before the drop |
| `Components.RemoveKeepsUniqueIds` | assets/js/scripts.js:83-85 | removal keeps ids distinct |
| `Builder.App.RemoveComponent` | assets/js/scripts.js:83-85 | the list becomes its removal by id; the dragged state is untouched |
| `Components.Edit` | assets/js/scripts.js:87-91 | length, order, every id and every type are preserved; the components with the id get the new content and every other component is identical to before |
| `Components.EditAbsent` | assets/js/scripts.js:87-91 | editing an id that no component has leaves the list unchanged |
| `Components.EditIdempotent` | assets/js/scripts.js:87-91 | editing twice with the same content equals editing once |
| `Components.EditUnique` | assets/js/scripts.js:87-91 | with distinct ids, editing the id of the component at index k changes that component's content and nothing else |
| `Components.EditKeepsUniqueIds` | assets/js/scripts.js:87-91 | editing keeps ids distinct |
| `Builder.App.EditComponent` | assets/js/scripts.js:87-91 | the list becomes its edit by id; the dragged state is untouched |
| `Components.Moved` | assets/js/scripts.js:93-98 | a move keeps the length, puts the original element of the drag index at the hover index, and leaves the other elements in their original relative order |
| `Components.Move` | assets/js/scripts.js:93-98 | copying the list, splicing out the dragged element and splicing it in at the hover index yields exactly the move |
| `Components.RemoveAtDetermines` | assets/js/scripts.js:93-98 | a list is determined by its length, one element and what remains without it, so the move's contract fixes its result completely |
| `Components.MovedIsPermutation` | assets/js/scripts.js:93-98 | a move is a permutation of the list |
| `Components.MovedSelf` | assets/js/scripts.js:93-98 | moving an element onto its own index is the identity |
| `Components.MovedBack` | assets/js/scripts.js:93-98 | moving from the hover index back to the drag index restores the original list |
| `Components.MovedKeepsUniqueIds` | assets/js/scripts.js:93-98 | a move keeps ids distinct |
| `Builder.App.MoveComponent` | assets/js/scripts.js:93-98 | the list becomes its move; the dragged state is untouched |
| `Builder.App.HandleComponentDragOver` | assets/js/scripts.js:200-206 | equal indices leave the list untouched, different ones move it; in both cases the result equals the move, so the guard only skips an update that would change nothing |
| `Export.Contents` | assets/js/scripts.js:101 | the contents are the components' content fields, one per component, in order |
| `Export.JoinSnoc` | assets/js/scripts.js:101 | appending a part to a non-empty join adds one separator and the part at the end, so the join adds no separator after the last part |
| `Export.JoinLength` | assets/js/scripts.js:101 | the join of no parts is empty; otherwise its length is the parts' total length plus one separator per adjacent pair |
| `Export.SplitJoin` | assets/js/scripts.js:101 | splitting a join of separator-free parts at the separator gives back the parts |
| `Export.HtmlShape` | assets/js/scripts.js:100-102 | the export of an empty list is empty, of one component exactly its content, and of a longer list the export of all but the last, a line break and the last content |
| `Export.HtmlLines` | assets/js/scripts.js:100-102 | when no content holds a line break, the export's lines are exactly the components' contents |
| `Builder.App.GenerateHTML` | assets/js/scripts.js:100-102 | the export of the current list is empty for an empty list, the content itself for one component, adds no line break after the last content, and splits back into the contents when none of them spans lines |

## Left out

- Rendering: JSX, the sidebar, the component header with icon and name, and the React state setters. Setters are modelled as plain field assignment.
- The preview and export modals, and the clipboard write of the export. These are presentation and I/O. Only the text they show, `GenerateHTML`, is modelled.
- Lucide icon initialisation, and the `active` class toggling in the canvas's drag-over and drag-leave handlers. These are presentation only and change no editor state.
- `Date.now()` as the id source. It is a clock, so the id is a parameter of `HandleDrop`. Freshness is an explicit hypothesis of the lemmas that need it, because the clock does not guarantee it.
- The drag data transfer of a placed component's index, and `parseInt` of it. The dragged index is taken as a natural number below the list's length. What a browser returns from the transfer during a drag-over is not modelled.
- Builder.App.MoveComponent: requires both indices in range. JavaScript `splice` on an out-of-range index clamps, or inserts an undefined element, and that is not modelled.
- Builder.App.HandleDragStart: requires a catalog type. The palette only ever passes its own keys. The failed catalog lookup a foreign type would cause at drop time is not modelled.
- The editing textarea's local state in a placed component. Only its save, which calls the edit with the component's id, is modelled, as `EditComponent`.
- Markup is an opaque string. Its HTML well-formedness and how the browser renders it are not modelled.
- The order in which the palette lists the catalog entries. It affects only the sidebar's display.
