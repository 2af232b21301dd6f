/** The builder's editor state and its event handlers: the placed components,
    the palette type being dragged (if any), and what each gesture does to
    them. */
module Builder {
  import opened Catalog
  import opened Components
  import opened Export

  datatype Option<T> = None | Some(value: T)

  /** The truthiness test a drop applies to the dragged state: something is
      held and it is not the empty string. */
  predicate Truthy(d: Option<string>)
  {
    d.Some? && d.value != ""
  }

  /** When the dragged state can only hold a catalog type, the truthiness
      test accepts exactly when something is dragged. */
  lemma TruthyIffDragging(d: Option<string>)
    requires d.Some? ==> d.value in Templates
    ensures Truthy(d) <==> d.Some?
  {
    CatalogTypes();
  }

  /** The editor: the canvas list and the palette drag in progress. */
  class App {
    var components: seq<Component>
    var dragged: Option<string>

    /** The dragged state only ever holds a catalog type. */
    ghost predicate Valid()
      reads this
    {
      dragged.Some? ==> dragged.value in Templates
    }

    /** The initial state: an empty canvas, nothing dragged. */
    constructor ()
      ensures Valid()
      ensures components == [] && dragged == None
    {
      components := [];
      dragged := None;
    }

    /** A palette entry starts being dragged: the dragged state holds its type. */
    method HandleDragStart(componentType: string)
      requires componentType in Templates
      modifies this
      ensures Valid()
      ensures dragged == Some(componentType)
      ensures components == old(components)
    {
      dragged := Some(componentType);
    }

    /** A drop on the canvas. With a type dragged, a new component with the
        given id, that type and the type's catalog markup is appended and the
        dragged state is cleared; with nothing dragged, nothing changes. */
    method HandleDrop(id: int)
      requires Valid()
      modifies this
      ensures Valid()
      ensures old(dragged).Some? ==>
                components == Dropped(old(components), old(dragged).value, id) && dragged == None
      ensures old(dragged).None? ==> components == old(components) && dragged == None
    {
      TruthyIffDragging(dragged);
      if Truthy(dragged) {
        var newComponent := Component(id, dragged.value, Templates[dragged.value].markup);
        components := components + [newComponent];
        dragged := None;
      }
    }

    /** Every component with the given id is removed. */
    method RemoveComponent(id: int)
      modifies this
      ensures components == Remove(old(components), id)
      ensures dragged == old(dragged)
    {
      components := Remove(components, id);
    }

    /** Every component with the given id gets the new content. */
    method EditComponent(id: int, newContent: string)
      modifies this
      ensures components == Edit(old(components), id, newContent)
      ensures dragged == old(dragged)
    {
      components := Edit(components, id, newContent);
    }

    /** The component at `dragIndex` is moved to `hoverIndex`. */
    method MoveComponent(dragIndex: nat, hoverIndex: nat)
      requires dragIndex < |components| && hoverIndex < |components|
      modifies this
      ensures components == Moved(old(components), dragIndex, hoverIndex)
      ensures dragged == old(dragged)
    {
      var newComponents := Move(components, dragIndex, hoverIndex);
      components := newComponents;
    }

    /** A placed component dragged over the one at `index`: the move happens
        only when the two indices differ. Because a move onto its own index
        is the identity, the result is the move in every case. */
    method HandleComponentDragOver(draggedIndex: nat, index: nat)
      requires draggedIndex < |components| && index < |components|
      modifies this
      ensures draggedIndex == index ==> components == old(components)
      ensures draggedIndex != index ==> components == Moved(old(components), draggedIndex, index)
      ensures components == Moved(old(components), draggedIndex, index)
      ensures dragged == old(dragged)
    {
      if draggedIndex != index {
        MoveComponent(draggedIndex, index);
      } else {
        MovedSelf(components, index);
      }
    }

    /** The exported HTML of the current canvas: empty for an empty canvas,
        the single content for one component, and otherwise the contents in
        order separated by line breaks; the join adds no line break after the
        last content. */
    function GenerateHTML(): (html: string)
      reads this
      ensures components == [] ==> html == ""
      ensures |components| == 1 ==> html == components[0].content
      ensures |components| >= 2 ==>
                html == Html(components[..|components| - 1]) + "\n" + components[|components| - 1].content
      ensures components != [] && (forall k :: 0 <= k < |components| ==> '\n' !in components[k].content) ==>
                Split(html, '\n') == Contents(components)
    {
      HtmlShape(components);
      HtmlLines(components);
      Html(components)
    }
  }
}
