/** The flat component list the builder's canvas holds, and the list
    transforms its handlers apply to it: drop (append a fresh component),
    remove by id, edit content by id and move by index. */
module Components {
  import opened Catalog

  /** One placed component. `kind` is the catalog type key the component was
      created from; `content` is its markup, treated as an opaque string. */
  datatype Component = Component(id: int, kind: string, content: string)

  /** No component of `s` carries the id `id`. */
  predicate Fresh(s: seq<Component>, id: int)
  {
    forall c :: c in s ==> c.id != id
  }

  /** No two components of `s` share an id. */
  predicate UniqueIds(s: seq<Component>)
  {
    forall i, j :: 0 <= i < j < |s| ==> s[i].id != s[j].id
  }

  /** `r` is obtained from `s` by deleting some of its elements, the others
      keeping their relative order. */
  predicate IsSubsequence(r: seq<Component>, s: seq<Component>)
    decreases |s|
  {
    if r == [] then true
    else if s == [] then false
    else if r[0] == s[0] then IsSubsequence(r[1..], s[1..])
    else IsSubsequence(r, s[1..])
  }

  /** `s` without its element at index `i`. */
  function RemoveAt(s: seq<Component>, i: nat): seq<Component>
    requires i < |s|
  {
    s[..i] + s[i + 1..]
  }

  // ---------------------------------------------------------------------
  // Drop: a fresh component built from the catalog is appended.
  // ---------------------------------------------------------------------

  /** The list after a template of type `kind` is dropped with the new id `id`. */
  function Dropped(s: seq<Component>, kind: string, id: int): (r: seq<Component>)
    requires kind in Templates
    ensures |r| == |s| + 1
    ensures r[..|s|] == s
    ensures r[|s|].id == id && r[|s|].kind == kind && r[|s|].content == Templates[kind].markup
  {
    s + [Component(id, kind, Templates[kind].markup)]
  }

  /** Dropping with an id no component has keeps the ids unique. */
  lemma DroppedKeepsUniqueIds(s: seq<Component>, kind: string, id: int)
    requires kind in Templates
    requires UniqueIds(s) && Fresh(s, id)
    ensures UniqueIds(Dropped(s, kind, id))
  {
    var r := Dropped(s, kind, id);
    forall i, j | 0 <= i < j < |r|
      ensures r[i].id != r[j].id
    {
      if j == |s| {
        assert r[i] == s[i];
        assert s[i] in s;
      } else {
        assert r[i] == s[i] && r[j] == s[j];
      }
    }
  }

  // ---------------------------------------------------------------------
  // Remove: keep the components whose id differs.
  // ---------------------------------------------------------------------

  /** The list without every component whose id is `id`. */
  function Remove(s: seq<Component>, id: int): (r: seq<Component>)
    ensures forall c :: c in r ==> c in s && c.id != id
    ensures Fresh(s, id) ==> r == s
    ensures |r| <= |s|
  {
    if s == [] then []
    else if s[0].id != id then [s[0]] + Remove(s[1..], id)
    else Remove(s[1..], id)
  }

  /** Removal keeps the remaining components in their original relative order. */
  lemma {:induction false} RemoveIsSubsequence(s: seq<Component>, id: int)
    ensures IsSubsequence(Remove(s, id), s)
  {
    if s != [] {
      RemoveIsSubsequence(s[1..], id);
      if s[0].id != id {
        assert Remove(s, id) == [s[0]] + Remove(s[1..], id);
        assert ([s[0]] + Remove(s[1..], id))[1..] == Remove(s[1..], id);
      } else {
        var r := Remove(s, id);
        if r != [] {
          assert r[0] in r;
        }
      }
    }
  }

  /** Removal deletes every occurrence of a component with that id and keeps
      every other component as often as it occurred. */
  lemma {:induction false} RemoveCounts(s: seq<Component>, id: int)
    ensures forall c :: multiset(Remove(s, id))[c] == if c.id == id then 0 else multiset(s)[c]
  {
    if s == [] {
    } else {
      RemoveCounts(s[1..], id);
      assert s == [s[0]] + s[1..];
      assert multiset(s) == multiset{s[0]} + multiset(s[1..]);
      if s[0].id != id {
        assert multiset(Remove(s, id)) == multiset{s[0]} + multiset(Remove(s[1..], id));
      }
    }
  }

  /** Removal distributes over concatenation. */
  lemma {:induction false} RemoveAppend(a: seq<Component>, b: seq<Component>, id: int)
    ensures Remove(a + b, id) == Remove(a, id) + Remove(b, id)
  {
    if a == [] {
      assert a + b == b;
    } else {
      assert (a + b)[0] == a[0];
      assert (a + b)[1..] == a[1..] + b;
      RemoveAppend(a[1..], b, id);
    }
  }

  /** Removing the id of a component just dropped with a fresh id gives back
      the list from before the drop. */
  lemma RemoveUndoesDrop(s: seq<Component>, kind: string, id: int)
    requires kind in Templates
    requires Fresh(s, id)
    ensures Remove(Dropped(s, kind, id), id) == s
  {
    RemoveAppend(s, [Component(id, kind, Templates[kind].markup)], id);
    assert Remove([Component(id, kind, Templates[kind].markup)], id) == [];
  }

  /** The tail of a list with unique ids has unique ids and lacks the head's id. */
  lemma UniqueIdsTail(s: seq<Component>)
    requires s != [] && UniqueIds(s)
    ensures UniqueIds(s[1..]) && Fresh(s[1..], s[0].id)
  {
    forall i, j | 0 <= i < j < |s[1..]| ensures s[1..][i].id != s[1..][j].id {
      assert s[1..][i] == s[i + 1] && s[1..][j] == s[j + 1];
    }
    forall c | c in s[1..] ensures c.id != s[0].id {
      var k :| 0 <= k < |s[1..]| && s[1..][k] == c;
      assert s[k + 1] == c;
    }
  }

  /** Putting a component whose id is new in front of a list with unique ids
      keeps them unique. */
  lemma UniqueIdsCons(x: Component, t: seq<Component>)
    requires UniqueIds(t) && Fresh(t, x.id)
    ensures UniqueIds([x] + t)
  {
    var r := [x] + t;
    forall i, j | 0 <= i < j < |r| ensures r[i].id != r[j].id {
      assert r[j] == t[j - 1];
      if i == 0 {
        assert t[j - 1] in t;
      } else {
        assert r[i] == t[i - 1];
      }
    }
  }

  /** Removal keeps the ids unique. */
  lemma {:induction false} RemoveKeepsUniqueIds(s: seq<Component>, id: int)
    requires UniqueIds(s)
    ensures UniqueIds(Remove(s, id))
  {
    if s != [] {
      UniqueIdsTail(s);
      RemoveKeepsUniqueIds(s[1..], id);
      if s[0].id != id {
        UniqueIdsCons(s[0], Remove(s[1..], id));
      }
    }
  }

  // ---------------------------------------------------------------------
  // Edit: replace the content of the components with a given id.
  // ---------------------------------------------------------------------

  /** The list with the content of every component whose id is `id`
      replaced by `newContent`. */
  function Edit(s: seq<Component>, id: int, newContent: string): (r: seq<Component>)
    ensures |r| == |s|
    ensures forall k :: 0 <= k < |s| ==> r[k].id == s[k].id && r[k].kind == s[k].kind
    ensures forall k :: 0 <= k < |s| && s[k].id == id ==> r[k].content == newContent
    ensures forall k :: 0 <= k < |s| && s[k].id != id ==> r[k] == s[k]
  {
    if s == [] then []
    else [if s[0].id == id then s[0].(content := newContent) else s[0]] + Edit(s[1..], id, newContent)
  }

  /** Editing an id no component has changes nothing. */
  lemma EditAbsent(s: seq<Component>, id: int, newContent: string)
    requires Fresh(s, id)
    ensures Edit(s, id, newContent) == s
  {
    var r := Edit(s, id, newContent);
    forall k | 0 <= k < |s| ensures r[k] == s[k] {
      assert s[k] in s;
    }
  }

  /** Editing twice with the same content is the same as editing once. */
  lemma EditIdempotent(s: seq<Component>, id: int, newContent: string)
    ensures Edit(Edit(s, id, newContent), id, newContent) == Edit(s, id, newContent)
  {
    var r := Edit(s, id, newContent);
    var t := Edit(r, id, newContent);
    forall k | 0 <= k < |s| ensures t[k] == r[k] {
      if s[k].id == id {
        assert t[k].content == newContent == r[k].content;
      }
    }
  }

  /** When ids are unique, editing an id that is present changes exactly the
      one component at its index, and only that component's content. */
  lemma EditUnique(s: seq<Component>, k: nat, newContent: string)
    requires UniqueIds(s)
    requires k < |s|
    ensures Edit(s, s[k].id, newContent) == s[k := s[k].(content := newContent)]
  {
    var r := Edit(s, s[k].id, newContent);
    var t := s[k := s[k].(content := newContent)];
    forall m | 0 <= m < |s| ensures r[m] == t[m] {
      if m == k {
        assert r[m].id == s[m].id && r[m].kind == s[m].kind && r[m].content == newContent;
      }
    }
  }

  /** Editing keeps the ids unique. */
  lemma EditKeepsUniqueIds(s: seq<Component>, id: int, newContent: string)
    requires UniqueIds(s)
    ensures UniqueIds(Edit(s, id, newContent))
  {
    var r := Edit(s, id, newContent);
    forall i, j | 0 <= i < j < |r| ensures r[i].id != r[j].id {
      assert r[i].id == s[i].id && r[j].id == s[j].id;
    }
  }

  // ---------------------------------------------------------------------
  // Move: take the component at one index out and put it back at another.
  // ---------------------------------------------------------------------

  /** Reference definition of a move, position by position: index `j` holds
      the moved element; the elements between the two indices shift by one
      towards the vacated slot; everything outside them stays put. */
  function Moved(s: seq<Component>, i: nat, j: nat): (r: seq<Component>)
    requires i < |s| && j < |s|
    ensures |r| == |s|
    ensures r[j] == s[i]
    ensures RemoveAt(r, j) == RemoveAt(s, i)
  {
    var r := seq(|s|, k requires 0 <= k < |s| =>
                   if k == j then s[i]
                   else if i <= k < j then s[k + 1]
                   else if j < k <= i then s[k - 1]
                   else s[k]);
    assert |RemoveAt(r, j)| == |RemoveAt(s, i)|;
    assert forall k :: 0 <= k < |s| - 1 ==> RemoveAt(r, j)[k] == RemoveAt(s, i)[k];
    r
  }

  /** `moveComponent`: copy the list, splice out the element at `dragIndex`,
      splice it back in at `hoverIndex`. */
  method Move(s: seq<Component>, dragIndex: nat, hoverIndex: nat) returns (r: seq<Component>)
    requires dragIndex < |s| && hoverIndex < |s|
    ensures r == Moved(s, dragIndex, hoverIndex)
  {
    var newComponents := s;
    var draggedItem := newComponents[dragIndex];
    newComponents := newComponents[..dragIndex] + newComponents[dragIndex + 1..];
    newComponents := newComponents[..hoverIndex] + [draggedItem] + newComponents[hoverIndex..];
    r := newComponents;
    RemoveAtDetermines(r, Moved(s, dragIndex, hoverIndex), hoverIndex);
  }

  /** A list is determined by its length, its element at one index and what
      is left once that element is taken out. */
  lemma RemoveAtDetermines(a: seq<Component>, b: seq<Component>, j: nat)
    requires j < |a| == |b|
    requires a[j] == b[j]
    requires RemoveAt(a, j) == RemoveAt(b, j)
    ensures a == b
  {
    forall k | 0 <= k < |a| ensures a[k] == b[k] {
      if k < j {
        assert a[k] == RemoveAt(a, j)[k];
        assert b[k] == RemoveAt(b, j)[k];
      } else if k > j {
        assert a[k] == RemoveAt(a, j)[k - 1];
        assert b[k] == RemoveAt(b, j)[k - 1];
      }
    }
  }

  /** Taking out one element leaves a multiset one copy of it smaller. */
  lemma MultisetRemoveAt(s: seq<Component>, i: nat)
    requires i < |s|
    ensures multiset(s) == multiset(RemoveAt(s, i)) + multiset{s[i]}
  {
    assert s == s[..i] + [s[i]] + s[i + 1..];
  }

  /** A move is a permutation of the list. */
  lemma MovedIsPermutation(s: seq<Component>, i: nat, j: nat)
    requires i < |s| && j < |s|
    ensures multiset(Moved(s, i, j)) == multiset(s)
  {
    MultisetRemoveAt(s, i);
    MultisetRemoveAt(Moved(s, i, j), j);
  }

  /** Moving an element onto its own index is the identity. */
  lemma MovedSelf(s: seq<Component>, i: nat)
    requires i < |s|
    ensures Moved(s, i, i) == s
  {
    RemoveAtDetermines(Moved(s, i, i), s, i);
  }

  /** Moving back undoes a move. */
  lemma MovedBack(s: seq<Component>, i: nat, j: nat)
    requires i < |s| && j < |s|
    ensures Moved(Moved(s, i, j), j, i) == s
  {
    RemoveAtDetermines(Moved(Moved(s, i, j), j, i), s, i);
  }

  /** Taking one element out of a list with unique ids leaves a list with
      unique ids that does not contain the id taken out. */
  lemma UniqueIdsRemoveAt(s: seq<Component>, i: nat)
    requires i < |s| && UniqueIds(s)
    ensures UniqueIds(RemoveAt(s, i)) && Fresh(RemoveAt(s, i), s[i].id)
  {
    var t := RemoveAt(s, i);
    forall a, b | 0 <= a < b < |t| ensures t[a].id != t[b].id {
      var a' := if a < i then a else a + 1;
      var b' := if b < i then b else b + 1;
      assert t[a] == s[a'] && t[b] == s[b'];
    }
    forall c | c in t ensures c.id != s[i].id {
      var a :| 0 <= a < |t| && t[a] == c;
      var a' := if a < i then a else a + 1;
      assert t[a] == s[a'];
    }
  }

  /** The converse: putting back one element whose id the rest does not
      contain gives a list with unique ids. */
  lemma UniqueIdsFromRemoveAt(s: seq<Component>, i: nat)
    requires i < |s|
    requires UniqueIds(RemoveAt(s, i)) && Fresh(RemoveAt(s, i), s[i].id)
    ensures UniqueIds(s)
  {
    var t := RemoveAt(s, i);
    forall a, b | 0 <= a < b < |s| ensures s[a].id != s[b].id {
      if a == i {
        assert s[b] == t[b - 1];
        assert t[b - 1] in t;
      } else if b == i {
        var a' := if a < i then a else a - 1;
        assert s[a] == t[a'];
        assert t[a'] in t;
      } else {
        var a' := if a < i then a else a - 1;
        var b' := if b < i then b else b - 1;
        assert s[a] == t[a'] && s[b] == t[b'];
      }
    }
  }

  /** A move keeps the ids unique. */
  lemma MovedKeepsUniqueIds(s: seq<Component>, i: nat, j: nat)
    requires i < |s| && j < |s|
    requires UniqueIds(s)
    ensures UniqueIds(Moved(s, i, j))
  {
    UniqueIdsRemoveAt(s, i);
    UniqueIdsFromRemoveAt(Moved(s, i, j), j);
  }
}
