// What holds of every table the transactions can produce, and where each of
// them puts a document among its siblings.
module DocumentInvariant {
  import opened Prelude
  import opened DocumentTable
  import opened DocumentForest

  predicate UnderArchived(t: Table, x: Id)
    requires x in t
  {
    t[x].parent.Some? && t[x].parent.value in t && t[t[x].parent.value].Archived()
  }

  /** No active document has an archived parent. */
  ghost predicate ArchiveClosed(t: Table) {
    forall x :: x in t && UnderArchived(t, x) ==> t[x].Archived()
  }

  ghost predicate ArchivedUnpublished(t: Table) {
    forall x :: x in t && t[x].Archived() ==> !t[x].isPublished && t[x].publishedAt.None?
  }

  predicate AreSiblings(a: Doc, b: Doc) {
    a.workspace == b.workspace && a.parent == b.parent
  }

  /** Positions under one parent, archived rows included, are pairwise distinct. */
  ghost predicate DistinctSiblings(t: Table) {
    forall x, y :: x in t && y in t && x != y && AreSiblings(t[x], t[y]) ==> t[x].position != t[y].position
  }

  ghost predicate SlugsUnique(t: Table) {
    forall x, y :: x in t && y in t && x != y && t[x].publicSlug.Some? ==> t[x].publicSlug != t[y].publicSlug
  }

  /** A document has a publication date only while it is published. */
  ghost predicate DatedWhenPublished(t: Table) {
    forall x :: x in t && t[x].publishedAt.Some? ==> t[x].isPublished
  }

  ghost predicate TreeInv(t: Table) {
    && Keyed(t)
    && EdgesInside(t)
    && Forest(t)
    && ArchiveClosed(t)
    && ArchivedUnpublished(t)
    && DistinctSiblings(t)
    && SlugsUnique(t)
    && DatedWhenPublished(t)
  }

  /** Archive closure reaches the whole chain: every ancestor of an active document is active. */
  lemma {:induction false} ActiveChain(t: Table, x: Id, n: nat)
    requires EdgesInside(t) && ArchiveClosed(t)
    requires x in t && !t[x].Archived() && Up(t, Some(x), n).Some?
    ensures Scoped(t, t[x].workspace, Up(t, Some(x), n).value)
    ensures !t[Up(t, Some(x), n).value].Archived()
  {
    if n > 0 {
      UpStep(t, Some(x), n - 1);
      ActiveChain(t, x, n - 1);
    }
  }

  // ----- positions -----

  /** A new last position exceeds every sibling's. */
  lemma NextPositionLast(t: Table, w: Id, p: Option<Id>, y: Id)
    requires Keyed(t) && Scoped(t, w, y) && t[y].parent == p
    ensures t[y].position < NextPosition(t, w, p)
  {
    var s := Siblings(t, w, p);
    assert t[y] in s;
    var j :| 0 <= j < |s| && s[j] == t[y];
    assert j < |s| - 1 ==> RowLeq(s[j], s[|s| - 1]);
  }

  /** The position computed beside `s[i]` separates the siblings up to `s[i]` from those after it. */
  lemma BesideSeparates(s: seq<Doc>, i: nat, placement: Option<Placement>, j: nat)
    requires Sorted(s) && i < |s| && j < |s|
    requires forall a, b :: 0 <= a < b < |s| ==> s[a].position != s[b].position
    ensures s[j].position != PositionBeside(s, i, placement)
    ensures s[j].position < PositionBeside(s, i, placement) <==>
            if placement == Some(Before) then s[j].position < s[i].position else s[j].position <= s[i].position
  {
    assert forall a, b :: 0 <= a < b < |s| ==> RowLeq(s[a], s[b]);
    assert forall a, b :: 0 <= a < b < |s| ==> s[a].position < s[b].position;
  }

  /** On which side of the new position does a sibling at `y` lie? */
  predicate ComesFirst(t: Table, y: real, reference: Option<Id>, placement: Option<Placement>)
    requires reference.Some? ==> reference.value in t
  {
    match reference
    case None => true
    case Some(r) => if placement == Some(Before) then y < t[r].position else y <= t[r].position
  }

  /** A computed position is new under its parent, and directly before, directly after or last. */
  lemma ComputedPosition(t: Table, w: Id, p: Option<Id>, reference: Option<Id>, placement: Option<Placement>, y: Id)
    requires Keyed(t) && DistinctSiblings(t)
    requires Scoped(t, w, y) && t[y].parent == p
    requires ComputePosition(t, w, p, reference, placement).Ok?
    ensures reference.Some? ==> Scoped(t, w, reference.value) && t[reference.value].parent == p
    ensures t[y].position != ComputePosition(t, w, p, reference, placement).value
    ensures t[y].position < ComputePosition(t, w, p, reference, placement).value <==>
            ComesFirst(t, t[y].position, reference, placement)
  {
    if reference.None? {
      NextPositionLast(t, w, p, y);
    } else {
      var s := Siblings(t, w, p);
      var i := IndexOf(s, reference.value);
      assert s[i] in s && t[y] in s;
      var j :| 0 <= j < |s| && s[j] == t[y];
      forall a, b | 0 <= a < b < |s| ensures s[a].position != s[b].position {
        assert s[a] in s && s[b] in s;
        assert s[a].id != s[b].id;
        assert AreSiblings(t[s[a].id], t[s[b].id]);
      }
      BesideSeparates(s, i, placement, j);
    }
  }

  lemma ReferenceIsSibling(t: Table, w: Id, p: Option<Id>, reference: Id, placement: Option<Placement>)
    requires Keyed(t)
    ensures ComputePosition(t, w, p, Some(reference), placement).Ok? <==>
            Scoped(t, w, reference) && t[reference].parent == p
  {
    var s := Siblings(t, w, p);
    var i := IndexOf(s, reference);
    if i >= 0 { assert s[i] in s; }
    if Scoped(t, w, reference) && t[reference].parent == p { assert t[reference] in s; }
  }

  /**
   * An accepted move changes only the moved row and puts it under its new
   * parent directly before or after the reference, or last; all the other
   * siblings keep their positions.
   */
  lemma MovePlaces(t: Table, w: Id, d: Id, newParent: Option<Id>, reference: Option<Id>, placement: Option<Placement>)
    requires TreeInv(t)
    requires Move(t, w, d, newParent, reference, placement).Ok?
    ensures var t' := Move(t, w, d, newParent, reference, placement).value;
            && t'.Keys == t.Keys
            && (forall y :: y in t && y != d ==> t'[y] == t[y])
            && t'[d] == t[d].(parent := newParent, position := t'[d].position)
            && (reference.Some? ==> reference.value in t)
            && forall y :: y in t && y != d && AreSiblings(t'[y], t'[d]) ==>
                 && t'[y].position != t'[d].position
                 && (t'[y].position < t'[d].position <==> ComesFirst(t, t'[y].position, reference, placement))
  {
    var t' := Move(t, w, d, newParent, reference, placement).value;
    if reference.Some? { ReferenceIsSibling(t, w, newParent, reference.value, placement); }
    forall y | y in t && y != d && AreSiblings(t'[y], t'[d])
      ensures t'[y].position != t'[d].position
      ensures t'[y].position < t'[d].position <==> ComesFirst(t, t'[y].position, reference, placement)
    {
      ComputedPosition(t, w, newParent, reference, placement, y);
    }
  }

  // ----- each transaction keeps the invariant -----

  lemma CreateKeeps(t: Table, w: Id, id: Id, parent: Option<Id>, limit: Option<nat>)
    requires TreeInv(t) && id !in t
    requires Create(t, w, id, parent, limit).Ok?
    ensures TreeInv(Create(t, w, id, parent, limit).value)
    ensures forall y :: y in t && t[y].workspace == w && t[y].parent == parent ==>
              t[y].position < Create(t, w, id, parent, limit).value[id].position
  {
    var t' := Create(t, w, id, parent, limit).value;
    forall y | y in t && t[y].workspace == w && t[y].parent == parent
      ensures t[y].position < t'[id].position
    {
      NextPositionLast(t, w, parent, y);
    }
    if parent.Some? && Reaches(t, parent.value, id) {
      var n: nat :| Up(t, parent, n) == Some(id);
      ChainScoped(t, parent.value, n);
    }
    RehangForest(t, t', id, parent);
    AddLeaf(t, t', id);
  }

  /** A new active, unpublished row under an active parent, after all its siblings. */
  lemma AddLeaf(t: Table, t': Table, id: Id)
    requires TreeInv(t) && Forest(t') && id !in t && id in t' && t' == t[id := t'[id]]
    requires t'[id].id == id && !t'[id].Archived() && !t'[id].isPublished && t'[id].publishedAt.None? && t'[id].publicSlug.None?
    requires t'[id].parent.Some? ==>
               Scoped(t, t'[id].workspace, t'[id].parent.value) && !t[t'[id].parent.value].Archived()
    requires forall y :: y in t && AreSiblings(t[y], t'[id]) ==> t[y].position < t'[id].position
    ensures TreeInv(t')
  {
    forall x | x in t' && UnderArchived(t', x) ensures t'[x].Archived() {
      if x != id && t'[x].parent.value != id { assert UnderArchived(t, x); }
    }
    forall x, y | x in t' && y in t' && x != y && AreSiblings(t'[x], t'[y])
      ensures t'[x].position != t'[y].position
    {
      if x == id { assert AreSiblings(t[y], t'[id]); }
      else if y == id { assert AreSiblings(t[x], t'[id]); }
      else { assert AreSiblings(t[x], t[y]); }
    }
  }

  /** All of the invariant but the forest survives any accepted move. */
  lemma MoveKeepsRest(t: Table, w: Id, d: Id, newParent: Option<Id>, reference: Option<Id>, placement: Option<Placement>)
    requires TreeInv(t)
    requires Move(t, w, d, newParent, reference, placement).Ok?
    ensures var t' := Move(t, w, d, newParent, reference, placement).value;
            Forest(t') ==> TreeInv(t')
  {
    var t' := Move(t, w, d, newParent, reference, placement).value;
    MovePlaces(t, w, d, newParent, reference, placement);
    RehangKeeps(t, t', d, newParent);
    MoveKeepsDistinct(t, t', d);
  }

  lemma RehangKeeps(t: Table, t': Table, d: Id, newParent: Option<Id>)
    requires Keyed(t) && EdgesInside(t) && ArchiveClosed(t) && ArchivedUnpublished(t) && SlugsUnique(t) && DatedWhenPublished(t)
    requires d in t && !t[d].Archived()
    requires newParent.Some? ==> Scoped(t, t[d].workspace, newParent.value) && !t[newParent.value].Archived()
    requires d in t' && t' == t[d := t[d].(parent := newParent, position := t'[d].position)]
    ensures Keyed(t') && EdgesInside(t') && ArchiveClosed(t') && ArchivedUnpublished(t') && SlugsUnique(t') && DatedWhenPublished(t')
  {
    forall x | x in t' && UnderArchived(t', x) ensures t'[x].Archived() {
      if x != d { assert UnderArchived(t, x); }
    }
  }

  lemma MoveKeepsDistinct(t: Table, t': Table, d: Id)
    requires DistinctSiblings(t) && t'.Keys == t.Keys && d in t
    requires forall y :: y in t && y != d ==> t'[y] == t[y]
    requires forall y :: y in t && y != d && AreSiblings(t'[y], t'[d]) ==> t'[y].position != t'[d].position
    ensures DistinctSiblings(t')
  {
    forall x, y | x in t' && y in t' && x != y && AreSiblings(t'[x], t'[y])
      ensures t'[x].position != t'[y].position
    {
      if x == d {
        assert AreSiblings(t'[y], t'[d]);
      } else if y != d {
        assert AreSiblings(t[x], t[y]);
      }
    }
  }

  /** An accepted move keeps the forest exactly when the new parent does not lie below the moved document. */
  lemma MoveForest(t: Table, w: Id, d: Id, newParent: Option<Id>, reference: Option<Id>, placement: Option<Placement>)
    requires TreeInv(t)
    requires Move(t, w, d, newParent, reference, placement).Ok?
    ensures Forest(Move(t, w, d, newParent, reference, placement).value) <==>
            (newParent.None? || !Reaches(t, newParent.value, d))
  {
    RehangForest(t, Move(t, w, d, newParent, reference, placement).value, d, newParent);
  }

  /** The chain from `x` has at most as many nodes as the ancestor check looks at. */
  predicate Shallow(t: Table, x: Id) {
    Up(t, Some(x), MAX_DEPTH) == None
  }

  lemma MoveKeeps(t: Table, w: Id, d: Id, newParent: Option<Id>, reference: Option<Id>, placement: Option<Placement>)
    requires TreeInv(t)
    requires newParent.Some? ==> Shallow(t, newParent.value)
    requires Move(t, w, d, newParent, reference, placement).Ok?
    ensures TreeInv(Move(t, w, d, newParent, reference, placement).value)
  {
    MoveForest(t, w, d, newParent, reference, placement);
    MoveKeepsRest(t, w, d, newParent, reference, placement);
    if newParent.Some? { EnoughFuel(t, newParent.value, d, MAX_DEPTH); }
  }

  /** Beyond that depth the check has a hole: the ancestor just out of its sight may be moved under `x`. */
  lemma DeepMoveBreaks(t: Table, x: Id)
    requires TreeInv(t) && x in t && !t[x].Archived() && !Shallow(t, x)
    ensures var a := Up(t, Some(x), MAX_DEPTH).value;
            a in t &&
            var r := Move(t, t[x].workspace, a, Some(x), None, None);
            r.Ok? && !Forest(r.value)
  {
    var a := Up(t, Some(x), MAX_DEPTH).value;
    ActiveChain(t, x, MAX_DEPTH);
    if DescendantWithin(t, Some(x), a, MAX_DEPTH) {
      var i := WithinMeets(t, Some(x), a, MAX_DEPTH);
      OncePerChain(t, x, i, MAX_DEPTH);
    }
    var zero: nat := 0;
    OncePerChain(t, x, zero, MAX_DEPTH);
    MoveForest(t, t[x].workspace, a, Some(x), None, None);
  }

  /** Does every move the server accepts on `t` leave a forest? */
  ghost predicate MovesKeepForest(t: Table)
    requires Keyed(t)
  {
    forall w, d, newParent, reference, placement ::
      Move(t, w, d, newParent, reference, placement).Ok? ==>
        Forest(Move(t, w, d, newParent, reference, placement).value)
  }

  /** Exactly when the bounded check is enough: every active document's chain has at most 1000 nodes. */
  lemma MovesKeepForestExactly(t: Table)
    requires TreeInv(t)
    ensures MovesKeepForest(t) <==> forall x :: x in t && !t[x].Archived() ==> Shallow(t, x)
  {
    if x :| x in t && !t[x].Archived() && !Shallow(t, x) {
      DeepMoveBreaks(t, x);
    } else {
      forall w, d, newParent, reference, placement |
        Move(t, w, d, newParent, reference, placement).Ok?
        ensures Forest(Move(t, w, d, newParent, reference, placement).value)
      {
        MoveKeeps(t, w, d, newParent, reference, placement);
      }
    }
  }

  /** Membership of a subtree passes from parent to child, and from child to parent except at its root. */
  lemma SubtreeEdge(t: Table, root: Id, x: Id)
    requires EdgesInside(t) && x in t && t[x].parent.Some?
    ensures t[x].parent.value in Subtree(t, root) ==> x in Subtree(t, root)
    ensures x in Subtree(t, root) && x != root ==> t[x].parent.value in Subtree(t, root)
  {
    var p := t[x].parent.value;
    if p in Subtree(t, root) {
      var n: nat :| Up(t, Some(p), n) == Some(root);
      assert Up(t, Some(x), n + 1) == Some(root);
    }
    if x in Subtree(t, root) && x != root {
      var n: nat :| Up(t, Some(x), n) == Some(root);
      assert Up(t, Some(p), n - 1) == Some(root);
    }
  }

  /** Rewriting flags and dates leaves the tree, the order and the slugs alone. */
  lemma FlagsOnly(t: Table, t': Table)
    requires Keyed(t) && EdgesInside(t) && Forest(t) && DistinctSiblings(t) && SlugsUnique(t)
    requires t'.Keys == t.Keys
    requires forall x :: x in t ==> t'[x].id == t[x].id && t'[x].workspace == t[x].workspace && t'[x].parent == t[x].parent
    requires forall x :: x in t ==> t'[x].position == t[x].position && t'[x].publicSlug == t[x].publicSlug
    ensures Keyed(t') && EdgesInside(t') && Forest(t') && DistinctSiblings(t') && SlugsUnique(t')
  {
    SameParentsSameForest(t, t');
    forall x, y | x in t' && y in t' && x != y && AreSiblings(t'[x], t'[y])
      ensures t'[x].position != t'[y].position
    {
      assert AreSiblings(t[x], t[y]);
    }
  }

  lemma ArchiveKeeps(t: Table, w: Id, d: Id, now: Time)
    requires TreeInv(t) && Archive(t, w, d, now).Ok?
    ensures TreeInv(Archive(t, w, d, now).value)
  {
    var ids := Subtree(t, d);
    var t' := Archive(t, w, d, now).value;
    FlagsOnly(t, t');
    forall x | x in t' && UnderArchived(t', x) ensures t'[x].Archived() {
      SubtreeEdge(t, d, x);
      if x !in ids { assert UnderArchived(t, x); }
    }
  }

  /** Clearing the archive flags below `d` can only leave `d` itself under an archived parent. */
  lemma ActivateKeeps(t: Table, d: Id)
    requires TreeInv(t) && d in t
    ensures var t1 := ActivateRows(t, Subtree(t, d));
            && Keyed(t1) && EdgesInside(t1) && Forest(t1) && DistinctSiblings(t1) && SlugsUnique(t1)
            && ArchivedUnpublished(t1) && DatedWhenPublished(t1) && !t1[d].Archived()
            && forall x :: x in t1 && x != d && UnderArchived(t1, x) ==> t1[x].Archived()
  {
    var ids := Subtree(t, d);
    var t1 := ActivateRows(t, ids);
    FlagsOnly(t, t1);
    var zero: nat := 0;
    assert Up(t, Some(d), zero) == Some(d);
    forall x | x in t1 && x != d && UnderArchived(t1, x) ensures t1[x].Archived() {
      SubtreeEdge(t, d, x);
      assert UnderArchived(t, x);
    }
  }

  lemma RestoreKeeps(t: Table, w: Id, d: Id)
    requires TreeInv(t) && Restore(t, w, d).Ok?
    ensures TreeInv(Restore(t, w, d).value)
  {
    ActivateKeeps(t, d);
    ReattachKeeps(ActivateRows(t, Subtree(t, d)), w, d);
  }

  /**
   * A restored document keeps its place, unless its parent is still archived:
   * then it becomes the last root. Nothing else moves.
   */
  lemma RestorePlaces(t: Table, w: Id, d: Id)
    requires TreeInv(t) && Restore(t, w, d).Ok?
    ensures var t' := Restore(t, w, d).value;
            && t'.Keys == t.Keys
            && (forall y :: y in t && y != d ==> SamePlace(t[y], t'[y]))
            && (if UnderArchived(t, d) then t'[d].parent.None? && LastRoot(t, w, d, t'[d].position) else SamePlace(t[d], t'[d]))
  {
    var t1 := ActivateRows(t, Subtree(t, d));
    if t[d].parent.Some? { ParentOutside(t, d); }
    assert Dangling(t1, w, d) <==> UnderArchived(t, d);
    ActivatedLast(t, t1, w, d);
  }

  predicate SamePlace(a: Doc, b: Doc) {
    a.workspace == b.workspace && a.parent == b.parent && a.position == b.position
  }

  predicate LastRoot(t: Table, w: Id, d: Id, position: real) {
    forall y :: y in t && y != d && t[y].workspace == w && t[y].parent.None? ==> t[y].position < position
  }

  lemma ActivatedLast(t: Table, t1: Table, w: Id, d: Id)
    requires Keyed(t1) && t1.Keys == t.Keys && forall y :: y in t ==> SamePlace(t[y], t1[y])
    ensures LastRoot(t, w, d, NextPosition(t1, w, None))
  {
    forall y | y in t && y != d && t[y].workspace == w && t[y].parent.None?
      ensures t[y].position < NextPosition(t1, w, None)
    {
      NextPositionLast(t1, w, None, y);
    }
  }

  /** A document's parent is not in its subtree. */
  lemma ParentOutside(t: Table, d: Id)
    requires Forest(t) && d in t && t[d].parent.Some?
    ensures t[d].parent.value !in Subtree(t, d)
  {
    var p := t[d].parent.value;
    if p in Subtree(t, d) {
      var n: nat :| Up(t, Some(p), n) == Some(d);
      assert Up(t, Some(d), n + 1) == Up(t, t[d].parent, n);
      var zero: nat := 0;
      OncePerChain(t, d, zero, n + 1);
    }
  }

  lemma ReattachKeeps(t: Table, w: Id, d: Id)
    requires Keyed(t) && EdgesInside(t) && Forest(t) && DistinctSiblings(t) && SlugsUnique(t)
    requires ArchivedUnpublished(t) && DatedWhenPublished(t)
    requires Scoped(t, w, d) && !t[d].Archived()
    requires forall x :: x in t && x != d && UnderArchived(t, x) ==> t[x].Archived()
    ensures TreeInv(Reattach(t, w, d))
  {
    var t' := Reattach(t, w, d);
    if Dangling(t, w, d) {
      RehangForest(t, t', d, None);
      RootedKeeps(t, t', d);
      forall y | y in t && y != d && AreSiblings(t'[y], t'[d]) ensures t'[y].position != t'[d].position {
        NextPositionLast(t, w, None, y);
      }
      MoveKeepsDistinct(t, t', d);
    } else {
      assert !UnderArchived(t, d);
    }
  }

  /** Making an active document a root leaves it under no archived parent. */
  lemma RootedKeeps(t: Table, t': Table, d: Id)
    requires Keyed(t) && EdgesInside(t) && SlugsUnique(t) && ArchivedUnpublished(t) && DatedWhenPublished(t)
    requires d in t && !t[d].Archived() && d in t'
    requires t' == t[d := t[d].(parent := None, position := t'[d].position)]
    requires forall x :: x in t && x != d && UnderArchived(t, x) ==> t[x].Archived()
    ensures Keyed(t') && EdgesInside(t') && SlugsUnique(t') && ArchivedUnpublished(t') && DatedWhenPublished(t')
    ensures ArchiveClosed(t')
  {
    forall x | x in t' && UnderArchived(t', x) ensures t'[x].Archived() {
      assert x != d;
      assert UnderArchived(t, x);
    }
  }

  lemma PublishKeeps(t: Table, w: Id, d: Id, requested: Option<Slug>, titleSlug: Slug, suffixes: seq<Slug>, now: Time)
    requires TreeInv(t) && Publish(t, w, d, requested, titleSlug, suffixes, now).Ok?
    ensures TreeInv(Publish(t, w, d, requested, titleSlug, suffixes, now).value)
  {
    var t' := Publish(t, w, d, requested, titleSlug, suffixes, now).value;
    SameParentsSameForest(t, t');
    forall x, y | x in t' && y in t' && x != y && AreSiblings(t'[x], t'[y])
      ensures t'[x].position != t'[y].position
    {
      assert AreSiblings(t[x], t[y]);
    }
    forall x | x in t' && UnderArchived(t', x) ensures t'[x].Archived() {
      assert UnderArchived(t, x);
    }
  }

  lemma UnpublishKeeps(t: Table, w: Id, d: Id)
    requires TreeInv(t) && Unpublish(t, w, d).Ok?
    ensures TreeInv(Unpublish(t, w, d).value)
  {
    var t' := Unpublish(t, w, d).value;
    FlagsOnly(t, t');
    forall x | x in t' && UnderArchived(t', x) ensures t'[x].Archived() {
      assert UnderArchived(t, x);
    }
  }
}
