// The sidebar's own version of a move: what a drop means, and the list shown
// before the server has answered.
module DragMove {
  import opened Prelude
  import opened DocumentTable
  import opened DocumentForest
  import opened DocumentInvariant
  import opened DocumentList

  datatype Zone = BeforeRow | InsideRow | AfterRow

  datatype Target = RootZone | Row(id: Id, zone: Zone)

  datatype ResolvedMove = ResolvedMove(parent: Option<Id>, reference: Option<Id>, placement: Option<Placement>)

  /** Is `candidate` `ancestor` itself or below it, as far as the list shows? */
  predicate IsSelfOrDescendant(docs: seq<Doc>, ancestor: Id, candidate: Id) {
    DescendantWithin(ById(docs), Some(candidate), ancestor, |docs| + 2)
  }

  /** The walk as the browser performs it. */
  method WalkToAncestor(docs: seq<Doc>, ancestor: Id, candidate: Id) returns (r: bool)
    ensures r <==> Reaches(ById(docs), candidate, ancestor)
  {
    WalkExact(docs, ancestor, candidate);
    if ancestor == candidate {
      return true;
    }
    var byId := ById(docs);
    var current := if candidate in byId then Some(byId[candidate]) else None;
    ghost var node := Some(candidate);
    var maxDepth := |docs| + 1;
    var i := 0;
    while i < maxDepth && current.Some? && current.value.parent.Some?
      invariant 0 <= i <= maxDepth
      invariant node.Some? && node != Some(ancestor)
      invariant current == if node.value in byId then Some(byId[node.value]) else None
      invariant IsSelfOrDescendant(docs, ancestor, candidate) <==>
                DescendantWithin(byId, node, ancestor, maxDepth + 1 - i)
    {
      var parent := current.value.parent.value;
      if parent == ancestor {
        return true;
      }
      node := Some(parent);
      current := if parent in byId then Some(byId[parent]) else None;
      i := i + 1;
    }
    return false;
  }

  /** n + 1 steps are enough on every list, cyclic ones included. */
  lemma WalkExact(docs: seq<Doc>, ancestor: Id, candidate: Id)
    ensures IsSelfOrDescendant(docs, ancestor, candidate) <==> Reaches(ById(docs), candidate, ancestor)
  {
    var m := ById(docs);
    if Reaches(m, candidate, ancestor) {
      var k := MetEarly(m, candidate, ancestor);
      MeetsWithin(m, Some(candidate), ancestor, |docs| + 2, k);
    }
    if IsSelfOrDescendant(docs, ancestor, candidate) {
      var k := WithinMeets(m, Some(candidate), ancestor, |docs| + 2);
      assert Up(m, Some(candidate), k) == Some(ancestor);
    }
  }

  // ----- the optimistic move -----

  /** The siblings a moved node will have, without the node itself. */
  function OtherSiblings(docs: seq<Doc>, node: Id, parent: Option<Id>): seq<Doc> {
    SortByPosition(Without(ChildList(docs, parent), node))
  }

  function OptimisticPosition(siblings: seq<Doc>, reference: Option<Id>, placement: Option<Placement>): real {
    var i := if reference.Some? then IndexOf(siblings, reference.value) else -1;
    if i == -1 then
      (if siblings == [] then 0.0 else siblings[|siblings| - 1].position) + POSITION_STEP
    else if placement == Some(Before) then
      if i > 0 then (siblings[i - 1].position + siblings[i].position) / 2.0
      else siblings[i].position - POSITION_STEP
    else if i + 1 < |siblings| then (siblings[i].position + siblings[i + 1].position) / 2.0
    else siblings[i].position + POSITION_STEP
  }

  function ComputeOptimisticMove(docs: seq<Doc>, node: Id, move: ResolvedMove): (r: seq<Doc>)
    ensures |r| == |docs|
    ensures forall i :: 0 <= i < |docs| && docs[i].id != node ==> r[i] == docs[i]
    ensures forall i :: 0 <= i < |docs| ==> r[i] == docs[i].(parent := r[i].parent, position := r[i].position)
  {
    var position := OptimisticPosition(OtherSiblings(docs, node, move.parent), move.reference, move.placement);
    seq(|docs|, i requires 0 <= i < |docs| =>
      if docs[i].id == node then docs[i].(parent := move.parent, position := position) else docs[i])
  }

  /** Would a sibling at `y` come before the moved node? Without a listed reference the node goes last. */
  predicate ComesFirstInList(docs: seq<Doc>, node: Id, y: real, move: ResolvedMove) {
    var reference := if move.reference.Some? && move.reference != Some(node)
                     then Find(ChildList(docs, move.parent), move.reference.value) else None;
    match reference
    case None => true
    case Some(r) => if move.placement == Some(Before) then y < r.position else y <= r.position
  }

  /** The optimistic position separates an ascending list at the reference, or is past its end. */
  lemma OptimisticSeparates(s: seq<Doc>, reference: Option<Id>, placement: Option<Placement>, j: nat)
    requires StrictlyAscending(s) && j < |s|
    ensures var position := OptimisticPosition(s, reference, placement);
            var i := if reference.Some? then IndexOf(s, reference.value) else -1;
            && s[j].position != position
            && (s[j].position < position <==>
                (i == -1 || if placement == Some(Before) then s[j].position < s[i].position
                            else s[j].position <= s[i].position))
  {
  }

  lemma OptimisticPlaces(docs: seq<Doc>, node: Id, move: ResolvedMove, y: Doc)
    requires DistinctIds(docs) && DistinctPositions(docs)
    requires y in docs && y.id != node && y.parent == move.parent
    ensures var position := OptimisticPosition(OtherSiblings(docs, node, move.parent), move.reference, move.placement);
            && y.position != position
            && (y.position < position <==> ComesFirstInList(docs, node, y.position, move))
  {
    var children := ChildList(docs, move.parent);
    var s := OtherSiblings(docs, node, move.parent);
    ChildListKeepsDistinct(docs, move.parent);
    WithoutKeepsDistinct(children, node);
    SortedSiblings(docs, move.parent, Without(children, node));
    assert y in s;
    var j :| 0 <= j < |s| && s[j] == y;
    OptimisticSeparates(s, move.reference, move.placement, j);
    if move.reference.Some? { ReferenceInList(docs, node, move); }
  }

  /** The reference is looked up among the other siblings: it is found when it is listed there. */
  lemma ReferenceInList(docs: seq<Doc>, node: Id, move: ResolvedMove)
    requires DistinctIds(docs) && move.reference.Some?
    ensures var s := OtherSiblings(docs, node, move.parent);
            var i := IndexOf(s, move.reference.value);
            var found := Find(ChildList(docs, move.parent), move.reference.value);
            if move.reference != Some(node) && found.Some? then i >= 0 && s[i] == found.value else i == -1
  {
    var s := OtherSiblings(docs, node, move.parent);
    var i := IndexOf(s, move.reference.value);
    var found := Find(ChildList(docs, move.parent), move.reference.value);
    if i >= 0 {
      assert s[i] in s && s[i].id != node;
      UniqueInList(docs, s[i], found.value);
    }
  }

  lemma UniqueInList(docs: seq<Doc>, a: Doc, b: Doc)
    requires DistinctIds(docs) && a in docs && b in docs && a.id == b.id
    ensures a == b
  {
    var i :| 0 <= i < |docs| && docs[i] == a;
    var j :| 0 <= j < |docs| && docs[j] == b;
  }

  // ----- the optimistic move against the server's -----

  /** The list shows some of the workspace's active rows, as they are stored. */
  ghost predicate Shows(docs: seq<Doc>, t: Table, w: Id) {
    && DistinctIds(docs)
    && forall d :: d in docs ==> d.id in t && t[d.id] == d && d.workspace == w && !d.Archived()
  }

  lemma ShownPositionsDiffer(docs: seq<Doc>, t: Table, w: Id)
    requires Shows(docs, t, w) && DistinctSiblings(t)
    ensures DistinctPositions(docs)
  {
    forall i, j | 0 <= i < j < |docs| && docs[i].parent == docs[j].parent
      ensures docs[i].position != docs[j].position
    {
      assert docs[i] in docs && docs[j] in docs;
      assert AreSiblings(t[docs[i].id], t[docs[j].id]);
    }
  }

  /** List and table give every shown document the same parent, and order shown siblings alike. */
  ghost predicate SameTree(docs: seq<Doc>, t: Table) {
    && (forall d :: d in docs ==> d.id in t && t[d.id].parent == d.parent)
    && (forall d, e :: d in docs && e in docs && d.parent == e.parent ==>
          (d.position < e.position <==> t[d.id].position < t[e.id].position))
  }

  /**
   * The optimistic list agrees with the server's table after the move,
   * whatever archived or hidden siblings the server also has: same parents,
   * same sibling order. The one exception is a document placed beside itself.
   */
  lemma OptimisticRefinesServer(docs: seq<Doc>, t: Table, w: Id, node: Id, move: ResolvedMove)
    requires TreeInv(t) && Shows(docs, t, w)
    requires move.reference.Some? ==> Find(docs, move.reference.value).Some?
    requires move.reference != Some(node)
    requires Move(t, w, node, move.parent, move.reference, move.placement).Ok?
    ensures SameTree(ComputeOptimisticMove(docs, node, move),
                     Move(t, w, node, move.parent, move.reference, move.placement).value)
  {
    var t' := Move(t, w, node, move.parent, move.reference, move.placement).value;
    var docs' := ComputeOptimisticMove(docs, node, move);
    MovePlaces(t, w, node, move.parent, move.reference, move.placement);
    ShownPositionsDiffer(docs, t, w);
    forall d | d in docs' ensures d.id in t' && t'[d.id].parent == d.parent {
      MovedRow(docs, t, w, node, move, d);
    }
    forall d, e | d in docs' && e in docs' && d.parent == e.parent
      ensures d.position < e.position <==> t'[d.id].position < t'[e.id].position
    {
      MovedRow(docs, t, w, node, move, d);
      MovedRow(docs, t, w, node, move, e);
      if e.id == node && d.id != node {
        BothPlace(docs, t, w, node, move, d);
      } else if d.id == node && e.id != node {
        BothPlace(docs, t, w, node, move, e);
      }
    }
  }

  /** What the optimistic list holds at each place. */
  lemma MovedRow(docs: seq<Doc>, t: Table, w: Id, node: Id, move: ResolvedMove, d: Doc)
    requires Shows(docs, t, w) && d in ComputeOptimisticMove(docs, node, move)
    ensures d.id in t && d.workspace == w
    ensures d.id != node ==> d in docs && t[d.id] == d
    ensures d.id == node ==> d.parent == move.parent
    ensures d.id == node ==>
              d.position == OptimisticPosition(OtherSiblings(docs, node, move.parent), move.reference, move.placement)
  {
    var docs' := ComputeOptimisticMove(docs, node, move);
    var i :| 0 <= i < |docs'| && docs'[i] == d;
    assert docs[i] in docs;
  }

  /** Both sides put the moved node on the same side of a shown sibling. */
  lemma BothPlace(docs: seq<Doc>, t: Table, w: Id, node: Id, move: ResolvedMove, y: Doc)
    requires TreeInv(t) && Shows(docs, t, w)
    requires move.reference.Some? ==> Find(docs, move.reference.value).Some?
    requires move.reference != Some(node)
    requires Move(t, w, node, move.parent, move.reference, move.placement).Ok?
    requires y in docs && y.id != node && y.parent == move.parent
    ensures var position := OptimisticPosition(OtherSiblings(docs, node, move.parent), move.reference, move.placement);
            var t' := Move(t, w, node, move.parent, move.reference, move.placement).value;
            && y.position != position && y.position != t'[node].position
            && (y.position < position <==> y.position < t'[node].position)
  {
    ShownPositionsDiffer(docs, t, w);
    MovePlaces(t, w, node, move.parent, move.reference, move.placement);
    OptimisticPlaces(docs, node, move, y);
    var t' := Move(t, w, node, move.parent, move.reference, move.placement).value;
    assert AreSiblings(t'[y.id], t'[node]);
    if move.reference.Some? {
      var r := Find(docs, move.reference.value).value;
      ReferenceIsSibling(t, w, move.parent, move.reference.value, move.placement);
      assert r in ChildList(docs, move.parent);
      UniqueInList(docs, r, Find(ChildList(docs, move.parent), r.id).value);
    }
  }

  /** Beside itself, the server keeps the document's place and the browser puts it last. */
  lemma BesideItselfPlaces(docs: seq<Doc>, t: Table, w: Id, node: Id, move: ResolvedMove, y: Doc)
    requires TreeInv(t) && Shows(docs, t, w)
    requires move.reference == Some(node)
    requires Move(t, w, node, move.parent, move.reference, move.placement).Ok?
    ensures t[node].parent == move.parent
    ensures y in docs && y.id != node && y.parent == move.parent ==>
            var t' := Move(t, w, node, move.parent, move.reference, move.placement).value;
            && t'[y.id] == y && y.position != t'[node].position
            && (y.position < t'[node].position <==> y.position < t[node].position)
            && y.position < OptimisticPosition(OtherSiblings(docs, node, move.parent), move.reference, move.placement)
  {
    var t' := Move(t, w, node, move.parent, move.reference, move.placement).value;
    ReferenceIsSibling(t, w, move.parent, node, move.placement);
    if y in docs && y.id != node && y.parent == move.parent {
      MovePlaces(t, w, node, move.parent, move.reference, move.placement);
      ShownPositionsDiffer(docs, t, w);
      OptimisticPlaces(docs, node, move, y);
      assert AreSiblings(t'[y.id], t'[node]);
      assert AreSiblings(t[y.id], t[node]);
    }
  }

  lemma BesideItselfAgrees(docs: seq<Doc>, t: Table, w: Id, node: Id, move: ResolvedMove)
    requires TreeInv(t) && Shows(docs, t, w)
    requires move.reference == Some(node)
    requires Move(t, w, node, move.parent, move.reference, move.placement).Ok?
    requires forall y :: y in docs && y.id != node && y.parent == move.parent ==> y.position < t[node].position
    ensures SameTree(ComputeOptimisticMove(docs, node, move),
                     Move(t, w, node, move.parent, move.reference, move.placement).value)
  {
    var t' := Move(t, w, node, move.parent, move.reference, move.placement).value;
    var docs' := ComputeOptimisticMove(docs, node, move);
    forall a | a in docs' ensures a.id in t' && t'[a.id].parent == a.parent {
      MovedRow(docs, t, w, node, move, a);
    }
    forall a, b | a in docs' && b in docs' && a.parent == b.parent
      ensures a.position < b.position <==> t'[a.id].position < t'[b.id].position
    {
      MovedRow(docs, t, w, node, move, a);
      MovedRow(docs, t, w, node, move, b);
      if a.id != node { BesideItselfPlaces(docs, t, w, node, move, a); }
      if b.id != node { BesideItselfPlaces(docs, t, w, node, move, b); }
    }
  }

  lemma BesideItselfDiffers(docs: seq<Doc>, t: Table, w: Id, node: Id, move: ResolvedMove, d: Doc, y: Doc)
    requires TreeInv(t) && Shows(docs, t, w) && d in docs && d.id == node
    requires move.reference == Some(node)
    requires Move(t, w, node, move.parent, move.reference, move.placement).Ok?
    requires y in docs && y.id != node && y.parent == move.parent && y.position >= d.position
    ensures !SameTree(ComputeOptimisticMove(docs, node, move),
                      Move(t, w, node, move.parent, move.reference, move.placement).value)
  {
    var t' := Move(t, w, node, move.parent, move.reference, move.placement).value;
    var docs' := ComputeOptimisticMove(docs, node, move);
    var i :| 0 <= i < |docs| && docs[i] == d;
    var j :| 0 <= j < |docs| && docs[j] == y;
    BesideItselfPlaces(docs, t, w, node, move, y);
    OrderedOtherwise(docs', t', docs'[j], docs'[i]);
  }

  lemma OrderedOtherwise(docs: seq<Doc>, t: Table, a: Doc, b: Doc)
    requires a in docs && b in docs && a.parent == b.parent && a.position < b.position
    requires a.id in t && b.id in t && !(t[a.id].position < t[b.id].position)
    ensures !SameTree(docs, t)
  {
  }

  /** So they agree exactly when no shown sibling comes after it. */
  lemma BesideItself(docs: seq<Doc>, t: Table, w: Id, node: Id, move: ResolvedMove, d: Doc)
    requires TreeInv(t) && Shows(docs, t, w) && d in docs && d.id == node
    requires move.reference == Some(node)
    requires Move(t, w, node, move.parent, move.reference, move.placement).Ok?
    ensures SameTree(ComputeOptimisticMove(docs, node, move),
                     Move(t, w, node, move.parent, move.reference, move.placement).value)
            <==> forall y :: y in docs && y.id != node && y.parent == d.parent ==> y.position < d.position
  {
    BesideItselfPlaces(docs, t, w, node, move, d);
    if y :| y in docs && y.id != node && y.parent == d.parent && y.position >= d.position {
      BesideItselfDiffers(docs, t, w, node, move, d, y);
    } else {
      BesideItselfAgrees(docs, t, w, node, move);
    }
  }

  // ----- what a drop means -----

  /** Is the node already where the drop would put it, going by its index among the target's siblings? */
  predicate InPlace(siblings: seq<Doc>, node: Id, target: Target)
    requires target.Row?
  {
    match target.zone
    case InsideRow => siblings != [] && siblings[|siblings| - 1].id == node
    case BeforeRow => IndexOf(siblings, node) == IndexOf(siblings, target.id) - 1
    case AfterRow => IndexOf(siblings, node) == IndexOf(siblings, target.id) + 1
  }

  function ResolveDragEndMove(docs: seq<Doc>, node: Id, target: Target): Option<ResolvedMove> {
    var moved := Find(docs, node);
    if moved.None? then None
    else
      match target
      case RootZone =>
        if moved.value.parent.None? then None else Some(ResolvedMove(None, None, None))
      case Row(id, zone) =>
        if IsSelfOrDescendant(docs, node, id) then None
        else if zone == InsideRow then
          var children := SortByPosition(ChildList(docs, Some(id)));
          if moved.value.parent == Some(id) && InPlace(children, node, target) then None
          else Some(ResolvedMove(Some(id), None, None))
        else
          var targetNode := Find(docs, id);
          if targetNode.None? then None
          else
            var siblings := SortByPosition(ChildList(docs, targetNode.value.parent));
            if moved.value.parent == targetNode.value.parent && InPlace(siblings, node, target) then None
            else Some(ResolvedMove(targetNode.value.parent, Some(id),
                                   Some(if zone == BeforeRow then Before else After)))
  }

  /** A drop on a row asks for a move, unless it is beside a row that is not listed. */
  predicate AsksForMove(docs: seq<Doc>, target: Target) {
    target.Row? && (target.zone == InsideRow || Find(docs, target.id).Some?)
  }

  /** The move a drop on a row asks for. */
  function Requested(docs: seq<Doc>, target: Target): ResolvedMove
    requires AsksForMove(docs, target)
  {
    match target.zone
    case InsideRow => ResolvedMove(Some(target.id), None, None)
    case BeforeRow => ResolvedMove(Find(docs, target.id).value.parent, Some(target.id), Some(Before))
    case AfterRow => ResolvedMove(Find(docs, target.id).value.parent, Some(target.id), Some(After))
  }

  /** Would the move give `moved` another parent or another place among its listed siblings? */
  ghost predicate Changes(docs: seq<Doc>, moved: Doc, move: ResolvedMove) {
    var position := OptimisticPosition(OtherSiblings(docs, moved.id, move.parent), move.reference, move.placement);
    moved.parent != move.parent ||
    exists y :: y in docs && y.id != moved.id && y.parent == move.parent &&
                !(y.position < moved.position <==> y.position < position)
  }

  /** In a strictly ascending list, `i` is directly before `j` when the same other elements precede both. */
  lemma DirectlyBefore(s: seq<Doc>, i: nat, j: nat)
    requires StrictlyAscending(s) && i < |s| && j < |s| && i != j
    ensures i == j - 1 <==>
            forall k :: 0 <= k < |s| && k != i ==> (s[k].position < s[i].position <==> s[k].position < s[j].position)
  {
    if i != j - 1 {
      var k := if i < j then j - 1 else j;
      assert !(s[k].position < s[i].position <==> s[k].position < s[j].position);
    } else {
      forall k | 0 <= k < |s| && k != i
        ensures s[k].position < s[i].position <==> s[k].position < s[j].position
      {
        if k > i { assert s[k].position >= s[j].position; }
      }
    }
  }

  lemma DirectlyAfter(s: seq<Doc>, i: nat, j: nat)
    requires StrictlyAscending(s) && i < |s| && j < |s| && i != j
    ensures i == j + 1 <==>
            forall k :: 0 <= k < |s| && k != i ==> (s[k].position < s[i].position <==> s[k].position <= s[j].position)
  {
    if i != j + 1 {
      var k := if i > j then j + 1 else j;
      assert !(s[k].position < s[i].position <==> s[k].position <= s[j].position);
    } else {
      forall k | 0 <= k < |s| && k != i
        ensures s[k].position < s[i].position <==> s[k].position <= s[j].position
      {
        if k < i { assert s[k].position <= s[j].position; }
      }
    }
  }

  lemma LastOne(s: seq<Doc>, i: nat)
    requires StrictlyAscending(s) && i < |s|
    ensures i == |s| - 1 <==> forall k :: 0 <= k < |s| && k != i ==> s[k].position < s[i].position
  {
    if i < |s| - 1 { assert s[i].position < s[|s| - 1].position; }
  }

  /** Drag resolution is exact: a move comes back just when the drop is legal and would change something. */
  lemma ResolutionExact(docs: seq<Doc>, moved: Doc, target: Target)
    requires DistinctIds(docs) && DistinctPositions(docs) && moved in docs
    requires AsksForMove(docs, target)
    ensures ResolveDragEndMove(docs, moved.id, target) ==
            if !Reaches(ById(docs), target.id, moved.id) && Changes(docs, moved, Requested(docs, target))
            then Some(Requested(docs, target)) else None
  {
    WalkExact(docs, moved.id, target.id);
    UniqueInList(docs, moved, Find(docs, moved.id).value);
    if !Reaches(ById(docs), target.id, moved.id) {
      var zero: nat := 0;
      assert Up(ById(docs), Some(target.id), zero) == Some(target.id);
      if target.zone == InsideRow {
        InsideResolution(docs, moved, target.id);
      } else {
        BesideResolution(docs, moved, target.id, target.zone);
      }
      if moved.parent == Requested(docs, target).parent {
        UnchangedIffInPlace(docs, moved, target);
      }
    }
  }

  /**
   * The whole of drag resolution: an unlisted node never moves; the root zone
   * takes any node that has a parent; a row takes what it asks for just when
   * that is legal and would change something.
   */
  lemma DropExactly(docs: seq<Doc>, node: Id, target: Target)
    requires DistinctIds(docs) && DistinctPositions(docs)
    ensures (forall d :: d in docs ==> d.id != node) ==> ResolveDragEndMove(docs, node, target) == None
    ensures forall moved :: moved in docs && moved.id == node ==>
              ResolveDragEndMove(docs, node, target) ==
              match target
              case RootZone => if moved.parent.Some? then Some(ResolvedMove(None, None, None)) else None
              case Row(id, zone) =>
                if AsksForMove(docs, target) && !Reaches(ById(docs), id, node) && Changes(docs, moved, Requested(docs, target))
                then Some(Requested(docs, target)) else None
  {
    forall moved | moved in docs && moved.id == node
      ensures Find(docs, node) == Some(moved)
      ensures AsksForMove(docs, target) ==>
                ResolveDragEndMove(docs, node, target) ==
                (if !Reaches(ById(docs), target.id, node) && Changes(docs, moved, Requested(docs, target))
                 then Some(Requested(docs, target)) else None)
    {
      UniqueInList(docs, moved, Find(docs, node).value);
      if AsksForMove(docs, target) { ResolutionExact(docs, moved, target); }
    }
  }

  lemma InsideResolution(docs: seq<Doc>, moved: Doc, id: Id)
    requires Find(docs, moved.id) == Some(moved) && !IsSelfOrDescendant(docs, moved.id, id)
    ensures ResolveDragEndMove(docs, moved.id, Row(id, InsideRow)) ==
            if moved.parent == Some(id) && InPlace(SortByPosition(ChildList(docs, Some(id))), moved.id, Row(id, InsideRow))
            then None else Some(ResolvedMove(Some(id), None, None))
  {
  }

  lemma BesideResolution(docs: seq<Doc>, moved: Doc, id: Id, zone: Zone)
    requires Find(docs, moved.id) == Some(moved) && !IsSelfOrDescendant(docs, moved.id, id)
    requires Find(docs, id).Some? && zone != InsideRow
    ensures var p := Find(docs, id).value.parent;
            ResolveDragEndMove(docs, moved.id, Row(id, zone)) ==
            if moved.parent == p && InPlace(SortByPosition(ChildList(docs, p)), moved.id, Row(id, zone))
            then None else Some(Requested(docs, Row(id, zone)))
  {
  }

  lemma IndexInSorted(docs: seq<Doc>, p: Option<Id>, d: Doc) returns (i: nat)
    requires DistinctIds(docs) && d in docs && d.parent == p
    ensures var s := SortByPosition(ChildList(docs, p));
            i < |s| && s[i] == d && IndexOf(s, d.id) == i && forall k :: 0 <= k < |s| && k != i ==> s[k].id != d.id
  {
    var s := SortByPosition(ChildList(docs, p));
    ChildListKeepsDistinct(docs, p);
    SortKeepsDistinct(ChildList(docs, p));
    assert d in s;
    i := IndexOf(s, d.id);
    assert s[i] in s;
    UniqueInList(docs, d, s[i]);
  }

  /** A drop under the present parent changes the order unless the node is already in that place. */
  lemma UnchangedIffInPlace(docs: seq<Doc>, moved: Doc, target: Target)
    requires DistinctIds(docs) && DistinctPositions(docs) && moved in docs
    requires AsksForMove(docs, target) && target.id != moved.id
    requires moved.parent == Requested(docs, target).parent
    ensures Changes(docs, moved, Requested(docs, target)) <==>
            !InPlace(SortByPosition(ChildList(docs, moved.parent)), moved.id, target)
  {
    var s := SortByPosition(ChildList(docs, moved.parent));
    ChildListKeepsDistinct(docs, moved.parent);
    SortedSiblings(docs, moved.parent, ChildList(docs, moved.parent));
    var i := IndexInSorted(docs, moved.parent, moved);
    if Changes(docs, moved, Requested(docs, target)) {
      ChangeMoves(docs, moved, Requested(docs, target), s, i);
    } else {
      NoChangeKeeps(docs, moved, Requested(docs, target), s, i);
    }
    if target.zone == InsideRow {
      InsideByIndex(docs, moved, target, s, i);
    } else {
      var r := Find(docs, target.id).value;
      var j := IndexInSorted(docs, moved.parent, r);
      BesideByIndex(docs, moved, target, s, i, j);
    }
  }

  /** The moved node keeps its place among its siblings. */
  ghost predicate KeepsPlace(docs: seq<Doc>, moved: Doc, move: ResolvedMove, s: seq<Doc>, i: nat)
    requires i < |s|
  {
    forall k :: 0 <= k < |s| && k != i ==>
      (s[k].position < s[i].position <==> ComesFirstInList(docs, moved.id, s[k].position, move))
  }

  lemma InsideByIndex(docs: seq<Doc>, moved: Doc, target: Target, s: seq<Doc>, i: nat)
    requires target.Row? && target.zone == InsideRow
    requires StrictlyAscending(s) && i < |s| && s[i] == moved
    requires forall k :: 0 <= k < |s| && k != i ==> s[k].id != moved.id
    ensures KeepsPlace(docs, moved, Requested(docs, target), s, i) <==> InPlace(s, moved.id, target)
  {
    LastOne(s, i);
    assert forall y: real :: ComesFirstInList(docs, moved.id, y, Requested(docs, target));
  }

  lemma BesideByIndex(docs: seq<Doc>, moved: Doc, target: Target, s: seq<Doc>, i: nat, j: nat)
    requires DistinctIds(docs) && target.Row? && target.zone != InsideRow && Find(docs, target.id).Some?
    requires target.id != moved.id && Find(docs, target.id).value.parent == moved.parent
    requires StrictlyAscending(s) && i < |s| && s[i] == moved && j < |s| && s[j] == Find(docs, target.id).value
    requires IndexOf(s, moved.id) == i && IndexOf(s, target.id) == j
    ensures KeepsPlace(docs, moved, Requested(docs, target), s, i) <==> InPlace(s, moved.id, target)
  {
    forall k | 0 <= k < |s|
      ensures ComesFirstInList(docs, moved.id, s[k].position, Requested(docs, target)) <==>
              if target.zone == BeforeRow then s[k].position < s[j].position else s[k].position <= s[j].position
    {
      BesideOrder(docs, moved, target, s[k].position);
    }
    if target.zone == BeforeRow { DirectlyBefore(s, i, j); } else { DirectlyAfter(s, i, j); }
  }

  lemma BesideOrder(docs: seq<Doc>, moved: Doc, target: Target, y: real)
    requires DistinctIds(docs) && target.Row? && target.zone != InsideRow && Find(docs, target.id).Some?
    requires target.id != moved.id && Find(docs, target.id).value.parent == moved.parent
    ensures var r := Find(docs, target.id).value;
            ComesFirstInList(docs, moved.id, y, Requested(docs, target)) <==>
            if target.zone == BeforeRow then y < r.position else y <= r.position
  {
    FoundUnder(docs, moved.parent, Find(docs, target.id).value);
  }

  lemma FoundUnder(docs: seq<Doc>, p: Option<Id>, r: Doc)
    requires DistinctIds(docs) && r in docs && r.parent == p
    ensures Find(ChildList(docs, p), r.id) == Some(r)
  {
    assert r in ChildList(docs, p);
    UniqueInList(docs, r, Find(ChildList(docs, p), r.id).value);
  }

  ghost predicate IndexedBy(docs: seq<Doc>, moved: Doc, s: seq<Doc>, i: nat) {
    && DistinctIds(docs) && DistinctPositions(docs) && moved in docs
    && s == SortByPosition(ChildList(docs, moved.parent)) && i < |s| && s[i] == moved
    && forall k :: 0 <= k < |s| && k != i ==> s[k].id != moved.id
  }

  lemma ChangeMoves(docs: seq<Doc>, moved: Doc, move: ResolvedMove, s: seq<Doc>, i: nat)
    requires IndexedBy(docs, moved, s, i) && moved.parent == move.parent
    requires Changes(docs, moved, move)
    ensures !KeepsPlace(docs, moved, move, s, i)
  {
    var position := OptimisticPosition(OtherSiblings(docs, moved.id, move.parent), move.reference, move.placement);
    var y :| y in docs && y.id != moved.id && y.parent == move.parent &&
      !(y.position < moved.position <==> y.position < position);
    OptimisticPlaces(docs, moved.id, move, y);
    assert y in s;
    var k :| 0 <= k < |s| && s[k] == y;
  }

  lemma NoChangeKeeps(docs: seq<Doc>, moved: Doc, move: ResolvedMove, s: seq<Doc>, i: nat)
    requires IndexedBy(docs, moved, s, i) && moved.parent == move.parent
    requires !Changes(docs, moved, move)
    ensures KeepsPlace(docs, moved, move, s, i)
  {
    forall k | 0 <= k < |s| && k != i
      ensures s[k].position < s[i].position <==> ComesFirstInList(docs, moved.id, s[k].position, move)
    {
      assert s[k] in s;
      OptimisticPlaces(docs, moved.id, move, s[k]);
    }
  }

  // ----- every move the browser sends is one the server accepts -----

  /** On a displayed chain the list shows what the table holds. */
  lemma {:induction false} DisplayedChain(m: Table, t: Table, x: Option<Id>, n: nat, k: nat)
    requires DisplayedWithin(m, x, n)
    requires forall y :: y in m ==> y in t && t[y] == m[y]
    ensures Up(t, x, k) == Up(m, x, k)
    decreases n
  {
    if x.None? {
      UpNone(t, k);
      UpNone(m, k);
    } else if k > 0 {
      DisplayedChain(m, t, m[x.value].parent, n - 1, k - 1);
    }
  }

  /** A displayed row lies below `a` in the table exactly when it does in the list. */
  lemma DisplayedReaches(docs: seq<Doc>, t: Table, w: Id, x: Id, a: Id)
    requires Shows(docs, t, w) && Displayed(docs, x)
    ensures Reaches(t, x, a) <==> Reaches(ById(docs), x, a)
  {
    var m := ById(docs);
    var n: nat :| DisplayedWithin(m, Some(x), n);
    forall k: nat ensures Up(t, Some(x), k) == Up(m, Some(x), k) {
      DisplayedChain(m, t, Some(x), n, k);
    }
    if Reaches(t, x, a) {
      var k: nat :| Up(t, Some(x), k) == Some(a);
      assert Up(m, Some(x), k) == Some(a);
    }
    if Reaches(m, x, a) {
      var k: nat :| Up(m, Some(x), k) == Some(a);
      assert Up(t, Some(x), k) == Some(a);
    }
  }

  /**
   * For a displayed row with a chain of at most 1000 nodes, the browser's walk
   * over its list and the server's over its table say the same.
   */
  lemma WalksAgree(docs: seq<Doc>, t: Table, w: Id, ancestor: Id, candidate: Id)
    requires Shows(docs, t, w) && Displayed(docs, candidate) && Shallow(t, candidate)
    ensures IsSelfOrDescendant(docs, ancestor, candidate) <==>
            DescendantWithin(t, Some(candidate), ancestor, MAX_DEPTH)
  {
    WalkExact(docs, ancestor, candidate);
    DisplayedReaches(docs, t, w, candidate, ancestor);
    EnoughFuel(t, candidate, ancestor, MAX_DEPTH);
  }

  lemma ResolvedMoveAccepted(docs: seq<Doc>, t: Table, w: Id, node: Id, target: Target)
    requires TreeInv(t) && Shows(docs, t, w)
    requires target.Row? ==> Displayed(docs, target.id) && Find(docs, target.id).Some?
    requires ResolveDragEndMove(docs, node, target).Some?
    ensures var move := ResolveDragEndMove(docs, node, target).value;
            Move(t, w, node, move.parent, move.reference, move.placement).Ok?
  {
    var move := ResolveDragEndMove(docs, node, target).value;
    if target.Row? {
      var r := Find(docs, target.id).value;
      WalkExact(docs, node, target.id);
      DisplayedReaches(docs, t, w, target.id, node);
      NotAbove(t, w, target.id, node, move.parent);
      if move.reference.Some? { ReferenceIsSibling(t, w, move.parent, target.id, move.placement); }
    }
  }

  /** A drop never asks for a place beside the moved document itself. */
  lemma ResolvedNotItself(docs: seq<Doc>, node: Id, target: Target)
    requires ResolveDragEndMove(docs, node, target).Some?
    ensures ResolveDragEndMove(docs, node, target).value.reference != Some(node)
  {
    assert IsSelfOrDescendant(docs, node, node);
  }

  /**
   * A drop on the root zone of a listed document that is not a root: the list
   * shows it after all roots at once, and the server puts it there.
   */
  lemma RootDropPlaces(docs: seq<Doc>, t: Table, w: Id, moved: Doc)
    requires TreeInv(t) && Shows(docs, t, w) && moved in docs && moved.parent.Some?
    ensures ResolveDragEndMove(docs, moved.id, RootZone) == Some(ResolvedMove(None, None, None))
    ensures forall d, y :: d in ComputeOptimisticMove(docs, moved.id, ResolvedMove(None, None, None)) && d.id == moved.id ==>
              d.parent.None? && (y in docs && y.id != moved.id && y.parent.None? ==> y.position < d.position)
    ensures var r := Move(t, w, moved.id, None, None, None);
            && r.Ok? && r.value[moved.id].parent.None?
            && forall y :: y in t && y != moved.id && t[y].workspace == w && t[y].parent.None? ==>
                 t[y].position < r.value[moved.id].position
  {
    var move := ResolvedMove(None, None, None);
    ShownPositionsDiffer(docs, t, w);
    DropExactly(docs, moved.id, RootZone);
    forall y | y in docs && y.id != moved.id && y.parent.None?
      ensures y.position < OptimisticPosition(OtherSiblings(docs, moved.id, None), None, None)
    {
      OptimisticPlaces(docs, moved.id, move, y);
    }
    forall d | d in ComputeOptimisticMove(docs, moved.id, move) && d.id == moved.id
      ensures d.parent.None? && d.position == OptimisticPosition(OtherSiblings(docs, moved.id, None), None, None)
    {
      MovedRow(docs, t, w, moved.id, move, d);
    }
    forall y | y in t && y != moved.id && t[y].workspace == w && t[y].parent.None?
      ensures t[y].position < NextPosition(t, w, None)
    {
      NextPositionLast(t, w, None, y);
    }
  }

  /** A row that is not below `node` may take it as its child, and so may the row's parent. */
  lemma NotAbove(t: Table, w: Id, x: Id, node: Id, parent: Option<Id>)
    requires TreeInv(t) && Scoped(t, w, x) && !t[x].Archived() && !Reaches(t, x, node)
    requires Scoped(t, w, node) && !t[node].Archived()
    requires parent == Some(x) || parent == t[x].parent
    ensures MoveRefusal(t, w, node, parent).None?
  {
    if parent.Some? {
      SelfAndParentReach(t, x, node);
      if parent == t[x].parent {
        ActiveChain(t, x, 1);
        assert Up(t, Some(x), 1) == Up(t, parent, 0) == parent;
      }
      WithinReaches(t, parent.value, node, MAX_DEPTH);
    }
  }

  lemma WithinReaches(t: Table, x: Id, a: Id, fuel: nat)
    ensures DescendantWithin(t, Some(x), a, fuel) ==> Reaches(t, x, a)
  {
    if DescendantWithin(t, Some(x), a, fuel) {
      var k := WithinMeets(t, Some(x), a, fuel);
    }
  }

  lemma SelfAndParentReach(t: Table, x: Id, a: Id)
    requires x in t
    ensures x == a ==> Reaches(t, x, a)
    ensures t[x].parent.Some? && Reaches(t, t[x].parent.value, a) ==> Reaches(t, x, a)
    ensures t[x].parent == Some(a) ==> Reaches(t, x, a)
  {
    var zero: nat := 0;
    assert Up(t, Some(x), zero) == Some(x);
    var one: nat := 1;
    assert Up(t, Some(x), one) == Up(t, t[x].parent, 0) == t[x].parent;
    if t[x].parent.Some? && Reaches(t, t[x].parent.value, a) {
      var k: nat :| Up(t, t[x].parent, k) == Some(a);
      assert Up(t, Some(x), k + 1) == Some(a);
    }
  }
}
