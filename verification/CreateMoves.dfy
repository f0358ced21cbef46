// Creates that interleave with moves, which take no lock: which moves end with
// two siblings at one position, and runs that lead there.
module CreateMoves {
  import opened Prelude
  import opened DocumentTable
  import opened DocumentInvariant
  import opened CreateLocks

  // ----- which moves collide -----

  /** Placed relative to `id`, one goes past the last of `s`. */
  predicate AfterLast(s: seq<Doc>, id: Id, placement: Option<Placement>) {
    placement != Some(Before) && s != [] && s[|s| - 1].id == id
  }

  /** The move puts its document past the last of its new siblings. */
  predicate TakesEnd(t: Table, w: Id, p: Option<Id>, reference: Option<Id>, placement: Option<Placement>)
    requires Keyed(t)
  {
    reference.Some? ==> AfterLast(Siblings(t, w, p), reference.value, placement)
  }

  ghost predicate Rising(s: seq<Doc>) {
    forall a, b :: 0 <= a < b < |s| ==> s[a].position < s[b].position
  }

  lemma SiblingsDiffer(t: Table, w: Id, p: Option<Id>)
    requires Keyed(t) && DistinctSiblings(t)
    ensures var s := Siblings(t, w, p);
            Rising(s) && forall a, b :: 0 <= a < b < |s| ==> s[a].id != s[b].id
  {
    var s := Siblings(t, w, p);
    forall a, b | 0 <= a < b < |s| ensures s[a].position < s[b].position && s[a].id != s[b].id {
      assert s[a] in s && s[b] in s;
      assert RowLeq(s[a], s[b]) && s[a] != s[b];
      assert AreSiblings(t[s[a].id], t[s[b].id]);
    }
  }

  /** Beside any element but after the last means before some element `s[j]`. */
  lemma EndOrBefore(s: seq<Doc>, id: Id, placement: Option<Placement>) returns (j: nat)
    requires Rising(s) && IndexOf(s, id) >= 0
    requires forall a, b :: 0 <= a < b < |s| ==> s[a].id != s[b].id
    ensures j < |s|
    ensures if AfterLast(s, id, placement)
            then PositionBeside(s, IndexOf(s, id), placement) == s[|s| - 1].position + POSITION_STEP
            else PositionBeside(s, IndexOf(s, id), placement) < s[j].position
  {
    var i := IndexOf(s, id);
    assert s[|s| - 1].id == id <==> i == |s| - 1;
    j := if placement == Some(Before) || i == |s| - 1 then i else i + 1;
  }

  lemma SiblingsEndOrBefore(t: Table, w: Id, p: Option<Id>, id: Id, placement: Option<Placement>) returns (j: nat)
    requires Keyed(t) && DistinctSiblings(t) && IndexOf(Siblings(t, w, p), id) >= 0
    ensures j < |Siblings(t, w, p)|
    ensures var s := Siblings(t, w, p);
            var position := PositionBeside(s, IndexOf(s, id), placement);
            if AfterLast(s, id, placement) then position == s[|s| - 1].position + POSITION_STEP else position < s[j].position
  {
    SiblingsDiffer(t, w, p);
    j := EndOrBefore(Siblings(t, w, p), id, placement);
  }

  lemma PositionInList(t: Table, w: Id, p: Option<Id>, reference: Id, placement: Option<Placement>)
    requires Keyed(t) && ComputePosition(t, w, p, Some(reference), placement).Ok?
    ensures IndexOf(Siblings(t, w, p), reference) >= 0
    ensures ComputePosition(t, w, p, Some(reference), placement).value ==
            PositionBeside(Siblings(t, w, p), IndexOf(Siblings(t, w, p), reference), placement)
  {
  }

  lemma SiblingIsChild(t: Table, w: Id, p: Option<Id>, j: nat)
    requires Keyed(t) && j < |Siblings(t, w, p)|
    ensures var d := Siblings(t, w, p)[j]; IsChild(t, w, p, d.id) && t[d.id] == d
  {
    assert Siblings(t, w, p)[j] in Siblings(t, w, p);
  }

  /** A move that does not take the end stays before one of the siblings, `y`. */
  lemma EndOrWithin(t: Table, w: Id, p: Option<Id>, reference: Option<Id>, placement: Option<Placement>) returns (y: Id)
    requires Keyed(t) && DistinctSiblings(t) && ComputePosition(t, w, p, reference, placement).Ok?
    ensures var position := ComputePosition(t, w, p, reference, placement).value;
            if TakesEnd(t, w, p, reference, placement) then position == NextPosition(t, w, p)
            else IsChild(t, w, p, y) && position < t[y].position
  {
    if reference.None? {
      return 0;
    }
    PositionInList(t, w, p, reference.value, placement);
    var j := SiblingsEndOrBefore(t, w, p, reference.value, placement);
    SiblingIsChild(t, w, p, j);
    y := Siblings(t, w, p)[j].id;
  }

  /** The position the create has picked, once it has. */
  function Picked(stage: Stage): Option<real> {
    match stage
    case Placed(position) => Some(position)
    case Inserted(row) => Some(row.position)
    case _ => None
  }

  /** The create runs to its commit. */
  function Finished(s: System, tx: TxId, free: set<Id>): System
    requires Keyed(s.table) && tx in s.txns
  {
    if s.txns[tx].stage.Placed? then Advanced(Advanced(s, tx, free), tx, free) else Advanced(s, tx, free)
  }

  function WithRow(t: Table, txn: Txn, position: real): Table {
    t[txn.id := NewRow(txn, position)]
  }

  lemma FinishedTable(s: System, tx: TxId, free: set<Id>)
    requires Keyed(s.table) && tx in s.txns && Picked(s.txns[tx].stage).Some? && RowIsNew(s.txns[tx])
    ensures Finished(s, tx, free).table == WithRow(s.table, s.txns[tx], Picked(s.txns[tx].stage).value)
  {
  }

  predicate RowIsNew(txn: Txn) {
    txn.stage.Inserted? ==> txn.stage.row == NewRow(txn, txn.stage.row.position)
  }

  function AfterMove(s: System, w: Id, d: Id, newParent: Option<Id>, reference: Option<Id>, placement: Option<Placement>): System
    requires Keyed(s.table) && Move(s.table, w, d, newParent, reference, placement).Ok?
  {
    s.(table := Move(s.table, w, d, newParent, reference, placement).value)
  }

  lemma MoveIsOutside(t: Table, w: Id, d: Id, newParent: Option<Id>, reference: Option<Id>, placement: Option<Placement>)
    requires Keyed(t) && Move(t, w, d, newParent, reference, placement).Ok?
    ensures KeepsRows(t, Move(t, w, d, newParent, reference, placement).value)
  {
  }

  lemma MoveKeepsPositions(t: Table, w: Id, d: Id, newParent: Option<Id>, reference: Option<Id>, placement: Option<Placement>)
    requires Keyed(t) && DistinctSiblings(t) && Move(t, w, d, newParent, reference, placement).Ok?
    ensures DistinctSiblings(Move(t, w, d, newParent, reference, placement).value)
  {
    var t' := Move(t, w, d, newParent, reference, placement).value;
    forall y | y in t && y != d && AreSiblings(t'[y], t'[d]) ensures t'[y].position != t'[d].position {
      ComputedPosition(t, w, newParent, reference, placement, y);
    }
    MoveKeepsDistinct(t, t', d);
  }

  /** A new row keeps siblings distinct exactly when no sibling has its position. */
  lemma RowKeepsDistinct(t: Table, txn: Txn, position: real)
    requires DistinctSiblings(t) && txn.id !in t
    ensures DistinctSiblings(WithRow(t, txn, position)) <==>
            forall y :: IsChild(t, txn.w, txn.parent, y) ==> t[y].position != position
  {
    var t' := WithRow(t, txn, position);
    if y :| IsChild(t, txn.w, txn.parent, y) && t[y].position == position {
      assert AreSiblings(t'[y], t'[txn.id]);
    } else {
      forall x, y | x in t' && y in t' && x != y && AreSiblings(t'[x], t'[y]) ensures t'[x].position != t'[y].position {
        if x == txn.id { assert IsChild(t, txn.w, txn.parent, y); }
        else if y == txn.id { assert IsChild(t, txn.w, txn.parent, x); }
        else { assert AreSiblings(t[x], t[y]); }
      }
    }
  }

  /** Only `d` is moved: who can stand at `next`, past all children of `p`? */
  lemma OnlyTheMoved(t: Table, t': Table, d: Id, v: Id, p: Option<Id>, next: real)
    requires t'.Keys == t.Keys && d in t && forall y :: y in t && y != d ==> t'[y] == t[y]
    requires forall y :: IsChild(t, v, p, y) ==> t[y].position < next
    ensures (exists y :: IsChild(t', v, p, y) && t'[y].position == next) <==>
            IsChild(t', v, p, d) && t'[d].position == next
  {
    forall y | IsChild(t', v, p, y) && y != d ensures t'[y].position != next {
      assert IsChild(t, v, p, y);
    }
  }

  lemma AllBeforeNext(t: Table, v: Id, p: Option<Id>)
    requires Keyed(t)
    ensures forall y :: IsChild(t, v, p, y) ==> t[y].position < NextPosition(t, v, p)
  {
    forall y | IsChild(t, v, p, y) ensures t[y].position < NextPosition(t, v, p) {
      NextPositionLast(t, v, p, y);
    }
  }

  /** A position that has been picked lies past all children of its parent. */
  ghost predicate PickedPast(t: Table, txn: Txn) {
    Picked(txn.stage).Some? ==>
      forall y :: IsChild(t, txn.w, txn.parent, y) ==> t[y].position < Picked(txn.stage).value
  }

  ghost predicate PastInv(s: System) {
    DistinctSiblings(s.table) && forall tx :: tx in s.txns ==> PickedPast(s.table, s.txns[tx])
  }

  lemma NextIsPast(s: System)
    requires Keyed(s.table) && PlaceInv(s)
    ensures PastInv(s)
  {
    forall tx | tx in s.txns ensures PickedPast(s.table, s.txns[tx]) {
      assert PositionInv(s.table, s.txns[tx]);
      AllBeforeNext(s.table, s.txns[tx].w, s.txns[tx].parent);
    }
  }

  /** After a move, somebody stands at `position`, past all children, exactly when the move took that very end. */
  lemma MoveTakesExactly(t: Table, w: Id, d: Id, newParent: Option<Id>, reference: Option<Id>, placement: Option<Placement>,
                         v: Id, p: Option<Id>, position: real)
    requires Keyed(t) && DistinctSiblings(t) && Move(t, w, d, newParent, reference, placement).Ok?
    requires forall y :: IsChild(t, v, p, y) ==> t[y].position < position
    ensures var t' := Move(t, w, d, newParent, reference, placement).value;
            (exists y :: IsChild(t', v, p, y) && t'[y].position == position) <==>
            w == v && newParent == p && TakesEnd(t, w, newParent, reference, placement) && position == NextPosition(t, v, p)
  {
    var t' := Move(t, w, d, newParent, reference, placement).value;
    OnlyTheMoved(t, t', d, v, p, position);
    var y := EndOrWithin(t, w, newParent, reference, placement);
  }

  /**
   * Between the picking of a create's position and its commit, exactly the moves
   * to the end of the very same siblings end with two rows at one position, as
   * long as the picked position is still the next one. Those moves are the ones
   * without a reference, and the ones after the last sibling.
   */
  lemma MoveCollidesExactly(s: System, tx: TxId, free: set<Id>,
                            w: Id, d: Id, newParent: Option<Id>, reference: Option<Id>, placement: Option<Placement>)
    requires Inv(s, free) && PastInv(s) && tx in s.txns && Picked(s.txns[tx].stage).Some?
    requires Move(s.table, w, d, newParent, reference, placement).Ok?
    ensures var txn := s.txns[tx];
            DistinctSiblings(Finished(AfterMove(s, w, d, newParent, reference, placement), tx, free).table) <==>
            !(&& w == txn.w && newParent == txn.parent && TakesEnd(s.table, w, newParent, reference, placement)
              && Picked(txn.stage).value == NextPosition(s.table, w, newParent))
  {
    var txn := s.txns[tx];
    var s' := AfterMove(s, w, d, newParent, reference, placement);
    assert TxnInv(s.table, txn, free) && PickedPast(s.table, txn);
    FinishedTable(s', tx, free);
    MoveKeepsPositions(s.table, w, d, newParent, reference, placement);
    RowKeepsDistinct(s'.table, txn, Picked(txn.stage).value);
    MoveTakesExactly(s.table, w, d, newParent, reference, placement, txn.w, txn.parent, Picked(txn.stage).value);
  }

  /** An append to the same parent between the insert and the commit takes the same position. */
  lemma AppendCollides(s: System, tx: TxId, d: Id, free: set<Id>)
    requires Inv(s, free) && PlaceInv(s) && tx in s.txns && s.txns[tx].stage.Inserted?
    requires Move(s.table, s.txns[tx].w, d, s.txns[tx].parent, None, None).Ok?
    ensures var moved := Move(s.table, s.txns[tx].w, d, s.txns[tx].parent, None, None).value;
            && CanStep(s, Outside(moved))
            && !DistinctSiblings(Advanced(Next(s, Outside(moved), free), tx, free).table)
  {
    assert PositionInv(s.table, s.txns[tx]);
    NextIsPast(s);
    MoveIsOutside(s.table, s.txns[tx].w, d, s.txns[tx].parent, None, None);
    MoveCollidesExactly(s, tx, free, s.txns[tx].w, d, s.txns[tx].parent, None, None);
  }

  // ----- which moves change what the create would do -----

  /** The last child of `p`, if `d` is that one. */
  predicate IsLast(t: Table, v: Id, p: Option<Id>, d: Id)
    requires Keyed(t)
  {
    var s := Siblings(t, v, p);
    s != [] && s[|s| - 1].id == d
  }

  lemma LastIs(t: Table, v: Id, p: Option<Id>, d: Id)
    requires Keyed(t) && DistinctSiblings(t)
    ensures IsLast(t, v, p, d) <==> IsChild(t, v, p, d) && forall y :: IsChild(t, v, p, y) && y != d ==> t[y].position < t[d].position
    ensures IsLast(t, v, p, d) ==> NextPosition(t, v, p) == t[d].position + POSITION_STEP
  {
    var s := Siblings(t, v, p);
    SiblingsDiffer(t, v, p);
    forall y | IsChild(t, v, p, y) ensures exists j :: 0 <= j < |s| && s[j] == t[y] { assert t[y] in s; }
    if s != [] {
      var last := s[|s| - 1];
      assert last in s;
      assert IsChild(t, v, p, last.id) && t[last.id] == last;
    }
  }

  /** `d` is the only child of `p` and stands at 0, where the next position is that of an empty level. */
  predicate AloneAtZero(t: Table, v: Id, p: Option<Id>, d: Id) {
    IsChild(t, v, p, d) && t[d].position == 0.0 && forall y :: y in t && IsChild(t, v, p, y) ==> y == d
  }

  /** Nothing but `d` differs. */
  ghost predicate OnlyDiffers(t: Table, t': Table, d: Id) {
    Keyed(t) && Keyed(t') && t'.Keys == t.Keys && d in t && forall y :: y in t && y != d ==> t'[y] == t[y]
  }

  lemma EndTaken(t: Table, t': Table, d: Id, v: Id, p: Option<Id>)
    requires OnlyDiffers(t, t', d) && IsChild(t', v, p, d) && t'[d].position == NextPosition(t, v, p)
    ensures NextPosition(t', v, p) == NextPosition(t, v, p) + POSITION_STEP
  {
    AllBeforeNext(t, v, p);
    assert forall y :: y != d && IsChild(t', v, p, y) ==> IsChild(t, v, p, y);
    NextPositionExact(t', v, p, NextPosition(t, v, p) + POSITION_STEP);
  }

  /** Some other child stands at the top, or there is none. */
  lemma TopElsewhere(t: Table, v: Id, p: Option<Id>, d: Id) returns (top: Option<Id>)
    requires Keyed(t) && DistinctSiblings(t) && !IsLast(t, v, p, d)
    ensures top.Some? ==>
              top.value != d && IsChild(t, v, p, top.value) && t[top.value].position + POSITION_STEP == NextPosition(t, v, p)
    ensures top.None? ==> NextPosition(t, v, p) == POSITION_STEP && forall y :: !IsChild(t, v, p, y)
  {
    NextPositionExact(t, v, p, NextPosition(t, v, p));
    if y :| IsChild(t, v, p, y) && t[y].position + POSITION_STEP == NextPosition(t, v, p) {
      if y == d { TopIsLast(t, v, p, d); }
      top := Some(y);
    } else {
      top := None;
    }
  }

  lemma LastStays(t: Table, t': Table, d: Id, v: Id, p: Option<Id>)
    requires OnlyDiffers(t, t', d) && DistinctSiblings(t) && !IsLast(t, v, p, d)
    requires IsChild(t', v, p, d) ==> exists y :: IsChild(t, v, p, y) && t'[d].position < t[y].position
    ensures NextPosition(t', v, p) == NextPosition(t, v, p)
  {
    var next := NextPosition(t, v, p);
    var top := TopElsewhere(t, v, p, d);
    NextPositionExact(t, v, p, next);
    forall y | IsChild(t', v, p, y) ensures t'[y].position + POSITION_STEP <= next {
      if y != d { assert IsChild(t, v, p, y); }
    }
    if top.Some? {
      assert IsChild(t', v, p, top.value);
    } else {
      forall y ensures !IsChild(t', v, p, y) {
        assert y != d ==> !IsChild(t, v, p, y);
      }
    }
    assert NextIs(t', v, p, next);
    NextPositionExact(t', v, p, next);
  }

  lemma TopIsLast(t: Table, v: Id, p: Option<Id>, d: Id)
    requires Keyed(t) && DistinctSiblings(t) && IsChild(t, v, p, d) && t[d].position + POSITION_STEP == NextPosition(t, v, p)
    ensures IsLast(t, v, p, d)
  {
    NextPositionExact(t, v, p, NextPosition(t, v, p));
    forall y | IsChild(t, v, p, y) && y != d ensures t[y].position < t[d].position {
      assert AreSiblings(t[y], t[d]);
    }
    LastIs(t, v, p, d);
  }

  lemma LastLeaves(t: Table, t': Table, d: Id, v: Id, p: Option<Id>)
    requires OnlyDiffers(t, t', d) && DistinctSiblings(t) && IsLast(t, v, p, d)
    requires IsChild(t', v, p, d) ==> exists y :: IsChild(t, v, p, y) && t'[d].position < t[y].position
    ensures NextPosition(t', v, p) == NextPosition(t, v, p) <==> AloneAtZero(t, v, p, d) && !IsChild(t', v, p, d)
  {
    var next := NextPosition(t, v, p);
    LastIs(t, v, p, d);
    assert forall y :: y != d ==> (IsChild(t', v, p, y) <==> IsChild(t, v, p, y));
    forall y | IsChild(t', v, p, y) ensures t'[y].position + POSITION_STEP < next {
      if y != d { assert IsChild(t, v, p, y); }
    }
    NextPositionExact(t', v, p, next);
  }

  /**
   * The next position under `p` stays exactly when the move neither takes that
   * end nor moves the last child, or takes away an only child that stood at 0.
   */
  lemma EndStaysExactly(t: Table, w: Id, d: Id, newParent: Option<Id>, reference: Option<Id>, placement: Option<Placement>,
                        v: Id, p: Option<Id>)
    requires Keyed(t) && DistinctSiblings(t) && Move(t, w, d, newParent, reference, placement).Ok?
    ensures var t' := Move(t, w, d, newParent, reference, placement).value;
            NextPosition(t', v, p) == NextPosition(t, v, p) <==>
            LeavesEnd(t, w, d, newParent, reference, placement, v, p)
  {
    var t' := Move(t, w, d, newParent, reference, placement).value;
    var y := EndOrWithin(t, w, newParent, reference, placement);
    assert OnlyDiffers(t, t', d);
    assert IsChild(t', v, p, d) <==> w == v && newParent == p;
    if w == v && newParent == p && TakesEnd(t, w, newParent, reference, placement) {
      EndTaken(t, t', d, v, p);
    } else if IsLast(t, v, p, d) {
      LastLeaves(t, t', d, v, p);
    } else {
      LastStays(t, t', d, v, p);
    }
  }

  predicate LeavesEnd(t: Table, w: Id, d: Id, newParent: Option<Id>, reference: Option<Id>, placement: Option<Placement>,
                      v: Id, p: Option<Id>)
    requires Keyed(t)
  {
    if w == v && newParent == p
    then !TakesEnd(t, w, newParent, reference, placement) && !IsLast(t, v, p, d)
    else !IsLast(t, v, p, d) || AloneAtZero(t, v, p, d)
  }

  /**
   * Of a create that has picked its position, one move leaves intact what the
   * whole create would do exactly when it leaves the end of those siblings.
   */
  lemma CreateAfterMoveExactly(s: System, tx: TxId, free: set<Id>,
                               w: Id, d: Id, newParent: Option<Id>, reference: Option<Id>, placement: Option<Placement>)
    requires Inv(s, free) && PlaceInv(s) && tx in s.txns && s.txns[tx].stage.Inserted?
    requires s.txns[tx].parent.Some? ==> !s.table[s.txns[tx].parent.value].Archived()
    requires Move(s.table, w, d, newParent, reference, placement).Ok?
    ensures var txn := s.txns[tx];
            var s' := AfterMove(s, w, d, newParent, reference, placement);
            Create(s'.table, txn.w, txn.id, txn.parent, Limit(free, txn.w)) == Ok(Advanced(s', tx, free).table) <==>
            LeavesEnd(s.table, w, d, newParent, reference, placement, txn.w, txn.parent)
  {
    var txn := s.txns[tx];
    assert PositionInv(s.table, txn);
    MoveIsOutside(s.table, w, d, newParent, reference, placement);
    OutsideKeeps(s, AfterMove(s, w, d, newParent, reference, placement).table, free);
    CommitIsCreateExactly(AfterMove(s, w, d, newParent, reference, placement), tx, free);
    EndStaysExactly(s.table, w, d, newParent, reference, placement, txn.w, txn.parent);
  }

  // ----- which restores collide -----

  /** The table after document `d` of workspace `w` is restored. */
  ghost function AfterRestore(s: System, w: Id, d: Id): System
    requires Keyed(s.table) && Restore(s.table, w, d).Ok?
  {
    s.(table := Restore(s.table, w, d).value)
  }

  lemma ActivatedSameNext(t: Table, ids: set<Id>, w: Id)
    requires Keyed(t)
    ensures Keyed(ActivateRows(t, ids)) && NextPosition(ActivateRows(t, ids), w, None) == NextPosition(t, w, None)
  {
    SamePlacesSameNext(t, ActivateRows(t, ids), w, None);
  }

  /** A restore moves its document only, and that only to the end of the root level. */
  lemma RestoredElsewhere(t: Table, w: Id, d: Id)
    requires Keyed(t) && Restore(t, w, d).Ok?
    ensures var t1 := ActivateRows(t, Subtree(t, d));
            var t' := Restore(t, w, d).value;
            && Keyed(t1) && d in t1 && t'.Keys == t.Keys
            && (forall y :: y in t && (y != d || !Dangling(t1, w, d)) ==> SamePlace(t[y], t'[y]))
            && (Dangling(t1, w, d) ==>
                  t'[d].workspace == w && t'[d].parent.None? && t'[d].position == NextPosition(t, w, None))
  {
    ActivatedSameNext(t, Subtree(t, d), w);
  }

  /** After a restore, somebody stands at `position`, past all children, exactly when it took that end of the root level. */
  lemma RestoreTakesExactly(t: Table, w: Id, d: Id, v: Id, p: Option<Id>, position: real)
    requires Keyed(t) && Restore(t, w, d).Ok?
    requires forall y :: IsChild(t, v, p, y) ==> t[y].position < position
    ensures var t' := Restore(t, w, d).value;
            (exists y :: IsChild(t', v, p, y) && t'[y].position == position) <==>
            Dangling(ActivateRows(t, Subtree(t, d)), w, d) && w == v && p.None? && position == NextPosition(t, w, None)
  {
    var t' := Restore(t, w, d).value;
    RestoredElsewhere(t, w, d);
    forall y | IsChild(t', v, p, y) && y != d ensures t'[y].position != position { assert IsChild(t, v, p, y); }
    if IsChild(t', v, p, d) && SamePlace(t[d], t'[d]) { assert IsChild(t, v, p, d); }
  }

  /**
   * A restore takes no lock either. It ends with two rows at one position
   * exactly when it puts its document at the end of the root level and a create
   * there has picked that very end.
   */
  lemma RestoreCollidesExactly(s: System, tx: TxId, free: set<Id>, w: Id, d: Id)
    requires Inv(s, free) && PastInv(s) && tx in s.txns && Picked(s.txns[tx].stage).Some?
    requires Restore(s.table, w, d).Ok?
    ensures var txn := s.txns[tx];
            DistinctSiblings(Finished(AfterRestore(s, w, d), tx, free).table) <==>
            !(&& Dangling(ActivateRows(s.table, Subtree(s.table, d)), w, d)
              && w == txn.w && txn.parent.None? && Picked(txn.stage).value == NextPosition(s.table, w, None))
  {
    var txn := s.txns[tx];
    assert TxnInv(s.table, txn, free) && PickedPast(s.table, txn);
    RestoredElsewhere(s.table, w, d);
    RestoreKeepsPositions(s.table, w, d);
    FinishedTable(AfterRestore(s, w, d), tx, free);
    RowKeepsDistinct(AfterRestore(s, w, d).table, txn, Picked(txn.stage).value);
    RestoreTakesExactly(s.table, w, d, txn.w, txn.parent, Picked(txn.stage).value);
  }

  lemma RestoreKeepsPositions(t: Table, w: Id, d: Id)
    requires Keyed(t) && DistinctSiblings(t) && Restore(t, w, d).Ok?
    ensures DistinctSiblings(Restore(t, w, d).value)
  {
    var t' := Restore(t, w, d).value;
    RestoredElsewhere(t, w, d);
    AllBeforeNext(t, w, None);
    forall x, y | x in t' && y in t' && x != y && AreSiblings(t'[x], t'[y]) ensures t'[x].position != t'[y].position {
      if x == d && t'[d].parent.None? && y != d { assert IsChild(t, t'[x].workspace, None, y); }
      if y == d && t'[d].parent.None? && x != d { assert IsChild(t, t'[y].workspace, None, x); }
      if x != d && y != d { assert AreSiblings(t[x], t[y]); }
    }
  }

  // ----- whole runs with moves -----

  /** No create has picked a position among these siblings. */
  predicate NobodyPicked(s: System, w: Id, p: Option<Id>) {
    forall tx :: tx in s.txns && s.txns[tx].w == w && s.txns[tx].parent == p ==> Picked(s.txns[tx].stage).None?
  }

  /** An accepted move, but none to the end of siblings among which a create has picked its position. */
  ghost predicate HarmlessMove(s: System, t': Table)
    requires Keyed(s.table)
  {
    exists w, d, p, reference, placement ::
      && Move(s.table, w, d, p, reference, placement) == Ok(t')
      && (TakesEnd(s.table, w, p, reference, placement) ==> NobodyPicked(s, w, p))
  }

  ghost predicate HarmlessStep(s: System, step: Step)
    requires Keyed(s.table)
  {
    step.Outside? ==> KeepsPlaces(s.table, step.table) || HarmlessMove(s, step.table)
  }

  lemma FlagsKeepPast(s: System, t': Table)
    requires PastInv(s) && KeepsPlaces(s.table, t')
    ensures PastInv(s.(table := t'))
  {
    var t := s.table;
    forall x, y | x in t' && y in t' && x != y && AreSiblings(t'[x], t'[y]) ensures t'[x].position != t'[y].position {
      assert AreSiblings(t[x], t[y]);
    }
    forall tx | tx in s.txns ensures PickedPast(t', s.txns[tx]) {
      var txn := s.txns[tx];
      assert PickedPast(t, txn);
      assert forall y :: IsChild(t', txn.w, txn.parent, y) ==> IsChild(t, txn.w, txn.parent, y);
    }
  }

  lemma PickedStaysPast(t: Table, t': Table, d: Id, txn: Txn)
    requires OnlyDiffers(t, t', d) && PickedPast(t, txn)
    requires Picked(txn.stage).Some? && IsChild(t', txn.w, txn.parent, d) ==> t'[d].position < Picked(txn.stage).value
    ensures PickedPast(t', txn)
  {
    assert forall y :: IsChild(t', txn.w, txn.parent, y) && y != d ==> IsChild(t, txn.w, txn.parent, y);
  }

  lemma MoveKeepsPast(s: System, w: Id, d: Id, p: Option<Id>, reference: Option<Id>, placement: Option<Placement>)
    requires Keyed(s.table) && PastInv(s) && Move(s.table, w, d, p, reference, placement).Ok?
    requires TakesEnd(s.table, w, p, reference, placement) ==> NobodyPicked(s, w, p)
    ensures PastInv(AfterMove(s, w, d, p, reference, placement))
  {
    var t, t' := s.table, AfterMove(s, w, d, p, reference, placement).table;
    MoveKeepsPositions(t, w, d, p, reference, placement);
    var within := EndOrWithin(t, w, p, reference, placement);
    forall tx | tx in s.txns ensures PickedPast(t', s.txns[tx]) {
      assert PickedPast(t, s.txns[tx]);
      PickedStaysPast(t, t', d, s.txns[tx]);
    }
  }

  lemma OutsideKeepsPast(s: System, t': Table)
    requires Keyed(s.table) && PastInv(s) && HarmlessStep(s, Outside(t'))
    ensures PastInv(s.(table := t'))
  {
    if KeepsPlaces(s.table, t') {
      FlagsKeepPast(s, t');
    } else {
      var w, d, p, reference, placement :|
        && Move(s.table, w, d, p, reference, placement) == Ok(t')
        && (TakesEnd(s.table, w, p, reference, placement) ==> NobodyPicked(s, w, p));
      MoveKeepsPast(s, w, d, p, reference, placement);
    }
  }

  lemma CommitKeepsPast(s: System, tx: TxId, free: set<Id>)
    requires Inv(s, free) && PastInv(s) && tx in s.txns && s.txns[tx].stage.Inserted?
    ensures PastInv(Advanced(s, tx, free))
  {
    var txn := s.txns[tx];
    var s' := Advanced(s, tx, free);
    assert TxnInv(s.table, txn, free) && PickedPast(s.table, txn);
    RowKeepsDistinct(s.table, txn, txn.stage.row.position);
    forall other | other in s'.txns ensures PickedPast(s'.table, s'.txns[other]) {
      var o := s.txns[other];
      assert PickedPast(s.table, o);
      if Picked(o.stage).Some? {
        assert o.w != txn.w;
        assert forall y :: IsChild(s'.table, o.w, o.parent, y) ==> IsChild(s.table, o.w, o.parent, y);
      }
    }
  }

  lemma StepKeepsPast(s: System, step: Step, free: set<Id>)
    requires Inv(s, free) && PastInv(s) && CanStep(s, step) && HarmlessStep(s, step)
    ensures PastInv(Next(s, step, free))
  {
    match step {
      case Begin(tx, w, id, parent) =>
      case Advance(tx) =>
        var txn := s.txns[tx];
        assert PickedPast(s.table, txn);
        if txn.stage.Inserted? {
          CommitKeepsPast(s, tx, free);
        } else if txn.stage.Checked? {
          forall y | IsChild(s.table, txn.w, txn.parent, y)
            ensures s.table[y].position < NextPosition(s.table, txn.w, txn.parent)
          {
            NextPositionLast(s.table, txn.w, txn.parent, y);
          }
        }
      case Abort(tx) =>
      case Outside(table) => OutsideKeepsPast(s, table);
    }
  }

  ghost predicate AllHarmless(s: System, steps: seq<Step>, free: set<Id>)
    requires Keyed(s.table) && CanRun(s, steps, free)
    decreases |steps|
  {
    steps != [] ==> HarmlessStep(s, steps[0]) && AllHarmless(Next(s, steps[0], free), steps[1..], free)
  }

  lemma {:induction false} RunKeepsPast(s: System, steps: seq<Step>, free: set<Id>)
    requires Inv(s, free) && PastInv(s) && CanRun(s, steps, free) && AllHarmless(s, steps, free)
    ensures PastInv(Run(s, steps, free))
    decreases |steps|
  {
    if steps != [] {
      StepKeeps(s, steps[0], free);
      StepKeepsPast(s, steps[0], free);
      RunKeepsPast(Next(s, steps[0], free), steps[1..], free);
    }
  }

  /**
   * However creates and moves interleave, siblings never share a position, as
   * long as nothing is moved to the end of siblings among which a create has
   * picked its position and not committed yet.
   */
  lemma PositionsStayDistinct(t: Table, steps: seq<Step>, free: set<Id>)
    requires Keyed(t) && WithinLimit(t, free) && DistinctSiblings(t)
    requires CanRun(System(t, map[], map[]), steps, free) && AllHarmless(System(t, map[], map[]), steps, free)
    ensures DistinctSiblings(Run(System(t, map[], map[]), steps, free).table)
  {
    RunKeepsPast(System(t, map[], map[]), steps, free);
  }

  /** Archiving, publishing and unpublishing are among what may happen meanwhile. */
  lemma FlagsMoveNothing(t: Table, w: Id, d: Id, now: Time, requested: Option<Slug>, titleSlug: Slug, suffixes: seq<Slug>)
    requires Keyed(t)
    ensures Archive(t, w, d, now).Ok? ==>
              KeepsRows(t, Archive(t, w, d, now).value) && KeepsPlaces(t, Archive(t, w, d, now).value)
    ensures var r := Publish(t, w, d, requested, titleSlug, suffixes, now);
            r.Ok? ==> KeepsRows(t, r.value) && KeepsPlaces(t, r.value)
    ensures Unpublish(t, w, d).Ok? ==>
              KeepsRows(t, Unpublish(t, w, d).value) && KeepsPlaces(t, Unpublish(t, w, d).value)
  {
  }

  // ----- both failures are reached -----

  /** A run of creates and outside changes leads from `t` to `s`. */
  ghost predicate Reached(t: Table, s: System, free: set<Id>) {
    Keyed(t) && exists steps ::
      CanRun(System(t, map[], map[]), steps, free) && Run(System(t, map[], map[]), steps, free) == s
  }

  lemma {:induction false} RunThen(s: System, steps: seq<Step>, step: Step, free: set<Id>)
    requires Inv(s, free) && CanRun(s, steps, free) && CanStep(Run(s, steps, free), step)
    ensures CanRun(s, steps + [step], free) && Keyed(Run(s, steps, free).table)
    ensures Run(s, steps + [step], free) == Next(Run(s, steps, free), step, free)
    decreases |steps|
  {
    if steps == [] {
      StepKeeps(s, step, free);
      assert [step][1..] == [];
    } else {
      assert (steps + [step])[1..] == steps[1..] + [step];
      StepKeeps(s, steps[0], free);
      RunThen(Next(s, steps[0], free), steps[1..], step, free);
    }
  }

  lemma Reach(t: Table, s: System, step: Step, free: set<Id>) returns (s': System)
    requires Inv(System(t, map[], map[]), free) && Inv(s, free) && Reached(t, s, free) && CanStep(s, step)
    ensures s' == Next(s, step, free) && Reached(t, s', free) && Inv(s', free)
  {
    var steps :| CanRun(System(t, map[], map[]), steps, free) && Run(System(t, map[], map[]), steps, free) == s;
    RunThen(System(t, map[], map[]), steps, step, free);
    StepKeeps(s, step, free);
    s' := Next(s, step, free);
  }

  // A workspace 1 with one root document, 1, at the first position.
  const ONE_ROW: Table := map[1 := Doc(1, 1, None, POSITION_STEP, None, false, None, None)]

  /** A create of document 2 on that table, at some stage. */
  function Creating(parent: Option<Id>, stage: Stage): System {
    System(ONE_ROW, if stage.Waiting? then map[] else map[1 := 0], map[0 := Txn(1, 2, parent, stage)])
  }

  function NextStage(parent: Option<Id>, stage: Stage): Stage
    requires Keyed(ONE_ROW)
  {
    match stage
    case Waiting => Locked
    case Locked => Counted
    case Counted => Checked
    case Checked => Placed(NextPosition(ONE_ROW, 1, parent))
    case Placed(position) => Inserted(NewRow(Txn(1, 2, parent, stage), position))
    case Inserted(_) => stage
  }

  ghost predicate ReachedAt(parent: Option<Id>, stage: Stage, s: System) {
    s == Creating(parent, stage) && Reached(ONE_ROW, s, {}) && Inv(s, {})
  }

  lemma BeginOnce(parent: Option<Id>) returns (s: System)
    ensures ReachedAt(parent, Waiting, s)
  {
    var start := System(ONE_ROW, map[], map[]);
    assert CanRun(start, [], {}) && Run(start, [], {}) == start;
    s := Reach(ONE_ROW, start, Begin(0, 1, 2, parent), {});
  }

  lemma AdvanceResult(parent: Option<Id>, stage: Stage)
    requires parent.Some? ==> parent.value == 1
    requires !stage.Inserted?
    ensures CanStep(Creating(parent, stage), Advance(0))
    ensures Next(Creating(parent, stage), Advance(0), {}) == Creating(parent, NextStage(parent, stage))
  {
    var s' := Next(Creating(parent, stage), Advance(0), {});
    assert s'.locks == map[1 := 0];
    assert s'.txns == map[0 := Txn(1, 2, parent, NextStage(parent, stage))];
  }

  lemma AdvanceOnce(parent: Option<Id>, stage: Stage, s: System) returns (s': System)
    requires parent.Some? ==> parent.value == 1
    requires !stage.Inserted? && ReachedAt(parent, stage, s)
    ensures ReachedAt(parent, NextStage(parent, stage), s')
  {
    AdvanceResult(parent, stage);
    s' := Reach(ONE_ROW, s, Advance(0), {});
  }

  lemma CheckReached(parent: Option<Id>) returns (s: System)
    requires parent.Some? ==> parent.value == 1
    ensures ReachedAt(parent, Checked, s)
  {
    s := BeginOnce(parent);
    s := AdvanceOnce(parent, Waiting, s);
    s := AdvanceOnce(parent, Locked, s);
    s := AdvanceOnce(parent, Counted, s);
  }

  /** On that table the create of document 2, at the root or under 1, gets as far as its insert. */
  lemma InsertReached(parent: Option<Id>) returns (s: System, row: Doc)
    requires parent.Some? ==> parent.value == 1
    ensures ReachedAt(parent, Inserted(row), s) && row.position == NextPosition(ONE_ROW, 1, parent)
  {
    s := CheckReached(parent);
    s := AdvanceOnce(parent, Checked, s);
    var position := NextPosition(ONE_ROW, 1, parent);
    s := AdvanceOnce(parent, Placed(position), s);
    row := NewRow(Txn(1, 2, parent, Placed(position)), position);
  }

  /** Archiving the parent before the commit leaves an active document under an archived parent. */
  lemma ArchiveOvertakes() returns (s: System)
    ensures Reached(ONE_ROW, s, {}) && ArchiveClosed(ONE_ROW) && !ArchiveClosed(s.table)
  {
    var s0, row := InsertReached(Some(1));
    var zero: nat := 0;
    assert Up(ONE_ROW, Some(1), zero) == Some(1);
    var t := Archive(ONE_ROW, 1, 1, 0).value;
    assert t[1].Archived();
    var s1 := Reach(ONE_ROW, s0, Outside(t), {});
    CommitKeepsArchiveClosedExactly(s1, 0, {});
    s := Reach(ONE_ROW, s1, Advance(0), {});
  }

  /** Appending the one root again before the commit leaves two roots at one position. */
  lemma MoveOvertakes() returns (s: System)
    ensures Reached(ONE_ROW, s, {}) && DistinctSiblings(ONE_ROW) && !DistinctSiblings(s.table)
  {
    var s0, row := InsertReached(None);
    assert PlaceInv(s0) && Move(ONE_ROW, 1, 1, None, None, None).Ok?;
    MoveIsOutside(ONE_ROW, 1, 1, None, None, None);
    NextIsPast(s0);
    MoveCollidesExactly(s0, 0, {}, 1, 1, None, None, None);
    var s1 := Reach(ONE_ROW, s0, Outside(AfterMove(s0, 1, 1, None, None, None).table), {});
    s := Reach(ONE_ROW, s1, Advance(0), {});
  }

  /**
   * Moving the one root before itself leaves the commit with a position that is
   * no longer the next one: the whole create would have put its row at 1000.
   */
  lemma EndOvertakes() returns (s: System)
    ensures Reached(ONE_ROW, s, {}) && 0 in s.txns && s.txns[0].stage.Inserted? && s.txns[0].parent.None?
    ensures Inv(s, {}) && PastInv(s)
    ensures Create(s.table, 1, 2, None, None).Ok? && Create(s.table, 1, 2, None, None).value != Advanced(s, 0, {}).table
  {
    var s0, row := InsertReached(None);
    OneRootSiblings();
    assert PlaceInv(s0) && Move(ONE_ROW, 1, 1, None, Some(1), Some(Before)).Ok?;
    MoveIsOutside(ONE_ROW, 1, 1, None, Some(1), Some(Before));
    CreateAfterMoveExactly(s0, 0, {}, 1, 1, None, Some(1), Some(Before));
    NextIsPast(s0);
    MoveKeepsPast(s0, 1, 1, None, Some(1), Some(Before));
    s := Reach(ONE_ROW, s0, Outside(AfterMove(s0, 1, 1, None, Some(1), Some(Before)).table), {});
  }

  lemma OneRootSiblings()
    ensures IsLast(ONE_ROW, 1, None, 1) && IndexOf(Siblings(ONE_ROW, 1, None), 1) >= 0
  {
    var s := Siblings(ONE_ROW, 1, None);
    assert ONE_ROW[1] in s;
    assert s[|s| - 1] in s;
  }
}
