// Whole runs of transactions: what holds of every table they reach.
module DocumentRuns {
  import opened Prelude
  import opened DocumentTable
  import opened DocumentForest
  import opened DocumentInvariant
  import opened DocumentPrecision

  datatype Op =
    | CreateOp(w: Id, id: Id, parent: Option<Id>, limit: Option<nat>)
    | MoveOp(w: Id, d: Id, newParent: Option<Id>, reference: Option<Id>, placement: Option<Placement>)
    | ArchiveOp(w: Id, d: Id, now: Time)
    | RestoreOp(w: Id, d: Id)
    | PublishOp(w: Id, d: Id, requested: Option<Slug>, titleSlug: Slug, suffixes: seq<Slug>, now: Time)
    | UnpublishOp(w: Id, d: Id)

  ghost function Apply(t: Table, op: Op): Result<Table, Error>
    requires Keyed(t)
  {
    match op
    case CreateOp(w, id, parent, limit) => Create(t, w, id, parent, limit)
    case MoveOp(w, d, newParent, reference, placement) => Move(t, w, d, newParent, reference, placement)
    case ArchiveOp(w, d, now) => Archive(t, w, d, now)
    case RestoreOp(w, d) => Restore(t, w, d)
    case PublishOp(w, d, requested, titleSlug, suffixes, now) => Publish(t, w, d, requested, titleSlug, suffixes, now)
    case UnpublishOp(w, d) => Unpublish(t, w, d)
  }

  /** A refused transaction rolls back. */
  ghost function Step(t: Table, op: Op): (t': Table)
    requires Keyed(t)
    ensures Keyed(t')
  {
    match Apply(t, op)
    case Ok(t') => t'
    case Err(_) => t
  }

  ghost function Run(t: Table, ops: seq<Op>): (t': Table)
    requires Keyed(t)
    ensures Keyed(t')
    decreases |ops|
  {
    if ops == [] then t else Run(Step(t, ops[0]), ops[1..])
  }

  /** New ids are fresh, and no document is moved under one whose chain is too long to check. */
  ghost predicate Admissible(t: Table, op: Op) {
    match op
    case CreateOp(_, id, _, _) => id !in t
    case MoveOp(_, _, newParent, _, _) => newParent.Some? ==> Shallow(t, newParent.value)
    case _ => true
  }

  ghost predicate RunAdmissible(t: Table, ops: seq<Op>)
    requires Keyed(t)
    decreases |ops|
  {
    ops != [] ==> Admissible(t, ops[0]) && RunAdmissible(Step(t, ops[0]), ops[1..])
  }

  /** No transaction of the run is refused. */
  ghost predicate AllAccepted(t: Table, ops: seq<Op>)
    requires Keyed(t)
    decreases |ops|
  {
    ops != [] ==> Apply(t, ops[0]).Ok? && AllAccepted(Step(t, ops[0]), ops[1..])
  }

  lemma StepKeeps(t: Table, op: Op)
    requires TreeInv(t) && Admissible(t, op)
    ensures TreeInv(Step(t, op))
  {
    if Apply(t, op).Ok? {
      match op
      case CreateOp(w, id, parent, limit) => CreateKeeps(t, w, id, parent, limit);
      case MoveOp(w, d, newParent, reference, placement) => MoveKeeps(t, w, d, newParent, reference, placement);
      case ArchiveOp(w, d, now) => ArchiveKeeps(t, w, d, now);
      case RestoreOp(w, d) => RestoreKeeps(t, w, d);
      case PublishOp(w, d, requested, titleSlug, suffixes, now) =>
        PublishKeeps(t, w, d, requested, titleSlug, suffixes, now);
      case UnpublishOp(w, d) => UnpublishKeeps(t, w, d);
    }
  }

  /**
   * Every run keeps the forest, the workspace of each edge, archive closure,
   * unpublished archives, distinct sibling positions and distinct slugs.
   */
  lemma {:induction false} RunKeeps(t: Table, ops: seq<Op>)
    requires TreeInv(t) && RunAdmissible(t, ops)
    ensures TreeInv(Run(t, ops))
    decreases |ops|
  {
    if ops != [] {
      StepKeeps(t, ops[0]);
      RunKeeps(Step(t, ops[0]), ops[1..]);
    }
  }

  // ----- how fine positions get -----

  /** Does this move take the midpoint of two siblings? */
  predicate TakesMidpoint(t: Table, op: Op)
    requires Keyed(t)
  {
    op.MoveOp? && op.reference.Some? &&
    var s := Siblings(t, op.w, op.newParent);
    var i := IndexOf(s, op.reference.value);
    i >= 0 && (if op.placement == Some(Before) then i > 0 else i + 1 < |s|)
  }

  ghost function Midpoints(t: Table, ops: seq<Op>): nat
    requires Keyed(t)
    decreases |ops|
  {
    if ops == [] then 0
    else (if TakesMidpoint(t, ops[0]) then 1 else 0) + Midpoints(Step(t, ops[0]), ops[1..])
  }

  /** All positions are multiples of 1000 / 2^k and at most 1000 n in size. */
  ghost predicate FineTo(t: Table, k: nat, n: nat) {
    forall x :: x in t ==> SmallOnGrid(t[x].position, k, n)
  }

  lemma NextIsFine(t: Table, w: Id, p: Option<Id>, k: nat, n: nat)
    requires Keyed(t) && FineTo(t, k, n)
    ensures SmallOnGrid(NextPosition(t, w, p), k, n + 1)
  {
    var s := Siblings(t, w, p);
    if s == [] {
      assert GridPoint(0.0, k, 0);
      GridShift(0.0, k, 1);
    } else {
      assert s[|s| - 1] in s;
      GridShift(s[|s| - 1].position, k, 1);
    }
  }

  lemma BesideIsFine(s: seq<Doc>, i: nat, placement: Option<Placement>, k: nat, n: nat, midpoint: bool)
    requires i < |s|
    requires forall d :: d in s ==> SmallOnGrid(d.position, k, n)
    requires midpoint == if placement == Some(Before) then i > 0 else i + 1 < |s|
    ensures SmallOnGrid(PositionBeside(s, i, placement), if midpoint then k + 1 else k, n + 1)
  {
    assert s[i] in s;
    if placement == Some(Before) {
      if i > 0 {
        assert s[i - 1] in s;
        GridMidpoint(s[i - 1].position, s[i].position, k);
      } else {
        GridShift(s[i].position, k, -1);
      }
    } else if i + 1 < |s| {
      assert s[i + 1] in s;
      GridMidpoint(s[i].position, s[i + 1].position, k);
    } else {
      GridShift(s[i].position, k, 1);
    }
  }

  lemma Coarsen(t: Table, k: nat, n: nat, k': nat)
    requires FineTo(t, k, n) && (k' == k || k' == k + 1)
    ensures FineTo(t, k', n + 1)
  {
    forall x | x in t ensures SmallOnGrid(t[x].position, k', n + 1) {
      GridRefines(t[x].position, k);
    }
  }

  lemma MoveIsFine(t: Table, op: Op, k: nat, n: nat)
    requires Keyed(t) && FineTo(t, k, n) && op.MoveOp?
    requires ComputePosition(t, op.w, op.newParent, op.reference, op.placement).Ok?
    ensures SmallOnGrid(ComputePosition(t, op.w, op.newParent, op.reference, op.placement).value,
                        if TakesMidpoint(t, op) then k + 1 else k, n + 1)
  {
    if op.reference.None? {
      NextIsFine(t, op.w, op.newParent, k, n);
    } else {
      var s := Siblings(t, op.w, op.newParent);
      BesideIsFine(s, IndexOf(s, op.reference.value), op.placement, k, n, TakesMidpoint(t, op));
    }
  }

  lemma StepIsFine(t: Table, op: Op, k: nat, n: nat)
    requires Keyed(t) && FineTo(t, k, n)
    ensures FineTo(Step(t, op), if TakesMidpoint(t, op) then k + 1 else k, n + 1)
  {
    var k' := if TakesMidpoint(t, op) then k + 1 else k;
    Coarsen(t, k, n, k');
    if Apply(t, op).Ok? {
      match op {
        case CreateOp(w, id, parent, limit) => NextIsFine(t, w, parent, k, n);
        case MoveOp(w, d, newParent, reference, placement) => MoveIsFine(t, op, k, n);
        case RestoreOp(w, d) => NextIsFine(ActivateRows(t, Subtree(t, d)), w, None, k, n);
        case _ =>
      }
    }
  }

  /** After a run with k midpoint placements every position is a multiple of 1000 / 2^k. */
  lemma {:induction false} RunIsFine(t: Table, ops: seq<Op>, k: nat, n: nat)
    requires Keyed(t) && FineTo(t, k, n)
    ensures FineTo(Run(t, ops), k + Midpoints(t, ops), n + |ops|)
    decreases |ops|
  {
    if ops != [] {
      StepIsFine(t, ops[0], k, n);
      RunIsFine(Step(t, ops[0]), ops[1..], if TakesMidpoint(t, ops[0]) then k + 1 else k, n + 1);
    }
  }

  lemma FineSiblingsApart(t: Table, k: nat, n: nat, x: Id, y: Id)
    requires DistinctSiblings(t) && FineTo(t, k, n)
    requires x in t && y in t && x != y && AreSiblings(t[x], t[y]) && t[x].position <= t[y].position
    ensures Apart(t[x].position, t[y].position, k)
  {
    assert t[x].position != t[y].position;
    assert SmallOnGrid(t[x].position, k, n) && SmallOnGrid(t[y].position, k, n);
    GridGap(t[x].position, t[y].position, k);
  }

  /** So siblings reached from an empty table stay at least 1000 / 2^k apart. */
  lemma SiblingsApart(ops: seq<Op>, x: Id, y: Id)
    requires RunAdmissible(map[], ops)
    requires var t := Run(map[], ops);
             x in t && y in t && x != y && AreSiblings(t[x], t[y]) && t[x].position <= t[y].position
    ensures var t := Run(map[], ops);
            Apart(t[x].position, t[y].position, Midpoints(map[], ops))
  {
    RunKeeps(map[], ops);
    RunIsFine(map[], ops, 0, 0);
    FineSiblingsApart(Run(map[], ops), Midpoints(map[], ops), |ops|, x, y);
  }

  // ----- the same runs in double precision -----

  ghost function RoundedPosition(rnd: real -> real, t: Table, w: Id, p: Option<Id>, reference: Option<Id>,
                                 placement: Option<Placement>): real
    requires Keyed(t)
  {
    var s := Siblings(t, w, p);
    var i := if reference.Some? then IndexOf(s, reference.value) else -1;
    if i >= 0 then RoundedBeside(rnd, s, i, placement) else RoundedNext(rnd, s)
  }

  /** `Apply` with every position computed in rounded arithmetic. */
  ghost function RoundedApply(rnd: real -> real, t: Table, op: Op): Result<Table, Error>
    requires Keyed(t)
  {
    match Apply(t, op)
    case Err(e) => Err(e)
    case Ok(t') =>
      match op
      case CreateOp(w, id, parent, _) =>
        Ok(t'[id := t'[id].(position := RoundedPosition(rnd, t, w, parent, None, None))])
      case MoveOp(w, d, newParent, reference, placement) =>
        Ok(t'[d := t'[d].(position := RoundedPosition(rnd, t, w, newParent, reference, placement))])
      case RestoreOp(w, d) =>
        var t1 := ActivateRows(t, Subtree(t, d));
        if Dangling(t1, w, d)
        then Ok(t'[d := t'[d].(position := RoundedPosition(rnd, t1, w, None, None, None))])
        else Ok(t')
      case _ => Ok(t')
  }

  ghost function RoundedRun(rnd: real -> real, t: Table, ops: seq<Op>): (t': Table)
    requires Keyed(t)
    decreases |ops|
  {
    if ops == [] then t
    else
      match RoundedApply(rnd, t, ops[0])
      case Ok(t') => RoundedRun(rnd, t', ops[1..])
      case Err(_) => RoundedRun(rnd, t, ops[1..])
  }

  lemma RoundedPositionExact(rnd: real -> real, t: Table, w: Id, p: Option<Id>, reference: Option<Id>,
                             placement: Option<Placement>, k: nat, n: nat)
    requires Keyed(t) && FineTo(t, k, n) && Rounding(rnd) && Room(k, n)
    requires ComputePosition(t, w, p, reference, placement).Ok?
    ensures RoundedPosition(rnd, t, w, p, reference, placement) ==
            ComputePosition(t, w, p, reference, placement).value
  {
    DoublesAreExact(rnd, Siblings(t, w, p), k, n);
  }

  lemma SamePosition(t: Table, d: Id, position: real)
    requires d in t && t[d].position == position
    ensures t[d := t[d].(position := position)] == t
  {
    assert t[d].(position := position) == t[d];
  }

  lemma RoundedApplyExact(rnd: real -> real, t: Table, op: Op, k: nat, n: nat)
    requires Keyed(t) && FineTo(t, k, n) && Rounding(rnd) && Room(k, n)
    ensures RoundedApply(rnd, t, op) == Apply(t, op)
  {
    if Apply(t, op).Ok? {
      match op {
        case CreateOp(w, id, parent, limit) =>
          RoundedPositionExact(rnd, t, w, parent, None, None, k, n);
          SamePosition(Apply(t, op).value, id, NextPosition(t, w, parent));
        case MoveOp(w, d, newParent, reference, placement) =>
          RoundedPositionExact(rnd, t, w, newParent, reference, placement, k, n);
          SamePosition(Apply(t, op).value, d, ComputePosition(t, w, newParent, reference, placement).value);
        case RestoreOp(w, d) =>
          RoundedRestoreExact(rnd, t, w, d, k, n);
        case _ =>
      }
    }
  }

  lemma RoundedRestoreExact(rnd: real -> real, t: Table, w: Id, d: Id, k: nat, n: nat)
    requires Keyed(t) && FineTo(t, k, n) && Rounding(rnd) && Room(k, n)
    ensures RoundedApply(rnd, t, RestoreOp(w, d)) == Apply(t, RestoreOp(w, d))
  {
    if Scoped(t, w, d) {
      var t1 := ActivateRows(t, Subtree(t, d));
      if Dangling(t1, w, d) {
        RoundedPositionExact(rnd, t1, w, None, None, None, k, n);
        SamePosition(Reattach(t1, w, d), d, NextPosition(t1, w, None));
      }
    }
  }

  lemma RoomShrinks(k: nat, n: nat, k': nat, n': nat)
    requires Room(k', n') && k <= k' && 1 <= n <= n'
    ensures Room(k, n)
  {
    Pow2Grows(k, k');
    ProductGrows(n, Pow2(k), n', Pow2(k'));
  }

  lemma ProductGrows(a: nat, b: nat, a': nat, b': nat)
    requires a <= a' && b <= b'
    ensures a * b <= a' * b'
    ensures 250 * a * b == 250 * (a * b) && 250 * a' * b' == 250 * (a' * b')
  {
    assert a' * b' - a * b == a' * (b' - b) + (a' - a) * b;
  }

  /**
   * A run of n transactions with k midpoint placements computes the same
   * table in double precision as over the reals, while 250 n 2^k <= 2^53.
   */
  lemma {:induction false} DoubleRunExact(rnd: real -> real, t: Table, ops: seq<Op>, k: nat, n: nat)
    requires Keyed(t) && FineTo(t, k, n) && Rounding(rnd)
    requires ops != [] ==> Room(k + Midpoints(t, ops), n + |ops|)
    ensures RoundedRun(rnd, t, ops) == Run(t, ops)
    decreases |ops|
  {
    if ops != [] {
      var t' := Step(t, ops[0]);
      var k' := if TakesMidpoint(t, ops[0]) then k + 1 else k;
      RoomShrinks(k, n + 1, k + Midpoints(t, ops), n + |ops|);
      Coarsen(t, k, n, k);
      RoundedApplyExact(rnd, t, ops[0], k, n + 1);
      StepIsFine(t, ops[0], k, n);
      assert k' + Midpoints(t', ops[1..]) == k + Midpoints(t, ops);
      DoubleRunExact(rnd, t', ops[1..], k', n + 1);
    }
  }

  /** From an empty table: n transactions, k of them midpoint placements, and 250 n 2^k <= 2^53. */
  lemma FreshRunExact(rnd: real -> real, ops: seq<Op>)
    requires Rounding(rnd) && (ops != [] ==> Room(Midpoints(map[], ops), |ops|))
    ensures RoundedRun(rnd, map[], ops) == Run(map[], ops)
  {
    DoubleRunExact(rnd, map[], ops, 0, 0);
  }

  // ----- the depth bound is needed -----

  /** Creates a chain of `n` documents, each under the one before. */
  function ChainOps(w: Id, n: nat): seq<Op> {
    if n == 0 then []
    else ChainOps(w, n - 1) + [CreateOp(w, n - 1, if n == 1 then None else Some(n - 2), None)]
  }

  ghost predicate IsChain(t: Table, w: Id, n: nat) {
    && (forall i :: i in t <==> 0 <= i < n)
    && (forall i :: 0 <= i < n ==> t[i].workspace == w && !t[i].Archived())
    && (forall i :: 0 <= i < n ==> t[i].parent == if i == 0 then None else Some(i - 1))
  }

  lemma {:induction false} RunAppend(t: Table, a: seq<Op>, op: Op)
    requires Keyed(t)
    ensures Run(t, a + [op]) == Step(Run(t, a), op)
    ensures RunAdmissible(t, a) && Admissible(Run(t, a), op) ==> RunAdmissible(t, a + [op])
    ensures AllAccepted(t, a) && Apply(Run(t, a), op).Ok? ==> AllAccepted(t, a + [op])
    decreases |a|
  {
    if a == [] {
      assert [op][1..] == [];
      assert a + [op] == [op];
    } else {
      assert (a + [op])[1..] == a[1..] + [op];
      RunAppend(Step(t, a[0]), a[1..], op);
    }
  }

  function ChainOp(w: Id, n: nat): Op
    requires n > 0
  {
    CreateOp(w, n - 1, if n == 1 then None else Some(n - 2), None)
  }

  lemma ChainStep(t: Table, w: Id, n: nat)
    requires n > 0 && Keyed(t) && IsChain(t, w, n - 1)
    ensures Admissible(t, ChainOp(w, n)) && Apply(t, ChainOp(w, n)).Ok? && IsChain(Step(t, ChainOp(w, n)), w, n)
  {
    assert Create(t, w, n - 1, if n == 1 then None else Some(n - 2), None).Ok?;
  }

  lemma {:induction false} ChainIsReached(w: Id, n: nat)
    ensures RunAdmissible(map[], ChainOps(w, n)) && AllAccepted(map[], ChainOps(w, n))
    ensures IsChain(Run(map[], ChainOps(w, n)), w, n)
  {
    if n > 0 {
      ChainIsReached(w, n - 1);
      ChainStep(Run(map[], ChainOps(w, n - 1)), w, n);
      RunAppend(map[], ChainOps(w, n - 1), ChainOp(w, n));
    }
  }

  lemma {:induction false} ChainUp(t: Table, w: Id, n: nat, i: nat, j: nat)
    requires IsChain(t, w, n) && j <= i < n
    ensures Up(t, Some(i), j) == Some(i - j)
    decreases j
  {
    if j > 0 { ChainUp(t, w, n, i - 1, j - 1); }
  }

  // 1001 creates, and a move of the first document under the last.
  function LosingOps(w: Id): seq<Op> {
    ChainOps(w, 1001) + [MoveOp(w, 0, Some(1000), None, None)]
  }

  lemma ChainMoved(t: Table, w: Id)
    requires IsChain(t, w, 1001) && TreeInv(t)
    ensures Move(t, w, 0, Some(1000), None, None).Ok? && !Forest(Move(t, w, 0, Some(1000), None, None).value)
  {
    ChainUp(t, w, 1001, 1000, 1000);
    DeepMoveBreaks(t, 1000);
  }

  /** Even then no edge leaves its workspace. */
  lemma ChainCloses(t: Table, w: Id)
    requires IsChain(t, w, 1001) && TreeInv(t) && Move(t, w, 0, Some(1000), None, None).Ok?
    ensures var t' := Move(t, w, 0, Some(1000), None, None).value;
            IsRing(t', 1001) && t'[0].parent == Some(1000) && EdgesInside(t') && Scoped(t', w, 0)
  {
    var t' := Move(t, w, 0, Some(1000), None, None).value;
    assert 0 in t && 1000 in t;
    RehangKeeps(t, t', 0, Some(1000));
  }

  /** A run that the server accepts in full and that ends with a document below itself. */
  lemma ForestLost(w: Id)
    ensures AllAccepted(map[], LosingOps(w)) && !Forest(Run(map[], LosingOps(w)))
    ensures EdgesInside(Run(map[], LosingOps(w))) && Scoped(Run(map[], LosingOps(w)), w, 0)
    ensures Up(Run(map[], LosingOps(w)), Some(0), 1001) == Some(0)
  {
    var move := MoveOp(w, 0, Some(1000), None, None);
    ChainIsReached(w, 1001);
    RunKeeps(map[], ChainOps(w, 1001));
    ChainMoved(Run(map[], ChainOps(w, 1001)), w);
    ChainCloses(Run(map[], ChainOps(w, 1001)), w);
    RunAppend(map[], ChainOps(w, 1001), move);
    RingCloses(Run(map[], LosingOps(w)));
  }

  lemma RingCloses(t: Table)
    requires IsRing(t, 1001) && t[0].parent == Some(1000)
    ensures Up(t, Some(0), 1001) == Some(0)
  {
    RingUp(t, 1000, 1000);
  }

  ghost predicate IsRing(t: Table, n: nat) {
    && (forall i :: 0 <= i < n ==> i in t)
    && (forall i :: 0 < i < n ==> t[i].parent == Some(i - 1))
  }

  lemma {:induction false} RingUp(t: Table, i: nat, j: nat)
    requires IsRing(t, i + 1) && j <= i
    ensures Up(t, Some(i), j) == Some(i - j)
    decreases j
  {
    if j > 0 { RingUp(t, i - 1, j - 1); }
  }
}
