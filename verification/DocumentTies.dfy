// Where double precision ends: when a midpoint still separates its neighbours,
// and a run that ends with two siblings at one position.
module DocumentTies {
  import opened Prelude
  import opened DocumentTable
  import opened DocumentInvariant
  import opened DocumentPrecision
  import opened DocumentRuns
  import opened DocumentList
  import CreateLocks

  // ----- rounding to nearest -----

  /** Numbers with a significand of at most 53 bits; overflow and underflow are far from any position. */
  ghost predicate Float(x: real) {
    exists m: int, a: nat, b: nat :: FloatForm(x, m, a, b)
  }

  ghost predicate FloatForm(x: real, m: int, a: nat, b: nat) {
    -TWO_TO_THE_53 <= m <= TWO_TO_THE_53 && x * Pow2(a) as real == m as real * Pow2(b) as real
  }

  function Distance(x: real, y: real): real {
    if x < y then y - x else x - y
  }

  /** Nothing of that kind is nearer; ties may go either way. */
  ghost predicate Nearest(rnd: real -> real) {
    forall x :: NearestAt(rnd, x)
  }

  ghost predicate NearestAt(rnd: real -> real, x: real) {
    Float(rnd(x)) && forall y :: Float(y) ==> Distance(rnd(x), x) <= Distance(y, x)
  }

  lemma FloatTwice(x: real)
    requires Float(x)
    ensures Float(2.0 * x) && Float(x / 2.0)
  {
    var m: int, a: nat, b: nat :| FloatForm(x, m, a, b);
    TwiceForm(x, Pow2(a) as real, m as real, Pow2(b) as real);
    assert Pow2(b + 1) == 2 * Pow2(b) && Pow2(a + 1) == 2 * Pow2(a);
    assert FloatForm(2.0 * x, m, a, b + 1);
    assert FloatForm(x / 2.0, m, a + 1, b);
  }

  lemma TwiceForm(x: real, p: real, m: real, q: real)
    requires x * p == m * q
    ensures (2.0 * x) * p == m * (2.0 * q) && (x / 2.0) * (2.0 * p) == m * q
  {
  }

  lemma NearestExact(rnd: real -> real, x: real)
    requires Nearest(rnd) && Float(x)
    ensures rnd(x) == x
  {
    assert NearestAt(rnd, x);
  }

  lemma NearestIsRounding(rnd: real -> real)
    requires Nearest(rnd)
    ensures Rounding(rnd)
  {
    forall x | Binary64(x) ensures rnd(x) == x {
      var m: int, a: nat, b: nat :| Binary64Form(x, m, a, b);
      assert FloatForm(x, m, a, b);
      NearestExact(rnd, x);
    }
  }

  /** The position between two siblings as the server computes it. */
  function RoundedMidpoint(rnd: real -> real, x: real, y: real): real {
    rnd(rnd(x + y) / 2.0)
  }

  /** A computed midpoint lies strictly between its neighbours if and only if some double does. */
  lemma MidpointSeparatesExactly(rnd: real -> real, x: real, y: real)
    requires Nearest(rnd) && Float(x) && Float(y) && x < y
    ensures var mid := RoundedMidpoint(rnd, x, y);
            && x <= mid <= y && Float(mid)
            && (x < mid < y <==> exists z :: Float(z) && x < z < y)
  {
    var sum := rnd(x + y);
    assert NearestAt(rnd, x + y);
    FloatTwice(sum);
    NearestExact(rnd, sum / 2.0);
    FloatTwice(x);
    assert Distance(sum, x + y) <= Distance(2.0 * x, x + y);
    if z :| Float(z) && x < z < y {
      FloatTwice(z);
      assert Distance(sum, x + y) <= Distance(2.0 * z, x + y);
    }
  }

  // ----- which midpoint placements end in a tie -----

  /** The neighbours a midpoint placement goes between are `s[j]` and `s[j + 1]`. */
  predicate Between(t: Table, op: Op, j: nat)
    requires Keyed(t)
  {
    op.MoveOp? && op.reference.Some? &&
    var s := Siblings(t, op.w, op.newParent);
    j + 1 < |s| && IndexOf(s, op.reference.value) == if op.placement == Some(Before) then j + 1 else j
  }

  lemma AscendingSiblings(t: Table, w: Id, p: Option<Id>)
    requires Keyed(t) && DistinctSiblings(t)
    ensures StrictlyAscending(Siblings(t, w, p))
  {
    var s := Siblings(t, w, p);
    forall i, j | 0 <= i < j < |s| ensures s[i].position < s[j].position {
      assert s[i] in s && s[j] in s;
      assert RowLeq(s[i], s[j]) && s[i] != s[j];
      assert AreSiblings(t[s[i].id], t[s[j].id]);
    }
  }

  lemma BesideIsMidpoint(rnd: real -> real, s: seq<Doc>, i: nat, placement: Option<Placement>, j: nat)
    requires j + 1 < |s| && i == if placement == Some(Before) then j + 1 else j
    ensures RoundedBeside(rnd, s, i, placement) == RoundedMidpoint(rnd, s[j].position, s[j + 1].position)
  {
  }

  lemma PositionInList(rnd: real -> real, t: Table, w: Id, p: Option<Id>, reference: Id, placement: Option<Placement>, i: nat)
    requires Keyed(t) && IndexOf(Siblings(t, w, p), reference) == i
    ensures RoundedPosition(rnd, t, w, p, Some(reference), placement) == RoundedBeside(rnd, Siblings(t, w, p), i, placement)
  {
  }

  lemma MidpointInList(rnd: real -> real, t: Table, op: Op, j: nat)
    requires Keyed(t) && Between(t, op, j)
    ensures var s := Siblings(t, op.w, op.newParent);
            RoundedPosition(rnd, t, op.w, op.newParent, op.reference, op.placement) ==
            RoundedMidpoint(rnd, s[j].position, s[j + 1].position)
  {
    var i := if op.placement == Some(Before) then j + 1 else j;
    PositionInList(rnd, t, op.w, op.newParent, op.reference.value, op.placement, i);
    BesideIsMidpoint(rnd, Siblings(t, op.w, op.newParent), i, op.placement, j);
  }

  lemma RoundedMove(rnd: real -> real, t: Table, op: Op)
    requires Keyed(t) && op.MoveOp? && Apply(t, op).Ok?
    ensures var position := RoundedPosition(rnd, t, op.w, op.newParent, op.reference, op.placement);
            op.d in t && RoundedApply(rnd, t, op) == Ok(t[op.d := t[op.d].(parent := op.newParent, position := position)])
  {
    var position := RoundedPosition(rnd, t, op.w, op.newParent, op.reference, op.placement);
    var moved := Apply(t, op).value;
    assert moved[op.d := moved[op.d].(position := position)]
        == t[op.d := t[op.d].(parent := op.newParent, position := position)];
  }

  /** What a rounded move that goes between two siblings does. */
  lemma MidpointMove(rnd: real -> real, t: Table, op: Op, j: nat)
    requires Keyed(t) && Between(t, op, j) && Apply(t, op).Ok?
    ensures var s := Siblings(t, op.w, op.newParent);
            var mid := RoundedMidpoint(rnd, s[j].position, s[j + 1].position);
            op.d in t && RoundedApply(rnd, t, op) == Ok(t[op.d := t[op.d].(parent := op.newParent, position := mid)])
  {
    MidpointInList(rnd, t, op, j);
    RoundedMove(rnd, t, op);
  }

  /** A moved row keeps siblings distinct exactly when no other row has its new position. */
  lemma MovedDistinct(t: Table, d: Id, p: Option<Id>, position: real)
    requires Keyed(t) && DistinctSiblings(t) && d in t
    ensures DistinctSiblings(t[d := t[d].(parent := p, position := position)]) <==>
            forall y :: CreateLocks.IsChild(t, t[d].workspace, p, y) && y != d ==> t[y].position != position
  {
    var t' := t[d := t[d].(parent := p, position := position)];
    if y :| CreateLocks.IsChild(t, t[d].workspace, p, y) && y != d && t[y].position == position {
      assert AreSiblings(t'[y], t'[d]);
    } else {
      forall y | y in t && y != d && AreSiblings(t'[y], t'[d]) ensures t'[y].position != t'[d].position {
        assert CreateLocks.IsChild(t, t[d].workspace, p, y);
      }
      MoveKeepsDistinct(t, t', d);
    }
  }

  /** Who among the siblings can stand at `mid`, which is not outside `s[j]` and `s[j + 1]`? */
  lemma OnlyNeighbours(t: Table, w: Id, p: Option<Id>, j: nat, mid: real, y: Id)
    requires Keyed(t) && DistinctSiblings(t) && CreateLocks.IsChild(t, w, p, y) && t[y].position == mid
    requires var s := Siblings(t, w, p); j + 1 < |s| && s[j].position <= mid <= s[j + 1].position
    ensures var s := Siblings(t, w, p); (y == s[j].id && mid == s[j].position) || (y == s[j + 1].id && mid == s[j + 1].position)
  {
    var s := Siblings(t, w, p);
    AscendingSiblings(t, w, p);
    assert t[y] in s;
    var i :| 0 <= i < |s| && s[i] == t[y];
    assert i == j || i == j + 1;
  }

  /** `mid` is the position of that row, and it is not `d`. */
  predicate HeldByOther(row: Doc, d: Id, mid: real) {
    row.position == mid && row.id != d
  }

  /**
   * In double precision a midpoint placement keeps siblings distinct if and only
   * if some double lies between the two neighbours, or the midpoint falls on the
   * one of them that is being moved.
   */
  lemma MidpointMoveExactly(rnd: real -> real, t: Table, op: Op, j: nat)
    requires Nearest(rnd) && Keyed(t) && DistinctSiblings(t) && Between(t, op, j) && Apply(t, op).Ok?
    requires forall x :: x in t ==> Float(t[x].position)
    ensures var s := Siblings(t, op.w, op.newParent);
            var mid := RoundedMidpoint(rnd, s[j].position, s[j + 1].position);
            && RoundedApply(rnd, t, op).Ok?
            && (DistinctSiblings(RoundedApply(rnd, t, op).value) <==>
                || (exists z :: Float(z) && s[j].position < z < s[j + 1].position)
                || (s[j].id == op.d && mid == s[j].position)
                || (s[j + 1].id == op.d && mid == s[j + 1].position))
  {
    var s := Siblings(t, op.w, op.newParent);
    var mid := RoundedMidpoint(rnd, s[j].position, s[j + 1].position);
    AscendingSiblings(t, op.w, op.newParent);
    assert s[j] in s && s[j + 1] in s;
    MidpointSeparatesExactly(rnd, s[j].position, s[j + 1].position);
    MidpointMove(rnd, t, op, j);
    MovedDistinct(t, op.d, op.newParent, mid);
    NeighboursDecide(t, op.w, op.newParent, j, mid, op.d);
  }

  lemma NeighboursDecide(t: Table, w: Id, p: Option<Id>, j: nat, mid: real, d: Id)
    requires Keyed(t) && DistinctSiblings(t)
    requires var s := Siblings(t, w, p); j + 1 < |s| && s[j].position <= mid <= s[j + 1].position
    ensures var s := Siblings(t, w, p);
            (forall y :: CreateLocks.IsChild(t, w, p, y) && y != d ==> t[y].position != mid) <==>
            !HeldByOther(s[j], d, mid) && !HeldByOther(s[j + 1], d, mid)
  {
    var s := Siblings(t, w, p);
    assert s[j] in s && s[j + 1] in s;
    assert CreateLocks.IsChild(t, w, p, s[j].id) && CreateLocks.IsChild(t, w, p, s[j + 1].id);
    forall y | CreateLocks.IsChild(t, w, p, y) && t[y].position == mid
      ensures (y == s[j].id && mid == s[j].position) || (y == s[j + 1].id && mid == s[j + 1].position)
    {
      OnlyNeighbours(t, w, p, j, mid, y);
    }
  }

  // ----- there are only so many doubles to go -----

  const FRACTION: nat := 0x1000_0000_0000

  lemma FractionIsPower()
    ensures Pow2(44) == FRACTION && Pow2(9) == 512
  {
    assert Pow2(4) == 16;
    Pow2Adds(4, 4);
    assert Pow2(8) == 256;
    Pow2Adds(8, 8);
    Pow2Adds(16, 16);
    assert Pow2(32) == 0x1_0000_0000;
    Pow2Adds(32, 8);
    Pow2Adds(40, 4);
  }

  lemma {:induction false} ScaledTo(x: real, e: nat, k: nat, m: int) returns (i: int)
    requires x * Pow2(e) as real == m as real && e <= k
    ensures x * Pow2(k) as real == i as real
    decreases k
  {
    if e == k {
      i := m;
    } else {
      i := ScaledTo(x, e, k - 1, m);
      Doubled(x, Pow2(k - 1), i);
      i := 2 * i;
    }
  }

  lemma Doubled(x: real, p: nat, i: int)
    requires x * p as real == i as real
    ensures x * (2 * p) as real == (2 * i) as real
  {
  }

  lemma TooBig(x: real, u: nat)
    requires x >= 512.0 && u >= 2 * FRACTION
    ensures x * u as real > TWO_TO_THE_53 as real
  {
    assert x * u as real >= 512.0 * u as real >= 512.0 * (2 * FRACTION) as real;
  }

  lemma SmallExponent(x: real, e: nat, m: int)
    requires x * Pow2(e) as real == m as real && x >= 512.0 && m <= TWO_TO_THE_53
    ensures e <= 44
  {
    FractionIsPower();
    assert Pow2(45) == 2 * Pow2(44);
    if e > 44 {
      Pow2Grows(45, e);
      TooBig(x, Pow2(e));
    }
  }

  lemma NotNegative(x: real, n: nat, i: int)
    requires x >= 0.0 && x * n as real == i as real
    ensures i >= 0
  {
  }

  lemma Reduced(x: real, m: int, a: nat, b: nat)
    requires FloatForm(x, m, a, b) && a > b
    ensures x * Pow2(a - b) as real == m as real
  {
    Pow2Adds(b, a - b);
    CancelBelow(x, Pow2(a), Pow2(b), m, Pow2(a - b));
  }

  lemma CancelBelow(x: real, r: nat, q: nat, m: int, p: nat)
    requires q > 0 && r == q * p && x * r as real == m as real * q as real
    ensures x * p as real == m as real
  {
    assert (x * p as real - m as real) * q as real == 0.0;
  }

  lemma Whole(x: real, m: int, a: nat, b: nat) returns (j: int)
    requires FloatForm(x, m, a, b) && a <= b
    ensures x == j as real
  {
    Pow2Adds(a, b - a);
    Cancel(x, Pow2(a), m, Pow2(b), Pow2(b - a));
    j := m * Pow2(b - a);
  }

  lemma Cancel(x: real, p: nat, m: int, r: nat, q: nat)
    requires p > 0 && r == p * q && x * p as real == m as real * r as real
    ensures x == (m * q) as real
  {
    assert (x - (m * q) as real) * p as real == 0.0;
  }

  lemma OnFraction(x: real, e: nat, m: int) returns (i: nat)
    requires x >= 0.0 && e <= 44 && x * Pow2(e) as real == m as real
    ensures x * FRACTION as real == i as real
  {
    var j := ScaledTo(x, e, 44, m);
    FractionIsPower();
    NotNegative(x, FRACTION, j);
    i := j;
  }

  /** From 512 on, doubles are multiples of 2^-44. */
  lemma LargeFloat(x: real) returns (i: nat)
    requires Float(x) && x >= 512.0
    ensures x * FRACTION as real == i as real
  {
    var m: int, a: nat, b: nat :| FloatForm(x, m, a, b);
    if a <= b {
      var j := Whole(x, m, a, b);
      assert Pow2(0) == 1;
      i := OnFraction(x, 0, j);
    } else {
      Reduced(x, m, a, b);
      SmallExponent(x, a - b, m);
      i := OnFraction(x, a - b, m);
    }
  }

  // ----- the run -----

  function RootAt(id: Id, w: Id, position: real): Doc {
    Doc(id, w, None, position, None, false, None, None)
  }

  /** Three roots: 1 at the first position, then `x` at `p` and `y` at `q`. */
  function Three(w: Id, x: Id, y: Id, p: real, q: real): Table
    requires x != 1 && y != 1 && x != y
  {
    map[1 := RootAt(1, w, POSITION_STEP), x := RootAt(x, w, p), y := RootAt(y, w, q)]
  }

  lemma ThreeSiblings(w: Id, x: Id, y: Id, p: real, q: real)
    requires x != 1 && y != 1 && x != y && POSITION_STEP < p < q
    ensures Siblings(Three(w, x, y, p, q), w, None) == [RootAt(1, w, POSITION_STEP), RootAt(x, w, p), RootAt(y, w, q)]
  {
    var s := Siblings(Three(w, x, y, p, q), w, None);
    var r := [RootAt(1, w, POSITION_STEP), RootAt(x, w, p), RootAt(y, w, q)];
    forall d ensures d in s <==> d in r {}
    forall i, j | 0 <= i < j < |s| ensures s[i].position < s[j].position {
      assert s[i] in s && s[j] in s;
    }
    SameAscending(s, r);
  }

  /** `y` is placed directly after 1. */
  function PlaceAfterFirst(w: Id, y: Id): Op {
    MoveOp(w, y, None, Some(1), Some(After))
  }

  lemma PlacedAfterFirst(rnd: real -> real, w: Id, x: Id, y: Id, p: real, q: real)
    requires x != 1 && y != 1 && x != y && POSITION_STEP < p < q
    ensures RoundedApply(rnd, Three(w, x, y, p, q), PlaceAfterFirst(w, y)) ==
            Ok(Three(w, x, y, p, RoundedMidpoint(rnd, POSITION_STEP, p)))
  {
    var t := Three(w, x, y, p, q);
    ThreeSiblings(w, x, y, p, q);
    assert IndexOf(Siblings(t, w, None), 1) == 0;
    var mid := RoundedMidpoint(rnd, POSITION_STEP, p);
    assert RoundedPosition(rnd, t, w, None, Some(1), Some(After)) == mid;
    var moved := Move(t, w, y, None, Some(1), Some(After)).value;
    assert moved[y := moved[y].(position := mid)] == Three(w, x, y, p, mid);
  }

  lemma First(rnd: real -> real, t: Table, op: Op, rest: seq<Op>, t': Table)
    requires Keyed(t) && Keyed(t') && RoundedApply(rnd, t, op) == Ok(t')
    ensures RoundedRun(rnd, t, [op] + rest) == RoundedRun(rnd, t', rest)
  {
    assert ([op] + rest)[1..] == rest;
  }

  predicate RootMoves(ops: seq<Op>) {
    forall i :: 0 <= i < |ops| ==> ops[i].MoveOp? && ops[i].newParent.None?
  }

  /** From this table on, `ops` only moves roots and ends with two siblings at one position. */
  ghost predicate EndsInTie(rnd: real -> real, t: Table, ops: seq<Op>)
    requires Keyed(t)
  {
    RootMoves(ops) && !DistinctSiblings(RoundedRun(rnd, t, ops))
  }

  /** One move of a root leads from `t` to `t'`. */
  ghost predicate Leads(rnd: real -> real, t: Table, op: Op, t': Table) {
    op.MoveOp? && op.newParent.None? && Keyed(t) && Keyed(t') && RoundedApply(rnd, t, op) == Ok(t')
  }

  lemma TieThen(rnd: real -> real, t: Table, op: Op, rest: seq<Op>, t': Table)
    requires Leads(rnd, t, op, t') && EndsInTie(rnd, t', rest)
    ensures EndsInTie(rnd, t, [op] + rest)
  {
    First(rnd, t, op, rest, t');
  }

  lemma TieAlready(rnd: real -> real, t: Table)
    requires Keyed(t) && !DistinctSiblings(t)
    ensures EndsInTie(rnd, t, [])
  {
  }

  lemma PlacingLeads(rnd: real -> real, w: Id, x: Id, y: Id, p: real, q: real)
    requires x != 1 && y != 1 && x != y && POSITION_STEP < p < q
    ensures Leads(rnd, Three(w, x, y, p, q), PlaceAfterFirst(w, y), Three(w, x, y, p, RoundedMidpoint(rnd, POSITION_STEP, p)))
  {
    PlacedAfterFirst(rnd, w, x, y, p, q);
  }

  lemma TieNow(rnd: real -> real, w: Id, x: Id, y: Id, p: real, q: real)
    requires x != 1 && y != 1 && x != y && POSITION_STEP < p < q
    requires var mid := RoundedMidpoint(rnd, POSITION_STEP, p); mid == POSITION_STEP || mid == p
    ensures EndsInTie(rnd, Three(w, x, y, p, q), [PlaceAfterFirst(w, y)] + [])
  {
    var t' := Three(w, x, y, p, RoundedMidpoint(rnd, POSITION_STEP, p));
    PlacingLeads(rnd, w, x, y, p, q);
    TieIn(w, x, y, p, RoundedMidpoint(rnd, POSITION_STEP, p));
    TieAlready(rnd, t');
    TieThen(rnd, Three(w, x, y, p, q), PlaceAfterFirst(w, y), [], t');
  }

  lemma Swapped(w: Id, x: Id, y: Id, p: real, q: real)
    requires x != 1 && y != 1 && x != y
    ensures Three(w, x, y, p, q) == Three(w, y, x, q, p)
  {
  }

  lemma TieLater(rnd: real -> real, w: Id, x: Id, y: Id, p: real, q: real, rest: seq<Op>)
    requires x != 1 && y != 1 && x != y && POSITION_STEP < p < q
    requires EndsInTie(rnd, Three(w, y, x, RoundedMidpoint(rnd, POSITION_STEP, p), p), rest)
    ensures EndsInTie(rnd, Three(w, x, y, p, q), [PlaceAfterFirst(w, y)] + rest)
  {
    var mid := RoundedMidpoint(rnd, POSITION_STEP, p);
    PlacingLeads(rnd, w, x, y, p, q);
    Swapped(w, y, x, mid, p);
    TieThen(rnd, Three(w, x, y, p, q), PlaceAfterFirst(w, y), rest, Three(w, x, y, p, mid));
  }

  /** Whoever comes second and whoever comes third take turns directly after the first, until there is no room. */
  lemma {:induction false} TieFrom(rnd: real -> real, w: Id, x: Id, y: Id, p: real, q: real, i: nat) returns (ops: seq<Op>)
    requires Nearest(rnd) && Float(POSITION_STEP) && Float(p) && p * FRACTION as real == i as real
    requires x != 1 && y != 1 && x != y && POSITION_STEP < p < q
    ensures EndsInTie(rnd, Three(w, x, y, p, q), ops)
    decreases i
  {
    var mid := RoundedMidpoint(rnd, POSITION_STEP, p);
    MidpointSeparatesExactly(rnd, POSITION_STEP, p);
    if POSITION_STEP < mid < p {
      var i' := LargeFloat(mid);
      FewerSteps(mid, p, i', i);
      var rest := TieFrom(rnd, w, y, x, mid, p, i');
      TieLater(rnd, w, x, y, p, q, rest);
      ops := [PlaceAfterFirst(w, y)] + rest;
    } else {
      TieNow(rnd, w, x, y, p, q);
      ops := [PlaceAfterFirst(w, y)] + [];
    }
  }

  lemma FewerSteps(a: real, b: real, i: nat, j: nat)
    requires a < b && a * FRACTION as real == i as real && b * FRACTION as real == j as real
    ensures i < j
  {
    assert (b - a) * FRACTION as real > 0.0;
  }

  lemma TieIn(w: Id, x: Id, y: Id, p: real, q: real)
    requires x != 1 && y != 1 && x != y && (q == POSITION_STEP || q == p)
    ensures !DistinctSiblings(Three(w, x, y, p, q))
  {
    var t := Three(w, x, y, p, q);
    assert AreSiblings(t[y], t[1]) && AreSiblings(t[y], t[x]);
  }

  // ----- from an empty table -----

  lemma WholeNumber(n: nat)
    requires n <= TWO_TO_THE_53
    ensures Float(n as real)
  {
    assert Pow2(0) == 1;
    assert FloatForm(n as real, n, 0, 0);
  }

  /** The first of all positions, one past the last of one, and one past the last of two. */
  lemma NextOfFew(w: Id)
    ensures NextPosition(map[], w, None) == 1000.0
    ensures NextPosition(map[1 := RootAt(1, w, 1000.0)], w, None) == 2000.0
    ensures NextPosition(map[1 := RootAt(1, w, 1000.0), 2 := RootAt(2, w, 2000.0)], w, None) == 3000.0
  {
    var one := map[1 := RootAt(1, w, 1000.0)];
    var two := map[1 := RootAt(1, w, 1000.0), 2 := RootAt(2, w, 2000.0)];
    assert forall y: Id :: !CreateLocks.IsChild(map[], w, None, y);
    CreateLocks.NextPositionExact(map[], w, None, 1000.0);
    assert CreateLocks.IsChild(one, w, None, 1);
    CreateLocks.NextPositionExact(one, w, None, 2000.0);
    assert CreateLocks.IsChild(two, w, None, 2);
    CreateLocks.NextPositionExact(two, w, None, 3000.0);
  }

  function CreateRoot(w: Id, id: Id): Op {
    CreateOp(w, id, None, None)
  }

  lemma RootCreated(rnd: real -> real, t: Table, w: Id, id: Id, n: nat)
    requires Nearest(rnd) && Keyed(t) && id !in t && NextPosition(t, w, None) == n as real && n <= TWO_TO_THE_53
    ensures RoundedApply(rnd, t, CreateRoot(w, id)) == Ok(t[id := RootAt(id, w, n as real)])
  {
    WholeNumber(n);
    NearestExact(rnd, n as real);
    var t' := t[id := RootAt(id, w, n as real)];
    assert Create(t, w, id, None, None) == Ok(t');
    assert t'[id := t'[id].(position := n as real)] == t';
  }

  lemma ThreeCreated(rnd: real -> real, w: Id, rest: seq<Op>)
    requires Nearest(rnd)
    ensures RoundedRun(rnd, map[], [CreateRoot(w, 1)] + ([CreateRoot(w, 2)] + ([CreateRoot(w, 3)] + rest))) ==
            RoundedRun(rnd, Three(w, 2, 3, 2000.0, 3000.0), rest)
  {
    var one := map[1 := RootAt(1, w, 1000.0)];
    var two := one[2 := RootAt(2, w, 2000.0)];
    var three := two[3 := RootAt(3, w, 3000.0)];
    NextOfFew(w);
    assert two == map[1 := RootAt(1, w, 1000.0), 2 := RootAt(2, w, 2000.0)];
    RootCreated(rnd, map[], w, 1, 1000);
    RootCreated(rnd, one, w, 2, 2000);
    RootCreated(rnd, two, w, 3, 3000);
    First(rnd, map[], CreateRoot(w, 1), [CreateRoot(w, 2)] + ([CreateRoot(w, 3)] + rest), one);
    First(rnd, one, CreateRoot(w, 2), [CreateRoot(w, 3)] + rest, two);
    First(rnd, two, CreateRoot(w, 3), rest, three);
    assert three == Three(w, 2, 3, 2000.0, 3000.0);
  }

  lemma {:induction false} RootMovesAdmissible(t: Table, ops: seq<Op>)
    requires Keyed(t) && RootMoves(ops)
    ensures RunAdmissible(t, ops)
    decreases |ops|
  {
    if ops != [] { RootMovesAdmissible(Step(t, ops[0]), ops[1..]); }
  }

  /**
   * In double precision, distinct positions do not last: with any rounding to
   * nearest some run of three creates and moves of roots ends with two siblings
   * at one position, although over the reals the same run keeps them distinct.
   */
  lemma TieReached(rnd: real -> real, w: Id) returns (ops: seq<Op>)
    requires Nearest(rnd)
    ensures RunAdmissible(map[], ops) && DistinctSiblings(Run(map[], ops))
    ensures !DistinctSiblings(RoundedRun(rnd, map[], ops))
  {
    WholeNumber(1000);
    WholeNumber(2000);
    var moves := TieFrom(rnd, w, 2, 3, 2000.0, 3000.0, 2000 * FRACTION);
    ThreeCreated(rnd, w, moves);
    ops := [CreateRoot(w, 1)] + ([CreateRoot(w, 2)] + ([CreateRoot(w, 3)] + moves));
    CreatesAdmissible(w, moves);
    RunKeeps(map[], ops);
  }

  lemma AdmissibleFirst(t: Table, op: Op, rest: seq<Op>)
    requires Keyed(t) && Admissible(t, op) && RunAdmissible(Step(t, op), rest)
    ensures RunAdmissible(t, [op] + rest)
  {
    assert ([op] + rest)[1..] == rest;
  }

  lemma CreatesAdmissible(w: Id, moves: seq<Op>)
    requires RootMoves(moves)
    ensures RunAdmissible(map[], [CreateRoot(w, 1)] + ([CreateRoot(w, 2)] + ([CreateRoot(w, 3)] + moves)))
  {
    var t1 := Step(map[], CreateRoot(w, 1));
    var t2 := Step(t1, CreateRoot(w, 2));
    var t3 := Step(t2, CreateRoot(w, 3));
    RootMovesAdmissible(t3, moves);
    AdmissibleFirst(t2, CreateRoot(w, 3), moves);
    AdmissibleFirst(t1, CreateRoot(w, 2), [CreateRoot(w, 3)] + moves);
    AdmissibleFirst(map[], CreateRoot(w, 1), [CreateRoot(w, 2)] + ([CreateRoot(w, 3)] + moves));
  }
}
