// How fine the sibling positions get, and why the double-precision
// arithmetic of `computePosition` is exact until then.
module DocumentPrecision {
  import opened Prelude
  import opened DocumentTable

  function Pow2(k: nat): (r: nat)
    ensures r >= 1
  {
    if k == 0 then 1 else 2 * Pow2(k - 1)
  }

  const TWO_TO_THE_53: int := 0x20_0000_0000_0000

  /** `x` is a multiple of 1000 / 2^k. */
  ghost predicate OnGrid(x: real, k: nat) {
    exists m: int :: GridPoint(x, k, m)
  }

  ghost predicate GridPoint(x: real, k: nat, m: int) {
    x * Pow2(k) as real == 1000.0 * m as real
  }

  /**
   * `x` is m * 2^b / 2^a with a significand of at most 53 bits and an
   * exponent in range: such a value is a binary64 number (IEEE 754-2019, section 3.3).
   */
  ghost predicate Binary64(x: real) {
    exists m: int, a: nat, b: nat :: Binary64Form(x, m, a, b)
  }

  ghost predicate Binary64Form(x: real, m: int, a: nat, b: nat) {
    && -TWO_TO_THE_53 <= m <= TWO_TO_THE_53
    && a <= 1000 && b <= 900
    && x * Pow2(a) as real == m as real * Pow2(b) as real
  }

  /** Rounding leaves representable values alone; nothing else is asked of it. */
  ghost predicate Rounding(rnd: real -> real) {
    forall x :: Binary64(x) ==> rnd(x) == x
  }

  // ----- the grid -----

  lemma GridRefines(x: real, k: nat)
    requires OnGrid(x, k)
    ensures OnGrid(x, k + 1)
  {
    var m: int :| GridPoint(x, k, m);
    assert x * Pow2(k + 1) as real == 2.0 * (x * Pow2(k) as real);
    assert GridPoint(x, k + 1, 2 * m);
  }

  lemma GridShift(x: real, k: nat, steps: int)
    requires OnGrid(x, k)
    ensures OnGrid(x + 1000.0 * steps as real, k)
  {
    var m: int :| GridPoint(x, k, m);
    var p := Pow2(k);
    assert (x + 1000.0 * steps as real) * p as real == x * p as real + 1000.0 * (steps * p) as real;
    assert GridPoint(x + 1000.0 * steps as real, k, m + steps * p);
  }

  lemma GridMidpoint(x: real, y: real, k: nat)
    requires OnGrid(x, k) && OnGrid(y, k)
    ensures OnGrid((x + y) / 2.0, k + 1)
  {
    var m: int :| GridPoint(x, k, m);
    var n: int :| GridPoint(y, k, n);
    assert (x + y) / 2.0 * Pow2(k + 1) as real == x * Pow2(k) as real + y * Pow2(k) as real;
    assert GridPoint((x + y) / 2.0, k + 1, m + n);
  }

  /** `y` lies at least 1000 / 2^k above `x`. */
  ghost predicate Apart(x: real, y: real, k: nat) {
    (y - x) * Pow2(k) as real >= 1000.0
  }

  /** Two different grid points are at least one grid step apart. */
  lemma GridGap(x: real, y: real, k: nat)
    requires OnGrid(x, k) && OnGrid(y, k) && x < y
    ensures Apart(x, y, k)
  {
    var m: int :| GridPoint(x, k, m);
    var n: int :| GridPoint(y, k, n);
    var p := Pow2(k) as real;
    Distribute(y, -x, p);
    assert (y - x) * p == 1000.0 * (n - m) as real;
    ProductPositive(y - x, p);
    assert n - m >= 1;
  }

  lemma Distribute(x: real, y: real, p: real)
    ensures (x + y) * p == x * p + y * p
  {
  }

  lemma ProductPositive(x: real, p: real)
    requires x > 0.0 && p > 0.0
    ensures x * p > 0.0
  {
  }

  // ----- exactness -----

  /** Positions are on the grid, at most 1000 n in size, and the grid is coarse enough for 53 bits. */
  ghost predicate Room(k: nat, n: nat) {
    n >= 1 && 250 * n * Pow2(k) <= TWO_TO_THE_53
  }

  lemma {:induction false} Pow2Grows(j: nat, k: nat)
    requires j <= k
    ensures Pow2(j) <= Pow2(k)
  {
    if j < k { Pow2Grows(j, k - 1); }
  }

  lemma {:induction false} Pow2Adds(j: nat, k: nat)
    ensures Pow2(j + k) == Pow2(j) * Pow2(k)
  {
    if j > 0 { Pow2Adds(j - 1, k); }
  }

  lemma Pow2Sixty()
    ensures Pow2(60) > TWO_TO_THE_53
  {
    Pow2Adds(5, 5);
    assert Pow2(5) == 32;
    Pow2Adds(10, 10);
    Pow2Adds(20, 20);
    Pow2Adds(40, 20);
  }

  lemma RoomBoundsGrid(k: nat, n: nat)
    requires Room(k, n)
    ensures k < 60
  {
    var p := Pow2(k);
    assert p <= 250 * n * p;
    if k >= 60 {
      Pow2Grows(60, k);
      Pow2Sixty();
    }
  }

  lemma ScaledBound(x: real, c: real, p: real)
    requires -c <= x <= c && p > 0.0
    ensures -(c * p) <= x * p <= c * p
  {
  }

  /** The numerator of a grid point of at most twice the allowed size fits in 53 bits. */
  lemma NumeratorFits(x: real, k: nat, n: nat, m: int)
    requires GridPoint(x, k, m) && Room(k, n)
    requires -2000.0 * n as real <= x <= 2000.0 * n as real
    ensures -TWO_TO_THE_53 <= 125 * m <= TWO_TO_THE_53
  {
    var p := Pow2(k) as real;
    var np := n * Pow2(k);
    ScaledBound(x, 2000.0 * n as real, p);
    Reassociate(n, Pow2(k));
    assert 1000.0 * m as real <= 1000.0 * (2 * np) as real;
    assert 1000.0 * (-2 * np) as real <= 1000.0 * m as real;
    assert -2 * np <= m <= 2 * np;
    assert 250 * n * Pow2(k) == 250 * np;
  }

  lemma Reassociate(n: nat, p: nat)
    ensures 2000.0 * n as real * p as real == 1000.0 * (2 * (n * p)) as real
  {
    assert n as real * p as real == (n * p) as real;
  }

  /** A grid point of at most twice the allowed size is a double, and so is its half. */
  lemma GridPointIsDouble(x: real, k: nat, n: nat)
    requires OnGrid(x, k) && Room(k, n)
    requires -2000.0 * n as real <= x <= 2000.0 * n as real
    ensures Binary64(x) && Binary64(x / 2.0)
  {
    RoomBoundsGrid(k, n);
    var m: int :| GridPoint(x, k, m);
    NumeratorFits(x, k, n, m);
    assert Pow2(3) == 8;
    assert (125 * m) as real * 8.0 == 1000.0 * m as real;
    assert Binary64Form(x, 125 * m, k, 3);
    assert x / 2.0 * Pow2(k + 1) as real == x * Pow2(k) as real;
    assert Binary64Form(x / 2.0, 125 * m, k + 1, 3);
  }

  ghost predicate SmallOnGrid(x: real, k: nat, n: nat) {
    OnGrid(x, k) && -1000.0 * n as real <= x <= 1000.0 * n as real
  }

  lemma {:induction false} GridSum(x: real, y: real, k: nat)
    requires OnGrid(x, k) && OnGrid(y, k)
    ensures OnGrid(x + y, k)
  {
    var m: int :| GridPoint(x, k, m);
    var n: int :| GridPoint(y, k, n);
    assert (x + y) * Pow2(k) as real == x * Pow2(k) as real + y * Pow2(k) as real;
    assert GridPoint(x + y, k, m + n);
  }

  lemma MidpointExact(rnd: real -> real, x: real, y: real, k: nat, n: nat)
    requires Rounding(rnd) && Room(k, n) && SmallOnGrid(x, k, n) && SmallOnGrid(y, k, n)
    ensures rnd(rnd(x + y) / 2.0) == (x + y) / 2.0
  {
    GridSum(x, y, k);
    GridPointIsDouble(x + y, k, n);
  }

  lemma StepExact(rnd: real -> real, x: real, k: nat, n: nat)
    requires Rounding(rnd) && Room(k, n) && SmallOnGrid(x, k, n)
    ensures rnd(x + POSITION_STEP) == x + POSITION_STEP
    ensures rnd(x - POSITION_STEP) == x - POSITION_STEP
  {
    GridShift(x, k, 1);
    GridShift(x, k, -1);
    GridPointIsDouble(x + POSITION_STEP, k, n);
    GridPointIsDouble(x - POSITION_STEP, k, n);
  }

  /** `computePosition` as the server evaluates it: every operation rounds to a double. */
  ghost function RoundedBeside(rnd: real -> real, s: seq<Doc>, i: nat, placement: Option<Placement>): real
    requires i < |s|
  {
    if placement == Some(Before) then
      if i > 0 then rnd(rnd(s[i - 1].position + s[i].position) / 2.0) else rnd(s[i].position - POSITION_STEP)
    else
      if i + 1 < |s| then rnd(rnd(s[i].position + s[i + 1].position) / 2.0) else rnd(s[i].position + POSITION_STEP)
  }

  ghost function RoundedNext(rnd: real -> real, s: seq<Doc>): real {
    rnd((if s == [] then 0.0 else s[|s| - 1].position) + POSITION_STEP)
  }

  /** While there is room, the double computation and the real one agree. */
  lemma DoublesAreExact(rnd: real -> real, s: seq<Doc>, k: nat, n: nat)
    requires Rounding(rnd) && Room(k, n)
    requires forall d :: d in s ==> SmallOnGrid(d.position, k, n)
    ensures forall i, placement :: 0 <= i < |s| ==>
              RoundedBeside(rnd, s, i, placement) == PositionBeside(s, i, placement)
    ensures RoundedNext(rnd, s) == (if s == [] then 0.0 else s[|s| - 1].position) + POSITION_STEP
  {
    assert forall i :: 0 <= i < |s| ==> s[i] in s;
    forall i, placement | 0 <= i < |s|
      ensures RoundedBeside(rnd, s, i, placement) == PositionBeside(s, i, placement)
    {
      StepExact(rnd, s[i].position, k, n);
      if i > 0 { MidpointExact(rnd, s[i - 1].position, s[i].position, k, n); }
      if i + 1 < |s| { MidpointExact(rnd, s[i].position, s[i + 1].position, k, n); }
    }
    if s == [] {
      assert GridPoint(0.0, k, 0);
      StepExact(rnd, 0.0, k, n);
    } else {
      StepExact(rnd, s[|s| - 1].position, k, n);
    }
  }
}
