// The parent relation: every chain of parents ends, and what each transaction does to it.
module DocumentForest {
  import opened Prelude
  import opened DocumentTable

  /** The chain of parents from `x` reaches the root. */
  ghost predicate Ends(t: Table, x: Id) {
    exists n: nat :: Up(t, Some(x), n) == None
  }

  /** The parent relation is well-founded. */
  ghost predicate Forest(t: Table) {
    forall x :: x in t ==> Ends(t, x)
  }

  /** Every parent exists and lies in its child's workspace. */
  ghost predicate EdgesInside(t: Table) {
    forall x :: x in t && t[x].parent.Some? ==> Scoped(t, t[x].workspace, t[x].parent.value)
  }

  // ----- facts about walking up -----

  lemma {:induction false} UpNone(t: Table, n: nat)
    ensures Up(t, None, n) == None
  {
    if n > 0 { UpNone(t, n - 1); }
  }

  lemma {:induction false} UpAdd(t: Table, x: Option<Id>, m: nat, n: nat)
    ensures Up(t, x, m + n) == Up(t, Up(t, x, m), n)
    decreases m
  {
    if m > 0 { UpAdd(t, ParentOf(t, x), m - 1, n); }
  }

  lemma UpStep(t: Table, x: Option<Id>, n: nat)
    ensures Up(t, x, n + 1) == ParentOf(t, Up(t, x, n))
  {
    UpAdd(t, x, n, 1);
    assert Up(t, Up(t, x, n), 1) == Up(t, ParentOf(t, Up(t, x, n)), 0);
  }

  /** Once past the root, always past the root. */
  lemma UpStaysNone(t: Table, x: Option<Id>, m: nat, n: nat)
    requires Up(t, x, m) == None && m <= n
    ensures Up(t, x, n) == None
  {
    UpAdd(t, x, m, n - m);
    UpNone(t, n - m);
  }

  /** A node met again after `j` steps is met forever, so its chain never ends. */
  lemma {:induction false} CycleNeverEnds(t: Table, x: Id, j: nat, n: nat)
    requires j > 0 && Up(t, Some(x), j) == Some(x)
    ensures Up(t, Some(x), n) != None
    decreases n
  {
    if n < j {
      if Up(t, Some(x), n) == None { UpStaysNone(t, Some(x), n, j); }
    } else {
      UpAdd(t, Some(x), j, n - j);
      CycleNeverEnds(t, x, j, n - j);
    }
  }

  /** On a forest a node occurs at most once on a chain. */
  lemma OncePerChain(t: Table, x: Id, i: nat, j: nat)
    requires Ends(t, x) && i < j
    requires Up(t, Some(x), i).Some?
    ensures Up(t, Some(x), i) != Up(t, Some(x), j)
  {
    var n: nat :| Up(t, Some(x), n) == None;
    if Up(t, Some(x), i) == Up(t, Some(x), j) {
      var y := Up(t, Some(x), i).value;
      UpAdd(t, Some(x), i, j - i);
      UpStaysNone(t, Some(x), n, i + n);
      UpAdd(t, Some(x), i, n);
      CycleNeverEnds(t, y, j - i, n);
    }
  }

  /** A chain that has not passed the root consists of rows of the table and stays in one workspace. */
  lemma {:induction false} ChainScoped(t: Table, x: Id, n: nat)
    requires EdgesInside(t) && x in t
    requires Up(t, Some(x), n).Some?
    ensures Scoped(t, t[x].workspace, Up(t, Some(x), n).value)
  {
    if n > 0 {
      UpStep(t, Some(x), n - 1);
      ChainScoped(t, x, n - 1);
    }
  }

  lemma {:induction false} WithinMeets(t: Table, x: Option<Id>, a: Id, fuel: nat) returns (i: nat)
    requires DescendantWithin(t, x, a, fuel)
    ensures i < fuel && Up(t, x, i) == Some(a)
    decreases fuel
  {
    if x == Some(a) {
      i := 0;
    } else {
      var j := WithinMeets(t, ParentOf(t, x), a, fuel - 1);
      i := j + 1;
    }
  }

  lemma {:induction false} MeetsWithin(t: Table, x: Option<Id>, a: Id, fuel: nat, i: nat)
    requires i < fuel && Up(t, x, i) == Some(a)
    ensures DescendantWithin(t, x, a, fuel)
    decreases fuel
  {
    if x == None {
      UpNone(t, i);
    } else if i > 0 {
      MeetsWithin(t, ParentOf(t, x), a, fuel - 1, i - 1);
    }
  }

  /** The bounded walk finds `a` exactly when it is one of the first `fuel` nodes. */
  lemma DescendantWithinExact(t: Table, x: Option<Id>, a: Id, fuel: nat)
    ensures DescendantWithin(t, x, a, fuel) <==> exists i: nat :: i < fuel && Up(t, x, i) == Some(a)
  {
    if DescendantWithin(t, x, a, fuel) { var _ := WithinMeets(t, x, a, fuel); }
    if i: nat :| i < fuel && Up(t, x, i) == Some(a) { MeetsWithin(t, x, a, fuel, i); }
  }

  /** When a chain has at most `fuel` nodes, the bounded walk is exact. */
  lemma EnoughFuel(t: Table, x: Id, a: Id, fuel: nat)
    requires Up(t, Some(x), fuel) == None
    ensures DescendantWithin(t, Some(x), a, fuel) <==> Reaches(t, x, a)
  {
    DescendantWithinExact(t, Some(x), a, fuel);
    if Reaches(t, x, a) {
      var n: nat :| Up(t, Some(x), n) == Some(a);
      if n >= fuel { UpStaysNone(t, Some(x), fuel, n); }
      assert n < fuel && Up(t, Some(x), n) == Some(a);
    }
  }

  // ----- changing one parent -----

  /** A chain that does not step off `d` is not affected by changing `d`'s row. */
  lemma {:induction false} UpAvoiding(t: Table, t': Table, d: Id, x: Option<Id>, n: nat)
    requires t'.Keys == t.Keys + {d}
    requires forall y :: y in t && y != d ==> t'[y].parent == t[y].parent
    requires forall i: nat :: i < n ==> Up(t, x, i) != Some(d)
    ensures Up(t', x, n) == Up(t, x, n)
    decreases n
  {
    if n > 0 {
      var zero: nat := 0;
      assert Up(t, x, zero) == x;
      assert x != Some(d);
      match x { case None => case Some(y) => assert y != d; }
      assert ParentOf(t', x) == ParentOf(t, x);
      forall i: nat | i < n - 1 ensures Up(t, ParentOf(t, x), i) != Some(d) {
        assert Up(t, ParentOf(t, x), i) == Up(t, x, i + 1);
      }
      UpAvoiding(t, t', d, ParentOf(t, x), n - 1);
    }
  }

  lemma {:induction false} UpSameParents(t: Table, t': Table, x: Option<Id>, n: nat)
    requires t'.Keys == t.Keys
    requires forall y :: y in t ==> t'[y].parent == t[y].parent
    ensures Up(t', x, n) == Up(t, x, n)
    decreases n
  {
    if n > 0 { UpSameParents(t, t', ParentOf(t, x), n - 1); }
  }

  lemma SameParentsSameForest(t: Table, t': Table)
    requires t'.Keys == t.Keys
    requires forall y :: y in t ==> t'[y].parent == t[y].parent
    requires Forest(t)
    ensures Forest(t')
  {
    forall x | x in t' ensures Ends(t', x) {
      var n: nat :| Up(t, Some(x), n) == None;
      UpSameParents(t, t', Some(x), n);
    }
  }

  /** The first `n` at which a chain meets `d`. */
  lemma {:induction false} FirstMeeting(t: Table, x: Option<Id>, d: Id, n: nat) returns (k: nat)
    requires Up(t, x, n) == Some(d)
    ensures k <= n && Up(t, x, k) == Some(d)
    ensures forall i: nat :: i < k ==> Up(t, x, i) != Some(d)
    decreases n
  {
    if i: nat :| i < n && Up(t, x, i) == Some(d) {
      k := FirstMeeting(t, x, d, i);
    } else {
      k := n;
    }
  }

  /**
   * Hanging `d` (a new row or an old one) under `newParent` leaves a forest
   * exactly when `d` is not `newParent` or one of its ancestors.
   */
  lemma RehangForest(t: Table, t': Table, d: Id, newParent: Option<Id>)
    requires Forest(t) && EdgesInside(t)
    requires t'.Keys == t.Keys + {d} && t'[d].parent == newParent
    requires forall y :: y in t && y != d ==> t'[y].parent == t[y].parent
    requires newParent.Some? ==> newParent.value in t
    ensures Forest(t') <==> (newParent.None? || !Reaches(t, newParent.value, d))
  {
    if newParent.Some? && Reaches(t, newParent.value, d) {
      var n: nat :| Up(t, newParent, n) == Some(d);
      var k := FirstMeeting(t, newParent, d, n);
      UpAvoiding(t, t', d, newParent, k);
      assert Up(t', Some(d), k + 1) == Some(d);
      forall m: nat ensures Up(t', Some(d), m) != None { CycleNeverEnds(t', d, k + 1, m); }
      assert !Ends(t', d);
    } else {
      RehungEnds(t, t', d, newParent);
      forall x | x in t' ensures Ends(t', x) {
        var m: nat :| Up(t', Some(d), m) == None;
        if x != d {
          var n: nat :| Up(t, Some(x), n) == None;
          if i: nat :| i < n && Up(t, Some(x), i) == Some(d) {
            var k := FirstMeeting(t, Some(x), d, i);
            UpAvoiding(t, t', d, Some(x), k);
            UpAdd(t', Some(x), k, m);
            assert Up(t', Some(x), k + m) == None;
          } else {
            UpAvoiding(t, t', d, Some(x), n);
          }
        }
      }
    }
  }

  lemma RehungEnds(t: Table, t': Table, d: Id, newParent: Option<Id>)
    requires Forest(t)
    requires t'.Keys == t.Keys + {d} && t'[d].parent == newParent
    requires forall y :: y in t && y != d ==> t'[y].parent == t[y].parent
    requires newParent.Some? ==> newParent.value in t && !Reaches(t, newParent.value, d)
    ensures Ends(t', d)
  {
    if newParent.None? {
      assert Up(t', Some(d), 1) == Up(t', None, 0) == None;
    } else {
      var n: nat :| Up(t, newParent, n) == None;
      UpAvoiding(t, t', d, newParent, n);
      assert Up(t', Some(d), n + 1) == None;
    }
  }
}
