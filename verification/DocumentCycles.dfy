// What a lost forest costs: the breadth-first collection behind archive and
// restore ends only outside cycles.
module DocumentCycles {
  import opened Prelude
  import opened DocumentTable
  import opened DocumentForest
  import opened DocumentInvariant
  import opened DocumentList
  import opened DocumentsService
  import opened DocumentRuns

  /** The ids the collection holds after `k` rounds: each round queries the children of the last, in one workspace. */
  function Frontier(t: Table, w: Id, root: Id, k: nat): set<Id> {
    if k == 0 then {root}
    else
      set x | x in t && t[x].workspace == w && t[x].parent.Some? && t[x].parent.value in Frontier(t, w, root, k - 1)
  }

  /** As long as no edge leaves its workspace, a round is a level, on a forest or not. */
  lemma {:induction false} FrontierIsLevel(t: Table, w: Id, root: Id, k: nat)
    requires EdgesInside(t) && Scoped(t, w, root)
    ensures Frontier(t, w, root, k) == Level(t, root, k)
  {
    if k == 0 {
      var zero: nat := 0;
      forall x: Id ensures Up(t, Some(x), zero) == Some(x) {}
      assert forall x :: x in Level(t, root, zero) <==> x == root;
    } else {
      FrontierIsLevel(t, w, root, k - 1);
      forall x ensures x in Frontier(t, w, root, k) <==> x in Level(t, root, k) { NextLevel(t, w, root, k - 1, x); }
    }
  }

  /** Following parents leads back to the document. */
  ghost predicate OnCycle(t: Table, x: Id) {
    exists m: nat :: m > 0 && Up(t, Some(x), m) == Some(x)
  }

  lemma {:induction false} RoundAgain(t: Table, x: Id, m: nat, j: nat)
    requires Up(t, Some(x), m) == Some(x)
    ensures Up(t, Some(x), m * j) == Some(x)
    decreases j
  {
    if j > 0 {
      RoundAgain(t, x, m, j - 1);
      assert m * j == m * (j - 1) + m;
      UpAdd(t, Some(x), m * (j - 1), m);
    }
  }

  /** A chain that leads to a row starts at a row. */
  lemma StartsInside(t: Table, y: Option<Id>, k: nat, root: Id)
    requires root in t && Up(t, y, k) == Some(root)
    ensures y.Some? && y.value in t
  {
    if k > 0 && !(y.Some? && y.value in t) {
      assert Up(t, y, k) == Up(t, None, k - 1);
      UpNone(t, k - 1);
    }
  }

  lemma AtLeast(m: nat, k: nat)
    requires m > 0
    ensures m * k >= k
  {
  }

  /** Going round a cycle often enough, some document stands any number of levels below. */
  lemma CycleHasLevels(t: Table, root: Id, m: nat, k: nat)
    requires root in t && m > 0 && Up(t, Some(root), m) == Some(root)
    ensures !Bare(t, root, k)
  {
    RoundAgain(t, root, m, k);
    AtLeast(m, k);
    var above: nat := m * k - k;
    UpAdd(t, Some(root), above, k);
    assert above + k == m * k;
    var y := Up(t, Some(root), above);
    StartsInside(t, y, k, root);
    NotBare(t, root, k, y.value);
  }

  lemma NotBare(t: Table, root: Id, k: nat, x: Id)
    requires x in t && Up(t, Some(x), k) == Some(root)
    ensures !Bare(t, root, k)
  {
  }

  /** A chain with more nodes than there are rows repeats one, and then its end lies on a cycle. */
  lemma LongChainCycles(t: Table, x: Id, root: Id)
    requires x in t && root in t && Up(t, Some(x), |t|) == Some(root)
    ensures OnCycle(t, root)
  {
    var n := |t|;
    var nodes := seq(n + 1, i requires 0 <= i <= n => if i == n then root else NodeAt(t, x, n, i));
    forall i | 0 <= i <= n ensures nodes[i] in t.Keys && Up(t, Some(x), i) == Some(nodes[i]) {
      if i < n { NodeAtIn(t, x, n, i); }
    }
    if NoDuplicates(nodes) {
      Pigeonhole(nodes, t.Keys);
      assert false;
    }
    var i, j :| 0 <= i < j <= n && nodes[i] == nodes[j];
    UpAdd(t, Some(x), n, j - i);
    UpAdd(t, Some(x), j, n - i);
    UpAdd(t, Some(x), i, n - i);
    assert n + (j - i) == j + (n - i);
    var m: nat := j - i;
    assert Up(t, Some(root), m) == Some(root);
  }

  lemma LevelsEndExactly(t: Table, root: Id)
    requires root in t
    ensures (exists k: nat :: Bare(t, root, k)) <==> !OnCycle(t, root)
  {
    if OnCycle(t, root) {
      var m: nat :| m > 0 && Up(t, Some(root), m) == Some(root);
      forall k: nat ensures !Bare(t, root, k) { CycleHasLevels(t, root, m, k); }
    } else {
      forall x | x in t ensures Up(t, Some(x), |t|) != Some(root) {
        if Up(t, Some(x), |t|) == Some(root) { LongChainCycles(t, x, root); }
      }
      var n: nat := |t|;
      assert Bare(t, root, n);
    }
  }

  lemma EmptyIsBare(t: Table, w: Id, root: Id, k: nat)
    requires EdgesInside(t) && Scoped(t, w, root)
    ensures Frontier(t, w, root, k) == {} <==> Bare(t, root, k)
  {
    FrontierIsLevel(t, w, root, k);
    assert forall x :: x in Level(t, root, k) <==> x in t && Up(t, Some(x), k) == Some(root);
    if Bare(t, root, k) {
      assert forall x :: x !in Level(t, root, k);
    } else {
      var x :| x in t && Up(t, Some(x), k) == Some(root);
      assert x in Level(t, root, k);
    }
  }

  /** The frontier becomes empty some day, and the loop ends, if and only if the root is not below itself. */
  lemma CollectionEndsExactly(t: Table, w: Id, root: Id)
    requires EdgesInside(t) && Scoped(t, w, root)
    ensures (exists k: nat :: Frontier(t, w, root, k) == {}) <==> !OnCycle(t, root)
  {
    LevelsEndExactly(t, root);
    if k: nat :| Frontier(t, w, root, k) == {} { EmptyIsBare(t, w, root, k); }
    if k: nat :| Bare(t, root, k) { EmptyIsBare(t, w, root, k); }
  }

  /** After the run that loses the forest, archiving the moved document never ends: no frontier is empty. */
  lemma ArchiveNeverEnds(w: Id)
    ensures Scoped(Run(map[], LosingOps(w)), w, 0)
    ensures forall k: nat :: Frontier(Run(map[], LosingOps(w)), w, 0, k) != {}
  {
    ForestLost(w);
    var t := Run(map[], LosingOps(w));
    var m: nat := 1001;
    assert Up(t, Some(0), m) == Some(0);
    CollectionEndsExactly(t, w, 0);
  }
}
