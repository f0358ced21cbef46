// `buildDocumentTree`: the nested tree the sidebar renders from the flat list.
module DocumentTree {
  import opened Prelude
  import opened DocumentTable
  import opened DocumentForest
  import opened DocumentInvariant
  import opened DocumentList
  import opened DragMove

  datatype Tree = Node(doc: Doc, children: seq<Tree>)

  /** The children of `p` in display order. */
  function Kids(docs: seq<Doc>, p: Option<Id>): seq<Doc> {
    SortByPosition(ChildList(docs, p))
  }

  function IdSet(docs: seq<Doc>): set<Id> {
    set d | d in docs :: d.id
  }

  /**
   * `seen` is the path from the root down to `p`: it holds the parent of each
   * of its members, and no child of `p`. That is why the recursion ends, even
   * when other parts of the list are cyclic.
   */
  ghost predicate OnPath(docs: seq<Doc>, p: Option<Id>, seen: set<Id>) {
    && seen <= IdSet(docs)
    && (p.Some? ==> p.value in seen)
    && (forall d :: d in docs && d.id in seen ==> d.parent.None? || d.parent.value in seen)
    && (forall d :: d in docs && d.parent == p ==> d.id !in seen)
  }

  lemma PathGrows(docs: seq<Doc>, p: Option<Id>, seen: set<Id>, kid: Doc)
    requires DistinctIds(docs) && OnPath(docs, p, seen)
    requires kid in docs && kid.parent == p
    ensures OnPath(docs, Some(kid.id), seen + {kid.id})
    ensures IdSet(docs) - (seen + {kid.id}) < IdSet(docs) - seen
  {
    assert kid.id in IdSet(docs) - seen;
    forall d | d in docs && d.id == kid.id ensures d == kid { UniqueInList(docs, d, kid); }
    forall d | d in docs && d.parent == Some(kid.id) ensures d.id !in seen + {kid.id} {
    }
  }

  /** The subtrees below `p`. */
  function Attach(docs: seq<Doc>, p: Option<Id>, ghost seen: set<Id>): seq<Tree>
    requires DistinctIds(docs) && OnPath(docs, p, seen)
    decreases IdSet(docs) - seen, 1, 0
  {
    AttachAll(docs, p, Kids(docs, p), seen)
  }

  ghost predicate KidsOf(docs: seq<Doc>, p: Option<Id>, kids: seq<Doc>) {
    forall d :: d in kids ==> d in docs && d.parent == p
  }

  function AttachAll(docs: seq<Doc>, p: Option<Id>, kids: seq<Doc>, ghost seen: set<Id>): (r: seq<Tree>)
    requires DistinctIds(docs) && OnPath(docs, p, seen)
    requires KidsOf(docs, p, kids)
    ensures |r| == |kids|
    decreases IdSet(docs) - seen, 0, |kids|
  {
    if kids == [] then []
    else
      PathGrows(docs, p, seen, kids[0]);
      [Node(kids[0], Attach(docs, Some(kids[0].id), seen + {kids[0].id}))] + AttachAll(docs, p, kids[1..], seen)
  }

  function BuildTree(docs: seq<Doc>): seq<Tree>
    requires DistinctIds(docs)
  {
    Attach(docs, None, {})
  }

  // ----- what the tree contains -----

  /** All documents of some trees, parents before children. */
  function Flatten(ts: seq<Tree>): seq<Doc> {
    if ts == [] then [] else [ts[0].doc] + Flatten(ts[0].children) + Flatten(ts[1..])
  }

  lemma FlattenMember(docs: seq<Doc>, p: Option<Id>, kids: seq<Doc>, seen: set<Id>, d: Doc)
    requires DistinctIds(docs) && OnPath(docs, p, seen) && kids != []
    requires KidsOf(docs, p, kids)
    ensures OnPath(docs, Some(kids[0].id), seen + {kids[0].id})
    ensures d in Flatten(AttachAll(docs, p, kids, seen)) <==>
            || d == kids[0]
            || d in Flatten(Attach(docs, Some(kids[0].id), seen + {kids[0].id}))
            || d in Flatten(AttachAll(docs, p, kids[1..], seen))
  {
    PathGrows(docs, p, seen, kids[0]);
    var ts := AttachAll(docs, p, kids, seen);
    assert ts[1..] == AttachAll(docs, p, kids[1..], seen);
  }

  /** Every document of the tree is one of the listed children or lies below one. */
  lemma {:induction false} Below(docs: seq<Doc>, p: Option<Id>, kids: seq<Doc>, seen: set<Id>, d: Doc) returns (kid: Doc)
    requires DistinctIds(docs) && OnPath(docs, p, seen)
    requires KidsOf(docs, p, kids)
    requires d in Flatten(AttachAll(docs, p, kids, seen))
    ensures d in docs && kid in kids && Reaches(ById(docs), d.id, kid.id)
    decreases IdSet(docs) - seen, |kids|
  {
    FlattenMember(docs, p, kids, seen, d);
    PathGrows(docs, p, seen, kids[0]);
    var deeper := Some(kids[0].id);
    if d == kids[0] {
      kid := d;
      ReachesSelf(ById(docs), d.id);
    } else if d in Flatten(Attach(docs, deeper, seen + {kids[0].id})) {
      var mid := Below(docs, deeper, Kids(docs, deeper), seen + {kids[0].id}, d);
      kid := kids[0];
      StepUp(docs, d.id, mid);
    } else {
      kid := Below(docs, p, kids[1..], seen, d);
    }
  }

  /** Below a child is below its parent. */
  lemma StepUp(docs: seq<Doc>, x: Id, mid: Doc)
    requires DistinctIds(docs) && mid in docs && mid.parent.Some? && Reaches(ById(docs), x, mid.id)
    ensures exists n: nat :: n > 0 && Up(ById(docs), Some(x), n) == mid.parent
    ensures Reaches(ById(docs), x, mid.parent.value)
  {
    var n: nat :| Up(ById(docs), Some(x), n) == Some(mid.id);
    ByIdExact(docs, mid);
    UpStep(ById(docs), Some(x), n);
    assert Up(ById(docs), Some(x), n + 1) == mid.parent;
  }

  ghost predicate OnScreen(docs: seq<Doc>, p: Option<Id>) {
    p.None? || Displayed(docs, p.value)
  }

  lemma ChildOnScreen(docs: seq<Doc>, d: Doc)
    requires DistinctIds(docs) && d in docs
    ensures OnScreen(docs, d.parent) <==> Displayed(docs, d.id)
  {
    var m := ById(docs);
    ByIdExact(docs, d);
    if OnScreen(docs, d.parent) {
      var n: nat :| d.parent.None? || DisplayedWithin(m, d.parent, n);
      assert DisplayedWithin(m, Some(d.id), n + 1);
    }
    if Displayed(docs, d.id) {
      var n: nat :| DisplayedWithin(m, Some(d.id), n);
      assert DisplayedWithin(m, d.parent, n - 1);
      if d.parent.Some? { assert Displayed(docs, d.parent.value); }
    }
  }

  lemma {:induction false} TreeIsOnScreen(docs: seq<Doc>, p: Option<Id>, kids: seq<Doc>, seen: set<Id>, d: Doc)
    requires DistinctIds(docs) && OnPath(docs, p, seen) && OnScreen(docs, p)
    requires KidsOf(docs, p, kids)
    requires d in Flatten(AttachAll(docs, p, kids, seen))
    ensures d in docs && Displayed(docs, d.id)
    decreases IdSet(docs) - seen, |kids|
  {
    FlattenMember(docs, p, kids, seen, d);
    PathGrows(docs, p, seen, kids[0]);
    ChildOnScreen(docs, kids[0]);
    var deeper := Some(kids[0].id);
    if d == kids[0] {
    } else if d in Flatten(Attach(docs, deeper, seen + {kids[0].id})) {
      TreeIsOnScreen(docs, deeper, Kids(docs, deeper), seen + {kids[0].id}, d);
    } else {
      TreeIsOnScreen(docs, p, kids[1..], seen, d);
    }
  }

  /** A child of a document in the tree is in the tree. */
  lemma {:induction false} ChildIncluded(docs: seq<Doc>, p: Option<Id>, kids: seq<Doc>, seen: set<Id>, d: Doc, c: Doc)
    requires DistinctIds(docs) && OnPath(docs, p, seen)
    requires KidsOf(docs, p, kids)
    requires d in Flatten(AttachAll(docs, p, kids, seen))
    requires c in docs && c.parent == Some(d.id)
    ensures c in Flatten(AttachAll(docs, p, kids, seen))
    decreases IdSet(docs) - seen, |kids|
  {
    FlattenMember(docs, p, kids, seen, d);
    FlattenMember(docs, p, kids, seen, c);
    PathGrows(docs, p, seen, kids[0]);
    var deeper := Some(kids[0].id);
    var seen' := seen + {kids[0].id};
    if d == kids[0] {
      assert c in Kids(docs, deeper);
      KidsIncluded(docs, deeper, Kids(docs, deeper), seen', c);
    } else if d in Flatten(Attach(docs, deeper, seen')) {
      ChildIncluded(docs, deeper, Kids(docs, deeper), seen', d, c);
    } else {
      ChildIncluded(docs, p, kids[1..], seen, d, c);
    }
  }

  lemma {:induction false} KidsIncluded(docs: seq<Doc>, p: Option<Id>, kids: seq<Doc>, seen: set<Id>, c: Doc)
    requires DistinctIds(docs) && OnPath(docs, p, seen)
    requires KidsOf(docs, p, kids)
    requires c in kids
    ensures c in Flatten(AttachAll(docs, p, kids, seen))
    decreases |kids|
  {
    FlattenMember(docs, p, kids, seen, c);
    if c != kids[0] { KidsIncluded(docs, p, kids[1..], seen, c); }
  }

  lemma {:induction false} ScreenIncluded(docs: seq<Doc>, d: Doc, n: nat)
    requires DistinctIds(docs) && d in docs && DisplayedWithin(ById(docs), Some(d.id), n)
    ensures d in Flatten(BuildTree(docs))
    decreases n
  {
    ByIdExact(docs, d);
    if d.parent.None? {
      KidsIncluded(docs, None, Kids(docs, None), {}, d);
    } else {
      var e := ById(docs)[d.parent.value];
      assert DisplayedWithin(ById(docs), Some(e.id), n - 1);
      ScreenIncluded(docs, e, n - 1);
      ChildIncluded(docs, None, Kids(docs, None), {}, e, d);
    }
  }

  /** The tree contains exactly the documents whose chain of parents reaches the root within the list. */
  lemma TreeContents(docs: seq<Doc>, d: Doc)
    requires DistinctIds(docs)
    ensures d in Flatten(BuildTree(docs)) <==> d in docs && Displayed(docs, d.id)
  {
    if d in Flatten(BuildTree(docs)) {
      TreeIsOnScreen(docs, None, Kids(docs, None), {}, d);
    }
    if d in docs && Displayed(docs, d.id) {
      var n: nat :| DisplayedWithin(ById(docs), Some(d.id), n);
      ScreenIncluded(docs, d, n);
    }
  }

  // ----- each document once -----

  lemma {:induction false} DisplayedEndsBy(m: Table, x: Option<Id>, n: nat)
    requires DisplayedWithin(m, x, n)
    ensures Up(m, x, n) == None
    decreases n
  {
    if x.None? { UpNone(m, n); } else { DisplayedEndsBy(m, m[x.value].parent, n - 1); }
  }

  lemma DisplayedEnds(docs: seq<Doc>, x: Id)
    requires Displayed(docs, x)
    ensures Ends(ById(docs), x)
  {
    var n: nat :| DisplayedWithin(ById(docs), Some(x), n);
    DisplayedEndsBy(ById(docs), Some(x), n);
  }

  /** Two siblings cannot be met at different heights of a chain that ends. */
  lemma SameHeight(m: Table, x: Id, i: nat, j: nat, a: Id, b: Id)
    requires Ends(m, x) && a in m && b in m && m[a].parent == m[b].parent
    requires Up(m, Some(x), i) == Some(a) && Up(m, Some(x), j) == Some(b)
    ensures i >= j
  {
    UpStep(m, Some(x), i);
    UpStep(m, Some(x), j);
    if i < j {
      if m[a].parent.None? { UpStaysNone(m, Some(x), i + 1, j); } else { OncePerChain(m, x, i + 1, j + 1); }
    }
  }

  lemma OneSiblingInMap(m: Table, x: Id, a: Id, b: Id)
    requires Ends(m, x) && a in m && b in m && m[a].parent == m[b].parent
    requires Reaches(m, x, a) && Reaches(m, x, b)
    ensures a == b
  {
    var i: nat :| Up(m, Some(x), i) == Some(a);
    var j: nat :| Up(m, Some(x), j) == Some(b);
    SameHeight(m, x, i, j, a, b);
    SameHeight(m, x, j, i, b, a);
  }

  /** Nothing on screen lies below two different siblings. */
  lemma OneSibling(docs: seq<Doc>, x: Id, a: Doc, b: Doc)
    requires DistinctIds(docs) && Displayed(docs, x)
    requires a in docs && b in docs && a.parent == b.parent
    requires Reaches(ById(docs), x, a.id) && Reaches(ById(docs), x, b.id)
    ensures a == b
  {
    ByIdExact(docs, a);
    ByIdExact(docs, b);
    DisplayedEnds(docs, x);
    OneSiblingInMap(ById(docs), x, a.id, b.id);
  }

  lemma ReachesSelf(m: Table, x: Id)
    ensures Reaches(m, x, x)
  {
    var zero: nat := 0;
    assert Up(m, Some(x), zero) == Some(x);
  }

  lemma NotBelowItself(docs: seq<Doc>, seen: set<Id>, k: Doc)
    requires DistinctIds(docs) && k in docs && Displayed(docs, k.id) && OnPath(docs, Some(k.id), seen)
    ensures k !in Flatten(Attach(docs, Some(k.id), seen))
  {
    if k in Flatten(Attach(docs, Some(k.id), seen)) {
      var mid := Below(docs, Some(k.id), Kids(docs, Some(k.id)), seen, k);
      StepUp(docs, k.id, mid);
      var n: nat :| n > 0 && Up(ById(docs), Some(k.id), n) == Some(k.id);
      DisplayedEnds(docs, k.id);
      var zero: nat := 0;
      OncePerChain(ById(docs), k.id, zero, n);
    }
  }

  lemma {:induction false} NoRepeats(docs: seq<Doc>, p: Option<Id>, kids: seq<Doc>, seen: set<Id>)
    requires DistinctIds(docs) && OnPath(docs, p, seen) && OnScreen(docs, p)
    requires DistinctIds(kids) && KidsOf(docs, p, kids)
    ensures NoDuplicates(Flatten(AttachAll(docs, p, kids, seen)))
    decreases IdSet(docs) - seen, |kids|
  {
    if kids != [] {
      PathGrows(docs, p, seen, kids[0]);
      ChildOnScreen(docs, kids[0]);
      var deeper := Some(kids[0].id);
      var seen' := seen + {kids[0].id};
      ChildListKeepsDistinct(docs, deeper);
      SortKeepsDistinct(ChildList(docs, deeper));
      NoRepeats(docs, deeper, Kids(docs, deeper), seen');
      NoRepeats(docs, p, kids[1..], seen);
      NotBelowItself(docs, seen', kids[0]);
      var first := Flatten(Attach(docs, deeper, seen'));
      var rest := Flatten(AttachAll(docs, p, kids[1..], seen));
      forall d | d in rest ensures d != kids[0] && d !in first {
        RestIsElsewhere(docs, p, kids, seen, d);
      }
      assert AttachAll(docs, p, kids, seen)[1..] == AttachAll(docs, p, kids[1..], seen);
      JoinedWithoutDuplicates(kids[0], first, rest);
    }
  }

  lemma JoinedWithoutDuplicates(d: Doc, first: seq<Doc>, rest: seq<Doc>)
    requires NoDuplicates(first) && NoDuplicates(rest) && d !in first
    requires forall e :: e in rest ==> e != d && e !in first
    ensures NoDuplicates([d] + first + rest)
  {
    var all := [d] + first + rest;
    forall i, j | 0 <= i < j < |all| ensures all[i] != all[j] {
      if j >= 1 + |first| {
        assert all[j] == rest[j - 1 - |first|] && all[j] in rest;
        if 0 < i < 1 + |first| { assert all[i] == first[i - 1] && all[i] in first; }
      } else {
        assert all[j] == first[j - 1] && all[j] in first;
      }
    }
  }

  /** What is below a later sibling is not below the first one. */
  lemma RestIsElsewhere(docs: seq<Doc>, p: Option<Id>, kids: seq<Doc>, seen: set<Id>, d: Doc)
    requires DistinctIds(docs) && OnPath(docs, p, seen) && OnScreen(docs, p)
    requires kids != [] && DistinctIds(kids) && KidsOf(docs, p, kids)
    requires d in Flatten(AttachAll(docs, p, kids[1..], seen))
    ensures OnPath(docs, Some(kids[0].id), seen + {kids[0].id})
    ensures d != kids[0] && d !in Flatten(Attach(docs, Some(kids[0].id), seen + {kids[0].id}))
  {
    var k := kids[0];
    PathGrows(docs, p, seen, k);
    TreeIsOnScreen(docs, p, kids[1..], seen, d);
    var kid := Below(docs, p, kids[1..], seen, d);
    var i :| 1 <= i < |kids| && kids[i] == kid;
    if Reaches(ById(docs), d.id, k.id) { OneSibling(docs, d.id, k, kid); }
    ReachesSelf(ById(docs), d.id);
    if d in Flatten(Attach(docs, Some(k.id), seen + {k.id})) {
      var mid := Below(docs, Some(k.id), Kids(docs, Some(k.id)), seen + {k.id}, d);
      StepUp(docs, d.id, mid);
    }
  }

  lemma TreeOnce(docs: seq<Doc>)
    requires DistinctIds(docs)
    ensures NoDuplicates(Flatten(BuildTree(docs)))
  {
    ChildListKeepsDistinct(docs, None);
    SortKeepsDistinct(ChildList(docs, None));
    NoRepeats(docs, None, Kids(docs, None), {});
  }

  // ----- where each document stands -----

  function Docs(ts: seq<Tree>): (r: seq<Doc>)
    ensures |r| == |ts| && forall i :: 0 <= i < |r| ==> r[i] == ts[i].doc
  {
    seq(|ts|, i requires 0 <= i < |ts| => ts[i].doc)
  }

  /** At every level stand exactly the listed children of the node, once each, in position order. */
  ghost predicate Nested(docs: seq<Doc>, ts: seq<Tree>, p: Option<Id>) {
    && (forall d :: d in Docs(ts) <==> d in docs && d.parent == p)
    && DistinctIds(Docs(ts)) && Ascending(Docs(ts))
    && (forall i :: 0 <= i < |ts| ==> Nested(docs, ts[i].children, Some(ts[i].doc.id)))
  }

  ghost predicate ChildrenNested(docs: seq<Doc>, ts: seq<Tree>) {
    forall i :: 0 <= i < |ts| ==> Nested(docs, ts[i].children, Some(ts[i].doc.id))
  }

  lemma {:induction false} AttachedInOrder(docs: seq<Doc>, p: Option<Id>, kids: seq<Doc>, seen: set<Id>)
    requires DistinctIds(docs) && OnPath(docs, p, seen) && KidsOf(docs, p, kids)
    ensures Docs(AttachAll(docs, p, kids, seen)) == kids
    decreases |kids|
  {
    if kids != [] {
      ShapeSplit(docs, p, kids, seen);
      AttachedInOrder(docs, p, kids[1..], seen);
      var ts := AttachAll(docs, p, kids, seen);
      assert Docs(ts) == [ts[0].doc] + Docs(ts[1..]);
    }
  }

  lemma {:induction false} AttachedNested(docs: seq<Doc>, p: Option<Id>, kids: seq<Doc>, seen: set<Id>)
    requires DistinctIds(docs) && OnPath(docs, p, seen) && KidsOf(docs, p, kids)
    ensures ChildrenNested(docs, AttachAll(docs, p, kids, seen))
    decreases IdSet(docs) - seen, |kids|
  {
    if kids != [] {
      var deeper := Some(kids[0].id);
      PathGrows(docs, p, seen, kids[0]);
      ShapeSplit(docs, p, kids, seen);
      AttachedNested(docs, deeper, Kids(docs, deeper), seen + {kids[0].id});
      LevelNested(docs, deeper, seen + {kids[0].id});
      AttachedNested(docs, p, kids[1..], seen);
    }
  }

  lemma LevelNested(docs: seq<Doc>, p: Option<Id>, seen: set<Id>)
    requires DistinctIds(docs) && OnPath(docs, p, seen)
    requires ChildrenNested(docs, AttachAll(docs, p, Kids(docs, p), seen))
    ensures Nested(docs, Attach(docs, p, seen), p)
  {
    AttachedInOrder(docs, p, Kids(docs, p), seen);
    ChildListKeepsDistinct(docs, p);
    SortKeepsDistinct(ChildList(docs, p));
    SortAscends(ChildList(docs, p));
  }

  /** In the tree every node has exactly its listed children below it, in position order. */
  lemma TreeNested(docs: seq<Doc>)
    requires DistinctIds(docs)
    ensures Nested(docs, BuildTree(docs), None)
  {
    AttachedNested(docs, None, Kids(docs, None), {});
    LevelNested(docs, None, {});
  }

  lemma NestedStrictly(docs: seq<Doc>, ts: seq<Tree>, p: Option<Id>)
    requires DistinctPositions(docs) && Nested(docs, ts, p)
    ensures StrictlyAscending(Docs(ts))
  {
    var s := Docs(ts);
    forall i, j | 0 <= i < j < |s| ensures s[i].position < s[j].position {
      assert s[i] in s && s[j] in s;
      assert s[i].id != s[j].id;
    }
  }

  lemma {:induction false} NestedUnique(docs: seq<Doc>, a: seq<Tree>, b: seq<Tree>, p: Option<Id>)
    requires DistinctPositions(docs) && Nested(docs, a, p) && Nested(docs, b, p)
    ensures a == b
    decreases a
  {
    NestedStrictly(docs, a, p);
    NestedStrictly(docs, b, p);
    SameAscending(Docs(a), Docs(b));
    forall i | 0 <= i < |a| ensures a[i] == b[i] {
      assert Docs(a)[i] == Docs(b)[i];
      NestedUnique(docs, a[i].children, b[i].children, Some(a[i].doc.id));
    }
  }

  /** With distinct sibling positions, that describes the tree completely. */
  lemma TreeExactly(docs: seq<Doc>, ts: seq<Tree>)
    requires DistinctIds(docs) && DistinctPositions(docs)
    ensures ts == BuildTree(docs) <==> Nested(docs, ts, None)
  {
    TreeNested(docs);
    if Nested(docs, ts, None) { NestedUnique(docs, ts, BuildTree(docs), None); }
  }

  ghost predicate ListsActive(docs: seq<Doc>, t: Table, w: Id) {
    Shows(docs, t, w) && forall x :: x in t && t[x].workspace == w && !t[x].Archived() ==> t[x] in docs
  }

  /** With the archive invariant, the list of all active documents of a workspace loses none of them. */
  lemma ActiveAllAppear(docs: seq<Doc>, t: Table, w: Id, d: Doc)
    requires TreeInv(t) && ListsActive(docs, t, w)
    requires d in docs
    ensures d in Flatten(BuildTree(docs))
  {
    var n: nat :| Up(t, Some(d.id), n) == None;
    ActiveListed(docs, t, w);
    ActiveIsDisplayed(docs, t, w, Some(d.id), n);
    TreeContents(docs, d);
  }

  lemma ActiveIsListed(docs: seq<Doc>, t: Table, w: Id, x: Id)
    requires ListsActive(docs, t, w) && Scoped(t, w, x) && !t[x].Archived() && t[x].id == x
    ensures x in ById(docs) && ById(docs)[x].parent == t[x].parent
  {
    ByIdExact(docs, t[x]);
  }

  /** What the list must hold for a chain to stay within it. */
  ghost predicate ListsParents(docs: seq<Doc>, t: Table, w: Id) {
    forall x :: Scoped(t, w, x) && !t[x].Archived() ==>
      && x in ById(docs) && ById(docs)[x].parent == t[x].parent
      && (t[x].parent.Some? ==> Scoped(t, w, t[x].parent.value) && !t[t[x].parent.value].Archived())
  }

  lemma ActiveListed(docs: seq<Doc>, t: Table, w: Id)
    requires TreeInv(t) && ListsActive(docs, t, w)
    ensures ListsParents(docs, t, w)
  {
    forall x | Scoped(t, w, x) && !t[x].Archived()
      ensures x in ById(docs) && ById(docs)[x].parent == t[x].parent
      ensures t[x].parent.Some? ==> Scoped(t, w, t[x].parent.value) && !t[t[x].parent.value].Archived()
    {
      ActiveIsListed(docs, t, w, x);
      ParentActive(t, x);
    }
  }

  lemma {:induction false} ActiveIsDisplayed(docs: seq<Doc>, t: Table, w: Id, x: Option<Id>, n: nat)
    requires ListsParents(docs, t, w)
    requires x.Some? ==> Scoped(t, w, x.value) && !t[x.value].Archived()
    requires Up(t, x, n) == None
    ensures DisplayedWithin(ById(docs), x, n)
    decreases n
  {
    if x.Some? && n > 0 {
      ActiveIsDisplayed(docs, t, w, t[x.value].parent, n - 1);
    }
  }

  lemma ParentActive(t: Table, x: Id)
    requires TreeInv(t) && x in t && !t[x].Archived()
    ensures t[x].parent.Some? ==> Scoped(t, t[x].workspace, t[x].parent.value) && !t[t[x].parent.value].Archived()
  {
    if t[x].parent.Some? {
      assert Up(t, Some(x), 1) == Up(t, t[x].parent, 0) == t[x].parent;
      ActiveChain(t, x, 1);
    }
  }

  // ----- the optimistic tree and the reloaded one -----

  /** The two forests show the same ids in the same places. */
  ghost predicate SameShape(a: seq<Tree>, b: seq<Tree>) {
    |a| == |b| &&
    (a != [] ==> a[0].doc.id == b[0].doc.id && SameShape(a[0].children, b[0].children) && SameShape(a[1..], b[1..]))
  }

  /** `b` lists the documents of `a` under the same parents and with siblings in the same order. */
  ghost predicate SameOrder(a: seq<Doc>, b: seq<Doc>) {
    && IdSet(a) == IdSet(b)
    && Mirrors(a, ById(b))
    && forall d, e :: d in a && e in a && d.parent == e.parent ==> OrderedAlike(d, e, ById(b))
  }

  ghost predicate Mirrors(a: seq<Doc>, m: Table) {
    forall d :: d in a ==> d.id in m && m[d.id].parent == d.parent
  }

  ghost predicate OrderedAlike(d: Doc, e: Doc, m: Table) {
    d.id in m && e.id in m && (d.position < e.position <==> m[d.id].position < m[e.id].position)
  }

  ghost predicate SameIds(s: seq<Doc>, r: seq<Doc>) {
    |s| == |r| && forall i :: 0 <= i < |s| ==> s[i].id == r[i].id
  }

  lemma FirstIds(s: seq<Doc>, r: seq<Doc>, m: Table)
    requires StrictlyAscending(s) && StrictlyAscending(r) && IdSet(s) == IdSet(r) && s != []
    requires forall e :: e in r ==> e.id in m && m[e.id] == e
    requires forall d, e :: d in s && e in s ==> OrderedAlike(d, e, m)
    ensures r != [] && s[0].id == r[0].id
  {
    assert s[0] in s && s[0].id in IdSet(s);
    var x :| x in r && x.id == s[0].id;
    assert r[0] in r && r[0].id in IdSet(r);
    var y :| y in s && y.id == r[0].id;
    var k :| 0 <= k < |r| && r[k] == x;
    var j :| 0 <= j < |s| && s[j] == y;
    assert OrderedAlike(y, s[0], m);
  }

  /** Two strictly ascending lists with the same ids in the same order are the same list of ids. */
  lemma {:induction false} SortedAlike(s: seq<Doc>, r: seq<Doc>, m: Table)
    requires StrictlyAscending(s) && StrictlyAscending(r) && DistinctIds(s) && DistinctIds(r) && IdSet(s) == IdSet(r)
    requires forall e :: e in r ==> e.id in m && m[e.id] == e
    requires forall d, e :: d in s && e in s ==> OrderedAlike(d, e, m)
    ensures SameIds(s, r)
    decreases |s|
  {
    assert s == [] ==> IdSet(s) == {};
    assert r == [] || r[0].id in IdSet(r);
    if s != [] {
      FirstIds(s, r, m);
      TailIds(s);
      TailIds(r);
      SortedAlike(s[1..], r[1..], m);
    }
  }

  lemma TailIds(s: seq<Doc>)
    requires DistinctIds(s) && s != []
    ensures IdSet(s[1..]) == IdSet(s) - {s[0].id}
  {
    forall x ensures x in IdSet(s[1..]) <==> x in IdSet(s) - {s[0].id} {
      if x in IdSet(s[1..]) {
        var d :| d in s[1..] && d.id == x;
        var i :| 1 <= i < |s| && s[i] == d;
      }
      if x in IdSet(s) - {s[0].id} {
        var d :| d in s && d.id == x;
        var i :| 0 <= i < |s| && s[i] == d;
        assert s[1..][i - 1] == d;
      }
    }
  }

  lemma KidsAlike(a: seq<Doc>, b: seq<Doc>, p: Option<Id>)
    requires DistinctIds(a) && DistinctIds(b) && DistinctPositions(a) && DistinctPositions(b) && SameOrder(a, b)
    ensures SameIds(Kids(a, p), Kids(b, p))
  {
    var s, r := Kids(a, p), Kids(b, p);
    KidsSorted(a, p);
    KidsSorted(b, p);
    forall e | e in r ensures e.id in ById(b) && ById(b)[e.id] == e { ByIdExact(b, e); }
    forall x ensures x in IdSet(s) <==> x in IdSet(r) {
      KidIds(a, b, p, x);
    }
    SortedAlike(s, r, ById(b));
  }

  lemma KidsSorted(a: seq<Doc>, p: Option<Id>)
    requires DistinctIds(a) && DistinctPositions(a)
    ensures DistinctIds(Kids(a, p)) && StrictlyAscending(Kids(a, p))
    ensures forall d :: d in Kids(a, p) <==> d in a && d.parent == p
  {
    ChildListKeepsDistinct(a, p);
    SortKeepsDistinct(ChildList(a, p));
    SortedSiblings(a, p, ChildList(a, p));
  }

  lemma KidIds(a: seq<Doc>, b: seq<Doc>, p: Option<Id>, x: Id)
    requires DistinctIds(a) && DistinctIds(b) && DistinctPositions(a) && DistinctPositions(b) && SameOrder(a, b)
    ensures x in IdSet(Kids(a, p)) <==> x in IdSet(Kids(b, p))
  {
    KidsSorted(a, p);
    KidsSorted(b, p);
    if x in IdSet(Kids(a, p)) {
      var d :| d in Kids(a, p) && d.id == x;
      var e := ById(b)[x];
      assert e in Kids(b, p);
    }
    if x in IdSet(Kids(b, p)) {
      var e :| e in Kids(b, p) && e.id == x;
      ByIdExact(b, e);
      assert x in IdSet(b);
      var d :| d in a && d.id == x;
      assert d in Kids(a, p);
    }
  }

  /** Comparing the first nodes and the others is enough. */
  lemma ShapeJoin(a: seq<Tree>, b: seq<Tree>)
    requires |a| == |b| > 0 && a[0].doc.id == b[0].doc.id
    requires SameShape(a[0].children, b[0].children) && SameShape(a[1..], b[1..])
    ensures SameShape(a, b)
  {
  }

  /** One node and its later siblings. */
  lemma ShapeSplit(a: seq<Doc>, p: Option<Id>, kids: seq<Doc>, seen: set<Id>)
    requires DistinctIds(a) && OnPath(a, p, seen) && kids != []
    requires KidsOf(a, p, kids)
    ensures OnPath(a, Some(kids[0].id), seen + {kids[0].id})
    ensures var ts := AttachAll(a, p, kids, seen);
            && ts[0] == Node(kids[0], Attach(a, Some(kids[0].id), seen + {kids[0].id}))
            && ts[1..] == AttachAll(a, p, kids[1..], seen)
  {
    PathGrows(a, p, seen, kids[0]);
  }

  /** One pair of nodes with the same subtrees, and the pairs after it. */
  lemma NodesAlike(a: seq<Doc>, b: seq<Doc>, p: Option<Id>, kidsA: seq<Doc>, kidsB: seq<Doc>,
                   seenA: set<Id>, seenB: set<Id>)
    requires DistinctIds(a) && DistinctIds(b) && OnPath(a, p, seenA) && OnPath(b, p, seenB)
    requires KidsOf(a, p, kidsA) && KidsOf(b, p, kidsB) && SameIds(kidsA, kidsB) && kidsA != []
    requires OnPath(a, Some(kidsA[0].id), seenA + {kidsA[0].id}) && OnPath(b, Some(kidsB[0].id), seenB + {kidsB[0].id})
    requires SameShape(Attach(a, Some(kidsA[0].id), seenA + {kidsA[0].id}),
                       Attach(b, Some(kidsB[0].id), seenB + {kidsB[0].id}))
    requires SameShape(AttachAll(a, p, kidsA[1..], seenA), AttachAll(b, p, kidsB[1..], seenB))
    ensures SameShape(AttachAll(a, p, kidsA, seenA), AttachAll(b, p, kidsB, seenB))
  {
    ShapeSplit(a, p, kidsA, seenA);
    ShapeSplit(b, p, kidsB, seenB);
    ShapeJoin(AttachAll(a, p, kidsA, seenA), AttachAll(b, p, kidsB, seenB));
  }

  lemma KidsAreKids(docs: seq<Doc>, p: Option<Id>)
    ensures KidsOf(docs, p, Kids(docs, p))
  {
  }

  /** Equal child lists everywhere give equal shapes. */
  lemma {:induction false} ShapesAlike(a: seq<Doc>, b: seq<Doc>, p: Option<Id>, kidsA: seq<Doc>, kidsB: seq<Doc>,
                                       seenA: set<Id>, seenB: set<Id>)
    requires DistinctIds(a) && DistinctIds(b) && forall q :: SameIds(Kids(a, q), Kids(b, q))
    requires OnPath(a, p, seenA) && OnPath(b, p, seenB)
    requires KidsOf(a, p, kidsA) && KidsOf(b, p, kidsB) && SameIds(kidsA, kidsB)
    ensures SameShape(AttachAll(a, p, kidsA, seenA), AttachAll(b, p, kidsB, seenB))
    decreases IdSet(a) - seenA, |kidsA|
  {
    if kidsA != [] {
      PathGrows(a, p, seenA, kidsA[0]);
      PathGrows(b, p, seenB, kidsB[0]);
      var deeper := Some(kidsA[0].id);
      KidsAreKids(a, deeper);
      KidsAreKids(b, deeper);
      ShapesAlike(a, b, deeper, Kids(a, deeper), Kids(b, deeper), seenA + {kidsA[0].id}, seenB + {kidsB[0].id});
      ShapesAlike(a, b, p, kidsA[1..], kidsB[1..], seenA, seenB);
      NodesAlike(a, b, p, kidsA, kidsB, seenA, seenB);
    }
  }

  lemma OrderDecidesShape(a: seq<Doc>, b: seq<Doc>)
    requires DistinctIds(a) && DistinctIds(b) && DistinctPositions(a) && DistinctPositions(b) && SameOrder(a, b)
    ensures SameShape(BuildTree(a), BuildTree(b))
  {
    forall q ensures SameIds(Kids(a, q), Kids(b, q)) { KidsAlike(a, b, q); }
    KidsAreKids(a, None);
    KidsAreKids(b, None);
    ShapesAlike(a, b, None, Kids(a, None), Kids(b, None), {}, {});
  }

  /**
   * The sidebar drawn at once from the optimistic list has the shape of the
   * sidebar drawn after the server's answer is loaded, whatever order that list arrives in.
   */
  lemma OptimisticTreeIsFinal(docs: seq<Doc>, t: Table, w: Id, node: Id, move: ResolvedMove, reloaded: seq<Doc>)
    requires TreeInv(t) && Shows(docs, t, w)
    requires move.reference.Some? ==> Find(docs, move.reference.value).Some?
    requires move.reference != Some(node)
    requires Move(t, w, node, move.parent, move.reference, move.placement).Ok?
    requires Shows(reloaded, Move(t, w, node, move.parent, move.reference, move.placement).value, w)
    requires IdSet(reloaded) == IdSet(docs)
    ensures DistinctIds(ComputeOptimisticMove(docs, node, move))
    ensures SameShape(BuildTree(ComputeOptimisticMove(docs, node, move)), BuildTree(reloaded))
  {
    var t' := Move(t, w, node, move.parent, move.reference, move.placement).value;
    var docs' := ComputeOptimisticMove(docs, node, move);
    OptimisticRefinesServer(docs, t, w, node, move);
    MovePlaces(t, w, node, move.parent, move.reference, move.placement);
    MoveKeepsDistinct(t, t', node);
    ShownPositionsDiffer(reloaded, t', w);
    OptimisticIds(docs, node, move);
    SameTreeSameOrder(docs', reloaded, t', w);
    OrderDecidesShape(docs', reloaded);
  }

  /**
   * A whole drag: whatever a drop on a displayed row or on the root zone
   * resolves to, the server accepts it, and the sidebar drawn at once has the
   * shape of the one drawn after the reload.
   */
  lemma DropIsFinal(docs: seq<Doc>, t: Table, w: Id, node: Id, target: Target, reloaded: seq<Doc>)
    requires TreeInv(t) && Shows(docs, t, w)
    requires target.Row? ==> Displayed(docs, target.id) && Find(docs, target.id).Some?
    requires ResolveDragEndMove(docs, node, target).Some?
    requires var move := ResolveDragEndMove(docs, node, target).value;
             var answer := Move(t, w, node, move.parent, move.reference, move.placement);
             answer.Ok? ==> Shows(reloaded, answer.value, w) && IdSet(reloaded) == IdSet(docs)
    ensures var move := ResolveDragEndMove(docs, node, target).value;
            && Move(t, w, node, move.parent, move.reference, move.placement).Ok?
            && DistinctIds(ComputeOptimisticMove(docs, node, move)) && DistinctIds(reloaded)
            && SameShape(BuildTree(ComputeOptimisticMove(docs, node, move)), BuildTree(reloaded))
  {
    var move := ResolveDragEndMove(docs, node, target).value;
    ResolvedMoveAccepted(docs, t, w, node, target);
    ResolvedNotItself(docs, node, target);
    OptimisticTreeIsFinal(docs, t, w, node, move, reloaded);
  }

  lemma OptimisticIds(docs: seq<Doc>, node: Id, move: ResolvedMove)
    requires DistinctIds(docs)
    ensures DistinctIds(ComputeOptimisticMove(docs, node, move))
    ensures IdSet(ComputeOptimisticMove(docs, node, move)) == IdSet(docs)
  {
    var docs' := ComputeOptimisticMove(docs, node, move);
    assert forall i :: 0 <= i < |docs| ==> docs'[i].id == docs[i].id;
    forall x ensures x in IdSet(docs') <==> x in IdSet(docs) {
      if d :| d in docs && d.id == x {
        var i :| 0 <= i < |docs| && docs[i] == d;
        assert docs'[i] in docs';
      }
      if d :| d in docs' && d.id == x {
        var i :| 0 <= i < |docs'| && docs'[i] == d;
        assert docs[i] in docs;
      }
    }
  }

  lemma SameTreeSameOrder(a: seq<Doc>, b: seq<Doc>, t: Table, w: Id)
    requires DistinctIds(a) && SameTree(a, t) && Shows(b, t, w) && IdSet(a) == IdSet(b) && DistinctPositions(b)
    ensures SameOrder(a, b) && DistinctPositions(a)
  {
    forall d | d in a ensures d.id in ById(b) && t[d.id] == ById(b)[d.id] {
      assert d.id in IdSet(a);
      var e :| e in b && e.id == d.id;
      ByIdExact(b, e);
    }
    forall i, j | 0 <= i < j < |a| && a[i].parent == a[j].parent ensures a[i].position != a[j].position {
      assert a[i] in a && a[j] in a;
      var d, e := ById(b)[a[i].id], ById(b)[a[j].id];
      var k :| 0 <= k < |b| && b[k] == d;
      var m :| 0 <= m < |b| && b[m] == e;
      assert d.position != e.position;
    }
  }

  // ----- as the browser builds it -----

  lemma {:induction false} ChildListAppend(docs: seq<Doc>, d: Doc, p: Option<Id>)
    ensures ChildList(docs + [d], p) == ChildList(docs, p) + (if d.parent == p then [d] else [])
  {
    if docs == [] {
      assert [d][1..] == [];
    } else {
      assert (docs + [d])[1..] == docs[1..] + [d];
      ChildListAppend(docs[1..], d, p);
    }
  }

  function GroupOf(byParent: map<Option<Id>, seq<Doc>>, p: Option<Id>): seq<Doc> {
    if p in byParent then byParent[p] else []
  }

  ghost predicate Groups(byParent: map<Option<Id>, seq<Doc>>, docs: seq<Doc>) {
    forall p :: GroupOf(byParent, p) == ChildList(docs, p)
  }

  /** Pushing one more document onto the group of its parent. */
  lemma GroupOneMore(byParent: map<Option<Id>, seq<Doc>>, docs: seq<Doc>, d: Doc)
    requires Groups(byParent, docs)
    ensures Groups(byParent[d.parent := GroupOf(byParent, d.parent) + [d]], docs + [d])
  {
    forall p { ChildListAppend(docs, d, p); }
  }

  method BuildDocumentTree(docs: seq<Doc>) returns (tree: seq<Tree>)
    requires DistinctIds(docs)
    ensures tree == BuildTree(docs)
  {
    var byParent: map<Option<Id>, seq<Doc>> := map[];
    for i := 0 to |docs|
      invariant Groups(byParent, docs[..i])
    {
      var doc := docs[i];
      assert docs[..i + 1] == docs[..i] + [doc];
      GroupOneMore(byParent, docs[..i], doc);
      byParent := byParent[doc.parent := GroupOf(byParent, doc.parent) + [doc]];
    }
    assert docs[..|docs|] == docs;
    var unsorted := byParent.Keys;
    while unsorted != {}
      invariant unsorted <= byParent.Keys
      invariant forall p :: GroupOf(byParent, p) == if p in unsorted then ChildList(docs, p) else Kids(docs, p)
      decreases unsorted
    {
      var p :| p in unsorted;
      byParent := byParent[p := SortByPosition(byParent[p])];
      unsorted := unsorted - {p};
    }
    tree := AttachNodes(docs, byParent, None, {});
  }

  method AttachNodes(ghost docs: seq<Doc>, byParent: map<Option<Id>, seq<Doc>>, p: Option<Id>, ghost seen: set<Id>)
    returns (tree: seq<Tree>)
    requires DistinctIds(docs) && OnPath(docs, p, seen)
    requires forall q :: GroupOf(byParent, q) == Kids(docs, q)
    ensures tree == Attach(docs, p, seen)
    decreases IdSet(docs) - seen
  {
    var children := GroupOf(byParent, p);
    tree := [];
    for i := 0 to |children|
      invariant tree + AttachAll(docs, p, children[i..], seen) == Attach(docs, p, seen)
    {
      var doc := children[i];
      PathGrows(docs, p, seen, doc);
      ShapeSplit(docs, p, children[i..], seen);
      assert children[i..][1..] == children[i + 1..];
      MoveOne(tree, AttachAll(docs, p, children[i..], seen));
      var below := AttachNodes(docs, byParent, Some(doc.id), seen + {doc.id});
      tree := tree + [Node(doc, below)];
    }
  }

  lemma MoveOne(done: seq<Tree>, rest: seq<Tree>)
    requires rest != []
    ensures done + rest == (done + [rest[0]]) + rest[1..]
  {
  }
}
