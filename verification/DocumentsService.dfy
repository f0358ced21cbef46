// DocumentsService: the transactions as methods over the stored rows and the
// cached trees, each proved against its function in DocumentTable.
module DocumentsService {
  import opened Prelude
  import opened DocumentTable
  import opened DocumentForest
  import opened DocumentInvariant

  // ----- breadth-first collection -----

  /** The documents `k` levels below `root`. */
  ghost function Level(t: Table, root: Id, k: nat): set<Id> {
    set x | x in t && Up(t, Some(x), k) == Some(root)
  }

  /** Documents nearer to the root come first. */
  ghost predicate LevelOrdered(t: Table, root: Id, ids: seq<Id>) {
    forall i, j, m: nat, n: nat :: 0 <= i < j < |ids| && ids[i] in Level(t, root, m) && ids[j] in Level(t, root, n)
      ==> m <= n
  }

  lemma NextLevel(t: Table, w: Id, root: Id, k: nat, x: Id)
    requires EdgesInside(t) && Scoped(t, w, root)
    ensures x in Level(t, root, k + 1) <==>
            x in t && t[x].workspace == w && t[x].parent.Some? && t[x].parent.value in Level(t, root, k)
  {
    if x in t {
      assert Up(t, Some(x), k + 1) == Up(t, t[x].parent, k);
      if t[x].parent.None? { UpNone(t, k); }
      if x in Level(t, root, k + 1) { ChainScoped(t, x, k + 1); }
    }
  }

  lemma LevelsDisjoint(t: Table, root: Id, j: nat, k: nat, x: Id)
    requires Forest(t) && x in Level(t, root, j) && x in Level(t, root, k)
    ensures j == k
  {
    if j < k { OncePerChain(t, x, j, k); }
    if k < j { OncePerChain(t, x, k, j); }
  }

  ghost predicate Bare(t: Table, root: Id, k: nat) {
    forall x :: x in t ==> Up(t, Some(x), k) != Some(root)
  }

  /** Below an empty level there is nothing. */
  lemma {:induction false} EmptyBelow(t: Table, w: Id, root: Id, k: nat, m: nat)
    requires EdgesInside(t) && Scoped(t, w, root)
    requires Bare(t, root, k) && k <= m
    ensures Bare(t, root, m)
  {
    if k < m {
      EmptyBelow(t, w, root, k, m - 1);
      forall x | x in t ensures Up(t, Some(x), m) != Some(root) { NextLevel(t, w, root, m - 1, x); }
    }
  }

  /** `ids` lists levels 0 to `k`, in order and without repetition. */
  ghost predicate Collected(t: Table, root: Id, ids: seq<Id>, k: nat) {
    && NoDuplicates(ids)
    && LevelOrdered(t, root, ids)
    && (forall x :: x in ids <==> UpToLevel(t, root, x, k))
  }

  ghost predicate UpToLevel(t: Table, root: Id, x: Id, k: nat) {
    exists j: nat :: j <= k && x in Level(t, root, j)
  }

  lemma CollectMore(t: Table, root: Id, ids: seq<Id>, k: nat, more: seq<Id>)
    requires Forest(t) && Collected(t, root, ids, k)
    requires NoDuplicates(more) && forall x :: x in more <==> x in Level(t, root, k + 1)
    ensures Collected(t, root, ids + more, k + 1)
  {
    var all := ids + more;
    forall x ensures x in all <==> UpToLevel(t, root, x, k + 1) {
      if x in more { assert x in Level(t, root, k + 1); }
    }
    forall i, j | 0 <= i < j < |all| ensures all[i] != all[j] {
      if i < |ids| <= j {
        assert all[i] in ids && all[j] in more;
        assert UpToLevel(t, root, all[i], k);
        var m: nat :| m <= k && all[i] in Level(t, root, m);
        if all[i] == all[j] { LevelsDisjoint(t, root, m, k + 1, all[i]); }
      }
    }
    forall i, j, m: nat, n: nat |
      0 <= i < j < |all| && all[i] in Level(t, root, m) && all[j] in Level(t, root, n)
      ensures m <= n
    {
      if j >= |ids| {
        assert all[j] in more;
        LevelsDisjoint(t, root, n, k + 1, all[j]);
        if i >= |ids| {
          assert all[i] in more;
          LevelsDisjoint(t, root, m, k + 1, all[i]);
        } else {
          assert all[i] in ids;
          assert UpToLevel(t, root, all[i], k);
          var m': nat :| m' <= k && all[i] in Level(t, root, m');
          LevelsDisjoint(t, root, m, m', all[i]);
        }
      }
    }
  }

  lemma CollectedAll(t: Table, w: Id, root: Id, ids: seq<Id>, k: nat)
    requires Forest(t) && EdgesInside(t) && Scoped(t, w, root)
    requires Collected(t, root, ids, k) && Bare(t, root, k + 1)
    ensures forall x :: x in ids <==> x in Subtree(t, root)
  {
    forall x ensures x in ids <==> x in Subtree(t, root) {
      if x in ids {
        var j: nat :| j <= k && x in Level(t, root, j);
        assert Reaches(t, x, root);
      }
      if x in Subtree(t, root) {
        var n: nat :| Up(t, Some(x), n) == Some(root);
        assert x in Level(t, root, n);
        if n > k { EmptyBelow(t, w, root, k + 1, n); }
      }
    }
  }

  lemma CollectedFits(t: Table, root: Id, ids: seq<Id>, k: nat)
    requires Collected(t, root, ids, k)
    ensures |ids| <= |t|
  {
    forall i | 0 <= i < |ids| ensures ids[i] in t.Keys { assert ids[i] in ids && UpToLevel(t, root, ids[i], k); }
    Pigeonhole(ids, t.Keys);
  }

  lemma RootLevel(t: Table, root: Id)
    requires Forest(t) && root in t
    ensures Collected(t, root, [root], 0)
    ensures forall x :: x in Level(t, root, 0) <==> x == root
  {
    var zero: nat := 0;
    forall x: Id ensures Up(t, Some(x), zero) == Some(x) {}
    assert forall x :: x in Level(t, root, zero) <==> x == root;
    forall x ensures x in [root] <==> UpToLevel(t, root, x, 0) {
      if x == root { assert x in Level(t, root, zero); }
    }
  }

  // ----- the tree cache -----

  /** Every cached tree is what a query would return now. */
  ghost predicate CacheFresh(t: Table, cache: map<Id, seq<Doc>>)
    requires Keyed(t)
  {
    forall w :: w in cache ==> cache[w] == WorkspaceRows(t, w)
  }

  /** The two tables agree outside workspace `w`. */
  ghost predicate AgreeOutside(t: Table, t': Table, w: Id) {
    && (forall x :: x in t && t[x].workspace != w ==> x in t' && t'[x] == t[x])
    && (forall x :: x in t' && t'[x].workspace != w ==> x in t && t'[x] == t[x])
  }

  lemma SameRowsOutside(t: Table, t': Table, w: Id, v: Id)
    requires Keyed(t) && Keyed(t') && AgreeOutside(t, t', w) && v != w
    ensures WorkspaceRows(t, v) == WorkspaceRows(t', v)
  {
    var before := set x | x in t && t[x].workspace == v :: t[x];
    var after := set x | x in t' && t'[x].workspace == v :: t'[x];
    forall d ensures d in before <==> d in after {
      if d in before { var x :| x in t && t[x].workspace == v && t[x] == d; }
      if d in after { var x :| x in t' && t'[x].workspace == v && t'[x] == d; }
    }
    assert before == after;
  }

  /** Dropping one workspace's entry is enough after changing only that workspace. */
  lemma InvalidationSuffices(t: Table, t': Table, w: Id, cache: map<Id, seq<Doc>>)
    requires Keyed(t) && Keyed(t') && CacheFresh(t, cache) && AgreeOutside(t, t', w)
    ensures CacheFresh(t', cache - {w})
  {
    forall v | v in cache - {w} ensures cache[v] == WorkspaceRows(t', v) {
      SameRowsOutside(t, t', w, v);
    }
  }

  lemma SubtreeInWorkspace(t: Table, w: Id, d: Id, x: Id)
    requires EdgesInside(t) && Scoped(t, w, d) && x in Subtree(t, d)
    ensures t[x].workspace == w
  {
    var n: nat :| Up(t, Some(x), n) == Some(d);
    ChainScoped(t, x, n);
  }

  lemma ArchiveRefreshes(t: Table, w: Id, d: Id, now: Time, cache: map<Id, seq<Doc>>)
    requires TreeInv(t) && CacheFresh(t, cache) && Scoped(t, w, d)
    ensures TreeInv(Archive(t, w, d, now).value) && CacheFresh(Archive(t, w, d, now).value, cache - {w})
  {
    ArchiveKeeps(t, w, d, now);
    forall x | x in Subtree(t, d) ensures t[x].workspace == w { SubtreeInWorkspace(t, w, d, x); }
    InvalidationSuffices(t, Archive(t, w, d, now).value, w, cache);
  }

  lemma MoveRefreshes(t: Table, w: Id, d: Id, newParent: Option<Id>, reference: Option<Id>, placement: Option<Placement>,
                      cache: map<Id, seq<Doc>>)
    requires TreeInv(t) && CacheFresh(t, cache)
    requires DocumentTable.Move(t, w, d, newParent, reference, placement).Ok?
    ensures var t' := DocumentTable.Move(t, w, d, newParent, reference, placement).value;
            && Keyed(t') && CacheFresh(t', cache - {w})
            && (TreeInv(t') <==> newParent.None? || !Reaches(t, newParent.value, d))
  {
    MoveForest(t, w, d, newParent, reference, placement);
    MoveKeepsRest(t, w, d, newParent, reference, placement);
    InvalidationSuffices(t, DocumentTable.Move(t, w, d, newParent, reference, placement).value, w, cache);
  }

  lemma RestoreRefreshes(t: Table, w: Id, d: Id, cache: map<Id, seq<Doc>>)
    requires TreeInv(t) && CacheFresh(t, cache) && Scoped(t, w, d)
    ensures TreeInv(Restore(t, w, d).value) && CacheFresh(Restore(t, w, d).value, cache - {w})
  {
    RestoreKeeps(t, w, d);
    forall x | x in Subtree(t, d) ensures t[x].workspace == w { SubtreeInWorkspace(t, w, d, x); }
    InvalidationSuffices(t, Restore(t, w, d).value, w, cache);
  }

  function ActiveOnly(s: seq<Doc>): (r: seq<Doc>)
    ensures forall d :: d in r <==> d in s && !d.Archived()
  {
    if s == [] then [] else (if s[0].Archived() then [] else [s[0]]) + ActiveOnly(s[1..])
  }

  lemma {:induction false} ActiveOnlySorted(s: seq<Doc>)
    requires Sorted(s)
    ensures Sorted(ActiveOnly(s))
  {
    if s != [] {
      ActiveOnlySorted(s[1..]);
      var rest := ActiveOnly(s[1..]);
      forall j | 0 <= j < |rest| ensures RowLeq(s[0], rest[j]) && s[0] != rest[j] {
        assert rest[j] in s[1..];
        var i :| 1 <= i < |s| && s[i] == rest[j];
      }
    }
  }

  /** The transaction did what its function says: its new table on success, a rollback on refusal. */
  ghost predicate Committed<T>(spec: Result<Table, Error>, before: Table, after: Table, r: Result<T, Error>) {
    match spec
    case Ok(t) => r.Ok? && after == t
    case Err(e) => r == Err(e) && after == before
  }

  class DocumentsService {
    var rows: Table
    var cache: map<Id, seq<Doc>>

    ghost predicate Valid()
      reads this
    {
      TreeInv(rows) && CacheFresh(rows, cache)
    }

    constructor ()
      ensures Valid() && rows == map[]
    {
      rows := map[];
      cache := map[];
    }

    method GetCachedTree(w: Id) returns (all: seq<Doc>)
      requires Valid()
      modifies this`cache
      ensures Valid() && all == WorkspaceRows(rows, w)
      ensures cache == old(cache)[w := all]
    {
      if w in cache {
        all := cache[w];
      } else {
        all := WorkspaceRows(rows, w);
        cache := cache[w := all];
      }
    }

    /** Whatever the cache holds, `list` is the current table, filtered and in position order. */
    method List(w: Id, includeArchived: bool) returns (result: seq<Doc>)
      requires Valid()
      modifies this`cache
      ensures Valid() && Sorted(result)
      ensures forall d :: d in result <==>
                d.id in rows && rows[d.id] == d && d.workspace == w && (includeArchived || !d.Archived())
    {
      var all := GetCachedTree(w);
      ActiveOnlySorted(all);
      result := if includeArchived then all else ActiveOnly(all);
    }

    /** The time-to-live of a cached tree runs out, at any moment. */
    method Expire(w: Id)
      requires Valid()
      modifies this`cache
      ensures Valid() && w !in cache
    {
      cache := cache - {w};
    }

    method IsDescendantOf(candidate: Id, ancestor: Id) returns (r: bool)
      ensures r <==> exists i: nat :: i < MAX_DEPTH && Up(rows, Some(candidate), i) == Some(ancestor)
    {
      DescendantWithinExact(rows, Some(candidate), ancestor, MAX_DEPTH);
      var current := Some(candidate);
      var i := 0;
      while i < MAX_DEPTH && current.Some?
        invariant 0 <= i <= MAX_DEPTH
        invariant DescendantWithin(rows, Some(candidate), ancestor, MAX_DEPTH) <==>
                  DescendantWithin(rows, current, ancestor, MAX_DEPTH - i)
      {
        if current == Some(ancestor) {
          return true;
        }
        current := if current.value in rows then rows[current.value].parent else None;
        i := i + 1;
      }
      return false;
    }

    /** Exactly the root and its descendants, each once, level by level. */
    method CollectSubtreeIds(w: Id, root: Id) returns (ids: seq<Id>)
      requires Keyed(rows) && EdgesInside(rows) && Forest(rows) && Scoped(rows, w, root)
      ensures NoDuplicates(ids) && LevelOrdered(rows, root, ids)
      ensures forall x :: x in ids <==> x in Subtree(rows, root)
    {
      ids := [root];
      var frontier := [root];
      ghost var k: nat := 0;
      RootLevel(rows, root);
      while |frontier| > 0
        invariant Collected(rows, root, ids, k)
        invariant forall x :: x in frontier <==> x in Level(rows, root, k)
        invariant frontier != []
        decreases |rows| - |ids|
      {
        var children := SortRows(set x | x in rows && rows[x].workspace == w
          && rows[x].parent.Some? && rows[x].parent.value in frontier :: rows[x]);
        var next := seq(|children|, i requires 0 <= i < |children| => children[i].id);
        ChildrenAreNextLevel(rows, w, root, k, frontier, children, next);
        if |children| == 0 {
          CollectedAll(rows, w, root, ids, k);
          break;
        }
        frontier := next;
        CollectMore(rows, root, ids, k, frontier);
        ids := ids + frontier;
        k := k + 1;
        CollectedFits(rows, root, ids, k);
      }
    }

    method Create(w: Id, id: Id, parent: Option<Id>, limit: Option<nat>) returns (r: Result<Doc, Error>)
      requires Valid() && id !in rows
      modifies this
      ensures Valid()
      ensures Committed(DocumentTable.Create(old(rows), w, id, parent, limit), old(rows), rows, r)
      ensures r.Ok? ==> id in rows && r.value == rows[id]
    {
      if limit.Some? && |ActiveIds(rows, w)| >= limit.value {
        return Err(LimitExceeded);
      }
      if parent.Some? {
        if !Scoped(rows, w, parent.value) {
          return Err(NotFound);
        }
        if rows[parent.value].Archived() {
          return Err(ParentArchived);
        }
      }
      CreateKeeps(rows, w, id, parent, limit);
      var position := NextPosition(rows, w, parent);
      var document := Doc(id, w, parent, position, None, false, None, None);
      InvalidationSuffices(rows, rows[id := document], w, cache);
      rows := rows[id := document];
      cache := cache - {w};
      return Ok(document);
    }

    /** A refused move changes nothing; an accepted one breaks the forest exactly when it hangs a document below itself. */
    method Move(w: Id, d: Id, newParent: Option<Id>, reference: Option<Id>, placement: Option<Placement>)
      returns (r: Result<Doc, Error>)
      requires Valid()
      modifies this
      ensures Committed(DocumentTable.Move(old(rows), w, d, newParent, reference, placement), old(rows), rows, r)
      ensures r.Ok? ==> d in rows && r.value == rows[d]
      ensures Valid() <==> (r.Err? || newParent.None? || !Reaches(old(rows), newParent.value, d))
    {
      if !Scoped(rows, w, d) {
        return Err(NotFound);
      }
      var document := rows[d];
      if document.Archived() {
        return Err(DocumentArchived);
      }
      if newParent.Some? {
        if newParent.value == d {
          return Err(OwnParent);
        }
        if !Scoped(rows, w, newParent.value) {
          return Err(NotFound);
        }
        if rows[newParent.value].Archived() {
          return Err(ParentArchived);
        }
        DescendantWithinExact(rows, newParent, d, MAX_DEPTH);
        var below := IsDescendantOf(newParent.value, d);
        if below {
          return Err(OwnDescendant);
        }
      }
      var position := ComputePosition(rows, w, newParent, reference, placement);
      if position.Err? {
        return Err(position.error);
      }
      MoveRefreshes(rows, w, d, newParent, reference, placement, cache);
      document := document.(parent := newParent, position := position.value);
      rows := rows[d := document];
      cache := cache - {w};
      return Ok(document);
    }

    method Archive(w: Id, d: Id, now: Time) returns (r: Result<(), Error>)
      requires Valid()
      modifies this
      ensures Valid()
      ensures Committed(DocumentTable.Archive(old(rows), w, d, now), old(rows), rows, r)
    {
      if !Scoped(rows, w, d) {
        return Err(NotFound);
      }
      var ids := CollectSubtreeIds(w, d);
      ghost var before := rows;
      var published := set x | x in rows && x in ids && rows[x].isPublished;
      rows := map x | x in rows :: if x in ids then rows[x].(archivedAt := Some(now)) else rows[x];
      rows := map x | x in rows ::
        if x in published then rows[x].(isPublished := false, publishedAt := None) else rows[x];
      assert rows == ArchiveRows(before, Subtree(before, d), now);
      ArchiveRefreshes(before, w, d, now, cache);
      cache := cache - {w};
      return Ok(());
    }

    method Restore(w: Id, d: Id) returns (r: Result<Doc, Error>)
      requires Valid()
      modifies this
      ensures Valid()
      ensures Committed(DocumentTable.Restore(old(rows), w, d), old(rows), rows, r)
      ensures r.Ok? ==> d in rows && r.value == rows[d]
    {
      if !Scoped(rows, w, d) {
        return Err(NotFound);
      }
      var document := rows[d];
      var ids := CollectSubtreeIds(w, d);
      ghost var before := rows;
      rows := map x | x in rows :: if x in ids then rows[x].(archivedAt := None) else rows[x];
      assert rows == ActivateRows(before, Subtree(before, d));
      ActivateKeeps(before, d);
      var parent := document.parent;
      if parent.Some? && (!Scoped(rows, w, parent.value) || rows[parent.value].Archived()) {
        parent := None;
      }
      document := document.(archivedAt := None);
      assert rows[d] == document;
      if parent != document.parent {
        var position := NextPosition(rows, w, parent);
        document := document.(parent := parent, position := position);
      }
      assert rows[d := document] == Reattach(rows, w, d);
      RestoreRefreshes(before, w, d, cache);
      rows := rows[d := document];
      cache := cache - {w};
      return Ok(document);
    }

    method Publish(w: Id, d: Id, requested: Option<Slug>, titleSlug: Slug, suffixes: seq<Slug>, now: Time)
      returns (r: Result<Doc, Error>)
      requires Valid() && |suffixes| == MAX_SLUG_ATTEMPTS - 1
      modifies this
      ensures Valid()
      ensures Committed(DocumentTable.Publish(old(rows), w, d, requested, titleSlug, suffixes, now), old(rows), rows, r)
      ensures r.Ok? ==> d in rows && r.value == rows[d]
    {
      if !Scoped(rows, w, d) {
        return Err(NotFound);
      }
      var document := rows[d];
      if document.Archived() {
        return Err(DocumentArchived);
      }
      var base := if requested.Some? then requested.value
                  else if document.publicSlug.Some? then document.publicSlug.value
                  else titleSlug;
      ghost var candidates := SlugCandidates(base, suffixes);
      for attempt := 0 to MAX_SLUG_ATTEMPTS
        invariant rows == old(rows) && cache == old(cache)
        invariant PickSlug(rows, d, candidates) == PickSlug(rows, d, candidates[attempt..])
      {
        var candidate := if attempt == 0 then base else base + "-" + suffixes[attempt - 1];
        assert candidate == candidates[attempt..][0];
        if SlugFree(rows, d, candidate) {
          document := document.(isPublished := true, publicSlug := Some(candidate), publishedAt := Some(now));
          PublishKeeps(rows, w, d, requested, titleSlug, suffixes, now);
          InvalidationSuffices(rows, rows[d := document], w, cache);
          rows := rows[d := document];
          cache := cache - {w};
          return Ok(document);
        }
        assert candidates[attempt..][1..] == candidates[attempt + 1..];
      }
      return Err(SlugTaken);
    }

    method Unpublish(w: Id, d: Id) returns (r: Result<Doc, Error>)
      requires Valid()
      modifies this
      ensures Valid()
      ensures Committed(DocumentTable.Unpublish(old(rows), w, d), old(rows), rows, r)
      ensures r.Ok? ==> d in rows && r.value == rows[d]
    {
      if !Scoped(rows, w, d) {
        return Err(NotFound);
      }
      var document := rows[d];
      if !document.isPublished {
        return Ok(document);
      }
      UnpublishKeeps(rows, w, d);
      document := document.(isPublished := false, publishedAt := None);
      InvalidationSuffices(rows, rows[d := document], w, cache);
      rows := rows[d := document];
      cache := cache - {w};
      return Ok(document);
    }
  }

  lemma ChildrenAreNextLevel(t: Table, w: Id, root: Id, k: nat, level: seq<Id>, children: seq<Doc>, ids: seq<Id>)
    requires Keyed(t) && EdgesInside(t) && Scoped(t, w, root)
    requires forall x :: x in level <==> x in Level(t, root, k)
    requires Sorted(children)
    requires forall d :: d in children <==>
               d.id in t && t[d.id] == d && d.workspace == w && d.parent.Some? && d.parent.value in level
    requires |ids| == |children| && forall i :: 0 <= i < |ids| ==> ids[i] == children[i].id
    ensures NoDuplicates(ids) && forall x :: x in ids <==> x in Level(t, root, k + 1)
    ensures ids == [] ==> Bare(t, root, k + 1)
  {
    assert forall i :: 0 <= i < |children| ==> children[i] in children;
    forall x ensures x in ids <==> x in Level(t, root, k + 1) {
      NextLevel(t, w, root, k, x);
      if x in Level(t, root, k + 1) {
        assert t[x] in children;
        var i :| 0 <= i < |children| && children[i] == t[x];
        assert ids[i] == x;
      }
    }
    if ids == [] {
      forall x | x in t ensures Up(t, Some(x), k + 1) != Some(root) { assert x !in ids; }
    }
  }
}
