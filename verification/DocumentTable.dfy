// The `documents` table of the backend and the transactions DocumentsService
// runs on it, as functions from one table to the next.
module DocumentTable {
  import opened Prelude

  // A UUID: only ever compared for equality.
  type Id = int
  // A timestamp: only its presence matters to the tree.
  type Time = nat
  type Slug = string

  // Initial gap between sibling positions.
  const POSITION_STEP: real := 1000.0
  // How many nodes the ancestor check looks at.
  const MAX_DEPTH: nat := 1000
  const MAX_SLUG_ATTEMPTS: nat := 5

  datatype Doc = Doc(
    id: Id,
    workspace: Id,
    parent: Option<Id>,
    position: real,
    archivedAt: Option<Time>,
    isPublished: bool,
    publicSlug: Option<Slug>,
    publishedAt: Option<Time>)
  {
    predicate Archived() { archivedAt.Some? }
  }

  type Table = map<Id, Doc>

  datatype Placement = Before | After

  datatype Error =
    | NotFound
    | LimitExceeded
    | ParentArchived
    | DocumentArchived
    | OwnParent
    | OwnDescendant
    | ReferenceNotFound
    | SlugTaken

  // ----- walking up -----

  function ParentOf(t: Table, x: Option<Id>): Option<Id> {
    if x.Some? && x.value in t then t[x.value].parent else None
  }

  /** The node reached from `x` after following `n` parent pointers; None past the root. */
  function Up(t: Table, x: Option<Id>, n: nat): Option<Id>
    decreases n
  {
    if n == 0 then x else Up(t, ParentOf(t, x), n - 1)
  }

  /** `a` is `x` itself or one of its ancestors. */
  ghost predicate Reaches(t: Table, x: Id, a: Id) {
    exists n: nat :: Up(t, Some(x), n) == Some(a)
  }

  /** The document and everything below it. */
  ghost function Subtree(t: Table, root: Id): set<Id> {
    set x | x in t && Reaches(t, x, root)
  }

  /** The bounded ancestor walk: is `a` among the first `fuel` nodes starting at `x`? */
  predicate DescendantWithin(t: Table, x: Option<Id>, a: Id, fuel: nat)
    decreases fuel
  {
    fuel > 0 && x.Some? && (x == Some(a) || DescendantWithin(t, ParentOf(t, x), a, fuel - 1))
  }

  // ----- queries -----

  predicate RowLeq(a: Doc, b: Doc) {
    a.position < b.position || (a.position == b.position && a.id <= b.id)
  }

  ghost predicate UniqueIds(s: set<Doc>) {
    forall a, b :: a in s && b in s && a.id == b.id ==> a == b
  }

  ghost predicate IsLeast(m: Doc, s: set<Doc>) {
    m in s && forall d :: d in s ==> RowLeq(m, d)
  }

  lemma {:induction false} LeastRow(s: set<Doc>) returns (m: Doc)
    requires s != {}
    ensures IsLeast(m, s)
  {
    var x :| x in s;
    m := x;
    if s != {x} {
      var rest := LeastRow(s - {x});
      m := if RowLeq(x, rest) then x else rest;
      assert forall d :: d in s ==> d == x || d in s - {x};
    }
  }

  lemma LeastRowExists(s: set<Doc>)
    requires s != {}
    ensures exists m :: m in s && forall d :: d in s ==> RowLeq(m, d)
  {
    var m := LeastRow(s);
    assert IsLeast(m, s);
  }

  ghost predicate Sorted(r: seq<Doc>) {
    forall i, j :: 0 <= i < j < |r| ==> RowLeq(r[i], r[j]) && r[i] != r[j]
  }

  /** `ORDER BY position ASC`. The database leaves ties open; here they are broken by id. */
  function SortRows(s: set<Doc>): (r: seq<Doc>)
    requires UniqueIds(s)
    ensures forall d :: d in r <==> d in s
    ensures Sorted(r)
  {
    if s == {} then
      []
    else
      LeastRowExists(s);
      var m :| m in s && forall d :: d in s ==> RowLeq(m, d);
      [m] + SortRows(s - {m})
  }

  /** Every row sits under its own id. */
  ghost predicate Keyed(t: Table) {
    forall x :: x in t ==> t[x].id == x
  }

  function ChildRows(t: Table, w: Id, p: Option<Id>): (s: set<Doc>)
    requires Keyed(t)
    ensures UniqueIds(s)
  {
    set x | x in t && t[x].workspace == w && t[x].parent == p :: t[x]
  }

  /** The rows under one parent, archived ones included, in position order. */
  function Siblings(t: Table, w: Id, p: Option<Id>): (r: seq<Doc>)
    requires Keyed(t)
    ensures Sorted(r)
    ensures forall d :: d in r <==> d.id in t && t[d.id] == d && d.workspace == w && d.parent == p
  {
    SortRows(ChildRows(t, w, p))
  }

  /** All rows of a workspace in position order, as `list` reads them. */
  function WorkspaceRows(t: Table, w: Id): (r: seq<Doc>)
    requires Keyed(t)
    ensures Sorted(r)
    ensures forall d :: d in r <==> d.id in t && t[d.id] == d && d.workspace == w
  {
    SortRows(set x | x in t && t[x].workspace == w :: t[x])
  }

  function IndexOf(s: seq<Doc>, id: Id): (i: int)
    ensures -1 <= i < |s|
    ensures i >= 0 ==> s[i].id == id
    ensures i == -1 ==> forall d :: d in s ==> d.id != id
  {
    if s == [] then -1
    else if s[0].id == id then 0
    else
      var i := IndexOf(s[1..], id);
      if i == -1 then -1 else i + 1
  }

  // ----- positions -----

  function NextPosition(t: Table, w: Id, p: Option<Id>): real
    requires Keyed(t)
  {
    var s := Siblings(t, w, p);
    (if s == [] then 0.0 else s[|s| - 1].position) + POSITION_STEP
  }

  /** The position next to the `i`-th element of a sorted sibling list. */
  function PositionBeside(s: seq<Doc>, i: nat, placement: Option<Placement>): real
    requires i < |s|
  {
    if placement == Some(Before) then
      if i > 0 then (s[i - 1].position + s[i].position) / 2.0 else s[i].position - POSITION_STEP
    else
      if i + 1 < |s| then (s[i].position + s[i + 1].position) / 2.0 else s[i].position + POSITION_STEP
  }

  function ComputePosition(t: Table, w: Id, p: Option<Id>, reference: Option<Id>, placement: Option<Placement>)
    : Result<real, Error>
    requires Keyed(t)
  {
    if reference.None? then
      Ok(NextPosition(t, w, p))
    else
      var s := Siblings(t, w, p);
      var i := IndexOf(s, reference.value);
      if i == -1 then Err(ReferenceNotFound) else Ok(PositionBeside(s, i, placement))
  }

  // ----- transactions -----

  predicate Scoped(t: Table, w: Id, d: Id) {
    d in t && t[d].workspace == w
  }

  function ActiveIds(t: Table, w: Id): set<Id> {
    set x | x in t && t[x].workspace == w && !t[x].Archived()
  }

  /** `id` is the fresh UUID the database assigns; `limit` is the plan's document limit, None when unlimited. */
  function Create(t: Table, w: Id, id: Id, parent: Option<Id>, limit: Option<nat>): Result<Table, Error>
    requires Keyed(t)
  {
    if limit.Some? && |ActiveIds(t, w)| >= limit.value then Err(LimitExceeded)
    else if parent.Some? && !Scoped(t, w, parent.value) then Err(NotFound)
    else if parent.Some? && t[parent.value].Archived() then Err(ParentArchived)
    else Ok(t[id := Doc(id, w, parent, NextPosition(t, w, parent), None, false, None, None)])
  }

  /** Why a move is refused before its position is computed, if it is. */
  function MoveRefusal(t: Table, w: Id, d: Id, newParent: Option<Id>): Option<Error> {
    if !Scoped(t, w, d) then Some(NotFound)
    else if t[d].Archived() then Some(DocumentArchived)
    else if newParent == Some(d) then Some(OwnParent)
    else if newParent.Some? && !Scoped(t, w, newParent.value) then Some(NotFound)
    else if newParent.Some? && t[newParent.value].Archived() then Some(ParentArchived)
    else if newParent.Some? && DescendantWithin(t, newParent, d, MAX_DEPTH) then Some(OwnDescendant)
    else None
  }

  function Move(t: Table, w: Id, d: Id, newParent: Option<Id>, reference: Option<Id>, placement: Option<Placement>)
    : Result<Table, Error>
    requires Keyed(t)
  {
    var refusal := MoveRefusal(t, w, d, newParent);
    if refusal.Some? then Err(refusal.value)
    else
      match ComputePosition(t, w, newParent, reference, placement)
      case Err(e) => Err(e)
      case Ok(position) => Ok(t[d := t[d].(parent := newParent, position := position)])
  }

  function ArchiveRow(d: Doc, now: Time): Doc {
    if d.isPublished
    then d.(archivedAt := Some(now), isPublished := false, publishedAt := None)
    else d.(archivedAt := Some(now))
  }

  /** Archives the given rows; unpublishes those that were published and keeps their slug. */
  function ArchiveRows(t: Table, ids: set<Id>, now: Time): Table {
    map x | x in t :: if x in ids then ArchiveRow(t[x], now) else t[x]
  }

  ghost function Archive(t: Table, w: Id, d: Id, now: Time): Result<Table, Error> {
    if !Scoped(t, w, d) then Err(NotFound) else Ok(ArchiveRows(t, Subtree(t, d), now))
  }

  function ActivateRows(t: Table, ids: set<Id>): (t': Table) {
    map x | x in t :: if x in ids then t[x].(archivedAt := None) else t[x]
  }

  /** Is `d`'s parent missing or still archived? Then a restored `d` goes to the root. */
  predicate Dangling(t: Table, w: Id, d: Id)
    requires d in t
  {
    t[d].parent.Some? &&
    var p := t[d].parent.value;
    !Scoped(t, w, p) || t[p].Archived()
  }

  /** The second half of restore, after the subtree's archive flags are cleared. */
  function Reattach(t: Table, w: Id, d: Id): Table
    requires Keyed(t) && d in t
  {
    if Dangling(t, w, d)
    then t[d := t[d].(parent := None, position := NextPosition(t, w, None))]
    else t
  }

  ghost function Restore(t: Table, w: Id, d: Id): Result<Table, Error>
    requires Keyed(t)
  {
    if !Scoped(t, w, d) then Err(NotFound)
    else Ok(Reattach(ActivateRows(t, Subtree(t, d)), w, d))
  }

  predicate SlugFree(t: Table, d: Id, slug: Slug) {
    forall x :: x in t && x != d ==> t[x].publicSlug != Some(slug)
  }

  /** The first candidate the unique index accepts, if any. */
  function PickSlug(t: Table, d: Id, candidates: seq<Slug>): (r: Option<Slug>)
    ensures r.Some? ==> r.value in candidates && SlugFree(t, d, r.value)
    ensures r.None? ==> forall s :: s in candidates ==> !SlugFree(t, d, s)
  {
    if candidates == [] then None
    else if SlugFree(t, d, candidates[0]) then Some(candidates[0])
    else PickSlug(t, d, candidates[1..])
  }

  /** `base` with no suffix, then with each random suffix in turn. */
  function SlugCandidates(base: Slug, suffixes: seq<Slug>): seq<Slug> {
    [base] + seq(|suffixes|, i requires 0 <= i < |suffixes| => base + "-" + suffixes[i])
  }

  /** `requested` is the caller's slug, `titleSlug` the slug of the title. */
  function Publish(t: Table, w: Id, d: Id, requested: Option<Slug>, titleSlug: Slug, suffixes: seq<Slug>, now: Time)
    : Result<Table, Error>
  {
    if !Scoped(t, w, d) then Err(NotFound)
    else if t[d].Archived() then Err(DocumentArchived)
    else
      var base := if requested.Some? then requested.value
                  else if t[d].publicSlug.Some? then t[d].publicSlug.value
                  else titleSlug;
      var slug := PickSlug(t, d, SlugCandidates(base, suffixes));
      if slug.None? then Err(SlugTaken)
      else Ok(t[d := t[d].(isPublished := true, publicSlug := slug, publishedAt := Some(now))])
  }

  function Unpublish(t: Table, w: Id, d: Id): Result<Table, Error> {
    if !Scoped(t, w, d) then Err(NotFound)
    else if !t[d].isPublished then Ok(t)
    else Ok(t[d := t[d].(isPublished := false, publishedAt := None)])
  }
}
