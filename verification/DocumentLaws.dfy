// What each transaction accepts, refuses and changes, said about rows and chains
// of parents alone.
module DocumentLaws {
  import opened Prelude
  import opened DocumentTable
  import opened DocumentForest
  import opened DocumentInvariant

  /** The document is in the table, in that workspace, and not archived. */
  predicate ActiveIn(t: Table, w: Id, x: Id) {
    x in t && t[x].workspace == w && t[x].archivedAt.None?
  }

  /** `a` is among the first `n` nodes of the chain from `x`. */
  ghost predicate Among(t: Table, x: Id, a: Id, n: nat) {
    exists i: nat :: i < n && Up(t, Some(x), i) == Some(a)
  }

  lemma WithinIsAmong(t: Table, x: Id, a: Id)
    ensures DescendantWithin(t, Some(x), a, MAX_DEPTH) <==> Among(t, x, a, 1000)
  {
    DescendantWithinExact(t, Some(x), a, MAX_DEPTH);
    if Among(t, x, a, 1000) {
      var i: nat :| i < 1000 && Up(t, Some(x), i) == Some(a);
      assert i < MAX_DEPTH && Up(t, Some(x), i) == Some(a);
    }
    if i: nat :| i < MAX_DEPTH && Up(t, Some(x), i) == Some(a) {
      assert i < 1000 && Up(t, Some(x), i) == Some(a);
    }
  }

  // ----- create -----

  function ActiveCount(t: Table, w: Id): nat {
    |set x | x in t && t[x].workspace == w && t[x].archivedAt.None?|
  }

  /** Accepted below the limit and under an active parent or none; the reasons for a refusal, in order. */
  lemma CreateExactly(t: Table, w: Id, id: Id, parent: Option<Id>, limit: Option<nat>)
    requires Keyed(t) && id !in t
    ensures var full := limit.Some? && ActiveCount(t, w) >= limit.value;
            var missing := parent.Some? && (parent.value !in t || t[parent.value].workspace != w);
            var r := Create(t, w, id, parent, limit);
            && (r == Err(LimitExceeded) <==> full)
            && (r == Err(NotFound) <==> !full && missing)
            && (r == Err(ParentArchived) <==> !full && !missing && parent.Some? && t[parent.value].archivedAt.Some?)
            && (r.Ok? <==> !full && (parent.Some? ==> ActiveIn(t, w, parent.value)))
  {
    var active := set x | x in t && t[x].workspace == w && t[x].archivedAt.None?;
    forall x ensures x in active <==> x in ActiveIds(t, w) {}
    assert active == ActiveIds(t, w);
  }

  /** The new row, and nothing else: active, unpublished, where it was asked for, and last there. */
  lemma CreateAdds(t: Table, w: Id, id: Id, parent: Option<Id>, limit: Option<nat>)
    requires Keyed(t) && id !in t && Create(t, w, id, parent, limit).Ok?
    ensures var t' := Create(t, w, id, parent, limit).value;
            && t'.Keys == t.Keys + {id} && (forall x :: x in t ==> t'[x] == t[x])
            && t'[id].id == id && t'[id].workspace == w && t'[id].parent == parent && t'[id].archivedAt.None?
            && !t'[id].isPublished && t'[id].publicSlug.None? && t'[id].publishedAt.None?
            && forall y :: y in t && t[y].workspace == w && t[y].parent == parent ==> t[y].position < t'[id].position
  {
    forall y | y in t && t[y].workspace == w && t[y].parent == parent
      ensures t[y].position < NextPosition(t, w, parent)
    {
      NextPositionLast(t, w, parent, y);
    }
  }

  // ----- move -----

  /**
   * A move is accepted exactly for an active document, to the root or under
   * another active document of the workspace whose chain does not show the moved
   * one among its first 1000 nodes, beside a row under that parent or beside none.
   */
  lemma MoveAcceptedExactly(t: Table, w: Id, d: Id, newParent: Option<Id>, reference: Option<Id>, placement: Option<Placement>)
    requires Keyed(t)
    ensures Move(t, w, d, newParent, reference, placement).Ok? <==>
            && ActiveIn(t, w, d)
            && (newParent.Some? ==>
                  newParent.value != d && ActiveIn(t, w, newParent.value) && !Among(t, newParent.value, d, 1000))
            && (reference.Some? ==>
                  reference.value in t && t[reference.value].workspace == w && t[reference.value].parent == newParent)
  {
    if newParent.Some? { WithinIsAmong(t, newParent.value, d); }
    if reference.Some? { ReferenceIsSibling(t, w, newParent, reference.value, placement); }
  }

  /** Why a move is refused: the first of these that holds. */
  lemma MoveRefusedExactly(t: Table, w: Id, d: Id, newParent: Option<Id>, reference: Option<Id>, placement: Option<Placement>)
    requires Keyed(t)
    ensures var unknown := d !in t || t[d].workspace != w;
            var archived := !unknown && t[d].archivedAt.Some?;
            var own := newParent == Some(d);
            var missing := newParent.Some? && (newParent.value !in t || t[newParent.value].workspace != w);
            var dead := newParent.Some? && !missing && t[newParent.value].archivedAt.Some?;
            var below := newParent.Some? && Among(t, newParent.value, d, 1000);
            var r := Move(t, w, d, newParent, reference, placement);
            && (unknown ==> r == Err(NotFound))
            && (archived ==> r == Err(DocumentArchived))
            && (!unknown && !archived && own ==> r == Err(OwnParent))
            && (!unknown && !archived && !own && missing ==> r == Err(NotFound))
            && (!unknown && !archived && !own && dead ==> r == Err(ParentArchived))
            && (!unknown && !archived && !own && !missing && !dead && below ==> r == Err(OwnDescendant))
            && (!unknown && !archived && !own && !missing && !dead && !below && r.Err? ==> r == Err(ReferenceNotFound))
  {
    if newParent.Some? { WithinIsAmong(t, newParent.value, d); }
  }

  // ----- archive and restore -----

  /** Archived with everything below it, now; unpublished, in place, and with its slug. The rest is as it was. */
  lemma ArchiveExactly(t: Table, w: Id, d: Id, now: Time)
    ensures Archive(t, w, d, now) == Err(NotFound) <==> d !in t || t[d].workspace != w
    ensures Archive(t, w, d, now).Err? ==> Archive(t, w, d, now) == Err(NotFound)
    ensures Archive(t, w, d, now).Ok? ==>
              var t' := Archive(t, w, d, now).value;
              && t'.Keys == t.Keys
              && forall x :: x in t ==>
                   if Reaches(t, x, d)
                   then && t'[x].archivedAt == Some(now) && !t'[x].isPublished
                        && (t[x].isPublished || t[x].publishedAt.None? ==> t'[x].publishedAt.None?)
                        && SamePlace(t[x], t'[x]) && t'[x].id == t[x].id && t'[x].publicSlug == t[x].publicSlug
                   else t'[x] == t[x]
  {
  }

  /** No longer archived, with everything below it; who is published under what does not change. */
  lemma RestoreExactly(t: Table, w: Id, d: Id)
    requires Keyed(t)
    ensures Restore(t, w, d) == Err(NotFound) <==> d !in t || t[d].workspace != w
    ensures Restore(t, w, d).Err? ==> Restore(t, w, d) == Err(NotFound)
    ensures Restore(t, w, d).Ok? ==>
              var t' := Restore(t, w, d).value;
              && t'.Keys == t.Keys
              && forall x :: x in t ==>
                   && t'[x].archivedAt == (if Reaches(t, x, d) then None else t[x].archivedAt)
                   && t'[x].id == t[x].id && t'[x].workspace == t[x].workspace
                   && t'[x].isPublished == t[x].isPublished && t'[x].publicSlug == t[x].publicSlug
                   && t'[x].publishedAt == t[x].publishedAt
  {
    var zero: nat := 0;
    assert Up(t, Some(d), zero) == Some(d);
  }

  lemma ArchivedReach(t: Table, w: Id, d: Id, now: Time)
    requires Archive(t, w, d, now).Ok?
    ensures forall x :: Reaches(Archive(t, w, d, now).value, x, d) <==> Reaches(t, x, d)
  {
    forall x ensures Reaches(Archive(t, w, d, now).value, x, d) <==> Reaches(t, x, d) {
      SameReach(t, Archive(t, w, d, now).value, x, d);
    }
  }

  lemma ComesBackInPlace(t: Table, w: Id, d: Id, now: Time)
    requires TreeInv(t) && Scoped(t, w, d) && t[d].archivedAt.None?
    ensures TreeInv(Archive(t, w, d, now).value) && Restore(Archive(t, w, d, now).value, w, d).Ok?
    ensures var t' := Restore(Archive(t, w, d, now).value, w, d).value;
            t'.Keys == t.Keys && forall x :: x in t ==> SamePlace(t[x], t'[x])
  {
    var t1 := Archive(t, w, d, now).value;
    ArchiveKeeps(t, w, d, now);
    ArchiveExactly(t, w, d, now);
    StaysUnderActive(t, t1, d);
    RestorePlaces(t1, w, d);
    forall x | x in t ensures SamePlace(t[x], Restore(t1, w, d).value[x]) {
      assert SamePlace(t[x], t1[x]);
    }
  }

  lemma ComesBackAsItWas(t: Table, w: Id, d: Id, now: Time, x: Id)
    requires TreeInv(t) && Scoped(t, w, d) && t[d].archivedAt.None? && x in t
    requires Reaches(t, x, d) ==> t[x].archivedAt.None?
    ensures TreeInv(Archive(t, w, d, now).value) && Restore(Archive(t, w, d, now).value, w, d).Ok?
    ensures var t' := Restore(Archive(t, w, d, now).value, w, d).value;
            x in t' && t'[x] == if Reaches(t, x, d) then t[x].(isPublished := false, publishedAt := None) else t[x]
  {
    ArchiveExactly(t, w, d, now);
    ArchivedReach(t, w, d, now);
    ComesBackInPlace(t, w, d, now);
    RestoreExactly(Archive(t, w, d, now).value, w, d);
  }

  /** Restoring what was archived as a whole gives it back as it was, but unpublished. */
  lemma ArchivedComesBack(t: Table, w: Id, d: Id, now: Time)
    requires TreeInv(t) && Scoped(t, w, d) && t[d].archivedAt.None?
    requires forall x :: x in t && Reaches(t, x, d) ==> t[x].archivedAt.None?
    ensures TreeInv(Archive(t, w, d, now).value) && Restore(Archive(t, w, d, now).value, w, d).Ok?
    ensures var t' := Restore(Archive(t, w, d, now).value, w, d).value;
            && t'.Keys == t.Keys
            && forall x :: x in t ==>
                 t'[x] == if Reaches(t, x, d) then t[x].(isPublished := false, publishedAt := None) else t[x]
  {
    ComesBackInPlace(t, w, d, now);
    forall x | x in t
      ensures Restore(Archive(t, w, d, now).value, w, d).value[x] ==
              if Reaches(t, x, d) then t[x].(isPublished := false, publishedAt := None) else t[x]
    {
      ComesBackAsItWas(t, w, d, now, x);
    }
  }

  lemma SameReach(t: Table, t': Table, x: Id, a: Id)
    requires t'.Keys == t.Keys && forall y :: y in t ==> t'[y].parent == t[y].parent
    ensures Reaches(t', x, a) <==> Reaches(t, x, a)
  {
    forall n: nat ensures Up(t', Some(x), n) == Up(t, Some(x), n) { UpSameParents(t, t', Some(x), n); }
    if Reaches(t, x, a) {
      var n: nat :| Up(t, Some(x), n) == Some(a);
      assert Up(t', Some(x), n) == Some(a);
    }
    if Reaches(t', x, a) {
      var n: nat :| Up(t', Some(x), n) == Some(a);
      assert Up(t, Some(x), n) == Some(a);
    }
  }

  /** The parent of a document that was archived with all below it is not archived itself. */
  lemma StaysUnderActive(t: Table, t1: Table, d: Id)
    requires TreeInv(t) && d in t && !t[d].Archived() && t1.Keys == t.Keys
    requires forall x :: x in t ==> SamePlace(t[x], t1[x]) && (!Reaches(t, x, d) ==> t1[x] == t[x])
    ensures !UnderArchived(t1, d)
  {
    if t[d].parent.Some? {
      var p := t[d].parent.value;
      ParentOutside(t, d);
      assert !UnderArchived(t, d);
      assert p in t && t1[p] == t[p];
    }
  }

  // ----- publish -----

  /** The slug the caller asked for, else the one it had, else the title's. */
  function Base(t: Table, d: Id, requested: Option<Slug>, titleSlug: Slug): Slug
    requires d in t
  {
    match (requested, t[d].publicSlug)
    case (Some(slug), _) => slug
    case (None, Some(slug)) => slug
    case (None, None) => titleSlug
  }

  function Candidate(base: Slug, suffixes: seq<Slug>, i: nat): Slug
    requires i <= |suffixes|
  {
    if i == 0 then base else base + "-" + suffixes[i - 1]
  }

  predicate Taken(t: Table, d: Id, slug: Slug) {
    exists x :: x in t && x != d && t[x].publicSlug == Some(slug)
  }

  /** The `i`-th candidate is the first that nobody else has. */
  predicate FirstFree(t: Table, d: Id, base: Slug, suffixes: seq<Slug>, i: nat) {
    && i <= |suffixes| && !Taken(t, d, Candidate(base, suffixes, i))
    && forall j: nat :: j < i ==> Taken(t, d, Candidate(base, suffixes, j))
  }

  lemma {:induction false} PickedFirst(t: Table, d: Id, base: Slug, suffixes: seq<Slug>, k: nat) returns (i: nat)
    requires k <= |suffixes| + 1 && forall j: nat :: j < k ==> Taken(t, d, Candidate(base, suffixes, j))
    ensures var picked := PickSlug(t, d, SlugCandidates(base, suffixes)[k..]);
            if picked.Some? then FirstFree(t, d, base, suffixes, i) && picked.value == Candidate(base, suffixes, i)
            else forall j: nat :: j <= |suffixes| ==> Taken(t, d, Candidate(base, suffixes, j))
    decreases |suffixes| + 1 - k
  {
    var candidates := SlugCandidates(base, suffixes);
    i := k;
    if k <= |suffixes| {
      assert candidates[k] == Candidate(base, suffixes, k);
      assert candidates[k..][0] == candidates[k] && candidates[k..][1..] == candidates[k + 1..];
      assert SlugFree(t, d, candidates[k]) <==> !Taken(t, d, candidates[k]);
      if Taken(t, d, candidates[k]) { i := PickedFirst(t, d, base, suffixes, k + 1); }
    }
  }

  /** Published under the first candidate nobody else has, now; refused for want of one, or archived, or unknown. */
  lemma PublishExactly(t: Table, w: Id, d: Id, requested: Option<Slug>, titleSlug: Slug, suffixes: seq<Slug>, now: Time)
    ensures var r := Publish(t, w, d, requested, titleSlug, suffixes, now);
            if d !in t || t[d].workspace != w then r == Err(NotFound)
            else if t[d].archivedAt.Some? then r == Err(DocumentArchived)
            else
              var base := Base(t, d, requested, titleSlug);
              && (r.Ok? <==> exists i: nat :: FirstFree(t, d, base, suffixes, i))
              && (r.Err? ==> r == Err(SlugTaken))
              && forall i: nat :: FirstFree(t, d, base, suffixes, i) ==>
                   && r.Ok? && r.value.Keys == t.Keys && (forall x :: x in t && x != d ==> r.value[x] == t[x])
                   && r.value[d].isPublished && r.value[d].publicSlug == Some(Candidate(base, suffixes, i))
                   && r.value[d].publishedAt == Some(now)
                   && r.value[d].archivedAt.None? && SamePlace(t[d], r.value[d]) && r.value[d].id == t[d].id
  {
    if ActiveIn(t, w, d) {
      var base := Base(t, d, requested, titleSlug);
      var zero: nat := 0;
      assert SlugCandidates(base, suffixes)[zero..] == SlugCandidates(base, suffixes);
      var i := PickedFirst(t, d, base, suffixes, zero);
      forall j: nat | FirstFree(t, d, base, suffixes, j) && FirstFree(t, d, base, suffixes, i) ensures j == i {
      }
    }
  }

  /** Afterwards the document is not published, and keeps its slug; unpublishing it again does nothing. */
  lemma UnpublishExactly(t: Table, w: Id, d: Id)
    ensures var r := Unpublish(t, w, d);
            if d !in t || t[d].workspace != w then r == Err(NotFound)
            else
              && r.Ok? && r.value.Keys == t.Keys && (forall x :: x in t && x != d ==> r.value[x] == t[x])
              && !r.value[d].isPublished && (t[d].isPublished ==> r.value[d].publishedAt.None?)
              && r.value[d].publicSlug == t[d].publicSlug && r.value[d].archivedAt == t[d].archivedAt
              && SamePlace(t[d], r.value[d]) && r.value[d].id == t[d].id
              && (!t[d].isPublished ==> r.value == t)
              && Unpublish(r.value, w, d) == r
  {
  }
}
