// Version history: manual snapshots and restore points, beside the live copies
// and the automatic rows they are taken from.
module Versions {
  import opened Prelude
  import opened DocumentTable
  import opened YDocument

  type VersionId = int

  datatype Kind = Auto | Manual | RestorePoint

  datatype Version = Version(document: Id, kind: Kind, state: YDoc)

  // A live copy and the client number its own changes carry.
  datatype Copy = Copy(doc: YDoc, me: nat)

  // `auto` is the unique index that finds a document's automatic row.
  datatype State = State(
    table: Table,
    pro: set<Id>,
    live: map<Id, Copy>,
    auto: map<Id, VersionId>,
    rows: map<VersionId, Version>)

  /** The index and the automatic rows match, so no document has two of them. */
  ghost predicate Indexed(s: State) {
    && (forall d :: d in s.auto ==> s.auto[d] in s.rows && s.rows[s.auto[d]].kind == Auto && s.rows[s.auto[d]].document == d)
    && (forall v :: v in s.rows && s.rows[v].kind == Auto ==> s.rows[v].document in s.auto && s.auto[s.rows[v].document] == v)
  }

  /** The live copy; failing that the automatic row; failing that an empty document. */
  function CurrentState(s: State, d: Id): YDoc {
    if d in s.live then s.live[d].doc
    else if d in s.auto && s.auto[d] in s.rows then s.rows[s.auto[d]].state
    else EMPTY_DOC
  }

  /** Opens the document if it is not open; `me` is the new copy's client number. */
  function Hydrated(s: State, d: Id, me: nat): State {
    if d in s.live then s else s.(live := s.live[d := Copy(CurrentState(s, d), me)])
  }

  function ApplyRestored(s: State, d: Id, source: YDoc, me: nat): State {
    var h := Hydrated(s, d, me);
    var copy := h.live[d];
    h.(live := h.live[d := copy.(doc := Replaced(copy.doc, source, copy.me))])
  }

  function Saved(s: State, d: Id, kind: Kind, id: VersionId): State {
    s.(rows := s.rows[id := Version(d, kind, CurrentState(s, d))])
  }

  /** `id` is the fresh key of the row. */
  function CreateVersion(s: State, w: Id, d: Id, id: VersionId): Result<State, Error> {
    if w !in s.pro then Err(LimitExceeded)
    else if !Scoped(s.table, w, d) then Err(NotFound)
    else if s.table[d].Archived() then Err(DocumentArchived)
    else Ok(Saved(s, d, Manual, id))
  }

  /** The first half of a restore: the checks, and the restore point. The version may be of any kind. */
  function SavePoint(s: State, w: Id, d: Id, v: VersionId, id: VersionId): Result<State, Error> {
    if !Scoped(s.table, w, d) then Err(NotFound)
    else if s.table[d].Archived() then Err(DocumentArchived)
    else if v !in s.rows || s.rows[v].document != d then Err(NotFound)
    else Ok(Saved(s, d, RestorePoint, id))
  }

  /** A restore that nothing interrupts. */
  function RestoreVersion(s: State, w: Id, d: Id, v: VersionId, id: VersionId, me: nat): Result<State, Error> {
    match SavePoint(s, w, d, v, id)
    case Err(e) => Err(e)
    case Ok(saved) => Ok(ApplyRestored(saved, d, s.rows[v].state, me))
  }

  /** Overwrites the automatic row with `state`, or creates it. */
  function Flushed(s: State, d: Id, state: YDoc, id: VersionId): State {
    if d in s.auto && s.auto[d] in s.rows
    then s.(rows := s.rows[s.auto[d] := s.rows[s.auto[d]].(state := state)])
    else s.(rows := s.rows[id := Version(d, Auto, state)], auto := s.auto[d := id])
  }

  // ----- one restore -----

  /** A restore of a row of an active document always goes through, and nothing else does. */
  lemma RestoreSucceedsExactly(s: State, w: Id, d: Id, v: VersionId, id: VersionId, me: nat)
    ensures RestoreVersion(s, w, d, v, id, me).Ok? <==>
            Scoped(s.table, w, d) && !s.table[d].Archived() && v in s.rows && s.rows[v].document == d
  {
  }

  lemma HydratedKeepsCurrent(s: State, d: Id, me: nat)
    ensures d in Hydrated(s, d, me).live && Hydrated(s, d, me).live[d].doc == CurrentState(s, d)
    ensures forall e :: CurrentState(Hydrated(s, d, me), e) == CurrentState(s, e)
  {
  }

  lemma AppliedElsewhere(s: State, d: Id, source: YDoc, me: nat, e: Id)
    requires e != d
    ensures CurrentState(ApplyRestored(s, d, source, me), e) == CurrentState(s, e)
  {
    HydratedKeepsCurrent(s, d, me);
  }

  /** A manual version needs PRO and an active document of the workspace; the reasons for a refusal, in order. */
  lemma CreateSucceedsExactly(s: State, w: Id, d: Id, id: VersionId)
    ensures var r := CreateVersion(s, w, d, id);
            var missing := d !in s.table || s.table[d].workspace != w;
            && (r == Err(LimitExceeded) <==> w !in s.pro)
            && (r == Err(NotFound) <==> w in s.pro && missing)
            && (r == Err(DocumentArchived) <==> w in s.pro && !missing && s.table[d].archivedAt.Some?)
            && (r.Ok? <==> w in s.pro && !missing && s.table[d].archivedAt.None?)
  {
  }

  /** It adds one manual row with what is current, and changes nothing else. */
  lemma CreateAdds(s: State, w: Id, d: Id, id: VersionId)
    requires id !in s.rows && CreateVersion(s, w, d, id).Ok?
    ensures var s' := CreateVersion(s, w, d, id).value;
            && s'.rows.Keys == s.rows.Keys + {id} && (forall v :: v in s.rows ==> s'.rows[v] == s.rows[v])
            && s'.rows[id].document == d && s'.rows[id].kind == Manual && s'.rows[id].state == CurrentState(s, d)
            && s'.live == s.live && s'.auto == s.auto && s'.table == s.table && s'.pro == s.pro
  {
  }

  /** Why a restore is refused: the first of these that holds. PRO is not needed. */
  lemma RestoreRefusedExactly(s: State, w: Id, d: Id, v: VersionId, id: VersionId, me: nat)
    ensures var r := RestoreVersion(s, w, d, v, id, me);
            var missing := d !in s.table || s.table[d].workspace != w;
            var archived := !missing && s.table[d].archivedAt.Some?;
            var foreign := v !in s.rows || s.rows[v].document != d;
            && (r == Err(NotFound) <==> missing || (!archived && foreign))
            && (r == Err(DocumentArchived) <==> archived)
            && (r.Ok? <==> !missing && !archived && !foreign)
  {
  }

  /** What is current: the live copy before the stored one, and an empty document if there is neither. */
  lemma CurrentStateExactly(s: State, d: Id, v: VersionId)
    requires Indexed(s)
    ensures d in s.live ==> CurrentState(s, d) == s.live[d].doc
    ensures d !in s.live && v in s.rows && s.rows[v].kind == Auto && s.rows[v].document == d ==>
              CurrentState(s, d) == s.rows[v].state
    ensures d !in s.live && (forall x :: x in s.rows ==> s.rows[x].kind != Auto || s.rows[x].document != d) ==>
              CurrentState(s, d) == EMPTY_DOC
  {
    if d in s.auto {
      var v' := s.auto[d];
      assert v' in s.rows && s.rows[v'].kind == Auto && s.rows[v'].document == d;
    }
  }

  /** Replacing shows the source, loses no operation, and touches no other document. */
  lemma AppliedShows(s: State, d: Id, source: YDoc, me: nat)
    ensures var s' := ApplyRestored(s, d, source, me);
            && d in s'.live
            && View(s'.live[d].doc) == View(source)
            && Operations(CurrentState(s, d)) <= Operations(s'.live[d].doc)
            && s'.rows == s.rows && s'.table == s.table && s'.auto == s.auto
            && (forall e :: e != d ==> CurrentState(s', e) == CurrentState(s, e))
  {
    HydratedKeepsCurrent(s, d, me);
    var copy := Hydrated(s, d, me).live[d];
    ReplacedView(copy.doc, source, copy.me);
    ReplacedGrows(copy.doc, source, copy.me);
    forall e | e != d ensures CurrentState(ApplyRestored(s, d, source, me), e) == CurrentState(s, e) {
      AppliedElsewhere(s, d, source, me, e);
    }
  }

  lemma SavedKeepsCurrent(s: State, d: Id, kind: Kind, id: VersionId, e: Id)
    requires Indexed(s) && id !in s.rows
    ensures CurrentState(Saved(s, d, kind, id), e) == CurrentState(s, e)
  {
  }

  /**
   * The reader sees the version, no operation of what was there is lost, and
   * what was there is saved as the restore point.
   */
  lemma RestoreShows(s: State, w: Id, d: Id, v: VersionId, id: VersionId, me: nat)
    requires Indexed(s) && id !in s.rows && RestoreVersion(s, w, d, v, id, me).Ok?
    ensures var s' := RestoreVersion(s, w, d, v, id, me).value;
            && d in s'.live
            && View(s'.live[d].doc) == View(s.rows[v].state)
            && Operations(CurrentState(s, d)) <= Operations(s'.live[d].doc)
            && s'.rows == s.rows[id := Version(d, RestorePoint, CurrentState(s, d))]
            && (forall e :: e != d ==> CurrentState(s', e) == CurrentState(s, e))
            && s'.table == s.table && s'.auto == s.auto
  {
    var saved := Saved(s, d, RestorePoint, id);
    forall e ensures CurrentState(saved, e) == CurrentState(s, e) { SavedKeepsCurrent(s, d, RestorePoint, id, e); }
    AppliedShows(saved, d, s.rows[v].state, me);
  }

  /** The previews of the version and of the restored document are equal. */
  lemma RestoreShowsSnapshot(s: State, w: Id, d: Id, v: VersionId, id: VersionId, me: nat)
    requires Indexed(s) && id !in s.rows && RestoreVersion(s, w, d, v, id, me).Ok?
    ensures EncodeBlocksSnapshot(RestoreVersion(s, w, d, v, id, me).value.live[d].doc)
         == EncodeBlocksSnapshot(s.rows[v].state)
  {
    RestoreShows(s, w, d, v, id, me);
    SnapshotOfView(s.rows[v].state, RestoreVersion(s, w, d, v, id, me).value.live[d].doc);
  }

  ghost predicate Healthy(s: State) {
    && (forall d :: d in s.live ==> NoDuplicates(Ids(s.live[d].doc.blocks)))
    && (forall v :: v in s.rows ==> NoDuplicates(Ids(s.rows[v].state.blocks)))
  }

  lemma CurrentHealthy(s: State, d: Id)
    requires Healthy(s)
    ensures NoDuplicates(Ids(CurrentState(s, d).blocks))
  {
    var doc := CurrentState(s, d);
    if d in s.live {
      assert doc == s.live[d].doc;
    } else if d in s.auto && s.auto[d] in s.rows {
      var v := s.auto[d];
      assert v in s.rows && doc == s.rows[v].state;
    } else {
      assert doc.blocks == [];
    }
  }

  /** Everywhere, items keep distinct ids. */
  lemma RestoreKeepsHealthy(s: State, w: Id, d: Id, v: VersionId, id: VersionId, me: nat)
    requires Healthy(s) && RestoreVersion(s, w, d, v, id, me).Ok?
    ensures Healthy(RestoreVersion(s, w, d, v, id, me).value)
  {
    var saved := Saved(s, d, RestorePoint, id);
    CurrentHealthy(s, d);
    assert forall x :: x in saved.rows ==> x == id || x in s.rows;
    CurrentHealthy(saved, d);
    var copy := Hydrated(saved, d, me).live[d];
    ReplacedIdsDistinct(copy.doc, s.rows[v].state, copy.me);
  }

  // ----- whole runs -----

  // An edit may leave any live document; a flush may write any state, such as
  // that of a session evicted long ago; closing stores the live copy first.
  datatype Event =
    | Created(w: Id, d: Id, id: VersionId)
    | Restored(w: Id, d: Id, v: VersionId, id: VersionId, me: nat)
    | Edited(d: Id, doc: YDoc)
    | Opened(d: Id, me: nat)
    | FlushFired(d: Id, state: YDoc, id: VersionId)
    | Closed(d: Id, id: VersionId)
    | Changed(table: Table, pro: set<Id>)

  predicate FreshKey(s: State, e: Event) {
    e.Created? || e.Restored? || e.FlushFired? || e.Closed? ==> e.id !in s.rows
  }

  function Next(s: State, e: Event): State {
    match e
    case Created(w, d, id) => var r := CreateVersion(s, w, d, id); if r.Ok? then r.value else s
    case Restored(w, d, v, id, me) => var r := RestoreVersion(s, w, d, v, id, me); if r.Ok? then r.value else s
    case Edited(d, doc) => if d in s.live then s.(live := s.live[d := s.live[d].(doc := doc)]) else s
    case Opened(d, me) => Hydrated(s, d, me)
    case FlushFired(d, state, id) => Flushed(s, d, state, id)
    case Closed(d, id) =>
      if d in s.live then Flushed(s, d, s.live[d].doc, id).(live := s.live - {d}) else s
    case Changed(table, pro) => s.(table := table, pro := pro)
  }

  predicate FreshKeys(s: State, events: seq<Event>)
    decreases |events|
  {
    events != [] ==> FreshKey(s, events[0]) && FreshKeys(Next(s, events[0]), events[1..])
  }

  function Run(s: State, events: seq<Event>): State
    decreases |events|
  {
    if events == [] then s else Run(Next(s, events[0]), events[1..])
  }

  /** Rows of the history stay as they are, and no row goes. */
  ghost predicate KeepsHistory(s: State, s': State) {
    forall v :: v in s.rows ==> v in s'.rows && (s.rows[v].kind != Auto ==> s'.rows[v] == s.rows[v])
  }

  /** A flush leaves the document with one automatic row, which holds what was written; every other row stays. */
  lemma FlushExactly(s: State, d: Id, state: YDoc, id: VersionId, v: VersionId)
    requires Indexed(s) && id !in s.rows
    ensures var s' := Flushed(s, d, state, id);
            && (v in s'.rows && s'.rows[v].kind == Auto && s'.rows[v].document == d ==> s'.rows[v].state == state)
            && d in s'.auto && s'.auto[d] in s'.rows && s'.rows[s'.auto[d]] == Version(d, Auto, state)
            && (v in s.rows && (s.rows[v].kind != Auto || s.rows[v].document != d) ==> v in s'.rows && s'.rows[v] == s.rows[v])
            && s'.live == s.live
  {
    FlushKeeps(s, d, state, id);
  }

  lemma FlushKeeps(s: State, d: Id, state: YDoc, id: VersionId)
    requires Indexed(s) && id !in s.rows
    ensures Indexed(Flushed(s, d, state, id)) && KeepsHistory(s, Flushed(s, d, state, id))
  {
  }

  lemma SaveKeeps(s: State, d: Id, kind: Kind, id: VersionId)
    requires Indexed(s) && id !in s.rows && kind != Auto
    ensures Indexed(Saved(s, d, kind, id)) && KeepsHistory(s, Saved(s, d, kind, id))
  {
  }

  /** A step keeps the index right and overwrites automatic rows only. */
  lemma NextKeeps(s: State, e: Event)
    requires Indexed(s) && FreshKey(s, e)
    ensures Indexed(Next(s, e)) && KeepsHistory(s, Next(s, e))
  {
    match e {
      case Created(_, d, id) => SaveKeeps(s, d, Manual, id);
      case Restored(_, d, _, id, _) => SaveKeeps(s, d, RestorePoint, id);
      case FlushFired(d, state, id) => FlushKeeps(s, d, state, id);
      case Closed(d, id) => if d in s.live { FlushKeeps(s, d, s.live[d].doc, id); }
      case _ =>
    }
  }

  lemma {:induction false} RunIndexed(s: State, events: seq<Event>)
    requires Indexed(s) && FreshKeys(s, events)
    ensures Indexed(Run(s, events))
    decreases |events|
  {
    if events != [] {
      NextKeeps(s, events[0]);
      RunIndexed(Next(s, events[0]), events[1..]);
    }
  }

  /** No manual version and no restore point ever changes or goes, whatever is flushed when. */
  lemma {:induction false} HistoryKept(s: State, events: seq<Event>, v: VersionId)
    requires Indexed(s) && FreshKeys(s, events) && v in s.rows && s.rows[v].kind != Auto
    ensures v in Run(s, events).rows && Run(s, events).rows[v] == s.rows[v]
    decreases |events|
  {
    if events != [] {
      NextKeeps(s, events[0]);
      HistoryKept(Next(s, events[0]), events[1..], v);
    }
  }

  /** Whatever happens in between, restoring such a row shows what it held when it was saved. */
  lemma RestoreAnyTimeLater(s: State, events: seq<Event>, w: Id, d: Id, v: VersionId, id: VersionId, me: nat)
    requires Indexed(s) && FreshKeys(s, events) && v in s.rows && s.rows[v].kind != Auto
    requires id !in Run(s, events).rows && RestoreVersion(Run(s, events), w, d, v, id, me).Ok?
    ensures View(RestoreVersion(Run(s, events), w, d, v, id, me).value.live[d].doc) == View(s.rows[v].state)
  {
    RunIndexed(s, events);
    HistoryKept(s, events, v);
    RestoreShows(Run(s, events), w, d, v, id, me);
  }

  /** Restoring the restore point a restore returned gives back what that restore replaced. */
  lemma RestoreUndone(s: State, w: Id, d: Id, v: VersionId, point: VersionId, me: nat,
                      events: seq<Event>, id: VersionId, me': nat)
    requires Indexed(s) && point !in s.rows && RestoreVersion(s, w, d, v, point, me).Ok?
    requires FreshKeys(RestoreVersion(s, w, d, v, point, me).value, events)
    requires var later := Run(RestoreVersion(s, w, d, v, point, me).value, events);
             id !in later.rows && Scoped(later.table, w, d) && !later.table[d].Archived()
    ensures var later := Run(RestoreVersion(s, w, d, v, point, me).value, events);
            var undone := RestoreVersion(later, w, d, point, id, me');
            undone.Ok? && View(undone.value.live[d].doc) == View(CurrentState(s, d))
  {
    var restored := RestoreVersion(s, w, d, v, point, me).value;
    NextKeeps(s, Restored(w, d, v, point, me));
    RestoreShows(s, w, d, v, point, me);
    HistoryKept(restored, events, point);
    RestoreAnyTimeLater(restored, events, w, d, point, id, me');
  }

  /** A manual version, restored any time later, gives back what was current when it was made. */
  lemma ManualRoundTrip(s: State, w: Id, d: Id, v: VersionId, events: seq<Event>, id: VersionId, me: nat)
    requires Indexed(s) && v !in s.rows && CreateVersion(s, w, d, v).Ok?
    requires FreshKeys(CreateVersion(s, w, d, v).value, events)
    requires var later := Run(CreateVersion(s, w, d, v).value, events);
             id !in later.rows && Scoped(later.table, w, d) && !later.table[d].Archived()
    ensures var later := Run(CreateVersion(s, w, d, v).value, events);
            var restored := RestoreVersion(later, w, d, v, id, me);
            restored.Ok? && View(restored.value.live[d].doc) == View(CurrentState(s, d))
  {
    var created := CreateVersion(s, w, d, v).value;
    NextKeeps(s, Created(w, d, v));
    HistoryKept(created, events, v);
    RestoreAnyTimeLater(created, events, w, d, v, id, me);
  }

  // ----- a restore that is interrupted -----

  /**
   * Between saving the restore point and replacing the blocks anything may
   * happen. Readers still end with the version, and no operation is lost.
   */
  lemma InterruptedRestore(s: State, w: Id, d: Id, v: VersionId, point: VersionId, between: seq<Event>, me: nat)
    requires Indexed(s) && point !in s.rows && SavePoint(s, w, d, v, point).Ok?
    requires FreshKeys(SavePoint(s, w, d, v, point).value, between)
    ensures var before := Run(SavePoint(s, w, d, v, point).value, between);
            var after := ApplyRestored(before, d, s.rows[v].state, me);
            && d in after.live && View(after.live[d].doc) == View(s.rows[v].state)
            && Operations(CurrentState(before, d)) <= Operations(after.live[d].doc)
            && point in after.rows && after.rows[point].state == CurrentState(s, d)
  {
    var saved := SavePoint(s, w, d, v, point).value;
    SaveKeeps(s, d, RestorePoint, point);
    HistoryKept(saved, between, point);
    AppliedShows(Run(saved, between), d, s.rows[v].state, me);
  }

  /**
   * What may happen to the document in between: edits of it, other restores of
   * it, and flushes while it has no live copy, which write an older session's state.
   */
  datatype Traffic = Traffic(edits: bool, restores: bool, lateFlushes: bool)

  predicate Admitted(p: Traffic, s: State, d: Id, e: Event) {
    match e
    case Edited(x, _) => x == d ==> p.edits
    case Restored(_, x, _, _, _) => x == d ==> p.restores
    case FlushFired(x, _, _) => x == d && d !in s.live ==> p.lateFlushes
    case _ => true
  }

  predicate AllAdmitted(p: Traffic, s: State, d: Id, events: seq<Event>)
    decreases |events|
  {
    events != [] ==> Admitted(p, s, d, events[0]) && AllAdmitted(p, Next(s, events[0]), d, events[1..])
  }

  /** A restore that gets as far as its restore point, and what happens next. */
  ghost predicate Interrupted(p: Traffic, s: State, w: Id, d: Id, v: VersionId, point: VersionId, between: seq<Event>) {
    && Indexed(s) && point !in s.rows && SavePoint(s, w, d, v, point).Ok?
    && FreshKeys(SavePoint(s, w, d, v, point).value, between)
    && AllAdmitted(p, SavePoint(s, w, d, v, point).value, d, between)
  }

  /** The state that is about to be replaced. */
  function AboutToGo(s: State, w: Id, d: Id, v: VersionId, point: VersionId, between: seq<Event>): State
    requires SavePoint(s, w, d, v, point).Ok?
  {
    Run(SavePoint(s, w, d, v, point).value, between)
  }

  /** The restore point always shows what the replacement takes from readers. */
  ghost predicate NothingLost(p: Traffic) {
    forall s, w, d, v, point, between :: Interrupted(p, s, w, d, v, point, between) ==>
      var before := AboutToGo(s, w, d, v, point, between);
      point in before.rows && View(before.rows[point].state) == View(CurrentState(before, d))
  }

  lemma FlushElsewhere(s: State, d: Id, x: Id, state: YDoc, id: VersionId)
    requires Indexed(s) && id !in s.rows && (x != d || d in s.live)
    ensures CurrentState(Flushed(s, x, state, id), d) == CurrentState(s, d)
  {
  }

  lemma ClosingKeepsCurrent(s: State, d: Id, x: Id, id: VersionId)
    requires Indexed(s) && id !in s.rows
    ensures CurrentState(Next(s, Closed(x, id)), d) == CurrentState(s, d)
  {
    if x in s.live && x != d { FlushElsewhere(s, d, x, s.live[x].doc, id); }
  }

  /** Without such traffic a step leaves the current state of the document alone. */
  lemma NextKeepsCurrent(s: State, d: Id, e: Event)
    requires Indexed(s) && FreshKey(s, e) && Admitted(Traffic(false, false, false), s, d, e)
    ensures CurrentState(Next(s, e), d) == CurrentState(s, d)
  {
    match e {
      case Created(_, x, id) => SavedKeepsCurrent(s, x, Manual, id, d);
      case Restored(w, x, v, id, me) =>
        if RestoreVersion(s, w, x, v, id, me).Ok? { RestoreShows(s, w, x, v, id, me); }
      case FlushFired(x, state, id) => FlushElsewhere(s, d, x, state, id);
      case Closed(x, id) => ClosingKeepsCurrent(s, d, x, id);
      case Opened(x, me) => HydratedKeepsCurrent(s, x, me);
      case _ =>
    }
  }

  lemma {:induction false} RunKeepsCurrent(s: State, d: Id, events: seq<Event>)
    requires Indexed(s) && FreshKeys(s, events) && AllAdmitted(Traffic(false, false, false), s, d, events)
    ensures CurrentState(Run(s, events), d) == CurrentState(s, d)
    decreases |events|
  {
    if events != [] {
      NextKeeps(s, events[0]);
      NextKeepsCurrent(s, d, events[0]);
      RunKeepsCurrent(Next(s, events[0]), d, events[1..]);
    }
  }

  // A document with one block.
  const ONE_BLOCK := YDoc([Block(ItemId(7, 0), [])], [])
  const ROW := Doc(1, 1, None, POSITION_STEP, None, false, None, None)

  /** Document 1, open or not, is empty; versions 5 and 8 of it are empty and have one block. */
  function Opening(open: bool): State {
    State(map[1 := ROW], {}, if open then map[1 := Copy(EMPTY_DOC, 9)] else map[], map[],
          map[5 := Version(1, Manual, EMPTY_DOC), 8 := Version(1, Manual, ONE_BLOCK)])
  }

  /** The restore of version 5, up to its restore point 6. */
  function AtPoint(open: bool): State {
    Saved(Opening(open), 1, RestorePoint, 6)
  }

  lemma OneInterruption(p: Traffic, s: State, w: Id, d: Id, v: VersionId, point: VersionId, e: Event)
    requires Indexed(s) && point !in s.rows && SavePoint(s, w, d, v, point).Ok?
    requires var saved := SavePoint(s, w, d, v, point).value; FreshKey(saved, e) && Admitted(p, saved, d, e)
    ensures Interrupted(p, s, w, d, v, point, [e])
    ensures AboutToGo(s, w, d, v, point, [e]) == Next(SavePoint(s, w, d, v, point).value, e)
  {
    var next := Next(SavePoint(s, w, d, v, point).value, e);
    assert [e][1..] == [];
    assert FreshKeys(next, []) && AllAdmitted(p, next, d, []) && Run(next, []) == next;
  }

  lemma OneEvent(p: Traffic, open: bool, e: Event)
    requires Admitted(p, AtPoint(open), 1, e) && FreshKey(AtPoint(open), e)
    requires 6 in Next(AtPoint(open), e).rows && Next(AtPoint(open), e).rows[6].state == EMPTY_DOC
    requires View(CurrentState(Next(AtPoint(open), e), 1)) == View(ONE_BLOCK)
    ensures !NothingLost(p)
  {
    assert SavePoint(Opening(open), 1, 1, 5, 6) == Ok(AtPoint(open));
    OneInterruption(p, Opening(open), 1, 1, 5, 6, e);
    OneBlockShows();
  }

  lemma OneBlockShows()
    ensures |View(ONE_BLOCK)| == 1 && View(EMPTY_DOC) == []
  {
    assert ONE_BLOCK.blocks[1..] == [];
    assert Visible(ONE_BLOCK.blocks, []) == ONE_BLOCK.blocks;
  }

  /** An edit accepted in between is neither in the restore point nor in what readers see afterwards. */
  lemma EditOvertaken(me: nat)
    ensures var edited := Next(AtPoint(true), Edited(1, ONE_BLOCK));
            var after := ApplyRestored(edited, 1, EMPTY_DOC, me);
            && SavePoint(Opening(true), 1, 1, 5, 6) == Ok(AtPoint(true))
            && |View(CurrentState(edited, 1))| == 1
            && View(after.rows[6].state) == [] && View(after.live[1].doc) == []
  {
    OneBlockShows();
    AppliedShows(Next(AtPoint(true), Edited(1, ONE_BLOCK)), 1, EMPTY_DOC, me);
  }

  lemma LostToEdit(p: Traffic)
    requires p.edits
    ensures !NothingLost(p)
  {
    OneEvent(p, true, Edited(1, ONE_BLOCK));
  }

  /** Of two overlapping restores, the second takes away what the first brought, and nobody saved it. */
  lemma LostToRestore(p: Traffic)
    requires p.restores
    ensures !NothingLost(p)
  {
    var e := Restored(1, 1, 8, 10, 11);
    AppliedShows(Saved(AtPoint(true), 1, RestorePoint, 10), 1, ONE_BLOCK, 11);
    assert RestoreVersion(AtPoint(true), 1, 1, 8, 10, 11).Ok?;
    OneEvent(p, true, e);
  }

  /** With no live copy, a late flush changes what the document is. */
  lemma LostToFlush(p: Traffic)
    requires p.lateFlushes
    ensures !NothingLost(p)
  {
    OneEvent(p, false, FlushFired(1, ONE_BLOCK, 10));
  }

  /**
   * A restore never takes anything from readers that its restore point does not
   * give back if and only if, between its two steps, the document is not edited,
   * not restored otherwise, and not flushed while it has no live copy.
   */
  lemma NothingLostExactly(p: Traffic)
    ensures NothingLost(p) <==> !p.edits && !p.restores && !p.lateFlushes
  {
    if p.edits {
      LostToEdit(p);
    } else if p.restores {
      LostToRestore(p);
    } else if p.lateFlushes {
      LostToFlush(p);
    } else {
      forall s, w, d, v, point, between | Interrupted(p, s, w, d, v, point, between)
        ensures var before := AboutToGo(s, w, d, v, point, between);
                point in before.rows && View(before.rows[point].state) == View(CurrentState(before, d))
      {
        var saved := SavePoint(s, w, d, v, point).value;
        SaveKeeps(s, d, RestorePoint, point);
        SavedKeepsCurrent(s, d, RestorePoint, point, d);
        HistoryKept(saved, between, point);
        RunKeepsCurrent(saved, d, between);
      }
    }
  }

  // ----- the service -----

  class VersionsService {
    var table: Table
    var pro: set<Id>
    var live: map<Id, LiveDocument>
    var auto: map<Id, VersionId>
    var rows: map<VersionId, Version>

    constructor (table: Table, pro: set<Id>)
      ensures Valid() && Abstract() == State(table, pro, map[], map[], map[])
    {
      this.table, this.pro := table, pro;
      live, auto, rows := map[], map[], map[];
    }

    ghost function Copies(): set<object>
      reads this
    {
      set d | d in live :: live[d]
    }

    /** Two documents never share a copy. */
    ghost predicate Valid()
      reads this
    {
      forall d, e :: d in live && e in live && d != e ==> live[d] != live[e]
    }

    ghost function Abstract(): State
      reads this, Copies()
    {
      State(table, pro, map d | d in live :: Copy(live[d].doc, live[d].me), auto, rows)
    }

    method GetCurrentState(d: Id) returns (state: YDoc)
      ensures state == CurrentState(Abstract(), d)
    {
      if d in live {
        return live[d].doc;
      }
      return if d in auto && auto[d] in rows then rows[auto[d]].state else EMPTY_DOC;
    }

    method GetOrCreateHydratedCopy(d: Id, me: nat) returns (copy: LiveDocument)
      requires Valid()
      modifies this`live
      ensures Valid() && d in live && live[d] == copy
      ensures copy in old(Copies()) || fresh(copy)
      ensures Abstract() == Hydrated(old(Abstract()), d, me)
      ensures forall e :: e in live && e != d ==> live[e] in old(Copies())
    {
      if d in live {
        return live[d];
      }
      var current := GetCurrentState(d);
      copy := new LiveDocument(current, me);
      live := live[d := copy];
    }

    method ApplyRestoredState(d: Id, source: YDoc, me: nat)
      requires Valid()
      modifies this`live, Copies()
      ensures Valid()
      ensures Abstract() == ApplyRestored(old(Abstract()), d, source, me)
    {
      var copy := GetOrCreateHydratedCopy(d, me);
      ghost var h := Abstract();
      copy.ReplaceBlocksContent(source);
      ghost var replaced := Copy(Replaced(h.live[d].doc, source, h.live[d].me), h.live[d].me);
      assert Abstract().live[d] == replaced;
      assert forall e :: e in live && e != d ==> Abstract().live[e] == h.live[e];
      assert Abstract().live == h.live[d := replaced];
    }

    method Create(w: Id, d: Id, id: VersionId) returns (r: Result<VersionId, Error>)
      requires Valid()
      modifies this`rows
      ensures Valid()
      ensures var spec := CreateVersion(old(Abstract()), w, d, id);
              && (spec.Ok? ==> r == Ok(id) && Abstract() == spec.value)
              && (spec.Err? ==> r == Err(spec.error) && Abstract() == old(Abstract()))
    {
      if w !in pro {
        return Err(LimitExceeded);
      }
      if !Scoped(table, w, d) {
        return Err(NotFound);
      }
      if table[d].Archived() {
        return Err(DocumentArchived);
      }
      var state := GetCurrentState(d);
      rows := rows[id := Version(d, Manual, state)];
      return Ok(id);
    }

    /** Returns the key of the restore point; what was there is saved before it is replaced. */
    method Restore(w: Id, d: Id, v: VersionId, id: VersionId, me: nat) returns (r: Result<VersionId, Error>)
      requires Valid() && id !in rows
      modifies this, Copies()
      ensures Valid()
      ensures var spec := RestoreVersion(old(Abstract()), w, d, v, id, me);
              && (spec.Ok? ==> r == Ok(id) && Abstract() == spec.value)
              && (spec.Err? ==> r == Err(spec.error) && Abstract() == old(Abstract()))
    {
      if !Scoped(table, w, d) {
        return Err(NotFound);
      }
      if table[d].Archived() {
        return Err(DocumentArchived);
      }
      if v !in rows || rows[v].document != d {
        return Err(NotFound);
      }
      var target := rows[v].state;
      var state := GetCurrentState(d);
      rows := rows[id := Version(d, RestorePoint, state)];
      assert Abstract() == Saved(old(Abstract()), d, RestorePoint, id);
      ApplyRestoredState(d, target, me);
      return Ok(id);
    }

    /** The persistence service's upsert of the one automatic row. */
    method Flush(d: Id, state: YDoc, id: VersionId)
      requires Valid()
      modifies this`rows, this`auto
      ensures Valid()
      ensures Abstract() == Flushed(old(Abstract()), d, state, id)
    {
      if d in auto && auto[d] in rows {
        var existing := rows[auto[d]];
        existing := existing.(state := state);
        rows := rows[auto[d] := existing];
      } else {
        rows := rows[id := Version(d, Auto, state)];
        auto := auto[d := id];
      }
    }
  }
}
