// The tree cache of one workspace under interleaved requests: lookups, reads
// of the table, stores and invalidations are separate steps, and invalidations
// may fail.
module TreeCache {
  import opened Prelude
  import opened DocumentTable

  // What `list` reads: the rows of the workspace in position order.
  type Rows = seq<Doc>
  type Request = int

  // How long an entry is served, in milliseconds.
  const TTL: Time := 60_000

  // A content of the table, and since when it was the content.
  datatype Past = Past(rows: Rows, since: Time)

  // A cached answer: what its fill read, how many contents the table had had by
  // then, and when the fill looked the answer up, read the table and stored it.
  datatype Entry = Entry(rows: Rows, seen: nat, began: Time, readAt: Time, storedAt: Time)

  datatype Reading = Reading(rows: Rows, seen: nat, at: Time)

  // A request that missed, and what it has read since.
  datatype Fill = Fill(began: Time, reading: Option<Reading>)

  // `writers` have committed and not yet invalidated; each is recorded with the
  // index of what it wrote.
  datatype World = World(
    now: Time,
    history: seq<Past>,
    cache: Option<Entry>,
    fills: map<Request, Fill>,
    writers: map<Request, nat>)

  datatype Event =
    | Tick(to: Time)
    | Write(r: Request, rows: Rows)
    | Invalidate(r: Request)
    | InvalidateFails(r: Request)
    | Hit
    | Miss(r: Request)
    | Read(r: Request)
    | Store(r: Request)
    | StoreFails(r: Request)
    | Expire

  // An answer of `list` and how long the fill that produced it took.
  datatype Answer = Answer(rows: Rows, fillTime: Time)

  function Start(rows: Rows): World {
    World(0, [Past(rows, 0)], None, map[], map[])
  }

  function Current(w: World): Rows
    requires w.history != []
  {
    w.history[|w.history| - 1].rows
  }

  predicate HasRead(w: World, r: Request) {
    r in w.fills && w.fills[r].reading.Some?
  }

  /** An unreachable cache counts as a miss, so a miss is always possible. */
  predicate Enabled(w: World, e: Event) {
    match e
    case Tick(to) => w.now <= to
    case Write(r, _) => r !in w.writers
    case Invalidate(r) => r in w.writers
    case InvalidateFails(r) => r in w.writers
    case Hit => w.cache.Some? && w.now <= w.cache.value.storedAt + TTL
    case Miss(r) => r !in w.fills
    case Read(r) => r in w.fills && w.fills[r].reading.None?
    case Store(r) => HasRead(w, r)
    case StoreFails(r) => HasRead(w, r)
    case Expire => true
  }

  function Stored(w: World, r: Request): World
    requires HasRead(w, r)
  {
    var f := w.fills[r];
    var read := f.reading.value;
    w.(cache := Some(Entry(read.rows, read.seen, f.began, read.at, w.now)), fills := w.fills - {r})
  }

  function Next(w: World, e: Event): World
    requires Enabled(w, e) && w.history != []
  {
    match e
    case Tick(to) => w.(now := to)
    case Write(r, rows) => w.(history := w.history + [Past(rows, w.now)], writers := w.writers[r := |w.history|])
    case Invalidate(r) => w.(cache := None, writers := w.writers - {r})
    case InvalidateFails(r) => w.(writers := w.writers - {r})
    case Hit => w
    case Miss(r) => w.(fills := w.fills[r := Fill(w.now, None)])
    case Read(r) =>
      w.(fills := w.fills[r := w.fills[r].(reading := Some(Reading(Current(w), |w.history|, w.now)))])
    case Store(r) => Stored(w, r)
    case StoreFails(r) => w.(fills := w.fills - {r})
    case Expire => w.(cache := None)
  }

  /** What the event answers to its caller, if it answers. */
  function AnswerOf(w: World, e: Event): Option<Answer>
    requires Enabled(w, e)
  {
    match e
    case Hit =>
      var entry := w.cache.value;
      Some(Answer(entry.rows, if entry.began <= entry.storedAt then entry.storedAt - entry.began else 0))
    case Store(r) => Some(OwnAnswer(w, r))
    case StoreFails(r) => Some(OwnAnswer(w, r))
    case _ => None
  }

  function OwnAnswer(w: World, r: Request): Answer
    requires HasRead(w, r)
  {
    var f := w.fills[r];
    Answer(f.reading.value.rows, if f.began <= w.now then w.now - f.began else 0)
  }

  // ----- runs -----

  /** The request that wrote content `i` is still to invalidate. */
  predicate UnderWay(writers: map<Request, nat>, i: nat) {
    exists r :: r in writers && writers[r] == i
  }

  /** A write that is not among the first `seen` is over: its request has invalidated, or failed to. */
  predicate Missed(writes: nat, writers: map<Request, nat>, seen: nat) {
    exists i :: seen <= i < writes && !UnderWay(writers, i)
  }

  /**
   * How things go: whether invalidations always succeed, and whether a fill
   * always stores before any write it has missed is over.
   */
  datatype Luck = Luck(reliable: bool, prompt: bool)

  const ANY := Luck(false, false)

  predicate Allowed(p: Luck, w: World, e: Event) {
    && Enabled(w, e)
    && (p.reliable ==> !e.InvalidateFails?)
    && (p.prompt && e.Store? ==> !Missed(|w.history|, w.writers, w.fills[e.r].reading.value.seen))
  }

  predicate CanRun(p: Luck, w: World, events: seq<Event>)
    requires w.history != []
    decreases |events|
  {
    events != [] ==> Allowed(p, w, events[0]) && CanRun(p, Next(w, events[0]), events[1..])
  }

  function Run(p: Luck, w: World, events: seq<Event>): (w': World)
    requires w.history != [] && CanRun(p, w, events)
    ensures w'.history != []
    decreases |events|
  {
    if events == [] then w else Run(p, Next(w, events[0]), events[1..])
  }

  ghost predicate Reachable(p: Luck, w: World) {
    exists rows, events :: CanRun(p, Start(rows), events) && Run(p, Start(rows), events) == w
  }

  lemma {:induction false} RunThen(p: Luck, w: World, events: seq<Event>, e: Event)
    requires w.history != [] && CanRun(p, w, events) && Allowed(p, Run(p, w, events), e)
    ensures CanRun(p, w, events + [e]) && Run(p, w, events + [e]) == Next(Run(p, w, events), e)
    decreases |events|
  {
    if events == [] {
      assert [e][1..] == [];
    } else {
      assert (events + [e])[1..] == events[1..] + [e];
      RunThen(p, Next(w, events[0]), events[1..], e);
    }
  }

  lemma Reach(p: Luck, w: World, e: Event) returns (w': World)
    requires Reachable(p, w) && w.history != [] && Allowed(p, w, e)
    ensures w' == Next(w, e) && Reachable(p, w')
  {
    var rows, events :| CanRun(p, Start(rows), events) && Run(p, Start(rows), events) == w;
    RunThen(p, Start(rows), events, e);
    w' := Next(w, e);
  }

  // ----- how old an answer can be -----

  /** At `time` the table held `rows`. */
  ghost predicate HeldAt(history: seq<Past>, i: nat, rows: Rows, time: Time) {
    i < |history| && history[i].rows == rows && history[i].since <= time
    && (i + 1 < |history| ==> time <= history[i + 1].since)
  }

  ghost predicate WasCurrent(history: seq<Past>, rows: Rows, time: Time) {
    exists i :: HeldAt(history, i, rows, time)
  }

  /** The rows were the table's content at most `age` ago. */
  ghost predicate NoOlderThan(w: World, rows: Rows, age: nat) {
    exists time: Time :: time <= w.now <= time + age && WasCurrent(w.history, rows, time)
  }

  /** What was read is the last of the contents seen then. */
  ghost predicate ReadingInv(w: World, rows: Rows, seen: nat, at: Time) {
    seen > 0 && at <= w.now && HeldAt(w.history, seen - 1, rows, at)
  }

  ghost predicate FillInv(w: World, f: Fill) {
    && f.began <= w.now
    && (f.reading.Some? ==>
          var read := f.reading.value;
          f.began <= read.at && ReadingInv(w, read.rows, read.seen, read.at))
  }

  ghost predicate EntryInv(w: World, e: Entry) {
    e.began <= e.readAt <= e.storedAt <= w.now && ReadingInv(w, e.rows, e.seen, e.readAt)
  }

  ghost predicate Inv(w: World) {
    && w.history != [] && w.history[|w.history| - 1].since <= w.now
    && (w.cache.Some? ==> EntryInv(w, w.cache.value))
    && (forall r :: r in w.fills ==> FillInv(w, w.fills[r]))
  }

  lemma StepKeeps(w: World, e: Event)
    requires Inv(w) && Enabled(w, e)
    ensures Inv(Next(w, e))
  {
    var w' := Next(w, e);
    match e {
      case Write(r, rows) =>
        forall x | x in w'.fills ensures FillInv(w', w'.fills[x]) { assert FillInv(w, w.fills[x]); }
      case Read(r) => assert FillInv(w, w.fills[r]);
      case Store(r) => assert FillInv(w, w.fills[r]);
      case _ =>
    }
  }

  lemma {:induction false} RunKeeps(p: Luck, w: World, events: seq<Event>)
    requires Inv(w) && CanRun(p, w, events)
    ensures Inv(Run(p, w, events))
    decreases |events|
  {
    if events != [] {
      StepKeeps(w, events[0]);
      RunKeeps(p, Next(w, events[0]), events[1..]);
    }
  }

  lemma ReachableKeeps(p: Luck, w: World)
    requires Reachable(p, w)
    ensures Inv(w)
  {
    var rows, events :| CanRun(p, Start(rows), events) && Run(p, Start(rows), events) == w;
    assert HeldAt(Start(rows).history, 0, rows, 0);
    RunKeeps(p, Start(rows), events);
  }

  lemma ReadingWasCurrent(w: World, rows: Rows, seen: nat, at: Time, age: nat)
    requires ReadingInv(w, rows, seen, at) && w.now <= at + age
    ensures NoOlderThan(w, rows, age)
  {
    assert WasCurrent(w.history, rows, at);
  }

  /** On every run every answer was the table at most one TTL and one fill ago. */
  lemma AnswersBounded(w: World, e: Event)
    requires Reachable(ANY, w) && Enabled(w, e) && AnswerOf(w, e).Some?
    ensures var answer := AnswerOf(w, e).value;
            NoOlderThan(w, answer.rows, TTL + answer.fillTime)
  {
    ReachableKeeps(ANY, w);
    var age := TTL + AnswerOf(w, e).value.fillTime;
    if e.Hit? {
      var entry := w.cache.value;
      assert EntryInv(w, entry);
      ReadingWasCurrent(w, entry.rows, entry.seen, entry.readAt, age);
    } else {
      assert FillInv(w, w.fills[e.r]);
      var read := w.fills[e.r].reading.value;
      ReadingWasCurrent(w, read.rows, read.seen, read.at, age);
    }
  }

  predicate GivesWithin(w: World, e: Event, d: Time)
    requires Enabled(w, e)
  {
    AnswerOf(w, e).Some? && AnswerOf(w, e).value.fillTime <= d
  }

  /** Every answer whose fill took at most `d` was the table at most one TTL ago. */
  ghost predicate TtlBoundHolds(d: Time) {
    forall w, e :: Reachable(ANY, w) && Enabled(w, e) && GivesWithin(w, e, d)
      ==> NoOlderThan(w, AnswerOf(w, e).value.rows, TTL)
  }

  // Two contents of the table.
  const NO_ROWS: Rows := []
  const ONE_ROW: Rows := [Doc(1, 1, None, POSITION_STEP, None, false, None, None)]

  /** A fill has read, and a write has come and gone since. */
  lemma ReadOvertaken(p: Luck) returns (w: World)
    ensures Reachable(p, w)
    ensures w == World(0, [Past(NO_ROWS, 0), Past(ONE_ROW, 0)], None, map[1 := Fill(0, Some(Reading(NO_ROWS, 1, 0)))], map[])
  {
    var w0 := Start(NO_ROWS);
    assert CanRun(p, w0, []) && Run(p, w0, []) == w0;
    var w1 := Reach(p, w0, Miss(1));
    var w2 := Reach(p, w1, Read(1));
    var w3 := Reach(p, w2, Write(2, ONE_ROW));
    w := Reach(p, w3, Invalidate(2));
    assert w.writers == map[];
  }

  /** Such a fill stores `d` later, and after one more TTL the old tree is still served. */
  lemma LateFillIsStale(p: Luck, d: Time) returns (w: World)
    requires !p.prompt
    ensures Reachable(p, w) && w.now == d + TTL && w.writers == map[]
    ensures w.history == [Past(NO_ROWS, 0), Past(ONE_ROW, 0)]
    ensures Enabled(w, Hit) && AnswerOf(w, Hit) == Some(Answer(NO_ROWS, d))
  {
    var w1 := ReadOvertaken(p);
    var w2 := Reach(p, w1, Tick(d));
    var w3 := Reach(p, w2, Store(1));
    w := Reach(p, w3, Tick(d + TTL));
  }

  /** The TTL alone bounds the age of an answer if and only if fills take no time. */
  lemma TtlBoundExactly(d: Time)
    ensures TtlBoundHolds(d) <==> d == 0
  {
    if d == 0 {
      forall w, e | Reachable(ANY, w) && Enabled(w, e) && GivesWithin(w, e, 0)
        ensures NoOlderThan(w, AnswerOf(w, e).value.rows, TTL)
      {
        AnswersBounded(w, e);
      }
    } else {
      var w := LateFillIsStale(ANY, d);
      assert GivesWithin(w, Hit, d);
      assert !NoOlderThan(w, NO_ROWS, TTL) by {
        forall time | WasCurrent(w.history, NO_ROWS, time) ensures time == 0 {
          var i :| HeldAt(w.history, i, NO_ROWS, time);
        }
      }
    }
  }

  // ----- when cached answers are exact -----

  /** Every write changed the rows to something they had not been before. */
  ghost predicate AllContentsDiffer(history: seq<Past>) {
    forall i, j :: 0 <= i < j < |history| ==> history[i].rows != history[j].rows
  }

  /** A hit answers the table as it is exactly when nothing has been written since the entry's fill read it. */
  lemma HitExactly(w: World)
    requires Reachable(ANY, w) && Enabled(w, Hit) && AllContentsDiffer(w.history)
    ensures w.history != [] && (AnswerOf(w, Hit).value.rows == Current(w) <==> w.cache.value.seen == |w.history|)
  {
    ReachableKeeps(ANY, w);
  }

  predicate QuietHit(w: World) {
    w.history != [] && Enabled(w, Hit) && w.writers == map[]
  }

  /** Along such runs, every hit with no writer under way answers the table as it is. */
  ghost predicate HitsExact(p: Luck) {
    forall w :: Reachable(p, w) && QuietHit(w) ==> AnswerOf(w, Hit).value.rows == Current(w)
  }

  /** The entry has missed no write that is over, and writers are recorded with writes that happened. */
  ghost predicate UpToDate(w: World) {
    && (w.cache.Some? ==> !Missed(|w.history|, w.writers, w.cache.value.seen))
    && (forall r :: r in w.writers ==> w.writers[r] < |w.history|)
  }

  lemma StepUpToDate(p: Luck, w: World, e: Event)
    requires Inv(w) && UpToDate(w) && Allowed(p, w, e) && p.reliable && p.prompt
    ensures UpToDate(Next(w, e))
  {
    var w' := Next(w, e);
    match e {
      case Write(r, rows) =>
        assert w'.writers[r] == |w.history| && UnderWay(w'.writers, |w.history|);
        forall i | UnderWay(w.writers, i) ensures UnderWay(w'.writers, i) {
          var x :| x in w.writers && w.writers[x] == i;
          assert w'.writers[x] == i;
        }
      case _ =>
    }
  }

  lemma {:induction false} RunUpToDate(p: Luck, w: World, events: seq<Event>)
    requires Inv(w) && UpToDate(w) && p.reliable && p.prompt && CanRun(p, w, events)
    ensures UpToDate(Run(p, w, events))
    decreases |events|
  {
    if events != [] {
      StepKeeps(w, events[0]);
      StepUpToDate(p, w, events[0]);
      RunUpToDate(p, Next(w, events[0]), events[1..]);
    }
  }

  /** With no writer under way, an entry that missed nothing has seen everything. */
  lemma NothingMissed(w: World)
    requires Inv(w) && UpToDate(w) && w.cache.Some? && w.writers == map[]
    ensures w.cache.value.rows == Current(w)
  {
    var e := w.cache.value;
    assert EntryInv(w, e);
    assert e.seen < |w.history| ==> !UnderWay(w.writers, e.seen);
  }

  /** A cached tree outlives a write whose invalidation fails. */
  lemma FailureIsStale(p: Luck) returns (w: World)
    requires !p.reliable
    ensures Reachable(p, w) && QuietHit(w) && AnswerOf(w, Hit).value.rows != Current(w)
  {
    var w0 := Start(NO_ROWS);
    assert CanRun(p, w0, []) && Run(p, w0, []) == w0;
    var w1 := Reach(p, w0, Miss(1));
    var w2 := Reach(p, w1, Read(1));
    var w3 := Reach(p, w2, Store(1));
    var w4 := Reach(p, w3, Write(2, ONE_ROW));
    w := Reach(p, w4, InvalidateFails(2));
    assert w.writers == map[];
  }

  /** Cached answers are exact if and only if no invalidation fails and no fill stores after a write it missed is over. */
  lemma HitsExactly(p: Luck)
    ensures HitsExact(p) <==> p.reliable && p.prompt
  {
    if !p.reliable {
      var w := FailureIsStale(p);
    } else if !p.prompt {
      var w := LateFillIsStale(p, 1);
      assert QuietHit(w);
    } else {
      forall w | Reachable(p, w) && QuietHit(w) ensures AnswerOf(w, Hit).value.rows == Current(w) {
        var rows, events :| CanRun(p, Start(rows), events) && Run(p, Start(rows), events) == w;
        assert HeldAt(Start(rows).history, 0, rows, 0);
        RunKeeps(p, Start(rows), events);
        RunUpToDate(p, Start(rows), events);
        NothingMissed(w);
      }
    }
  }
}
