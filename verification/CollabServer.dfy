// The server's side of one live document: the session in memory, the one
// durable row behind it, and the two timers between them.
module CollabServer {
  import opened Prelude

  // One operation of the shared document. A document is the set of the
  // operations applied to it: applying an update adds the update's operations,
  // and encoding the document yields all of them.
  type Op = int
  type Ops = set<Op>
  // What a presence change is recorded under: any string, usually a socket's id.
  type Socket = int
  // The id under which a browser publishes its presence.
  type Presence = int
  type Time = nat

  /** Of all strings, the non-negative ones are ids of sockets. */
  predicate IsSocket(name: Socket) { name >= 0 }

  datatype Session = Session(ops: Ops, connections: map<Socket, set<Presence>>, awareness: set<Presence>)

  // Whose document a scheduled flush will read when it fires: the session in
  // memory, or one that has been evicted since and no longer changes.
  datatype Source = Current | Evicted(ops: Ops)

  datatype Flush = Flush(deadline: Time, source: Source)

  datatype Server = Server(
    session: Option<Session>,
    eviction: Option<Time>,
    pending: Option<Flush>,
    durable: Option<Ops>)

  const EMPTY := Server(None, None, None, None)

  function Stored(s: Server): Ops {
    if s.durable.Some? then s.durable.value else {}
  }

  // ----- the registry -----

  function TrackAwareness(s: Session, socket: Socket, ids: set<Presence>): Session {
    if ids == {} then s
    else
      var tracked := if socket in s.connections then s.connections[socket] else {};
      s.(connections := s.connections[socket := tracked + ids])
  }

  /** The presence callback: a socket is recorded as the owner of what it added or updated. */
  function OnAwarenessChange(s: Session, origin: Socket, added: set<Presence>, updated: set<Presence>, removed: set<Presence>)
    : Session
  {
    if added + updated + removed == {} then s else TrackAwareness(s, origin, added + updated)
  }

  function ApplyAwareness(s: Session, socket: Socket, shown: set<Presence>, gone: set<Presence>): Session {
    var added := shown - s.awareness;
    var updated := shown * s.awareness;
    var removed := gone * s.awareness - shown;
    OnAwarenessChange(s.(awareness := s.awareness + shown - removed), socket, added, updated, removed)
  }

  function Register(s: Session, socket: Socket): Session {
    if socket in s.connections then s else s.(connections := s.connections[socket := {}])
  }

  /** Dropping a socket also withdraws its presence, which runs the presence callback once more. */
  function RemoveConnection(s: Session, socket: Socket): Session {
    var ids := if socket in s.connections then s.connections[socket] else {};
    var dropped := s.(connections := s.connections - {socket});
    OnAwarenessChange(dropped.(awareness := dropped.awareness - ids), socket, {}, {}, ids * s.awareness)
  }

  // ----- the handlers -----

  /** The live session, created and filled from the durable row when there is none. */
  function Hydrate(s: Server): (s': Server)
    ensures s'.session.Some?
  {
    if s.session.Some? then s else s.(session := Some(Session(Stored(s), map[], {})))
  }

  function Join(s: Server, socket: Socket): (s': Server)
    ensures s'.session.Some?
  {
    var h := Hydrate(s.(eviction := None));
    h.(session := Some(Register(h.session.value, socket)))
  }

  function ScheduleFlush(s: Server, now: Time, window: Time): Server {
    if s.pending.Some? then s else s.(pending := Some(Flush(now + window, Current)))
  }

  function ApplyOps(s: Server, ops: Ops): Server
    requires s.session.Some?
  {
    s.(session := Some(s.session.value.(ops := s.session.value.ops + ops)))
  }

  /** An update from a socket that may edit; dropped when the document has no session. */
  function Receive(s: Server, now: Time, window: Time, ops: Ops): Server {
    if s.session.None? then s else ScheduleFlush(ApplyOps(s, ops), now, window)
  }

  /** A version restore: `ops` are the operations that replace the visible content. */
  function ApplyRestore(s: Server, now: Time, window: Time, ops: Ops): Server {
    ScheduleFlush(ApplyOps(Hydrate(s), ops), now, window)
  }

  predicate IsEmpty(s: Server) {
    s.session.None? || s.session.value.connections == map[]
  }

  function Disconnect(s: Server, now: Time, grace: Time, socket: Socket): Server {
    var r := if s.session.None? then s else s.(session := Some(RemoveConnection(s.session.value, socket)));
    if IsEmpty(r) then r.(eviction := Some(now + grace)) else r
  }

  function Awareness(s: Server, socket: Socket, shown: set<Presence>, gone: set<Presence>): Server {
    if s.session.None? then s else s.(session := Some(ApplyAwareness(s.session.value, socket, shown, gone)))
  }

  /** What a scheduled flush writes. */
  function Snapshot(s: Server, f: Flush): Ops {
    match f.source
    case Current => if s.session.Some? then s.session.value.ops else {}
    case Evicted(ops) => ops
  }

  function FireFlush(s: Server): Server
    requires s.pending.Some?
  {
    s.(pending := None, durable := Some(Snapshot(s, s.pending.value)))
  }

  /** Writes the session, then drops it; a flush still scheduled keeps reading the dropped document. */
  function FireEviction(s: Server): Server {
    if s.session.None? then s.(eviction := None)
    else
      var ops := s.session.value.ops;
      var pending := if s.pending.Some? && s.pending.value.source.Current?
                     then Some(Flush(s.pending.value.deadline, Evicted(ops))) else s.pending;
      Server(None, None, pending, Some(ops))
  }

  // ----- the server in time -----

  // The server with the clock, the sockets that have joined (and may they
  // edit?), and every operation that has been accepted.
  datatype World = World(now: Time, server: Server, members: map<Socket, bool>, accepted: Ops)

  const START := World(0, EMPTY, map[], {})

  datatype Event =
    | Tick(to: Time)
    | JoinEvent(socket: Socket, canEdit: bool)
    | UpdateEvent(socket: Socket, ops: Ops)
    | RestoreEvent(ops: Ops)
    | DisconnectEvent(socket: Socket)
    | AwarenessEvent(origin: Socket, shown: set<Presence>, gone: set<Presence>)
    | FlushEvent
    | EvictEvent

  // How long a flush waits, and how long an empty session stays.
  datatype Timing = Timing(window: Time, grace: Time)

  /** Timers fire on time, so the clock never passes a deadline. */
  predicate Enabled(w: World, e: Event) {
    match e
    case Tick(to) =>
      && w.now <= to
      && (w.server.pending.Some? ==> to <= w.server.pending.value.deadline)
      && (w.server.eviction.Some? ==> to <= w.server.eviction.value)
    case UpdateEvent(socket, _) => socket in w.members
    case DisconnectEvent(socket) => socket in w.members
    case JoinEvent(socket, _) => IsSocket(socket)
    case AwarenessEvent(origin, _, _) => origin in w.members || !IsSocket(origin)
    case FlushEvent => w.server.pending.Some? && w.server.pending.value.deadline == w.now
    case EvictEvent => w.server.eviction == Some(w.now)
    case _ => true
  }

  function Accept(w: World, ops: Ops): World {
    w.(accepted := w.accepted + ops)
  }

  function Next(w: World, e: Event, k: Timing): World {
    match e
    case Tick(to) => w.(now := to)
    case JoinEvent(socket, canEdit) =>
      w.(server := Join(w.server, socket), members := w.members[socket := canEdit])
    case UpdateEvent(socket, ops) =>
      if socket in w.members && w.members[socket] && w.server.session.Some?
      then Accept(w, ops).(server := Receive(w.server, w.now, k.window, ops))
      else w
    case RestoreEvent(ops) =>
      Accept(w, ops).(server := ApplyRestore(w.server, w.now, k.window, ops))
    case DisconnectEvent(socket) =>
      w.(server := Disconnect(w.server, w.now, k.grace, socket), members := w.members - {socket})
    case AwarenessEvent(origin, shown, gone) =>
      w.(server := Awareness(w.server, origin, shown, gone))
    case FlushEvent => if w.server.pending.Some? then w.(server := FireFlush(w.server)) else w
    case EvictEvent => w.(server := FireEviction(w.server))
  }

  /** The state a socket is sent when it joins. */
  function JoinPayload(w: World, socket: Socket): Ops {
    Join(w.server, socket).session.value.ops
  }

  predicate RunEnabled(w: World, events: seq<Event>, k: Timing)
    decreases |events|
  {
    events != [] ==> Enabled(w, events[0]) && RunEnabled(Next(w, events[0], k), events[1..], k)
  }

  function Run(w: World, events: seq<Event>, k: Timing): World
    decreases |events|
  {
    if events == [] then w else Run(Next(w, events[0], k), events[1..], k)
  }

  // ----- what every run keeps, whatever the timing -----

  /** The sockets among the connections are those that have joined; a session that is to be evicted has none. */
  ghost predicate Registry(w: World) {
    && (w.server.session.Some? ==> forall x ::
          x in w.members <==> x in w.server.session.value.connections && IsSocket(x))
    && (w.server.session.None? ==> w.members.Keys == {})
    && (w.server.eviction.Some? ==> w.server.session.Some? && w.members.Keys == {})
  }

  ghost predicate Timers(w: World, k: Timing) {
    && (w.server.pending.Some? ==>
          && w.now <= w.server.pending.value.deadline <= w.now + k.window
          && (w.server.pending.value.source.Current? ==> w.server.session.Some?))
    && (w.server.eviction.Some? ==> w.now <= w.server.eviction.value)
  }

  /** Whatever is held anywhere has been accepted. */
  ghost predicate Accepted(w: World) {
    && Stored(w.server) <= w.accepted
    && (w.server.session.Some? ==> w.server.session.value.ops <= w.accepted)
    && (w.server.pending.Some? && w.server.pending.value.source.Evicted? ==>
          w.server.pending.value.source.ops <= w.accepted)
  }

  ghost predicate Sound(w: World, k: Timing) {
    Registry(w) && Timers(w, k) && Accepted(w)
  }

  /** Withdrawing a socket's presence does not bring the socket back. */
  lemma RemovedStaysRemoved(s: Session, socket: Socket)
    ensures RemoveConnection(s, socket).connections == s.connections - {socket}
    ensures RemoveConnection(s, socket).ops == s.ops
  {
  }

  lemma AwarenessKeeps(s: Session, origin: Socket, shown: set<Presence>, gone: set<Presence>)
    ensures var s' := ApplyAwareness(s, origin, shown, gone);
            && s'.ops == s.ops
            && s.connections.Keys <= s'.connections.Keys <= s.connections.Keys + {origin}
  {
  }

  /** The presence a socket has shown. */
  function ShownBy(s: Session, socket: Socket): set<Presence> {
    if socket in s.connections then s.connections[socket] else {}
  }

  /**
   * A presence change leaves everybody seen who was seen before or is shown now,
   * except who is withdrawn and not shown; what is shown is put down to the
   * origin, and what other sockets have shown stays theirs.
   */
  lemma PresenceExactly(s: Session, origin: Socket, shown: set<Presence>, gone: set<Presence>)
    ensures var s' := ApplyAwareness(s, origin, shown, gone);
            && s'.ops == s.ops
            && (forall p :: p in s'.awareness <==> p in shown || (p in s.awareness && p !in gone))
            && ShownBy(s', origin) == ShownBy(s, origin) + shown
            && (forall x :: x != origin ==> ShownBy(s', x) == ShownBy(s, x) && (x in s'.connections <==> x in s.connections))
  {
    assert (shown - s.awareness) + (shown * s.awareness) == shown;
  }

  /** A socket that leaves takes with it the presence it has shown, and nothing of anybody else's. */
  lemma LeavingExactly(s: Session, socket: Socket)
    ensures var s' := RemoveConnection(s, socket);
            && s'.ops == s.ops && socket !in s'.connections
            && (forall p :: p in s'.awareness <==> p in s.awareness && p !in ShownBy(s, socket))
            && (forall x :: x != socket ==>
                  (x in s'.connections <==> x in s.connections) && ShownBy(s', x) == ShownBy(s, x))
  {
    RemovedStaysRemoved(s, socket);
  }

  /** Nobody is left seen who was shown by a socket that is gone: what is seen is put down to a connection. */
  ghost predicate AllPutDown(s: Session) {
    forall p :: p in s.awareness ==> exists x :: x in s.connections && p in s.connections[x]
  }

  lemma PresencePutDown(s: Session, origin: Socket, shown: set<Presence>, gone: set<Presence>)
    requires AllPutDown(s)
    ensures AllPutDown(ApplyAwareness(s, origin, shown, gone))
  {
    var s' := ApplyAwareness(s, origin, shown, gone);
    PresenceExactly(s, origin, shown, gone);
    forall p | p in s'.awareness ensures exists x :: x in s'.connections && p in s'.connections[x] {
      if p in shown {
        assert p in ShownBy(s', origin);
        assert origin in s'.connections && p in s'.connections[origin];
      } else {
        var x :| x in s.connections && p in s.connections[x];
        assert p in ShownBy(s', x);
        assert x in s'.connections && p in s'.connections[x];
      }
    }
  }

  lemma LeavingPutDown(s: Session, socket: Socket)
    requires AllPutDown(s)
    ensures AllPutDown(RemoveConnection(s, socket))
  {
    var s' := RemoveConnection(s, socket);
    LeavingExactly(s, socket);
    forall p | p in s'.awareness ensures exists x :: x in s'.connections && p in s'.connections[x] {
      var x :| x in s.connections && p in s.connections[x];
      assert p in ShownBy(s, x) && p in ShownBy(s', x);
      assert x in s'.connections && p in s'.connections[x];
    }
  }

  ghost predicate SeenIsConnected(w: World) {
    w.server.session.Some? ==> AllPutDown(w.server.session.value)
  }

  lemma RegisteringPutDown(s: Session, socket: Socket)
    requires AllPutDown(s)
    ensures AllPutDown(Register(s, socket))
  {
    var s' := Register(s, socket);
    forall p | p in s'.awareness ensures exists x :: x in s'.connections && p in s'.connections[x] {
      var x :| x in s.connections && p in s.connections[x];
      assert x in s'.connections && p in s'.connections[x];
    }
  }

  lemma NextSeen(w: World, e: Event, k: Timing)
    requires SeenIsConnected(w) && Enabled(w, e)
    ensures SeenIsConnected(Next(w, e, k))
  {
    match e {
      case JoinEvent(socket, _) => RegisteringPutDown(Hydrate(w.server).session.value, socket);
      case DisconnectEvent(socket) => if w.server.session.Some? { LeavingPutDown(w.server.session.value, socket); }
      case AwarenessEvent(origin, shown, gone) =>
        if w.server.session.Some? { PresencePutDown(w.server.session.value, origin, shown, gone); }
      case _ =>
    }
  }

  /** On every run whoever is seen was shown by somebody who is still connected. */
  lemma {:induction false} RunSeen(w: World, events: seq<Event>, k: Timing)
    requires SeenIsConnected(w) && RunEnabled(w, events, k)
    ensures SeenIsConnected(Run(w, events, k))
    decreases |events|
  {
    if events != [] {
      NextSeen(w, events[0], k);
      RunSeen(Next(w, events[0], k), events[1..], k);
    }
  }

  lemma NextSound(w: World, e: Event, k: Timing)
    requires Sound(w, k) && Enabled(w, e)
    ensures Sound(Next(w, e, k), k)
  {
    match e {
      case DisconnectEvent(socket) =>
        RemovedStaysRemoved(w.server.session.value, socket);
        var left := RemoveConnection(w.server.session.value, socket).connections;
        assert forall x :: x in Next(w, e, k).members ==> x in left;
        if left == map[] { assert left.Keys == {}; }
      case AwarenessEvent(origin, shown, gone) =>
        if w.server.session.Some? { AwarenessKeeps(w.server.session.value, origin, shown, gone); }
      case _ =>
    }
  }

  lemma {:induction false} RunSound(w: World, events: seq<Event>, k: Timing)
    requires Sound(w, k) && RunEnabled(w, events, k)
    ensures Sound(Run(w, events, k), k)
    decreases |events|
  {
    if events != [] {
      NextSound(w, events[0], k);
      RunSound(Next(w, events[0], k), events[1..], k);
    }
  }

  /** On every run, with any timing, a session is evicted only when every socket that joined has left. */
  lemma OnlyEmptyEvicted(events: seq<Event>, k: Timing)
    requires RunEnabled(START, events, k) && Enabled(Run(START, events, k), EvictEvent)
    ensures Run(START, events, k).members.Keys == {}
  {
    RunSound(START, events, k);
  }

  // ----- presence recorded under a name that is no socket's -----

  /** Something other than a socket counts as connected, and no eviction is due. */
  ghost predicate Haunted(w: World, name: Socket) {
    && !IsSocket(name) && w.server.eviction.None?
    && w.server.session.Some? && name in w.server.session.value.connections
  }

  lemma NextHaunted(w: World, e: Event, k: Timing, name: Socket)
    requires Sound(w, k) && Enabled(w, e) && Haunted(w, name)
    ensures Haunted(Next(w, e, k), name)
  {
    match e {
      case DisconnectEvent(socket) =>
        RemovedStaysRemoved(w.server.session.value, socket);
        assert name in (w.server.session.value.connections - {socket}).Keys;
      case AwarenessEvent(origin, shown, gone) => AwarenessKeeps(w.server.session.value, origin, shown, gone);
      case _ =>
    }
  }

  /**
   * The presence callback records any string it is given. Once it has recorded
   * one that is no socket's while no eviction is due, the session stays in
   * memory for ever, everyone having left or not.
   */
  lemma {:induction false} HauntedForEver(w: World, events: seq<Event>, k: Timing, name: Socket)
    requires Sound(w, k) && RunEnabled(w, events, k) && Haunted(w, name)
    ensures Haunted(Run(w, events, k), name) && !Enabled(Run(w, events, k), EvictEvent)
    decreases |events|
  {
    if events != [] {
      NextSound(w, events[0], k);
      NextHaunted(w, events[0], k, name);
      HauntedForEver(Next(w, events[0], k), events[1..], k, name);
    }
  }

  /** One presence change under such a name is enough. */
  lemma HauntedByPresence(w: World, name: Socket, shown: set<Presence>, k: Timing)
    requires !IsSocket(name) && shown != {} && w.server.session.Some? && w.server.eviction.None?
    ensures Enabled(w, AwarenessEvent(name, shown, {})) && Haunted(Next(w, AwarenessEvent(name, shown, {}), k), name)
  {
    var s := w.server.session.value;
    assert (shown - s.awareness) + (shown * s.awareness) == shown;
  }

  // ----- sessions that nobody is in -----

  /** A session without a member, and no timer that would end it. */
  ghost predicate Stranded(w: World) {
    w.server.session.Some? && w.members.Keys == {} && w.server.eviction.None?
  }

  /**
   * How the server is used: whether presence is only ever reported by sockets,
   * and whether versions are only restored into documents that are open.
   */
  datatype Habits = Habits(socketsOnly: bool, openOnly: bool)

  predicate Usual(h: Habits, w: World, e: Event) {
    && (h.socketsOnly && e.AwarenessEvent? ==> IsSocket(e.origin))
    && (h.openOnly && e.RestoreEvent? ==> w.server.session.Some?)
  }

  predicate RunUsual(h: Habits, w: World, events: seq<Event>, k: Timing)
    decreases |events|
  {
    events != [] ==>
      Enabled(w, events[0]) && Usual(h, w, events[0]) && RunUsual(h, Next(w, events[0], k), events[1..], k)
  }

  lemma {:induction false} UsualEnabled(h: Habits, w: World, events: seq<Event>, k: Timing)
    requires RunUsual(h, w, events, k)
    ensures RunEnabled(w, events, k)
    decreases |events|
  {
    if events != [] { UsualEnabled(h, Next(w, events[0], k), events[1..], k); }
  }

  ghost predicate NeverStranded(h: Habits, k: Timing) {
    forall events :: RunUsual(h, START, events, k) ==> !Stranded(Run(START, events, k))
  }

  /** Everything connected is a socket, and an empty session has its timer. */
  ghost predicate Attended(w: World) {
    w.server.session.Some? ==>
      && (forall x :: x in w.server.session.value.connections ==> IsSocket(x))
      && (w.members.Keys == {} ==> w.server.eviction.Some?)
  }

  lemma NextAttended(h: Habits, w: World, e: Event, k: Timing)
    requires h.socketsOnly && h.openOnly && Sound(w, k) && Attended(w) && Enabled(w, e) && Usual(h, w, e)
    ensures Attended(Next(w, e, k))
  {
    match e {
      case JoinEvent(socket, _) => assert socket in Next(w, e, k).members.Keys;
      case DisconnectEvent(socket) =>
        var left := RemoveConnection(w.server.session.value, socket).connections;
        RemovedStaysRemoved(w.server.session.value, socket);
        assert forall x :: x in left ==> x in Next(w, e, k).members.Keys;
        if Next(w, e, k).members.Keys == {} { assert left == map[]; }
      case AwarenessEvent(origin, shown, gone) =>
        if w.server.session.Some? { AwarenessKeeps(w.server.session.value, origin, shown, gone); }
      case _ =>
    }
  }

  lemma {:induction false} RunAttended(h: Habits, w: World, events: seq<Event>, k: Timing)
    requires h.socketsOnly && h.openOnly && Sound(w, k) && Attended(w) && RunUsual(h, w, events, k)
    ensures Attended(Run(w, events, k))
    decreases |events|
  {
    if events != [] {
      NextSound(w, events[0], k);
      NextAttended(h, w, events[0], k);
      RunAttended(h, Next(w, events[0], k), events[1..], k);
    }
  }

  /** Presence under another name stays behind when the last socket leaves. */
  lemma StrandedByPresence(h: Habits, k: Timing)
    requires !h.socketsOnly
    ensures !NeverStranded(h, k)
  {
    var events := [JoinEvent(1, true), AwarenessEvent(-1, {7}, {}), DisconnectEvent(1)];
    var w1 := Next(START, events[0], k);
    var w2 := Next(w1, events[1], k);
    var w3 := Next(w2, events[2], k);
    HauntedByPresence(w1, -1, {7}, k);
    assert w2.server.session.value.connections.Keys == {1, -1};
    RemovedStaysRemoved(w2.server.session.value, 1);
    assert -1 in w3.server.session.value.connections.Keys;
    assert w3.members.Keys == {};
    assert RunUsual(h, w3, events[3..], k) && Run(w3, events[3..], k) == w3;
    assert RunUsual(h, w2, events[2..], k) && Run(w2, events[2..], k) == w3;
    assert RunUsual(h, w1, events[1..], k) && Run(w1, events[1..], k) == w3;
    assert RunUsual(h, START, events, k) && Run(START, events, k) == w3;
  }

  /** Restoring a version of a document that nobody has open leaves a session that nobody will close. */
  lemma StrandedByRestore(h: Habits, k: Timing)
    requires !h.openOnly
    ensures !NeverStranded(h, k)
  {
    var events := [RestoreEvent({1})];
    var w := Next(START, events[0], k);
    assert RunUsual(h, w, events[1..], k) && Run(w, events[1..], k) == w;
    assert RunUsual(h, START, events, k) && Run(START, events, k) == w;
  }

  /**
   * With any timing, no run leaves a session behind for good if and only if
   * presence is reported by sockets alone and versions are restored into open
   * documents alone.
   */
  lemma NeverStrandedExactly(h: Habits, k: Timing)
    ensures NeverStranded(h, k) <==> h.socketsOnly && h.openOnly
  {
    if !h.socketsOnly {
      StrandedByPresence(h, k);
    } else if !h.openOnly {
      StrandedByRestore(h, k);
    } else {
      forall events | RunUsual(h, START, events, k) ensures !Stranded(Run(START, events, k)) {
        RunAttended(h, START, events, k);
      }
    }
  }

  /** A session left behind stays in memory until somebody joins. */
  lemma {:induction false} StrandedUntilJoin(w: World, events: seq<Event>, k: Timing)
    requires Sound(w, k) && Stranded(w) && RunEnabled(w, events, k)
    requires forall i :: 0 <= i < |events| ==> !events[i].JoinEvent?
    ensures Stranded(Run(w, events, k))
    decreases |events|
  {
    if events != [] {
      NextSound(w, events[0], k);
      assert !events[0].JoinEvent?;
      assert forall x :: x !in w.members.Keys;
      StrandedUntilJoin(Next(w, events[0], k), events[1..], k);
    }
  }

  // ----- nothing is lost while the window is shorter than the grace period -----

  /** The session, or without one the durable row, holds all that was accepted; late flushes only rewrite it. */
  ghost predicate Complete(w: World) {
    && (if w.server.session.Some? then w.server.session.value.ops else Stored(w.server)) == w.accepted
    && (w.server.pending.Some? && w.server.pending.value.source.Evicted? ==>
          && w.server.durable == Some(w.server.pending.value.source.ops)
          && (w.server.eviction.Some? ==> w.server.pending.value.deadline < w.server.eviction.value))
  }

  lemma NextComplete(w: World, e: Event, k: Timing)
    requires Sound(w, k) && Complete(w) && Enabled(w, e) && k.window < k.grace
    ensures Complete(Next(w, e, k))
  {
    match e {
      case DisconnectEvent(socket) => RemovedStaysRemoved(w.server.session.value, socket);
      case AwarenessEvent(origin, shown, gone) =>
        if w.server.session.Some? { AwarenessKeeps(w.server.session.value, origin, shown, gone); }
      case _ =>
    }
  }

  lemma {:induction false} RunComplete(w: World, events: seq<Event>, k: Timing)
    requires Sound(w, k) && Complete(w) && RunEnabled(w, events, k) && k.window < k.grace
    ensures Complete(Run(w, events, k))
    decreases |events|
  {
    if events != [] {
      NextSound(w, events[0], k);
      NextComplete(w, events[0], k);
      RunComplete(Next(w, events[0], k), events[1..], k);
    }
  }

  /** On every run, every join receives exactly the union of all updates accepted before it. */
  ghost predicate Transparent(k: Timing) {
    forall events, socket :: RunEnabled(START, events, k) ==>
      JoinPayload(Run(START, events, k), socket) == Run(START, events, k).accepted
  }

  lemma JoinReceivesAll(events: seq<Event>, socket: Socket, k: Timing)
    requires RunEnabled(START, events, k) && k.window < k.grace
    ensures JoinPayload(Run(START, events, k), socket) == Run(START, events, k).accepted
  {
    RunComplete(START, events, k);
  }

  /** No event takes anything out of the durable row; a late flush of an evicted session rewrites what it holds. */
  lemma DurableGrows(w: World, e: Event, k: Timing)
    requires Sound(w, k) && Complete(w) && Enabled(w, e)
    ensures Stored(w.server) <= Stored(Next(w, e, k).server)
    ensures e.FlushEvent? && w.server.pending.value.source.Evicted? ==>
              Next(w, e, k).server.durable == w.server.durable
  {
  }

  /**
   * With a grace period no longer than the flush window: a restore just before
   * an eviction leaves a flush behind, a later session is evicted before that
   * flush fires, and the flush then overwrites what the later session stored.
   */
  function LosingRun(k: Timing): seq<Event> {
    [JoinEvent(1, true), DisconnectEvent(1), Tick(k.grace), RestoreEvent({1}), EvictEvent,
     JoinEvent(2, true), UpdateEvent(2, {2}), DisconnectEvent(2), Tick(2 * k.grace), EvictEvent,
     Tick(k.grace + k.window), FlushEvent]
  }

  /** The run `events` passes through the worlds `ws`. */
  ghost predicate Passes(ws: seq<World>, events: seq<Event>, k: Timing) {
    |ws| == |events| + 1 &&
    forall i :: 0 <= i < |events| ==> Enabled(ws[i], events[i]) && Next(ws[i], events[i], k) == ws[i + 1]
  }

  lemma {:induction false} PassesRuns(ws: seq<World>, events: seq<Event>, k: Timing)
    requires Passes(ws, events, k)
    ensures RunEnabled(ws[0], events, k) && Run(ws[0], events, k) == ws[|events|]
    decreases |events|
  {
    if events != [] { PassesRuns(ws[1..], events[1..], k); }
  }

  // The worlds along that run, `g` being the grace period and `late` the deadline of the flush left behind.
  function LosingWorlds(g: Time, late: Time): seq<World> {
    var stale := Some(Flush(late, Evicted({1})));
    [ START,
      World(0, Server(Some(Session({}, map[1 := {}], {})), None, None, None), map[1 := true], {}),
      World(0, Server(Some(Session({}, map[], {})), Some(g), None, None), map[], {}),
      World(g, Server(Some(Session({}, map[], {})), Some(g), None, None), map[], {}),
      World(g, Server(Some(Session({1}, map[], {})), Some(g), Some(Flush(late, Current)), None), map[], {1}),
      World(g, Server(None, None, stale, Some({1})), map[], {1}),
      World(g, Server(Some(Session({1}, map[2 := {}], {})), None, stale, Some({1})), map[2 := true], {1}),
      World(g, Server(Some(Session({1, 2}, map[2 := {}], {})), None, stale, Some({1})), map[2 := true], {1, 2}),
      World(g, Server(Some(Session({1, 2}, map[], {})), Some(2 * g), stale, Some({1})), map[], {1, 2}),
      World(2 * g, Server(Some(Session({1, 2}, map[], {})), Some(2 * g), stale, Some({1})), map[], {1, 2}),
      World(2 * g, Server(None, None, stale, Some({1, 2})), map[], {1, 2}),
      World(late, Server(None, None, stale, Some({1, 2})), map[], {1, 2}),
      World(late, Server(None, None, None, Some({1})), map[], {1, 2}) ]
  }

  lemma LastLeaves(s: Session, socket: Socket)
    requires s.connections == map[socket := {}]
    ensures RemoveConnection(s, socket) == s.(connections := map[])
  {
    assert s.connections - {socket} == map[];
    assert s.awareness - {} == s.awareness;
  }

  lemma LosingSteps(k: Timing, i: nat)
    requires i < 12 && i !in {1, 3, 6, 7} && (i >= 8 ==> k.grace <= k.window)
    ensures var ws := LosingWorlds(k.grace, k.grace + k.window);
            Enabled(ws[i], LosingRun(k)[i]) && Next(ws[i], LosingRun(k)[i], k) == ws[i + 1]
  {
  }

  lemma FirstLeaves(k: Timing, i: nat)
    requires i == 1
    ensures var ws := LosingWorlds(k.grace, k.grace + k.window);
            Enabled(ws[i], LosingRun(k)[i]) && Next(ws[i], LosingRun(k)[i], k) == ws[i + 1]
  {
    LastLeaves(LosingWorlds(k.grace, k.grace + k.window)[1].server.session.value, 1);
  }

  lemma SecondLeaves(k: Timing, i: nat)
    requires i == 7
    ensures var ws := LosingWorlds(k.grace, k.grace + k.window);
            Enabled(ws[i], LosingRun(k)[i]) && Next(ws[i], LosingRun(k)[i], k) == ws[i + 1]
  {
    LastLeaves(LosingWorlds(k.grace, k.grace + k.window)[7].server.session.value, 2);
  }

  lemma RestoreAccepted(k: Timing, i: nat)
    requires i == 3
    ensures var ws := LosingWorlds(k.grace, k.grace + k.window);
            Enabled(ws[i], LosingRun(k)[i]) && Next(ws[i], LosingRun(k)[i], k) == ws[i + 1]
  {
    var ws := LosingWorlds(k.grace, k.grace + k.window);
    assert ws[3].accepted + {1} == ws[4].accepted;
    assert ws[3].server.session.value.ops + {1} == ws[4].server.session.value.ops;
  }

  lemma UpdateAccepted(k: Timing, i: nat)
    requires i == 6
    ensures var ws := LosingWorlds(k.grace, k.grace + k.window);
            Enabled(ws[i], LosingRun(k)[i]) && Next(ws[i], LosingRun(k)[i], k) == ws[i + 1]
  {
    var ws := LosingWorlds(k.grace, k.grace + k.window);
    assert ws[6].accepted + {2} == ws[7].accepted;
    assert ws[6].server.session.value.ops + {2} == ws[7].server.session.value.ops;
  }

  lemma LosingRunLoses(k: Timing)
    requires k.grace <= k.window
    ensures RunEnabled(START, LosingRun(k), k)
    ensures JoinPayload(Run(START, LosingRun(k), k), 3) == {1}
    ensures Run(START, LosingRun(k), k).accepted == {1, 2}
  {
    var ws := LosingWorlds(k.grace, k.grace + k.window);
    forall i | 0 <= i < 12
      ensures Enabled(ws[i], LosingRun(k)[i]) && Next(ws[i], LosingRun(k)[i], k) == ws[i + 1]
    {
      if i == 1 { FirstLeaves(k, i); }
      else if i == 3 { RestoreAccepted(k, i); }
      else if i == 6 { UpdateAccepted(k, i); }
      else if i == 7 { SecondLeaves(k, i); }
      else { LosingSteps(k, i); }
    }
    PassesRuns(ws, LosingRun(k), k);
  }

  /** Eviction is transparent exactly when a session outlives every flush scheduled before it was left empty. */
  lemma TransparentExactly(k: Timing)
    ensures Transparent(k) <==> k.window < k.grace
  {
    if k.window < k.grace {
      forall events, socket | RunEnabled(START, events, k)
        ensures JoinPayload(Run(START, events, k), socket) == Run(START, events, k).accepted
      {
        JoinReceivesAll(events, socket, k);
      }
    } else {
      LosingRunLoses(k);
      assert 2 in Run(START, LosingRun(k), k).accepted;
    }
  }

  // ----- how long an accepted update stays only in memory -----

  /** A flush of an evicted session is still scheduled, so no other flush can be. */
  predicate Behind(w: World) {
    w.server.pending.Some? && w.server.pending.value.source.Evicted?
  }

  /** However the run goes on, `op` is in the durable row once more than a window has passed. */
  ghost predicate SavedInTime(w: World, op: Op, born: Time, k: Timing) {
    forall events :: RunEnabled(w, events, k) && Run(w, events, k).now > born + k.window ==>
      op in Stored(Run(w, events, k).server)
  }

  /** The event brings in `op`: an editor's update, or a version restore. */
  predicate BringsIn(w: World, e: Event, op: Op) {
    match e
    case UpdateEvent(socket, ops) => socket in w.members && w.members[socket] && op in ops && op !in w.accepted
    case RestoreEvent(ops) => op in ops && op !in w.accepted
    case _ => false
  }

  /** What is accepted: what an editor who has joined sends, and what a restore brings; nothing from readers. */
  lemma AcceptedExactly(w: World, e: Event, k: Timing, op: Op)
    requires Sound(w, k) && Enabled(w, e)
    ensures op in Next(w, e, k).accepted <==> op in w.accepted || BringsIn(w, e, op)
  {
    if e.UpdateEvent? { assert e.socket in w.members.Keys; }
  }

  /** Whatever may still be written holds `op`, and it is stored or about to be. */
  ghost predicate Carried(w: World, op: Op, born: Time, k: Timing) {
    && (w.server.session.Some? ==> op in w.server.session.value.ops)
    && (Behind(w) ==> op in w.server.pending.value.source.ops)
    && (op in Stored(w.server) ||
        (w.server.session.Some? && w.server.pending.Some? && w.server.pending.value.source.Current?
         && w.server.pending.value.deadline <= born + k.window))
  }

  lemma NextCarried(w: World, e: Event, op: Op, born: Time, k: Timing)
    requires Sound(w, k) && Enabled(w, e) && Carried(w, op, born, k)
    ensures Carried(Next(w, e, k), op, born, k)
  {
    match e {
      case DisconnectEvent(socket) => RemovedStaysRemoved(w.server.session.value, socket);
      case AwarenessEvent(origin, shown, gone) =>
        if w.server.session.Some? { AwarenessKeeps(w.server.session.value, origin, shown, gone); }
      case _ =>
    }
  }

  lemma {:induction false} RunCarried(w: World, events: seq<Event>, op: Op, born: Time, k: Timing)
    requires Sound(w, k) && RunEnabled(w, events, k) && Carried(w, op, born, k)
    ensures Carried(Run(w, events, k), op, born, k)
    decreases |events|
  {
    if events != [] {
      NextSound(w, events[0], k);
      NextCarried(w, events[0], op, born, k);
      RunCarried(Next(w, events[0], k), events[1..], op, born, k);
    }
  }

  /**
   * With any timing, the window bounds how long what an update or a restore
   * brings in exists only in memory, exactly when no flush of an evicted
   * session is scheduled at the moment it is accepted.
   */
  lemma ExposureExactly(w: World, e: Event, op: Op, k: Timing)
    requires Sound(w, k) && BringsIn(w, e, op)
    ensures SavedInTime(Next(w, e, k), op, w.now, k) <==> !Behind(w)
  {
    var w' := Next(w, e, k);
    NextSound(w, e, k);
    if Behind(w) {
      OverdueRun(w', op, w.now, k);
    } else {
      forall events | RunEnabled(w', events, k) && Run(w', events, k).now > w.now + k.window
        ensures op in Stored(Run(w', events, k).server)
      {
        RunSound(w', events, k);
        RunCarried(w', events, op, w.now, k);
      }
    }
  }

  /** Let somebody join, the late flush fire and a window pass: nothing has stored `op`. */
  lemma OverdueRun(w: World, op: Op, born: Time, k: Timing)
    requires Sound(w, k) && Behind(w) && w.server.session.Some?
    requires op !in w.server.pending.value.source.ops && w.now == born
    ensures !SavedInTime(w, op, born, k)
  {
    var late := w.server.pending.value.deadline;
    var events := [JoinEvent(0, true), Tick(late), FlushEvent, Tick(born + k.window + 1)];
    var w1 := Next(w, JoinEvent(0, true), k);
    var w2 := Next(w1, Tick(late), k);
    var w3 := Next(w2, FlushEvent, k);
    var w4 := Next(w3, Tick(born + k.window + 1), k);
    assert Enabled(w, events[0]) && Enabled(w1, Tick(late)) && Enabled(w2, FlushEvent);
    assert Enabled(w3, Tick(born + k.window + 1));
    PassesRuns([w, w1, w2, w3, w4], events, k);
    assert op !in Stored(w4.server);
  }

  /** The exception is real: with any timing, six events lead to a client that edits behind a late flush. */
  lemma BehindIsReached(k: Timing)
    ensures var events := LosingRun(k)[..6];
            && RunEnabled(START, events, k) && Behind(Run(START, events, k))
            && Run(START, events, k).members == map[2 := true] && 2 !in Run(START, events, k).accepted
  {
    var events := LosingRun(k)[..6];
    var ws := LosingWorlds(k.grace, k.grace + k.window)[..7];
    forall i | 0 <= i < 6
      ensures Enabled(ws[i], events[i]) && Next(ws[i], events[i], k) == ws[i + 1]
    {
      if i == 1 { FirstLeaves(k, i); }
      else if i == 3 { RestoreAccepted(k, i); }
      else { LosingSteps(k, i); }
    }
    PassesRuns(ws, events, k);
  }
}
