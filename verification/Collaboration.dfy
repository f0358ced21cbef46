// The gateway, the session registry and the throttled persistence, with the
// maps they mutate and the session objects their timers hold on to.
module Collaboration {
  import opened Prelude
  import opened CollabServer

  type DocumentId = int

  // A document open in memory.
  class DocumentSession {
    var ops: Ops
    var connections: map<Socket, set<Presence>>
    var awareness: set<Presence>

    constructor (ops: Ops)
      ensures View() == Session(ops, map[], {})
    {
      this.ops := ops;
      connections := map[];
      awareness := {};
    }

    ghost function View(): Session
      reads this
    {
      Session(ops, connections, awareness)
    }

    method RegisterConnection(socket: Socket)
      modifies this`connections
      ensures View() == Register(old(View()), socket)
    {
      if socket !in connections {
        connections := connections[socket := {}];
      }
    }

    method TrackAwarenessClients(socket: Socket, ids: set<Presence>)
      modifies this
      ensures View() == TrackAwareness(old(View()), socket, ids)
    {
      if ids == {} {
        return;
      }
      var tracked := if socket in connections then connections[socket] else {};
      connections := connections[socket := tracked + ids];
    }

    method AwarenessChanged(origin: Socket, added: set<Presence>, updated: set<Presence>, removed: set<Presence>)
      modifies this
      ensures View() == OnAwarenessChange(old(View()), origin, added, updated, removed)
    {
      if added + updated + removed == {} {
        return;
      }
      TrackAwarenessClients(origin, added + updated);
    }

    /** Presence shown or withdrawn by a socket, which becomes the owner of what it shows. */
    method ApplyAwarenessUpdate(socket: Socket, shown: set<Presence>, gone: set<Presence>)
      modifies this
      ensures View() == ApplyAwareness(old(View()), socket, shown, gone)
    {
      var added := shown - awareness;
      var updated := shown * awareness;
      var removed := gone * awareness - shown;
      awareness := awareness + shown - removed;
      AwarenessChanged(socket, added, updated, removed);
    }

    /** A disconnected socket is gone, and withdrawing its presence does not bring it back. */
    method RemoveConnection(socket: Socket)
      modifies this
      ensures View() == CollabServer.RemoveConnection(old(View()), socket)
      ensures connections == old(connections) - {socket}
    {
      RemovedStaysRemoved(View(), socket);
      var ids := if socket in connections then connections[socket] else {};
      connections := connections - {socket};
      var withdrawn := ids * awareness;
      awareness := awareness - ids;
      AwarenessChanged(socket, {}, {}, withdrawn);
    }
  }

  // A scheduled flush: its deadline, and the document its closure captured.
  datatype FlushTimer = FlushTimer(deadline: Time, captured: DocumentSession)

  class CollaborationGateway {
    var sessions: map<DocumentId, DocumentSession>
    var evictionTimers: map<DocumentId, Time>
    var pendingFlushes: map<DocumentId, FlushTimer>
    // The one automatic row of each document.
    var autoRows: map<DocumentId, Ops>
    const timing: Timing

    ghost function Sessions(): set<object>
      reads this
    {
      (set d | d in sessions :: sessions[d]) + (set d | d in pendingFlushes :: pendingFlushes[d].captured)
    }

    /** Documents do not share a session, in memory or captured by a timer. */
    ghost predicate Valid()
      reads this
    {
      && (forall d, e :: d in sessions && e in sessions && d != e ==> sessions[d] != sessions[e])
      && (forall d, e :: d in sessions && e in pendingFlushes && d != e ==> sessions[d] != pendingFlushes[e].captured)
    }

    /** What the maps hold about one document. */
    ghost function State(d: DocumentId): Server
      reads this, Sessions()
    {
      Server(
        if d in sessions then Some(sessions[d].View()) else None,
        if d in evictionTimers then Some(evictionTimers[d]) else None,
        if d in pendingFlushes then
          var f := pendingFlushes[d];
          Some(Flush(f.deadline,
                     if d in sessions && sessions[d] == f.captured then Current else Evicted(f.captured.ops)))
        else None,
        if d in autoRows then Some(autoRows[d]) else None)
    }

    constructor (timing: Timing)
      ensures Valid() && this.timing == timing && forall d :: State(d) == EMPTY
    {
      sessions := map[];
      evictionTimers := map[];
      pendingFlushes := map[];
      autoRows := map[];
      this.timing := timing;
    }

    method GetOrCreateHydratedSession(d: DocumentId) returns (session: DocumentSession)
      requires Valid()
      modifies this`sessions
      ensures Valid() && d in sessions && sessions[d] == session
      ensures State(d) == Hydrate(old(State(d)))
      ensures forall e :: e != d ==> State(e) == old(State(e))
      ensures d in old(sessions) ==> sessions == old(sessions)
      ensures d !in old(sessions) ==> fresh(session) && sessions == old(sessions)[d := session]
    {
      if d in sessions {
        session := sessions[d];
      } else {
        var persisted := if d in autoRows then autoRows[d] else {};
        session := new DocumentSession(persisted);
        sessions := sessions[d := session];
      }
    }

    /** Joining sends the whole document, and keeps a session that was about to be evicted. */
    method CompleteJoin(d: DocumentId, socket: Socket) returns (payload: Ops)
      requires Valid()
      modifies this`sessions, this`evictionTimers, Sessions()
      ensures Valid()
      ensures State(d) == Join(old(State(d)), socket) && payload == State(d).session.value.ops
      ensures forall e :: e != d ==> State(e) == old(State(e))
    {
      evictionTimers := evictionTimers - {d};
      var session := GetOrCreateHydratedSession(d);
      session.RegisterConnection(socket);
      payload := session.ops;
    }

    method ScheduleFlush(d: DocumentId, captured: DocumentSession, now: Time)
      requires Valid() && d in sessions && sessions[d] == captured
      modifies this`pendingFlushes
      ensures Valid()
      ensures State(d) == CollabServer.ScheduleFlush(old(State(d)), now, timing.window)
      ensures forall e :: e != d ==> State(e) == old(State(e))
    {
      if d in pendingFlushes {
        return;
      }
      pendingFlushes := pendingFlushes[d := FlushTimer(now + timing.window, captured)];
    }

    /** Applies an editor's update; read-only sockets and unknown documents change nothing. */
    method HandleSyncUpdate(d: DocumentId, canEdit: bool, update: Ops, now: Time) returns (relayed: bool)
      requires Valid()
      modifies this`pendingFlushes, Sessions()
      ensures Valid() && relayed == (canEdit && d in sessions)
      ensures State(d) == if canEdit then Receive(old(State(d)), now, timing.window, update) else old(State(d))
      ensures forall e :: e != d ==> State(e) == old(State(e))
    {
      if !canEdit {
        return false;
      }
      if d !in sessions {
        return false;
      }
      var session := sessions[d];
      session.ops := session.ops + update;
      ScheduleFlush(d, session, now);
      return true;
    }

    method ApplyRestoredState(d: DocumentId, ops: Ops, now: Time)
      requires Valid()
      modifies this`sessions, this`pendingFlushes, Sessions()
      ensures Valid()
      ensures State(d) == ApplyRestore(old(State(d)), now, timing.window, ops)
      ensures forall e :: e != d ==> State(e) == old(State(e))
    {
      var session := GetOrCreateHydratedSession(d);
      session.ops := session.ops + ops;
      ScheduleFlush(d, session, now);
    }

    method HandleDisconnect(d: DocumentId, socket: Socket, now: Time)
      requires Valid()
      modifies this`evictionTimers, Sessions()
      ensures Valid()
      ensures State(d) == Disconnect(old(State(d)), now, timing.grace, socket)
      ensures forall e :: e != d ==> State(e) == old(State(e))
    {
      if d in sessions {
        sessions[d].RemoveConnection(socket);
      }
      if d !in sessions || sessions[d].connections == map[] {
        evictionTimers := evictionTimers[d := now + timing.grace];
      }
    }

    method HandleAwarenessUpdate(d: DocumentId, socket: Socket, shown: set<Presence>, gone: set<Presence>)
      requires Valid()
      modifies Sessions()
      ensures Valid()
      ensures State(d) == Awareness(old(State(d)), socket, shown, gone)
      ensures forall e :: e != d ==> State(e) == old(State(e))
    {
      if d in sessions {
        sessions[d].ApplyAwarenessUpdate(socket, shown, gone);
      }
    }

    /** The throttle timer: writes whatever document its closure captured. */
    method FireFlushTimer(d: DocumentId)
      requires Valid() && d in pendingFlushes
      modifies this`pendingFlushes, this`autoRows
      ensures Valid()
      ensures State(d) == FireFlush(old(State(d)))
      ensures forall e :: e != d ==> State(e) == old(State(e))
    {
      var captured := pendingFlushes[d].captured;
      pendingFlushes := pendingFlushes - {d};
      autoRows := autoRows[d := captured.ops];
    }

    /** The grace timer: stores the session and forgets it. A scheduled flush keeps the forgotten document. */
    method FireEvictionTimer(d: DocumentId)
      requires Valid() && d in evictionTimers
      modifies this`sessions, this`evictionTimers, this`autoRows
      ensures Valid()
      ensures State(d) == FireEviction(old(State(d)))
      ensures forall e :: e != d ==> State(e) == old(State(e))
    {
      evictionTimers := evictionTimers - {d};
      if d in sessions {
        autoRows := autoRows[d := sessions[d].ops];
        sessions := sessions - {d};
      }
    }
  }
}
