// The server together with its clients: first-in-first-out channels both
// ways, and why everyone ends up with the same document.
module Convergence {
  import opened Prelude
  import opened CollabServer

  // What a client sends, and what it is sent.
  datatype ToServer = JoinMessage | UpdateMessage(ops: Ops)
  datatype ToClient = JoinedMessage(canEdit: bool) | SyncMessage(ops: Ops)

  // One connection: a fresh document, and the messages on their way.
  datatype Client = Client(ops: Ops, joined: bool, canEdit: bool, up: seq<ToServer>, down: seq<ToClient>)

  datatype Net = Net(world: World, clients: map<Socket, Client>)

  const CONNECTED := Client({}, false, false, [JoinMessage], [])
  const QUIET_START := Net(START, map[])

  datatype Step =
    | Connect(c: Socket)
    | Edit(c: Socket, ops: Ops)
    | ServerReceives(c: Socket, canEdit: bool)
    | ClientReceives(c: Socket)
    | RestoreVersion(ops: Ops)
    | Close(c: Socket)
    | Timer(e: Event)

  predicate CanStep(n: Net, step: Step) {
    match step
    case Connect(c) => c !in n.clients && IsSocket(c)
    case Edit(c, _) => c in n.clients && n.clients[c].joined && n.clients[c].canEdit
    case ServerReceives(c, _) => c in n.clients && n.clients[c].up != []
    case ClientReceives(c) => c in n.clients && n.clients[c].down != []
    case RestoreVersion(_) => true
    case Close(c) => c in n.clients
    case Timer(e) => (e.Tick? || e.FlushEvent? || e.EvictEvent?) && Enabled(n.world, e)
  }

  /** A sync message to every joined client but `except`. */
  function Relay(clients: map<Socket, Client>, room: set<Socket>, except: Option<Socket>, ops: Ops): map<Socket, Client> {
    map c | c in clients ::
      if c in room && Some(c) != except then clients[c].(down := clients[c].down + [SyncMessage(ops)]) else clients[c]
  }

  /** The server takes the first message a client has sent. */
  function ServerTakes(n: Net, c: Socket, canEdit: bool, k: Timing): Net
    requires c in n.clients && n.clients[c].up != []
  {
    var client := n.clients[c].(up := n.clients[c].up[1..]);
    match n.clients[c].up[0]
    case JoinMessage =>
      var reply := [JoinedMessage(canEdit), SyncMessage(JoinPayload(n.world, c))];
      Net(Next(n.world, JoinEvent(c, canEdit), k), n.clients[c := client.(down := client.down + reply)])
    case UpdateMessage(ops) =>
      var accepted := c in n.world.members && n.world.members[c] && n.world.server.session.Some?;
      Net(if accepted then Next(n.world, UpdateEvent(c, ops), k) else n.world,
          var rest := n.clients[c := client];
          if accepted then Relay(rest, n.world.members.Keys, Some(c), ops) else rest)
  }

  /** The client applies the first message sent to it, and sends nothing back. */
  function ClientTakes(client: Client): Client
    requires client.down != []
  {
    var rest := client.(down := client.down[1..]);
    match client.down[0]
    case JoinedMessage(canEdit) => rest.(joined := true, canEdit := canEdit)
    case SyncMessage(ops) => rest.(ops := rest.ops + ops)
  }

  function NextNet(n: Net, step: Step, k: Timing): Net
    requires CanStep(n, step)
  {
    match step
    case Connect(c) => n.(clients := n.clients[c := CONNECTED])
    case Edit(c, ops) =>
      var client := n.clients[c];
      n.(clients := n.clients[c := client.(ops := client.ops + ops, up := client.up + [UpdateMessage(ops)])])
    case ServerReceives(c, canEdit) => ServerTakes(n, c, canEdit, k)
    case ClientReceives(c) => n.(clients := n.clients[c := ClientTakes(n.clients[c])])
    case RestoreVersion(ops) =>
      var diff := ops - Hydrate(n.world.server).session.value.ops;
      Net(Next(n.world, RestoreEvent(ops), k), Relay(n.clients, n.world.members.Keys, None, diff))
    case Close(c) =>
      Net(if c in n.world.members then Next(n.world, DisconnectEvent(c), k) else n.world, n.clients - {c})
    case Timer(e) => n.(world := Next(n.world, e, k))
  }

  predicate CanRun(n: Net, steps: seq<Step>, k: Timing)
    decreases |steps|
  {
    steps != [] ==> CanStep(n, steps[0]) && CanRun(NextNet(n, steps[0], k), steps[1..], k)
  }

  function RunNet(n: Net, steps: seq<Step>, k: Timing): Net
    requires CanRun(n, steps, k)
    decreases |steps|
  {
    if steps == [] then n else RunNet(NextNet(n, steps[0], k), steps[1..], k)
  }

  // ----- what is in flight -----

  function Carried(m: ToServer): Ops {
    if m.UpdateMessage? then m.ops else {}
  }

  function Sent(m: ToClient): Ops {
    if m.SyncMessage? then m.ops else {}
  }

  function UpOps(up: seq<ToServer>): Ops {
    if up == [] then {} else Carried(up[0]) + UpOps(up[1..])
  }

  function DownOps(down: seq<ToClient>): Ops {
    if down == [] then {} else Sent(down[0]) + DownOps(down[1..])
  }

  lemma {:induction false} UpOpsAppend(up: seq<ToServer>, m: ToServer)
    ensures UpOps(up + [m]) == UpOps(up) + Carried(m)
  {
    if up == [] {
      assert [m][1..] == [];
    } else {
      assert (up + [m])[1..] == up[1..] + [m];
      UpOpsAppend(up[1..], m);
    }
  }

  lemma {:induction false} DownOpsAppend(down: seq<ToClient>, m: ToClient)
    ensures DownOps(down + [m]) == DownOps(down) + Sent(m)
  {
    if down == [] {
      assert [m][1..] == [];
    } else {
      assert (down + [m])[1..] == down[1..] + [m];
      DownOpsAppend(down[1..], m);
    }
  }

  // ----- what every run keeps -----

  /**
   * A joined client has, or is being sent, everything the server has; what it
   * has or is being sent is at the server or on its way there.
   */
  ghost predicate Synced(client: Client, server: Ops) {
    && server <= client.ops + DownOps(client.down)
    && client.ops + DownOps(client.down) <= server + UpOps(client.up)
  }

  /** Nothing but updates is on its way up, made of the client's own operations, and only from editors. */
  ghost predicate Honest(client: Client, canEdit: bool) {
    && (forall m :: m in client.up ==> m.UpdateMessage?)
    && UpOps(client.up) <= client.ops
    && (client.joined && client.canEdit ==> canEdit)
    && (forall m :: m in client.down && m.JoinedMessage? ==> m.canEdit == canEdit)
    && (!canEdit ==> client.up == [])
  }

  /** What the server holds in memory. */
  function Held(w: World): Ops {
    if w.server.session.Some? then w.server.session.value.ops else {}
  }

  ghost predicate ClientInv(w: World, c: Socket, client: Client) {
    if c in w.members
    then Synced(client, Held(w)) && Honest(client, w.members[c])
    else client == CONNECTED
  }

  ghost predicate NetInv(n: Net, k: Timing) {
    && Sound(n.world, k)
    && n.world.members.Keys <= n.clients.Keys
    && forall c :: c in n.clients ==> IsSocket(c) && ClientInv(n.world, c, n.clients[c])
  }

  /** A relayed message keeps a client in step with a server that has just accepted it. */
  lemma RelayKeepsSynced(client: Client, server: Ops, ops: Ops, sent: Ops)
    requires Synced(client, server) && server + sent == server + ops
    ensures Synced(client.(down := client.down + [SyncMessage(sent)]), server + ops)
  {
    DownOpsAppend(client.down, SyncMessage(sent));
  }

  /** The sender already holds what the server accepts from it. */
  lemma SenderKeepsSynced(client: Client, server: Ops)
    requires Synced(client, server) && client.up != [] && UpOps(client.up) <= client.ops
    ensures Synced(client.(up := client.up[1..]), server + Carried(client.up[0]))
  {
  }

  lemma TakenKeeps(client: Client, server: Ops, canEdit: bool)
    requires Synced(client, server) && Honest(client, canEdit) && client.down != []
    ensures Synced(ClientTakes(client), server) && Honest(ClientTakes(client), canEdit)
  {
    assert client.down[0] in client.down;
    assert forall m :: m in client.down[1..] ==> m in client.down;
  }

  lemma EditKeeps(client: Client, server: Ops, canEdit: bool, ops: Ops)
    requires Synced(client, server) && Honest(client, canEdit) && client.joined && client.canEdit
    ensures var edited := client.(ops := client.ops + ops, up := client.up + [UpdateMessage(ops)]);
            Synced(edited, server) && Honest(edited, canEdit)
  {
    UpOpsAppend(client.up, UpdateMessage(ops));
  }

  lemma JoinedKeeps(server: Ops, canEdit: bool)
    ensures var client := Client({}, false, false, [], [JoinedMessage(canEdit), SyncMessage(server)]);
            Synced(client, server) && Honest(client, canEdit)
  {
    assert [JoinedMessage(canEdit), SyncMessage(server)] == [JoinedMessage(canEdit)] + [SyncMessage(server)];
    assert [JoinedMessage(canEdit)] == [] + [JoinedMessage(canEdit)];
    DownOpsAppend([], JoinedMessage(canEdit));
    DownOpsAppend([JoinedMessage(canEdit)], SyncMessage(server));
  }

  lemma JoinStepKeeps(n: Net, c: Socket, canEdit: bool, k: Timing)
    requires NetInv(n, k)
    requires c in n.clients && n.clients[c].up != [] && n.clients[c].up[0].JoinMessage?
    ensures NetInv(ServerTakes(n, c, canEdit, k), k)
  {
    var n' := ServerTakes(n, c, canEdit, k);
    assert n.clients[c].up[0] in n.clients[c].up;
    assert n.clients[c] == CONNECTED;
    NextSound(n.world, JoinEvent(c, canEdit), k);
    JoinedKeeps(Held(n'.world), canEdit);
    assert n'.clients[c] == Client({}, false, false, [], [JoinedMessage(canEdit), SyncMessage(Held(n'.world))]);
    forall x | x in n'.clients ensures IsSocket(x) && ClientInv(n'.world, x, n'.clients[x]) {
      if x != c {
        assert ClientInv(n.world, x, n.clients[x]);
        assert n.world.server.session.None? ==> x !in n.world.members.Keys;
      }
    }
  }

  lemma UpdateStepKeeps(n: Net, c: Socket, canEdit: bool, k: Timing)
    requires NetInv(n, k)
    requires c in n.clients && n.clients[c].up != [] && n.clients[c].up[0].UpdateMessage?
    ensures NetInv(ServerTakes(n, c, canEdit, k), k)
  {
    var ops := n.clients[c].up[0].ops;
    var n' := ServerTakes(n, c, canEdit, k);
    assert ClientInv(n.world, c, n.clients[c]);
    assert c in n.world.members.Keys && n.world.members[c];
    NextSound(n.world, UpdateEvent(c, ops), k);
    assert Held(n'.world) == Held(n.world) + ops;
    forall x | x in n'.clients ensures IsSocket(x) && ClientInv(n'.world, x, n'.clients[x]) {
      assert ClientInv(n.world, x, n.clients[x]);
      if x == c {
        SenderKeepsSynced(n.clients[c], Held(n.world));
      } else if x in n.world.members {
        RelayKeepsSynced(n.clients[x], Held(n.world), ops, ops);
      }
    }
  }

  lemma RestoreStepKeeps(n: Net, ops: Ops, k: Timing)
    requires NetInv(n, k)
    ensures NetInv(NextNet(n, RestoreVersion(ops), k), k)
  {
    var n' := NextNet(n, RestoreVersion(ops), k);
    NextSound(n.world, RestoreEvent(ops), k);
    forall x | x in n'.clients ensures IsSocket(x) && ClientInv(n'.world, x, n'.clients[x]) {
      assert ClientInv(n.world, x, n.clients[x]);
      if x in n.world.members {
        assert x in n.world.members.Keys;
        assert Held(n'.world) == Held(n.world) + ops == Held(n.world) + (ops - Held(n.world));
        RelayKeepsSynced(n.clients[x], Held(n.world), ops, ops - Held(n.world));
      }
    }
  }

  /** Timers leave what is held alone while anyone is there. */
  lemma TimerStepKeeps(n: Net, e: Event, k: Timing)
    requires NetInv(n, k) && CanStep(n, Timer(e))
    ensures NetInv(NextNet(n, Timer(e), k), k)
  {
    NextSound(n.world, e, k);
    forall x | x in n.clients ensures ClientInv(Next(n.world, e, k), x, n.clients[x]) {
      assert ClientInv(n.world, x, n.clients[x]);
      assert e.EvictEvent? ==> x !in n.world.members.Keys;
    }
  }

  lemma CloseStepKeeps(n: Net, c: Socket, k: Timing)
    requires NetInv(n, k) && c in n.clients
    ensures NetInv(NextNet(n, Close(c), k), k)
  {
    var n' := NextNet(n, Close(c), k);
    if c in n.world.members {
      assert c in n.world.members.Keys;
      NextSound(n.world, DisconnectEvent(c), k);
      RemovedStaysRemoved(n.world.server.session.value, c);
    }
    forall x | x in n'.clients ensures ClientInv(n'.world, x, n'.clients[x]) {
      assert ClientInv(n.world, x, n.clients[x]);
    }
  }

  lemma StepKeepsNet(n: Net, step: Step, k: Timing)
    requires NetInv(n, k) && CanStep(n, step)
    ensures NetInv(NextNet(n, step, k), k)
  {
    match step {
      case Connect(c) =>
      case Edit(c, ops) =>
        assert ClientInv(n.world, c, n.clients[c]);
        EditKeeps(n.clients[c], Held(n.world), n.world.members[c], ops);
      case ServerReceives(c, canEdit) =>
        if n.clients[c].up[0].JoinMessage? { JoinStepKeeps(n, c, canEdit, k); } else { UpdateStepKeeps(n, c, canEdit, k); }
      case ClientReceives(c) =>
        assert ClientInv(n.world, c, n.clients[c]);
        TakenKeeps(n.clients[c], Held(n.world), n.world.members[c]);
      case RestoreVersion(ops) => RestoreStepKeeps(n, ops, k);
      case Close(c) => CloseStepKeeps(n, c, k);
      case Timer(e) => TimerStepKeeps(n, e, k);
    }
  }

  lemma {:induction false} RunKeepsNet(n: Net, steps: seq<Step>, k: Timing)
    requires NetInv(n, k) && CanRun(n, steps, k)
    ensures NetInv(RunNet(n, steps, k), k)
    decreases |steps|
  {
    if steps != [] {
      StepKeepsNet(n, steps[0], k);
      RunKeepsNet(NextNet(n, steps[0], k), steps[1..], k);
    }
  }

  /** Of the server, a step of the network is nothing or one event. */
  lemma StepComplete(n: Net, step: Step, k: Timing)
    requires NetInv(n, k) && Complete(n.world) && CanStep(n, step) && k.window < k.grace
    ensures Complete(NextNet(n, step, k).world)
  {
    match step {
      case ServerReceives(c, canEdit) =>
        match n.clients[c].up[0] {
          case JoinMessage => NextComplete(n.world, JoinEvent(c, canEdit), k);
          case UpdateMessage(ops) =>
            if c in n.world.members { NextComplete(n.world, UpdateEvent(c, ops), k); }
        }
      case RestoreVersion(ops) => NextComplete(n.world, RestoreEvent(ops), k);
      case Close(c) => if c in n.world.members { NextComplete(n.world, DisconnectEvent(c), k); }
      case Timer(e) => NextComplete(n.world, e, k);
      case _ =>
    }
  }

  lemma {:induction false} RunCompleteNet(n: Net, steps: seq<Step>, k: Timing)
    requires NetInv(n, k) && Complete(n.world) && CanRun(n, steps, k) && k.window < k.grace
    ensures Complete(RunNet(n, steps, k).world)
    decreases |steps|
  {
    if steps != [] {
      StepKeepsNet(n, steps[0], k);
      StepComplete(n, steps[0], k);
      RunCompleteNet(NextNet(n, steps[0], k), steps[1..], k);
    }
  }

  // ----- convergence -----

  predicate Quiet(n: Net) {
    forall c :: c in n.clients ==> n.clients[c].up == [] && n.clients[c].down == []
  }

  /** Everyone is in, and holds what the server holds. */
  ghost predicate Agreed(n: Net) {
    forall c :: c in n.clients ==>
      && c in n.world.members
      && n.world.server.session.Some? && n.clients[c].ops == n.world.server.session.value.ops
  }

  /** With nothing in flight, the server and every client hold the same set. */
  lemma QuietMeansEqual(n: Net, k: Timing)
    requires NetInv(n, k) && Quiet(n)
    ensures Agreed(n)
  {
    forall c | c in n.clients
      ensures c in n.world.members.Keys && n.clients[c].ops == Held(n.world)
    {
      assert ClientInv(n.world, c, n.clients[c]);
    }
  }

  /** With any timing, in every reachable state with nothing in flight, the server and every client hold the same set. */
  lemma ReachableAgreed(steps: seq<Step>, k: Timing)
    requires CanRun(QUIET_START, steps, k) && Quiet(RunNet(QUIET_START, steps, k))
    ensures Agreed(RunNet(QUIET_START, steps, k))
  {
    RunKeepsNet(QUIET_START, steps, k);
    QuietMeansEqual(RunNet(QUIET_START, steps, k), k);
  }

  /** While the window is shorter than the grace period, that set is all that was ever accepted. */
  lemma ReachableAgreedOnAll(steps: seq<Step>, k: Timing, c: Socket)
    requires CanRun(QUIET_START, steps, k) && Quiet(RunNet(QUIET_START, steps, k)) && k.window < k.grace
    requires c in RunNet(QUIET_START, steps, k).clients
    ensures RunNet(QUIET_START, steps, k).clients[c].ops == RunNet(QUIET_START, steps, k).world.accepted
  {
    ReachableAgreed(steps, k);
    RunCompleteNet(QUIET_START, steps, k);
  }

  /**
   * With any timing, in every reachable state, joined clients cover the server,
   * and what they hold is at the server or on its way there.
   */
  lemma ReachableSynced(steps: seq<Step>, k: Timing, c: Socket)
    requires CanRun(QUIET_START, steps, k)
    requires c in RunNet(QUIET_START, steps, k).world.members
    ensures var n := RunNet(QUIET_START, steps, k);
            && c in n.clients && n.world.server.session.Some?
            && Synced(n.clients[c], n.world.server.session.value.ops)
  {
    RunKeepsNet(QUIET_START, steps, k);
    var n := RunNet(QUIET_START, steps, k);
    assert c in n.world.members.Keys;
    assert ClientInv(n.world, c, n.clients[c]);
  }

  // ----- the channels do empty -----

  ghost function Total(f: map<Socket, nat>): nat
    decreases |f|
  {
    if forall c :: c !in f then 0
    else
      var c :| c in f;
      assert |f - {c}| < |f|;
      f[c] + Total(f - {c})
  }

  lemma {:induction false} TotalSplit(f: map<Socket, nat>, c: Socket)
    requires c in f
    ensures Total(f) == f[c] + Total(f - {c})
    decreases |f|
  {
    var d :| d in f && Total(f) == f[d] + Total(f - {d});
    if d != c {
      assert |f - {d}| < |f| && |f - {c}| < |f|;
      TotalSplit(f - {d}, c);
      TotalSplit(f - {c}, d);
      assert f - {d} - {c} == f - {c} - {d};
    }
  }

  lemma TotalUpdate(f: map<Socket, nat>, c: Socket, v: nat)
    requires c in f
    ensures Total(f[c := v]) == Total(f) - f[c] + v
  {
    TotalSplit(f, c);
    TotalSplit(f[c := v], c);
    assert f[c := v] - {c} == f - {c};
  }

  /** Adding at most one everywhere adds at most the number of entries. */
  lemma {:induction false} TotalBump(f: map<Socket, nat>, g: map<Socket, nat>)
    requires f.Keys == g.Keys && forall c :: c in f ==> g[c] <= f[c] + 1
    ensures Total(g) <= Total(f) + |f|
    decreases |f|
  {
    if c :| c in f {
      TotalSplit(f, c);
      TotalSplit(g, c);
      assert (f - {c}).Keys == f.Keys - {c} && (g - {c}).Keys == g.Keys - {c};
      assert |f - {c}| == |f| - 1;
      TotalBump(f - {c}, g - {c});
    }
  }

  ghost function Ups(n: Net): map<Socket, nat> { map c | c in n.clients :: |n.clients[c].up| }
  ghost function Downs(n: Net): map<Socket, nat> { map c | c in n.clients :: |n.clients[c].down| }

  /** How many deliveries can still happen if nobody edits. */
  ghost function Backlog(n: Net): nat {
    Total(Ups(n)) * (|n.clients| + 2) + Total(Downs(n))
  }

  predicate Delivery(step: Step) {
    step.ServerReceives? || step.ClientReceives?
  }

  lemma ClientDeliveryShrinks(n: Net, c: Socket, k: Timing)
    requires CanStep(n, ClientReceives(c))
    ensures Backlog(NextNet(n, ClientReceives(c), k)) < Backlog(n)
  {
    var n' := NextNet(n, ClientReceives(c), k);
    assert n'.clients.Keys == n.clients.Keys;
    assert Ups(n') == Ups(n);
    assert Downs(n') == Downs(n)[c := |n.clients[c].down| - 1];
    TotalUpdate(Downs(n), c, |n.clients[c].down| - 1);
    SameSize(n, n');
  }

  lemma SameSize(n: Net, n': Net)
    requires n'.clients.Keys == n.clients.Keys
    ensures |n'.clients| == |n.clients|
  {
    assert |n.clients| == |n.clients.Keys| && |n'.clients| == |n'.clients.Keys|;
  }

  /** One message fewer going up outweighs `more` going down, if those are at most one a client and two. */
  lemma Outweighs(n: Net, n': Net, c: Socket, more: nat)
    requires n'.clients.Keys == n.clients.Keys && c in n.clients && n.clients[c].up != []
    requires Ups(n') == Ups(n)[c := |n.clients[c].up| - 1]
    requires Total(Downs(n')) <= Total(Downs(n)) + more && more < |n.clients| + 2
    ensures Backlog(n') < Backlog(n)
  {
    TotalUpdate(Ups(n), c, |n.clients[c].up| - 1);
    SameSize(n, n');
    Drop(Total(Ups(n)), |n.clients| + 2);
  }

  lemma JoinTraffic(n: Net, c: Socket, canEdit: bool, k: Timing)
    requires CanStep(n, ServerReceives(c, canEdit)) && n.clients[c].up[0].JoinMessage?
    ensures var n' := ServerTakes(n, c, canEdit, k);
            && n'.clients.Keys == n.clients.Keys
            && Ups(n') == Ups(n)[c := |n.clients[c].up| - 1]
            && Downs(n') == Downs(n)[c := |n.clients[c].down| + 2]
  {
  }

  lemma JoinDeliveryShrinks(n: Net, c: Socket, canEdit: bool, k: Timing)
    requires CanStep(n, ServerReceives(c, canEdit)) && n.clients[c].up[0].JoinMessage?
    ensures Backlog(ServerTakes(n, c, canEdit, k)) < Backlog(n)
  {
    JoinTraffic(n, c, canEdit, k);
    assert c in n.clients.Keys && |n.clients| == |n.clients.Keys| > 0;
    TotalUpdate(Downs(n), c, |n.clients[c].down| + 2);
    Outweighs(n, ServerTakes(n, c, canEdit, k), c, 2);
  }

  lemma UpdateTraffic(n: Net, c: Socket, canEdit: bool, k: Timing)
    requires CanStep(n, ServerReceives(c, canEdit)) && n.clients[c].up[0].UpdateMessage?
    ensures var n' := ServerTakes(n, c, canEdit, k);
            && n'.clients.Keys == n.clients.Keys
            && Ups(n') == Ups(n)[c := |n.clients[c].up| - 1]
            && Downs(n').Keys == Downs(n).Keys
            && forall x :: x in Downs(n) ==> Downs(n')[x] <= Downs(n)[x] + 1
  {
  }

  lemma UpdateDeliveryShrinks(n: Net, c: Socket, canEdit: bool, k: Timing)
    requires CanStep(n, ServerReceives(c, canEdit)) && n.clients[c].up[0].UpdateMessage?
    ensures Backlog(ServerTakes(n, c, canEdit, k)) < Backlog(n)
  {
    var n' := ServerTakes(n, c, canEdit, k);
    UpdateTraffic(n, c, canEdit, k);
    TotalBump(Downs(n), Downs(n'));
    assert Downs(n).Keys == n.clients.Keys;
    assert |Downs(n)| == |Downs(n).Keys| == |n.clients|;
    Outweighs(n, n', c, |n.clients|);
  }

  lemma ServerDeliveryShrinks(n: Net, c: Socket, canEdit: bool, k: Timing)
    requires CanStep(n, ServerReceives(c, canEdit))
    ensures Backlog(NextNet(n, ServerReceives(c, canEdit), k)) < Backlog(n)
  {
    if n.clients[c].up[0].JoinMessage? {
      JoinDeliveryShrinks(n, c, canEdit, k);
    } else {
      UpdateDeliveryShrinks(n, c, canEdit, k);
    }
  }

  lemma Drop(a: nat, b: nat)
    requires a > 0
    ensures (a - 1) * b == a * b - b
  {
  }

  /** Since nothing received is sent back, any run of deliveries is at most as long as the backlog. */
  lemma {:induction false} DeliveriesEnd(n: Net, steps: seq<Step>, k: Timing)
    requires CanRun(n, steps, k) && AllDeliveries(steps)
    ensures |steps| <= Backlog(n)
    decreases |steps|
  {
    if steps != [] {
      match steps[0] {
        case ServerReceives(c, canEdit) => ServerDeliveryShrinks(n, c, canEdit, k);
        case ClientReceives(c) => ClientDeliveryShrinks(n, c, k);
      }
      DeliveriesEnd(NextNet(n, steps[0], k), steps[1..], k);
    }
  }

  lemma NextDelivery(n: Net, k: Timing) returns (step: Step)
    requires !Quiet(n)
    ensures CanStep(n, step) && Delivery(step) && Backlog(NextNet(n, step, k)) < Backlog(n)
  {
    var c :| c in n.clients && (n.clients[c].up != [] || n.clients[c].down != []);
    if n.clients[c].up != [] {
      step := ServerReceives(c, true);
      ServerDeliveryShrinks(n, c, true, k);
    } else {
      step := ClientReceives(c);
      ClientDeliveryShrinks(n, c, k);
    }
  }

  predicate AllDeliveries(steps: seq<Step>) {
    forall i :: 0 <= i < |steps| ==> Delivery(steps[i])
  }

  lemma DeliverFirst(n: Net, step: Step, rest: seq<Step>, k: Timing)
    requires CanStep(n, step) && Delivery(step)
    requires CanRun(NextNet(n, step, k), rest, k) && AllDeliveries(rest)
    ensures CanRun(n, [step] + rest, k) && AllDeliveries([step] + rest)
    ensures RunNet(n, [step] + rest, k) == RunNet(NextNet(n, step, k), rest, k)
  {
    assert ([step] + rest)[1..] == rest;
  }

  /** From every reachable state, delivering what is in flight ends with everyone holding the same document. */
  lemma {:induction false} Converges(n: Net, k: Timing) returns (steps: seq<Step>)
    requires NetInv(n, k)
    ensures CanRun(n, steps, k) && AllDeliveries(steps)
    ensures Quiet(RunNet(n, steps, k)) && Agreed(RunNet(n, steps, k))
    decreases Backlog(n)
  {
    if Quiet(n) {
      steps := [];
      QuietMeansEqual(n, k);
    } else {
      var step := NextDelivery(n, k);
      StepKeepsNet(n, step, k);
      var rest := Converges(NextNet(n, step, k), k);
      steps := [step] + rest;
      DeliverFirst(n, step, rest, k);
    }
  }

  // ----- what one step does to others -----

  /**
   * An accepted update goes to every other joined client, once, and not back to
   * its sender; an update that is not accepted goes to nobody.
   */
  lemma RelayedExactly(n: Net, c: Socket, canEdit: bool, k: Timing, x: Socket)
    requires NetInv(n, k) && CanStep(n, ServerReceives(c, canEdit)) && n.clients[c].up[0].UpdateMessage? && x in n.clients
    ensures var ops := n.clients[c].up[0].ops;
            var n' := ServerTakes(n, c, canEdit, k);
            var relayed := x != c && x in n.world.members && c in n.world.members && n.world.members[c];
            && x in n'.clients
            && n'.clients[x].down == n.clients[x].down + (if relayed then [SyncMessage(ops)] else [])
            && n'.clients[x].ops == n.clients[x].ops && n'.clients[x].joined == n.clients[x].joined
  {
    assert c in n.world.members ==> c in n.world.members.Keys;
    assert n.clients[x].down + [] == n.clients[x].down;
  }

  /** A version restore sends every joined client exactly what the server did not hold before. */
  lemma RestoreRelayedExactly(n: Net, ops: Ops, k: Timing, x: Socket)
    requires NetInv(n, k) && x in n.clients
    ensures var n' := NextNet(n, RestoreVersion(ops), k);
            && Held(n'.world) == Hydrate(n.world.server).session.value.ops + ops
            && x in n'.clients
            && n'.clients[x] == if x in n.world.members
                                then n.clients[x].(down := n.clients[x].down + [SyncMessage(ops - Held(n.world))])
                                else n.clients[x]
  {
    assert x in n.world.members ==> x in n.world.members.Keys;
  }

  /** A client that connects is in after one message up and two down, as editor or reader as the server said. */
  lemma JoinCompletes(n: Net, c: Socket, canEdit: bool, k: Timing)
    requires NetInv(n, k) && c in n.clients && n.clients[c] == CONNECTED
    ensures var steps := [ServerReceives(c, canEdit), ClientReceives(c), ClientReceives(c)];
            CanRun(n, steps, k) &&
            var end := RunNet(n, steps, k);
            && c in end.world.members && end.world.members[c] == canEdit && c in end.clients
            && end.clients[c].joined && end.clients[c].canEdit == canEdit && end.clients[c].ops == Held(end.world)
  {
    var steps := [ServerReceives(c, canEdit), ClientReceives(c), ClientReceives(c)];
    var n1 := NextNet(n, steps[0], k);
    var n2 := NextNet(n1, steps[1], k);
    var n3 := NextNet(n2, steps[2], k);
    assert n1.clients[c].down == [JoinedMessage(canEdit), SyncMessage(Held(n1.world))];
    assert n2.clients[c].down == [SyncMessage(Held(n1.world))];
    assert CanRun(n3, steps[3..], k) && RunNet(n3, steps[3..], k) == n3;
    assert CanRun(n2, steps[2..], k) && RunNet(n2, steps[2..], k) == n3;
    assert CanRun(n1, steps[1..], k) && RunNet(n1, steps[1..], k) == n3;
    assert CanRun(n, steps, k) && RunNet(n, steps, k) == n3;
  }

  lemma {:induction false} DeliveriesKeepOps(n: Net, steps: seq<Step>, k: Timing, c: Socket)
    requires CanRun(n, steps, k) && AllDeliveries(steps) && c in n.clients
    ensures c in RunNet(n, steps, k).clients && n.clients[c].ops <= RunNet(n, steps, k).clients[c].ops
    decreases |steps|
  {
    if steps != [] {
      assert Delivery(steps[0]);
      DeliveriesKeepOps(NextNet(n, steps[0], k), steps[1..], k, c);
    }
  }

  /** What an editor types reaches everybody: once all that is in flight has been delivered, all clients have it. */
  lemma EditReachesEveryone(n: Net, c: Socket, ops: Ops, steps: seq<Step>, k: Timing)
    requires NetInv(n, k) && CanStep(n, Edit(c, ops))
    requires CanRun(NextNet(n, Edit(c, ops), k), steps, k) && AllDeliveries(steps)
    requires Quiet(RunNet(NextNet(n, Edit(c, ops), k), steps, k))
    ensures var end := RunNet(NextNet(n, Edit(c, ops), k), steps, k);
            ops <= Held(end.world) && forall x :: x in end.clients ==> ops <= end.clients[x].ops
  {
    var edited := NextNet(n, Edit(c, ops), k);
    StepKeepsNet(n, Edit(c, ops), k);
    RunKeepsNet(edited, steps, k);
    QuietMeansEqual(RunNet(edited, steps, k), k);
    DeliveriesKeepOps(edited, steps, k, c);
  }
}
