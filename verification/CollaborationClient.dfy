// The browser's end of a collaboration socket: handlers over one shared
// document, whose own change listener decides what is sent.
module CollaborationClient {
  import opened CollabServer
  import opened Convergence

  // Who changed the document: the user here, or an update that was applied.
  datatype Origin = Local | Remote

  class CollaborationClient {
    var ops: Ops
    var joined: bool
    var canEdit: bool
    // What has been handed to the socket and not yet reached the server.
    var outbox: seq<ToServer>

    constructor ()
      ensures Seen([]) == Client({}, false, false, [], [])
    {
      ops, joined, canEdit, outbox := {}, false, false, [];
    }

    /** This end together with what is on its way to it. */
    function Seen(down: seq<ToClient>): Client
      reads this
    {
      Client(ops, joined, canEdit, outbox, down)
    }

    method HandleConnect()
      modifies this`outbox
      ensures outbox == old(outbox) + [JoinMessage]
      ensures old(Seen([])) == Client({}, false, false, [], []) ==> Seen([]) == CONNECTED
    {
      outbox := outbox + [JoinMessage];
    }

    /** The document's change listener: what was only applied is not echoed. */
    method DocumentUpdated(update: Ops, origin: Origin)
      modifies this`outbox
      ensures outbox == if origin == Remote then old(outbox) else old(outbox) + [UpdateMessage(update)]
    {
      if origin == Remote {
        return;
      }
      outbox := outbox + [UpdateMessage(update)];
    }

    method ApplyUpdate(update: Ops, origin: Origin)
      modifies this`ops, this`outbox
      ensures ops == old(ops) + update
      ensures outbox == if origin == Remote then old(outbox) else old(outbox) + [UpdateMessage(update)]
    {
      ops := ops + update;
      DocumentUpdated(update, origin);
    }

    /** A message from the server does to this end what the step of the run does. */
    method HandleMessage(m: ToClient, ghost rest: seq<ToClient>)
      modifies this
      ensures Seen(rest) == ClientTakes(old(Seen([m] + rest)))
    {
      match m {
        case JoinedMessage(mayEdit) => joined, canEdit := true, mayEdit;
        case SyncMessage(update) => ApplyUpdate(update, Remote);
      }
    }

    /** So does a change the user makes. */
    method Edit(update: Ops, ghost n: Net, ghost c: Socket, ghost k: Timing, ghost down: seq<ToClient>)
      requires c in n.clients && n.clients[c] == Seen(down) && CanStep(n, Step.Edit(c, update))
      modifies this
      ensures Seen(down) == NextNet(n, Step.Edit(c, update), k).clients[c]
    {
      ApplyUpdate(update, Local);
    }
  }
}
