/** How the workspace keeps its Yjs document in step with the server
    (client/client/src/Workspace.jsx, `Workspace`).

    `yjs-update` and `yjs-init` messages from the socket are applied to the
    local document with origin `"remote"`; every other message is ignored.
    Every update of the local document fires the document's update handler,
    which sends the update to the socket unless its origin is `"remote"` or
    the socket is not open. So an update received from the server is never
    sent back to it. */
module WorkspaceSync {
  import opened Wrappers

  type Blob = seq<bv8>

  /** The origin tag given to updates that came from the socket. */
  const RemoteOrigin: string := "remote"

  /** A message from the socket, as `JSON.parse` sees it; `Malformed` is a
      message that does not parse (the exception is swallowed). */
  datatype SocketMessage =
    | YjsUpdate(update: Blob)
    | YjsInit(update: Blob)
    | Other(kind: string)
    | Malformed

  /** An update applied to the local document and the transaction origin it
      was applied with (`None` for an edit made without an origin). */
  datatype Applied = Applied(update: Blob, origin: Option<string>)

  /** The rule of `onUpdate`. */
  predicate SendsUpdate(origin: Option<string>, socketOpen: bool)
  {
    origin != Some(RemoteOrigin) && socketOpen
  }

  class Session {
    /** The updates applied to the local document, oldest first. */
    var applied: seq<Applied>
    /** What `onUpdate` sent to the socket, oldest first. */
    var sent: seq<Blob>
    /** `socket.readyState === WebSocket.OPEN` */
    var socketOpen: bool

    /** Nothing is ever sent that was not applied with an origin other than
        `"remote"`: no echo. */
    ghost predicate Valid()
      reads this`applied, this`sent
    {
      forall i :: 0 <= i < |sent| ==>
        exists j :: 0 <= j < |applied| && applied[j].update == sent[i] && applied[j].origin != Some(RemoteOrigin)
    }

    constructor (open: bool)
      ensures Valid() && applied == [] && sent == [] && socketOpen == open
    {
      applied, sent, socketOpen := [], [], open;
    }

    /** An update of the local document with the given origin and the
        `update` event it fires, handled by `onUpdate`. */
    method ApplyUpdate(update: Blob, origin: Option<string>)
      requires Valid()
      modifies this`applied, this`sent
      ensures Valid()
      ensures applied == old(applied) + [Applied(update, origin)]
      ensures sent == old(sent) + (if SendsUpdate(origin, socketOpen) then [update] else [])
    {
      applied := applied + [Applied(update, origin)];
      if origin != Some(RemoteOrigin) && socketOpen {
        sent := sent + [update];
        assert applied[|applied| - 1].update == sent[|sent| - 1];
      }
      forall i | 0 <= i < |sent|
        ensures exists j :: 0 <= j < |applied| && applied[j].update == sent[i] && applied[j].origin != Some(RemoteOrigin)
      {
        if i < |old(sent)| {
          var j :| 0 <= j < |old(applied)| && old(applied)[j].update == old(sent)[i] && old(applied)[j].origin != Some(RemoteOrigin);
          assert applied[j] == old(applied)[j];
        } else {
          assert applied[|applied| - 1].update == sent[i];
        }
      }
    }

    /** `handleMessage`: an update or init message is applied with origin
        `"remote"`, and so is never sent on; other messages change nothing. */
    method HandleMessage(msg: SocketMessage)
      requires Valid()
      modifies this`applied, this`sent
      ensures Valid()
      ensures sent == old(sent)
      ensures applied == if msg.YjsUpdate? || msg.YjsInit? then old(applied) + [Applied(msg.update, Some(RemoteOrigin))]
                         else old(applied)
    {
      match msg {
        case YjsUpdate(update) =>
          ApplyUpdate(update, Some(RemoteOrigin));
        case YjsInit(update) =>
          ApplyUpdate(update, Some(RemoteOrigin));
        case _ =>
      }
    }

    /** The socket reaches the OPEN state (it may still be CONNECTING when
        the handlers are installed). */
    method SocketOpened()
      requires Valid()
      modifies this`socketOpen
      ensures Valid() && socketOpen
    {
      socketOpen := true;
    }

    /** The socket leaves the OPEN state. */
    method SocketClosed()
      requires Valid()
      modifies this`socketOpen
      ensures Valid() && !socketOpen
    {
      socketOpen := false;
    }
  }
}
