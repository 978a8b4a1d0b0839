/** The in-memory room registry and message relay of the WebSocket server
    (server/server.js).

    The server keeps two module-level maps, room -> document and
    room -> set of connections. They are filled lazily when a connection
    names a room in its URL path and emptied together when the last
    connection of a room closes. Every `yjs-update` is applied to the room's
    document and, like every `webrtc-signal`, forwarded to every other open
    connection of the same room.

    Connections are abstract ids. `open` stands for `readyState === OPEN`.
    What the server sends to each connection is recorded in an output log. */
module Relay {
  import opened Wrappers

  /** A connection (a `ws` object); ids are never reused. */
  type ClientId = nat

  /** An opaque Yjs update, as the byte array carried in the JSON message. */
  type Blob = seq<bv8>

  /** A room document: the Yjs updates applied to it, in order, since it was
      created empty by `new Y.Doc()`. The merge itself is not modelled. */
  type Doc = seq<Blob>

  /** A parsed inbound message; `Unrecognised` is any other `type`. */
  datatype Incoming =
    | YjsUpdate(update: Blob)
    | WebrtcSignal(to: Option<string>, signal: string)
    | Unrecognised(kind: string)

  /** An outbound message. `YjsInit` carries the room document it encodes
      (`encodeStateAsUpdate` is left uninterpreted). */
  datatype Outgoing =
    | YjsInit(state: Doc)
    | YjsRelay(update: Blob)
    | SignalRelay(signal: string)

  /** The path of a request target: everything before the first `?` (query)
      or `#` (fragment). */
  function PathPart(target: string): (p: string)
    ensures p <= target
    ensures '?' !in p && '#' !in p
    ensures p == target || target[|p|] == '?' || target[|p|] == '#'
  {
    if target == [] || target[0] == '?' || target[0] == '#' then []
    else [target[0]] + PathPart(target[1..])
  }

  /** The room a connection joins: the URL's pathname with its leading `/`
      removed. A relative target without a scheme that does not start with
      `/` is resolved against the base URL's root, so its whole path is the
      room name. A target with a scheme (the absolute form `http://h/x`) is
      not parsed as a full URL: its whole path part is the room name. */
  function RoomFromUrl(target: string): (room: string)
    ensures '?' !in room && '#' !in room
    ensures |room| <= |target|
  {
    var path := PathPart(target);
    if path != [] && path[0] == '/' then path[1..] else path
  }

  /** The path part of a target whose path has no delimiter is that path. */
  lemma {:induction false} PathPartOfPlain(path: string, rest: string)
    requires '?' !in path && '#' !in path
    requires rest == [] || rest[0] == '?' || rest[0] == '#'
    ensures PathPart(path + rest) == path
  {
    if path != [] {
      assert (path + rest)[1..] == path[1..] + rest;
      PathPartOfPlain(path[1..], rest);
    }
  }

  /** A request for `/name`, optionally followed by a query or a fragment,
      joins the room `name`. */
  lemma RoomFromUrlOfPath(name: string, rest: string)
    requires '?' !in name && '#' !in name
    requires rest == [] || rest[0] == '?' || rest[0] == '#'
    ensures RoomFromUrl("/" + name + rest) == name
  {
    PathPartOfPlain("/" + name, rest);
  }

  /** What a message is relayed as, if at all: an update keeps its payload,
      a signal keeps only its payload, anything else is not relayed. */
  function Forwarded(msg: Incoming): Option<Outgoing>
  {
    match msg
    case YjsUpdate(u) => Some(YjsRelay(u))
    case WebrtcSignal(_, s) => Some(SignalRelay(s))
    case Unrecognised(_) => None
  }

  /** The `clients.forEach` loop: sends `msg` to every member of the room
      other than the sender whose state is OPEN, and to nobody else. */
  method FanOut(outbox: map<ClientId, seq<Outgoing>>, members: set<ClientId>,
                open: set<ClientId>, sender: ClientId, msg: Outgoing)
    returns (out: map<ClientId, seq<Outgoing>>)
    requires members <= outbox.Keys
    ensures out.Keys == outbox.Keys
    ensures forall c :: c in out ==>
      out[c] == if c in members && c in open && c != sender then outbox[c] + [msg] else outbox[c]
  {
    out := outbox;
    var todo := members;
    while todo != {}
      invariant todo <= members
      invariant out.Keys == outbox.Keys
      invariant forall c :: c in out ==>
        out[c] == if c in members - todo && c in open && c != sender then outbox[c] + [msg] else outbox[c]
      decreases todo
    {
      var c :| c in todo;
      if c != sender && c in open {
        out := out[c := out[c] + [msg]];
      }
      todo := todo - {c};
    }
  }

  /** The registry invariant over the server's state: both maps have the
      same rooms, no room is empty, the room sets are exactly the live
      connections grouped by room, and every live connection has a log. */
  ghost predicate Registry(docRooms: set<string>, rooms: map<string, set<ClientId>>,
                           roomOf: map<ClientId, string>, open: set<ClientId>, logged: set<ClientId>)
  {
    && docRooms == rooms.Keys
    && (forall r :: r in rooms ==> rooms[r] != {})
    && (forall c :: c in roomOf ==> roomOf[c] in rooms && c in rooms[roomOf[c]])
    && (forall r, c :: r in rooms && c in rooms[r] ==> c in roomOf && roomOf[c] == r)
    && open <= roomOf.Keys
    && roomOf.Keys <= logged
  }

  /** A fresh connection joining a room, created lazily, keeps the invariant. */
  lemma JoinKeepsRegistry(docs: map<string, Doc>, rooms: map<string, set<ClientId>>,
                          roomOf: map<ClientId, string>, open: set<ClientId>, logged: set<ClientId>,
                          c: ClientId, room: string)
    requires Registry(docs.Keys, rooms, roomOf, open, logged)
    requires c !in logged
    ensures Registry((if room in docs then docs else docs[room := []]).Keys,
                     rooms[room := (if room in rooms then rooms[room] else {}) + {c}],
                     roomOf[c := room], open + {c}, logged + {c})
  {
  }

  /** A live connection leaving its room, which is dropped with its document
      once empty, keeps the invariant. */
  lemma LeaveKeepsRegistry(docs: map<string, Doc>, rooms: map<string, set<ClientId>>,
                           roomOf: map<ClientId, string>, open: set<ClientId>, logged: set<ClientId>,
                           c: ClientId)
    requires Registry(docs.Keys, rooms, roomOf, open, logged)
    requires c in roomOf
    ensures var room := roomOf[c];
      var left := rooms[room] - {c};
      Registry((if left == {} then docs - {room} else docs).Keys,
               if left == {} then rooms - {room} else rooms[room := left],
               roomOf - {c}, open - {c}, logged)
  {
  }

  /** Overwriting a key twice keeps only the second value. */
  lemma OverwriteTwice<K, V>(m: map<K, V>, k: K, a: V, b: V)
    ensures m[k := a][k := b] == m[k := b]
  {
  }

  class Server {
    /** room -> Y.Doc */
    var docs: map<string, Doc>
    /** room -> Set<ws> */
    var rooms: map<string, set<ClientId>>
    /** The room each live connection's handlers were created for. */
    var roomOf: map<ClientId, string>
    /** The connections whose `readyState` is OPEN. */
    var open: set<ClientId>
    /** Everything sent to each connection, oldest first. */
    var outbox: map<ClientId, seq<Outgoing>>

    /** The registry invariant: both maps have the same rooms, no room is
        empty, and the room sets are exactly the live connections grouped by
        room. */
    ghost predicate Valid()
      reads this
    {
      Registry(docs.Keys, rooms, roomOf, open, outbox.Keys)
    }

    constructor ()
      ensures Valid()
      ensures docs == map[] && rooms == map[] && roomOf == map[] && open == {} && outbox == map[]
    {
      docs, rooms, roomOf, open, outbox := map[], map[], map[], {}, map[];
    }

    /** `getYDoc`: creates an empty document only when the room has none,
        and returns the room's document. */
    method GetYDoc(room: string) returns (d: Doc)
      modifies this`docs
      ensures room in old(docs) ==> docs == old(docs) && d == old(docs)[room]
      ensures room !in old(docs) ==> docs == old(docs)[room := []] && d == []
      ensures room in docs && d == docs[room]
    {
      if room !in docs {
        docs := docs[room := []];
      }
      d := docs[room];
    }

    /** `getRoom`: creates an empty connection set only when the room has
        none, and returns the room's set. */
    method GetRoom(room: string) returns (s: set<ClientId>)
      modifies this`rooms
      ensures room in old(rooms) ==> rooms == old(rooms) && s == old(rooms)[room]
      ensures room !in old(rooms) ==> rooms == old(rooms)[room := {}] && s == {}
      ensures room in rooms && s == rooms[room]
    {
      if room !in rooms {
        rooms := rooms[room := {}];
      }
      s := rooms[room];
    }

    /** The `connection` handler: the new connection joins the room named by
        its URL path and is sent the room's whole document as `yjs-init`. */
    method Connect(c: ClientId, url: string)
      requires Valid()
      requires c !in outbox
      modifies this
      ensures Valid()
      ensures var room := RoomFromUrl(url);
        && docs == (if room in old(docs) then old(docs) else old(docs)[room := []])
        && rooms == old(rooms)[room := (if room in old(rooms) then old(rooms)[room] else {}) + {c}]
        && roomOf == old(roomOf)[c := room]
        && open == old(open) + {c}
        && outbox == old(outbox)[c := [YjsInit(docs[room])]]
    {
      Join(c, RoomFromUrl(url));
    }

    /** The body of the `connection` handler once the room name is known. */
    method Join(c: ClientId, room: string)
      requires Valid()
      requires c !in outbox
      modifies this
      ensures Valid()
      ensures docs == if room in old(docs) then old(docs) else old(docs)[room := []]
      ensures rooms == old(rooms)[room := (if room in old(rooms) then old(rooms)[room] else {}) + {c}]
      ensures roomOf == old(roomOf)[c := room]
      ensures open == old(open) + {c}
      ensures outbox == old(outbox)[c := [YjsInit(docs[room])]]
    {
      JoinKeepsRegistry(docs, rooms, roomOf, open, outbox.Keys, c, room);
      var ydoc := GetYDoc(room);
      var clients := GetRoom(room);
      OverwriteTwice(old(rooms), room, {}, clients + {c});
      rooms := rooms[room := clients + {c}];
      roomOf := roomOf[c := room];
      open := open + {c};
      outbox := outbox[c := [YjsInit(ydoc)]];
    }

    /** The `message` handler of connection `c`: an update is applied to the
        room document; updates and signals are relayed to the other open
        connections of the room; anything else is ignored. */
    method HandleMessage(c: ClientId, msg: Incoming)
      requires Valid()
      requires c in roomOf
      modifies this`docs, this`outbox
      ensures Valid()
      ensures docs == if msg.YjsUpdate? then old(docs)[roomOf[c] := old(docs)[roomOf[c]] + [msg.update]] else old(docs)
      ensures outbox.Keys == old(outbox).Keys
      ensures forall k :: k in outbox ==>
        outbox[k] == if Forwarded(msg).Some? && k in rooms[roomOf[c]] && k in open && k != c
                     then old(outbox)[k] + [Forwarded(msg).value] else old(outbox)[k]
      ensures outbox[c] == old(outbox)[c]
      ensures forall k :: k in outbox && (k !in roomOf || roomOf[k] != roomOf[c]) ==> outbox[k] == old(outbox)[k]
    {
      var room := roomOf[c];
      var clients := rooms[room];
      match msg {
        case YjsUpdate(u) =>
          docs := docs[room := docs[room] + [u]];
          outbox := FanOut(outbox, clients, open, c, YjsRelay(u));
        case WebrtcSignal(_, s) =>
          outbox := FanOut(outbox, clients, open, c, SignalRelay(s));
        case Unrecognised(_) =>
      }
      assert docs.Keys == old(docs).Keys;
    }

    /** The transport leaves the OPEN state (closing handshake started); the
        `close` event comes later. */
    method BeginClosing(c: ClientId)
      requires Valid()
      modifies this`open
      ensures Valid()
      ensures open == old(open) - {c}
    {
      open := open - {c};
    }

    /** The `close` handler: `c` leaves its room; the room and its document
        are destroyed together exactly when no connection is left in it. */
    method Close(c: ClientId)
      requires Valid()
      requires c in roomOf
      modifies this`rooms, this`docs, this`roomOf, this`open
      ensures Valid()
      ensures var room := old(roomOf)[c];
        var left := old(rooms)[room] - {c};
        && roomOf == old(roomOf) - {c}
        && open == old(open) - {c}
        && (left == {} ==> rooms == old(rooms) - {room} && docs == old(docs) - {room})
        && (left != {} ==> rooms == old(rooms)[room := left] && docs == old(docs))
    {
      var room := roomOf[c];
      LeaveKeepsRegistry(docs, rooms, roomOf, open, outbox.Keys, c);
      var clients := rooms[room] - {c};
      rooms := rooms[room := clients];
      roomOf := roomOf - {c};
      open := open - {c};
      if |clients| == 0 {
        rooms := rooms - {room};
        docs := docs - {room};
      }
    }
  }
}
