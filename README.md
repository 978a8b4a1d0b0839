# Instizeit collaboration core in Dafny

Instizeit is a collaborative workspace. Users in a room share a rich text
and a sketch canvas, which are kept in sync through Yjs updates relayed by a
WebSocket server. The WebRTC signalling for the video call uses the same
socket. This project models the core of that system:

- `relay.dfy`, module `Relay`: the server's in-memory room registry and relay
  (server/server.js). It keeps two maps, room to document and room to set of
  connections. Both are filled lazily when a connection names a room in its
  URL path, and both are emptied when the room's last connection closes.
  Updates are appended to the room document. Updates and signals are sent to
  every other open connection of the same room. The class `Relay.Server`
  keeps the invariant that the maps agree and that no room is empty.
- `store.dfy`, module `Store`: the Postgres store (server/db.js). The three
  tables are maps keyed by their primary keys. Each exported function is
  modelled by the one SQL statement it runs, including the statements
  Postgres rejects:
  - a duplicate key;
  - a foreign key with no target;
  - an integer outside the 32-bit `INT` column, including `version + 1` at
    the maximum.

  The class `Store.Database` applies these statements in place and keeps the
  schema's guarantees.
- `editor.dfy`, module `Editor`, covers the text editor of
  client/client/src/Workspace.jsx:
  - the `handleInput` length diff, including JavaScript `slice` semantics.
    Given the caret's position in the text, the diff completes the round
    trip for an insertion or a deletion at the caret. The offset the source
    actually reads skips the newlines before the caret, and with one the
    edit lands early (see "## Findings");
  - the `toDelta` to HTML rendering;
  - the `setCaretPosition` walk over the DOM's text nodes. It is proved to
    find the first text node whose running length reaches the offset.
- `sketch.dfy`, module `Sketch`: the pointer handlers of `SketchPart` over the
  shared array of paths, and the paths its `render` draws.
- `sync.dfy`, module `WorkspaceSync`: the workspace's socket handlers. Updates
  from the socket are applied with origin `"remote"`. The update handler
  sends only updates whose origin is not `"remote"`. So handling a message
  from the socket sends nothing, and the invariant of
  `WorkspaceSync.Session` is that every update it has sent was applied with
  an origin other than `"remote"`.
- `wrappers.dfy`, module `Wrappers`: an `Option` type.

The model takes the following as inputs or leaves them uninterpreted:

- Connections are abstract ids.
- What the server sends is recorded in a log per connection.
- A room document is the sequence of updates applied to it, and `yjs-init`
  carries that document. The Yjs merge and its encoding are not interpreted.
- The clock behind `NOW()` is a parameter.
- The caret offset read from the browser selection is an input.
- Pointer coordinates are inputs.

Two behaviours of the code are worth stating outright:

- The server relays a `webrtc-signal` to every other open connection of the
  room. It ignores the message's `to` field, and it forwards only `signal`,
  not the sender.
- `updateRoom` resolves with nothing. It does not report whether the
  optimistic write was applied. A stale write is a successful no-op.

`server.js` keeps no presence state, does not persist documents and never
calls `db.js`, so the relay and the store are modelled independently.

## Model

| member | source | states |
|---|---|---|
| Relay.PathPart | server/server.js:38 | the URL path is a prefix of the request target with no `?` or `#`, and ends the target or stops at its first `?`/`#` |
| Relay.RoomFromUrlOfPath | server/server.js:38 | a request for `/name`, optionally followed by a query or fragment, joins exactly the room `name` |
| Relay.RoomFromUrl | server/server.js:38 | the room name, the URL path without its leading `/`, contains no `?` or `#` and is no longer than the request target; Relay.RoomFromUrlOfPath gives its value for `/name` targets |
| Relay.Forwarded | server/server.js:64-84 | the model of what is relayed: an update as `yjs-update` with the same payload, a signal as `webrtc-signal` with only its payload, anything else not at all; used by Relay.Server.HandleMessage |
| Relay.PathPartOfPlain | server/server.js:38 | the path of a target whose path part contains no delimiter is that path part |
| Relay.FanOut | server/server.js:64-71 | the broadcast loop appends the message to the log of every room member other than the sender whose socket is open, and leaves every other log unchanged |
| Relay.JoinKeepsRegistry | server/server.js:40-42 | a fresh connection joining a room, with the room created lazily, keeps the registry invariant |
| Relay.LeaveKeepsRegistry | server/server.js:90-98 | a connection leaving its room, with the room and its document dropped together once empty, keeps the registry invariant |
| Relay.Server.constructor | server/server.js:11-12 | the server starts with no documents, rooms or connections, and the invariant holds |
| Relay.Server.GetYDoc | server/server.js:17-22 | an empty document is created only when the room has none; the room's document is returned |
| Relay.Server.GetRoom | server/server.js:24-29 | an empty connection set is created only when the room has none; the room's set is returned |
| Relay.Server.Connect | server/server.js:37-50 | a new connection joins the room named by its URL path, creating the document and set if missing, and is sent exactly one `yjs-init` with the room document; the invariant is kept |
| Relay.Server.Join | server/server.js:40-50 | the connection-handler effects, once the room name is known, as stated for Connect |
| Relay.Server.HandleMessage | server/server.js:55-85 | an update is appended to the room document and relayed; a signal is relayed with only its payload; any other type changes nothing; relays reach exactly the other open members of the sender's room; the sender and other rooms get nothing |
| Relay.Server.BeginClosing | server/server.js:65 | a connection leaving the OPEN state no longer receives relays; the invariant is kept |
| Relay.Server.Close | server/server.js:90-98 | the connection leaves its room; the room and its document are deleted together exactly when no connection is left; the invariant is kept |
| Store.GetPassword | server/db.js:42-45 | the model of `getPassword`: the stored password, or `""` for an unknown user; Store.InsertUserThenPassword states it after a registration |
| Store.GetRoomDetails | server/db.js:47-50 | the model of `getRoomDetails`: the room's row, or nothing; Store.InsertRoomThenDetails and Store.UpdateRoomOptimistic read it back |
| Store.GetUsernamesInRoom | server/db.js:52-55 | the model of `getUsernamesInRoom` as the set of users whose mapping row names the room; Store.ListedUsersExist, Store.UpsertMovesUser and Store.DeleteMappingOnlyThatUser state its properties |
| Store.CheckRoom | server/db.js:61-64 | the model of `checkRoom`: whether a row with the id exists |
| Store.CheckRoomAgreesWithDetails | server/db.js:47-64 | `checkRoom` is true exactly when `getRoomDetails` finds a row, and the row found has the requested id |
| Store.ListedUsersExist | server/db.js:28-34 | in a consistent store, everyone `getUsernamesInRoom` lists is a registered user, a room with anyone listed exists, and two different rooms list disjoint users |
| Store.InsertUserRow | server/db.js:57-59 | the model of the `users` insert, with the unique violation; see Store.InsertUserThenPassword |
| Store.InsertRoomRow | server/db.js:66-71 | the model of the `rooms` insert, with the `INT` range check and the unique violation; see Store.InsertRoomThenDetails |
| Store.UpsertMappingRow | server/db.js:73-80 | the model of the mapping upsert, with the foreign-key violation; see Store.UpsertMovesUser |
| Store.DeleteMappingRow | server/db.js:82-84 | the model of the mapping delete; see Store.DeleteMappingOnlyThatUser |
| Store.DeleteRoomIfUnused | server/db.js:86-93 | the model of the conditional room delete; see Store.CleanupOnlyUnusedRoom |
| Store.UpdateRoomRow | server/db.js:95-100 | the model of the versioned update, with the `INT` range check and the overflow of `version + 1`; see Store.UpdateRoomOptimistic |
| Store.InsertUserThenPassword | server/db.js:42-45 | registering fails with a unique violation exactly when the name is taken; a successful one adds exactly the new user's row; the first password is kept; other users are unaffected; an unknown user reads as `""` |
| Store.InsertRoomThenDetails | server/db.js:66-71 | creating a room succeeds exactly when the id is new and the version fits `INT`; the new row is then readable; a failure changes nothing |
| Store.UpsertMovesUser | server/db.js:73-80 | the upsert maps the user to exactly that room with the given time and removes them from every other room's listing; a missing user or room is a foreign-key violation that changes nothing |
| Store.DeleteMappingOnlyThatUser | server/db.js:82-84 | leaving removes only that user's row and takes them out of every room listing; it is idempotent |
| Store.CleanupOnlyUnusedRoom | server/db.js:86-93 | a room is deleted exactly when no mapping row references it; nothing else changes |
| Store.UpdateRoomOptimistic | server/db.js:95-100 | with the stored version, the blob is replaced and the version incremented; at the `INT` maximum the increment fails; with a stale version or a missing room the tables are unchanged, and the outcome is an error only for a version outside `INT` |
| Store.StaleWriteIsNoOp | server/db.js:95-100 | of two writers holding the same version, the second changes nothing once the first has been applied |
| Store.StatementsKeepConsistency | server/db.js:18-35 | every statement keeps versions within `INT` and keeps both foreign keys of `rooms_user_mapping` satisfied |
| Store.Database.constructor | server/db.js:16-40 | the initial tables are empty and consistent |
| Store.Database.InsertUser | server/db.js:57-59 | the table update and outcome are those of `INSERT INTO users`; consistency is kept |
| Store.Database.InsertRoom | server/db.js:66-71 | the table update and outcome are those of `INSERT INTO rooms`; consistency is kept |
| Store.Database.InsertRoomUserMapping | server/db.js:73-80 | the table update and outcome are those of the mapping upsert; consistency is kept |
| Store.Database.DeleteRoomUserMapping | server/db.js:82-84 | the tables are those left by deleting the user's mapping row; consistency is kept |
| Store.Database.CleanupRoomIfEmpty | server/db.js:86-93 | the tables are those left by the conditional room delete; consistency is kept |
| Store.Database.UpdateRoom | server/db.js:95-100 | the table update and outcome are those of the versioned `UPDATE`, including the overflow of `version + 1`; consistency is kept |
| Editor.SliceIndex | client/client/src/Workspace.jsx:135 | a `slice` index is clamped into the string and is unchanged when already inside it |
| Editor.Slice | client/client/src/Workspace.jsx:135 | `slice` never yields more than the string and is the ordinary substring for in-range indices |
| Editor.HandleInput | client/client/src/Workspace.jsx:128-141 | the diff inserts exactly when the text grew and deletes exactly when it shrank; an insertion ends at the caret, is no longer than the growth and has the current color; a deletion starts at the caret and removes as many characters as the text shrank |
| Editor.ApplyEdit | client/client/src/Workspace.jsx:136 | the model of `ytext.insert` and `ytext.delete` inside the text; a successful edit changes the length by the inserted or deleted amount |
| Editor.HandleInputCases | client/client/src/Workspace.jsx:128-141 | growth by `k` with the caret at `k` or beyond inserts the `k` characters before the caret, in the current color; a shrink by `k` deletes `k` characters at the caret; equal lengths do nothing |
| Editor.InsertionAtCaretRoundTrip | client/client/src/Workspace.jsx:133-136 | given the caret's position in the text, typing or pasting text with the caret left after it makes the shared text equal to the element's text |
| Editor.DeletionAtCaretRoundTrip | client/client/src/Workspace.jsx:137-139 | given the caret's position in the text, deleting characters with the caret left at the gap makes the shared text equal to the element's text |
| Editor.DomCaretOffset | client/client/src/Workspace.jsx:84-95 | the offset `getCaretCharacterOffsetWithin` reads is never past the caret's position in the text, and equals it exactly when no newline (rendered as `<br/>`) precedes the caret |
| Editor.NewlineBeforeCaretMisplacesEdit | client/client/src/Workspace.jsx:128-141 | with the offset the source reads, typing `e` at the end of `ab\ncd` stores `ab\ncdd`, and a backspace after its `c` stores `abcd` |
| Editor.SameLengthKeepsText | client/client/src/Workspace.jsx:133-140 | an input that keeps the length leaves the shared text unchanged |
| Editor.SpanColor | client/client/src/Workspace.jsx:152 | a segment uses its own non-empty color, and otherwise the default `#2d3436` |
| Editor.ReplaceNewlinesFacts | client/client/src/Workspace.jsx:153 | the rendered segment text contains no newline, and a segment without newlines is rendered unchanged |
| Editor.RestoreAfterReplace | client/client/src/Workspace.jsx:153 | for text without `<`, turning every `<br/>` back into a newline recovers the segment text |
| Editor.SegmentColor | client/client/src/Workspace.jsx:152 | the model of the segment color: the run's `color` attribute when set and non-empty, `#2d3436` otherwise; see Editor.SpanColor |
| Editor.ReplaceNewlines | client/client/src/Workspace.jsx:153 | the model of `replace(/\n/g, "<br/>")`; see Editor.ReplaceNewlinesFacts and Editor.RestoreAfterReplace |
| Editor.Span | client/client/src/Workspace.jsx:153 | the model of one `<span>` with the segment color and the replaced text |
| Editor.RenderHtml | client/client/src/Workspace.jsx:150-154 | the model of `delta.map(...).join("")`; see Editor.RenderConcat and Editor.RenderOfPrefixIsPrefix |
| Editor.RenderConcat | client/client/src/Workspace.jsx:150-154 | the HTML of a delta is the concatenation of the HTML of its parts, one span per operation in order |
| Editor.RenderPrefix | client/client/src/Workspace.jsx:150-154 | the span of operation `i` comes right after the HTML of the operations before it |
| Editor.RenderOfPrefixIsPrefix | client/client/src/Workspace.jsx:150-154 | the HTML of the first `i` operations is a prefix of the whole HTML, and the HTML of the others follows it |
| Editor.LocateFirstReaching | client/client/src/Workspace.jsx:104-119 | the caret target is absent exactly when there are no text nodes or their total length is below the offset; otherwise it is the first text node whose running length reaches the offset, at an offset within that node |
| Editor.Visit | client/client/src/Workspace.jsx:105-113 | the model of `traverseNodes` on one text node: nothing once found; otherwise the node is chosen when the offset is at most the count at its end, and the count moves past it |
| Editor.VisitAll | client/client/src/Workspace.jsx:115-117 | the model of the walk over text nodes in document order; Editor.VisitAllLocates relates it to Editor.Locate |
| Editor.VisitAllConcat | client/client/src/Workspace.jsx:115-117 | visiting a sequence of text nodes is visiting its parts in order |
| Editor.VisitAllFound | client/client/src/Workspace.jsx:105 | once the caret is found, visiting further nodes changes nothing |
| Editor.VisitAllLocates | client/client/src/Workspace.jsx:104-119 | the walk from the start finds exactly the node and offset given by the first-reaching rule |
| Editor.ForestLengthsSnoc | client/client/src/Workspace.jsx:115-117 | the text nodes of a list of children followed by one more child are those of the list followed by that child's |
| Editor.TraverseNodes | client/client/src/Workspace.jsx:104-119 | the recursive traversal leaves the counter, the node count and the found caret exactly as the in-order walk over the subtree's text nodes does |
| Editor.SetCaretPosition | client/client/src/Workspace.jsx:98-126 | the selection becomes the first text node reaching the offset, at the remaining offset; if no node reaches it, the previous selection is kept |
| Sketch.Removed | client/client/src/Workspace.jsx:251 | deleting at an index shifts the later elements down by one and keeps the earlier ones |
| Sketch.Inserted | client/client/src/Workspace.jsx:252 | inserting at an index puts the element there, shifts the later elements up by one and keeps the earlier ones |
| Sketch.DeleteThenInsertReplaces | client/client/src/Workspace.jsx:248-253 | delete then insert at the same index replaces that element only |
| Sketch.MoveExtendsLastPath | client/client/src/Workspace.jsx:249-252 | the path extended is the last one in the array, even one appended by another client after the pointer went down |
| Sketch.Extended | client/client/src/Workspace.jsx:252 | the model of `{ ...lastPath, points: [...lastPath.points, point] }`; see Sketch.SketchPart.PointerMove |
| Sketch.SketchPart.constructor | client/client/src/Workspace.jsx:193-196 | a mounted sketch is over the shared paths and not drawing |
| Sketch.SketchPart.PointerDown | client/client/src/Workspace.jsx:242-245 | drawing starts, and exactly one path is appended: the pointer's point in the current color |
| Sketch.SketchPart.PointerMove | client/client/src/Workspace.jsx:246-254 | while drawing, the last path gains the point and keeps its color; the number of paths and all other paths are unchanged; otherwise nothing changes |
| Sketch.SketchPart.PointerUp | client/client/src/Workspace.jsx:255 | drawing stops |
| Sketch.StrokeColor | client/client/src/Workspace.jsx:210 | a stroke uses its own non-empty color, and otherwise a non-empty default |
| Sketch.Drawn | client/client/src/Workspace.jsx:208-215 | the paths drawn are exactly those with at least two points |
| Sketch.DrawnInOrder | client/client/src/Workspace.jsx:208-215 | paths are stroked in array order, each path with two points or more exactly once: the strokes of two arrays side by side are the two lists of strokes side by side |
| Sketch.NewPathNotDrawn | client/client/src/Workspace.jsx:209 | a path just started by a pointer-down changes nothing drawn until the pointer moves |
| WorkspaceSync.SendsUpdate | client/client/src/Workspace.jsx:30 | the model of the test in `onUpdate`; see WorkspaceSync.Session.ApplyUpdate |
| WorkspaceSync.Session.constructor | client/client/src/Workspace.jsx:13-15 | a session starts with nothing applied or sent |
| WorkspaceSync.Session.ApplyUpdate | client/client/src/Workspace.jsx:29-35 | every applied update fires the handler, which sends it exactly when its origin is not `"remote"` and the socket is open; nothing is ever sent that was not applied with a non-remote origin |
| WorkspaceSync.Session.HandleMessage | client/client/src/Workspace.jsx:17-26 | exactly the `yjs-update` and `yjs-init` messages are applied, with the update they carry and origin `"remote"`, and nothing is sent; other and malformed messages change nothing |
| WorkspaceSync.Session.SocketOpened | client/client/src/Workspace.jsx:30 | once a socket that was still connecting reaches the OPEN state, local updates are sent; the no-echo invariant is kept |
| WorkspaceSync.Session.SocketClosed | client/client/src/Workspace.jsx:30 | once the socket leaves the OPEN state, local updates are no longer sent; the no-echo invariant is kept |

## Left out

- InsertionAtCaretRoundTrip, DeletionAtCaretRoundTrip: they take the caret offset to be the caret's position in the text. The offset the source reads counts the characters of text nodes only (Editor.DomCaretOffset), so these round trips describe the source only when no newline precedes the caret; with newlines before it, the edit lands that many characters early.
- Yjs itself. The CRDT merge, `encodeStateAsUpdate` and `toBuffer` are not interpreted: a document is its sequence of updates, and the stored snapshot is an opaque blob.
- Yjs positions outside the text. `Editor.ApplyEdit` gives no result for an insertion or deletion outside the text.
- Formatting runs. The shared text is a plain string in the round-trip lemmas, so the `color` attribute an insertion attaches is not tracked into `toDelta`.
- JSON framing and the byte-array conversions. On the server, a message that fails to parse or carries no update throws inside the `message` listener (server.js:55-85). The listener has no `try`/`catch` and the server registers no `uncaughtException` handler, so the exception ends the Node process, and every room's in-memory document and connection set is lost. That path is not modelled. Malformed messages on the client are swallowed and modelled as changing nothing.
- Updates Yjs cannot decode. Every update blob is taken to be decodable. In the source, `applyUpdate` throws on a blob it cannot decode: on the server (server.js:61) the exception escapes the listener and ends the process, as for a message that fails to parse, and on the client (Workspace.jsx:23) the error is swallowed and nothing is applied. Relay.Server.HandleMessage and WorkspaceSync.Session.HandleMessage append such a blob all the same.
- RoomFromUrl does not normalise the URL. `new URL` percent-encodes spaces, non-ASCII characters and some punctuation in the path, removes dot segments, turns `\` into `/`, and reads a target starting with `//` as a host followed by a path. A target with a scheme (the absolute form `http://h/x`) is parsed as a full URL, and the source takes its path (`x`). RoomFromUrl does none of this: for `//h/x` it gives `/h/x` and for `http://h/x` the whole target, where the source gives `x` in both cases. Relay.RoomFromUrlOfPath covers plain `/name` targets only.
- UTF-16. `.length`, the `slice` indices, the caret offset and Yjs text positions count UTF-16 code units. A character of a model string stands for one code unit; the mapping from Unicode text to code units is not modelled.
- The socket transport, which is asynchronous, and the sending of every message.
- Logging.
- `server.listen`.
- The React component lifecycle.
- `getCaretCharacterOffsetWithin` reads the browser selection; its result is an input.
- The `innerHTML !== html` comparison and the focus test before the caret is restored.
- Canvas drawing, `getCoords` and the `ResizeObserver`.
- `initDB`'s error handling and the Postgres connection.
- Missing and null parameters. Every parameter is present and non-null, so the `NOT NULL` checks never fire. A call of `insertRoom` without `version` would send NULL (db.js:68): the explicit NULL overrides the column's `DEFAULT 0` (db.js:26), and `updateRoom`'s `version = $3` (db.js:97) could then never match that row. InsertRoomRow takes an integer version and Consistent requires every version to fit `INT`, so the model cannot show this.
- The `ON DELETE CASCADE` actions. No user is ever deleted, and a room is deleted only when no mapping row references it, so they never fire.
- GetUsernamesInRoom gives the set of names only. The query has no `ORDER BY`, so its row order is unspecified.
- The other client files (VideoCall, Editor, SaveButton, Login, AlreadyInRoom and the layout components) are not part of this model.

## Findings

| source | as written | input that shows it | evidently intended | confidence | as-written member | corrected member |
|---|---|---|---|---|---|---|
| client/client/src/Workspace.jsx:134-136 | the offset read at line 134 is the length of the text before the caret without the `<br/>` elements rendered for newlines (line 92), and is used as a position in the text | typing `e` at the end of `ab\ncd` reads offset 5, not 6, and stores `ab\ncdd` | the insertion ends at the caret's position in the text, counting newlines | high; not executed | Editor.NewlineBeforeCaretMisplacesEdit | Editor.InsertionAtCaretRoundTrip |
| client/client/src/Workspace.jsx:137-139 | the same offset, read at line 138, is where the deletion starts | a backspace after the `c` of `ab\ncd` reads offset 2, not 3, and stores `abcd` | the deletion starts at the caret's position in the text | high; not executed | Editor.NewlineBeforeCaretMisplacesEdit | Editor.DeletionAtCaretRoundTrip |
