/** The durable store (server/db.js): three Postgres tables and the single
    SQL statement behind each exported function.

    The tables are maps keyed by their primary keys, so "at most one row per
    key" holds by construction. A statement that Postgres rejects (a
    duplicate key, a foreign key with no target, an integer outside the
    range of the `INT` column) changes nothing and makes the JavaScript
    promise reject; each mutating operation reports that as `Failed`.

    `toBuffer(ydoc)` (`Y.encodeStateAsUpdate`) is not interpreted: the
    operations take the encoded snapshot as an opaque blob. The clock behind
    `NOW()` is a parameter. */
module Store {
  import opened Wrappers

  type Blob = seq<bv8>
  type Timestamp = int

  /** The range of Postgres' `INT` (a 32-bit signed integer). */
  const IntMin: int := -0x8000_0000
  const IntMax: int := 0x7fff_ffff

  predicate IsInt(v: int)
  {
    IntMin <= v <= IntMax
  }

  /** A row of `rooms`, keyed by `id`. */
  datatype RoomRow = RoomRow(blob: Blob, version: int)

  /** A row of `rooms_user_mapping`, keyed by `username`. */
  datatype MappingRow = MappingRow(roomId: string, lastSeen: Timestamp)

  /** What `SELECT * FROM rooms` returns for one row. */
  datatype RoomDetails = RoomDetails(id: string, blob: Blob, version: int)

  /** The three tables: `users` (username -> password), `rooms` and
      `rooms_user_mapping`. */
  datatype Tables = Tables(users: map<string, string>, rooms: map<string, RoomRow>,
                           mapping: map<string, MappingRow>)

  datatype DbError = UniqueViolation | ForeignKeyViolation | IntegerOutOfRange

  /** How a statement ended: done, or rejected by Postgres. */
  datatype Outcome = Done | Failed(error: DbError)

  /** The tables after a statement, and how the statement ended. */
  datatype Step = Step(after: Tables, outcome: Outcome)

  /** What the schema guarantees of every state: versions fit the `INT`
      column, and every mapping row references an existing user and an
      existing room (the two foreign keys). */
  ghost predicate Consistent(t: Tables)
  {
    && (forall r :: r in t.rooms ==> IsInt(t.rooms[r].version))
    && (forall u :: u in t.mapping ==> u in t.users && t.mapping[u].roomId in t.rooms)
  }

  function Empty(): Tables
  {
    Tables(map[], map[], map[])
  }

  // ---------------------------------------------------------------- queries

  /** `getPassword`: the stored password, or `""` for an unknown username. */
  function GetPassword(t: Tables, username: string): string
  {
    if username in t.users then t.users[username] else ""
  }

  /** `getRoomDetails`: the room's row, or nothing (`undefined`). */
  function GetRoomDetails(t: Tables, roomId: string): Option<RoomDetails>
  {
    if roomId in t.rooms then Some(RoomDetails(roomId, t.rooms[roomId].blob, t.rooms[roomId].version))
    else None
  }

  /** `getUsernamesInRoom`: the usernames of the mapping rows for the room.
      The query has no ORDER BY, so only the set of names is determined. */
  function GetUsernamesInRoom(t: Tables, roomId: string): set<string>
  {
    set u | u in t.mapping && t.mapping[u].roomId == roomId
  }

  /** `checkRoom`: whether the `SELECT 1` finds a row with that id. */
  function CheckRoom(t: Tables, roomId: string): bool
  {
    roomId in t.rooms
  }

  // ------------------------------------------------------------- statements

  /** `insertUser`: inserts one `users` row. */
  function InsertUserRow(t: Tables, username: string, password: string): Step
  {
    if username in t.users then Step(t, Failed(UniqueViolation))
    else Step(t.(users := t.users[username := password]), Done)
  }

  /** `insertRoom`: inserts one `rooms` row; the version parameter is
      converted to `INT` before the key is checked. */
  function InsertRoomRow(t: Tables, roomId: string, blob: Blob, version: int): Step
  {
    if !IsInt(version) then Step(t, Failed(IntegerOutOfRange))
    else if roomId in t.rooms then Step(t, Failed(UniqueViolation))
    else Step(t.(rooms := t.rooms[roomId := RoomRow(blob, version)]), Done)
  }

  /** `insertRoomUserMapping`: the upsert keyed by username; the inserted or
      updated row must satisfy both foreign keys. */
  function UpsertMappingRow(t: Tables, roomId: string, username: string, now: Timestamp): Step
  {
    if username !in t.users || roomId !in t.rooms then Step(t, Failed(ForeignKeyViolation))
    else Step(t.(mapping := t.mapping[username := MappingRow(roomId, now)]), Done)
  }

  /** `deleteRoomUserMapping`: deletes the user's mapping row, if any. */
  function DeleteMappingRow(t: Tables, username: string): Tables
  {
    t.(mapping := t.mapping - {username})
  }

  /** `cleanupRoomIfEmpty`: deletes the room only when no mapping row names
      it, so the cascade of `fk_room` never fires. */
  function DeleteRoomIfUnused(t: Tables, roomId: string): Tables
  {
    if roomId in t.rooms && !exists u :: u in t.mapping && t.mapping[u].roomId == roomId
    then t.(rooms := t.rooms - {roomId})
    else t
  }

  /** `updateRoom`: the versioned update of a `rooms` row; nothing happens
      unless the stored version is the given one, and `version + 1` past the
      `INT` range is an error. */
  function UpdateRoomRow(t: Tables, blob: Blob, version: int, roomId: string): Step
  {
    if !IsInt(version) then Step(t, Failed(IntegerOutOfRange))
    else if roomId in t.rooms && t.rooms[roomId].version == version then
      if version == IntMax then Step(t, Failed(IntegerOutOfRange))
      else Step(t.(rooms := t.rooms[roomId := RoomRow(blob, version + 1)]), Done)
    else Step(t, Done)
  }

  // ----------------------------------------------------------------- lemmas

  /** `checkRoom` and `getRoomDetails` agree: the room exists exactly when
      its details are found, and the details found are the room's own. */
  lemma CheckRoomAgreesWithDetails(t: Tables, roomId: string)
    ensures CheckRoom(t, roomId) <==> GetRoomDetails(t, roomId).Some?
    ensures GetRoomDetails(t, roomId).Some? ==> GetRoomDetails(t, roomId).value.id == roomId
  {
  }

  /** By the foreign keys, everyone `getUsernamesInRoom` lists is a
      registered user, and a room with anyone in it exists; distinct rooms
      list disjoint sets of users, since a user has one mapping row. */
  lemma ListedUsersExist(t: Tables, roomId: string, other: string)
    requires Consistent(t)
    ensures GetUsernamesInRoom(t, roomId) <= t.users.Keys
    ensures GetUsernamesInRoom(t, roomId) != {} ==> CheckRoom(t, roomId)
    ensures other != roomId ==> GetUsernamesInRoom(t, roomId) !! GetUsernamesInRoom(t, other)
  {
    if GetUsernamesInRoom(t, roomId) != {} {
      var u :| u in GetUsernamesInRoom(t, roomId);
      assert t.mapping[u].roomId == roomId;
    }
  }

  /** Registering a user fails exactly when the username is taken; a
      username keeps its first password, and an unknown one reads as `""`. */
  lemma InsertUserThenPassword(t: Tables, username: string, password: string, other: string)
    requires other != username
    ensures var s := InsertUserRow(t, username, password);
      && (s.outcome == Done <==> username !in t.users)
      && (s.outcome == Done ==> s.after.users == t.users[username := password])
      && (s.outcome != Done ==> s.outcome == Failed(UniqueViolation) && s.after == t)
      && GetPassword(s.after, username) == (if username in t.users then t.users[username] else password)
      && GetPassword(s.after, other) == GetPassword(t, other)
      && s.after.rooms == t.rooms && s.after.mapping == t.mapping
    ensures username !in t.users ==> GetPassword(t, username) == ""
  {
  }

  /** Creating a room adds exactly that row, unless the id exists or the
      version does not fit the column. */
  lemma InsertRoomThenDetails(t: Tables, roomId: string, blob: Blob, version: int)
    ensures var s := InsertRoomRow(t, roomId, blob, version);
      && (s.outcome == Done <==> roomId !in t.rooms && IsInt(version))
      && (s.outcome == Done ==> s.after.rooms == t.rooms[roomId := RoomRow(blob, version)]
                                && GetRoomDetails(s.after, roomId) == Some(RoomDetails(roomId, blob, version))
                                && CheckRoom(s.after, roomId))
      && (s.outcome != Done ==> s.after == t)
      && s.after.users == t.users && s.after.mapping == t.mapping
  {
  }

  /** The upsert: afterwards the user is mapped to `roomId` and to no other
      room, the other users' rows are unchanged; a mapping to a missing room
      or for a missing user is refused. */
  lemma UpsertMovesUser(t: Tables, roomId: string, username: string, now: Timestamp, other: string)
    ensures var s := UpsertMappingRow(t, roomId, username, now);
      && (s.outcome == Done <==> username in t.users && roomId in t.rooms)
      && (s.outcome != Done ==> s.outcome == Failed(ForeignKeyViolation) && s.after == t)
      && (s.outcome == Done ==>
            && username in s.after.mapping && s.after.mapping[username] == MappingRow(roomId, now)
            && GetUsernamesInRoom(s.after, roomId) == GetUsernamesInRoom(t, roomId) + {username}
            && (other != roomId ==> GetUsernamesInRoom(s.after, other) == GetUsernamesInRoom(t, other) - {username}))
      && (forall u :: u != username ==> (u in s.after.mapping <==> u in t.mapping))
      && (forall u :: u != username && u in t.mapping ==> s.after.mapping[u] == t.mapping[u])
      && s.after.users == t.users && s.after.rooms == t.rooms
  {
  }

  /** Leaving removes only that user's row, from every room listing, and
      doing it twice is the same as doing it once. */
  lemma DeleteMappingOnlyThatUser(t: Tables, username: string, roomId: string)
    ensures var d := DeleteMappingRow(t, username);
      && username !in d.mapping
      && (forall u :: u != username ==> (u in d.mapping <==> u in t.mapping))
      && (forall u :: u in d.mapping ==> d.mapping[u] == t.mapping[u])
      && GetUsernamesInRoom(d, roomId) == GetUsernamesInRoom(t, roomId) - {username}
      && DeleteMappingRow(d, username) == d
      && d.users == t.users && d.rooms == t.rooms
  {
  }

  /** The conditional delete: the room goes exactly when no mapping row
      references it; nothing else changes. */
  lemma CleanupOnlyUnusedRoom(t: Tables, roomId: string)
    ensures var d := DeleteRoomIfUnused(t, roomId);
      && (CheckRoom(d, roomId) <==> CheckRoom(t, roomId) && GetUsernamesInRoom(t, roomId) != {})
      && (GetUsernamesInRoom(t, roomId) != {} ==> d == t)
      && (forall r :: r != roomId ==> (r in d.rooms <==> r in t.rooms))
      && (forall r :: r in d.rooms ==> d.rooms[r] == t.rooms[r])
      && d.users == t.users && d.mapping == t.mapping
  {
    if GetUsernamesInRoom(t, roomId) != {} {
      var u :| u in GetUsernamesInRoom(t, roomId);
      assert u in t.mapping && t.mapping[u].roomId == roomId;
    } else {
      assert forall u :: u in t.mapping && t.mapping[u].roomId == roomId ==> u in GetUsernamesInRoom(t, roomId);
    }
  }

  /** The optimistic write: with the stored version it replaces the blob and
      bumps the version; with a stale version, or for a missing room, the
      tables are unchanged. */
  lemma UpdateRoomOptimistic(t: Tables, blob: Blob, version: int, roomId: string)
    ensures var s := UpdateRoomRow(t, blob, version, roomId);
      && (roomId in t.rooms && t.rooms[roomId].version == version && IntMin <= version < IntMax ==>
            s == Step(t.(rooms := t.rooms[roomId := RoomRow(blob, version + 1)]), Done)
            && GetRoomDetails(s.after, roomId) == Some(RoomDetails(roomId, blob, version + 1)))
      && (roomId !in t.rooms || t.rooms[roomId].version != version ==>
            s.after == t && s.outcome == (if IsInt(version) then Done else Failed(IntegerOutOfRange)))
      && (roomId in t.rooms && t.rooms[roomId].version == version == IntMax ==>
            s == Step(t, Failed(IntegerOutOfRange)))
      && (s.after != t ==> roomId in t.rooms && t.rooms[roomId].version == version)
  {
  }

  /** Two writers that read the same version: the second write is a no-op
      once the first has been applied. */
  lemma StaleWriteIsNoOp(t: Tables, first: Blob, second: Blob, version: int, roomId: string)
    requires roomId in t.rooms && t.rooms[roomId].version == version
    ensures var s := UpdateRoomRow(t, first, version, roomId);
      UpdateRoomRow(s.after, second, version, roomId) == Step(s.after, Done) || s.outcome != Done
  {
  }

  /** Every statement keeps the schema's guarantees. */
  lemma StatementsKeepConsistency(t: Tables, roomId: string, username: string, password: string,
                                  blob: Blob, version: int, now: Timestamp)
    requires Consistent(t)
    ensures Consistent(InsertUserRow(t, username, password).after)
    ensures Consistent(InsertRoomRow(t, roomId, blob, version).after)
    ensures Consistent(UpsertMappingRow(t, roomId, username, now).after)
    ensures Consistent(DeleteMappingRow(t, username))
    ensures Consistent(DeleteRoomIfUnused(t, roomId))
    ensures Consistent(UpdateRoomRow(t, blob, version, roomId).after)
  {
  }

  // ------------------------------------------------------------ the store

  /** The database, whose tables every exported function changes in place. */
  class Database {
    var users: map<string, string>
    var rooms: map<string, RoomRow>
    var mapping: map<string, MappingRow>

    function State(): Tables
      reads this
    {
      Tables(users, rooms, mapping)
    }

    ghost predicate Valid()
      reads this
    {
      Consistent(State())
    }

    /** The tables as `initDB` creates them in an empty database. */
    constructor ()
      ensures Valid() && State() == Empty()
    {
      users, rooms, mapping := map[], map[], map[];
    }

    method InsertUser(username: string, password: string) returns (res: Outcome)
      requires Valid()
      modifies this
      ensures Valid()
      ensures Step(State(), res) == InsertUserRow(old(State()), username, password)
    {
      StatementsKeepConsistency(State(), "", username, password, [], 0, 0);
      if username in users {
        res := Failed(UniqueViolation);
      } else {
        users := users[username := password];
        res := Done;
      }
    }

    method InsertRoom(roomId: string, blob: Blob, version: int) returns (res: Outcome)
      requires Valid()
      modifies this
      ensures Valid()
      ensures Step(State(), res) == InsertRoomRow(old(State()), roomId, blob, version)
    {
      StatementsKeepConsistency(State(), roomId, "", "", blob, version, 0);
      if !IsInt(version) {
        res := Failed(IntegerOutOfRange);
      } else if roomId in rooms {
        res := Failed(UniqueViolation);
      } else {
        rooms := rooms[roomId := RoomRow(blob, version)];
        res := Done;
      }
    }

    method InsertRoomUserMapping(roomId: string, username: string, now: Timestamp) returns (res: Outcome)
      requires Valid()
      modifies this
      ensures Valid()
      ensures Step(State(), res) == UpsertMappingRow(old(State()), roomId, username, now)
    {
      StatementsKeepConsistency(State(), roomId, username, "", [], 0, now);
      if username !in users || roomId !in rooms {
        res := Failed(ForeignKeyViolation);
      } else {
        mapping := mapping[username := MappingRow(roomId, now)];
        res := Done;
      }
    }

    method DeleteRoomUserMapping(username: string)
      requires Valid()
      modifies this
      ensures Valid()
      ensures State() == DeleteMappingRow(old(State()), username)
    {
      StatementsKeepConsistency(State(), "", username, "", [], 0, 0);
      mapping := mapping - {username};
    }

    method CleanupRoomIfEmpty(roomId: string)
      requires Valid()
      modifies this
      ensures Valid()
      ensures State() == DeleteRoomIfUnused(old(State()), roomId)
    {
      StatementsKeepConsistency(State(), roomId, "", "", [], 0, 0);
      if roomId in rooms && !exists u :: u in mapping && mapping[u].roomId == roomId {
        rooms := rooms - {roomId};
      }
    }

    method UpdateRoom(blob: Blob, version: int, roomId: string) returns (res: Outcome)
      requires Valid()
      modifies this
      ensures Valid()
      ensures Step(State(), res) == UpdateRoomRow(old(State()), blob, version, roomId)
    {
      StatementsKeepConsistency(State(), roomId, "", "", blob, version, 0);
      if !IsInt(version) {
        res := Failed(IntegerOutOfRange);
      } else if roomId in rooms && rooms[roomId].version == version {
        if version == IntMax {
          res := Failed(IntegerOutOfRange);
        } else {
          rooms := rooms[roomId := RoomRow(blob, version + 1)];
          res := Done;
        }
      } else {
        res := Done;
      }
    }
  }
}
