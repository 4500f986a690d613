# Collab rooms backend: a Dafny model

This project models the backend of a collaborative room editor. The backend has two parts.

- **The store** (`Backend/database.py`) holds two SQLite tables:
  - `rooms`, keyed by the PRIMARY KEY `room_name`, holding each room's whole text buffer;
  - `admin_content`, keyed by an AUTOINCREMENT integer id, holding titled notes.

  Every mutator reports success as "a row was inserted or affected".
- **The relay server** (`Backend/main.py`) keeps `active_connections`, an in-memory map from a room name to the set of its open WebSockets. Its HTTP endpoints and its WebSocket handler apply fixed rules to this map and to the store:
  - joining gets or creates the room, registers the socket and sends it the stored content;
  - each message overwrites the stored content (last writer wins, whole buffer) and is relayed to every other socket of the room;
  - a disconnect unregisters the socket and drops the room's entry once it is empty;
  - failures of the room and admin endpoints map to HTTP 400 and 404, except that an admin note id outside the signed 64-bit range of a SQLite INTEGER makes the `sqlite3` driver raise `OverflowError`, which no handler catches (HTTP 500).

## Modules

- `Store` (store.dfy): class `Database`, with the tables as `map<string, Room>` and `map<int, Note>`. It also holds the AUTOINCREMENT counter `nextId` and a logical `clock` that stands for `CURRENT_TIMESTAMP`.
  - The mutators are methods. Their contracts give the new tables in terms of the old ones and say what is reported.
  - The point lookups are functions.
  - The two listings ordered newest `created_at` first are read-only methods. Each fetches every row and puts it at its place in the order.
  - A ghost set `issued` records every id ever handed out. `Valid()` keeps it equal to the ids from 1 up to `nextId - 1`, so a new note's id is one past the largest id ever issued and was never issued before, even after deletions.
- `Ordering` (ordering.dfy) covers the descending timestamp order: where a row goes, and that putting it there keeps the order.
- `Registry` (registry.dfy) has the `active_connections` table as values: lookup with a default, a socket joining, a socket leaving.
- `Relay` (relay.dfy): class `Server`, which owns a `Database` and the connection table. There is one method per handler step, and each socket event (join, one received message, disconnect) is one atomic step. Sockets are opaque connection ids.
  - `Valid()` says that every room with a registry entry is a stored room. Every event keeps this. It shows two things: the create endpoint's `active_connections[room_name] = set()` never discards an open socket, and the store update made for a received message always succeeds.
- `Wrappers` (wrappers.dfy) holds `Option`, which stands for Python's `None`.

The browser editor (`Frontend/src/Editor.jsx`) has no debounce, reconnect or presence logic. It only opens a socket, replaces its text with each message and sends its whole text on each edit, so the model covers the backend.

## Model

| member | source | states |
|---|---|---|
| Store.Database.constructor | Backend/database.py:15-37 | both tables start empty; the first id to issue is 1 |
| Store.Database.Tick | Backend/database.py:23-24 | `CURRENT_TIMESTAMP` only moves forward; no row changes |
| Store.Database.CreateRoom | Backend/database.py:39-50 | true exactly when the name was unused; the room then exists with content `""` and both timestamps now; on a taken name every room, that one included, is unchanged |
| Store.Database.GetRoom | Backend/database.py:52-59 | `None` exactly when no room of that name is stored; otherwise that room's full row under its own name |
| Store.Database.GetAllRooms | Backend/database.py:61-65 | every stored room exactly once, with its stored creation time, in non-increasing `created_at` order |
| Store.Database.DeleteRoom | Backend/database.py:67-72 | true exactly when the room existed; afterwards it is absent and every other room is unchanged |
| Store.Database.UpdateRoomContent | Backend/database.py:74-86 | true exactly when the room exists; its content then reads back as exactly the new text, and its creation time is kept; a missing room is not created and nothing changes |
| Store.Database.GetRoomContent | Backend/database.py:88-93 | `None` exactly when no room of that name is stored; otherwise the content of the row `GetRoom` returns |
| Store.Database.AddAdminContent | Backend/database.py:95-106 | always succeeds; stores title and content under an id never issued before (deleted ids included), which is one past the last issued id |
| Store.Database.GetNote | Backend/database.py:111-114 | `None` exactly when the id is not stored; otherwise that note's full row under its own id |
| Store.Database.ListNotes | Backend/database.py:115-117 | every stored note exactly once, as stored, in non-increasing `created_at` order |
| Store.Database.GetAdminContent | Backend/database.py:108-117 | the driver raises exactly when an id is given outside the signed 64-bit range; otherwise, with an id: that note's row, `None` exactly when the id is absent; without an id: every note exactly once in non-increasing `created_at` order |
| Store.Database.UpdateAdminContent | Backend/database.py:119-131 | the driver raises, with nothing changed, exactly when the id is outside the signed 64-bit range; otherwise true exactly when the id exists, and only that note changes (new title and content, creation time kept) |
| Store.Database.DeleteAdminContent | Backend/database.py:133-138 | the driver raises, with nothing changed, exactly when the id is outside the signed 64-bit range; otherwise true exactly when the id existed, and only that note is removed |
| Ordering.InsertionPoint | Backend/database.py:64 | the place for a row in a descending listing: rows before it have a key at least its key, rows after it a smaller key |
| Ordering.InsertKeepsOrder | Backend/database.py:64 | inserting a row at that place keeps the listing descending and its keys distinct, and adds exactly that row |
| Registry.Admit | Backend/main.py:53-58 | joining gives the room an entry holding the socket plus the sockets it already had; every other room's entry is unchanged |
| Registry.Release | Backend/main.py:74-77 | leaving removes the socket from its room; the entry is deleted exactly when the socket was its last one; no other entry changes |
| Registry.ReleaseUndoesAdmit | Backend/main.py:53-77 | leave after join restores the table, except that a room whose entry was an empty set loses its entry |
| Registry.CountFollowsJoinsAndLeaves | Backend/main.py:53-92 | the connection count `get_details` reports for a room rises by one when a new socket joins it and falls by one when one of its sockets leaves |
| Relay.Server.constructor | Backend/main.py:20-21 | the relay starts with no registered socket |
| Relay.Server.CreateRoom | Backend/main.py:23-28 | 400 "Room already exists" for a stored name, with registry and store unchanged; on success the room is stored with empty content, its registry entry is an empty set, and it had no entry before |
| Relay.Server.DeleteRoom | Backend/main.py:34-40 | 404 "Room not found" exactly when the room is not stored; afterwards the room and its registry entry are gone, and nothing else changes |
| Relay.Server.Join | Backend/main.py:42-63 | after a socket is admitted the room is stored and the socket is in its set; the socket is first sent the stored content, `""` for a room the join created; other rooms' entries are unchanged |
| Relay.Server.Recipients | Backend/main.py:70-73 | the broadcast targets are exactly the room's other registered sockets, each once; never the sender |
| Relay.Server.Receive | Backend/main.py:65-73 | the room's stored content becomes exactly the received text (no merge); the message goes to exactly the other sockets of that room |
| Relay.Server.Disconnect | Backend/main.py:74-77 | the socket leaves its room's set; the room's entry is deleted when that set becomes empty; other entries are unchanged |
| Relay.Server.GetDetails | Backend/main.py:79-93 | 404 exactly when the room is not stored; otherwise its row and the size of its socket set, 0 when it has no entry |
| Relay.Server.CreateAdminContent | Backend/main.py:96-100 | the note is stored under a never-issued id, one past the last issued; that id joins the issued ids and the counter advances by one; the reply is "Content created" |
| Relay.Server.GetAdminContent | Backend/main.py:102-107 | 500 exactly when an id is given outside the signed 64-bit range; 404 exactly when an id in range is given and not stored; otherwise that note's row, or, when no id is given, every note exactly once in non-increasing `created_at` order |
| Relay.Server.UpdateAdminContent | Backend/main.py:109-113 | 500 for an id outside the signed 64-bit range and 404 for an id in range that is not stored, with nothing changed in either case; otherwise only that note is updated |
| Relay.Server.DeleteAdminContent | Backend/main.py:115-119 | 500 for an id outside the signed 64-bit range, with nothing changed; otherwise 404 exactly when the id is not stored, and only that note is removed |

## Left out

- Relay.Server.Join: the source closes the socket when creating a missing room fails (Backend/main.py:49-51). That can only happen when another handler creates the room between the lookup and the insert. With atomic events the insert always succeeds, so `Join` always admits the socket.
- Relay.Server.CreateAdminContent: the 400 reply (Backend/main.py:100) needs the insert to raise an integrity error. The only constraints are NOT NULL, and a string is never null, so the model always stores the note.
- Relay.Server.Receive, Relay.Server.Disconnect: once `DELETE /delete_room` removes a registry entry, a socket still open in that room fails on the missing key when it sends (Backend/main.py:71) or disconnects (Backend/main.py:75). `set.remove` also fails for a socket no longer in the room's set. The model does not model these crashes. It states them as preconditions instead: `Receive` needs the room's entry, and `Disconnect` needs the socket to be in it.
- Interleaving of the asynchronous handlers: each accept, receive and disconnect is one atomic step.
- Sending on a socket (`send_text`) and its failures: `Join` returns the first message and `Receive` returns the recipients instead of sending.
- Reply bodies carry only their message text. The fields that echo the request (`room_name`, `title`, `id`) are left out.
- `GET /rooms` (Backend/main.py:30-32) returns `Database.GetAllRooms` unchanged, so it has no member of its own.
- SQLite itself: connections, `row_factory`, the database file path, and a database file that already holds rows when the server starts. The constructor models a new file.
- Real timestamp values: `CURRENT_TIMESTAMP` is the logical `clock`, moved by `Tick`. Equal timestamps are possible, and rows with equal `created_at` may be listed in any order.
- Store.Database.AddAdminContent: SQLite's largest row id (2^63 - 1) is not modelled, so `nextId` is unbounded.
- Store.Database.GetNote: it is the table lookup behind `WHERE id = ?` and takes any integer. The driver's `OverflowError` for an id outside the signed 64-bit range is modelled by the callers that bind the id: `GetAdminContent`, `UpdateAdminContent` and `DeleteAdminContent`.
- The 500 reply is modelled by its status and the text `Internal Server Error`; the server's error logging is left out.
- The `content` column of `rooms` is nullable in the schema. Every write stores a string, so the model holds a string.
- CORS setup (Backend/main.py:11-18) and the debug printing in `get_details` (Backend/main.py:85-88).
- The browser side (`Frontend/src/`): the editor socket wrapper, the admin and notes panels, the passcode checks against constants in the client, and the configuration. None of them has logic beyond forwarding to these endpoints. `/room/{name}/validate-password` and `/interview-notes/{room}` are called by the frontend but defined nowhere in the backend.
