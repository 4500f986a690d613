/**
 * The relay server of the backend (Backend/main.py): the HTTP endpoints over the store and
 * the WebSocket room relay. Each handler step (a socket joining, one received message,
 * a disconnect, one HTTP request) is one atomic event on `Server`.
 */
module Relay {
  import opened Wrappers
  import opened Registry
  import Store
  import Ordering
  import Sets

  const BAD_REQUEST: nat := 400
  const NOT_FOUND: nat := 404
  /** The reply to a handler that raised an exception nobody catches. */
  const INTERNAL_SERVER_ERROR: nat := 500

  /** An HTTP reply: a body, or an `HTTPException` with its status code and detail. */
  datatype Response<T> = Ok(body: T) | Err(status: nat, detail: string)

  /** What `GET /ws/details` returns: the stored row and the number of open connections. */
  datatype Details = Details(room: Store.RoomRow, activeConnections: nat)

  class Server {
    const db: Store.Database
    /** `active_connections`: the open sockets of each room. */
    var connections: Table

    /** Every room with registered sockets is a stored room. */
    ghost predicate Valid()
      reads this, db
    {
      db.Valid() && connections.Keys <= db.rooms.Keys
    }

    /** The server starts with no open connection, over whatever the store holds. */
    constructor (db: Store.Database)
      requires db.Valid()
      ensures Valid()
      ensures this.db == db && connections == map[]
    {
      this.db := db;
      connections := map[];
    }

    /**
     * `POST /create_room`: 400 when the name is taken, and then nothing changes; otherwise
     * the room is stored with empty content and its registry entry is an empty set. The
     * name had no registry entry, so no open socket is dropped by that assignment.
     */
    method CreateRoom(name: string) returns (r: Response<string>)
      requires Valid()
      modifies this`connections, db`rooms
      ensures Valid()
      ensures r.Ok? <==> name !in old(db.rooms)
      ensures r.Err? ==> r == Err(BAD_REQUEST, "Room already exists")
      ensures r.Err? ==> connections == old(connections) && db.rooms == old(db.rooms)
      ensures r.Ok? ==> name !in old(connections) && connections == old(connections)[name := {}]
      ensures r.Ok? ==> db.rooms == old(db.rooms)[name := Store.Room("", db.clock, db.clock)]
    {
      var created := db.CreateRoom(name);
      if created {
        connections := connections[name := {}];
        r := Ok("Room created");
      } else {
        r := Err(BAD_REQUEST, "Room already exists");
      }
    }

    /**
     * `DELETE /delete_room/{name}`: 404 when the room is not stored, and then nothing changes;
     * otherwise the room and its registry entry are both gone.
     */
    method DeleteRoom(name: string) returns (r: Response<string>)
      requires Valid()
      modifies this`connections, db`rooms
      ensures Valid()
      ensures r.Ok? <==> name in old(db.rooms)
      ensures r.Err? ==> r == Err(NOT_FOUND, "Room not found")
      ensures db.rooms == old(db.rooms) - {name}
      ensures connections == old(connections) - {name}
    {
      var deleted := db.DeleteRoom(name);
      if deleted {
        if name in connections {
          connections := connections - {name};
        }
        r := Ok("Room deleted");
      } else {
        r := Err(NOT_FOUND, "Room not found");
      }
    }

    /**
     * A socket `c` is accepted on `/ws/{room}`: the room is stored (created with empty
     * content when missing), `c` is registered in the room, and the room's stored content
     * is what `c` is sent first.
     */
    method Join(c: ConnId, room: string) returns (initial: string)
      requires Valid()
      modifies this`connections, db`rooms
      ensures Valid()
      ensures room in db.rooms && room in connections && c in connections[room]
      ensures connections == Admit(old(connections), room, c)
      ensures initial == db.rooms[room].content
      ensures room in old(db.rooms) ==> db.rooms == old(db.rooms)
      ensures room !in old(db.rooms) ==> initial == "" && db.rooms == old(db.rooms)[room := Store.Room("", db.clock, db.clock)]
    {
      var row := db.GetRoom(room);
      if row.None? {
        var created := db.CreateRoom(room);
      }
      connections := Admit(connections, room, c);
      initial := db.GetRoomContent(room).GetOr("");
    }

    /**
     * The broadcast loop for a message from `sender`: every socket registered in the room
     * other than the sender, each exactly once.
     */
    method Recipients(room: string, sender: ConnId) returns (targets: seq<ConnId>)
      requires room in connections
      ensures forall d :: d in targets <==> d in connections[room] && d != sender
      ensures forall i, j :: 0 <= i < j < |targets| ==> targets[i] != targets[j]
    {
      targets := [];
      var pending := connections[room];
      while pending != {}
        invariant pending <= connections[room]
        invariant forall d :: d in targets <==> d in connections[room] - pending && d != sender
        invariant forall i, j :: 0 <= i < j < |targets| ==> targets[i] != targets[j]
        decreases pending
      {
        var client := Sets.Pick(pending);
        if client != sender {
          assert client !in targets;
          targets := targets + [client];
        }
        pending := pending - {client};
      }
    }

    /**
     * One text message `data` from socket `sender` in `room`: the room's stored content
     * becomes exactly `data` (last writer wins, no merge), and the message goes to every
     * other socket of the room. The room must still have a registry entry: after the room
     * was deleted under an open socket, the source fails on the missing key.
     */
    method Receive(sender: ConnId, room: string, data: string) returns (targets: seq<ConnId>)
      requires Valid()
      requires room in connections
      modifies db`rooms
      ensures Valid()
      ensures db.rooms == old(db.rooms)[room := old(db.rooms)[room].(content := data, updatedAt := db.clock)]
      ensures db.GetRoomContent(room) == Some(data)
      ensures forall d :: d in targets <==> d in connections[room] && d != sender
      ensures forall i, j :: 0 <= i < j < |targets| ==> targets[i] != targets[j]
    {
      var updated := db.UpdateRoomContent(room, data);
      targets := Recipients(room, sender);
    }

    /**
     * Socket `c` disconnects from `room`: it leaves the room's set, and the room's entry is
     * deleted once no socket is left. The source fails unless `c` is still registered there.
     */
    method Disconnect(c: ConnId, room: string)
      requires Valid()
      requires room in connections && c in connections[room]
      modifies this`connections
      ensures Valid()
      ensures connections == Release(old(connections), room, c)
      ensures c !in Members(connections, room)
    {
      connections := Release(connections, room, c);
    }

    /**
     * `GET /ws/details`: 404 when the room is not stored; otherwise its row and the number of
     * sockets registered in it (0 when it has no entry).
     */
    function GetDetails(name: string): (r: Response<Details>)
      reads this, db
      ensures r.Err? <==> name !in db.rooms
      ensures r.Err? ==> r == Err(NOT_FOUND, "Room not found")
      ensures r.Ok? ==> Some(r.body.room) == db.GetRoom(name)
      ensures r.Ok? ==> r.body.activeConnections == |Members(connections, name)|
      ensures r.Ok? && name !in connections ==> r.body.activeConnections == 0
    {
      match db.GetRoom(name)
      case None => Err(NOT_FOUND, "Room not found")
      case Some(row) => Ok(Details(row, |Members(connections, name)|))
    }

    /** `POST /admin/content`: the note is stored under a fresh id; the insert cannot fail. */
    method CreateAdminContent(title: string, content: string) returns (r: Response<string>)
      requires Valid()
      modifies db`notes, db`nextId, db`issued
      ensures Valid()
      ensures r == Ok("Content created")
      ensures old(db.nextId) !in old(db.issued)
      ensures db.notes == old(db.notes)[old(db.nextId) := Store.Note(title, content, db.clock, db.clock)]
      ensures db.issued == old(db.issued) + {old(db.nextId)} && db.nextId == old(db.nextId) + 1
    {
      var added := db.AddAdminContent(title, content);
      r := Ok("Content created");
    }

    /**
     * `GET /admin/content`: with an id, 404 when no such note is stored, else that note;
     * without one, every note newest first. An id the driver cannot bind raises, and the
     * uncaught exception becomes a 500 reply.
     */
    method GetAdminContent(contentId: Option<int>) returns (r: Response<Store.AdminContent>)
      ensures r.Err? <==> contentId.Some? && (!Store.Bindable(contentId.value) || contentId.value !in db.notes)
      ensures r.Err? ==> r == if Store.Bindable(contentId.value) then Err(NOT_FOUND, "Content not found")
                             else Err(INTERNAL_SERVER_ERROR, "Internal Server Error")
      ensures r.Ok? && contentId.Some? ==> r.body == Store.One(db.GetNote(contentId.value))
      ensures r.Ok? && contentId.None? ==> r.body.All?
      ensures r.Ok? && contentId.None? ==>
        Ordering.NonIncreasing(r.body.rows, Store.NoteTime) && Ordering.Distinct(r.body.rows, Store.NoteId)
      ensures r.Ok? && contentId.None? ==> forall row :: row in r.body.rows <==> db.GetNote(row.id) == Some(row)
    {
      var content := db.GetAdminContent(contentId);
      match content
      case Overflow =>
        r := Err(INTERNAL_SERVER_ERROR, "Internal Server Error");
      case Done(body) =>
        if body.One? && body.row.None? && contentId.Some? {
          r := Err(NOT_FOUND, "Content not found");
        } else {
          r := Ok(body);
        }
    }

    /**
     * `PUT /admin/content/{id}`: 404 when no such note is stored; only that note changes.
     * An id the driver cannot bind gives a 500 reply, and nothing changes.
     */
    method UpdateAdminContent(id: int, title: string, content: string) returns (r: Response<string>)
      requires Valid()
      modifies db`notes
      ensures Valid()
      ensures r.Ok? <==> Store.Bindable(id) && id in old(db.notes)
      ensures r.Ok? ==> db.notes == old(db.notes)[id := Store.Note(title, content, old(db.notes)[id].createdAt, db.clock)]
      ensures r.Err? ==> db.notes == old(db.notes)
      ensures r.Err? ==> r == if Store.Bindable(id) then Err(NOT_FOUND, "Content not found")
                             else Err(INTERNAL_SERVER_ERROR, "Internal Server Error")
    {
      var updated := db.UpdateAdminContent(id, title, content);
      match updated
      case Overflow =>
        r := Err(INTERNAL_SERVER_ERROR, "Internal Server Error");
      case Done(ok) =>
        if ok {
          r := Ok("Content updated");
        } else {
          r := Err(NOT_FOUND, "Content not found");
        }
    }

    /**
     * `DELETE /admin/content/{id}`: 404 when no such note is stored; only that note goes.
     * An id the driver cannot bind gives a 500 reply, and nothing changes.
     */
    method DeleteAdminContent(id: int) returns (r: Response<string>)
      requires Valid()
      modifies db`notes
      ensures Valid()
      ensures r.Ok? <==> Store.Bindable(id) && id in old(db.notes)
      ensures r.Err? ==> r == if Store.Bindable(id) then Err(NOT_FOUND, "Content not found")
                             else Err(INTERNAL_SERVER_ERROR, "Internal Server Error")
      ensures db.notes == if Store.Bindable(id) then old(db.notes) - {id} else old(db.notes)
    {
      var deleted := db.DeleteAdminContent(id);
      match deleted
      case Overflow =>
        r := Err(INTERNAL_SERVER_ERROR, "Internal Server Error");
      case Done(ok) =>
        if ok {
          r := Ok("Content deleted");
        } else {
          r := Err(NOT_FOUND, "Content not found");
        }
    }
  }
}
