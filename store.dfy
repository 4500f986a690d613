/**
 * The room and admin-content store of the backend (Backend/database.py), with the two
 * SQLite tables held in memory. `rooms` is keyed by its PRIMARY KEY `room_name`;
 * `admin_content` is keyed by an AUTOINCREMENT integer `id`. Every mutator reports
 * success as "a row was inserted or affected". `CURRENT_TIMESTAMP` is a logical clock.
 */
module Store {
  import opened Wrappers
  import opened Ordering
  import Sets

  /** One row of `rooms`, without its key `room_name`. */
  datatype Room = Room(content: string, createdAt: nat, updatedAt: nat)

  /** One row of `admin_content`, without its key `id`. */
  datatype Note = Note(title: string, content: string, createdAt: nat, updatedAt: nat)

  /** What `get_room` returns: every column of one `rooms` row. */
  datatype RoomRow = RoomRow(name: string, content: string, createdAt: nat, updatedAt: nat)

  /** What `get_all_rooms` lists for each room: the columns `room_name` and `created_at`. */
  datatype RoomSummary = RoomSummary(name: string, createdAt: nat)

  /** Every column of one `admin_content` row. */
  datatype NoteRow = NoteRow(id: int, title: string, content: string, createdAt: nat, updatedAt: nat)

  /**
   * What `get_admin_content` returns: the row for one id (or `None`) when an id is
   * given, the whole table otherwise.
   */
  datatype AdminContent = One(row: Option<NoteRow>) | All(rows: seq<NoteRow>)

  /** The smallest and largest value of a SQLite INTEGER, a signed 64-bit integer. */
  const MIN_INTEGER: int := -0x8000_0000_0000_0000
  const MAX_INTEGER: int := 0x7FFF_FFFF_FFFF_FFFF

  /** An id the `sqlite3` driver can bind as a query parameter. */
  predicate Bindable(id: int)
  {
    MIN_INTEGER <= id <= MAX_INTEGER
  }

  /**
   * The outcome of a call that binds an id: its result, or the `OverflowError` the driver
   * raises, before any statement runs, for an id outside the SQLite INTEGER range.
   */
  datatype Outcome<T> = Done(value: T) | Overflow

  function SummaryTime(r: RoomSummary): int { r.createdAt }

  function NoteTime(r: NoteRow): int { r.createdAt }

  function SummaryName(r: RoomSummary): string { r.name }

  function NoteId(r: NoteRow): int { r.id }

  class Database {
    var rooms: map<string, Room>
    var notes: map<int, Note>
    /** The id the next `admin_content` insert receives: one more than the largest id ever issued. */
    var nextId: int
    /** The value `CURRENT_TIMESTAMP` has now. */
    var clock: nat
    /** Every id ever issued to an `admin_content` row, deleted ones included. */
    ghost var issued: set<int>

    ghost predicate Valid()
      reads this
    {
      && 1 <= nextId
      && (forall id :: id in issued <==> 1 <= id < nextId)
      && notes.Keys <= issued
      && (forall name :: name in rooms ==> rooms[name].createdAt <= rooms[name].updatedAt <= clock)
      && (forall id :: id in notes ==> notes[id].createdAt <= notes[id].updatedAt <= clock)
    }

    /** `init_db` on a new database file: both tables exist and are empty. */
    constructor ()
      ensures Valid()
      ensures rooms == map[] && notes == map[] && issued == {}
      ensures nextId == 1 && clock == 0
    {
      rooms, notes, nextId, clock := map[], map[], 1, 0;
      issued := {};
    }

    /** Time passes: `CURRENT_TIMESTAMP` moves forward by `dt`, and nothing else changes. */
    method Tick(dt: nat)
      requires Valid()
      modifies this`clock
      ensures Valid()
      ensures clock == old(clock) + dt
    {
      clock := clock + dt;
    }

    /**
     * `create_room`: inserts a room with empty content. The insert fails on the primary key
     * when the name is taken, and then nothing changes.
     */
    method CreateRoom(name: string) returns (ok: bool)
      requires Valid()
      modifies this`rooms
      ensures Valid()
      ensures ok <==> name !in old(rooms)
      ensures ok ==> rooms == old(rooms)[name := Room("", clock, clock)]
      ensures !ok ==> rooms == old(rooms)
    {
      if name in rooms {
        ok := false;
      } else {
        rooms := rooms[name := Room("", clock, clock)];
        ok := true;
      }
    }

    /** `get_room`: the stored row of that name, or `None` when there is none. */
    function GetRoom(name: string): (r: Option<RoomRow>)
      reads this
      ensures r.None? <==> name !in rooms
      ensures r.Some? ==>
        && r.value.name == name
        && Room(r.value.content, r.value.createdAt, r.value.updatedAt) == rooms[name]
    {
      if name in rooms then
        var room := rooms[name];
        Some(RoomRow(name, room.content, room.createdAt, room.updatedAt))
      else None
    }

    /** The row `get_all_rooms` lists for the stored room `name`. */
    function Summary(name: string): RoomSummary
      reads this
      requires name in rooms
    {
      RoomSummary(name, rooms[name].createdAt)
    }

    /**
     * `get_all_rooms`: the name and creation time of every stored room exactly once, newest
     * first. Each fetched row is put at its place in the order.
     */
    method GetAllRooms() returns (rows: seq<RoomSummary>)
      ensures NonIncreasing(rows, SummaryTime)
      ensures Distinct(rows, SummaryName)
      ensures forall r :: r in rows <==> r.name in rooms && r == Summary(r.name)
    {
      rows := [];
      var pending := rooms.Keys;
      while pending != {}
        invariant pending <= rooms.Keys
        invariant NonIncreasing(rows, SummaryTime)
        invariant Distinct(rows, SummaryName)
        invariant forall r :: r in rows <==> r.name in rooms && r.name !in pending && r == Summary(r.name)
        decreases pending
      {
        var name := Sets.Pick(pending);
        var row := Summary(name);
        var p := InsertionPoint(rows, SummaryTime, row.createdAt);
        InsertKeepsOrder(rows, SummaryTime, SummaryName, row, p);
        rows := rows[..p] + [row] + rows[p..];
        pending := pending - {name};
      }
    }

    /** `delete_room`: true iff the room was there; now it is gone. */
    method DeleteRoom(name: string) returns (ok: bool)
      requires Valid()
      modifies this`rooms
      ensures Valid()
      ensures ok <==> name in old(rooms)
      ensures rooms == old(rooms) - {name}
    {
      ok := name in rooms;
      rooms := rooms - {name};
    }

    /**
     * `update_room_content`: replaces the content of the named room and stamps its update time;
     * true iff the room exists; a missing room is not created.
     */
    method UpdateRoomContent(name: string, content: string) returns (ok: bool)
      requires Valid()
      modifies this`rooms
      ensures Valid()
      ensures ok <==> name in old(rooms)
      ensures ok ==> rooms == old(rooms)[name := old(rooms)[name].(content := content, updatedAt := clock)]
      ensures !ok ==> rooms == old(rooms)
      ensures ok ==> GetRoomContent(name) == Some(content)
    {
      if name in rooms {
        rooms := rooms[name := rooms[name].(content := content, updatedAt := clock)];
        ok := true;
      } else {
        ok := false;
      }
    }

    /** `get_room_content`: the stored content, `None` exactly when no such room is stored. */
    function GetRoomContent(name: string): (r: Option<string>)
      reads this
      ensures r.None? <==> name !in rooms
      ensures r.Some? ==> GetRoom(name).Some? && r.value == GetRoom(name).value.content
    {
      if name in rooms then Some(rooms[name].content) else None
    }

    /**
     * `add_admin_content`: the row is stored under a fresh id, one
     * past every id issued so far, so an id is never reused, even after its row is deleted.
     * The NOT NULL constraints cannot fail on a string, so the insert always succeeds.
     */
    method AddAdminContent(title: string, content: string) returns (ok: bool)
      requires Valid()
      modifies this`notes, this`nextId, this`issued
      ensures Valid()
      ensures ok
      ensures old(nextId) !in old(issued) && old(nextId) !in old(notes)
      ensures notes == old(notes)[old(nextId) := Note(title, content, clock, clock)]
      ensures issued == old(issued) + {old(nextId)}
      ensures nextId == old(nextId) + 1
    {
      notes := notes[nextId := Note(title, content, clock, clock)];
      issued := issued + {nextId};
      nextId := nextId + 1;
      ok := true;
    }

    /** The lookup of one note by id: the stored row, or `None` when there is none. */
    function GetNote(id: int): (r: Option<NoteRow>)
      reads this
      ensures r.None? <==> id !in notes
      ensures r.Some? ==>
        && r.value.id == id
        && Note(r.value.title, r.value.content, r.value.createdAt, r.value.updatedAt) == notes[id]
    {
      if id in notes then
        var note := notes[id];
        Some(NoteRow(id, note.title, note.content, note.createdAt, note.updatedAt))
      else None
    }

    /** The listing of all notes: every stored row exactly once, newest first. */
    method ListNotes() returns (rows: seq<NoteRow>)
      ensures NonIncreasing(rows, NoteTime)
      ensures Distinct(rows, NoteId)
      ensures forall r :: r in rows <==> GetNote(r.id) == Some(r)
    {
      rows := [];
      var pending := notes.Keys;
      while pending != {}
        invariant pending <= notes.Keys
        invariant NonIncreasing(rows, NoteTime)
        invariant Distinct(rows, NoteId)
        invariant forall r :: r in rows ==> r.id !in pending && GetNote(r.id) == Some(r)
        invariant forall id :: id in notes && id !in pending ==> GetNote(id).value in rows
        decreases pending
      {
        var key := Sets.Pick(pending);
        var row := GetNote(key).value;
        var p := InsertionPoint(rows, NoteTime, row.createdAt);
        InsertKeepsOrder(rows, NoteTime, NoteId, row, p);
        rows := rows[..p] + [row] + rows[p..];
        pending := pending - {key};
      }
    }

    /**
     * `get_admin_content(content_id)`: with an id, that row or `None`; without one, the whole
     * table newest first. An id outside the SQLite INTEGER range makes the driver raise.
     */
    method GetAdminContent(contentId: Option<int>) returns (r: Outcome<AdminContent>)
      ensures r.Overflow? <==> contentId.Some? && !Bindable(contentId.value)
      ensures r.Done? ==> (r.value.One? <==> contentId.Some?)
      ensures r.Done? && r.value.One? ==> (r.value.row.None? <==> contentId.value !in notes)
      ensures r.Done? && r.value.One? && r.value.row.Some? ==>
        r.value.row.value.id == contentId.value && GetNote(contentId.value) == r.value.row
      ensures r.Done? && r.value.All? ==> NonIncreasing(r.value.rows, NoteTime)
      ensures r.Done? && r.value.All? ==> Distinct(r.value.rows, NoteId)
      ensures r.Done? && r.value.All? ==> forall row :: row in r.value.rows <==> GetNote(row.id) == Some(row)
    {
      if contentId.Some? {
        if Bindable(contentId.value) {
          r := Done(One(GetNote(contentId.value)));
        } else {
          r := Overflow;
        }
      } else {
        var rows := ListNotes();
        r := Done(All(rows));
      }
    }

    /**
     * `update_admin_content`: replaces title and content and stamps the update time;
     * true iff the id exists; only that row changes, and its creation time is kept.
     * An id outside the SQLite INTEGER range makes the driver raise, and nothing changes.
     */
    method UpdateAdminContent(id: int, title: string, content: string) returns (r: Outcome<bool>)
      requires Valid()
      modifies this`notes
      ensures Valid()
      ensures r.Overflow? <==> !Bindable(id)
      ensures r.Done? ==> (r.value <==> id in old(notes))
      ensures r == Done(true) ==> notes == old(notes)[id := Note(title, content, old(notes)[id].createdAt, clock)]
      ensures r != Done(true) ==> notes == old(notes)
    {
      if !Bindable(id) {
        r := Overflow;
      } else if id in notes {
        notes := notes[id := Note(title, content, notes[id].createdAt, clock)];
        r := Done(true);
      } else {
        r := Done(false);
      }
    }

    /**
     * `delete_admin_content`: true iff the row was there; no other row changes. An id outside
     * the SQLite INTEGER range makes the driver raise, and nothing changes.
     */
    method DeleteAdminContent(id: int) returns (r: Outcome<bool>)
      requires Valid()
      modifies this`notes
      ensures Valid()
      ensures r.Overflow? <==> !Bindable(id)
      ensures r.Done? ==> (r.value <==> id in old(notes))
      ensures notes == if r.Overflow? then old(notes) else old(notes) - {id}
    {
      if !Bindable(id) {
        r := Overflow;
      } else {
        r := Done(id in notes);
        notes := notes - {id};
      }
    }
  }
}
