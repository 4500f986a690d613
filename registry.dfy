/**
 * The relay's in-memory table of open WebSocket connections per room
 * (`active_connections` in Backend/main.py), as values. A socket is an opaque
 * connection id; the table maps a room name to the set of its open connections.
 */
module Registry {

  /** An open WebSocket, known only by its identity. */
  type ConnId = nat

  type Table = map<string, set<ConnId>>

  /** `active_connections.get(room, set())`: the room's connections, or none when it has no entry. */
  function Members(t: Table, room: string): set<ConnId>
  {
    if room in t then t[room] else {}
  }

  /**
   * A socket joins a room: the room gets an entry if it had none, the socket is added to it,
   * and every other room's entry stays as it was.
   */
  function Admit(t: Table, room: string, c: ConnId): (r: Table)
    ensures r.Keys == t.Keys + {room}
    ensures c in r[room] && r[room] - {c} == Members(t, room) - {c}
    ensures forall other :: other in t && other != room ==> r[other] == t[other]
  {
    t[room := Members(t, room) + {c}]
  }

  /**
   * A socket leaves a room: it is removed from the room's set, and the room's entry is
   * deleted when that leaves the set empty; every other room's entry stays as it was.
   */
  function Release(t: Table, room: string, c: ConnId): (r: Table)
    requires room in t && c in t[room]
    ensures room in r <==> t[room] != {c}
    ensures room in r ==> r[room] == t[room] - {c} && r[room] != {}
    ensures r.Keys <= t.Keys
    ensures forall other :: other in t && other != room ==> other in r && r[other] == t[other]
  {
    if t[room] == {c} then t - {room} else t[room := t[room] - {c}]
  }

  /**
   * Leaving undoes joining, with one exception: a room whose entry was an empty set
   * (made by the room-creation endpoint and never joined) loses its entry altogether.
   */
  lemma ReleaseUndoesAdmit(t: Table, room: string, c: ConnId)
    requires c !in Members(t, room)
    ensures var r := Release(Admit(t, room, c), room, c);
      r == if room in t && t[room] == {} then t - {room} else t
  {
  }

  /**
   * The number of open connections reported for a room goes up by one when a new socket
   * joins it and down by one when one of its sockets leaves.
   */
  lemma CountFollowsJoinsAndLeaves(t: Table, room: string, c: ConnId)
    ensures c !in Members(t, room) ==> |Members(Admit(t, room, c), room)| == |Members(t, room)| + 1
    ensures room in t && c in t[room] ==> |Members(Release(t, room, c), room)| == |t[room]| - 1
  {
  }
}
