/**
 * `ConnectionManager` of llm_clis/chat_store/server.py: which sockets are in
 * which chat room, kept as a room-to-members dictionary (a defaultdict of
 * sets) and a member-to-room dictionary. Sockets are abstract ids; accepting
 * and sending on them is network I/O and is not modelled, a send is recorded
 * as the socket it goes to.
 */
module ChatServer {

  type Socket = nat

  type Rooms = map<string, set<Socket>>
  type Members = map<Socket, string>

  /** Reading the defaultdict: the members of `room`, empty when it has no entry. */
  function Lookup(rooms: Rooms, room: string): set<Socket>
  {
    if room in rooms then rooms[room] else {}
  }

  /** Every socket's recorded room has an entry that holds the socket. */
  ghost predicate Consistent(rooms: Rooms, members: Members)
  {
    forall ws :: ws in members ==> members[ws] in rooms && ws in rooms[members[ws]]
  }

  /** The two dictionaries agree both ways: a socket is in a room's set iff that room is its recorded room. */
  ghost predicate InSync(rooms: Rooms, members: Members)
  {
    && Consistent(rooms, members)
    && forall r, ws :: r in rooms && ws in rooms[r] ==> ws in members && members[ws] == r
  }

  /** `connect`: the socket joins the room's set and the room is recorded for it. */
  function Connected(rooms: Rooms, members: Members, ws: Socket, room: string): (Rooms, Members)
  {
    (rooms[room := Lookup(rooms, room) + {ws}], members[ws := room])
  }

  /**
   * `disconnect` of a connected socket: it leaves both dictionaries, and its
   * room's entry goes when the set becomes empty.
   */
  function Disconnected(rooms: Rooms, members: Members, ws: Socket): (Rooms, Members)
    requires ws in members
  {
    var room := members[ws];
    var rest := Lookup(rooms, room) - {ws};
    (if rest == {} then rooms - {room} else rooms[room := rest], members - {ws})
  }

  lemma ConnectedConsistent(rooms: Rooms, members: Members, ws: Socket, room: string)
    requires Consistent(rooms, members)
    ensures var (rooms2, members2) := Connected(rooms, members, ws, room);
      && Consistent(rooms2, members2)
      && ws in rooms2[room] && members2[ws] == room
      && forall r :: r != room ==> Lookup(rooms2, r) == Lookup(rooms, r)
  {
    var (rooms2, members2) := Connected(rooms, members, ws, room);
    forall w | w in members2 ensures members2[w] in rooms2 && w in rooms2[members2[w]] {
      if w != ws {
        assert members2[w] == members[w];
      }
    }
  }

  /** Connecting a socket that is not connected anywhere else keeps the dictionaries in step. */
  lemma ConnectKeepsSync(rooms: Rooms, members: Members, ws: Socket, room: string)
    requires InSync(rooms, members)
    requires ws !in members || members[ws] == room
    ensures var (rooms2, members2) := Connected(rooms, members, ws, room); InSync(rooms2, members2)
  {
    ConnectedConsistent(rooms, members, ws, room);
    var (rooms2, members2) := Connected(rooms, members, ws, room);
    forall r, w | r in rooms2 && w in rooms2[r] ensures w in members2 && members2[w] == r {
      if r != room {
        assert w in rooms[r];
        if w == ws { assert members[ws] == r; }
      } else if w != ws {
        assert w in rooms[r];
      }
    }
  }

  /** A socket that connects to a second room stays in the first room's set: the dictionaries fall out of step. */
  lemma DoubleConnectBreaksSync()
    ensures var (rooms1, members1) := Connected(map[], map[], 0, "a");
      && InSync(rooms1, members1)
      && var (rooms2, members2) := Connected(rooms1, members1, 0, "b");
      && 0 in rooms2["a"] && members2[0] == "b"
      && !InSync(rooms2, members2)
  {
    var (rooms1, members1) := Connected(map[], map[], 0, "a");
    ConnectKeepsSync(map[], map[], 0, "a");
    var (rooms2, members2) := Connected(rooms1, members1, 0, "b");
    assert "a" in rooms2 && 0 in rooms2["a"];
  }

  lemma DisconnectedConsistent(rooms: Rooms, members: Members, ws: Socket)
    requires Consistent(rooms, members) && ws in members
    ensures var room := members[ws];
      var (rooms2, members2) := Disconnected(rooms, members, ws);
      && Consistent(rooms2, members2)
      && ws !in members2
      && Lookup(rooms2, room) == Lookup(rooms, room) - {ws}
      && (room in rooms2 <==> Lookup(rooms, room) - {ws} != {})
      && (forall r :: r != room ==> (r in rooms2 <==> r in rooms) && Lookup(rooms2, r) == Lookup(rooms, r))
      && (forall w :: w != ws ==> (w in members2 <==> w in members))
  {
    var room := members[ws];
    var (rooms2, members2) := Disconnected(rooms, members, ws);
    forall w | w in members2 ensures members2[w] in rooms2 && w in rooms2[members2[w]] {
      assert members2[w] == members[w] && w in rooms[members[w]];
    }
  }

  /** Disconnecting keeps the dictionaries in step and removes the socket from every room. */
  lemma DisconnectKeepsSync(rooms: Rooms, members: Members, ws: Socket)
    requires InSync(rooms, members) && ws in members
    ensures var (rooms2, members2) := Disconnected(rooms, members, ws);
      && InSync(rooms2, members2)
      && forall r :: r in rooms2 ==> ws !in rooms2[r]
  {
    DisconnectedConsistent(rooms, members, ws);
    var room := members[ws];
    var (rooms2, members2) := Disconnected(rooms, members, ws);
    forall r, w | r in rooms2 && w in rooms2[r] ensures w in members2 && members2[w] == r {
      assert w in rooms[r];
    }
  }

  /** A new socket that connects and then disconnects leaves both dictionaries as they were. */
  lemma ConnectThenDisconnect(rooms: Rooms, members: Members, ws: Socket, room: string)
    requires ws !in members && ws !in Lookup(rooms, room)
    requires room in rooms ==> rooms[room] != {}
    ensures var (rooms1, members1) := Connected(rooms, members, ws, room);
      Disconnected(rooms1, members1, ws) == (rooms, members)
  {
    var (rooms1, members1) := Connected(rooms, members, ws, room);
    var (rooms2, members2) := Disconnected(rooms1, members1, ws);
    assert Lookup(rooms1, room) - {ws} == Lookup(rooms, room);
    assert members2 == members;
    if room in rooms {
      assert Lookup(rooms1, room) - {ws} != {};
      assert rooms2 == rooms1[room := rooms[room]];
      assert rooms2 == rooms;
    } else {
      assert rooms2 == rooms;
    }
  }

  /** Who a broadcast reaches: the room's members not listed in `notSend`. */
  function Recipients(rooms: Rooms, room: string, notSend: seq<Socket>): set<Socket>
  {
    set ws | ws in Lookup(rooms, room) && ws !in notSend
  }

  class ConnectionManager {
    var roomToMember: Rooms
    var memberToRoom: Members

    ghost predicate Valid()
      reads this
    {
      Consistent(roomToMember, memberToRoom)
    }

    constructor()
      ensures Valid() && roomToMember == map[] && memberToRoom == map[]
    {
      roomToMember := map[];
      memberToRoom := map[];
    }

    /** `connect`, after the socket was accepted. */
    method Connect(ws: Socket, room: string)
      requires Valid()
      modifies this
      ensures Valid()
      ensures (roomToMember, memberToRoom) == Connected(old(roomToMember), old(memberToRoom), ws, room)
    {
      ConnectedConsistent(roomToMember, memberToRoom, ws, room);
      roomToMember := roomToMember[room := Lookup(roomToMember, room) + {ws}];
      memberToRoom := memberToRoom[ws := room];
    }

    /** `disconnect`: `ok` is false where the source raises KeyError (a socket not connected: never connected, or already disconnected), and nothing changes then. */
    method Disconnect(ws: Socket) returns (ok: bool)
      requires Valid()
      modifies this
      ensures Valid()
      ensures ok <==> ws in old(memberToRoom)
      ensures ok ==> (roomToMember, memberToRoom) == Disconnected(old(roomToMember), old(memberToRoom), ws)
      ensures !ok ==> roomToMember == old(roomToMember) && memberToRoom == old(memberToRoom)
    {
      if ws !in memberToRoom {
        return false;
      }
      DisconnectedConsistent(roomToMember, memberToRoom, ws);
      var room := memberToRoom[ws];
      memberToRoom := memberToRoom - {ws};
      var rest := Lookup(roomToMember, room) - {ws};
      ghost var before := roomToMember;
      roomToMember := roomToMember[room := rest];
      if rest == {} {
        roomToMember := roomToMember - {room};
        assert roomToMember == before - {room};
      }
      return true;
    }

    /**
     * `broadcast`: one send to every member of the room not in `notSend`, in
     * the set's iteration order. Reading the defaultdict gives an unknown room
     * an empty entry.
     */
    method Broadcast(room: string, notSend: seq<Socket>) returns (sent: seq<Socket>)
      requires Valid()
      modifies this
      ensures Valid()
      ensures forall i, j :: 0 <= i < j < |sent| ==> sent[i] != sent[j]
      ensures forall ws :: ws in sent <==> ws in Recipients(old(roomToMember), room, notSend)
      ensures roomToMember == old(roomToMember)[room := Lookup(old(roomToMember), room)]
      ensures memberToRoom == old(memberToRoom)
    {
      var members := Lookup(roomToMember, room);
      roomToMember := roomToMember[room := members];
      sent := [];
      var remaining := members;
      while remaining != {}
        invariant remaining <= members
        invariant forall i, j :: 0 <= i < j < |sent| ==> sent[i] != sent[j]
        invariant forall ws :: ws in sent <==> ws in members - remaining && ws !in notSend
        decreases |remaining|
      {
        var connection :| connection in remaining;
        if connection !in notSend {
          sent := sent + [connection];
        }
        remaining := remaining - {connection};
      }
    }
  }
}
