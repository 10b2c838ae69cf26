/**
 The realtime hub of one worker and the connection registry it shares with the other workers: what
 connecting, disconnecting, broadcasting and closing do to both.
 */
module GroupHub {
  import opened Wrappers

  type Room = string
  type Worker = string
  type Conn = string
  /** The identity of a WebSocket object; sockets never leave their worker. */
  type Socket = nat

  /** `_rooms`: the open sockets of each room with their connection ids. */
  type Rooms = map<Room, map<Socket, Conn>>

  /** A registry entry, stored as the text "worker:room:conn". */
  datatype Member = Member(worker: Worker, room: Room, conn: Conn)

  // ---------------------------------------------------------------- the text of a member

  function MemberText(m: Member): string {
    m.worker + ":" + m.room + ":" + m.conn
  }

  /** `split(":", 1)` at the first colon. */
  function Cut(s: string): (r: Option<(string, string)>)
    ensures r.Some? ==> s == r.value.0 + ":" + r.value.1 && ':' !in r.value.0
    ensures r.None? ==> ':' !in s
  {
    if s == [] then None
    else if s[0] == ':' then Some(([], s[1..]))
    else
      var rest := Cut(s[1..]);
      if rest.None? then None else Some(([s[0]] + rest.value.0, rest.value.1))
  }

  /** `_parse_connection_member`: the parts of `split(":", 2)`. */
  function ParseMember(text: string): Option<Member> {
    var first := Cut(text);
    if first.None? then None
    else
      var second := Cut(first.value.1);
      if second.None? then None else Some(Member(first.value.0, second.value.0, second.value.1))
  }

  lemma {:induction false} CutAt(a: string, b: string)
    requires ':' !in a
    ensures Cut(a + ":" + b) == Some((a, b))
  {
    if a == [] {
      assert a + ":" + b == ":" + b;
      assert (":" + b)[1..] == b;
    } else {
      assert (a + ":" + b)[1..] == a[1..] + ":" + b;
      CutAt(a[1..], b);
      assert a == [a[0]] + a[1..];
    }
  }

  /** A member's text is read back exactly when neither worker nor room contains a colon. */
  lemma MemberRoundTrip(m: Member)
    ensures ParseMember(MemberText(m)) == Some(m) <==> ':' !in m.worker && ':' !in m.room
  {
    assert MemberText(m) == m.worker + ":" + (m.room + ":" + m.conn);
    if ':' !in m.worker {
      CutAt(m.worker, m.room + ":" + m.conn);
      if ':' !in m.room {
        CutAt(m.room, m.conn);
      }
    }
  }

  // ---------------------------------------------------------------- the registry

  datatype Key = RoomKey(room: Room) | WorkerKey(worker: Worker)

  /** Redis sets: a key without members does not exist. */
  type Sets = map<Key, set<Member>>

  function At(sets: Sets, k: Key): set<Member> {
    if k in sets then sets[k] else {}
  }

  ghost predicate NoEmptySets(sets: Sets) {
    forall k | k in sets :: sets[k] != {}
  }

  function Add(sets: Sets, m: Member): Sets {
    sets[RoomKey(m.room) := At(sets, RoomKey(m.room)) + {m}][WorkerKey(m.worker) := At(sets, WorkerKey(m.worker)) + {m}]
  }

  function InRoom(ms: set<Member>, room: Room): set<Member> {
    set m | m in ms && m.room == room
  }

  /** What a key holds when the members `ms` of worker `w` leave their rooms and the worker's own set. */
  function Without(sets: Sets, k: Key, w: Worker, ms: set<Member>): set<Member> {
    match k
    case RoomKey(room) => At(sets, k) - InRoom(ms, room)
    case WorkerKey(v) => if v == w then At(sets, k) - ms else At(sets, k)
  }

  function Drop(sets: Sets, w: Worker, ms: set<Member>): Sets {
    map k | k in sets && Without(sets, k, w, ms) != {} :: Without(sets, k, w, ms)
  }

  /** Two registries are the same when every key reads the same. */
  lemma SameSets(a: Sets, b: Sets)
    requires NoEmptySets(a) && NoEmptySets(b) && forall k :: At(a, k) == At(b, k)
    ensures a == b
  {
    forall k ensures (k in a <==> k in b) && (k in a ==> a[k] == b[k]) {
      assert At(a, k) == At(b, k);
    }
  }

  lemma DropReads(sets: Sets, w: Worker, ms: set<Member>)
    ensures NoEmptySets(Drop(sets, w, ms)) && forall k :: At(Drop(sets, w, ms), k) == Without(sets, k, w, ms)
  {
  }

  /** A dropped member leaves its room's key and the worker's own, and no other member leaves any key. */
  lemma DroppedMembers(sets: Sets, w: Worker, ms: set<Member>, k: Key, m: Member)
    ensures m in At(Drop(sets, w, ms), k) <==>
            m in At(sets, k) && !(m in ms && (k == RoomKey(m.room) || k == WorkerKey(w)))
  {
    DropReads(sets, w, ms);
  }

  lemma DropTwice(sets: Sets, w: Worker, a: set<Member>, b: set<Member>)
    ensures Drop(Drop(sets, w, a), w, b) == Drop(sets, w, a + b)
  {
    DropReads(sets, w, a);
    DropReads(Drop(sets, w, a), w, b);
    DropReads(sets, w, a + b);
    forall k ensures At(Drop(Drop(sets, w, a), w, b), k) == At(Drop(sets, w, a + b), k) {
      assert Without(Drop(sets, w, a), k, w, b) == Without(sets, k, w, a + b);
    }
    SameSets(Drop(Drop(sets, w, a), w, b), Drop(sets, w, a + b));
  }

  lemma DropNone(sets: Sets, w: Worker)
    requires NoEmptySets(sets)
    ensures Drop(sets, w, {}) == sets
  {
    DropReads(sets, w, {});
    forall k ensures At(Drop(sets, w, {}), k) == At(sets, k) {
      assert Without(sets, k, w, {}) == At(sets, k);
    }
    SameSets(Drop(sets, w, {}), sets);
  }

  // ---------------------------------------------------------------- one worker's operations

  /** What one worker sees: its own rooms and the registry. */
  datatype Side = Side(rooms: Rooms, sets: Sets)

  ghost predicate Valid(side: Side) {
    NoEmptySets(side.sets) && forall room | room in side.rooms :: side.rooms[room] != map[]
  }

  function Sockets(rooms: Rooms, room: Room): map<Socket, Conn> {
    if room in rooms then rooms[room] else map[]
  }

  function MembersOf(w: Worker, room: Room, connections: map<Socket, Conn>, some: set<Socket>): set<Member> {
    set s | s in connections && s in some :: Member(w, room, connections[s])
  }

  function AllMembers(w: Worker, rooms: Rooms): set<Member> {
    set room, s | room in rooms && s in rooms[room] :: Member(w, room, rooms[room][s])
  }

  /** `connect`. */
  function Connect(w: Worker, side: Side, room: Room, socket: Socket, conn: Conn): Side {
    Side(side.rooms[room := Sockets(side.rooms, room)[socket := conn]], Add(side.sets, Member(w, room, conn)))
  }

  /** Sockets leaving a room: one for `disconnect`, the failing ones for `broadcast`, all for `close_room`. */
  function Leave(w: Worker, side: Side, room: Room, gone: set<Socket>): Side {
    var connections := Sockets(side.rooms, room);
    Side(if connections - gone == map[] then side.rooms - {room} else side.rooms[room := connections - gone],
         Drop(side.sets, w, MembersOf(w, room, connections, gone)))
  }

  /** `disconnect_all`: what this worker holds, and what the registry still has of it. */
  function LeaveAll(w: Worker, side: Side): Side {
    Side(map[], Drop(side.sets, w, AllMembers(w, side.rooms) + At(side.sets, WorkerKey(w))))
  }

  lemma OwnMember(w: Worker, rooms: Rooms, m: Member)
    ensures m in AllMembers(w, rooms) <==>
            m.worker == w && exists s :: s in Sockets(rooms, m.room) && Sockets(rooms, m.room)[s] == m.conn
  {
    if m in AllMembers(w, rooms) {
      var room, s :| room in rooms && s in rooms[room] && m == Member(w, room, rooms[room][s]);
      assert s in Sockets(rooms, m.room) && Sockets(rooms, m.room)[s] == m.conn;
    }
    if m.worker == w {
      if s :| s in Sockets(rooms, m.room) && Sockets(rooms, m.room)[s] == m.conn {
        assert m == Member(w, m.room, rooms[m.room][s]);
      }
    }
  }

  /** `disconnect_all` leaves the worker without rooms and without a set, and no room with a member that it had. */
  lemma LeaveAllEmpties(w: Worker, side: Side, m: Member)
    ensures var after := LeaveAll(w, side);
            var sockets := Sockets(side.rooms, m.room);
            var own := m.worker == w && exists s :: s in sockets && sockets[s] == m.conn;
            && after.rooms == map[] && At(after.sets, WorkerKey(w)) == {}
            && (m in At(after.sets, RoomKey(m.room)) <==>
                  m in At(side.sets, RoomKey(m.room)) && m !in At(side.sets, WorkerKey(w)) && !own)
  {
    OwnMember(w, side.rooms, m);
    hide AllMembers;
    DropReads(side.sets, w, AllMembers(w, side.rooms) + At(side.sets, WorkerKey(w)));
  }

  lemma LeaveTwice(w: Worker, side: Side, room: Room, a: set<Socket>, b: set<Socket>)
    ensures Leave(w, Leave(w, side, room, a), room, b) == Leave(w, side, room, a + b)
  {
    var connections := Sockets(side.rooms, room);
    var ms := MembersOf(w, room, connections, a);
    assert Sockets(Leave(w, side, room, a).rooms, room) == connections - a;
    assert connections - a - b == connections - (a + b);
    assert ms + MembersOf(w, room, connections - a, b) == MembersOf(w, room, connections, a + b);
    DropTwice(side.sets, w, ms, MembersOf(w, room, connections - a, b));
  }

  lemma LeaveNone(w: Worker, side: Side, room: Room, gone: set<Socket>)
    requires Valid(side) && gone !! Sockets(side.rooms, room).Keys
    ensures Leave(w, side, room, gone) == side
  {
    assert Sockets(side.rooms, room) - gone == Sockets(side.rooms, room);
    assert MembersOf(w, room, Sockets(side.rooms, room), gone) == {};
    DropNone(side.sets, w);
  }

  // ---------------------------------------------------------------- the hub object

  /** The shared store. */
  class Redis {
    var sets: Sets

    constructor ()
      ensures sets == map[]
    {
      sets := map[];
    }

    method SAdd(k: Key, m: Member)
      modifies this
      ensures sets == old(sets)[k := At(old(sets), k) + {m}]
    {
      sets := sets[k := At(sets, k) + {m}];
    }

    method SRem(k: Key, m: Member)
      modifies this
      ensures sets == if At(old(sets), k) - {m} == {} then old(sets) - {k} else old(sets)[k := At(old(sets), k) - {m}]
    {
      var rest := At(sets, k) - {m};
      sets := if rest == {} then sets - {k} else sets[k := rest];
    }

    method Del(k: Key)
      modifies this
      ensures sets == old(sets) - {k}
    {
      sets := sets - {k};
    }
  }

  class GroupRoomHub {
    const id: Worker
    const redis: Redis
    var rooms: Rooms

    function State(): Side
      reads this, redis
    {
      Side(rooms, redis.sets)
    }

    constructor (id: Worker, redis: Redis)
      ensures this.id == id && this.redis == redis && rooms == map[]
    {
      this.id, this.redis, rooms := id, redis, map[];
    }

    method OnConnect(room: Room, socket: Socket, conn: Conn)
      modifies this, redis
      ensures State() == Connect(id, old(State()), room, socket, conn)
    {
      rooms := rooms[room := Sockets(rooms, room)[socket := conn]];
      redis.SAdd(RoomKey(room), Member(id, room, conn));
      redis.SAdd(WorkerKey(id), Member(id, room, conn));
    }

    /** `_unregister_connection`. */
    method Unregister(room: Room, conn: Conn)
      requires NoEmptySets(redis.sets)
      modifies redis
      ensures redis.sets == Drop(old(redis.sets), id, {Member(id, room, conn)}) && NoEmptySets(redis.sets)
    {
      var m := Member(id, room, conn);
      redis.SRem(RoomKey(room), m);
      redis.SRem(WorkerKey(id), m);
      DropReads(old(redis.sets), id, {m});
      forall k ensures At(redis.sets, k) == Without(old(redis.sets), k, id, {m}) {
        if k.RoomKey? { assert InRoom({m}, k.room) == if k.room == room then {m} else {}; }
      }
      SameSets(redis.sets, Drop(old(redis.sets), id, {m}));
    }

    method Disconnect(room: Room, socket: Socket)
      requires Valid(State())
      modifies this, redis
      ensures State() == Leave(id, old(State()), room, {socket}) && Valid(State())
    {
      ghost var before := State();
      if room !in rooms || socket !in rooms[room] {
        LeaveNone(id, before, room, {socket});
        return;
      }
      var connections := rooms[room];
      var rest := connections - {socket};
      rooms := if rest == map[] then rooms - {room} else rooms[room := rest];
      Unregister(room, connections[socket]);
      assert MembersOf(id, room, connections, {socket}) == {Member(id, room, connections[socket])};
    }

    /** `broadcast`, when sending to the sockets in `failing` raises; `sent` received the payload. */
    method Broadcast(room: Room, failing: set<Socket>) returns (sent: set<Socket>)
      requires Valid(State())
      modifies this, redis
      ensures sent == Sockets(old(rooms), room).Keys - failing
      ensures State() == Leave(id, old(State()), room, failing) && Valid(State())
    {
      ghost var before := State();
      var sockets := Sockets(rooms, room).Keys;
      var todo := sockets;
      ghost var failed: set<Socket> := {};
      sent := {};
      LeaveNone(id, before, room, {});
      while todo != {}
        invariant todo <= sockets && failed == (sockets - todo) * failing && sent == (sockets - todo) - failing
        invariant State() == Leave(id, before, room, failed) && Valid(State())
        decreases todo
      {
        var s :| s in todo;
        if s in failing {
          LeaveTwice(id, before, room, failed, {s});
          Disconnect(room, s);
          failed := failed + {s};
        } else {
          sent := sent + {s};
        }
        todo := todo - {s};
      }
      LeaveOnlyPresent(id, before, room, failing);
    }

    /** The connections of a room that was taken out of `rooms`. */
    method UnregisterRoom(room: Room, connections: map<Socket, Conn>) returns (closed: set<Socket>)
      requires NoEmptySets(redis.sets)
      modifies redis
      ensures closed == connections.Keys && NoEmptySets(redis.sets)
      ensures redis.sets == Drop(old(redis.sets), id, MembersOf(id, room, connections, closed))
    {
      ghost var before := redis.sets;
      closed := {};
      var todo := connections.Keys;
      DropNone(before, id);
      assert MembersOf(id, room, connections, {}) == {};
      while todo != {}
        invariant closed !! todo && closed + todo == connections.Keys && NoEmptySets(redis.sets)
        invariant redis.sets == Drop(before, id, MembersOf(id, room, connections, closed))
        decreases todo
      {
        var s :| s in todo;
        Unregister(room, connections[s]);
        DropTwice(before, id, MembersOf(id, room, connections, closed), {Member(id, room, connections[s])});
        assert MembersOf(id, room, connections, closed + {s}) ==
               MembersOf(id, room, connections, closed) + {Member(id, room, connections[s])};
        closed, todo := closed + {s}, todo - {s};
      }
    }

    method CloseRoom(room: Room) returns (closed: set<Socket>)
      requires Valid(State())
      modifies this, redis
      ensures closed == Sockets(old(rooms), room).Keys
      ensures State() == Leave(id, old(State()), room, closed) && Valid(State())
    {
      var connections := Sockets(rooms, room);
      rooms := rooms - {room};
      closed := UnregisterRoom(room, connections);
      assert connections - closed == map[];
    }

    /** `_clear_instance_connections`: each member of the worker's set leaves its room, then the set goes. */
    method ClearInstanceConnections()
      requires NoEmptySets(redis.sets)
      modifies redis
      ensures redis.sets == Drop(old(redis.sets), id, At(old(redis.sets), WorkerKey(id))) && NoEmptySets(redis.sets)
    {
      ghost var before := redis.sets;
      var members := At(redis.sets, WorkerKey(id));
      var todo := members;
      while todo != {}
        invariant todo <= members && NoEmptySets(redis.sets)
        invariant forall k :: At(redis.sets, k) ==
                    if k.RoomKey? then Without(before, k, id, members - todo) else At(before, k)
        decreases todo
      {
        var m :| m in todo;
        redis.SRem(RoomKey(m.room), m);
        forall room ensures InRoom(members - (todo - {m}), room) ==
                            InRoom(members - todo, room) + if m.room == room then {m} else {}
        {
        }
        todo := todo - {m};
      }
      assert members - todo == members;
      redis.Del(WorkerKey(id));
      DropReads(before, id, members);
      SameSets(redis.sets, Drop(before, id, members));
    }

    method DisconnectAll()
      requires Valid(State())
      modifies this, redis
      ensures State() == LeaveAll(id, old(State())) && Valid(State())
    {
      ghost var before := State();
      var connectionsByRoom := rooms;
      rooms := map[];
      var todo := connectionsByRoom.Keys;
      DropNone(before.sets, id);
      assert AllMembers(id, connectionsByRoom - todo) == {};
      while todo != {}
        invariant todo <= connectionsByRoom.Keys && rooms == map[] && NoEmptySets(redis.sets)
        invariant redis.sets == Drop(before.sets, id, AllMembers(id, connectionsByRoom - todo))
        decreases todo
      {
        var room :| room in todo;
        var closed := UnregisterRoom(room, connectionsByRoom[room]);
        RoomsUnion(id, connectionsByRoom, todo, room);
        DropTwice(before.sets, id, AllMembers(id, connectionsByRoom - todo),
                  MembersOf(id, room, connectionsByRoom[room], closed));
        todo := todo - {room};
      }
      assert connectionsByRoom - todo == before.rooms;
      ghost var mine := AllMembers(id, before.rooms);
      ClearInstanceConnections();
      DropReads(before.sets, id, mine);
      ghost var rest := At(Drop(before.sets, id, mine), WorkerKey(id));
      DropTwice(before.sets, id, mine, rest);
      assert mine + rest == mine + At(before.sets, WorkerKey(id));
    }
  }

  /** The members of one more room. */
  lemma RoomsUnion(w: Worker, rooms: Rooms, todo: set<Room>, room: Room)
    requires room in todo && room in rooms
    ensures AllMembers(w, rooms - (todo - {room})) ==
            AllMembers(w, rooms - todo) + MembersOf(w, room, rooms[room], rooms[room].Keys)
  {
    var less, more := rooms - todo, rooms - (todo - {room});
    forall m | m in AllMembers(w, more)
      ensures m in AllMembers(w, less) + MembersOf(w, room, rooms[room], rooms[room].Keys)
    {
      var r, s :| r in more && s in more[r] && m == Member(w, r, more[r][s]);
      if r != room {
        assert r in less && less[r] == more[r];
      } else {
        assert s in rooms[room].Keys && s in rooms[room] && m == Member(w, room, rooms[room][s]);
      }
    }
    forall m | m in AllMembers(w, less) ensures m in AllMembers(w, more) {
      var r, s :| r in less && s in less[r] && m == Member(w, r, less[r][s]);
      assert r in more && more[r] == less[r];
    }
    forall m | m in MembersOf(w, room, rooms[room], rooms[room].Keys) ensures m in AllMembers(w, more) {
      var s :| s in rooms[room] && m == Member(w, room, rooms[room][s]);
      assert room in more && more[room] == rooms[room];
    }
  }

  lemma LeaveOnlyPresent(w: Worker, side: Side, room: Room, gone: set<Socket>)
    ensures Leave(w, side, room, Sockets(side.rooms, room).Keys * gone) == Leave(w, side, room, gone)
  {
    var connections := Sockets(side.rooms, room);
    assert connections - connections.Keys * gone == connections - gone;
    assert MembersOf(w, room, connections, connections.Keys * gone) == MembersOf(w, room, connections, gone);
  }
}
