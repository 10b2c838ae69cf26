/**
 The realtime protocol of all workers: local hubs, the shared registry, and room events sent over
 lossless publish/subscribe with the sender's own copies filtered out.  Hub operations are whole
 steps; a notification is three steps (local effect, publish, receipt by each worker) and anything may
 happen in between.
 */
module GroupFanout {
  import opened Wrappers
  import opened GroupHub

  /** One call of `notify_group_files_updated` or, with `closes`, `notify_group_room_closed`. */
  datatype Event = Event(number: nat, room: Room, source: Worker, closes: bool)

  /**
   `unpublished` are the notifications whose local effect has happened; `inbox` what each worker has
   still to receive.  Two histories: `delivered` counts each sending of an event to a socket, and
   `stayed` are, for each event, the sockets connected to its room ever since it was raised.
   */
  datatype World = World(
    local: map<Worker, Rooms>, sets: Sets, inbox: map<Worker, seq<Event>>, unpublished: set<Event>,
    delivered: multiset<(Event, Worker, Socket)>, stayed: map<Event, set<(Worker, Socket)>>, next: nat)

  predicate Connected(local: map<Worker, Rooms>, w: Worker, room: Room, s: Socket) {
    w in local && s in Sockets(local[w], room)
  }

  function Audience(local: map<Worker, Rooms>, room: Room): set<(Worker, Socket)> {
    set w, s | w in local && s in Sockets(local[w], room) :: (w, s)
  }

  /** A worker's hub and the registry have changed; sockets that are gone have not stayed. */
  function WithSide(x: World, w: Worker, side: Side): World {
    var local := x.local[w := side.rooms];
    x.(local := local, sets := side.sets,
       stayed := map e | e in x.stayed :: x.stayed[e] * Audience(local, e.room))
  }

  function SideOf(x: World, w: Worker): Side
    requires w in x.local
  {
    Side(x.local[w], x.sets)
  }

  /** The effect of an event at one worker: a broadcast in which `failing` sockets raise, then the close. */
  function Effect(x: World, w: Worker, e: Event, failing: set<Socket>): World
    requires w in x.local
  {
    var sockets := Sockets(x.local[w], e.room).Keys - failing;
    var side := Leave(w, SideOf(x, w), e.room, failing);
    var after := if e.closes then Leave(w, side, e.room, sockets) else side;
    WithSide(x.(delivered := x.delivered + multiset(set s | s in sockets :: (e, w, s))), w, after)
  }

  datatype Step =
    | OnConnect(w: Worker, room: Room, socket: Socket, conn: Conn)
    | OnDisconnect(w: Worker, room: Room, socket: Socket)
    | OnShutdown(w: Worker)
    | Notify(w: Worker, room: Room, closes: bool, failing: set<Socket>)
    | Publish(event: Event)
    | Receive(w: Worker, failing: set<Socket>)

  ghost predicate FreshConn(rooms: Rooms, conn: Conn) {
    forall room, s | room in rooms && s in rooms[room] :: rooms[room][s] != conn
  }

  /** Connecting takes a socket new to the room and a connection id nobody has, as `uuid4` gives. */
  ghost predicate Enabled(x: World, a: Step) {
    && x.inbox.Keys == x.local.Keys
    && match a
       case OnConnect(w, room, socket, conn) =>
         w in x.local && !Connected(x.local, w, room, socket) && FreshConn(x.local[w], conn)
       case OnDisconnect(w, _, _) => w in x.local
       case OnShutdown(w) => w in x.local
       case Notify(w, _, _, _) => w in x.local
       case Publish(e) => e in x.unpublished
       case Receive(w, _) => w in x.inbox && x.inbox[w] != []
  }

  /** A notification enters the histories before its local effect. */
  function Raised(x: World, w: Worker, room: Room, closes: bool): World {
    var e := Event(x.next, room, w, closes);
    x.(stayed := x.stayed[e := Audience(x.local, room)], unpublished := x.unpublished + {e}, next := x.next + 1)
  }

  /** The first message of an inbox has been taken. */
  function Taken(x: World, w: Worker): World
    requires w in x.inbox && x.inbox[w] != []
  {
    x.(inbox := x.inbox[w := x.inbox[w][1..]])
  }

  function Apply(x: World, a: Step): World
    requires Enabled(x, a)
  {
    match a
    case OnConnect(w, room, socket, conn) => WithSide(x, w, Connect(w, SideOf(x, w), room, socket, conn))
    case OnDisconnect(w, room, socket) => WithSide(x, w, Leave(w, SideOf(x, w), room, {socket}))
    case OnShutdown(w) => WithSide(x, w, LeaveAll(w, SideOf(x, w)))
    case Notify(w, room, closes, failing) =>
      Effect(Raised(x, w, room, closes), w, Event(x.next, room, w, closes), failing)
    case Publish(e) =>
      x.(unpublished := x.unpublished - {e}, inbox := map w | w in x.inbox :: x.inbox[w] + [e])
    case Receive(w, failing) =>
      var e := x.inbox[w][0];
      if e.source == w then Taken(x, w) else Effect(Taken(x, w), w, e, failing)
  }

  ghost predicate Initial(x: World) {
    && x.inbox.Keys == x.local.Keys
    && (forall w | w in x.local :: x.local[w] == map[] && x.inbox[w] == [])
    && x.sets == map[] && x.unpublished == {} && x.delivered == multiset{} && x.stayed == map[]
  }

  ghost predicate IsRun(states: seq<World>, steps: seq<Step>) {
    && |states| == |steps| + 1 && Initial(states[0])
    && forall i: nat | i < |steps| :: Enabled(states[i], steps[i]) && states[i + 1] == Apply(states[i], steps[i])
  }

  // ---------------------------------------------------------------- the registry

  predicate Listed(local: map<Worker, Rooms>, m: Member) {
    m.worker in local && m in AllMembers(m.worker, local[m.worker])
  }

  ghost predicate NoEmptyRooms(rooms: Rooms) {
    forall room | room in rooms :: rooms[room] != map[]
  }

  /** No two connections of a worker have the same id. */
  ghost predicate UniqueConns(rooms: Rooms) {
    forall r, s, q, t | r in rooms && s in rooms[r] && q in rooms && t in rooms[q] && rooms[r][s] == rooms[q][t] ::
      r == q && s == t
  }

  /** The registry is the union of the workers' own maps, and nothing empty is kept anywhere. */
  ghost predicate RegistryExact(local: map<Worker, Rooms>, sets: Sets) {
    && NoEmptySets(sets)
    && (forall w | w in local :: NoEmptyRooms(local[w]) && UniqueConns(local[w]))
    && (forall room, m :: m in At(sets, RoomKey(room)) <==> m.room == room && Listed(local, m))
    && (forall w, m :: m in At(sets, WorkerKey(w)) <==> m.worker == w && Listed(local, m))
  }

  lemma ListedAfterLeave(w: Worker, rooms: Rooms, room: Room, gone: set<Socket>, r: Room, s: Socket)
    requires UniqueConns(rooms) && r in rooms && s in rooms[r]
    ensures Member(w, r, rooms[r][s]) in MembersOf(w, room, Sockets(rooms, room), gone) <==> r == room && s in gone
  {
    if Member(w, r, rooms[r][s]) in MembersOf(w, room, Sockets(rooms, room), gone) {
      var t :| t in Sockets(rooms, room) && t in gone && Member(w, r, rooms[r][s]) == Member(w, room, rooms[room][t]);
      assert rooms[r][s] == rooms[room][t];
    }
  }

  lemma SocketsAfterLeave(w: Worker, side: Side, room: Room, gone: set<Socket>, r: Room)
    ensures Sockets(Leave(w, side, room, gone).rooms, r) ==
            if r == room then Sockets(side.rooms, room) - gone else Sockets(side.rooms, r)
  {
  }

  lemma MembersAfterLeave(w: Worker, rooms: Rooms, room: Room, gone: set<Socket>)
    requires UniqueConns(rooms)
    ensures AllMembers(w, Leave(w, Side(rooms, map[]), room, gone).rooms) ==
            AllMembers(w, rooms) - MembersOf(w, room, Sockets(rooms, room), gone)
  {
    hide Leave, MembersOf, UniqueConns;
    var after := Leave(w, Side(rooms, map[]), room, gone).rooms;
    forall m | m in AllMembers(w, after)
      ensures m in AllMembers(w, rooms) && m !in MembersOf(w, room, Sockets(rooms, room), gone)
    {
      var r, s :| r in after && s in after[r] && m == Member(w, r, after[r][s]);
      SocketsAfterLeave(w, Side(rooms, map[]), room, gone, r);
      assert r in rooms && s in rooms[r];
      ListedAfterLeave(w, rooms, room, gone, r, s);
    }
    forall m | m in AllMembers(w, rooms) && m !in MembersOf(w, room, Sockets(rooms, room), gone)
      ensures m in AllMembers(w, after)
    {
      var r, s :| r in rooms && s in rooms[r] && m == Member(w, r, rooms[r][s]);
      SocketsAfterLeave(w, Side(rooms, map[]), room, gone, r);
      ListedAfterLeave(w, rooms, room, gone, r, s);
      assert s in Sockets(after, r);
    }
  }

  lemma UniqueAfterLeave(w: Worker, rooms: Rooms, room: Room, gone: set<Socket>)
    requires UniqueConns(rooms)
    ensures UniqueConns(Leave(w, Side(rooms, map[]), room, gone).rooms)
  {
    var after := Leave(w, Side(rooms, map[]), room, gone).rooms;
    assert forall r, s :: r in after && s in after[r] ==> r in rooms && s in rooms[r] && rooms[r][s] == after[r][s];
  }

  /** A step that drops exactly the members its worker no longer has keeps the registry exact. */
  lemma RemovalKeepsExact(local: map<Worker, Rooms>, sets: Sets, w: Worker, side: Side, ms: set<Member>)
    requires RegistryExact(local, sets) && w in local
    requires NoEmptyRooms(side.rooms) && UniqueConns(side.rooms)
    requires forall m | m in ms :: m.worker == w
    requires AllMembers(w, side.rooms) == AllMembers(w, local[w]) - ms && side.sets == Drop(sets, w, ms)
    ensures RegistryExact(local[w := side.rooms], side.sets)
  {
    hide AllMembers, UniqueConns, NoEmptyRooms;
    var after := local[w := side.rooms];
    DropReads(sets, w, ms);
    forall m ensures Listed(after, m) <==> Listed(local, m) && m !in ms {
      if m.worker != w { assert m !in ms; }
    }
    forall room, m ensures m in At(side.sets, RoomKey(room)) <==> m.room == room && Listed(after, m) {
      assert At(side.sets, RoomKey(room)) == Without(sets, RoomKey(room), w, ms);
    }
    forall v, m ensures m in At(side.sets, WorkerKey(v)) <==> m.worker == v && Listed(after, m) {
      assert At(side.sets, WorkerKey(v)) == Without(sets, WorkerKey(v), w, ms);
    }
  }

  lemma LeaveKeepsExact(local: map<Worker, Rooms>, sets: Sets, w: Worker, room: Room, gone: set<Socket>)
    requires RegistryExact(local, sets) && w in local
    ensures var side := Leave(w, Side(local[w], sets), room, gone); RegistryExact(local[w := side.rooms], side.sets)
  {
    var side := Leave(w, Side(local[w], sets), room, gone);
    MembersAfterLeave(w, local[w], room, gone);
    UniqueAfterLeave(w, local[w], room, gone);
    RemovalKeepsExact(local, sets, w, side, MembersOf(w, room, Sockets(local[w], room), gone));
  }

  lemma OwnMembers(local: map<Worker, Rooms>, sets: Sets, w: Worker)
    requires RegistryExact(local, sets) && w in local
    ensures forall m | m in AllMembers(w, local[w]) + At(sets, WorkerKey(w)) :: m.worker == w
  {
    assert forall m | m in AllMembers(w, local[w]) :: m.worker == w;
    hide NoEmptyRooms, UniqueConns, NoEmptySets, AllMembers, Listed, At;
  }

  lemma LeaveAllKeepsExact(local: map<Worker, Rooms>, sets: Sets, w: Worker)
    requires RegistryExact(local, sets) && w in local
    ensures var side := LeaveAll(w, Side(local[w], sets)); RegistryExact(local[w := side.rooms], side.sets)
  {
    var ms := AllMembers(w, local[w]) + At(sets, WorkerKey(w));
    OwnMembers(local, sets, w);
    assert AllMembers(w, map[]) == {} && NoEmptyRooms(map[]) && UniqueConns(map[]);
    hide AllMembers, RegistryExact, NoEmptyRooms, UniqueConns, Drop;
    RemovalKeepsExact(local, sets, w, LeaveAll(w, Side(local[w], sets)), ms);
  }

  lemma MembersAfterConnect(w: Worker, rooms: Rooms, room: Room, socket: Socket, conn: Conn)
    requires socket !in Sockets(rooms, room)
    ensures AllMembers(w, Connect(w, Side(rooms, map[]), room, socket, conn).rooms) ==
            AllMembers(w, rooms) + {Member(w, room, conn)}
  {
    var after := Connect(w, Side(rooms, map[]), room, socket, conn).rooms;
    forall m ensures m in AllMembers(w, after) <==> m in AllMembers(w, rooms) || m == Member(w, room, conn) {
      if m in AllMembers(w, after) {
        var r, s :| r in after && s in after[r] && m == Member(w, r, after[r][s]);
        if r != room || s != socket {
          assert r in rooms && s in rooms[r] && rooms[r][s] == after[r][s];
        }
      }
      if m in AllMembers(w, rooms) {
        var r, s :| r in rooms && s in rooms[r] && m == Member(w, r, rooms[r][s]);
        assert r in after && s in after[r] && after[r][s] == rooms[r][s];
      }
      if m == Member(w, room, conn) {
        assert room in after && socket in after[room] && after[room][socket] == conn;
      }
    }
  }

  lemma UniqueAfterConnect(rooms: Rooms, w: Worker, room: Room, socket: Socket, conn: Conn)
    requires UniqueConns(rooms) && socket !in Sockets(rooms, room) && FreshConn(rooms, conn)
    ensures UniqueConns(Connect(w, Side(rooms, map[]), room, socket, conn).rooms)
  {
    var after := Connect(w, Side(rooms, map[]), room, socket, conn).rooms;
    forall r, s, q, t | r in after && s in after[r] && q in after && t in after[q] && after[r][s] == after[q][t]
      ensures r == q && s == t
    {
      if r != room || s != socket { assert r in rooms && s in rooms[r] && rooms[r][s] == after[r][s]; }
      if q != room || t != socket { assert q in rooms && t in rooms[q] && rooms[q][t] == after[q][t]; }
    }
  }

  /** A step that adds one member and lists it keeps the registry exact. */
  lemma AdditionKeepsExact(local: map<Worker, Rooms>, sets: Sets, w: Worker, rooms: Rooms, added: Member)
    requires RegistryExact(local, sets) && w in local && added.worker == w
    requires NoEmptyRooms(rooms) && UniqueConns(rooms)
    requires AllMembers(w, rooms) == AllMembers(w, local[w]) + {added}
    ensures RegistryExact(local[w := rooms], Add(sets, added))
  {
    hide AllMembers, UniqueConns, NoEmptyRooms;
    var after, more := local[w := rooms], Add(sets, added);
    forall m ensures Listed(after, m) <==> Listed(local, m) || m == added {
    }
    forall room, m ensures m in At(more, RoomKey(room)) <==> m.room == room && Listed(after, m) {
      assert At(more, RoomKey(room)) == At(sets, RoomKey(room)) + if added.room == room then {added} else {};
    }
    forall v, m ensures m in At(more, WorkerKey(v)) <==> m.worker == v && Listed(after, m) {
      assert At(more, WorkerKey(v)) == At(sets, WorkerKey(v)) + if v == w then {added} else {};
    }
  }

  lemma ReconnectForgets(rooms: Rooms, w: Worker, room: Room, socket: Socket, conn: Conn)
    requires UniqueConns(rooms) && socket in Sockets(rooms, room) && rooms[room][socket] != conn
    ensures Member(w, room, rooms[room][socket]) !in
            AllMembers(w, Connect(w, Side(rooms, map[]), room, socket, conn).rooms)
  {
    var after := Connect(w, Side(rooms, map[]), room, socket, conn).rooms;
    forall s | s in after[room] ensures after[room][s] != rooms[room][socket] {
      if s != socket { assert after[room][s] == rooms[room][s]; }
    }
  }

  /**
   Registering a socket that the room already has leaves its first member behind: the registry stays exact
   iff it is new.
   */
  lemma ConnectExactIff(local: map<Worker, Rooms>, sets: Sets, w: Worker, room: Room, socket: Socket, conn: Conn)
    requires RegistryExact(local, sets) && w in local && FreshConn(local[w], conn)
    ensures var side := Connect(w, Side(local[w], sets), room, socket, conn);
            RegistryExact(local[w := side.rooms], side.sets) <==> !Connected(local, w, room, socket)
  {
    var side := Connect(w, Side(local[w], sets), room, socket, conn);
    if Connected(local, w, room, socket) {
      var lost := Member(w, room, local[w][room][socket]);
      ReconnectForgets(local[w], w, room, socket, conn);
      assert Listed(local, lost) && !Listed(local[w := side.rooms], lost);
      assert lost in At(sets, RoomKey(room)) && lost in At(side.sets, RoomKey(room));
    } else {
      MembersAfterConnect(w, local[w], room, socket, conn);
      UniqueAfterConnect(local[w], w, room, socket, conn);
      AdditionKeepsExact(local, sets, w, side.rooms, Member(w, room, conn));
    }
  }

  lemma LeaveTwiceKeepsExact(local: map<Worker, Rooms>, sets: Sets, w: Worker, room: Room,
                             a: set<Socket>, b: set<Socket>)
    requires RegistryExact(local, sets) && w in local
    ensures var side := Leave(w, Leave(w, Side(local[w], sets), room, a), room, b);
            RegistryExact(local[w := side.rooms], side.sets)
  {
    LeaveTwice(w, Side(local[w], sets), room, a, b);
    LeaveKeepsExact(local, sets, w, room, a + b);
  }

  lemma EffectKeepsExact(x: World, w: Worker, e: Event, failing: set<Socket>)
    requires RegistryExact(x.local, x.sets) && w in x.local
    ensures var y := Effect(x, w, e, failing); RegistryExact(y.local, y.sets)
  {
    hide RegistryExact, Leave;
    if e.closes {
      LeaveTwiceKeepsExact(x.local, x.sets, w, e.room, failing, Sockets(x.local[w], e.room).Keys - failing);
    } else {
      LeaveKeepsExact(x.local, x.sets, w, e.room, failing);
    }
  }

  /** Every step keeps the registry equal to the union of the workers' maps. */
  lemma StepKeepsExact(x: World, a: Step)
    requires RegistryExact(x.local, x.sets) && Enabled(x, a)
    ensures var y := Apply(x, a); RegistryExact(y.local, y.sets)
  {
    hide RegistryExact, Leave, LeaveAll, Connect;
    match a
    case OnConnect(w, room, socket, conn) => ConnectExactIff(x.local, x.sets, w, room, socket, conn);
    case OnDisconnect(w, room, socket) => LeaveKeepsExact(x.local, x.sets, w, room, {socket});
    case OnShutdown(w) => LeaveAllKeepsExact(x.local, x.sets, w);
    case Notify(w, room, closes, failing) =>
      hide Effect;
      EffectKeepsExact(Raised(x, w, room, closes), w, Event(x.next, room, w, closes), failing);
    case Publish(e) =>
    case Receive(w, failing) =>
      hide Effect;
      if x.inbox[w][0].source != w {
        EffectKeepsExact(Taken(x, w), w, x.inbox[w][0], failing);
      }
  }

  // ---------------------------------------------------------------- exactly once

  /** Copies of the event that worker `w` has still to act on: it ignores its own. */
  function Pending(x: World, e: Event, w: Worker): nat
    requires w in x.inbox
  {
    if w == e.source then 0
    else (if e in x.unpublished then 1 else 0) + multiset(x.inbox[w])[e]
  }

  ghost predicate Known(x: World) {
    && x.inbox.Keys == x.local.Keys
    && (forall e | e in x.stayed :: e.number < x.next && e.source in x.local)
    && (forall e | e in x.unpublished :: e in x.stayed)
    && (forall w, i: nat | w in x.inbox && i < |x.inbox[w]| ::
          x.inbox[w][i] in x.stayed && x.inbox[w][i] !in x.unpublished)
    && (forall e, w, s | e !in x.stayed :: x.delivered[(e, w, s)] == 0)
    && (forall e, w, s | e in x.stayed && (w, s) in x.stayed[e] :: Connected(x.local, w, e.room, s))
  }

  /** One event at one worker: sent once or still to be acted on once; a close leaves no earlier socket. */
  ghost predicate OnceAt(x: World, e: Event, w: Worker)
    requires e in x.stayed && w in x.inbox
  {
    var pending := Pending(x, e, w);
    && pending <= 1
    && (forall s :: x.delivered[(e, w, s)] + pending <= 1)
    && (forall s | (w, s) in x.stayed[e] ::
          if e.closes then pending == 1 else x.delivered[(e, w, s)] + pending == 1)
  }

  ghost predicate Once(x: World) {
    Known(x) && forall e, w | e in x.stayed && w in x.inbox :: OnceAt(x, e, w)
  }

  /** The event is being acted on at this worker: no copy is left for it and nothing has been sent there. */
  ghost predicate Taking(x: World, e: Event, w: Worker) {
    && e in x.stayed && w in x.inbox && Pending(x, e, w) == 0
    && (forall s :: x.delivered[(e, w, s)] == 0)
  }

  ghost predicate OnceBut(x: World, e: Event, w: Worker) {
    Known(x) && Taking(x, e, w) && forall f, v | f in x.stayed && v in x.inbox && !(f == e && v == w) :: OnceAt(x, f, v)
  }

  lemma SideShrinks(x: World, w: Worker, side: Side)
    requires Known(x) && w in x.local
    ensures var y := WithSide(x, w, side);
            Known(y) && y.stayed.Keys == x.stayed.Keys && forall e | e in x.stayed :: y.stayed[e] <= x.stayed[e]
  {
    var y := WithSide(x, w, side);
    assert y.stayed.Keys == x.stayed.Keys && y.local.Keys == x.local.Keys;
    forall e, v, s | e in y.stayed && (v, s) in y.stayed[e] ensures Connected(y.local, v, e.room, s) {
      assert (v, s) in Audience(y.local, e.room);
    }
    hide Connected, Audience;
  }

  lemma SideKeepsOnce(x: World, w: Worker, side: Side)
    requires Once(x) && w in x.local
    ensures Once(WithSide(x, w, side))
  {
    var y := WithSide(x, w, side);
    SideShrinks(x, w, side);
    hide Known;
    forall e, v | e in y.stayed && v in y.inbox ensures OnceAt(y, e, v) {
      assert OnceAt(x, e, v);
    }
  }

  lemma EffectSockets(x: World, w: Worker, e: Event, failing: set<Socket>, s: Socket)
    requires w in x.local
    ensures var sockets := Sockets(x.local[w], e.room).Keys - failing;
            Connected(Effect(x, w, e, failing).local, w, e.room, s) <==> s in sockets && !e.closes
  {
    var sockets := Sockets(x.local[w], e.room).Keys - failing;
    SocketsAfterLeave(w, SideOf(x, w), e.room, failing, e.room);
    SocketsAfterLeave(w, Leave(w, SideOf(x, w), e.room, failing), e.room, sockets, e.room);
  }

  lemma EffectDelivered(x: World, w: Worker, e: Event, failing: set<Socket>, f: Event, v: Worker, s: Socket)
    requires w in x.local
    ensures var sockets := Sockets(x.local[w], e.room).Keys - failing;
            Effect(x, w, e, failing).delivered[(f, v, s)] ==
            x.delivered[(f, v, s)] + if f == e && v == w && s in sockets then 1 else 0
  {
  }

  lemma EffectKnown(x: World, w: Worker, e: Event, failing: set<Socket>)
    requires Known(x) && w in x.local && e in x.stayed
    ensures Known(Effect(x, w, e, failing))
  {
    var y := Effect(x, w, e, failing);
    hide Leave;
    forall f, v, s | f !in y.stayed ensures y.delivered[(f, v, s)] == 0 {
      EffectDelivered(x, w, e, failing, f, v, s);
    }
  }

  lemma EffectShrinks(x: World, w: Worker, e: Event, failing: set<Socket>)
    requires w in x.local
    ensures var y := Effect(x, w, e, failing);
            && y.inbox == x.inbox && y.unpublished == x.unpublished && y.stayed.Keys == x.stayed.Keys
            && forall f | f in x.stayed :: y.stayed[f] == x.stayed[f] * Audience(y.local, f.room)
  {
    hide Leave;
  }

  lemma EffectHere(x: World, w: Worker, e: Event, failing: set<Socket>)
    requires Known(x) && Taking(x, e, w) && w in x.local
    ensures OnceAt(Effect(x, w, e, failing), e, w)
  {
    var y := Effect(x, w, e, failing);
    EffectShrinks(x, w, e, failing);
    hide Effect, Known;
    forall s ensures y.delivered[(e, w, s)] <= 1 {
      EffectDelivered(x, w, e, failing, e, w, s);
    }
    forall s | (w, s) in y.stayed[e] ensures !e.closes && y.delivered[(e, w, s)] == 1 {
      EffectSockets(x, w, e, failing, s);
      EffectDelivered(x, w, e, failing, e, w, s);
    }
  }

  lemma EffectElsewhere(x: World, w: Worker, e: Event, failing: set<Socket>, f: Event, v: Worker)
    requires w in x.local && f in x.stayed && v in x.inbox && OnceAt(x, f, v) && !(f == e && v == w)
    ensures OnceAt(Effect(x, w, e, failing), f, v)
  {
    var y := Effect(x, w, e, failing);
    EffectShrinks(x, w, e, failing);
    hide Effect;
    forall s ensures y.delivered[(f, v, s)] == x.delivered[(f, v, s)] {
      EffectDelivered(x, w, e, failing, f, v, s);
    }
  }

  lemma EffectKeepsOnce(x: World, w: Worker, e: Event, failing: set<Socket>)
    requires OnceBut(x, e, w)
    ensures Once(Effect(x, w, e, failing))
  {
    var y := Effect(x, w, e, failing);
    assert w in x.local;
    EffectKnown(x, w, e, failing);
    EffectShrinks(x, w, e, failing);
    EffectHere(x, w, e, failing);
    hide Known, Effect, OnceAt;
    forall f, v | f in y.stayed && v in y.inbox ensures OnceAt(y, f, v) {
      if !(f == e && v == w) { EffectElsewhere(x, w, e, failing, f, v); }
    }
  }

  lemma RaisedCounts(x: World, w: Worker, room: Room, closes: bool, v: Worker)
    requires Known(x) && v in x.inbox
    ensures var e := Event(x.next, room, w, closes);
            e !in x.stayed && Pending(Raised(x, w, room, closes), e, v) == if v == w then 0 else 1
  {
    var e := Event(x.next, room, w, closes);
    forall i: nat | i < |x.inbox[v]| ensures x.inbox[v][i] != e {
    }
  }

  lemma RaisedKnown(x: World, w: Worker, room: Room, closes: bool)
    requires Known(x) && w in x.local
    ensures Known(Raised(x, w, room, closes))
  {
    RaisedCounts(x, w, room, closes, w);
    assert forall v, i: nat | v in x.inbox && i < |x.inbox[v]| :: x.inbox[v][i] != Event(x.next, room, w, closes);
  }

  lemma RaisedIsTaking(x: World, w: Worker, room: Room, closes: bool)
    requires Once(x) && w in x.local
    ensures OnceBut(Raised(x, w, room, closes), Event(x.next, room, w, closes), w)
  {
    var e := Event(x.next, room, w, closes);
    var y := Raised(x, w, room, closes);
    RaisedKnown(x, w, room, closes);
    RaisedCounts(x, w, room, closes, w);
    assert Taking(y, e, w);
    forall f, v | f in y.stayed && v in y.inbox && !(f == e && v == w) ensures OnceAt(y, f, v) {
      if f == e {
        RaisedCounts(x, w, room, closes, v);
      } else {
        RaisedOld(x, w, room, closes, f, v);
      }
    }
  }

  lemma RaisedOld(x: World, w: Worker, room: Room, closes: bool, f: Event, v: Worker)
    requires f in x.stayed && v in x.inbox && OnceAt(x, f, v) && f != Event(x.next, room, w, closes)
    ensures OnceAt(Raised(x, w, room, closes), f, v)
  {
    assert Pending(Raised(x, w, room, closes), f, v) == Pending(x, f, v);
  }

  lemma PublishKeepsOnce(x: World, e: Event)
    requires Once(x) && e in x.unpublished
    ensures Once(Apply(x, Publish(e)))
  {
    var y := Apply(x, Publish(e));
    assert Known(y);
    forall f, v | f in y.stayed && v in y.inbox ensures OnceAt(y, f, v) {
      assert OnceAt(x, f, v);
      assert multiset(x.inbox[v] + [e]) == multiset(x.inbox[v]) + multiset{e};
      assert Pending(y, f, v) == Pending(x, f, v);
    }
  }

  lemma TakenCounts(x: World, w: Worker, e: Event, f: Event, v: Worker)
    requires w in x.inbox && x.inbox[w] != [] && x.inbox[w][0] == e && v in x.inbox
    ensures Pending(Taken(x, w), f, v) ==
            Pending(x, f, v) - if f == e && v == w && w != e.source then 1 else 0
  {
    assert x.inbox[w] == [e] + x.inbox[w][1..];
  }

  lemma TakenOnce(x: World, w: Worker, f: Event, v: Worker)
    requires Once(x) && w in x.inbox && x.inbox[w] != [] && f in x.stayed && v in x.inbox
    requires var e := x.inbox[w][0]; !(f == e && v == w && w != e.source)
    ensures OnceAt(Taken(x, w), f, v)
  {
    TakenCounts(x, w, x.inbox[w][0], f, v);
    assert OnceAt(x, f, v);
  }

  lemma TakenSilent(x: World, w: Worker)
    requires Known(x) && w in x.inbox && x.inbox[w] != [] && x.inbox[w][0].source != w
    requires OnceAt(x, x.inbox[w][0], w)
    ensures Taking(Taken(x, w), x.inbox[w][0], w)
  {
    TakenCounts(x, w, x.inbox[w][0], x.inbox[w][0], w);
  }

  lemma TakenIsTaking(x: World, w: Worker)
    requires Once(x) && w in x.inbox && x.inbox[w] != []
    ensures var e := x.inbox[w][0]; if e.source == w then Once(Taken(x, w)) else OnceBut(Taken(x, w), e, w)
  {
    var e, y := x.inbox[w][0], Taken(x, w);
    assert Known(y);
    if e.source != w { TakenSilent(x, w); }
    hide Known, OnceAt, Taking;
    forall f, v | f in y.stayed && v in y.inbox && !(f == e && v == w && w != e.source) ensures OnceAt(y, f, v) {
      TakenOnce(x, w, f, v);
    }
  }

  lemma StepKeepsOnce(x: World, a: Step)
    requires Once(x) && Enabled(x, a)
    ensures Once(Apply(x, a))
  {
    match a
    case OnConnect(w, room, socket, conn) => SideKeepsOnce(x, w, Connect(w, SideOf(x, w), room, socket, conn));
    case OnDisconnect(w, room, socket) => SideKeepsOnce(x, w, Leave(w, SideOf(x, w), room, {socket}));
    case OnShutdown(w) => SideKeepsOnce(x, w, LeaveAll(w, SideOf(x, w)));
    case Notify(w, room, closes, failing) =>
      hide Once, Effect;
      RaisedIsTaking(x, w, room, closes);
      EffectKeepsOnce(Raised(x, w, room, closes), w, Event(x.next, room, w, closes), failing);
    case Publish(e) => PublishKeepsOnce(x, e);
    case Receive(w, failing) =>
      hide Once, Effect;
      TakenIsTaking(x, w);
      if x.inbox[w][0].source != w { EffectKeepsOnce(Taken(x, w), w, x.inbox[w][0], failing); }
  }

  // ---------------------------------------------------------------- whole runs

  lemma {:induction false} RunKeeps(states: seq<World>, steps: seq<Step>, n: nat)
    requires IsRun(states, steps) && n < |states|
    ensures Once(states[n]) && RegistryExact(states[n].local, states[n].sets)
  {
    if n > 0 {
      RunKeeps(states, steps, n - 1);
      assert Enabled(states[n - 1], steps[n - 1]) && states[n] == Apply(states[n - 1], steps[n - 1]);
      hide Once, RegistryExact, Enabled, Apply;
      StepKeepsOnce(states[n - 1], steps[n - 1]);
      StepKeepsExact(states[n - 1], steps[n - 1]);
    }
  }

  /** The socket is in the room in every state from `k` to `n`. */
  ghost predicate Throughout(states: seq<World>, k: nat, n: nat, w: Worker, room: Room, s: Socket)
    requires n < |states|
  {
    forall i: nat | k <= i <= n :: Connected(states[i].local, w, room, s)
  }

  /** No copy of the event is waiting anywhere. */
  ghost predicate Settled(x: World, e: Event) {
    e !in x.unpublished && forall w | w in x.inbox :: e !in x.inbox[w]
  }

  lemma StepKeepsStayed(x: World, a: Step, e: Event, w: Worker, s: Socket)
    requires Known(x) && Enabled(x, a) && e in x.stayed && (w, s) in x.stayed[e]
    requires Connected(Apply(x, a).local, w, e.room, s)
    ensures e in Apply(x, a).stayed && (w, s) in Apply(x, a).stayed[e]
  {
    hide Connect, Leave, LeaveAll;
  }

  function EventOf(x: World, a: Step): Event
    requires a.Notify?
  {
    Event(x.next, a.room, a.w, a.closes)
  }

  lemma NotifyStays(x: World, a: Step, w: Worker, s: Socket)
    requires Enabled(x, a) && a.Notify?
    requires Connected(x.local, w, a.room, s) && Connected(Apply(x, a).local, w, a.room, s)
    ensures EventOf(x, a) in Apply(x, a).stayed && (w, s) in Apply(x, a).stayed[EventOf(x, a)]
  {
    hide Leave, Sockets;
  }

  lemma StillThere(states: seq<World>, k: nat, n: nat, w: Worker, room: Room, s: Socket)
    requires k < n < |states| && Throughout(states, k, n, w, room, s)
    ensures Throughout(states, k, n - 1, w, room, s)
    ensures Connected(states[k].local, w, room, s) && Connected(states[n].local, w, room, s)
  {
  }

  lemma EventRoom(x: World, a: Step)
    requires a.Notify?
    ensures EventOf(x, a).room == a.room
  {
  }

  lemma RunStep(states: seq<World>, steps: seq<Step>, n: nat)
    requires IsRun(states, steps) && n < |steps|
    ensures |states| == |steps| + 1 && Known(states[n])
    ensures Enabled(states[n], steps[n]) && states[n + 1] == Apply(states[n], steps[n])
  {
    RunKeeps(states, steps, n);
    hide Enabled, Known, Apply, RegistryExact;
  }

  lemma {:induction false} StayedThroughout(states: seq<World>, steps: seq<Step>, k: nat, n: nat, w: Worker, s: Socket)
    requires IsRun(states, steps) && k < n < |states| && k < |steps| && n <= |steps| && steps[k].Notify?
    requires Throughout(states, k, n, w, steps[k].room, s)
    ensures var e := EventOf(states[k], steps[k]); e in states[n].stayed && (w, s) in states[n].stayed[e]
  {
    hide *;
    StillThere(states, k, n, w, steps[k].room, s);
    RunStep(states, steps, n - 1);
    if n == k + 1 {
      NotifyStays(states[k], steps[k], w, s);
    } else {
      StayedThroughout(states, steps, k, n - 1, w, s);
      EventRoom(states[k], steps[k]);
      StepKeepsStayed(states[n - 1], steps[n - 1], EventOf(states[k], steps[k]), w, s);
    }
  }

  lemma AtMostOnce(x: World, e: Event, w: Worker, s: Socket)
    requires Once(x) && w in x.inbox
    ensures x.delivered[(e, w, s)] <= 1
  {
    if e in x.stayed { assert OnceAt(x, e, w); }
  }

  lemma SettledOnce(x: World, e: Event, w: Worker, s: Socket)
    requires Once(x) && Settled(x, e) && e in x.stayed && (w, s) in x.stayed[e]
    ensures !e.closes && x.delivered[(e, w, s)] == 1
  {
    assert Connected(x.local, w, e.room, s);
    assert OnceAt(x, e, w);
    assert Pending(x, e, w) == 0;
  }

  /**
   In every run: a socket that stays in the room from before a notification until no copy of it is waiting
   has been sent it exactly once, wherever it is connected, and nobody has been sent it twice; and after
   a closing has been processed everywhere no such socket exists.
   */
  lemma ExactlyOnce(states: seq<World>, steps: seq<Step>, k: nat, n: nat, w: Worker, s: Socket)
    requires IsRun(states, steps) && k < n < |states| && steps[k].Notify?
    ensures var e := EventOf(states[k], steps[k]);
            && (w in states[n].inbox ==> states[n].delivered[(e, w, s)] <= 1)
            && (Settled(states[n], e) && Throughout(states, k, n, w, e.room, s) ==>
                  !e.closes && states[n].delivered[(e, w, s)] == 1)
  {
    var e := EventOf(states[k], steps[k]);
    RunKeeps(states, steps, n);
    if Settled(states[n], e) && Throughout(states, k, n, w, e.room, s) {
      StayedThroughout(states, steps, k, n, w, s);
      hide IsRun, Once, Settled, RegistryExact, Throughout;
      SettledOnce(states[n], e, w, s);
    }
    if w in states[n].inbox {
      hide IsRun, Once, Settled, RegistryExact, Throughout;
      AtMostOnce(states[n], e, w, s);
    }
  }
}
