/** The group room table and its cached readers: creating, removing, removing all, reading, and expiry. */
module GroupCache {
  import opened Wrappers
  import opened CacheAside
  import opened Tables

  const PICK_ROOM := "Group.group_data.pich_room_id"
  const GET_DATA := "Group.group_data.get_data"
  const GET_ALL := "Group.group_data.get_all"

  function Strip(reader: string): set<string> {
    if reader == PICK_ROOM then {} else {"password"}
  }

  // ---------------------------------------------------------------- the readers

  /** `pich_room_id_direct`: the first room of the id whose stored password verifies. */
  function PickRoom(verify: Verify, rows: seq<Row>, id: string, password: string): Option<Row> {
    FirstVerified(verify, Select(rows, Is("id", id)), password)
  }

  /** What each reader gives without its cache, called by position. */
  function Direct(verify: Verify, rows: seq<Row>, k: Key): Answer {
    if k.named != map[] then Nothing
    else if k.reader == GET_ALL && |k.args| == 0 then Rows(Reversed(rows))
    else if k.reader == GET_DATA && |k.args| == 1 then Rows(Select(rows, Is("room_id", k.args[0])))
    else if k.reader == PICK_ROOM && |k.args| == 2 then
      var record := PickRoom(verify, rows, k.args[0], k.args[1]);
      if record.Some? && Get(record.value, "room_id").Text? then Plain(Get(record.value, "room_id").text) else Nothing
    else Nothing
  }

  function DirectOf(verify: Verify, rows: seq<Row>): Key -> Answer {
    (k: Key) => Direct(verify, rows, k)
  }

  // ---------------------------------------------------------------- the operations

  datatype Db = Db(rows: seq<Row>, entries: Entries)

  datatype Room = Room(id: string, password: string, stored: string, roomId: string, others: Row)

  function NewRow(r: Room): Row {
    r.others["id" := Text(r.id)]["password" := Text(r.stored)]["room_id" := Text(r.roomId)]
  }

  /** The unique key of the table refuses the insert. */
  predicate Refused(rows: seq<Row>, r: Room) {
    Select(rows, Is("room_id", r.roomId)) != []
  }

  function CreateKeys(r: Room): set<Key> {
    {Key(PICK_ROOM, [r.id, r.password]), Key(GET_DATA, [r.roomId]), Key(GET_ALL, [])}
  }

  function CreateRoom(s: Db, r: Room): Db {
    if Refused(s.rows, r) then s else Db(s.rows + [NewRow(r)], s.entries - CreateKeys(r))
  }

  /** `remove_data`; the row of a room whose folders cannot be deleted is kept. */
  function RemoveData(s: Db, roomId: string, stuck: set<string>): Db {
    if roomId in stuck then s
    else
      var entries := s.entries - {Key(GET_DATA, [roomId]), Key(GET_ALL, [])};
      Db(Select(s.rows, IsNot("room_id", roomId)),
         if Select(s.rows, Is("room_id", roomId)) == [] then entries else Without(entries, {PICK_ROOM}))
  }

  /** The room id of a row, when it has a non-empty one. */
  predicate Named(row: Row) {
    Get(row, "room_id").Text? && Get(row, "room_id").text != ""
  }

  predicate Stuck(row: Row, stuck: set<string>) {
    Named(row) && Get(row, "room_id").text in stuck
  }

  predicate NoneStuck(rooms: seq<Row>, stuck: set<string>) {
    forall i: nat | i < |rooms| :: !Stuck(rooms[i], stuck)
  }

  /** The loop of `all_remove` over the rooms it read. */
  function RemoveEach(s: Db, rooms: seq<Row>, stuck: set<string>): Db
    decreases |rooms|
  {
    if rooms == [] then s
    else RemoveEach(if Named(rooms[0]) then RemoveData(s, Get(rooms[0], "room_id").text, stuck) else s,
                    rooms[1..], stuck)
  }

  function AllRemove(s: Db, stuck: set<string>): Db {
    RemoveEach(s, Reversed(s.rows), stuck)
  }

  lemma NoneStuckIff(rows: seq<Row>, stuck: set<string>)
    ensures NoneStuck(Reversed(rows), stuck) <==>
            forall row | row in rows && Get(row, "room_id").Text? && Get(row, "room_id").text != "" ::
              Get(row, "room_id").text !in stuck
  {
    forall row ensures row in Reversed(rows) <==> row in rows {
      ReversedHas(rows, row);
    }
    forall row | row in Reversed(rows) ensures exists i: nat :: i < |Reversed(rows)| && Reversed(rows)[i] == row {
    }
  }

  // ---------------------------------------------------------------- coherence

  ghost predicate Coherent(verify: Verify, s: Db) {
    CacheAside.Coherent(s.entries, DirectOf(verify, s.rows), Strip)
  }

  /** The stored password verifies the room's own password only. */
  ghost predicate Faithful(verify: Verify, r: Room) {
    forall password :: verify(r.stored, password) <==> password == r.password
  }

  lemma {:induction false} FirstVerifiedAppend(verify: Verify, rows: seq<Row>, row: Row, password: string)
    requires !Verified(verify, row, password)
    ensures FirstVerified(verify, rows + [row], password) == FirstVerified(verify, rows, password)
  {
    if rows == [] {
      assert rows + [row] == [row];
    } else {
      assert (rows + [row])[1..] == rows[1..] + [row];
      FirstVerifiedAppend(verify, rows[1..], row, password);
    }
  }

  lemma CreateReads(verify: Verify, rows: seq<Row>, r: Room, k: Key)
    requires Faithful(verify, r) && k !in CreateKeys(r)
    ensures Direct(verify, rows + [NewRow(r)], k) == Direct(verify, rows, k)
  {
    var row := NewRow(r);
    assert k.named == map[] && k.reader == GET_ALL && |k.args| == 0 ==> k == Key(GET_ALL, []);
    if k.named != map[] {
    } else if k.reader == GET_DATA && |k.args| == 1 {
      assert k == Key(GET_DATA, [k.args[0]]);
      SelectAppend(rows, row, Is("room_id", k.args[0]));
    } else if k.reader == PICK_ROOM && |k.args| == 2 {
      assert k == Key(PICK_ROOM, [k.args[0], k.args[1]]);
      SelectAppend(rows, row, Is("id", k.args[0]));
      if k.args[0] == r.id { FirstVerifiedAppend(verify, Select(rows, Is("id", r.id)), row, k.args[1]); }
    }
  }

  lemma CreateKeeps(verify: Verify, s: Db, r: Room)
    requires Faithful(verify, r) && Coherent(verify, s)
    ensures Coherent(verify, CreateRoom(s, r))
  {
    if !Refused(s.rows, r) {
      var after := CreateRoom(s, r);
      forall k | k in after.entries ensures Direct(verify, after.rows, k) == Direct(verify, s.rows, k) {
        CreateReads(verify, s.rows, r, k);
      }
      InvalidationKeeps(s.entries, after.entries, DirectOf(verify, s.rows), DirectOf(verify, after.rows), Strip);
    }
  }

  lemma RemoveReads(verify: Verify, s: Db, roomId: string, stuck: set<string>, k: Key)
    requires roomId !in stuck && k in RemoveData(s, roomId, stuck).entries
    ensures Direct(verify, RemoveData(s, roomId, stuck).rows, k) == Direct(verify, s.rows, k)
  {
    assert k.named == map[] && k.reader == GET_ALL && |k.args| == 0 ==> k == Key(GET_ALL, []);
    if Select(s.rows, Is("room_id", roomId)) == [] {
      SelectNone(s.rows, "room_id", roomId);
    } else if k.named == map[] && k.reader == GET_DATA && |k.args| == 1 {
      assert k == Key(GET_DATA, [k.args[0]]);
      SelectRest(s.rows, "room_id", roomId, k.args[0]);
    }
  }

  lemma RemoveKeeps(verify: Verify, s: Db, roomId: string, stuck: set<string>)
    requires Coherent(verify, s)
    ensures Coherent(verify, RemoveData(s, roomId, stuck))
  {
    if roomId !in stuck {
      var after := RemoveData(s, roomId, stuck);
      forall k | k in after.entries ensures Direct(verify, after.rows, k) == Direct(verify, s.rows, k) {
        RemoveReads(verify, s, roomId, stuck, k);
      }
      InvalidationKeeps(s.entries, after.entries, DirectOf(verify, s.rows), DirectOf(verify, after.rows), Strip);
    }
  }

  lemma {:induction false} RemoveEachKeeps(verify: Verify, s: Db, rooms: seq<Row>, stuck: set<string>)
    requires Coherent(verify, s)
    ensures Coherent(verify, RemoveEach(s, rooms, stuck))
    decreases |rooms|
  {
    if rooms != [] {
      if Named(rooms[0]) {
        var roomId := Get(rooms[0], "room_id").text;
        RemoveKeeps(verify, s, roomId, stuck);
        RemoveEachKeeps(verify, RemoveData(s, roomId, stuck), rooms[1..], stuck);
      } else {
        RemoveEachKeeps(verify, s, rooms[1..], stuck);
      }
    }
  }

  // ---------------------------------------------------------------- what remains after a removal of all

  /** Some room of the list has the row's room id and can be removed. */
  predicate Doomed(rooms: seq<Row>, row: Row, stuck: set<string>) {
    Named(row) && Get(row, "room_id").text !in stuck &&
    exists i: nat | i < |rooms| :: Get(rooms[i], "room_id") == Get(row, "room_id")
  }

  lemma {:induction false} RemoveEachLeaves(s: Db, rooms: seq<Row>, stuck: set<string>, row: Row)
    ensures row in RemoveEach(s, rooms, stuck).rows <==> row in s.rows && !Doomed(rooms, row, stuck)
    decreases |rooms|
  {
    if rooms != [] {
      var next := if Named(rooms[0]) then RemoveData(s, Get(rooms[0], "room_id").text, stuck) else s;
      RemoveEachLeaves(next, rooms[1..], stuck, row);
      if Named(rooms[0]) { Selected(s.rows, IsNot("room_id", Get(rooms[0], "room_id").text), row); }
    }
  }

  lemma {:induction false} ReversedHas(rows: seq<Row>, row: Row)
    ensures row in Reversed(rows) <==> row in rows
  {
    if rows != [] {
      ReversedHas(rows[1..], row);
    }
  }

  /** After `all_remove` the table holds exactly the rows whose folders could not be deleted, or without a room id. */
  lemma AllRemoveLeaves(s: Db, stuck: set<string>, row: Row)
    ensures row in AllRemove(s, stuck).rows <==>
            row in s.rows && (Get(row, "room_id") in {Text(""), Null} || Get(row, "room_id").Typed?
                              || Get(row, "room_id").text in stuck)
  {
    RemoveEachLeaves(s, Reversed(s.rows), stuck, row);
    if row in s.rows {
      ReversedHas(s.rows, row);
      var i: nat :| i < |Reversed(s.rows)| && Reversed(s.rows)[i] == row;
      assert Get(Reversed(s.rows)[i], "room_id") == Get(row, "room_id");
    }
  }

  /** A created room is the one read by its room id, first in the list of all, and its credentials pick a room. */
  lemma CreatedIsFound(verify: Verify, s: Db, r: Room)
    requires !Refused(s.rows, r) && verify(r.stored, r.password)
    ensures var rows := CreateRoom(s, r).rows;
            && Direct(verify, rows, Key(GET_DATA, [r.roomId])) == Rows([NewRow(r)])
            && Direct(verify, rows, Key(GET_ALL, [])) == Rows([NewRow(r)] + Reversed(s.rows))
            && Get(NewRow(r), "id") == Text(r.id) && Get(NewRow(r), "password") == Text(r.stored)
            && Get(NewRow(r), "room_id") == Text(r.roomId)
            && PickRoom(verify, rows, r.id, r.password).Some?
  {
    var row := NewRow(r);
    SelectAppend(s.rows, row, Is("room_id", r.roomId));
    ReversedAppend(s.rows, row);
    SelectAppend(s.rows, row, Is("id", r.id));
    FirstVerifiedFinds(verify, Select(s.rows + [row], Is("id", r.id)), r.password, row);
  }

  /**
   Picking a room answers only with a row of that id whose stored password verifies, and finds one if there
   is any.
   */
  lemma PickRoomFinds(verify: Verify, rows: seq<Row>, id: string, password: string, row: Row)
    ensures PickRoom(verify, rows, id, password).Some? ==>
              var found := PickRoom(verify, rows, id, password).value;
              found in rows && Get(found, "id") == Text(id) && Verified(verify, found, password)
    ensures row in rows && Get(row, "id") == Text(id) && Verified(verify, row, password) ==>
              PickRoom(verify, rows, id, password).Some?
  {
    var hits := Select(rows, Is("id", id));
    FirstVerifiedFinds(verify, hits, password, row);
    Selected(rows, Is("id", id), row);
    var found := FirstVerified(verify, hits, password);
    if found.Some? { Selected(rows, Is("id", id), found.value); }
  }

  /**
   What the login reader answers, for every table: the room id of a row of that id whose stored password
   verifies, and nothing only when there is none with a room id.
   */
  lemma LoginAnswers(verify: Verify, rows: seq<Row>, id: string, password: string, row: Row)
    ensures var login := Direct(verify, rows, Key(PICK_ROOM, [id, password]));
            && (login.Plain? ==>
                  exists found :: found in rows && Get(found, "id") == Text(id) && Get(found, "password").Text?
                                  && verify(Get(found, "password").text, password)
                                  && Get(found, "room_id") == Text(login.text))
            && !login.Rows?
            && (row in rows && Get(row, "id") == Text(id) && Get(row, "password").Text?
                && verify(Get(row, "password").text, password)
                && (forall other | other in rows :: Get(other, "room_id").Text?)
                ==> login.Plain?)
  {
    PickRoomFinds(verify, rows, id, password, row);
    var found := PickRoom(verify, rows, id, password);
    if found.Some? && Get(found.value, "room_id").Text? {
      assert Get(found.value, "room_id") == Text(Get(found.value, "room_id").text);
    }
  }

  /** The credentials of a new room, in a table without other rooms of that id, answer its room id. */
  lemma CreatedLogsIn(verify: Verify, s: Db, r: Room)
    requires !Refused(s.rows, r) && verify(r.stored, r.password)
    requires forall row | row in s.rows :: Get(row, "id") != Text(r.id)
    ensures Direct(verify, CreateRoom(s, r).rows, Key(PICK_ROOM, [r.id, r.password])) == Plain(r.roomId)
  {
    SelectAppend(s.rows, NewRow(r), Is("id", r.id));
    SelectEmpty(s.rows, Is("id", r.id));
  }

  /** A creation is refused exactly when its room id is in use; it then changes nothing. */
  lemma CreateRefusedIff(s: Db, r: Room)
    ensures Refused(s.rows, r) <==> exists row :: row in s.rows && Get(row, "room_id") == Text(r.roomId)
    ensures Refused(s.rows, r) ==> CreateRoom(s, r) == s
  {
    HasSelected(s.rows, "room_id", r.roomId);
  }

  /** Which rows the other readers answer, for every table. */
  lemma ReadersAnswer(verify: Verify, rows: seq<Row>, roomId: string, row: Row, i: nat)
    ensures var data := Direct(verify, rows, Key(GET_DATA, [roomId]));
            data.Rows? && (row in data.rows <==> row in rows && Get(row, "room_id") == Text(roomId))
    ensures var all := Direct(verify, rows, Key(GET_ALL, []));
            all.Rows? && |all.rows| == |rows| && (i < |rows| ==> all.rows[i] == rows[|rows| - 1 - i])
  {
    Selected(rows, Is("room_id", roomId), row);
    ReversedLength(rows);
    if i < |rows| { ReversedAt(rows, i); }
  }

  /** A removal takes exactly the rows of the room id away, unless its folders cannot be deleted. */
  lemma RemovedRows(s: Db, roomId: string, stuck: set<string>, row: Row)
    ensures if roomId in stuck then RemoveData(s, roomId, stuck) == s
            else row in RemoveData(s, roomId, stuck).rows <==> row in s.rows && Get(row, "room_id") != Text(roomId)
  {
    Selected(s.rows, IsNot("room_id", roomId), row);
  }

  /** Which entries a creation and a removal drop. */
  lemma DroppedEntries(s: Db, r: Room, roomId: string, k: Key)
    requires k in s.entries && k.named == map[]
    ensures !Refused(s.rows, r) ==>
              (k !in CreateRoom(s, r).entries <==>
                 || (k.reader == PICK_ROOM && k.args == [r.id, r.password])
                 || (k.reader == GET_DATA && k.args == [r.roomId]) || (k.reader == GET_ALL && k.args == []))
    ensures k !in RemoveData(s, roomId, {}).entries <==>
              || (k.reader == GET_DATA && k.args == [roomId]) || (k.reader == GET_ALL && k.args == [])
              || (k.reader == PICK_ROOM && exists row :: row in s.rows && Get(row, "room_id") == Text(roomId))
  {
    HasSelected(s.rows, "room_id", roomId);
  }

  // ---------------------------------------------------------------- whole runs

  datatype Step =
    | Create(room: Room)
    | Remove(roomId: string, stuck: set<string>)
    | RemoveAll(stuck: set<string>)
    | Read(key: Key)
    | Expire(gone: set<Key>)

  function Apply(verify: Verify, s: Db, a: Step): Db {
    match a
    case Create(r) => CreateRoom(s, r)
    case Remove(roomId, stuck) => RemoveData(s, roomId, stuck)
    case RemoveAll(stuck) => AllRemove(s, stuck)
    case Read(k) => s.(entries := Cached(s.entries, DirectOf(verify, s.rows), Strip, k).1)
    case Expire(gone) => s.(entries := s.entries - gone)
  }

  function Run(verify: Verify, s: Db, steps: seq<Step>): Db
    decreases |steps|
  {
    if steps == [] then s else Run(verify, Apply(verify, s, steps[0]), steps[1..])
  }

  /** Every password of the run is stored so that it verifies itself only. */
  ghost predicate AllFaithful(verify: Verify, steps: seq<Step>) {
    forall i: nat | i < |steps| && steps[i].Create? :: Faithful(verify, steps[i].room)
  }

  lemma StepKeeps(verify: Verify, s: Db, a: Step)
    requires Coherent(verify, s) && (a.Create? ==> Faithful(verify, a.room))
    ensures Coherent(verify, Apply(verify, s, a))
  {
    match a
    case Create(r) => CreateKeeps(verify, s, r);
    case Remove(roomId, stuck) => RemoveKeeps(verify, s, roomId, stuck);
    case RemoveAll(stuck) => RemoveEachKeeps(verify, s, Reversed(s.rows), stuck);
    case Read(k) => CachedIsDirect(s.entries, DirectOf(verify, s.rows), Strip, k);
    case Expire(gone) =>
      InvalidationKeeps(s.entries, s.entries - gone, DirectOf(verify, s.rows), DirectOf(verify, s.rows), Strip);
  }

  /** After any run, a cached reader answers as its direct reader would, without passwords. */
  lemma {:induction false} ReadsAfterRun(verify: Verify, s: Db, steps: seq<Step>, k: Key)
    requires Coherent(verify, s) && AllFaithful(verify, steps)
    ensures var end := Run(verify, s, steps);
            var a := Cached(end.entries, DirectOf(verify, end.rows), Strip, k).0;
            && Same(a, Normalize(Direct(verify, end.rows, k), Strip(k.reader))) && Clean(a, Strip(k.reader))
    decreases |steps|
  {
    if steps == [] {
      CachedIsDirect(s.entries, DirectOf(verify, s.rows), Strip, k);
    } else {
      StepKeeps(verify, s, steps[0]);
      ReadsAfterRun(verify, Apply(verify, s, steps[0]), steps[1..], k);
    }
  }

  lemma {:induction false} RunSnoc(verify: Verify, s: Db, steps: seq<Step>, a: Step)
    ensures Run(verify, s, steps + [a]) == Apply(verify, Run(verify, s, steps), a)
    decreases |steps|
  {
    if steps == [] {
      assert [] + [a] == [a] && [a][1..] == [];
    } else {
      assert (steps + [a])[1..] == steps[1..] + [a];
      RunSnoc(verify, Apply(verify, s, steps[0]), steps[1..], a);
    }
  }

  /** No answer of a cached room reader shows a password after any run; every other column is as stored. */
  lemma OnlyPasswordsStripped(verify: Verify, s: Db, steps: seq<Step>, k: Key, i: nat, column: string)
    requires Coherent(verify, s) && AllFaithful(verify, steps) && k.reader in {GET_DATA, GET_ALL}
    ensures var end := Run(verify, s, steps);
            var direct, a := Direct(verify, end.rows, k), Cached(end.entries, DirectOf(verify, end.rows), Strip, k).0;
            direct.Rows? && i < |direct.rows| ==>
              && a.Rows? && i < |a.rows| && "password" !in a.rows[i]
              && (column != "password" ==> JsonValue(Get(a.rows[i], column)) == JsonValue(Get(direct.rows[i], column)))
  {
    ReadsAfterRun(verify, s, steps, k);
    var end := Run(verify, s, steps);
    var direct, a := Direct(verify, end.rows, k), Cached(end.entries, DirectOf(verify, end.rows), Strip, k).0;
    if direct.Rows? && i < |direct.rows| {
      hide Run, Direct, Cached;
      var n := Normalize(direct, {"password"});
      assert Json(a) == Json(n) && a.Rows? && |a.rows| == |n.rows|;
      assert JsonRow(a.rows[i]) == Json(a).rows[i] == Json(n).rows[i] == JsonRow(n.rows[i]);
      JsonColumn(a.rows[i], column);
      JsonColumn(n.rows[i], column);
    }
  }

  lemma JsonColumn(row: Row, column: string)
    ensures Get(JsonRow(row), column) == JsonValue(Get(row, column))
  {
  }

  /** A room created at the end of a run is read at once, through the cache; a removed one is not. */
  lemma StepsAreRead(verify: Verify, s: Db, steps: seq<Step>, r: Room, roomId: string, k: Key, gone: set<Key>)
    requires !Refused(Run(verify, s, steps).rows, r)
    ensures var before, end := Run(verify, s, steps), Run(verify, s, steps + [Create(r)]);
            && end.rows == before.rows + [NewRow(r)]
            && Cached(end.entries, DirectOf(verify, end.rows), Strip, Key(GET_ALL, [])).0 ==
               Normalize(Rows([NewRow(r)] + Reversed(before.rows)), {"password"})
    ensures var before, end := Run(verify, s, steps), Run(verify, s, steps + [Remove(roomId, {})]);
            && end.rows == Select(before.rows, IsNot("room_id", roomId))
            && Cached(end.entries, DirectOf(verify, end.rows), Strip, Key(GET_DATA, [roomId])).0 == Rows([])
    ensures var before := Run(verify, s, steps);
            && Run(verify, s, steps + [Read(k)]).rows == before.rows
            && (Direct(verify, before.rows, k) != Nothing ==> k in Run(verify, s, steps + [Read(k)]).entries)
            && Run(verify, s, steps + [Expire(gone)]) == Db(before.rows, before.entries - gone)
            && (forall row :: row in Run(verify, s, steps + [RemoveAll({})]).rows <==>
                  row in before.rows && (Get(row, "room_id") in {Text(""), Null} || Get(row, "room_id").Typed?))
  {
    RunSnoc(verify, s, steps, Create(r));
    RunSnoc(verify, s, steps, Remove(roomId, {}));
    RunSnoc(verify, s, steps, Read(k));
    RunSnoc(verify, s, steps, Expire(gone));
    RunSnoc(verify, s, steps, RemoveAll({}));
    forall row { AllRemoveLeaves(Run(verify, s, steps), {}, row); }
    var rows := Run(verify, s, steps).rows;
    ReversedAppend(rows, NewRow(r));
    NoneSelected(rows, "room_id", roomId);
    hide Run, NewRow, Refused;
  }

  // ---------------------------------------------------------------- the module's functions, step by step

  class GroupData {
    const verify: Verify
    const cache: RedisCache
    var rows: seq<Row>

    constructor (verify: Verify, cache: RedisCache)
      ensures this.verify == verify && this.cache == cache && rows == []
    {
      this.verify, this.cache, rows := verify, cache, [];
    }

    function State(): Db
      reads this, cache
    {
      Db(rows, cache.entries)
    }

    method PickRoomDirect(id: string, password: string) returns (record: Option<Row>)
      ensures record == PickRoom(verify, rows, id, password)
    {
      var result := Select(rows, Is("id", id));
      for i := 0 to |result|
        invariant FirstVerified(verify, result, password) == FirstVerified(verify, result[i..], password)
      {
        if Verified(verify, result[i], password) {
          return Some(result[i]);
        }
      }
      return None;
    }

    /** A decorated reader. */
    method Read(k: Key) returns (a: Answer)
      modifies cache
      ensures (a, cache.entries) == Cached(old(cache.entries), DirectOf(verify, rows), Strip, k)
    {
      var hit := cache.Fetch(k);
      if hit.Some? {
        return hit.value;
      }
      var result := Direct(verify, rows, k);
      if k.named == map[] && k.reader == PICK_ROOM && |k.args| == 2 {
        var record := PickRoomDirect(k.args[0], k.args[1]);
        result := if record.Some? && Get(record.value, "room_id").Text?
                  then Plain(Get(record.value, "room_id").text)
                  else Nothing;
      }
      a := Normalize(result, Strip(k.reader));
      if a != Nothing {
        cache.SetEx(k, a);
      }
    }

    method Create(r: Room) returns (created: bool)
      modifies this, cache
      ensures created == !Refused(old(rows), r) && State() == CreateRoom(old(State()), r)
    {
      if Refused(rows, r) {
        return false;
      }
      rows := rows + [NewRow(r)];
      cache.Delete(Key(PICK_ROOM, [r.id, r.password]));
      cache.Delete(Key(GET_DATA, [r.roomId]));
      cache.Delete(Key(GET_ALL, []));
      assert cache.entries == old(cache.entries) - CreateKeys(r);
      return true;
    }

    method Remove(roomId: string, stuck: set<string>) returns (removed: bool)
      modifies this, cache
      ensures removed == (roomId !in stuck) && State() == RemoveData(old(State()), roomId, stuck)
    {
      var data := Select(rows, Is("room_id", roomId));
      if roomId in stuck {
        return false;
      }
      rows := Select(rows, IsNot("room_id", roomId));
      cache.Delete(Key(GET_DATA, [roomId]));
      cache.Delete(Key(GET_ALL, []));
      assert cache.entries == old(cache.entries) - {Key(GET_DATA, [roomId]), Key(GET_ALL, [])};
      if data != [] {
        cache.DeletePrefix(PICK_ROOM);
      }
      return true;
    }

    method RemoveAll(stuck: set<string>) returns (allRemoved: bool)
      modifies this, cache
      ensures State() == AllRemove(old(State()), stuck)
      ensures allRemoved <==>
              forall row | row in old(rows) && Get(row, "room_id").Text? && Get(row, "room_id").text != "" ::
                Get(row, "room_id").text !in stuck
    {
      var rooms := Reversed(rows);
      allRemoved := true;
      for i := 0 to |rooms|
        invariant RemoveEach(State(), rooms[i..], stuck) == AllRemove(old(State()), stuck)
        invariant allRemoved <==> NoneStuck(rooms[..i], stuck)
      {
        if Named(rooms[i]) {
          var removed := Remove(Get(rooms[i], "room_id").text, stuck);
          allRemoved := allRemoved && removed;
        }
        assert rooms[i..][1..] == rooms[i + 1..] && rooms[..i + 1] == rooms[..i] + [rooms[i]];
      }
      assert rooms[|rooms|..] == [] && rooms[..|rooms|] == rooms;
      assert RemoveEach(State(), [], stuck) == State();
      NoneStuckIff(old(rows), stuck);
    }
  }
}
