/** Optimistic versions: what an update commits, and why no committed change is lost silently. */
module TaskVersions {
  import opened Wrappers
  import opened Ordering
  import opened TaskModel
  import opened TaskOrder
  import opened TaskDates
  import opened TaskInvariant

  /** The request names a column or gives tag ids. */
  predicate Asks(u: ItemUpdate) {
    || !u.title.Absent? || !u.note.Absent? || !u.status.Absent? || !u.priority.Absent?
    || !u.start.Absent? || !u.due.Absent? || !u.position.Absent? || u.tagIds.Given?
  }

  /**
   An update commits exactly when it asks for something, the row is in the room at the version the client saw,
   the dates it leaves behind are in order, and no null or out-of-range value is sent to a column
   that refuses it.
   */
  lemma UpdateCommitsIff(s: Store, room: string, id: nat, u: ItemUpdate, version: int)
    requires Inv(s) && ValidUpdate(u)
    ensures UpdateItem(s, room, id, u, version).1.Updated? <==>
            && Asks(u) && id in s.items && s.items[id].room == room && s.items[id].version == version
            && !Reversed(DateAfter(u.start, s.items[id].start), DateAfter(u.due, s.items[id].due))
            && !u.title.Null? && !u.status.Null? && !u.priority.Null? && !u.position.Null?
            && (u.position.Given? ==> u.position.value <= 0x7fff_ffff)
    ensures !UpdateItem(s, room, id, u, version).1.Updated? ==> UpdateItem(s, room, id, u, version).0 == s
  {
    if id in s.items && s.items[id].room == room {
      var was := s.items[id];
      assert ValidItem(was);
      assert u.NewStart(was.start) == DateAfter(u.start, was.start) && u.NewDue(was.due) == DateAfter(u.due, was.due);
      RangeOkIff(DateAfter(u.start, was.start), DateAfter(u.due, was.due));
    }
  }

  /** The range of the position column. */
  lemma PositionFits(s: Store, room: string, id: nat, u: ItemUpdate, version: int)
    requires u.position.Given? && UpdateItem(s, room, id, u, version).1 in {Updated, Refused}
    requires !u.title.Null? && !u.status.Null? && !u.priority.Null?
    ensures UpdateItem(s, room, id, u, version).1.Updated? <==> -0x8000_0000 <= u.position.value <= 0x7fff_ffff
  {
  }

  /** What a commit changes: the supplied columns, the version, and the tags when they are supplied. */
  lemma UpdateChangesOnlySupplied(s: Store, room: string, id: nat, u: ItemUpdate, version: int)
    requires UpdateItem(s, room, id, u, version).1.Updated?
    ensures var t := UpdateItem(s, room, id, u, version).0;
            var a, b := s.items[id], t.items[id];
            && t.items == s.items[id := b] && t.tags == s.tags && t.nextItem == s.nextItem && t.nextTag == s.nextTag
            && b.room == a.room && b.version == a.version + 1
            && (if u.title.Given? then b.title == u.title.value else b.title == a.title)
            && (if u.note.Absent? then b.note == a.note
                else b.note == (if u.note.Given? then Some(u.note.value) else None))
            && (if u.status.Given? then b.status == u.status.value else b.status == a.status)
            && (if u.priority.Given? then b.priority == u.priority.value else b.priority == a.priority)
            && (if u.position.Given? then b.position == u.position.value else b.position == a.position)
            && (u.start.Null? || u.start == Given("") ==> b.start == None)
            && (u.start.Given? && u.start.value != "" ==> b.start == Some(u.start.value))
            && (u.due.Null? || u.due == Given("") ==> b.due == None)
            && (u.due.Given? && u.due.value != "" ==> b.due == Some(u.due.value))
            && (u.start.Absent? && a.start != Some("") ==> b.start == a.start)
            && (u.due.Absent? && a.due != Some("") ==> b.due == a.due)
            && (!u.tagIds.Given? ==> t.links == s.links)
            && (forall i, g | i != id :: (i, g) in t.links <==> (i, g) in s.links)
            && (u.tagIds.Given? ==> forall g :: (id, g) in t.links <==>
                  g in u.tagIds.value && g in s.tags && s.tags[g].room == room)
  {
  }

  // ---------------------------------------------------------------- versions over runs

  /** The transaction commits a column or tag replacement, or a reorder, of the item. */
  predicate Touches(s: Store, op: Op, id: nat) {
    match op
    case OpUpdateItem(room, i, u, version) => i == id && UpdateItem(s, room, i, u, version).1.Updated?
    case OpReorder(room, status, ids) => id in Elements(ids) && ReorderItems(s, room, status, ids).1
    case _ => false
  }

  function TouchCount(s: Store, ops: seq<Op>, id: nat): nat {
    if ops == [] then 0
    else
      var front := ops[..|ops| - 1];
      TouchCount(s, front, id) + if Touches(Run(s, front), ops[|ops| - 1], id) then 1 else 0
  }

  ghost predicate IdsBelow(s: Store) {
    forall i | i in s.items :: i < s.nextItem
  }

  /** One transaction: ids are never reused, a touch adds one to the version, nothing else does. */
  lemma StepVersions(s: Store, op: Op, id: nat)
    requires IdsBelow(s)
    ensures var t := Step(s, op);
            && IdsBelow(t) && s.nextItem <= t.nextItem
            && (id in s.items && id in t.items ==>
                  t.items[id].version == s.items[id].version + if Touches(s, op, id) then 1 else 0)
            && (id !in s.items ==> !Touches(s, op, id))
            && (id !in s.items && id in t.items ==> id == s.nextItem < t.nextItem && t.items[id].version == 0)
  {
    match op
    case OpReorder(room, status, ids) =>
      if ReorderItems(s, room, status, ids).1 {
        ReorderChangesRows(s, room, status, ids);
        if id in Elements(ids) {
          var k :| 0 <= k < |ids| && ids[k] == id;
        }
      }
    case OpCreateItem(room, v) =>
      CreateAddsOneRow(s, room, v, Some(MAX_ITEMS));
    case OpUpdateItem(room, i, u, version) =>
      if UpdateItem(s, room, i, u, version).1.Updated? {
        UpdateChangesOnlySupplied(s, room, i, u, version);
      }
    case _ =>
  }

  /** In every run an item's version is the number of changes committed to it since it was created. */
  lemma {:induction false} VersionCountsCommits(ops: seq<Op>, id: nat)
    ensures var s := Run(EMPTY, ops);
            && IdsBelow(s)
            && (id in s.items ==> s.items[id].version == TouchCount(EMPTY, ops, id))
            && (id >= s.nextItem ==> TouchCount(EMPTY, ops, id) == 0)
  {
    if ops != [] {
      var front := ops[..|ops| - 1];
      VersionCountsCommits(front, id);
      StepVersions(Run(EMPTY, front), ops[|ops| - 1], id);
    }
  }

  /** Once an id has been given out, its row is either gone for good or at a version no lower. */
  lemma {:induction false} VersionsOnlyGrow(s: Store, ops: seq<Op>, id: nat)
    requires IdsBelow(s) && id < s.nextItem
    ensures var t := Run(s, ops);
            && IdsBelow(t) && s.nextItem <= t.nextItem
            && (id in t.items ==> id in s.items && t.items[id].version >= s.items[id].version)
  {
    if ops != [] {
      var front := ops[..|ops| - 1];
      VersionsOnlyGrow(s, front, id);
      StepVersions(Run(s, front), ops[|ops| - 1], id);
    }
  }

  /**
   Of all clients that hold the same version of an item at most one commits: after a committed
   update, and whatever runs in between, a second update based on the same version does not commit.
   */
  lemma AtMostOneCommits(s: Store, room: string, id: nat, u: ItemUpdate, version: int,
                         between: seq<Op>, room2: string, u2: ItemUpdate)
    requires IdsBelow(s) && UpdateItem(s, room, id, u, version).1.Updated?
    ensures !UpdateItem(Run(UpdateItem(s, room, id, u, version).0, between), room2, id, u2, version).1.Updated?
  {
    var t := UpdateItem(s, room, id, u, version).0;
    UpdateChangesOnlySupplied(s, room, id, u, version);
    VersionsOnlyGrow(t, between, id);
  }
}
