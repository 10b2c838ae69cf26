/**
 The data layer as it runs: tables that transactions change step by step.  Every method is proved
 against the function of `TaskModel` with its name, so what is proved of those functions and of runs
 of them holds of the tables.
 */
module TaskStore {
  import opened Wrappers
  import opened Ordering
  import opened TaskText
  import opened TaskModel

  // ---------------------------------------------------------------- loops of the request models

  /** A refused element and one that is not positive are the same error. */
  method NormalizeTagIds(value: RawList<Option<int>>) returns (r: Option<Option<seq<nat>>>)
    ensures r == ReadTagIds(value)
  {
    if value.NoValue? {
      return Some(None);
    }
    if !value.Items? {
      return None;
    }
    var ids := DistinctIds(value.items);
    return if ids.None? then None else Some(ids);
  }

  /** What the loop over the ids has read: `tagIds` are the first `i` without repetition, as natural numbers. */
  ghost predicate IdsRead(ids: seq<int>, i: nat, tagIds: seq<nat>) {
    && i <= |ids| && (forall j: nat | j < i :: ids[j] > 0)
    && |tagIds| == |Distinct(ids[..i])| && forall k: nat | k < |tagIds| :: tagIds[k] == Distinct(ids[..i])[k]
  }

  lemma NoIdRead(ids: seq<int>)
    ensures IdsRead(ids, 0, [])
  {
  }

  lemma SameMembers(tagIds: seq<nat>, d: seq<int>, id: nat)
    requires |tagIds| == |d| && forall k: nat | k < |d| :: tagIds[k] == d[k]
    ensures id in tagIds <==> id in d
  {
    if id in tagIds {
      var k :| 0 <= k < |tagIds| && tagIds[k] == id;
      assert d[k] in d;
    }
    if id in d {
      var k :| 0 <= k < |d| && d[k] == id;
      assert tagIds[k] in tagIds;
    }
  }

  lemma OneMoreId(ids: seq<int>, i: nat, tagIds: seq<nat>, id: nat)
    requires i < |ids| && id == ids[i] > 0 && IdsRead(ids, i, tagIds)
    ensures IdsRead(ids, i + 1, if id in tagIds then tagIds else tagIds + [id])
  {
    hide Distinct, NoDuplicates;
    var d, e := Distinct(ids[..i]), Distinct(ids[..i + 1]);
    assert e == if id in d then d else d + [id] by {
      assert ids[..i + 1] == ids[..i] + [id];
      DistinctSnoc(ids[..i], id);
    }
    SameMembers(tagIds, d, id);
  }

  lemma AllIdsRead(ids: seq<int>, tagIds: seq<nat>)
    requires IdsRead(ids, |ids|, tagIds)
    ensures TaskModel.NormalizeTagIds(ids) == if |tagIds| > MAX_TAGS_PER_ITEM then None else Some(tagIds)
  {
    assert ids[..|ids|] == ids;
    var d := Distinct(ids);
    hide Distinct;
    assert |tagIds| <= MAX_TAGS_PER_ITEM ==> seq(|d|, k requires 0 <= k < |d| => d[k] as nat) == tagIds;
  }

  lemma RefusedId(ids: seq<int>, i: nat)
    requires i < |ids| && ids[i] <= 0
    ensures TaskModel.NormalizeTagIds(ids) == None
  {
  }

  method DistinctIds(items: seq<Option<int>>) returns (r: Option<seq<nat>>)
    ensures r == TaskModel.NormalizeTagIds(Integers(items))
  {
    var tagIds: seq<nat> := [];
    ghost var ids := Integers(items);
    assert |ids| == |items| && forall j: nat | j < |ids| :: ids[j] == items[j].GetOr(0);
    hide *;
    NoIdRead(ids);
    for i := 0 to |items|
      invariant IdsRead(ids, i, tagIds)
    {
      if items[i].None? || items[i].value <= 0 {
        assert ids[i] <= 0;
        RefusedId(ids, i);
        return None;
      }
      var id := items[i].value;
      OneMoreId(ids, i, tagIds, id);
      if id !in tagIds {
        tagIds := tagIds + [id];
      }
    }
    AllIdsRead(ids, tagIds);
    if |tagIds| > MAX_TAGS_PER_ITEM {
      return None;
    }
    return Some(tagIds);
  }

  lemma NonEmptySnoc(names: seq<string>, n: string)
    ensures NonEmpty(names + [n]) == if n == "" then NonEmpty(names) else NonEmpty(names) + [n]
  {
    if names != [] {
      assert (names + [n])[1..] == names[1..] + [n];
      NonEmptySnoc(names[1..], n);
    }
  }

  lemma {:induction false} NonEmptyPrefix(names: seq<string>, i: nat)
    requires i <= |names|
    ensures NonEmpty(names[..i]) <= NonEmpty(names)
    decreases |names| - i
  {
    if i < |names| {
      NonEmptyPrefix(names, i + 1);
      NonEmptySnoc(names[..i], names[i]);
      assert names[..i + 1] == names[..i] + [names[i]];
    } else {
      assert names[..i] == names;
    }
  }

  lemma NothingYet()
    ensures NonEmpty([]) == [] && Distinct<string>([]) == []
  {
  }

  method NormalizeTagNames(value: RawList<string>) returns (r: Option<Option<seq<string>>>)
    ensures r == ReadTagNames(value)
  {
    if value.NoValue? {
      return Some(None);
    }
    if value.NotAList? {
      return None;
    }
    var raw := if value.Single? then [value.value] else value.items;
    var names := DistinctNames(raw);
    return if names.None? then None else Some(names);
  }

  method DistinctNames(raw: seq<string>) returns (r: Option<seq<string>>)
    ensures r == TaskModel.NormalizeTagNames(raw)
  {
    hide Distinct, NonEmpty, NormalizeTagName;
    var names: seq<string> := [];
    ghost var normal := Normalized(raw);
    NothingYet();
    for i := 0 to |raw|
      invariant names == Distinct(NonEmpty(normal[..i]))
      invariant forall j | 0 <= j < |NonEmpty(normal[..i])| :: |NonEmpty(normal[..i])[j]| <= MAX_TAG_LENGTH
    {
      var name := NormalizeTagName(raw[i]);
      assert normal[..i + 1] == normal[..i] + [name];
      NonEmptySnoc(normal[..i], name);
      if name == "" {
        continue;
      }
      DistinctSnoc(NonEmpty(normal[..i]), name);
      if |name| > MAX_TAG_LENGTH {
        NonEmptyPrefix(normal, i + 1);
        assert NonEmpty(normal)[|NonEmpty(normal[..i])|] == name;
        return None;
      }
      if name !in names {
        names := names + [name];
      }
    }
    assert normal[..|raw|] == normal;
    if |names| > MAX_TAGS_PER_ITEM {
      return None;
    }
    return Some(names);
  }

  // ---------------------------------------------------------------- the tables

  class TaskData {
    var items: map<nat, Item>
    var tags: map<nat, Tag>
    var links: set<(nat, nat)>
    var nextItem: nat
    var nextTag: nat

    function State(): Store
      reads this
    {
      Store(items, tags, links, nextItem, nextTag)
    }

    constructor ()
      ensures State() == EMPTY
    {
      items, tags, links, nextItem, nextTag := map[], map[], {}, 1, 1;
    }

    method CreateTag(room: string, name: string, limit: Option<nat>) returns (r: TagResult)
      modifies this
      ensures (State(), r) == TaskModel.CreateTag(old(State()), room, name, limit)
    {
      var existing := FindTag(State(), room, name);
      if existing != {} {
        return TagOk(Least(existing, (a: nat, b: nat) => a <= b));
      }
      if limit.Some? {
        var count := |TagIds(State(), room)|;
        if count >= limit.value {
          return TagLimit;
        }
      }
      tags := tags[nextTag := Tag(room, name)];
      r := TagOk(nextTag);
      nextTag := nextTag + 1;
    }

    method RenameTag(room: string, id: nat, name: string) returns (ok: bool)
      modifies this
      ensures (State(), ok) == TaskModel.RenameTag(old(State()), room, id, name)
    {
      if FindTag(State(), room, name) - {id} != {} {
        return false;
      }
      if id !in TagIds(State(), room) {
        return false;
      }
      tags := tags[id := Tag(room, name)];
      return true;
    }

    method DeleteTag(room: string, id: nat) returns (ok: bool)
      modifies this
      ensures (State(), ok) == TaskModel.DeleteTag(old(State()), room, id)
    {
      if id !in TagIds(State(), room) {
        return false;
      }
      tags := tags - {id};
      links := set l | l in links && l.1 != id;
      return true;
    }

    method ResolveTagNames(room: string, names: seq<string>, limit: Option<nat>) returns (ids: seq<nat>)
      modifies this
      ensures (State(), ids) == TaskModel.ResolveTagNames(old(State()), room, names, limit)
    {
      ids := [];
      var i := 0;
      assert names[0..] == names;
      ghost var all := TaskModel.ResolveTagNames(State(), room, names, limit).1;
      assert ids + all == all;
      while i < |names|
        invariant i <= |names|
        invariant var (t, rest) := TaskModel.ResolveTagNames(State(), room, names[i..], limit);
                  TaskModel.ResolveTagNames(old(State()), room, names, limit) == (t, ids + rest)
      {
        var tag := CreateTag(room, names[i], limit);
        assert names[i..][1..] == names[i + 1..];
        if tag.TagLimit? {
          assert ids + [] == ids;
          break;
        }
        ghost var rest := TaskModel.ResolveTagNames(State(), room, names[i + 1..], limit).1;
        assert (ids + [tag.id]) + rest == ids + ([tag.id] + rest);
        ids := ids + [tag.id];
        i := i + 1;
      }
      assert ids + [] == ids;
    }

    method ReplaceItemTags(room: string, item: nat, ids: seq<nat>)
      modifies this`links
      ensures State() == ReplaceTags(old(State()), room, item, ids)
    {
      links := set l | l in links && l.0 != item;
      if ids == [] {
        return;
      }
      links := links + set t | t in ids && t in tags && tags[t].room == room :: (item, t);
    }

    method CreateItem(room: string, v: NewItem, limit: Option<nat>) returns (r: CreateResult)
      modifies this
      ensures (State(), r) == TaskModel.CreateItem(old(State()), room, v, limit)
    {
      if !DateRangeOk(v.start, v.due) {
        return InvalidDateRange;
      }
      if limit.Some? {
        var count := |ItemIds(State(), room)|;
        if count >= limit.value {
          return ItemLimit;
        }
      }
      var position := LastPosition(State(), room, v.status) + 100;
      if position > MAX_INT {
        return OutOfRange;
      }
      var id := nextItem;
      items := items[id := Item(room, v.title, Some(v.note), v.status, v.priority,
                                DateOrNull(v.start), DateOrNull(v.due), position, 0)];
      nextItem := nextItem + 1;
      ReplaceItemTags(room, id, v.tagIds);
      return Created(id);
    }

    method UpdateItem(room: string, id: nat, u: ItemUpdate, version: int) returns (r: UpdateResult)
      modifies this
      ensures (State(), r) == TaskModel.UpdateItem(old(State()), room, id, u, version)
    {
      if u.IsEmpty() {
        return NothingToDo;
      }
      if id !in ItemIds(State(), room) {
        return NotFound;
      }
      var current := items[id];
      if current.version != version {
        return Conflict;
      }
      var start, due := u.NewStart(current.start), u.NewDue(current.due);
      if !DateRangeOk(start, due) {
        return BadRange;
      }
      if u.NullsRequired() || !(-MAX_INT - 1 <= u.position.Over(0) <= MAX_INT) {
        return Refused;
      }
      items := items[id := current.(
        title := u.title.Over(current.title), note := u.note.OverNullable(current.note),
        status := u.status.Over(current.status), priority := u.priority.Over(current.priority),
        start := start, due := due, position := u.position.Over(current.position),
        version := current.version + 1)];
      if u.tagIds.Given? {
        ReplaceItemTags(room, id, u.tagIds.value);
      }
      return Updated;
    }

    method DeleteItem(room: string, id: nat) returns (ok: bool)
      modifies this
      ensures (State(), ok) == TaskModel.DeleteItem(old(State()), room, id)
    {
      if id !in ItemIds(State(), room) {
        return false;
      }
      items := items - {id};
      links := set l | l in links && l.0 != id;
      return true;
    }

    method ReorderItems(room: string, status: Status, ids: seq<nat>) returns (listed: Option<seq<View>>)
      modifies this
      ensures var (t, ok) := TaskModel.ReorderItems(old(State()), room, status, ids);
              State() == t && listed == if ok then Some(ColumnViews(t, room, status)) else None
    {
      if exists i, j | 0 <= i < j < |ids| :: ids[i] == ids[j] {
        return None;
      }
      var existing := ColumnIds(State(), room, status);
      if existing != Elements(ids) {
        return None;
      }
      assert forall i | i in ids :: i in Elements(ids);
      RewritePositions(ids);
      return Some(ColumnViews(State(), room, status));
    }

    /** The loop of `reorder_items`. */
    method RewritePositions(ids: seq<nat>)
      requires forall i | i in ids :: i in items
      modifies this`items
      ensures items == Repositioned(old(items), ids, 0)
    {
      var index := 0;
      while index < |ids|
        invariant index <= |ids| && items.Keys == old(items).Keys
        invariant Repositioned(items, ids, index) == Repositioned(old(items), ids, 0)
      {
        var row := items[ids[index]];
        items := items[ids[index] := row.(position := (index + 1) * 100, version := row.version + 1)];
        index := index + 1;
      }
    }

    // -------------------------------------------------------------- routes

    /** `_resolve_tag_ids`. */
    method ResolveTagIds(room: string, input: TaskInput) returns (ids: seq<nat>)
      requires NoDuplicates(input.values.tagIds)
      modifies this
      ensures (State(), ids) == TaskModel.ResolveTagIds(old(State()), room, input)
    {
      hide TaskModel.ResolveTagNames;
      var tagIds := input.values.tagIds;
      var resolved := ResolveTagNames(room, input.tagNames, Some(MAX_TAGS));
      tagIds := ExtendDistinct(tagIds, resolved);
      ids := if |tagIds| > MAX_TAGS_PER_ITEM then tagIds[..MAX_TAGS_PER_ITEM] else tagIds;
    }

    /** The `extend` of `_resolve_tag_ids`: each id is tested against the list as it grows. */
    static method ExtendDistinct(given: seq<nat>, more: seq<nat>) returns (ids: seq<nat>)
      requires NoDuplicates(given)
      ensures ids == Distinct(given + more)
    {
      DistinctIsAll(given);
      hide *;
      ids := given;
      ghost var all := given;
      for i := 0 to |more|
        invariant all == given + more[..i] && ids == Distinct(all)
      {
        DistinctSnoc(all, more[i]);
        TakeOneMore(given, more, i);
        all := all + [more[i]];
        if more[i] !in ids {
          ids := ids + [more[i]];
        }
      }
      assert more[..|more|] == more;
    }

    method ExportTaskItems(room: string) returns (file: ImportFile)
      ensures file == Export(State(), room)
    {
      var views := ListItems(State(), room);
      var tasks: seq<RawEntry> := [];
      hide ListItems, ExportTask;
      for i := 0 to |views|
        invariant tasks == ExportTasks(views)[..i]
      {
        tasks := tasks + [Entry(ExportTask(views[i]))];
      }
      assert ExportTasks(views)[..|views|] == ExportTasks(views);
      return Object(2, Some(tasks));
    }

    method ImportTaskItems(room: string, file: ImportFile, size: nat) returns (r: ImportResult)
      modifies this
      ensures (State(), r) == Import(old(State()), room, file, size)
    {
      if size > MAX_FILE_BYTES {
        return FileTooLarge;
      }
      if file.NotJson? {
        return InvalidJson;
      }
      if file.NotAnObject? {
        return InvalidTaskList;
      }
      if file.version != 1 && file.version != 2 {
        return UnsupportedVersion;
      }
      if file.tasks.None? {
        return InvalidTaskList;
      }
      var tasks := file.tasks.value;
      var count := |ItemIds(State(), room)|;
      if count + |tasks| > MAX_ITEMS {
        return LimitReached;
      }
      r := ImportTasks(room, tasks);
    }

    /** The loop of `import_task_items`. */
    method ImportTasks(room: string, tasks: seq<RawEntry>) returns (r: ImportResult)
      modifies this
      ensures (State(), r) == ImportEntries(old(State()), room, tasks)
    {
      var imported, skipped := 0, 0;
      ImportNothing(State(), room, tasks);
      hide ImportEntries, ImportEntry, State;
      for i := 0 to |tasks|
        invariant ImportEntries(old(State()), room, tasks[..i]) == (State(), Imported(imported, skipped))
      {
        ImportNext(old(State()), room, tasks, i);
        var stored := ImportTask(room, tasks[i]);
        if stored.Failed? {
          ImportStops(old(State()), room, tasks, i + 1);
          return ServerError;
        }
        if stored.Stored? {
          imported := imported + 1;
        } else {
          skipped := skipped + 1;
        }
      }
      assert tasks[..|tasks|] == tasks;
      return Imported(imported, skipped);
    }

    method ImportTask(room: string, e: RawEntry) returns (r: EntryResult)
      modifies this
      ensures (State(), r) == ImportEntry(old(State()), room, e)
    {
      if e.NotATask? {
        return Skipped;
      }
      var payload := ValidateTask(WithTags(e.task));
      if payload.None? {
        return Skipped;
      }
      var ids := ResolveTagNames(room, payload.value.tagNames, Some(MAX_TAGS));
      var created := CreateItem(room, payload.value.values.(tagIds := ids), Some(MAX_ITEMS));
      match created {
        case Created(_) => r := Stored;
        case OutOfRange => r := Failed;
        case _ => r := Skipped;
      }
    }
  }

  lemma TakeOneMore(given: seq<nat>, more: seq<nat>, i: nat)
    requires i < |more|
    ensures given + more[..i + 1] == given + more[..i] + [more[i]]
  {
  }

  lemma ImportNothing(s: Store, room: string, es: seq<RawEntry>)
    ensures ImportEntries(s, room, es[..0]) == (s, Imported(0, 0))
  {
  }

  /** One more turn of the import loop. */
  lemma ImportNext(s: Store, room: string, es: seq<RawEntry>, i: nat)
    requires i < |es| && ImportEntries(s, room, es[..i]).1.Imported?
    ensures var (s0, r0) := ImportEntries(s, room, es[..i]);
            var (s1, r) := ImportEntry(s0, room, es[i]);
            ImportEntries(s, room, es[..i + 1]) ==
            (s1, match r
                 case Stored => r0.(imported := r0.imported + 1)
                 case Skipped => r0.(skipped := r0.skipped + 1)
                 case Failed => ServerError)
  {
    hide ImportEntry;
    assert es[..i + 1][..i] == es[..i];
  }

  /** An error that is not a refusal of the entry ends the loop. */
  lemma {:induction false} ImportStops(s: Store, room: string, es: seq<RawEntry>, k: nat)
    requires k <= |es| && !ImportEntries(s, room, es[..k]).1.Imported?
    ensures ImportEntries(s, room, es) == ImportEntries(s, room, es[..k])
    decreases |es|
  {
    if k < |es| {
      assert es[..|es| - 1][..k] == es[..k];
      ImportStops(s, room, es[..|es| - 1], k);
    } else {
      assert es[..k] == es;
    }
  }
}
