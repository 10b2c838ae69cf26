/**
 The task board as a relational store: rooms' items, tags and item-tag links, with one function for
 every transaction of the data layer and for the export and import built on top of them.
 `TaskStore` refines these functions by an imperative class.
 */
module TaskModel {
  import opened Wrappers
  import opened Ordering
  import opened TaskText

  /** `position` is a signed 32-bit column; the server refuses values outside it. */
  const MAX_INT: int := 0x7fff_ffff

  const MAX_FILE_BYTES: nat := 1024 * 1024

  // ---------------------------------------------------------------- settings

  /** As many items as have positions in the column's range. */
  type ItemCount = n: nat | n >= 1 && 100 * n <= MAX_INT witness 200
  type TagCount = n: nat | n >= 1 witness 50

  /** Lengths that the columns hold: `VARCHAR(200)`, `VARCHAR(500)` and `VARCHAR(40)`. */
  type TitleLength = n: nat | 1 <= n <= 200 witness 200
  type NoteLength = n: nat | 1 <= n <= 500 witness 500
  type NameLength = n: nat | 1 <= n <= 40 witness 40

  /** Read from the environment when the server starts, so no value is given here: results hold for every one. */
  const MAX_ITEMS: ItemCount
  const MAX_TAGS: TagCount
  const MAX_TAGS_PER_ITEM: TagCount
  const MAX_TITLE: TitleLength
  const MAX_NOTE: NoteLength
  const MAX_TAG_LENGTH: NameLength

  /** The settings of a server whose environment sets none of them. */
  predicate DefaultSettings() {
    && MAX_ITEMS == 200 && MAX_TAGS == 50 && MAX_TAGS_PER_ITEM == 10
    && MAX_TITLE == 200 && MAX_NOTE == 500 && MAX_TAG_LENGTH == 40
  }

  // ---------------------------------------------------------------- tables

  datatype Status = Todo | Doing | Done
  datatype Priority = High | Normal | Low

  datatype Item = Item(
    room: string, title: string, note: Option<string>, status: Status, priority: Priority,
    start: Option<string>, due: Option<string>, position: int, version: nat)

  datatype Tag = Tag(room: string, name: string)

  /** The tables; the key counters only ever grow. */
  datatype Store = Store(
    items: map<nat, Item>, tags: map<nat, Tag>, links: set<(nat, nat)>, nextItem: nat, nextTag: nat)

  const EMPTY := Store(map[], map[], {}, 1, 1)

  // ---------------------------------------------------------------- queries

  function ItemIds(s: Store, room: string): set<nat> {
    set i | i in s.items && s.items[i].room == room
  }

  function TagIds(s: Store, room: string): set<nat> {
    set t | t in s.tags && s.tags[t].room == room
  }

  function ColumnIds(s: Store, room: string, status: Status): set<nat> {
    set i | i in s.items && s.items[i].room == room && s.items[i].status == status
  }

  function TagNames(s: Store, room: string): set<string> {
    set t | t in s.tags && s.tags[t].room == room :: s.tags[t].name
  }

  function Rank(status: Status): nat {
    match status case Todo => 1 case Doing => 2 case Done => 3
  }

  /** Lexicographic comparison of (column, position, id): the ORDER BY of `list_items`. */
  predicate Before(s: Store, a: nat, b: nat) {
    if a in s.items && b in s.items then
      var x, y := s.items[a], s.items[b];
      if x.status != y.status then Rank(x.status) < Rank(y.status)
      else if x.position != y.position then x.position < y.position
      else a <= b
    else if a in s.items then true
    else if b in s.items then false
    else a <= b
  }

  function BoardOrder(s: Store): (nat, nat) -> bool {
    (a: nat, b: nat) => Before(s, a, b)
  }

  lemma BoardOrderTotal(s: Store)
    ensures TotalOrder(BoardOrder(s))
  {
  }

  function ListIds(s: Store, room: string): seq<nat> {
    BoardOrderTotal(s);
    Sorted(ItemIds(s, room), BoardOrder(s))
  }

  function ColumnList(s: Store, room: string, status: Status): seq<nat> {
    BoardOrderTotal(s);
    Sorted(ColumnIds(s, room, status), BoardOrder(s))
  }

  function LinkedTags(s: Store, item: nat): set<nat> {
    set l | l in s.links && l.0 == item :: l.1
  }

  function LinkedNames(s: Store, room: string, item: nat): set<string> {
    set t | t in s.tags && s.tags[t].room == room && (item, t) in s.links :: s.tags[t].name
  }

  function SortedNames(names: set<string>): seq<string> {
    StringLeTotal();
    Sorted(names, StringLe)
  }

  datatype View = View(id: nat, item: Item, tags: seq<string>)

  function ViewOf(s: Store, room: string, id: nat): View
    requires id in s.items
  {
    View(id, s.items[id], SortedNames(LinkedNames(s, room, id)))
  }

  /** `list_items`. */
  function ListItems(s: Store, room: string): seq<View> {
    var ids := ListIds(s, room);
    assert forall k | 0 <= k < |ids| :: ids[k] in Elements(ids);
    seq(|ids|, k requires 0 <= k < |ids| => ViewOf(s, room, ids[k]))
  }

  /** The part of `list_items` that `reorder_items` answers with. */
  function ColumnViews(s: Store, room: string, status: Status): seq<View> {
    var ids := ColumnList(s, room, status);
    assert forall k | 0 <= k < |ids| :: ids[k] in Elements(ids);
    seq(|ids|, k requires 0 <= k < |ids| => ViewOf(s, room, ids[k]))
  }

  // ---------------------------------------------------------------- tags

  datatype TagResult = TagOk(id: nat) | TagLimit

  function FindTag(s: Store, room: string, name: string): set<nat> {
    set t | t in s.tags && s.tags[t] == Tag(room, name)
  }

  /** `create_tag`: an existing tag of that name is returned, otherwise a row is added. */
  function CreateTag(s: Store, room: string, name: string, limit: Option<nat>): (Store, TagResult) {
    var found := FindTag(s, room, name);
    if found != {} then (s, TagOk(Least(found, (a: nat, b: nat) => a <= b)))
    else if limit.Some? && |TagIds(s, room)| >= limit.value then (s, TagLimit)
    else (s.(tags := s.tags[s.nextTag := Tag(room, name)], nextTag := s.nextTag + 1), TagOk(s.nextTag))
  }

  /** `rename_tag`: refused when another tag of the room has the name or the tag is not there. */
  function RenameTag(s: Store, room: string, id: nat, name: string): (Store, bool) {
    if FindTag(s, room, name) - {id} != {} then (s, false)
    else if id !in TagIds(s, room) then (s, false)
    else (s.(tags := s.tags[id := Tag(room, name)]), true)
  }

  /** `delete_tag`; the foreign key removes the links. */
  function DeleteTag(s: Store, room: string, id: nat): (Store, bool) {
    if id !in TagIds(s, room) then (s, false)
    else (s.(tags := s.tags - {id}, links := set l | l in s.links && l.1 != id), true)
  }

  /** `resolve_tag_names`: stops silently at the tag limit. */
  function ResolveTagNames(s: Store, room: string, names: seq<string>, limit: Option<nat>): (Store, seq<nat>)
    decreases |names|
  {
    if names == [] then (s, [])
    else
      var (s1, r) := CreateTag(s, room, names[0], limit);
      if r.TagLimit? then (s1, [])
      else
        var (s2, ids) := ResolveTagNames(s1, room, names[1..], limit);
        (s2, [r.id] + ids)
  }

  /** `_replace_item_tags`: ids that are not tags of the room are ignored. */
  function ReplaceTags(s: Store, room: string, item: nat, ids: seq<nat>): Store {
    var kept := set l | l in s.links && l.0 != item;
    var added := set t | t in ids && t in s.tags && s.tags[t].room == room :: (item, t);
    s.(links := kept + added)
  }

  // ---------------------------------------------------------------- items

  /** `validate_task_date_range` accepts; an empty string counts as no date. */
  predicate DateRangeOk(start: Option<string>, due: Option<string>) {
    start.GetOr("") == "" || due.GetOr("") == "" || StringLe(start.value, due.value)
  }

  function DateOrNull(d: Option<string>): Option<string> {
    if d == Some("") then None else d
  }

  datatype NewItem = NewItem(
    title: string, note: string, status: Status, priority: Priority,
    start: Option<string>, due: Option<string>, tagIds: seq<nat>)

  datatype CreateResult = Created(id: nat) | InvalidDateRange | ItemLimit | OutOfRange

  /** `COALESCE(MAX(position), 0)` of a column. */
  function LastPosition(s: Store, room: string, status: Status): (p: int)
    ensures ColumnIds(s, room, status) == {} ==> p == 0
    ensures forall i | i in ColumnIds(s, room, status) :: s.items[i].position <= p
    ensures ColumnIds(s, room, status) != {} ==>
              exists i :: i in ColumnIds(s, room, status) && s.items[i].position == p
  {
    BoardOrderTotal(s);
    var column := ColumnList(s, room, status);
    if column == [] then 0
    else
      assert column[|column| - 1] in Elements(column);
      assert forall i | i in ColumnIds(s, room, status) :: i in Elements(column);
      s.items[column[|column| - 1]].position
  }

  /** `create_item`. */
  function CreateItem(s: Store, room: string, v: NewItem, limit: Option<nat>): (Store, CreateResult) {
    if !DateRangeOk(v.start, v.due) then (s, InvalidDateRange)
    else if limit.Some? && |ItemIds(s, room)| >= limit.value then (s, ItemLimit)
    else
      var position := LastPosition(s, room, v.status) + 100;
      if position > MAX_INT then (s, OutOfRange)
      else
        var item := Item(room, v.title, Some(v.note), v.status, v.priority,
                         DateOrNull(v.start), DateOrNull(v.due), position, 0);
        var s1 := s.(items := s.items[s.nextItem := item], nextItem := s.nextItem + 1);
        (ReplaceTags(s1, room, s.nextItem, v.tagIds), Created(s.nextItem))
  }

  /** A member of the update request: left out, sent as null, or sent with a value. */
  datatype Field<T> = Absent | Null | Given(value: T) {
    function Over(was: T): T {
      if Given? then value else was
    }
    function OverNullable(was: Option<T>): Option<T> {
      match this case Absent => was case Null => None case Given(v) => Some(v)
    }
  }

  datatype ItemUpdate = ItemUpdate(
    title: Field<string>, note: Field<string>, status: Field<Status>, priority: Field<Priority>,
    start: Field<string>, due: Field<string>, position: Field<int>, tagIds: Field<seq<nat>>)
  {
    /** No column is named and `tag_ids` is left out or null. */
    predicate IsEmpty() {
      && title.Absent? && note.Absent? && status.Absent? && priority.Absent?
      && start.Absent? && due.Absent? && position.Absent? && !tagIds.Given?
    }
    /** The columns the table declares NOT NULL. */
    predicate NullsRequired() {
      title.Null? || status.Null? || priority.Null? || position.Null?
    }
    function NewStart(was: Option<string>): Option<string> {
      DateOrNull(start.OverNullable(was))
    }
    function NewDue(was: Option<string>): Option<string> {
      DateOrNull(due.OverNullable(was))
    }
  }

  datatype UpdateResult = Updated | NothingToDo | NotFound | Conflict | BadRange | Refused

  /** `update_item`: the row is locked, its version compared and the dates checked before the UPDATE. */
  function UpdateItem(s: Store, room: string, id: nat, u: ItemUpdate, version: int): (Store, UpdateResult) {
    if u.IsEmpty() then (s, NothingToDo)
    else if id !in ItemIds(s, room) then (s, NotFound)
    else
      var was := s.items[id];
      if was.version != version then (s, Conflict)
      else if !DateRangeOk(u.NewStart(was.start), u.NewDue(was.due)) then (s, BadRange)
      else if u.NullsRequired() || !(-MAX_INT - 1 <= u.position.Over(0) <= MAX_INT) then (s, Refused)
      else
        var item := was.(
          title := u.title.Over(was.title), note := u.note.OverNullable(was.note),
          status := u.status.Over(was.status), priority := u.priority.Over(was.priority),
          start := u.NewStart(was.start), due := u.NewDue(was.due),
          position := u.position.Over(was.position), version := was.version + 1);
        var s1 := s.(items := s.items[id := item]);
        (if u.tagIds.Given? then ReplaceTags(s1, room, id, u.tagIds.value) else s1, Updated)
  }

  /** `delete_item`; the foreign key removes the links. */
  function DeleteItem(s: Store, room: string, id: nat): (Store, bool) {
    if id !in ItemIds(s, room) then (s, false)
    else (s.(items := s.items - {id}, links := set l | l in s.links && l.0 != id), true)
  }

  predicate NoDuplicates<T(==)>(s: seq<T>) {
    forall i, j | 0 <= i < j < |s| :: s[i] != s[j]
  }

  /** The row updates of the loop in `reorder_items`, for the ids from `from` on. */
  function Repositioned(items: map<nat, Item>, ids: seq<nat>, from: nat): (r: map<nat, Item>)
    requires from <= |ids| && forall i | i in ids :: i in items
    ensures r.Keys == items.Keys
    decreases |ids| - from
  {
    if from == |ids| then items
    else
      var was := items[ids[from]];
      var row := was.(position := (from + 1) * 100, version := was.version + 1);
      Repositioned(items[ids[from] := row], ids, from + 1)
  }

  /** `reorder_items`. */
  function ReorderItems(s: Store, room: string, status: Status, ids: seq<nat>): (Store, bool) {
    if !NoDuplicates(ids) then (s, false)
    else if ColumnIds(s, room, status) != Elements(ids) then (s, false)
    else
      assert forall i | i in ids :: i in Elements(ids);
      (s.(items := Repositioned(s.items, ids, 0)), true)
  }

  // ---------------------------------------------------------------- request models

  /** The members of a task object in a request or an import file; other members are ignored. */
  datatype RawTask = RawTask(
    title: Option<string>, note: Option<string>, status: Option<string>, priority: Option<string>,
    tagIds: seq<int>, tags: seq<string>, category: Option<string>,
    start: Option<string>, due: Option<string>, position: int)

  datatype RawEntry = NotATask | Entry(task: RawTask)

  function ParseStatus(t: Option<string>): Option<Status> {
    if t.None? || t.value == "todo" then Some(Todo)
    else if t.value == "doing" then Some(Doing)
    else if t.value == "done" then Some(Done)
    else None
  }

  function StatusText(s: Status): string {
    match s case Todo => "todo" case Doing => "doing" case Done => "done"
  }

  function ParsePriority(t: Option<string>): Option<Priority> {
    if t.None? || t.value == "normal" then Some(Normal)
    else if t.value == "high" then Some(High)
    else if t.value == "low" then Some(Low)
    else None
  }

  function PriorityText(p: Priority): string {
    match p case High => "high" case Normal => "normal" case Low => "low"
  }

  /** First occurrences only, in order. */
  function Distinct<T(==, !new)>(s: seq<T>): (r: seq<T>)
    ensures NoDuplicates(r) && forall x :: x in r <==> x in s
  {
    if s == [] then []
    else
      var front := Distinct(s[..|s| - 1]);
      var last := s[|s| - 1];
      assert s == s[..|s| - 1] + [last];
      if last in front then front else front + [last]
  }

  lemma DistinctSnoc<T(!new)>(s: seq<T>, x: T)
    ensures Distinct(s + [x]) == if x in Distinct(s) then Distinct(s) else Distinct(s) + [x]
  {
    assert (s + [x])[..|s|] == s;
  }

  lemma {:induction false} DistinctIsAll<T(!new)>(s: seq<T>)
    requires NoDuplicates(s)
    ensures Distinct(s) == s
  {
    if s != [] {
      assert s == s[..|s| - 1] + [s[|s| - 1]];
      DistinctIsAll(s[..|s| - 1]);
    }
  }

  /** `_normalize_tag_ids`; None is the ValueError. */
  function NormalizeTagIds(ids: seq<int>): (r: Option<seq<nat>>)
    ensures r.Some? ==> NoDuplicates(r.value) && |r.value| <= MAX_TAGS_PER_ITEM
  {
    if exists i | 0 <= i < |ids| :: ids[i] <= 0 then None
    else
      var d := Distinct(ids);
      if |d| > MAX_TAGS_PER_ITEM then None
      else
        assert forall i | 0 <= i < |d| :: d[i] in ids;
        Some(seq(|d|, i requires 0 <= i < |d| => d[i] as nat))
  }

  function Normalized(names: seq<string>): seq<string> {
    seq(|names|, i requires 0 <= i < |names| => NormalizeTagName(names[i]))
  }

  function NonEmpty(names: seq<string>): (r: seq<string>)
    ensures forall x :: x in r <==> x in names && x != ""
  {
    if names == [] then []
    else if names[0] == "" then NonEmpty(names[1..])
    else [names[0]] + NonEmpty(names[1..])
  }

  /** `_normalize_tag_names`; None is the ValueError. */
  function NormalizeTagNames(names: seq<string>): (r: Option<seq<string>>)
    ensures r.Some? ==> NoDuplicates(r.value) && |r.value| <= MAX_TAGS_PER_ITEM
  {
    var normal := NonEmpty(Normalized(names));
    if exists i | 0 <= i < |normal| :: |normal[i]| > MAX_TAG_LENGTH then None
    else
      var d := Distinct(normal);
      if |d| > MAX_TAGS_PER_ITEM then None else Some(d)
  }

  /** A value given where a list is expected: `null`, one text, a list, or something else. */
  datatype RawList<T> = NoValue | Single(value: T) | Items(items: seq<T>) | NotAList

  /** Elements as `int()` reads them; None stands for a bool and for what it refuses. */
  function Integers(items: seq<Option<int>>): seq<int> {
    seq(|items|, i requires 0 <= i < |items| => items[i].GetOr(0))
  }

  /** `_normalize_tag_ids` of any value; the outer None is the ValueError. */
  function ReadTagIds(value: RawList<Option<int>>): Option<Option<seq<nat>>> {
    match value
    case NoValue => Some(None)
    case Items(items) =>
      var ids := NormalizeTagIds(Integers(items));
      if ids.None? then None else Some(ids)
    case _ => None
  }

  /** `_normalize_tag_names` of any value, each element as `str(value or "")` shows it. */
  function ReadTagNames(value: RawList<string>): Option<Option<seq<string>>> {
    if value.NoValue? then Some(None)
    else if value.NotAList? then None
    else
      var names := NormalizeTagNames(if value.Single? then [value.value] else value.items);
      if names.None? then None else Some(names)
  }

  /** A validated task: `tagNames` are still to be resolved. */
  datatype TaskInput = TaskInput(values: NewItem, tagNames: seq<string>)

  /** `TaskItemInput.model_validate`; None is the ValidationError. */
  function ValidateTask(raw: RawTask): Option<TaskInput> {
    var title := Strip(raw.title.GetOr(""));
    var note := Strip(raw.note.GetOr(""));
    var status, priority := ParseStatus(raw.status), ParsePriority(raw.priority);
    var ids, names := NormalizeTagIds(raw.tagIds), NormalizeTagNames(raw.tags);
    var start, due := NormalizeDate(raw.start), NormalizeDate(raw.due);
    if !(1 <= |title| <= MAX_TITLE) || |note| > MAX_NOTE then None
    else if status.None? || priority.None? || ids.None? || names.None? || start.None? || due.None? then None
    else if !DateRangeOk(start.value, due.value) then None
    else Some(TaskInput(
                NewItem(title, note, status.value, priority.value, start.value, due.value, ids.value),
                names.value))
  }

  /** The members of an update request that were set. */
  datatype RawUpdate = RawUpdate(
    title: Field<string>, note: Field<string>, status: Field<string>, priority: Field<string>,
    start: Field<string>, due: Field<string>, position: Field<int>, tagIds: Field<seq<int>>)

  function StripField(f: Field<string>): Field<string> {
    if f.Given? then Given(Strip(f.value)) else f
  }

  /** A date member; None is the ValueError, and an empty text becomes null. */
  function DateField(f: Field<string>): Option<Field<string>> {
    if !f.Given? then Some(f)
    else match NormalizeDate(Some(f.value))
      case None => None
      case Some(None) => Some(Null)
      case Some(Some(d)) => Some(Given(d))
  }

  function GivenDate(f: Field<string>): Option<string> {
    if f.Given? then Some(f.value) else None
  }

  /** `TaskItemUpdateInput.model_validate`; None is the ValidationError. */
  function ValidateUpdate(raw: RawUpdate): Option<ItemUpdate> {
    var title, note := StripField(raw.title), StripField(raw.note);
    var start, due := DateField(raw.start), DateField(raw.due);
    var status: Option<Field<Status>> :=
      if !raw.status.Given? then Some(if raw.status.Null? then Null else Absent)
      else var p := ParseStatus(Some(raw.status.value)); if p.None? then None else Some(Given(p.value));
    var priority: Option<Field<Priority>> :=
      if !raw.priority.Given? then Some(if raw.priority.Null? then Null else Absent)
      else var p := ParsePriority(Some(raw.priority.value)); if p.None? then None else Some(Given(p.value));
    var ids: Option<Field<seq<nat>>> :=
      if !raw.tagIds.Given? then Some(if raw.tagIds.Null? then Null else Absent)
      else var n := NormalizeTagIds(raw.tagIds.value); if n.None? then None else Some(Given(n.value));
    if title.Given? && !(1 <= |title.value| <= MAX_TITLE) then None
    else if note.Given? && |note.value| > MAX_NOTE then None
    else if raw.position.Given? && raw.position.value < 0 then None
    else if start.None? || due.None? || status.None? || priority.None? || ids.None? then None
    else if !DateRangeOk(GivenDate(start.value), GivenDate(due.value)) then None
    else Some(ItemUpdate(title, note, status.value, priority.value, start.value, due.value, raw.position, ids.value))
  }

  /** `TaskTagInput.model_validate`. */
  function ValidateTagName(raw: string): Option<string> {
    var name := NormalizeTagName(raw);
    if 1 <= |name| <= MAX_TAG_LENGTH then Some(name) else None
  }

  /** `_with_tags`: a version 1 category becomes a single tag. */
  function WithTags(raw: RawTask): RawTask {
    if raw.tags != [] || raw.category.GetOr("") == "" then raw
    else raw.(tags := [raw.category.value])
  }

  /** `_resolve_tag_ids`: given ids first, then the named tags, cut at the limit per item. */
  function ResolveTagIds(s: Store, room: string, input: TaskInput): (Store, seq<nat>) {
    var (s1, named) := ResolveTagNames(s, room, input.tagNames, Some(MAX_TAGS));
    var all := Distinct(input.values.tagIds + named);
    (s1, if |all| > MAX_TAGS_PER_ITEM then all[..MAX_TAGS_PER_ITEM] else all)
  }

  // ---------------------------------------------------------------- export and import

  function ExportTask(v: View): RawTask {
    RawTask(Some(v.item.title), v.item.note, Some(StatusText(v.item.status)), Some(PriorityText(v.item.priority)),
            [], v.tags, None, v.item.start, v.item.due, v.item.position)
  }

  /** The `tasks` member of the exported file. */
  function ExportTasks(views: seq<View>): seq<RawEntry> {
    seq(|views|, k requires 0 <= k < |views| => Entry(ExportTask(views[k])))
  }

  datatype ImportFile = NotJson | NotAnObject | Object(version: int, tasks: Option<seq<RawEntry>>)

  function Export(s: Store, room: string): ImportFile {
    Object(2, Some(ExportTasks(ListItems(s, room))))
  }

  datatype ImportResult =
    | FileTooLarge | InvalidJson | InvalidTaskList | UnsupportedVersion | LimitReached
    | ServerError
    | Imported(imported: nat, skipped: nat)

  datatype EntryResult = Stored | Skipped | Failed

  /** The tags of a validated entry are resolved, then its item is created. */
  function StoreInput(s: Store, room: string, input: TaskInput): (Store, EntryResult) {
    var (s1, ids) := ResolveTagNames(s, room, input.tagNames, Some(MAX_TAGS));
    var (s2, r) := CreateItem(s1, room, input.values.(tagIds := ids), Some(MAX_ITEMS));
    (s2, match r case Created(_) => Stored case OutOfRange => Failed case _ => Skipped)
  }

  /** One turn of the import loop.  Tags made for an entry stay even when its item is not stored. */
  function ImportEntry(s: Store, room: string, e: RawEntry): (Store, EntryResult) {
    if e.NotATask? then (s, Skipped)
    else
      var input := ValidateTask(WithTags(e.task));
      if input.None? then (s, Skipped) else StoreInput(s, room, input.value)
  }

  function ImportEntries(s: Store, room: string, es: seq<RawEntry>): (Store, ImportResult) {
    if es == [] then (s, Imported(0, 0))
    else
      var (s0, r0) := ImportEntries(s, room, es[..|es| - 1]);
      if !r0.Imported? then (s0, r0)
      else
        var (s1, r) := ImportEntry(s0, room, es[|es| - 1]);
        (s1, match r
             case Stored => r0.(imported := r0.imported + 1)
             case Skipped => r0.(skipped := r0.skipped + 1)
             case Failed => ServerError)
  }

  /** `import_task_items` for an uploaded file of `size` bytes. */
  function Import(s: Store, room: string, file: ImportFile, size: nat): (Store, ImportResult) {
    if size > MAX_FILE_BYTES then (s, FileTooLarge)
    else match file
      case NotJson => (s, InvalidJson)
      case NotAnObject => (s, InvalidTaskList)
      case Object(version, tasks) =>
        if version != 1 && version != 2 then (s, UnsupportedVersion)
        else if tasks.None? then (s, InvalidTaskList)
        else if |ItemIds(s, room)| + |tasks.value| > MAX_ITEMS then (s, LimitReached)
        else ImportEntries(s, room, tasks.value)
  }
}
