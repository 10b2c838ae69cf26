/** What every run of the board's transactions keeps. */
module TaskInvariant {
  import opened Collections
  import opened Wrappers
  import opened Ordering
  import opened TaskDates
  import opened TaskText
  import opened TaskModel
  import opened TaskOrder

  // ---------------------------------------------------------------- the invariant

  predicate ValidText(title: string, note: Option<string>) {
    && Stripped(title) && 1 <= |title| <= MAX_TITLE
    && (note.Some? ==> Stripped(note.value) && |note.value| <= MAX_NOTE)
  }

  predicate ValidItem(x: Item) {
    && ValidText(x.title, x.note)
    && ValidDate(x.start) && ValidDate(x.due) && !Reversed(x.start, x.due)
    && 0 <= x.position <= MAX_INT
  }

  predicate ValidName(name: string) {
    NormalizeTagName(name) == name && 1 <= |name| <= MAX_TAG_LENGTH
  }

  ghost predicate ValidRows(s: Store) {
    && (forall i | i in s.items :: i < s.nextItem && ValidItem(s.items[i]))
    && (forall g | g in s.tags :: g < s.nextTag && ValidName(s.tags[g].name))
  }

  ghost predicate UniqueNames(s: Store) {
    forall a, b | a in s.tags && b in s.tags && s.tags[a] == s.tags[b] :: a == b
  }

  ghost predicate LinksJoin(s: Store) {
    forall i, g | (i, g) in s.links :: i in s.items && g in s.tags && s.items[i].room == s.tags[g].room
  }

  ghost predicate Quotas(s: Store) {
    && (forall room :: |ItemIds(s, room)| <= MAX_ITEMS)
    && (forall room :: |TagIds(s, room)| <= MAX_TAGS)
    && (forall i :: |LinkedTags(s, i)| <= MAX_TAGS_PER_ITEM)
  }

  ghost predicate Inv(s: Store) {
    ValidRows(s) && UniqueNames(s) && LinksJoin(s) && Quotas(s)
  }

  // ---------------------------------------------------------------- transactions

  /** One committed transaction, with what the request models let through. */
  datatype Op =
    | OpCreateTag(room: string, name: string)
    | OpRenameTag(room: string, id: nat, name: string)
    | OpDeleteTag(room: string, id: nat)
    | OpCreateItem(room: string, values: NewItem)
    | OpUpdateItem(room: string, id: nat, update: ItemUpdate, version: int)
    | OpDeleteItem(room: string, id: nat)
    | OpReorder(room: string, status: Status, ids: seq<nat>)

  predicate ValidNew(v: NewItem) {
    && ValidText(v.title, Some(v.note)) && ValidDate(v.start) && ValidDate(v.due)
    && |v.tagIds| <= MAX_TAGS_PER_ITEM
  }

  predicate ValidUpdate(u: ItemUpdate) {
    && (u.title.Given? ==> Stripped(u.title.value) && 1 <= |u.title.value| <= MAX_TITLE)
    && (u.note.Given? ==> Stripped(u.note.value) && |u.note.value| <= MAX_NOTE)
    && ValidDate(GivenDate(u.start)) && ValidDate(GivenDate(u.due))
    && (u.position.Given? ==> u.position.value >= 0)
    && (u.tagIds.Given? ==> |u.tagIds.value| <= MAX_TAGS_PER_ITEM)
  }

  predicate ValidOp(op: Op) {
    match op
    case OpCreateTag(_, name) => ValidName(name)
    case OpRenameTag(_, _, name) => ValidName(name)
    case OpCreateItem(_, v) => ValidNew(v)
    case OpUpdateItem(_, _, u, _) => ValidUpdate(u)
    case _ => true
  }

  function Step(s: Store, op: Op): Store {
    match op
    case OpCreateTag(room, name) => CreateTag(s, room, name, Some(MAX_TAGS)).0
    case OpRenameTag(room, id, name) => RenameTag(s, room, id, name).0
    case OpDeleteTag(room, id) => DeleteTag(s, room, id).0
    case OpCreateItem(room, v) => CreateItem(s, room, v, Some(MAX_ITEMS)).0
    case OpUpdateItem(room, id, u, version) => UpdateItem(s, room, id, u, version).0
    case OpDeleteItem(room, id) => DeleteItem(s, room, id).0
    case OpReorder(room, status, ids) => ReorderItems(s, room, status, ids).0
  }

  function Run(s: Store, ops: seq<Op>): Store {
    if ops == [] then s else Step(Run(s, ops[..|ops| - 1]), ops[|ops| - 1])
  }

  lemma RunSnoc(s: Store, ops: seq<Op>, op: Op)
    ensures Run(s, ops + [op]) == Step(Run(s, ops), op)
  {
    assert (ops + [op])[..|ops|] == ops;
  }

  // ---------------------------------------------------------------- the request models

  lemma ValidateTaskIsValid(raw: RawTask)
    ensures var input := ValidateTask(raw);
            input.Some? ==> ValidNew(input.value.values) && forall n | n in input.value.tagNames :: ValidName(n)
  {
    var input := ValidateTask(raw);
    StripLaws(raw.title.GetOr(""));
    StripLaws(raw.note.GetOr(""));
    if input.Some? {
      forall n | n in input.value.tagNames ensures ValidName(n) {
        NormalizedNameIsValid(raw.tags, n);
      }
    }
  }

  lemma NormalizedNameIsValid(names: seq<string>, n: string)
    requires NormalizeTagNames(names).Some? && n in NormalizeTagNames(names).value
    ensures ValidName(n)
  {
    var normal := NonEmpty(Normalized(names));
    assert n in normal && n in Normalized(names);
    var i :| 0 <= i < |names| && Normalized(names)[i] == n;
    NormalizeTagNameIdempotent(names[i]);
    var j :| 0 <= j < |normal| && normal[j] == n;
  }

  lemma ValidateUpdateIsValid(raw: RawUpdate)
    ensures var u := ValidateUpdate(raw); u.Some? ==> ValidUpdate(u.value)
  {
    if raw.title.Given? { StripLaws(raw.title.value); }
    if raw.note.Given? { StripLaws(raw.note.value); }
  }

  lemma ValidateTagNameIsValid(raw: string)
    ensures var n := ValidateTagName(raw); n.Some? ==> ValidName(n.value)
  {
    NormalizeTagNameIdempotent(raw);
  }

  // ---------------------------------------------------------------- preservation

  lemma {:induction false} ElementsCount<T(!new)>(s: seq<T>)
    ensures |Elements(s)| <= |s|
  {
    if s != [] {
      var n := |s| - 1;
      assert s == s[..n] + [s[n]];
      ElementsConcat(s[..n], [s[n]]);
      ElementsCount(s[..n]);
    }
  }

  lemma ReplaceTagsKeeps(s: Store, room: string, item: nat, ids: seq<nat>)
    requires LinksJoin(s) && item in s.items && s.items[item].room == room
    requires forall i | i != item :: |LinkedTags(s, i)| <= MAX_TAGS_PER_ITEM
    requires |ids| <= MAX_TAGS_PER_ITEM
    ensures var t := ReplaceTags(s, room, item, ids);
            LinksJoin(t) && forall i :: |LinkedTags(t, i)| <= MAX_TAGS_PER_ITEM
  {
    var t := ReplaceTags(s, room, item, ids);
    forall i ensures |LinkedTags(t, i)| <= MAX_TAGS_PER_ITEM {
      if i == item {
        assert LinkedTags(t, i) <= Elements(ids);
        SubsetCount(LinkedTags(t, i), Elements(ids));
        ElementsCount(ids);
      } else {
        assert LinkedTags(t, i) == LinkedTags(s, i);
      }
    }
  }

  lemma WrittenTagIds(s: Store, id: nat, tag: Tag, next: nat, room: string)
    requires id in s.tags ==> s.tags[id].room == tag.room
    ensures TagIds(s.(tags := s.tags[id := tag], nextTag := next), room) ==
            if room == tag.room then TagIds(s, room) + {id} else TagIds(s, room)
  {
  }

  lemma WriteTagQuotas(s: Store, id: nat, tag: Tag, next: nat)
    requires Quotas(s)
    requires id in s.tags ==> s.tags[id].room == tag.room
    requires id !in s.tags ==> |TagIds(s, tag.room)| < MAX_TAGS
    ensures Quotas(s.(tags := s.tags[id := tag], nextTag := next))
  {
    var t := s.(tags := s.tags[id := tag], nextTag := next);
    forall q ensures |ItemIds(t, q)| <= MAX_ITEMS && |TagIds(t, q)| <= MAX_TAGS {
      assert ItemIds(t, q) == ItemIds(s, q);
      WrittenTagIds(s, id, tag, next, q);
    }
    forall i ensures |LinkedTags(t, i)| <= MAX_TAGS_PER_ITEM {
      assert LinkedTags(t, i) == LinkedTags(s, i);
    }
  }

  /** Writing one tag row whose name no other tag of the room has. */
  lemma WriteTagKeeps(s: Store, id: nat, tag: Tag, next: nat)
    requires Inv(s) && ValidName(tag.name) && id < next && s.nextTag <= next
    requires id in s.tags ==> s.tags[id].room == tag.room
    requires id !in s.tags ==> |TagIds(s, tag.room)| < MAX_TAGS
    requires forall g | g in s.tags && g != id :: s.tags[g] != tag
    ensures Inv(s.(tags := s.tags[id := tag], nextTag := next))
  {
    WriteTagQuotas(s, id, tag, next);
  }

  lemma CreateTagKeeps(s: Store, room: string, name: string)
    requires Inv(s) && ValidName(name)
    ensures Inv(CreateTag(s, room, name, Some(MAX_TAGS)).0)
  {
    if FindTag(s, room, name) == {} && |TagIds(s, room)| < MAX_TAGS {
      forall g | g in s.tags ensures s.tags[g] != Tag(room, name) {
        assert g !in FindTag(s, room, name);
      }
      WriteTagKeeps(s, s.nextTag, Tag(room, name), s.nextTag + 1);
    }
  }

  lemma RenameTagKeeps(s: Store, room: string, id: nat, name: string)
    requires Inv(s) && ValidName(name)
    ensures Inv(RenameTag(s, room, id, name).0)
  {
    if RenameTag(s, room, id, name).1 {
      forall g | g in s.tags && g != id ensures s.tags[g] != Tag(room, name) {
        assert g !in FindTag(s, room, name) - {id};
      }
      WriteTagKeeps(s, id, Tag(room, name), s.nextTag);
    }
  }

  /** A store with fewer rows and links, the rest unchanged. */
  lemma ShrinkKeeps(s: Store, t: Store)
    requires Inv(s) && LinksJoin(t)
    requires t.nextItem == s.nextItem && t.nextTag == s.nextTag && t.links <= s.links
    requires forall i | i in t.items :: i in s.items && t.items[i] == s.items[i]
    requires forall g | g in t.tags :: g in s.tags && t.tags[g] == s.tags[g]
    ensures Inv(t)
  {
    assert ValidRows(t) && UniqueNames(t);
    hide ValidRows, UniqueNames, LinksJoin;
    forall q ensures |ItemIds(t, q)| <= MAX_ITEMS && |TagIds(t, q)| <= MAX_TAGS {
      SubsetCount(ItemIds(t, q), ItemIds(s, q));
      SubsetCount(TagIds(t, q), TagIds(s, q));
    }
    forall i ensures |LinkedTags(t, i)| <= MAX_TAGS_PER_ITEM {
      SubsetCount(LinkedTags(t, i), LinkedTags(s, i));
    }
  }

  /** A store in which only item rows changed, and every item stayed in its room. */
  lemma RewriteKeeps(s: Store, t: Store)
    requires Inv(s) && t == s.(items := t.items) && t.items.Keys == s.items.Keys
    requires forall i | i in s.items :: ValidItem(t.items[i]) && t.items[i].room == s.items[i].room
    ensures Inv(t)
  {
    forall q ensures |ItemIds(t, q)| <= MAX_ITEMS && |TagIds(t, q)| <= MAX_TAGS {
      assert ItemIds(t, q) == ItemIds(s, q);
      assert TagIds(t, q) == TagIds(s, q);
    }
    forall i ensures |LinkedTags(t, i)| <= MAX_TAGS_PER_ITEM {
      assert LinkedTags(t, i) == LinkedTags(s, i);
    }
  }

  lemma WithTagsKeeps(s: Store, room: string, item: nat, ids: seq<nat>)
    requires ValidRows(s) && UniqueNames(s) && LinksJoin(s)
    requires forall q :: |ItemIds(s, q)| <= MAX_ITEMS && |TagIds(s, q)| <= MAX_TAGS
    requires forall i | i != item :: |LinkedTags(s, i)| <= MAX_TAGS_PER_ITEM
    requires item in s.items && s.items[item].room == room && |ids| <= MAX_TAGS_PER_ITEM
    ensures Inv(ReplaceTags(s, room, item, ids))
  {
    var t := ReplaceTags(s, room, item, ids);
    ReplaceTagsKeeps(s, room, item, ids);
    forall q ensures |ItemIds(t, q)| <= MAX_ITEMS && |TagIds(t, q)| <= MAX_TAGS {
      assert ItemIds(t, q) == ItemIds(s, q);
      assert TagIds(t, q) == TagIds(s, q);
    }
  }

  lemma LastPositionNonNegative(s: Store, room: string, status: Status)
    requires ValidRows(s)
    ensures LastPosition(s, room, status) >= 0
  {
    if ColumnIds(s, room, status) != {} {
      var i :| i in ColumnIds(s, room, status) && s.items[i].position == LastPosition(s, room, status);
    }
  }

  /** One more item row under a fresh id. */
  function Inserted(s: Store, item: Item): Store {
    s.(items := s.items[s.nextItem := item], nextItem := s.nextItem + 1)
  }

  lemma InsertedIds(s: Store, item: Item, room: string)
    requires s.nextItem !in s.items
    ensures ItemIds(Inserted(s, item), room) ==
            if room == item.room then ItemIds(s, room) + {s.nextItem} else ItemIds(s, room)
  {
  }

  lemma InsertQuotas(s: Store, item: Item)
    requires Quotas(s) && |ItemIds(s, item.room)| < MAX_ITEMS && s.nextItem !in s.items
    ensures Quotas(Inserted(s, item))
  {
    var t := Inserted(s, item);
    forall q ensures |ItemIds(t, q)| <= MAX_ITEMS && |TagIds(t, q)| <= MAX_TAGS {
      InsertedIds(s, item, q);
      assert TagIds(t, q) == TagIds(s, q);
    }
    forall i ensures |LinkedTags(t, i)| <= MAX_TAGS_PER_ITEM {
      assert LinkedTags(t, i) == LinkedTags(s, i);
    }
  }

  lemma InsertKeeps(s: Store, item: Item)
    requires Inv(s) && ValidItem(item) && |ItemIds(s, item.room)| < MAX_ITEMS
    ensures Inv(Inserted(s, item))
  {
    InsertQuotas(s, item);
  }

  /** The row that a creation inserts. */
  function NewRow(s: Store, room: string, v: NewItem): Item {
    Item(room, v.title, Some(v.note), v.status, v.priority, DateOrNull(v.start), DateOrNull(v.due),
         LastPosition(s, room, v.status) + 100, 0)
  }

  lemma CreateInserts(s: Store, room: string, v: NewItem)
    requires CreateItem(s, room, v, Some(MAX_ITEMS)).1.Created?
    ensures CreateItem(s, room, v, Some(MAX_ITEMS)).0 ==
            ReplaceTags(Inserted(s, NewRow(s, room, v)), room, s.nextItem, v.tagIds)
    ensures DateRangeOk(v.start, v.due) && |ItemIds(s, room)| < MAX_ITEMS
    ensures LastPosition(s, room, v.status) + 100 <= MAX_INT
  {
    hide LastPosition, ItemIds, DateRangeOk, DateOrNull;
  }

  lemma NewRowIsValid(s: Store, room: string, v: NewItem)
    requires ValidRows(s) && ValidNew(v) && DateRangeOk(v.start, v.due)
    requires LastPosition(s, room, v.status) + 100 <= MAX_INT
    ensures ValidItem(NewRow(s, room, v)) && NewRow(s, room, v).room == room
  {
    LastPositionNonNegative(s, room, v.status);
    RangeOkIff(v.start, v.due);
    hide ValidRows, LastPosition, IsIsoDate, Stripped, StringLe, DateRangeOk, Reversed;
  }

  lemma InsertWithTagsKeeps(s: Store, item: Item, ids: seq<nat>)
    requires Inv(s) && ValidItem(item) && |ItemIds(s, item.room)| < MAX_ITEMS && |ids| <= MAX_TAGS_PER_ITEM
    ensures Inv(ReplaceTags(Inserted(s, item), item.room, s.nextItem, ids))
  {
    InsertKeeps(s, item);
    hide ValidRows, UniqueNames, LinksJoin, ValidItem, ItemIds, TagIds, LinkedTags;
    WithTagsKeeps(Inserted(s, item), item.room, s.nextItem, ids);
  }

  lemma CreateItemKeeps(s: Store, room: string, v: NewItem)
    requires Inv(s) && ValidNew(v)
    ensures Inv(CreateItem(s, room, v, Some(MAX_ITEMS)).0)
  {
    if CreateItem(s, room, v, Some(MAX_ITEMS)).1.Created? {
      assert ValidRows(s) && |v.tagIds| <= MAX_TAGS_PER_ITEM;
      hide *;
      CreateInserts(s, room, v);
      NewRowIsValid(s, room, v);
      InsertWithTagsKeeps(s, NewRow(s, room, v), v.tagIds);
    }
  }

  lemma UpdateItemKeeps(s: Store, room: string, id: nat, u: ItemUpdate, version: int)
    requires Inv(s) && ValidUpdate(u)
    ensures Inv(UpdateItem(s, room, id, u, version).0)
  {
    var (t, r) := UpdateItem(s, room, id, u, version);
    if r.Updated? {
      var s1 := s.(items := t.items);
      UpdatedRowIsValid(s.items[id], t.items[id], u);
      RewriteKeeps(s, s1);
      if u.tagIds.Given? {
        WithTagsKeeps(s1, room, id, u.tagIds.value);
      }
    }
  }

  lemma UpdatedRowIsValid(was: Item, item: Item, u: ItemUpdate)
    requires ValidItem(was) && ValidUpdate(u) && DateRangeOk(u.NewStart(was.start), u.NewDue(was.due))
    requires item.title == u.title.Over(was.title) && item.note == u.note.OverNullable(was.note)
    requires item.start == u.NewStart(was.start) && item.due == u.NewDue(was.due)
    requires item.position == u.position.Over(was.position) && u.position.Over(0) <= MAX_INT
    ensures ValidItem(item)
  {
    RangeOkIff(item.start, item.due);
    hide DateRangeOk, Reversed, IsIsoDate;
  }

  lemma ReorderKeeps(s: Store, room: string, status: Status, ids: seq<nat>)
    requires Inv(s)
    ensures Inv(ReorderItems(s, room, status, ids).0)
  {
    var (t, ok) := ReorderItems(s, room, status, ids);
    if ok {
      ReorderChangesRows(s, room, status, ids);
      assert |ids| <= MAX_ITEMS by {
        ColumnLength(s, room, status, ids);
      }
      forall i | i in s.items ensures ValidItem(t.items[i]) && t.items[i].room == s.items[i].room {
        if i in Elements(ids) {
          var k :| 0 <= k < |ids| && ids[k] == i;
        }
      }
      RewriteKeeps(s, t);
    }
  }

  lemma ColumnLength(s: Store, room: string, status: Status, ids: seq<nat>)
    requires Quotas(s) && NoDuplicates(ids) && ColumnIds(s, room, status) == Elements(ids)
    ensures |ids| <= MAX_ITEMS
  {
    DistinctLength(ids);
    SubsetCount(ColumnIds(s, room, status), ItemIds(s, room));
  }

  lemma {:induction false} DistinctLength<T(!new)>(s: seq<T>)
    requires NoDuplicates(s)
    ensures |Elements(s)| == |s|
  {
    if s != [] {
      var n := |s| - 1;
      assert s == s[..n] + [s[n]];
      ElementsConcat(s[..n], [s[n]]);
      DistinctLength(s[..n]);
    }
  }

  lemma DeleteTagKeeps(s: Store, room: string, id: nat)
    requires Inv(s)
    ensures Inv(DeleteTag(s, room, id).0)
  {
    assert LinksJoin(DeleteTag(s, room, id).0);
    hide Inv, ValidRows, UniqueNames, Quotas, LinksJoin;
    ShrinkKeeps(s, DeleteTag(s, room, id).0);
  }

  lemma DeleteItemKeeps(s: Store, room: string, id: nat)
    requires Inv(s)
    ensures Inv(DeleteItem(s, room, id).0)
  {
    assert LinksJoin(DeleteItem(s, room, id).0);
    hide Inv, ValidRows, UniqueNames, Quotas, LinksJoin;
    ShrinkKeeps(s, DeleteItem(s, room, id).0);
  }

  lemma StepKeeps(s: Store, op: Op)
    requires Inv(s) && ValidOp(op)
    ensures Inv(Step(s, op))
  {
    match op
    case OpCreateTag(room, name) => CreateTagKeeps(s, room, name);
    case OpRenameTag(room, id, name) => RenameTagKeeps(s, room, id, name);
    case OpDeleteTag(room, id) => DeleteTagKeeps(s, room, id);
    case OpCreateItem(room, v) => CreateItemKeeps(s, room, v);
    case OpUpdateItem(room, id, u, version) => UpdateItemKeeps(s, room, id, u, version);
    case OpDeleteItem(room, id) => DeleteItemKeeps(s, room, id);
    case OpReorder(room, status, ids) => ReorderKeeps(s, room, status, ids);
  }

  /**
   Every run from the empty store, whatever the order of the transactions: quotas of items and tags
   per room and of tags per item, unique tag names per room, links only within a room, and start
   dates not after due dates.
   */
  lemma {:induction false} RunKeepsInvariant(ops: seq<Op>)
    requires forall op | op in ops :: ValidOp(op)
    ensures Inv(Run(EMPTY, ops))
  {
    if ops == [] {
      forall q ensures |ItemIds(EMPTY, q)| <= MAX_ITEMS && |TagIds(EMPTY, q)| <= MAX_TAGS {
        assert ItemIds(EMPTY, q) == {} && TagIds(EMPTY, q) == {};
      }
      forall i ensures |LinkedTags(EMPTY, i)| <= MAX_TAGS_PER_ITEM {
        assert LinkedTags(EMPTY, i) == {};
      }
    } else {
      RunKeepsInvariant(ops[..|ops| - 1]);
      StepKeeps(Run(EMPTY, ops[..|ops| - 1]), ops[|ops| - 1]);
    }
  }
}
