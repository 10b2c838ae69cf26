/** What the board's operations answer, said of rows and dates. */
module TaskAnswers {
  import opened Ordering
  import opened TaskDates
  import opened TaskImport
  import opened TaskInvariant
  import opened TaskModel
  import opened TaskOrder
  import opened TaskText
  import opened TaskVersions
  import opened Wrappers

  /** In every run an item that has both dates starts no later than it is due. */
  lemma RunDatesInOrder(ops: seq<Op>, id: nat)
    requires forall op | op in ops :: ValidOp(op)
    ensures var s := Run(EMPTY, ops);
            id in s.items && s.items[id].start.Some? && s.items[id].due.Some? ==>
              var a, b := s.items[id].start.value, s.items[id].due.value;
              IsIsoDate(a) && IsIsoDate(b) && Day(a) <= Day(b)
  {
    RunKeepsInvariant(ops);
    var s := Run(EMPTY, ops);
    if id in s.items {
      assert ValidItem(s.items[id]);
      RangeOkIff(s.items[id].start, s.items[id].due);
    }
  }

  /** What a creation answers, and in which order its conditions are tested. */
  lemma CreateAnswers(s: Store, room: string, v: NewItem, limit: Option<nat>)
    requires ValidDate(v.start) && ValidDate(v.due)
    ensures var r := CreateItem(s, room, v, limit).1;
            && (r.InvalidDateRange? <==> Reversed(v.start, v.due))
            && (r.ItemLimit? <==> !Reversed(v.start, v.due) && limit.Some? && |ItemIds(s, room)| >= limit.value)
            && (r.Created? ==> r.id == s.nextItem)
  {
    RangeOkIff(v.start, v.due);
  }

  /**
   What an update answers: first whether it asks for anything, then whether the row is in the room, then whether
   it has the client's version, then whether the dates it leaves behind are in order.
   */
  lemma UpdateAnswers(s: Store, room: string, id: nat, u: ItemUpdate, version: int)
    requires Inv(s) && ValidUpdate(u)
    ensures var r := UpdateItem(s, room, id, u, version).1;
            var there := id in s.items && s.items[id].room == room;
            && (r.NothingToDo? <==> !Asks(u))
            && (r.NotFound? <==> Asks(u) && !there)
            && (r.Conflict? <==> Asks(u) && there && s.items[id].version != version)
            && (r.BadRange? <==>
                  && Asks(u) && there && s.items[id].version == version
                  && Reversed(DateAfter(u.start, s.items[id].start), DateAfter(u.due, s.items[id].due)))
  {
    if id in s.items && s.items[id].room == room {
      var was := s.items[id];
      assert ValidItem(was);
      assert u.NewStart(was.start) == DateAfter(u.start, was.start);
      assert u.NewDue(was.due) == DateAfter(u.due, was.due);
      RangeOkIff(DateAfter(u.start, was.start), DateAfter(u.due, was.due));
    }
  }

  // ---------------------------------------------------------------- tags of a creation

  /**
   Names are resolved in order until the room is full: the ids are those of tags with the first names, and a
   name that is left over is no tag of the room, which then holds as many as it may.
   */
  lemma {:induction false} ResolvesInOrder(s: Store, room: string, names: seq<string>, limit: nat)
    requires TagTable(s)
    ensures var (t, ids) := ResolveTagNames(s, room, names, Some(limit));
            && AddsTags(s, t) && TagTable(t) && |ids| <= |names| && AreTags(t, room, ids, names[..|ids|])
            && (|ids| < |names| ==> names[|ids|] !in TagNames(t, room) && |TagIds(t, room)| >= limit)
    decreases |names|
  {
    if names != [] {
      var (s1, r) := CreateTag(s, room, names[0], Some(limit));
      CreateTagAdds(s, room, names[0], Some(limit));
      if r.TagOk? {
        ResolvesInOrder(s1, room, names[1..], limit);
        var (t, ids) := ResolveTagNames(s1, room, names[1..], Some(limit));
        assert names[..|ids| + 1][1..] == names[1..][..|ids|];
        assert |ids| < |names[1..]| ==> names[1..][|ids|] == names[|ids| + 1];
        AreTagsCons(s1, t, room, r.id, ids, names[..|ids| + 1]);
      }
    }
  }

  /**
   The tags of a creation: those given and those resolved from names, none twice, the given ones first; only
   what exceeds the limit per item is cut off.
   */
  lemma ResolvedTags(s: Store, room: string, input: TaskInput, id: nat)
    ensures var (t, ids) := ResolveTagIds(s, room, input);
            var (u, named) := ResolveTagNames(s, room, input.tagNames, Some(MAX_TAGS));
            && t == u && NoDuplicates(ids) && |ids| <= MAX_TAGS_PER_ITEM
            && (id in ids ==> id in input.values.tagIds || id in named)
            && (|ids| < MAX_TAGS_PER_ITEM ==> (id in ids <==> id in input.values.tagIds || id in named))
            && (NoDuplicates(input.values.tagIds) && |input.values.tagIds| <= MAX_TAGS_PER_ITEM ==>
                  input.values.tagIds <= ids)
  {
    var given, named := input.values.tagIds, ResolveTagNames(s, room, input.tagNames, Some(MAX_TAGS)).1;
    var all := Distinct(given + named);
    assert id in all <==> id in given || id in named by {
      assert id in given + named <==> id in given || id in named;
    }
    assert id in ResolveTagIds(s, room, input).1 ==> id in all;
    if NoDuplicates(given) { DistinctStarts(given, named); }
  }

  lemma {:induction false} DistinctStarts(given: seq<nat>, more: seq<nat>)
    requires NoDuplicates(given)
    ensures given <= Distinct(given + more)
  {
    if more == [] {
      assert given + [] == given;
      DistinctIsAll(given);
    } else {
      var n := |more| - 1;
      assert given + more == given + more[..n] + [more[n]];
      DistinctStarts(given, more[..n]);
      DistinctSnoc(given + more[..n], more[n]);
    }
  }

  // ---------------------------------------------------------------- imports

  lemma OneName(name: string)
    ensures var n := NormalizeTagName(name);
            n != "" && NormalizeTagNames([name]).Some? ==> NormalizeTagNames([name]) == Some([n])
  {
    var n := NormalizeTagName(name);
    hide NormalizeTagName;
    assert Normalized([name]) == [n];
    if n != "" {
      assert [n][1..] == [] && NonEmpty([n]) == [n];
      DistinctIsAll([n]);
    }
  }

  /** A version 1 file names a category; it becomes the task's only tag, unless the task has tags. */
  lemma CategoryBecomesTag(raw: RawTask)
    ensures var input := ValidateTask(WithTags(raw));
            input.Some? ==>
              && (raw.tags != [] || raw.category in {None, Some("")} ==>
                    Some(input.value.tagNames) == NormalizeTagNames(raw.tags))
              && (raw.tags == [] && raw.category.Some? && NormalizeTagName(raw.category.value) != "" ==>
                    input.value.tagNames == [NormalizeTagName(raw.category.value)])
  {
    if raw.category.Some? { OneName(raw.category.value); }
    assert raw.tags == [] && raw.category == Some("") ==> NormalizeTagName(raw.category.value) == "";
    hide NormalizeTagNames, NormalizeTagName, NormalizeTagIds, NormalizeDate, Strip;
  }

  /** What an import answers before it stores anything, and when; it then leaves the store as it was. */
  lemma ImportAnswers(s: Store, room: string, file: ImportFile, size: nat)
    ensures var (t, r) := Import(s, room, file, size);
            var small := size <= 1048576;
            var version := file.Object? && file.version in {1, 2};
            && (r.FileTooLarge? <==> !small)
            && (r.InvalidJson? <==> small && file.NotJson?)
            && (r.UnsupportedVersion? <==> small && file.Object? && !version)
            && (r.InvalidTaskList? <==> small && (file.NotAnObject? || (version && file.tasks == None)))
            && (r.LimitReached? <==>
                  && small && version && file.tasks.Some?
                  && |ItemIds(s, room)| + |file.tasks.value| > MAX_ITEMS)
            && (!r.Imported? && !r.ServerError? ==> t == s)
  {
    if file.Object? && file.tasks.Some? { ImportCounts(s, room, file.tasks.value); }
  }

  /** Every entry of an import is stored or skipped. */
  lemma {:induction false} ImportCounts(s: Store, room: string, es: seq<RawEntry>)
    ensures var r := ImportEntries(s, room, es).1;
            (r.Imported? || r.ServerError?) && (r.Imported? ==> r.imported + r.skipped == |es|)
  {
    if es != [] { ImportCounts(s, room, es[..|es| - 1]); }
  }

  lemma {:induction false} ResolveKeepsItems(s: Store, room: string, names: seq<string>, limit: Option<nat>)
    ensures var t := ResolveTagNames(s, room, names, limit).0; t.items == s.items && t.nextItem == s.nextItem
    decreases |names|
  {
    if names != [] {
      var (s1, r) := CreateTag(s, room, names[0], limit);
      if r.TagOk? { ResolveKeepsItems(s1, room, names[1..], limit); }
    }
  }

  lemma EntryAdds(s: Store, room: string, e: RawEntry)
    requires IdsBelow(s)
    ensures var (t, r) := ImportEntry(s, room, e);
            IdsBelow(t) && |ItemIds(t, room)| == |ItemIds(s, room)| + if r.Stored? then 1 else 0
  {
    if e.Entry? && ValidateTask(WithTags(e.task)).Some? {
      var input := ValidateTask(WithTags(e.task)).value;
      var (s1, ids) := ResolveTagNames(s, room, input.tagNames, Some(MAX_TAGS));
      hide ValidateTask, WithTags, ResolveTagNames, IdsBelow, CreateItem, ItemIds;
      ResolveKeepsItems(s, room, input.tagNames, Some(MAX_TAGS));
      SameItemIds(s, s1, room);
      CreationCounts(s1, room, input.values.(tagIds := ids), Some(MAX_ITEMS));
    }
  }

  lemma SameItemIds(s: Store, t: Store, room: string)
    requires IdsBelow(s) && t.items == s.items && t.nextItem == s.nextItem
    ensures IdsBelow(t) && ItemIds(t, room) == ItemIds(s, room)
  {
  }

  lemma AddedCounts(s: Store, t: Store, room: string, row: Item)
    requires IdsBelow(s) && row.room == room
    requires t.items == s.items[s.nextItem := row] && t.nextItem == s.nextItem + 1
    ensures IdsBelow(t) && |ItemIds(t, room)| == |ItemIds(s, room)| + 1
  {
    assert s.nextItem !in s.items;
    hide IdsBelow;
    assert ItemIds(t, room) == ItemIds(s, room) + {s.nextItem} && s.nextItem !in ItemIds(s, room);
    BelowGrows(s, t, row);
  }

  lemma BelowGrows(s: Store, t: Store, row: Item)
    requires IdsBelow(s) && t.items == s.items[s.nextItem := row] && t.nextItem == s.nextItem + 1
    ensures IdsBelow(t)
  {
  }

  lemma CreationCounts(s: Store, room: string, v: NewItem, limit: Option<nat>)
    requires IdsBelow(s)
    ensures var (t, r) := CreateItem(s, room, v, limit);
            IdsBelow(t) && |ItemIds(t, room)| == |ItemIds(s, room)| + if r.Created? then 1 else 0
  {
    assert s.nextItem !in s.items;
    hide CreateItem, IdsBelow, ItemIds, LastPosition;
    CreateAddsOneRow(s, room, v, limit);
    var (t, r) := CreateItem(s, room, v, limit);
    if r.Created? { AddedCounts(s, t, room, t.items[s.nextItem]); }
  }

  /** Exactly the stored entries are new items of the room. */
  lemma {:induction false} ImportAdds(s: Store, room: string, es: seq<RawEntry>)
    requires IdsBelow(s)
    ensures var (t, r) := ImportEntries(s, room, es);
            IdsBelow(t) && (r.Imported? ==> |ItemIds(t, room)| == |ItemIds(s, room)| + r.imported)
  {
    if es != [] {
      ImportAdds(s, room, es[..|es| - 1]);
      hide ImportEntry, IdsBelow, ItemIds;
      EntryAdds(ImportEntries(s, room, es[..|es| - 1]).0, room, es[|es| - 1]);
    }
  }

  // ---------------------------------------------------------------- listings

  lemma ColumnPart(s: Store, room: string, status: Status, from: nat)
    requires var n := |ColumnList(s, room, status)|;
             from + n <= |ListIds(s, room)| && ListIds(s, room)[from..from + n] == ColumnList(s, room, status)
    ensures from + |ColumnList(s, room, status)| <= |ListItems(s, room)|
    ensures ListItems(s, room)[from..from + |ColumnList(s, room, status)|] == ColumnViews(s, room, status)
  {
    ListedViews(s, room);
    ColumnAnswers(s, room, status);
    var ids := ColumnList(s, room, status);
    hide ListItems, ColumnViews, ListIds, ColumnList, ViewOf;
    var part := ListIds(s, room)[from..from + |ids|];
    assert forall k: nat | k < |ids| :: part[k] == ListIds(s, room)[from + k];
  }

  /** The listing of a board is that of its columns; a column's answer shows its rows in their order. */
  lemma ListingIsColumns(s: Store, room: string)
    ensures ListItems(s, room) == ColumnViews(s, room, Todo) + ColumnViews(s, room, Doing) + ColumnViews(s, room, Done)
  {
    BoardIsColumns(s, room);
    ListedViews(s, room);
    var a, b := |ColumnList(s, room, Todo)|, |ColumnList(s, room, Doing)|;
    hide *;
    ColumnPart(s, room, Todo, 0);
    ColumnPart(s, room, Doing, a);
    ColumnPart(s, room, Done, a + b);
    ThreeParts(ListItems(s, room), a, b);
  }

  lemma ThreeParts<T>(s: seq<T>, a: nat, b: nat)
    requires a + b <= |s|
    ensures s == s[0..a] + s[a..a + b] + s[a + b..|s|]
  {
  }

  lemma ListedViews(s: Store, room: string)
    ensures var ids, vs := ListIds(s, room), ListItems(s, room);
            |vs| == |ids| && forall k: nat | k < |ids| :: ids[k] in s.items && vs[k] == ViewOf(s, room, ids[k])
  {
    BoardOrderTotal(s);
    assert forall k: nat | k < |ListIds(s, room)| :: ListIds(s, room)[k] in Elements(ListIds(s, room));
  }

  lemma ColumnAnswers(s: Store, room: string, status: Status)
    ensures var ids, vs := ColumnList(s, room, status), ColumnViews(s, room, status);
            |vs| == |ids| && forall k: nat | k < |ids| :: ids[k] in s.items && vs[k] == ViewOf(s, room, ids[k])
  {
    BoardOrderTotal(s);
    assert forall k: nat | k < |ColumnList(s, room, status)| ::
        ColumnList(s, room, status)[k] in Elements(ColumnList(s, room, status));
  }

  /** A successful reorder answers with the column in the requested order, positions and all. */
  lemma ReorderAnswers(s: Store, room: string, status: Status, ids: seq<nat>, k: nat)
    requires ReorderItems(s, room, status, ids).1 && k < |ids|
    ensures var t := ReorderItems(s, room, status, ids).0;
            var vs := ColumnViews(t, room, status);
            |vs| == |ids| && vs[k].id == ids[k] && vs[k].item.position == 100 * (k + 1) && vs[k].item.status == status
  {
    var t := ReorderItems(s, room, status, ids).0;
    ReorderGivesRequestedOrder(s, room, status, ids);
    ReorderChangesRows(s, room, status, ids);
    ColumnAnswers(t, room, status);
    hide ReorderItems, ColumnViews, ColumnList;
    assert ids[k] in Elements(ids);
    InColumn(s, room, status, ids, k);
  }

  lemma InColumn(s: Store, room: string, status: Status, ids: seq<nat>, k: nat)
    requires ReorderItems(s, room, status, ids).1 && k < |ids|
    ensures ids[k] in s.items && s.items[ids[k]].status == status
  {
    assert ids[k] in Elements(ids) && ids[k] in ColumnIds(s, room, status);
  }
}
