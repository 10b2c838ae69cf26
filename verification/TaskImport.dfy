/** What an import does with its entries: exported tasks validate, tag names resolve, the invariant holds. */
module TaskImport {
  import opened Collections
  import opened Wrappers
  import opened Ordering
  import opened TaskText
  import opened TaskModel
  import opened TaskOrder
  import opened TaskDates
  import opened TaskInvariant

  // ---------------------------------------------------------------- the exported entries validate

  lemma {:induction false} NonEmptyIsAll(names: seq<string>)
    requires forall i | 0 <= i < |names| :: names[i] != ""
    ensures NonEmpty(names) == names
  {
    if names != [] {
      NonEmptyIsAll(names[1..]);
    }
  }

  ghost predicate ValidNames(names: seq<string>) {
    NoDuplicates(names) && |names| <= MAX_TAGS_PER_ITEM && forall i | 0 <= i < |names| :: ValidName(names[i])
  }

  lemma NormalizedIsAll(names: seq<string>)
    requires forall i | 0 <= i < |names| :: ValidName(names[i])
    ensures Normalized(names) == names
  {
  }

  lemma TagsValidate(names: seq<string>)
    requires ValidNames(names)
    ensures NormalizeTagNames(names) == Some(names)
  {
    hide Normalized, NonEmpty, Distinct, NormalizeTagName;
    NormalizedIsAll(names);
    NonEmptyIsAll(names);
    DistinctIsAll(names);
  }

  lemma DateValidates(d: Option<string>)
    requires ValidDate(d)
    ensures NormalizeDate(d) == Some(d)
  {
    if d.Some? { IsoDateIsNormal(d.value); }
  }

  lemma CodesParse(s: Status, p: Priority)
    ensures ParseStatus(Some(StatusText(s))) == Some(s) && ParsePriority(Some(PriorityText(p))) == Some(p)
  {
  }

  lemma ExportedTaskValidates(v: View)
    requires ValidItem(v.item) && ValidNames(v.tags)
    ensures ValidateTask(WithTags(ExportTask(v))) ==
            Some(TaskInput(NewItem(v.item.title, v.item.note.GetOr(""), v.item.status, v.item.priority,
                                   v.item.start, v.item.due, []), v.tags))
  {
    var raw := WithTags(ExportTask(v));
    RangeOkIff(v.item.start, v.item.due);
    assert raw == ExportTask(v);
    assert NormalizeTagNames(raw.tags) == Some(v.tags) by { TagsValidate(v.tags); }
    assert NormalizeTagIds([]) == Some([]);
    assert Strip(raw.title.GetOr("")) == v.item.title by { StripLaws(v.item.title); }
    assert Strip(raw.note.GetOr("")) == v.item.note.GetOr("") by { StripLaws(v.item.note.GetOr("")); }
    assert NormalizeDate(raw.start) == Some(v.item.start) by { DateValidates(v.item.start); }
    assert NormalizeDate(raw.due) == Some(v.item.due) by { DateValidates(v.item.due); }
    CodesParse(v.item.status, v.item.priority);
  }

  /** The names of a set of tags. */
  function NamesOf(s: Store, ids: set<nat>): set<string>
    requires ids <= s.tags.Keys
  {
    set g | g in ids :: s.tags[g].name
  }

  lemma {:induction false} NamesCount(s: Store, room: string, ids: set<nat>)
    requires ids <= s.tags.Keys
    ensures |NamesOf(s, ids)| <= |ids|
    ensures UniqueNames(s) && ids <= TagIds(s, room) ==> |NamesOf(s, ids)| == |ids|
  {
    if ids != {} {
      var a :| a in ids;
      NamesCount(s, room, ids - {a});
      assert NamesOf(s, ids) == NamesOf(s, ids - {a}) + {s.tags[a].name};
    } else {
      assert NamesOf(s, ids) == {};
    }
  }

  lemma {:induction false} AscendingCount<T(!new)>(s: seq<T>, le: (T, T) -> bool)
    requires Ascending(s, le)
    ensures NoDuplicates(s) && |Elements(s)| == |s|
  {
    DistinctLength(s);
  }

  /** The tag names of a listed item are distinct, valid, and at most `MAX_TAGS_PER_ITEM`. */
  lemma ViewTags(s: Store, room: string, i: nat)
    requires Inv(s) && i in s.items
    ensures ValidNames(SortedNames(LinkedNames(s, room, i)))
  {
    StringLeTotal();
    var names := SortedNames(LinkedNames(s, room, i));
    AscendingCount(names, StringLe);
    LinkedNamesCount(s, room, i);
    forall k | 0 <= k < |names| ensures ValidName(names[k]) {
      assert names[k] in Elements(names);
    }
  }

  lemma LinkedNamesCount(s: Store, room: string, i: nat)
    requires Quotas(s)
    ensures |LinkedNames(s, room, i)| <= MAX_TAGS_PER_ITEM
  {
    var ids := set g | g in s.tags && s.tags[g].room == room && (i, g) in s.links;
    NamesCount(s, room, ids);
    assert LinkedNames(s, room, i) == NamesOf(s, ids);
    SubsetCount(ids, LinkedTags(s, i));
  }

  // ---------------------------------------------------------------- resolving tag names

  /** Only tag rows were added. */
  ghost predicate AddsTags(s: Store, t: Store) {
    && t == s.(tags := t.tags, nextTag := t.nextTag)
    && forall g | g in s.tags :: g in t.tags && t.tags[g] == s.tags[g]
  }

  /** The part of the invariant that resolving names depends on. */
  ghost predicate TagTable(s: Store) {
    UniqueNames(s) && forall g | g in s.tags :: g < s.nextTag
  }

  lemma CreateTagAdds(s: Store, room: string, name: string, limit: Option<nat>)
    requires TagTable(s)
    ensures var (t, r) := CreateTag(s, room, name, limit);
            && AddsTags(s, t) && TagTable(t)
            && (r.TagOk? ==> r.id in t.tags && t.tags[r.id] == Tag(room, name))
            && (r.TagOk? ==> TagNames(t, room) == TagNames(s, room) + {name})
            && (r.TagLimit? ==> t == s && name !in TagNames(s, room))
  {
    var (t, r) := CreateTag(s, room, name, limit);
    var found := FindTag(s, room, name);
    if found != {} {
      assert r.id in found;
      assert name in TagNames(s, room);
    } else {
      forall g | g in s.tags && s.tags[g].room == room ensures s.tags[g].name != name {
        assert g !in found;
      }
      if r.TagOk? {
        TagNamesGrow(s, t, room, r.id);
      }
    }
  }

  lemma TagNamesGrow(s: Store, t: Store, room: string, id: nat)
    requires id !in s.tags && id in t.tags && t.tags[id].room == room && t.tags == s.tags[id := t.tags[id]]
    ensures TagNames(t, room) == TagNames(s, room) + {t.tags[id].name}
  {
    forall n | n in TagNames(s, room) ensures n in TagNames(t, room) {
      var g :| g in s.tags && s.tags[g].room == room && s.tags[g].name == n;
      assert g in t.tags && t.tags[g].room == room && t.tags[g].name == n;
    }
  }

  lemma TagNamesCount(s: Store, room: string)
    requires UniqueNames(s)
    ensures |TagNames(s, room)| == |TagIds(s, room)|
  {
    NamesCount(s, room, TagIds(s, room));
    assert TagNames(s, room) == NamesOf(s, TagIds(s, room));
  }

  lemma FirstAndRest(names: seq<string>)
    requires names != []
    ensures Elements(names) == {names[0]} + Elements(names[1..])
  {
    assert names == [names[0]] + names[1..];
    ElementsConcat([names[0]], names[1..]);
  }

  lemma ResolveFirst(s: Store, room: string, names: seq<string>)
    requires TagTable(s) && names != []
    requires |TagNames(s, room) + Elements(names)| <= MAX_TAGS
    ensures var (t, r) := CreateTag(s, room, names[0], Some(MAX_TAGS));
            && r.TagOk? && TagTable(t) && AddsTags(s, t)
            && r.id in t.tags && t.tags[r.id] == Tag(room, names[0])
            && TagNames(t, room) + Elements(names[1..]) == TagNames(s, room) + Elements(names)
  {
    assert UniqueNames(s);
    hide *;
    FirstAndRest(names);
    RoomForOneMore(s, room, names[0], Elements(names));
    CreateTagAdds(s, room, names[0], Some(MAX_TAGS));
  }

  /** The ids are those of tags with these names, in order. */
  ghost predicate AreTags(t: Store, room: string, ids: seq<nat>, names: seq<string>) {
    |ids| == |names| && forall i | 0 <= i < |names| :: ids[i] in t.tags && t.tags[ids[i]] == Tag(room, names[i])
  }

  lemma AreTagsCons(s: Store, t: Store, room: string, id: nat, ids: seq<nat>, names: seq<string>)
    requires names != [] && AddsTags(s, t) && AreTags(t, room, ids, names[1..])
    requires id in s.tags && s.tags[id] == Tag(room, names[0])
    ensures AreTags(t, room, [id] + ids, names)
  {
    forall i | 0 <= i < |names|
      ensures ([id] + ids)[i] in t.tags && t.tags[([id] + ids)[i]] == Tag(room, names[i])
    {
      assert i == 0 || names[i] == names[1..][i - 1];
    }
  }

  /** Names the room can still take are all resolved. */
  lemma {:induction false} ResolveAll(s: Store, room: string, names: seq<string>)
    requires TagTable(s) && |TagNames(s, room) + Elements(names)| <= MAX_TAGS
    ensures var (t, ids) := ResolveTagNames(s, room, names, Some(MAX_TAGS));
            && TagTable(t) && AddsTags(s, t) && AreTags(t, room, ids, names)
            && TagNames(t, room) == TagNames(s, room) + Elements(names)
    decreases |names|
  {
    if names != [] {
      hide TagTable, AddsTags, TagNames;
      ResolveFirst(s, room, names);
      var (s1, r) := CreateTag(s, room, names[0], Some(MAX_TAGS));
      ResolveAll(s1, room, names[1..]);
      var (t, ids) := ResolveTagNames(s1, room, names[1..], Some(MAX_TAGS));
      AreTagsCons(s1, t, room, r.id, ids, names);
    }
  }

  lemma RoomForOneMore(s: Store, room: string, name: string, names: set<string>)
    requires UniqueNames(s) && name in names && |TagNames(s, room) + names| <= MAX_TAGS
    ensures CreateTag(s, room, name, Some(MAX_TAGS)).1.TagOk?
  {
    if FindTag(s, room, name) == {} {
      forall n | n in TagNames(s, room) ensures n != name {
        var g :| g in s.tags && s.tags[g].room == room && s.tags[g].name == n;
        assert g !in FindTag(s, room, name);
      }
      TagNamesCount(s, room);
      SubsetCount(TagNames(s, room) + {name}, TagNames(s, room) + names);
      assert |TagNames(s, room) + {name}| == |TagNames(s, room)| + 1;
    }
  }

  // ---------------------------------------------------------------- any import keeps the invariant

  lemma {:induction false} ResolveKeeps(s: Store, room: string, names: seq<string>)
    requires Inv(s) && forall i | 0 <= i < |names| :: ValidName(names[i])
    ensures var (t, ids) := ResolveTagNames(s, room, names, Some(MAX_TAGS));
            Inv(t) && AddsTags(s, t) && |ids| <= |names|
    decreases |names|
  {
    if names != [] {
      var (s1, r) := CreateTag(s, room, names[0], Some(MAX_TAGS));
      CreateTagKeeps(s, room, names[0]);
      CreateTagAdds(s, room, names[0], Some(MAX_TAGS));
      if r.TagOk? {
        ResolveKeeps(s1, room, names[1..]);
      }
    }
  }

  lemma StoreInputKeeps(s: Store, room: string, input: TaskInput)
    requires Inv(s) && ValidNew(input.values) && |input.tagNames| <= MAX_TAGS_PER_ITEM
    requires forall i | 0 <= i < |input.tagNames| :: ValidName(input.tagNames[i])
    ensures var t := StoreInput(s, room, input).0;
            Inv(t) && forall g | g in s.tags :: g in t.tags && t.tags[g] == s.tags[g]
  {
    var (s1, ids) := ResolveTagNames(s, room, input.tagNames, Some(MAX_TAGS));
    ResolveKeeps(s, room, input.tagNames);
    var v := input.values.(tagIds := ids);
    CreateItemKeeps(s1, room, v);
    CreateAddsOneRow(s1, room, v, Some(MAX_ITEMS));
  }

  lemma ImportEntryKeeps(s: Store, room: string, e: RawEntry)
    requires Inv(s)
    ensures var t := ImportEntry(s, room, e).0;
            Inv(t) && forall g | g in s.tags :: g in t.tags && t.tags[g] == s.tags[g]
  {
    if e.Entry? && ValidateTask(WithTags(e.task)).Some? {
      var input := ValidateTask(WithTags(e.task)).value;
      ValidateTaskIsValid(WithTags(e.task));
      assert forall i | 0 <= i < |input.tagNames| :: input.tagNames[i] in input.tagNames;
      hide Inv, ValidateTask, WithTags, StoreInput, ValidNew, ValidName;
      StoreInputKeeps(s, room, input);
    }
  }

  /** Whatever the file holds, the import leaves a store that meets the invariant and drops no tag. */
  lemma {:induction false} ImportEntriesKeep(s: Store, room: string, es: seq<RawEntry>)
    requires Inv(s)
    ensures var t := ImportEntries(s, room, es).0;
            Inv(t) && forall g | g in s.tags :: g in t.tags && t.tags[g] == s.tags[g]
  {
    if es != [] {
      ImportEntriesKeep(s, room, es[..|es| - 1]);
      var (s0, r0) := ImportEntries(s, room, es[..|es| - 1]);
      ImportEntryKeeps(s0, room, es[|es| - 1]);
    }
  }
}
