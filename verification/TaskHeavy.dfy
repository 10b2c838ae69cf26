/**
 A full board of control characters, which the application can make and whose export it refuses to import.
 Under the default settings: ten tags and two hundred tasks, every text of them six times as long in JSON.
 */
module TaskHeavy {
  import opened Collections
  import opened Ordering
  import opened TaskFile
  import opened TaskImport
  import opened TaskDates
  import opened TaskInvariant
  import opened TaskModel
  import opened TaskText
  import opened Wrappers

  function Controls(n: nat): string {
    seq(n, i => 1 as char)
  }

  /** Ten different names of 40 control characters. */
  function HeavyName(g: nat): string
    requires 1 <= g <= 10
  {
    Controls(39) + [(14 + g) as char]
  }

  predicate OneTo(i: nat, n: nat) {
    1 <= i <= n
  }

  function UpTo(n: nat): set<nat> {
    set i: nat | i <= n && OneTo(i, n)
  }

  lemma {:induction false} UpToCount(n: nat)
    ensures |UpTo(n)| == n
  {
    if n == 0 {
      assert UpTo(0) == {};
    } else {
      UpToCount(n - 1);
      assert forall i: nat :: OneTo(i, n) <==> OneTo(i, n - 1) || i == n;
      assert UpTo(n) == UpTo(n - 1) + {n};
    }
  }

  /** Row `i` of the board: the longest texts, 100 beyond the row before it. */
  function HeavyItem(i: nat): Item {
    Item("r", Controls(200), Some(Controls(500)), Todo, Normal, None, None, 100 * i, 0)
  }

  /** A room with `t` tags and `n` items that carry all of them. */
  function HeavyStore(n: nat, t: nat): Store
    requires t <= 10
  {
    Store(map i | i in UpTo(n) :: HeavyItem(i), map g | g in UpTo(t) :: Tag("r", HeavyName(g)),
          set i, g | i in UpTo(n) && g in UpTo(t) :: (i, g), n + 1, t + 1)
  }

  const HEAVY: Store := HeavyStore(200, 10)

  /** The requests that make it: ten tags, then two hundred times the same task. */
  function HeavyTagOps(t: nat): seq<Op>
    requires t <= 10
  {
    if t == 0 then [] else HeavyTagOps(t - 1) + [OpCreateTag("r", HeavyName(t))]
  }

  const HEAVY_REQUEST: NewItem :=
    NewItem(Controls(200), Controls(500), Todo, Normal, None, None, [1, 2, 3, 4, 5, 6, 7, 8, 9, 10])

  function HeavyOps(n: nat): seq<Op> {
    if n == 0 then HeavyTagOps(10) else HeavyOps(n - 1) + [OpCreateItem("r", HEAVY_REQUEST)]
  }

  lemma ControlsAreLong(n: nat)
    ensures |Controls(n)| == n && AllLong(Controls(n)) && Stripped(Controls(n))
  {
    var s := Controls(n);
    assert forall i: nat | i < |s| :: LongEscape(s[i]) && !IsSpace(s[i]);
  }

  lemma HeavyNameIsLong(g: nat)
    requires 1 <= g <= 10
    ensures |HeavyName(g)| == 40 && AllLong(HeavyName(g)) && NormalizeTagName(HeavyName(g)) == HeavyName(g)
  {
    var n := HeavyName(g);
    assert forall i: nat | i < |n| :: LongEscape(n[i]) && !IsSpace(n[i]);
    assert IsWord(n);
    WordsOfJoin([n]);
    assert JoinWords([n]) == n;
  }

  lemma HeavyNamesDiffer(g: nat, f: nat)
    requires 1 <= g <= 10 && 1 <= f <= 10 && HeavyName(g) == HeavyName(f)
    ensures g == f
  {
    assert HeavyName(g)[39] == (14 + g) as char && HeavyName(f)[39] == (14 + f) as char;
  }

  lemma HeavyTagAdds(t: nat)
    requires t < 10 && DefaultSettings()
    ensures CreateTag(HeavyStore(0, t), "r", HeavyName(t + 1), Some(MAX_TAGS)).0 == HeavyStore(0, t + 1)
  {
    var s, u := HeavyStore(0, t), HeavyStore(0, t + 1);
    UpToCount(t);
    assert TagIds(s, "r") == UpTo(t);
    forall g | g in UpTo(t) ensures HeavyName(g) != HeavyName(t + 1) {
      if HeavyName(g) == HeavyName(t + 1) { HeavyNamesDiffer(g, t + 1); }
    }
    assert FindTag(s, "r", HeavyName(t + 1)) == {};
    hide HeavyName;
    assert s.tags[t + 1 := Tag("r", HeavyName(t + 1))] == u.tags;
  }

  lemma HeavyLast(n: nat)
    ensures LastPosition(HeavyStore(n, 10), "r", Todo) == 100 * n
  {
    var s := HeavyStore(n, 10);
    assert ColumnIds(s, "r", Todo) == UpTo(n);
    if n > 0 { assert n in UpTo(n); } else { assert UpTo(0) == {}; }
  }

  lemma HeavyItemAdds(n: nat)
    requires n < 200 && DefaultSettings()
    ensures CreateItem(HeavyStore(n, 10), "r", HEAVY_REQUEST, Some(MAX_ITEMS)).0 == HeavyStore(n + 1, 10)
  {
    var s, u := HeavyStore(n, 10), HeavyStore(n + 1, 10);
    assert |ItemIds(s, "r")| == n by {
      UpToCount(n);
      assert ItemIds(s, "r") == UpTo(n);
    }
    HeavyLast(n);
    HeavyRows(n);
    HeavyLinks(n);
    hide HeavyStore, HeavyName, Controls, LastPosition, ItemIds;
    assert s.nextItem == n + 1 && u == Store(u.items, s.tags, u.links, n + 2, s.nextTag) by { HeavyCounters(n); }
    assert DateRangeOk(None, None);
  }

  lemma HeavyCounters(n: nat)
    ensures var s, u := HeavyStore(n, 10), HeavyStore(n + 1, 10);
            s.nextItem == n + 1 && u.nextItem == n + 2 && u.tags == s.tags && u.nextTag == s.nextTag
  {
  }

  lemma HeavyRows(n: nat)
    ensures HeavyStore(n, 10).items[n + 1 := HeavyItem(n + 1)] == HeavyStore(n + 1, 10).items
  {
    hide HeavyItem;
  }

  lemma HeavyIds(g: nat)
    ensures g in HEAVY_REQUEST.tagIds <==> g in UpTo(10)
  {
    if g in UpTo(10) {
      assert HEAVY_REQUEST.tagIds[g - 1] == g;
    }
  }

  lemma HeavyLinks(n: nat)
    ensures var s := HeavyStore(n, 10);
            ReplaceTags(s.(items := s.items[n + 1 := HeavyItem(n + 1)], nextItem := n + 2), "r", n + 1,
                        HEAVY_REQUEST.tagIds).links == HeavyStore(n + 1, 10).links
  {
    forall g: nat ensures g in HEAVY_REQUEST.tagIds <==> g in UpTo(10) {
      HeavyIds(g);
    }
    hide HeavyName, Controls, HEAVY_REQUEST, HeavyItem;
  }

  lemma {:induction false} HeavyTagsMade(t: nat)
    requires t <= 10 && DefaultSettings()
    ensures Run(EMPTY, HeavyTagOps(t)) == HeavyStore(0, t)
    ensures forall op | op in HeavyTagOps(t) :: ValidOp(op)
  {
    if t == 0 {
      assert UpTo(0) == {};
      assert HeavyStore(0, 0) == EMPTY;
    } else {
      hide HeavyStore, HeavyName, CreateTag, Run, NormalizeTagName;
      HeavyTagsMade(t - 1);
      HeavyTagAdds(t - 1);
      HeavyNameIsLong(t);
      RunSnoc(EMPTY, HeavyTagOps(t - 1), OpCreateTag("r", HeavyName(t)));
    }
  }

  lemma HeavyRequestIsValid()
    requires DefaultSettings()
    ensures ValidOp(OpCreateItem("r", HEAVY_REQUEST))
  {
    ControlsAreLong(200);
    ControlsAreLong(500);
  }

  lemma HeavyStep(n: nat)
    requires n < 200 && DefaultSettings()
    ensures Step(HeavyStore(n, 10), OpCreateItem("r", HEAVY_REQUEST)) == HeavyStore(n + 1, 10)
  {
    hide HeavyStore, CreateItem, HEAVY_REQUEST;
    HeavyItemAdds(n);
  }

  lemma {:induction false} HeavyItemsMade(n: nat)
    requires n <= 200 && DefaultSettings()
    ensures Run(EMPTY, HeavyOps(n)) == HeavyStore(n, 10)
    ensures forall op | op in HeavyOps(n) :: ValidOp(op)
  {
    if n == 0 {
      HeavyTagsMade(10);
    } else {
      var op := OpCreateItem("r", HEAVY_REQUEST);
      assert HeavyOps(n) == HeavyOps(n - 1) + [op];
      HeavyItemsMade(n - 1);
      HeavyStep(n - 1);
      HeavyRequestIsValid();
      hide *;
      RunSnoc(EMPTY, HeavyOps(n - 1), op);
    }
  }

  /** The board is one that the application can come to, so it meets the invariant. */
  lemma HeavyIsReached()
    requires DefaultSettings()
    ensures (forall op | op in HeavyOps(200) :: ValidOp(op)) && Run(EMPTY, HeavyOps(200)) == HEAVY && Inv(HEAVY)
  {
    HeavyItemsMade(200);
    RunKeepsInvariant(HeavyOps(200));
  }

  lemma HeavyLinked(i: nat)
    requires i in UpTo(200)
    ensures LinkedNames(HEAVY, "r", i) == NamesOf(HEAVY, UpTo(10)) && |NamesOf(HEAVY, UpTo(10))| == 10
  {
    UpToCount(10);
    forall f, g | f in HEAVY.tags && g in HEAVY.tags && HEAVY.tags[f] == HEAVY.tags[g] ensures f == g {
      HeavyNamesDiffer(f, g);
    }
    hide HeavyName, Controls;
    NamesCount(HEAVY, "r", UpTo(10));
  }

  lemma HeavyTags(i: nat)
    requires i in UpTo(200)
    ensures var names := SortedNames(LinkedNames(HEAVY, "r", i));
            |names| == 10 && forall k: nat | k < |names| :: |names[k]| == 40 && AllLong(names[k])
  {
    StringLeTotal();
    HeavyLinked(i);
    hide LinkedNames, AllLong;
    var names := SortedNames(LinkedNames(HEAVY, "r", i));
    AscendingCount(names, StringLe);
    forall k: nat | k < |names| ensures |names[k]| == 40 && AllLong(names[k]) {
      assert names[k] in Elements(names);
      var g :| g in UpTo(10) && HEAVY.tags[g].name == names[k];
      HeavyNameIsLong(g);
    }
  }

  lemma LongQuoted(t: string)
    requires AllLong(t)
    ensures Size(Quoted(t)) >= 6 * |t|
  {
    QuotedSize(t);
    EscapedSize(t);
  }

  /** A task of long escapes only. */
  lemma LongEntry(v: View)
    requires AllLong(v.item.title) && v.item.note.Some? && AllLong(v.item.note.value)
    requires |v.item.title| == 200 && |v.item.note.value| == 500
    requires |v.tags| == 10 && forall k: nat | k < |v.tags| :: |v.tags[k]| == 40 && AllLong(v.tags[k])
    ensures Size(EntryText(v)) >= 6600
  {
    LongQuoted(v.item.title);
    LongQuoted(v.item.note.value);
    MemberSize("title", Quoted(v.item.title));
    MemberSize("note", QuotedOrNull(v.item.note));
    Joined(Member("title", Quoted(v.item.title)), Member("note", QuotedOrNull(v.item.note)));
    LongTags(v.tags);
    Bracketed(Commas(QuotedAll(v.tags)));
    MemberSize("tags", "[" + Commas(QuotedAll(v.tags)) + "]");
    ObjectSize(TextMembers(v), CodeMembers(v), TagMember(v), DateMembers(v), PositionMember(v));
    hide Member, Commas, Quoted, JsonObject, Size;
  }

  lemma LongTags(tags: seq<string>)
    requires |tags| == 10 && forall k: nat | k < |tags| :: |tags[k]| == 40 && AllLong(tags[k])
    ensures Size(Commas(QuotedAll(tags))) >= 2400
  {
    var texts := QuotedAll(tags);
    forall i: nat | i < |texts| ensures 240 <= Size(texts[i]) <= 242 {
      LongQuoted(tags[i]);
      AnyQuoted(tags[i]);
    }
    CommasSize(texts, 240, 242);
  }

  lemma HeavyView(i: nat)
    requires OneTo(i, 200)
    ensures i in HEAVY.items && Size(EntryText(ViewOf(HEAVY, "r", i))) >= 6600
  {
    HeavyTags(i);
    ControlsAreLong(200);
    ControlsAreLong(500);
    LongEntry(ViewOf(HEAVY, "r", i));
  }

  lemma {:induction false} CommasAtLeast(texts: seq<string>, least: nat)
    requires forall i: nat | i < |texts| :: Size(texts[i]) >= least
    ensures Size(Commas(texts)) >= least * |texts|
  {
    if |texts| > 1 {
      CommasAtLeast(texts[1..], least);
      SizeAdd(texts[0] + ",", Commas(texts[1..]));
      SizeAdd(texts[0], ",");
      Distributes(least, least, |texts|);
    }
  }

  lemma ListedView(s: Store, room: string, k: nat)
    requires k < |ListItems(s, room)|
    ensures k < |ListIds(s, room)| && ListIds(s, room)[k] in ItemIds(s, room)
    ensures ListItems(s, room)[k] == ViewOf(s, room, ListIds(s, room)[k])
  {
    BoardOrderTotal(s);
    assert ListIds(s, room)[k] in Elements(ListIds(s, room));
  }

  /** Under the default settings a run of valid requests makes a board whose export the import refuses. */
  lemma HeavyBoardIsTooLarge(at: string)
    requires DefaultSettings() && |at| <= 20
    ensures Run(EMPTY, HeavyOps(200)) == HEAVY && FileSize(HEAVY, "r", at) > MAX_FILE_BYTES
  {
    HeavyIsReached();
    UpToCount(200);
    assert ItemIds(HEAVY, "r") == UpTo(200);
    ListLength(HEAVY, "r");
    hide Inv, Size, EntryText, Commas, ListItems, FileText, HeavyStore, HeavyOps, ItemIds;
    var vs := ListItems(HEAVY, "r");
    var texts := EntryTexts(vs);
    forall k: nat | k < |texts| ensures Size(texts[k]) >= 6600 {
      ListedView(HEAVY, "r", k);
      HeavyView(ListIds(HEAVY, "r")[k]);
    }
    CommasAtLeast(texts, 6600);
    FileParts(vs, at);
  }
}
