/** Exporting a board and importing the file gives the same board back, and exactly when. */
module TaskRoundTrip {
  import opened Collections
  import opened Wrappers
  import opened Ordering
  import opened TaskText
  import opened TaskModel
  import opened TaskOrder
  import opened TaskDates
  import opened TaskInvariant
  import opened TaskFile
  import opened TaskHeavy
  import opened TaskImport

  /** What a board shows of an item: everything but its id, position and version. */
  datatype Content = Content(
    title: string, note: string, status: Status, priority: Priority,
    start: Option<string>, due: Option<string>, tags: seq<string>)

  function ContentOf(v: View): Content {
    Content(v.item.title, v.item.note.GetOr(""), v.item.status, v.item.priority, v.item.start, v.item.due, v.tags)
  }

  function Contents(vs: seq<View>): seq<Content> {
    seq(|vs|, k requires 0 <= k < |vs| => ContentOf(vs[k]))
  }

  /** The names of the tags that items of the room carry. */
  function UsedNames(s: Store, room: string): set<string> {
    set i, g | i in ItemIds(s, room) && g in s.tags && s.tags[g].room == room && (i, g) in s.links :: s.tags[g].name
  }

  // ---------------------------------------------------------------- one entry

  function ItemFor(room: string, v: View, position: int): Item {
    Item(room, v.item.title, Some(v.item.note.GetOr("")), v.item.status, v.item.priority,
         v.item.start, v.item.due, position, 0)
  }

  function ValuesFor(v: View, ids: seq<nat>): NewItem {
    NewItem(v.item.title, v.item.note.GetOr(""), v.item.status, v.item.priority, v.item.start, v.item.due, ids)
  }

  lemma ImportUnfolds(s: Store, room: string, v: View)
    requires ValidItem(v.item) && ValidNames(v.tags)
    ensures ImportEntry(s, room, Entry(ExportTask(v))) == StoreInput(s, room, TaskInput(ValuesFor(v, []), v.tags))
  {
    ExportedTaskValidates(v);
  }

  ghost predicate AddsRow(s: Store, t: Store, room: string, v: View, ids: seq<nat>) {
    && t.tags == s.tags
    && t.items == s.items[s.nextItem := ItemFor(room, v, LastPosition(s, room, v.item.status) + 100)]
    && (forall i, g | i != s.nextItem :: (i, g) in t.links <==> (i, g) in s.links)
    && (forall g :: (s.nextItem, g) in t.links <==> g in ids && g in s.tags && s.tags[g].room == room)
  }

  lemma CreateSucceeds(s: Store, room: string, v: View, ids: seq<nat>)
    requires ValidItem(v.item) && |ItemIds(s, room)| < MAX_ITEMS && s.nextItem !in s.items
    requires LastPosition(s, room, v.item.status) + 100 <= MAX_INT
    ensures var (t, r) := CreateItem(s, room, ValuesFor(v, ids), Some(MAX_ITEMS));
            r == Created(s.nextItem) && AddsRow(s, t, room, v, ids)
  {
    RangeOkIff(v.item.start, v.item.due);
    CreateAddsOneRow(s, room, ValuesFor(v, ids), Some(MAX_ITEMS));
  }

  /** The row, links and tags that a stored entry adds. */
  ghost predicate AddsEntry(s: Store, t: Store, room: string, v: View) {
    && s.nextItem !in s.items
    && t.items == s.items[s.nextItem := ItemFor(room, v, LastPosition(s, room, v.item.status) + 100)]
    && (forall g | g in s.tags :: g in t.tags && t.tags[g] == s.tags[g])
    && TagNames(t, room) == TagNames(s, room) + Elements(v.tags)
    && (forall i, g | i != s.nextItem :: (i, g) in t.links <==> (i, g) in s.links)
    && LinkedNames(t, room, s.nextItem) == Elements(v.tags)
  }

  lemma EntryFacts(s: Store, s1: Store, t: Store, room: string, v: View, ids: seq<nat>)
    requires AddsTags(s, s1) && AreTags(s1, room, ids, v.tags) && s.nextItem !in s.items
    requires TagNames(s1, room) == TagNames(s, room) + Elements(v.tags)
    requires AddsRow(s1, t, room, v, ids)
    ensures AddsEntry(s, t, room, v)
  {
    hide LastPosition, Elements;
    SameItems(s, s1, room, v.item.status);
    NamesOfTags(t, room, s.nextItem, ids, v.tags);
    assert TagNames(t, room) == TagNames(s1, room);
    hide TagNames, LinkedNames, ItemFor;
  }

  lemma InputStores(s: Store, room: string, v: View)
    requires TagTable(s) && s.nextItem !in s.items && ValidItem(v.item)
    requires |TagNames(s, room) + Elements(v.tags)| <= MAX_TAGS && |ItemIds(s, room)| < MAX_ITEMS
    requires LastPosition(s, room, v.item.status) + 100 <= MAX_INT
    ensures var (t, r) := StoreInput(s, room, TaskInput(ValuesFor(v, []), v.tags));
            r == Stored && AddsEntry(s, t, room, v)
  {
    ResolveAll(s, room, v.tags);
    var (s1, ids) := ResolveTagNames(s, room, v.tags, Some(MAX_TAGS));
    SameItems(s, s1, room, v.item.status);
    CreateSucceeds(s1, room, v, ids);
    EntryFacts(s, s1, CreateItem(s1, room, ValuesFor(v, ids), Some(MAX_ITEMS)).0, room, v, ids);
  }

  lemma SameItems(s: Store, t: Store, room: string, status: Status)
    requires t.items == s.items
    ensures ItemIds(t, room) == ItemIds(s, room)
    ensures LastPosition(t, room, status) == LastPosition(s, room, status)
  {
    SameOrder(s, t, ColumnIds(s, room, status));
    assert ColumnIds(t, room, status) == ColumnIds(s, room, status);
  }

  lemma NamesOfTags(t: Store, room: string, item: nat, ids: seq<nat>, names: seq<string>)
    requires AreTags(t, room, ids, names)
    requires forall g :: (item, g) in t.links <==> g in ids && g in t.tags && t.tags[g].room == room
    ensures LinkedNames(t, room, item) == Elements(names)
  {
    forall n | n in Elements(names) ensures n in LinkedNames(t, room, item) {
      var k :| 0 <= k < |names| && names[k] == n;
      assert ids[k] in ids;
    }
    forall n | n in LinkedNames(t, room, item) ensures n in Elements(names) {
      var g :| g in t.tags && t.tags[g].room == room && (item, g) in t.links && t.tags[g].name == n;
      var k :| 0 <= k < |ids| && ids[k] == g;
      assert names[k] == n;
    }
  }

  lemma OtherNames(s: Store, t: Store, room: string, i: nat)
    requires LinksJoin(s)
    requires forall g | g in s.tags :: g in t.tags && t.tags[g] == s.tags[g]
    requires forall g :: (i, g) in t.links <==> (i, g) in s.links
    ensures LinkedNames(t, room, i) == LinkedNames(s, room, i)
  {
  }

  // ---------------------------------------------------------------- the list after one entry

  /** The listed rows of `room` show the same as the views. */
  ghost predicate Shows(s: Store, room: string, vs: seq<View>) {
    var ids := ListIds(s, room);
    && |ids| == |vs| && (forall k | 0 <= k < |ids| :: ids[k] in s.items)
    && forall k | 0 <= k < |ids| :: ContentOf(ViewOf(s, room, ids[k])) == ContentOf(vs[k])
  }

  lemma ListGrows(s: Store, t: Store, room: string, v: View)
    requires AddsEntry(s, t, room, v)
    requires forall i | i in ItemIds(s, room) :: Rank(s.items[i].status) <= Rank(v.item.status)
    ensures ListIds(t, room) == ListIds(s, room) + [s.nextItem]
  {
    var ids, id := ItemIds(s, room), s.nextItem;
    assert ItemIds(t, room) == ids + {id};
    forall i | i in ids ensures Before(t, i, id) {
      assert s.items[i].status == v.item.status ==> i in ColumnIds(s, room, v.item.status);
    }
    AppendLast(s, t, ids, id);
  }

  lemma NewShown(s: Store, t: Store, room: string, v: View)
    requires AddsEntry(s, t, room, v) && Ascending(v.tags, StringLe)
    ensures ContentOf(ViewOf(t, room, s.nextItem)) == ContentOf(v)
  {
    StringLeTotal();
    SortedIs(v.tags, LinkedNames(t, room, s.nextItem), StringLe);
  }

  lemma OldShown(s: Store, t: Store, room: string, v: View, i: nat)
    requires AddsEntry(s, t, room, v) && LinksJoin(s) && i in s.items
    ensures ContentOf(ViewOf(t, room, i)) == ContentOf(ViewOf(s, room, i))
  {
    OtherNames(s, t, room, i);
  }

  lemma ShowsOneMore(s: Store, t: Store, room: string, vs: seq<View>, v: View)
    requires AddsEntry(s, t, room, v) && LinksJoin(s) && Shows(s, room, vs) && Ascending(v.tags, StringLe)
    requires ListIds(t, room) == ListIds(s, room) + [s.nextItem]
    ensures Shows(t, room, vs + [v])
  {
    var ids := ListIds(t, room);
    forall k | 0 <= k < |ids|
      ensures ids[k] in t.items && ContentOf(ViewOf(t, room, ids[k])) == ContentOf((vs + [v])[k])
    {
      if k < |vs| {
        OldShown(s, t, room, v, ids[k]);
      } else {
        NewShown(s, t, room, v);
      }
    }
  }

  // ---------------------------------------------------------------- the whole file

  /** The room holds `n` rows, none beyond position `100 * n` or the column of this rank. */
  ghost predicate Bounded(s: Store, room: string, n: nat, rank: nat) {
    && |ItemIds(s, room)| == n
    && forall i | i in ItemIds(s, room) :: s.items[i].position <= 100 * n && Rank(s.items[i].status) <= rank
  }

  /** The views of a listing: valid rows, valid tags in order, columns in order. */
  ghost predicate Listing(vs: seq<View>) {
    |vs| <= MAX_ITEMS && (forall k | 0 <= k < |vs| :: ValidView(vs[k])) && RanksAscend(vs)
  }

  ghost predicate ValidView(v: View) {
    ValidItem(v.item) && ValidNames(v.tags) && Ascending(v.tags, StringLe)
  }

  ghost predicate RanksAscend(vs: seq<View>) {
    forall j, k | 0 <= j < k < |vs| :: Rank(vs[j].item.status) <= Rank(vs[k].item.status)
  }

  function NamesIn(vs: seq<View>): set<string> {
    set k, n | 0 <= k < |vs| && n in Elements(vs[k].tags) :: n
  }

  lemma LastPositionBound(s: Store, room: string, n: nat, rank: nat, status: Status)
    requires Bounded(s, room, n, rank)
    ensures LastPosition(s, room, status) <= 100 * n
  {
    if ColumnIds(s, room, status) != {} {
      var i :| i in ColumnIds(s, room, status) && s.items[i].position == LastPosition(s, room, status);
      assert i in ItemIds(s, room);
    }
  }

  lemma IdsGrow(s: Store, t: Store, room: string, v: View)
    requires AddsEntry(s, t, room, v)
    ensures s.nextItem !in ItemIds(s, room) && ItemIds(t, room) == ItemIds(s, room) + {s.nextItem}
    ensures forall i | i in ItemIds(s, room) :: t.items[i] == s.items[i]
    ensures var row := t.items[s.nextItem];
            row.status == v.item.status && row.position == LastPosition(s, room, v.item.status) + 100
  {
    hide LastPosition, TagNames, LinkedNames, Elements;
  }

  lemma BoundsGrow(s: Store, t: Store, room: string, n: nat, v: View)
    requires AddsEntry(s, t, room, v) && Bounded(s, room, n, Rank(v.item.status))
    ensures Bounded(t, room, n + 1, Rank(v.item.status))
  {
    IdsGrow(s, t, room, v);
    LastPositionBound(s, room, n, Rank(v.item.status), v.item.status);
    hide AddsEntry, LastPosition, Rank;
  }

  lemma NamesWithin(vs: seq<View>, k: nat)
    requires k < |vs|
    ensures Elements(vs[k].tags) <= NamesIn(vs) && NamesIn(vs[..k]) + Elements(vs[k].tags) == NamesIn(vs[..k + 1])
  {
    forall n | n in NamesIn(vs[..k]) ensures n in NamesIn(vs[..k + 1]) {
      var j :| 0 <= j < k && n in Elements(vs[..k][j].tags);
      assert n in Elements(vs[..k + 1][j].tags);
    }
    forall n | n in Elements(vs[k].tags) ensures n in NamesIn(vs[..k + 1]) {
      assert n in Elements(vs[..k + 1][k].tags);
    }
    forall n | n in NamesIn(vs[..k + 1]) ensures n in NamesIn(vs[..k]) + Elements(vs[k].tags) {
      var j :| 0 <= j < k + 1 && n in Elements(vs[..k + 1][j].tags);
      assert j < k ==> n in Elements(vs[..k][j].tags);
    }
  }

  /** What the invariant says that one more turn of the loop depends on. */
  ghost predicate Ready(s: Store) {
    TagTable(s) && LinksJoin(s) && s.nextItem !in s.items
  }

  ghost predicate StaysReady(s: Store, room: string, es: seq<RawEntry>) {
    forall k | 0 <= k <= |es| :: Ready(ImportEntries(s, room, es[..k]).0)
  }

  lemma ImportStaysReady(s: Store, room: string, es: seq<RawEntry>)
    requires Inv(s)
    ensures StaysReady(s, room, es)
  {
    forall k | 0 <= k <= |es| ensures Ready(ImportEntries(s, room, es[..k]).0) {
      ImportEntriesKeep(s, room, es[..k]);
    }
  }

  function RankAt(vs: seq<View>, k: nat): nat
    requires k <= |vs|
  {
    if k == 0 then 0 else Rank(vs[k - 1].item.status)
  }

  /** What the loop has established after the first `k` entries. */
  ghost predicate Copied(s: Store, t: Store, room: string, vs: seq<View>, k: nat) {
    && k <= |vs| && Shows(t, room, vs[..k]) && Bounded(t, room, k, RankAt(vs, k))
    && TagNames(t, room) == TagNames(s, room) + NamesIn(vs[..k])
  }

  lemma RoomForNext(s: Store, t: Store, room: string, vs: seq<View>, k: nat)
    requires Copied(s, t, room, vs, k) && k < |vs| && |TagNames(s, room) + NamesIn(vs)| <= MAX_TAGS
    ensures |TagNames(t, room) + Elements(vs[k].tags)| <= MAX_TAGS
  {
    NamesWithin(vs, k);
    SubsetCount(TagNames(t, room) + Elements(vs[k].tags), TagNames(s, room) + NamesIn(vs));
  }

  lemma ShowsNext(t: Store, u: Store, room: string, vs: seq<View>, k: nat)
    requires RanksAscend(vs) && k < |vs| && Ascending(vs[k].tags, StringLe)
    requires Shows(t, room, vs[..k]) && Bounded(t, room, k, RankAt(vs, k))
    requires LinksJoin(t) && AddsEntry(t, u, room, vs[k])
    ensures Shows(u, room, vs[..k + 1])
  {
    hide Shows, AddsEntry, LinksJoin;
    assert vs[..k] + [vs[k]] == vs[..k + 1];
    assert ListIds(u, room) == ListIds(t, room) + [t.nextItem] by {
      assert RankAt(vs, k) <= Rank(vs[k].item.status);
      ListGrows(t, u, room, vs[k]);
    }
    ShowsOneMore(t, u, room, vs[..k], vs[k]);
  }

  lemma BoundedNext(t: Store, u: Store, room: string, vs: seq<View>, k: nat)
    requires RanksAscend(vs) && k < |vs| && Bounded(t, room, k, RankAt(vs, k)) && AddsEntry(t, u, room, vs[k])
    ensures Bounded(u, room, k + 1, RankAt(vs, k + 1))
  {
    assert RankAt(vs, k) <= Rank(vs[k].item.status);
    BoundsGrow(t, u, room, k, vs[k]);
  }

  lemma CopyOneMore(s: Store, t: Store, u: Store, room: string, vs: seq<View>, k: nat)
    requires RanksAscend(vs) && k < |vs| && Ascending(vs[k].tags, StringLe)
    requires Copied(s, t, room, vs, k) && LinksJoin(t) && AddsEntry(t, u, room, vs[k])
    ensures Copied(s, u, room, vs, k + 1)
  {
    ShowsNext(t, u, room, vs, k);
    BoundedNext(t, u, room, vs, k);
    NamesWithin(vs, k);
  }

  lemma CopyNext(s: Store, t: Store, room: string, vs: seq<View>, k: nat)
    requires Ready(t) && Listing(vs) && k < |vs| && Copied(s, t, room, vs, k)
    requires |TagNames(s, room) + NamesIn(vs)| <= MAX_TAGS
    ensures var (u, r) := ImportEntry(t, room, Entry(ExportTask(vs[k])));
            r == Stored && Copied(s, u, room, vs, k + 1)
  {
    RoomForNext(s, t, room, vs, k);
    LastPositionBound(t, room, k, RankAt(vs, k), vs[k].item.status);
    InputStores(t, room, vs[k]);
    ImportUnfolds(t, room, vs[k]);
    CopyOneMore(s, t, ImportEntry(t, room, Entry(ExportTask(vs[k]))).0, room, vs, k);
  }

  lemma ImportSnoc(s: Store, room: string, es: seq<RawEntry>, e: RawEntry)
    ensures var (t, r) := ImportEntries(s, room, es);
            r.Imported? && ImportEntry(t, room, e).1.Stored? ==>
              ImportEntries(s, room, es + [e]) == (ImportEntry(t, room, e).0, r.(imported := r.imported + 1))
  {
    hide ImportEntry;
    assert (es + [e])[..|es|] == es;
  }

  /** Importing the entries stores one row for each of the first `k` views and just the tags they name. */
  ghost predicate Copies(s: Store, room: string, es: seq<RawEntry>, vs: seq<View>, k: nat) {
    var (t, r) := ImportEntries(s, room, es);
    r == Imported(k, 0) && Copied(s, t, room, vs, k)
  }

  lemma CopyStep(s: Store, room: string, es: seq<RawEntry>, vs: seq<View>, k: nat)
    requires Ready(ImportEntries(s, room, es).0) && Listing(vs) && k < |vs| && Copies(s, room, es, vs, k)
    requires Fits(s, room, vs)
    ensures Copies(s, room, es + [Entry(ExportTask(vs[k]))], vs, k + 1)
  {
    hide Copied, Listing, Ready, ImportEntries, ImportEntry, ExportTask;
    CopyNext(s, ImportEntries(s, room, es).0, room, vs, k);
    ImportSnoc(s, room, es, Entry(ExportTask(vs[k])));
  }

  ghost predicate Fits(s: Store, room: string, vs: seq<View>) {
    |TagNames(s, room) + NamesIn(vs)| <= MAX_TAGS
  }

  ghost predicate Exports(es: seq<RawEntry>, vs: seq<View>) {
    |es| == |vs| && forall k | 0 <= k < |es| :: es[k] == Entry(ExportTask(vs[k]))
  }

  lemma CopyNothing(s: Store, room: string, es: seq<RawEntry>, vs: seq<View>)
    requires ItemIds(s, room) == {} && Exports(es, vs)
    ensures Copies(s, room, es[..0], vs, 0)
  {
    assert NamesIn(vs[..0]) == {};
  }

  lemma CopyTurn(s: Store, room: string, es: seq<RawEntry>, vs: seq<View>, k: nat)
    requires StaysReady(s, room, es) && Listing(vs) && Exports(es, vs) && k < |vs| && Fits(s, room, vs)
    requires Copies(s, room, es[..k], vs, k)
    ensures Copies(s, room, es[..k + 1], vs, k + 1)
  {
    hide Copies, Listing, Ready, ImportEntries, ExportTask, Fits;
    CopyStep(s, room, es[..k], vs, k);
    assert es[..k + 1] == es[..k] + [es[k]];
  }

  lemma {:induction false} CopyPrefix(s: Store, room: string, es: seq<RawEntry>, vs: seq<View>, k: nat)
    requires StaysReady(s, room, es) && Listing(vs) && Exports(es, vs) && k <= |vs| && Fits(s, room, vs)
    requires ItemIds(s, room) == {}
    ensures Copies(s, room, es[..k], vs, k)
  {
    hide *;
    if k == 0 {
      CopyNothing(s, room, es, vs);
    } else {
      CopyPrefix(s, room, es, vs, k - 1);
      CopyTurn(s, room, es, vs, k - 1);
    }
  }

  // ---------------------------------------------------------------- round trip

  lemma ListIsListing(s: Store, room: string)
    requires Inv(s)
    ensures Listing(ListItems(s, room)) && |ListItems(s, room)| == |ItemIds(s, room)|
  {
    BoardOrderTotal(s);
    StringLeTotal();
    var ids, vs := ListIds(s, room), ListItems(s, room);
    AscendingCount(ids, BoardOrder(s));
    forall k | 0 <= k < |vs| ensures ValidView(vs[k]) {
      assert ids[k] in Elements(ids);
      ViewTags(s, room, ids[k]);
    }
    forall j, k | 0 <= j < k < |vs| ensures Rank(vs[j].item.status) <= Rank(vs[k].item.status) {
      assert ids[j] in Elements(ids) && ids[k] in Elements(ids);
      assert BoardOrder(s)(ids[j], ids[k]);
    }
  }

  lemma ViewNames(s: Store, room: string, k: nat)
    requires k < |ListIds(s, room)|
    ensures var i := ListIds(s, room)[k];
            i in ItemIds(s, room) && Elements(ListItems(s, room)[k].tags) == LinkedNames(s, room, i)
  {
    BoardOrderTotal(s);
    assert ListIds(s, room)[k] in Elements(ListIds(s, room));
    StringLeTotal();
  }

  lemma UsedIsListed(s: Store, room: string, n: string)
    requires n in UsedNames(s, room)
    ensures n in NamesIn(ListItems(s, room))
  {
    var i, g :| i in ItemIds(s, room) && g in s.tags && s.tags[g].room == room
             && (i, g) in s.links && s.tags[g].name == n;
    assert i in Elements(ListIds(s, room));
    var k :| 0 <= k < |ListIds(s, room)| && ListIds(s, room)[k] == i;
    ViewNames(s, room, k);
    assert n in LinkedNames(s, room, i);
  }

  lemma NamesListed(s: Store, room: string)
    ensures NamesIn(ListItems(s, room)) == UsedNames(s, room)
  {
    forall n | n in UsedNames(s, room) ensures n in NamesIn(ListItems(s, room)) {
      UsedIsListed(s, room, n);
    }
    forall n | n in NamesIn(ListItems(s, room)) ensures n in UsedNames(s, room) {
    }
  }

  lemma ShowsIsContents(s: Store, room: string, vs: seq<View>)
    ensures Shows(s, room, vs) <==> Contents(ListItems(s, room)) == Contents(vs)
  {
    var ids := ListIds(s, room);
    assert Elements(ids) == ItemIds(s, room);
    forall k | 0 <= k < |ids|
      ensures ids[k] in s.items && Contents(ListItems(s, room))[k] == ContentOf(ViewOf(s, room, ids[k]))
    {
      assert ids[k] in Elements(ids);
    }
    assert forall k | 0 <= k < |vs| :: Contents(vs)[k] == ContentOf(vs[k]);
    if Contents(ListItems(s, room)) == Contents(vs) {
      assert |ids| == |Contents(vs)| == |vs|;
    }
  }

  lemma SameContentsSameNames(vs: seq<View>, ws: seq<View>)
    requires Contents(vs) == Contents(ws)
    ensures NamesIn(vs) == NamesIn(ws)
  {
    assert |Contents(vs)| == |vs| && |Contents(ws)| == |ws|;
    forall k | 0 <= k < |vs| ensures vs[k].tags == ws[k].tags {
      assert Contents(vs)[k] == Contents(ws)[k];
    }
  }

  /** Enough room for the tags: the import stores every task and the boards show the same. */
  lemma ImportCopies(s: Store, room: string, dst: Store, target: string)
    requires Inv(s) && Inv(dst) && ItemIds(dst, target) == {}
    requires |TagNames(dst, target) + UsedNames(s, room)| <= MAX_TAGS
    ensures var vs := ListItems(s, room);
            var (t, r) := ImportEntries(dst, target, ExportTasks(vs));
            r == Imported(|vs|, 0) && Contents(ListItems(t, target)) == Contents(vs)
  {
    hide Inv, Listing, StaysReady, Bounded, UsedNames, NamesIn, TagNames, ListItems, ImportEntries;
    var vs := ListItems(s, room);
    ListIsListing(s, room);
    NamesListed(s, room);
    ImportStaysReady(dst, target, ExportTasks(vs));
    CopyPrefix(dst, target, ExportTasks(vs), vs, |vs|);
    assert ExportTasks(vs)[..|vs|] == ExportTasks(vs) && vs[..|vs|] == vs;
    ShowsIsContents(ImportEntries(dst, target, ExportTasks(vs)).0, target, vs);
  }

  /** A faithful copy carries every tag name, and the target never holds more than `MAX_TAGS`. */
  lemma CopyNeedsRoom(s: Store, room: string, dst: Store, target: string)
    requires Inv(dst)
    requires var vs := ListItems(s, room);
             Contents(ListItems(ImportEntries(dst, target, ExportTasks(vs)).0, target)) == Contents(vs)
    ensures |TagNames(dst, target) + UsedNames(s, room)| <= MAX_TAGS
  {
    var vs := ListItems(s, room);
    var t := ImportEntries(dst, target, ExportTasks(vs)).0;
    ImportEntriesKeep(dst, target, ExportTasks(vs));
    NamesListed(s, room);
    NamesListed(t, target);
    SameContentsSameNames(ListItems(t, target), vs);
    NamesKept(dst, t, target);
    TagNamesCount(t, target);
    SubsetCount(TagNames(dst, target) + UsedNames(s, room), TagNames(t, target));
  }

  lemma NamesKept(s: Store, t: Store, room: string)
    requires forall g | g in s.tags :: g in t.tags && t.tags[g] == s.tags[g]
    ensures TagNames(s, room) <= TagNames(t, room) && UsedNames(t, room) <= TagNames(t, room)
  {
    forall n | n in TagNames(s, room) ensures n in TagNames(t, room) {
      var g :| g in s.tags && s.tags[g].room == room && s.tags[g].name == n;
      assert g in t.tags && t.tags[g].room == room && t.tags[g].name == n;
    }
  }

  /**
   Exporting a board and importing a file of its tasks into a room without items, in any two stores that
   meet the invariant: every task is stored and the target lists the same contents in the same order,
   exactly when the file is within the size limit and the target can hold its own tags together
   with those the board uses.
   */
  lemma RoundTripOfSize(s: Store, room: string, dst: Store, target: string, size: nat)
    requires Inv(s) && Inv(dst) && ItemIds(dst, target) == {}
    ensures var (t, r) := Import(dst, target, Export(s, room), size);
            r == Imported(|ItemIds(s, room)|, 0) && Contents(ListItems(t, target)) == Contents(ListItems(s, room))
            <==> size <= MAX_FILE_BYTES && |TagNames(dst, target) + UsedNames(s, room)| <= MAX_TAGS
  {
    ListIsListing(s, room);
    var (t, r) := Import(dst, target, Export(s, room), size);
    if size <= MAX_FILE_BYTES {
      assert (t, r) == ImportEntries(dst, target, ExportTasks(ListItems(s, room)));
      if |TagNames(dst, target) + UsedNames(s, room)| <= MAX_TAGS {
        ImportCopies(s, room, dst, target);
      }
      if Contents(ListItems(t, target)) == Contents(ListItems(s, room)) {
        CopyNeedsRoom(s, room, dst, target);
      }
    }
  }

  /** Importing into a room that has neither items nor tags always has the room. */
  lemma FreshRoomHasRoom(s: Store, room: string, dst: Store, target: string)
    requires Inv(s) && TagIds(dst, target) == {}
    ensures |TagNames(dst, target) + UsedNames(s, room)| <= MAX_TAGS
  {
    assert TagNames(dst, target) == NamesOf(dst, TagIds(dst, target));
    assert TagNames(dst, target) + UsedNames(s, room) <= TagNames(s, room);
    TagNamesCount(s, room);
    SubsetCount(TagNames(dst, target) + UsedNames(s, room), TagNames(s, room));
  }

  // ---------------------------------------------------------------- the exported bytes themselves

  /** Importing the export of `room`, written at `at`, into `target`. */
  function Reimport(s: Store, room: string, dst: Store, target: string, at: string): (Store, ImportResult) {
    Import(dst, target, Export(s, room), FileSize(s, room, at))
  }

  /** Nothing was skipped and the target shows the same board. */
  ghost predicate Reproduced(s: Store, room: string, after: (Store, ImportResult), target: string) {
    after.1 == Imported(|ItemIds(s, room)|, 0) && Contents(ListItems(after.0, target)) == Contents(ListItems(s, room))
  }

  /**
   The round trip of the exported bytes: the board is reproduced exactly when they are within the import's
   limit and the target can hold its own tags together with those the board uses.
   */
  lemma RoundTrip(s: Store, room: string, dst: Store, target: string, at: string)
    requires Inv(s) && Inv(dst) && ItemIds(dst, target) == {}
    ensures Reproduced(s, room, Reimport(s, room, dst, target, at), target) <==>
            FileSize(s, room, at) <= MAX_FILE_BYTES && |TagNames(dst, target) + UsedNames(s, room)| <= MAX_TAGS
  {
    hide Inv, Import, FileSize, ListItems, Contents;
    RoundTripOfSize(s, room, dst, target, FileSize(s, room, at));
  }

  /** In an empty room it succeeds for every board without long-escaped control characters. */
  lemma EmptyRoomRoundTrip(s: Store, room: string, dst: Store, target: string, at: string)
    requires Inv(s) && Inv(dst) && ItemIds(dst, target) == {} && TagIds(dst, target) == {} && |at| <= 20
    requires forall k: nat | k < |ListItems(s, room)| :: Short(ListItems(s, room)[k])
    ensures LONGEST_FILE <= MAX_FILE_BYTES || DefaultSettings() ==>
              Reproduced(s, room, Reimport(s, room, dst, target, at), target)
  {
    hide Inv, FileSize, ListItems, Reproduced, Reimport;
    ExportFits(s, room, at);
    FreshRoomHasRoom(s, room, dst, target);
    RoundTrip(s, room, dst, target, at);
  }

  /** A board that requests can make under the default settings, and whose export is refused. */
  lemma HeavyRoundTripFails(at: string)
    requires DefaultSettings() && |at| <= 20
    ensures Run(EMPTY, HeavyOps(200)) == HEAVY && (forall op | op in HeavyOps(200) :: ValidOp(op))
    ensures Reimport(HEAVY, "r", EMPTY, "t", at) == (EMPTY, FileTooLarge)
  {
    HeavyBoardIsTooLarge(at);
    HeavyIsReached();
    hide FileSize;
  }
}
