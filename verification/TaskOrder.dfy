/** The order in which a board is listed, and what creating and reordering items do to it. */
module TaskOrder {
  import opened Wrappers
  import opened Ordering
  import opened TaskModel

  /** Two stores put the ids of a set in the same order when the rows agree on column and position. */
  lemma SameOrder(s: Store, t: Store, ids: set<nat>)
    requires forall i | i in ids :: i in s.items && i in t.items
    requires forall i | i in ids :: s.items[i].status == t.items[i].status && s.items[i].position == t.items[i].position
    ensures TotalOrder(BoardOrder(s)) && TotalOrder(BoardOrder(t))
    ensures Sorted(ids, BoardOrder(s)) == Sorted(ids, BoardOrder(t))
  {
    BoardOrderTotal(s);
    BoardOrderTotal(t);
    var r := Sorted(ids, BoardOrder(s));
    forall i, j | 0 <= i < j < |r| ensures BoardOrder(t)(r[i], r[j]) {
      assert r[i] in Elements(r) && r[j] in Elements(r);
      assert BoardOrder(s)(r[i], r[j]);
    }
    SortedIs(r, ids, BoardOrder(t));
  }

  lemma ColumnFacts(s: Store, room: string, status: Status)
    ensures Elements(ColumnList(s, room, status)) == ColumnIds(s, room, status)
    ensures Ascending(ColumnList(s, room, status), BoardOrder(s))
  {
    BoardOrderTotal(s);
  }

  /** A column is sorted before the columns after it. */
  lemma ColumnsBefore(s: Store, room: string, a: Status, b: Status)
    requires Rank(a) < Rank(b)
    ensures forall i, j | i in ColumnIds(s, room, a) && j in ColumnIds(s, room, b) :: BoardOrder(s)(i, j) && i != j
  {
  }

  /** The list of a room is its three columns, one after the other. */
  lemma BoardIsColumns(s: Store, room: string)
    ensures ListIds(s, room) ==
            ColumnList(s, room, Todo) + ColumnList(s, room, Doing) + ColumnList(s, room, Done)
  {
    var a, b, c := ColumnList(s, room, Todo), ColumnList(s, room, Doing), ColumnList(s, room, Done);
    assert ColumnIds(s, room, Todo) + ColumnIds(s, room, Doing) + ColumnIds(s, room, Done) == ItemIds(s, room);
    hide BoardOrder, ColumnList, ColumnIds, ItemIds, Elements;
    BoardOrderTotal(s);
    ColumnFacts(s, room, Todo);
    ColumnFacts(s, room, Doing);
    ColumnFacts(s, room, Done);
    ColumnsBefore(s, room, Todo, Doing);
    ColumnsBefore(s, room, Todo, Done);
    ColumnsBefore(s, room, Doing, Done);
    ElementsConcat(a, b);
    AscendingConcat(a, b, BoardOrder(s));
    ElementsConcat(a + b, c);
    AscendingConcat(a + b, c, BoardOrder(s));
    SortedIs(a + b + c, ItemIds(s, room), BoardOrder(s));
  }

  /** Adding one row that sorts after a set of rows appends it to their list. */
  lemma AppendLast(s: Store, t: Store, ids: set<nat>, id: nat)
    requires id !in ids && id in t.items
    requires forall i | i in ids :: i in s.items && i in t.items && s.items[i] == t.items[i] && Before(t, i, id)
    ensures TotalOrder(BoardOrder(s)) && TotalOrder(BoardOrder(t))
    ensures Sorted(ids + {id}, BoardOrder(t)) == Sorted(ids, BoardOrder(s)) + [id]
  {
    SameOrder(s, t, ids);
    var r := Sorted(ids, BoardOrder(t));
    ElementsConcat(r, [id]);
    AscendingConcat(r, [id], BoardOrder(t));
    SortedIs(r + [id], ids + {id}, BoardOrder(t));
  }

  /** The one row that a successful create adds; no other row, tag or link changes. */
  lemma CreateAddsOneRow(s: Store, room: string, v: NewItem, limit: Option<nat>)
    requires s.nextItem !in s.items
    ensures var (t, r) := CreateItem(s, room, v, limit);
            if !r.Created? then t == s else
              && r.id == s.nextItem && t.nextItem == s.nextItem + 1 && t.tags == s.tags && t.nextTag == s.nextTag
              && t.items == s.items[r.id := Item(room, v.title, Some(v.note), v.status, v.priority,
                              DateOrNull(v.start), DateOrNull(v.due), LastPosition(s, room, v.status) + 100, 0)]
              && (forall i, g | i != r.id :: (i, g) in t.links <==> (i, g) in s.links)
              && (forall g :: (r.id, g) in t.links <==> g in v.tagIds && g in s.tags && s.tags[g].room == room)
  {
  }

  lemma CreatedSortsLast(s: Store, t: Store, room: string, status: Status, id: nat)
    requires id !in s.items && id in t.items && t.items == s.items[id := t.items[id]]
    requires t.items[id].room == room && t.items[id].status == status
    requires t.items[id].position == LastPosition(s, room, status) + 100
    ensures ColumnList(t, room, status) == ColumnList(s, room, status) + [id]
  {
    var ids := ColumnIds(s, room, status);
    assert ColumnIds(t, room, status) == ids + {id};
    AppendLast(s, t, ids, id);
  }

  lemma OtherColumnStays(s: Store, t: Store, room: string, status: Status, id: nat, q: string, c: Status)
    requires id !in s.items && id in t.items && t.items == s.items[id := t.items[id]]
    requires t.items[id].room == room && t.items[id].status == status && (q, c) != (room, status)
    ensures ColumnList(t, q, c) == ColumnList(s, q, c)
  {
    assert ColumnIds(t, q, c) == ColumnIds(s, q, c);
    SameOrder(s, t, ColumnIds(s, q, c));
  }

  /** A created item is listed last in its column; no other column of any room changes. */
  lemma CreateLandsLast(s: Store, room: string, v: NewItem, limit: Option<nat>)
    requires s.nextItem !in s.items
    ensures var (t, r) := CreateItem(s, room, v, limit);
            r.Created? ==>
              && ColumnList(t, room, v.status) == ColumnList(s, room, v.status) + [r.id]
              && forall q, c | (q, c) != (room, v.status) :: ColumnList(t, q, c) == ColumnList(s, q, c)
  {
    var (t, r) := CreateItem(s, room, v, limit);
    if r.Created? {
      CreateAddsOneRow(s, room, v, limit);
      hide *;
      CreatedSortsLast(s, t, room, v.status, r.id);
      forall q, c | (q, c) != (room, v.status) ensures ColumnList(t, q, c) == ColumnList(s, q, c) {
        OtherColumnStays(s, t, room, v.status, r.id, q, c);
      }
    }
  }

  // ---------------------------------------------------------------- reorder

  lemma {:induction false} RepositionedElsewhere(items: map<nat, Item>, ids: seq<nat>, from: nat, i: nat)
    requires from <= |ids| && (forall j | j in ids :: j in items)
    requires i in items && forall k | from <= k < |ids| :: ids[k] != i
    ensures Repositioned(items, ids, from)[i] == items[i]
    decreases |ids| - from
  {
    if from < |ids| {
      var row := items[ids[from]].(position := (from + 1) * 100, version := items[ids[from]].version + 1);
      RepositionedElsewhere(items[ids[from] := row], ids, from + 1, i);
    }
  }

  lemma {:induction false} RepositionedAt(items: map<nat, Item>, ids: seq<nat>, from: nat, k: nat)
    requires from <= k < |ids| && NoDuplicates(ids) && (forall j | j in ids :: j in items)
    ensures Repositioned(items, ids, from)[ids[k]] ==
            items[ids[k]].(position := (k + 1) * 100, version := items[ids[k]].version + 1)
    decreases |ids| - from
  {
    var row := items[ids[from]].(position := (from + 1) * 100, version := items[ids[from]].version + 1);
    if k == from {
      RepositionedElsewhere(items[ids[from] := row], ids, from + 1, ids[k]);
    } else {
      RepositionedAt(items[ids[from] := row], ids, from + 1, k);
    }
  }

  lemma DistinctSameMultiset(a: seq<nat>, b: seq<nat>)
    requires NoDuplicates(a) && NoDuplicates(b) && Elements(a) == Elements(b)
    ensures multiset(a) == multiset(b)
  {
    DistinctCounts(a);
    DistinctCounts(b);
    forall x: nat ensures multiset(a)[x] == multiset(b)[x] {
      assert x in a <==> x in Elements(a);
      assert x in b <==> x in Elements(b);
    }
  }

  lemma SameMultisetDistinct(a: seq<nat>, b: seq<nat>)
    requires NoDuplicates(a) && multiset(a) == multiset(b)
    ensures NoDuplicates(b)
  {
    DistinctCounts(a);
    forall i, j | 0 <= i < j < |b| ensures b[i] != b[j] {
      assert b == b[..j] + [b[j]] + b[j + 1..];
      assert b[..j][i] == b[i];
      assert b[i] in multiset(b[..j]);
      assert multiset(a)[b[j]] <= 1;
    }
  }

  lemma SameMultisetElements(a: seq<nat>, b: seq<nat>)
    requires multiset(a) == multiset(b)
    ensures Elements(a) == Elements(b)
  {
    forall x: nat ensures x in Elements(a) <==> x in Elements(b) {
      assert x in multiset(a) <==> x in a;
      assert x in multiset(b) <==> x in b;
      assert x in a <==> x in Elements(a);
      assert x in b <==> x in Elements(b);
    }
  }

  lemma DuplicateFreePermutation(s: set<nat>, sorted: seq<nat>, ids: seq<nat>)
    requires Elements(sorted) == s && NoDuplicates(sorted)
    ensures NoDuplicates(ids) && s == Elements(ids) <==> multiset(ids) == multiset(sorted)
  {
    if NoDuplicates(ids) && s == Elements(ids) {
      DistinctSameMultiset(ids, sorted);
    }
    if multiset(ids) == multiset(sorted) {
      SameMultisetDistinct(sorted, ids);
      SameMultisetElements(sorted, ids);
    }
  }

  lemma {:induction false} DistinctCounts(s: seq<nat>)
    requires NoDuplicates(s)
    ensures forall x :: multiset(s)[x] == if x in s then 1 else 0
  {
    if s != [] {
      var n := |s| - 1;
      assert s == s[..n] + [s[n]];
      DistinctCounts(s[..n]);
      assert s[n] !in s[..n];
    }
  }

  lemma ReorderChangesRows(s: Store, room: string, status: Status, ids: seq<nat>)
    requires ReorderItems(s, room, status, ids).1
    ensures var t := ReorderItems(s, room, status, ids).0;
            && t == s.(items := t.items) && t.items.Keys == s.items.Keys
            && (forall i | i in s.items && i !in Elements(ids) :: t.items[i] == s.items[i])
            && forall k | 0 <= k < |ids| :: ids[k] in s.items &&
                 t.items[ids[k]] ==
                 s.items[ids[k]].(position := 100 * (k + 1), version := s.items[ids[k]].version + 1)
  {
    assert forall k | 0 <= k < |ids| :: ids[k] in Elements(ids) && ids[k] in s.items;
    forall i | i in s.items && i !in Elements(ids)
      ensures Repositioned(s.items, ids, 0)[i] == s.items[i]
    {
      RepositionedElsewhere(s.items, ids, 0, i);
    }
    forall k | 0 <= k < |ids|
      ensures Repositioned(s.items, ids, 0)[ids[k]] ==
              s.items[ids[k]].(position := 100 * (k + 1), version := s.items[ids[k]].version + 1)
    {
      RepositionedAt(s.items, ids, 0, k);
    }
  }

  lemma ReorderSortsColumn(s: Store, room: string, status: Status, ids: seq<nat>)
    requires ReorderItems(s, room, status, ids).1
    ensures ColumnList(ReorderItems(s, room, status, ids).0, room, status) == ids
  {
    var t := ReorderItems(s, room, status, ids).0;
    ReorderChangesRows(s, room, status, ids);
    BoardOrderTotal(t);
    assert ColumnIds(t, room, status) == Elements(ids);
    forall i, j | 0 <= i < j < |ids| ensures BoardOrder(t)(ids[i], ids[j]) && ids[i] != ids[j] {
      assert ids[i] in ColumnIds(t, room, status) && ids[j] in ColumnIds(t, room, status);
    }
    SortedIs(ids, Elements(ids), BoardOrder(t));
  }

  lemma ReorderKeepsColumn(s: Store, room: string, status: Status, ids: seq<nat>, q: string, c: Status)
    requires ReorderItems(s, room, status, ids).1 && (q, c) != (room, status)
    ensures ColumnList(ReorderItems(s, room, status, ids).0, q, c) == ColumnList(s, q, c)
  {
    var t := ReorderItems(s, room, status, ids).0;
    ReorderChangesRows(s, room, status, ids);
    assert ColumnIds(t, q, c) == ColumnIds(s, q, c);
    hide Repositioned, NoDuplicates, Before;
    forall i | i in ColumnIds(s, q, c) ensures i !in Elements(ids) {
      assert ColumnIds(s, room, status) == Elements(ids);
    }
    SameOrder(s, t, ColumnIds(s, q, c));
  }

  /**
   Reordering succeeds exactly on a permutation of the column; then the column is listed in the
   requested order and every other column of every room as before.
   */
  lemma ReorderGivesRequestedOrder(s: Store, room: string, status: Status, ids: seq<nat>)
    ensures var (t, ok) := ReorderItems(s, room, status, ids);
            && (ok <==> multiset(ids) == multiset(ColumnList(s, room, status)))
            && (!ok ==> t == s)
            && (ok ==>
                 && ColumnList(t, room, status) == ids
                 && forall q, c | (q, c) != (room, status) :: ColumnList(t, q, c) == ColumnList(s, q, c))
  {
    DuplicateFreePermutation(ColumnIds(s, room, status), ColumnList(s, room, status), ids);
    var (t, ok) := ReorderItems(s, room, status, ids);
    if ok {
      ReorderSortsColumn(s, room, status, ids);
      forall q, c | (q, c) != (room, status) ensures ColumnList(t, q, c) == ColumnList(s, q, c) {
        ReorderKeepsColumn(s, room, status, ids, q, c);
      }
    }
  }
}
