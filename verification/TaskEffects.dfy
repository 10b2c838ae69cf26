/** What renaming and deleting do to what a board shows. */
module TaskEffects {
  import opened Wrappers
  import opened Ordering
  import opened TaskModel
  import opened TaskOrder
  import opened TaskInvariant

  lemma NameIsOnly(s: Store, id: nat)
    requires UniqueNames(s) && id in s.tags
    ensures forall g | g in s.tags && g != id && s.tags[g].room == s.tags[id].room :: s.tags[g].name != s.tags[id].name
  {
    forall g | g in s.tags && g != id && s.tags[g].room == s.tags[id].room ensures s.tags[g].name != s.tags[id].name {
      assert s.tags[g] != s.tags[id];
    }
  }

  /** A name in the room other than the tag's own is another tag's. */
  lemma OtherName(s: Store, room: string, id: nat, name: string)
    requires UniqueNames(s) && id in TagIds(s, room)
    ensures FindTag(s, room, name) - {id} != {} <==> name in TagNames(s, room) && name != s.tags[id].name
  {
    NameIsOnly(s, id);
    if name in TagNames(s, room) && name != s.tags[id].name {
      var g :| g in s.tags && s.tags[g].room == room && s.tags[g].name == name;
      assert g in FindTag(s, room, name) - {id};
    }
  }

  lemma RenamedRoom(s: Store, t: Store, room: string, id: nat, name: string, q: string)
    requires UniqueNames(s) && id in TagIds(s, room) && t == s.(tags := s.tags[id := Tag(room, name)])
    ensures TagNames(t, q) == if q == room then TagNames(s, q) - {s.tags[id].name} + {name} else TagNames(s, q)
  {
    NameIsOnly(s, id);
    assert t.tags[id].name == name && t.tags[id].room == room;
    forall x ensures x in TagNames(t, q) <==>
                     x in if q == room then TagNames(s, q) - {s.tags[id].name} + {name} else TagNames(s, q)
    {
      if x in TagNames(s, q) {
        var g :| g in s.tags && s.tags[g].room == q && s.tags[g].name == x;
        assert g != id ==> g in t.tags && t.tags[g] == s.tags[g];
      }
    }
  }

  lemma RenamedItem(s: Store, t: Store, room: string, id: nat, name: string, q: string, i: nat)
    requires UniqueNames(s) && id in TagIds(s, room) && t == s.(tags := s.tags[id := Tag(room, name)])
    ensures LinkedNames(t, q, i) ==
            if q == room && (i, id) in s.links then LinkedNames(s, q, i) - {s.tags[id].name} + {name}
            else LinkedNames(s, q, i)
  {
    NameIsOnly(s, id);
    assert t.tags[id].name == name && t.tags[id].room == room;
    forall x ensures x in LinkedNames(t, q, i) <==>
                     x in if q == room && (i, id) in s.links then LinkedNames(s, q, i) - {s.tags[id].name} + {name}
                          else LinkedNames(s, q, i)
    {
    }
  }

  /**
   A rename succeeds exactly for a tag of the room whose new name no other tag has; then the new name
   replaces the old one in the room and on every item that carries the tag, and nowhere else.
   */
  lemma RenameTagIff(s: Store, room: string, id: nat, name: string, q: string, i: nat)
    requires Inv(s)
    ensures var (t, ok) := RenameTag(s, room, id, name);
            && (ok <==> id in TagIds(s, room) && (name in TagNames(s, room) ==> name == s.tags[id].name))
            && (!ok ==> t == s)
            && (ok ==>
                  && t == s.(tags := t.tags) && t.tags.Keys == s.tags.Keys
                  && TagNames(t, q) == (if q == room then TagNames(s, q) - {s.tags[id].name} + {name}
                                        else TagNames(s, q))
                  && LinkedNames(t, q, i) == (if q == room && (i, id) in s.links
                                              then LinkedNames(s, q, i) - {s.tags[id].name} + {name}
                                              else LinkedNames(s, q, i)))
  {
    var t := RenameTag(s, room, id, name).0;
    assert UniqueNames(s);
    hide UniqueNames, ValidRows, LinksJoin, Quotas, TagNames, LinkedNames;
    if id in TagIds(s, room) {
      OtherName(s, room, id, name);
      if RenameTag(s, room, id, name).1 {
        RenamedRoom(s, t, room, id, name, q);
        RenamedItem(s, t, room, id, name, q, i);
      }
    }
  }

  lemma DeletedNames(s: Store, t: Store, room: string, id: nat, q: string, i: nat)
    requires UniqueNames(s) && id in TagIds(s, room) && t == DeleteTag(s, room, id).0
    ensures TagNames(t, q) == if q == room then TagNames(s, q) - {s.tags[id].name} else TagNames(s, q)
    ensures LinkedNames(t, q, i) == if q == room then LinkedNames(s, q, i) - {s.tags[id].name} else LinkedNames(s, q, i)
  {
    NameIsOnly(s, id);
    forall x ensures x in TagNames(t, q) <==>
                     x in if q == room then TagNames(s, q) - {s.tags[id].name} else TagNames(s, q)
    {
      if x in TagNames(s, q) {
        var g :| g in s.tags && s.tags[g].room == q && s.tags[g].name == x;
        assert g != id ==> g in t.tags && t.tags[g] == s.tags[g];
      }
    }
    forall x ensures x in LinkedNames(t, q, i) <==>
                     x in if q == room then LinkedNames(s, q, i) - {s.tags[id].name} else LinkedNames(s, q, i)
    {
      if x in LinkedNames(s, q, i) && x !in LinkedNames(t, q, i) {
        var g :| g in s.tags && s.tags[g].room == q && (i, g) in s.links && s.tags[g].name == x;
        assert g == id;
      }
    }
  }

  /** Deleting a tag takes its name out of its room and off every item, and changes no item. */
  lemma DeleteTagIff(s: Store, room: string, id: nat, q: string, i: nat)
    requires Inv(s)
    ensures var (t, ok) := DeleteTag(s, room, id);
            && (ok <==> id in TagIds(s, room))
            && (!ok ==> t == s)
            && (ok ==>
                  && t.items == s.items && t.nextItem == s.nextItem && t.nextTag == s.nextTag
                  && TagNames(t, q) == (if q == room then TagNames(s, q) - {s.tags[id].name} else TagNames(s, q))
                  && LinkedNames(t, q, i) ==
                     (if q == room then LinkedNames(s, q, i) - {s.tags[id].name} else LinkedNames(s, q, i)))
  {
    assert UniqueNames(s);
    hide UniqueNames, ValidRows, LinksJoin, Quotas, TagNames, LinkedNames;
    if id in TagIds(s, room) { DeletedNames(s, DeleteTag(s, room, id).0, room, id, q, i); }
  }

  /** The list without the entry `id`. */
  ghost predicate IsWithout(after: seq<nat>, before: seq<nat>, id: nat) {
    exists k: nat :: k < |before| && before[k] == id && after == before[..k] + before[k + 1..]
  }

  lemma WithoutOne(list: seq<nat>, k: nat, le: (nat, nat) -> bool)
    requires k < |list| && Ascending(list, le)
    ensures Ascending(list[..k] + list[k + 1..], le)
            && Elements(list[..k] + list[k + 1..]) == Elements(list) - {list[k]}
  {
    var a, b := list[..k], list[k + 1..];
    assert list == a + [list[k]] + b;
    ElementsConcat(a + [list[k]], b);
    ElementsConcat(a, [list[k]]);
    ElementsConcat(a, b);
    assert list[k] !in Elements(a) && list[k] !in Elements(b);
  }

  lemma ListWithout(s: Store, t: Store, room: string, id: nat)
    requires id in ItemIds(s, room) && t == DeleteItem(s, room, id).0
    ensures IsWithout(ListIds(t, room), ListIds(s, room), id)
  {
    var list := ListIds(s, room);
    assert id in Elements(list);
    var k: nat :| k < |list| && list[k] == id;
    assert ItemIds(t, room) == ItemIds(s, room) - {id};
    BoardOrderTotal(s);
    hide BoardOrder;
    WithoutOne(list, k, BoardOrder(s));
    SortedIs(list[..k] + list[k + 1..], ItemIds(t, room), BoardOrder(s));
    SameOrder(s, t, ItemIds(t, room));
  }

  lemma OtherListStays(s: Store, t: Store, room: string, id: nat, q: string)
    requires id in ItemIds(s, room) && t == DeleteItem(s, room, id).0 && q != room
    ensures ListIds(t, q) == ListIds(s, q)
  {
    assert ItemIds(t, q) == ItemIds(s, q);
    hide BoardOrder;
    SameOrder(s, t, ItemIds(s, q));
  }

  lemma OtherViewStays(s: Store, t: Store, room: string, id: nat, q: string, i: nat)
    requires id in ItemIds(s, room) && t == DeleteItem(s, room, id).0 && i in s.items && i != id
    ensures i in t.items && ViewOf(t, q, i) == ViewOf(s, q, i)
  {
    assert LinkedNames(t, q, i) == LinkedNames(s, q, i);
  }

  /** Deleting an item takes it out of its room's listing; every other item shows as before, in the same order. */
  lemma DeleteItemIff(s: Store, room: string, id: nat, q: string, i: nat)
    ensures var (t, ok) := DeleteItem(s, room, id);
            && (ok <==> id in ItemIds(s, room))
            && (!ok ==> t == s)
            && (ok ==>
                  && t.tags == s.tags && t.nextItem == s.nextItem && t.nextTag == s.nextTag
                  && IsWithout(ListIds(t, room), ListIds(s, room), id)
                  && (q != room ==> ListIds(t, q) == ListIds(s, q))
                  && (i in s.items && i != id ==> i in t.items && ViewOf(t, q, i) == ViewOf(s, q, i)))
  {
    var t := DeleteItem(s, room, id).0;
    hide ListIds, ViewOf, IsWithout;
    if id in ItemIds(s, room) {
      ListWithout(s, t, room, id);
      if q != room { OtherListStays(s, t, room, id, q); }
      if i in s.items && i != id { OtherViewStays(s, t, room, id, q, i); }
    }
  }
}
