/**
 Access grants remembered in a session: per namespace an insertion-ordered dict, cut to the most recently
 granted keys, whose entries collect payload fields.
 */
module RoomAccess {
  import opened Collections
  import opened Wrappers

  type Key = string

  /** A stored field; anything but a string reads as absent. */
  datatype Field = Str(value: string) | Other

  /** An entry is a dict of fields, or a value of the older session format. */
  datatype Entry = Fields(fields: map<string, Field>) | Legacy

  datatype Item = Item(key: Key, entry: Entry)

  /** What the session holds under a namespace. */
  datatype Raw = Absent | Malformed | Dict(items: seq<Item>)

  type Payload = map<string, Option<string>>

  function Keys(items: seq<Item>): set<Key> {
    if items == [] then {} else {items[0].key} + Keys(items[1..])
  }

  /** A dict has each key once. */
  predicate Distinct(items: seq<Item>) {
    items == [] || (items[0].key !in Keys(items[1..]) && Distinct(items[1..]))
  }

  /** The keys that come after `k` in the order. */
  function KeysAfter(items: seq<Item>, k: Key): set<Key> {
    if items == [] then {}
    else if items[0].key == k then Keys(items[1..])
    else KeysAfter(items[1..], k)
  }

  function Find(items: seq<Item>, k: Key): Option<Entry> {
    if items == [] then None
    else if items[0].key == k then Some(items[0].entry)
    else Find(items[1..], k)
  }

  function Pop(items: seq<Item>, k: Key): seq<Item> {
    if items == [] then []
    else if items[0].key == k then items[1..]
    else [items[0]] + Pop(items[1..], k)
  }

  // ---------------------------------------------------------------- granting and revoking

  /** Payload values are stored as strings, `None` as the empty one. */
  function Coerced(payload: Payload): map<string, Field> {
    map f | f in payload :: Str(payload[f].GetOr(""))
  }

  function Merged(existing: Option<Entry>, payload: Payload): Entry {
    Fields((if existing.Some? && existing.value.Fields? then existing.value.fields else map[]) + Coerced(payload))
  }

  /** `items[-max:]`, which is the whole list for 0 and drops the first ones for a negative bound. */
  function Slice(items: seq<Item>, max: int): seq<Item> {
    if max > 0 then (if |items| > max then items[|items| - max..] else items)
    else if -max <= |items| then items[-max..]
    else []
  }

  function Grant(items: seq<Item>, k: Key, payload: Payload, max: int): seq<Item> {
    var entries := Pop(items, k) + [Item(k, Merged(Find(items, k), payload))];
    if |entries| > max then Slice(entries, max) else entries
  }

  // ---------------------------------------------------------------- the order of a dict

  lemma {:induction false} KeysCount(items: seq<Item>)
    requires Distinct(items)
    ensures |Keys(items)| == |items|
  {
    if items != [] {
      KeysCount(items[1..]);
    }
  }

  lemma {:induction false} KeysAt(items: seq<Item>, k: Key)
    ensures k in Keys(items) <==> exists i: nat :: i < |items| && items[i].key == k
  {
    if items != [] {
      KeysAt(items[1..], k);
      if i: nat :| i < |items[1..]| && items[1..][i].key == k {
        assert items[i + 1].key == k;
      }
      if i: nat :| i < |items| && items[i].key == k {
        if i > 0 { assert items[1..][i - 1].key == k; }
      }
    }
  }

  lemma {:induction false} PopKeeps(items: seq<Item>, k: Key)
    requires Distinct(items)
    ensures Distinct(Pop(items, k)) && Keys(Pop(items, k)) == Keys(items) - {k}
  {
    if items != [] && items[0].key != k {
      PopKeeps(items[1..], k);
      assert Pop(items, k)[1..] == Pop(items[1..], k);
    }
  }

  /** Removing a key changes nothing about another one but that the removed one is not after it any more. */
  lemma {:induction false} PopOther(items: seq<Item>, k: Key, other: Key)
    requires Distinct(items) && other != k
    ensures Find(Pop(items, k), other) == Find(items, other)
    ensures KeysAfter(Pop(items, k), other) == KeysAfter(items, other) - {k}
  {
    if items != [] {
      PopKeeps(items[1..], k);
      if items[0].key == k {
        AfterWithin(items[1..], other);
      } else {
        PopOther(items[1..], k, other);
        assert Pop(items, k)[1..] == Pop(items[1..], k);
      }
    }
  }

  lemma {:induction false} AfterWithin(items: seq<Item>, k: Key)
    ensures KeysAfter(items, k) <= Keys(items)
  {
    if items != [] {
      AfterWithin(items[1..], k);
    }
  }

  lemma {:induction false} AppendKeeps(items: seq<Item>, x: Item)
    requires Distinct(items) && x.key !in Keys(items)
    ensures Distinct(items + [x]) && Keys(items + [x]) == Keys(items) + {x.key}
    ensures Find(items + [x], x.key) == Some(x.entry) && KeysAfter(items + [x], x.key) == {}
  {
    if items == [] {
      assert items + [x] == [x];
    } else {
      assert (items + [x])[1..] == items[1..] + [x];
      AppendKeeps(items[1..], x);
    }
  }

  lemma {:induction false} AppendOther(items: seq<Item>, x: Item, other: Key)
    requires other in Keys(items)
    ensures Find(items + [x], other) == Find(items, other)
    ensures KeysAfter(items + [x], other) == KeysAfter(items, other) + {x.key}
  {
    assert (items + [x])[1..] == items[1..] + [x];
    if items[0].key == other {
      AppendKeys(items[1..], x);
    } else {
      AppendOther(items[1..], x, other);
    }
  }

  lemma {:induction false} AppendKeys(items: seq<Item>, x: Item)
    ensures Keys(items + [x]) == Keys(items) + {x.key}
  {
    if items == [] {
      assert items + [x] == [x];
    } else {
      assert (items + [x])[1..] == items[1..] + [x];
      AppendKeys(items[1..], x);
    }
  }

  /** Dropping the first `n` keeps exactly the keys with fewer than all the kept ones after them. */
  lemma {:induction false} DropKeeps(items: seq<Item>, n: nat, k: Key)
    requires Distinct(items) && n <= |items| && k in Keys(items)
    ensures Distinct(items[n..]) && Keys(items[n..]) <= Keys(items)
    ensures k in Keys(items[n..]) <==> |KeysAfter(items, k)| < |items| - n
    ensures k in Keys(items[n..]) ==>
              KeysAfter(items[n..], k) == KeysAfter(items, k) && Find(items[n..], k) == Find(items, k)
  {
    KeysCount(items);
    if n == 0 {
      assert items[0..] == items;
      AfterCount(items, k);
    } else {
      var rest := items[1..];
      assert items[n..] == rest[n - 1..];
      KeysCount(rest);
      DropWithin(rest, n - 1);
      if items[0].key != k { DropKeeps(rest, n - 1, k); }
    }
  }

  lemma {:induction false} DropWithin(items: seq<Item>, n: nat)
    requires Distinct(items) && n <= |items|
    ensures Distinct(items[n..]) && Keys(items[n..]) <= Keys(items)
  {
    if n == 0 {
      assert items[0..] == items;
    } else {
      assert items[n..] == items[1..][n - 1..];
      DropWithin(items[1..], n - 1);
    }
  }

  lemma {:induction false} AfterCount(items: seq<Item>, k: Key)
    requires Distinct(items) && k in Keys(items)
    ensures |KeysAfter(items, k)| < |items|
  {
    KeysCount(items[1..]);
    if items[0].key != k { AfterCount(items[1..], k); }
  }

  // ---------------------------------------------------------------- one grant, one revocation

  /** The dict before the cut. */
  function Uncut(items: seq<Item>, k: Key, payload: Payload): seq<Item> {
    Pop(items, k) + [Item(k, Merged(Find(items, k), payload))]
  }

  lemma UncutKeeps(items: seq<Item>, k: Key, payload: Payload)
    requires Distinct(items)
    ensures Distinct(Uncut(items, k, payload)) && Keys(Uncut(items, k, payload)) == Keys(items) + {k}
    ensures Find(Uncut(items, k, payload), k) == Some(Merged(Find(items, k), payload))
            && KeysAfter(Uncut(items, k, payload), k) == {}
    ensures forall other | other in Keys(items) && other != k ::
              && Find(Uncut(items, k, payload), other) == Find(items, other)
              && KeysAfter(Uncut(items, k, payload), other) == KeysAfter(items, other) + {k}
  {
    PopKeeps(items, k);
    var x := Item(k, Merged(Find(items, k), payload));
    AppendKeeps(Pop(items, k), x);
    forall other | other in Keys(items) && other != k
      ensures Find(Uncut(items, k, payload), other) == Find(items, other)
      ensures KeysAfter(Uncut(items, k, payload), other) == KeysAfter(items, other) + {k}
    {
      PopOther(items, k, other);
      AppendOther(Pop(items, k), x, other);
    }
  }

  /** Another key as it was, with `k` now after it. */
  ghost predicate KeptBefore(items: seq<Item>, after: seq<Item>, other: Key, k: Key) {
    Find(after, other) == Find(items, other) && KeysAfter(after, other) == KeysAfter(items, other) + {k}
  }

  /**
   A grant under a positive bound: the key is the most recent and holds its old fields with the payload
   over them; another key stays, with its entry, exactly when fewer than the bound come after it.
   */
  lemma GrantMeans(items: seq<Item>, k: Key, payload: Payload, max: int)
    requires Distinct(items) && max >= 1
    ensures var after := Grant(items, k, payload, max);
            && Distinct(after) && |after| <= max && Keys(after) <= Keys(items) + {k}
            && Find(after, k) == Some(Merged(Find(items, k), payload)) && KeysAfter(after, k) == {} && k in Keys(after)
            && forall other | other in Keys(items) && other != k ::
                 if |KeysAfter(items, other) + {k}| < max
                 then other in Keys(after) && KeptBefore(items, after, other, k)
                 else other !in Keys(after)
  {
    var entries, after := Uncut(items, k, payload), Grant(items, k, payload, max);
    UncutKeeps(items, k, payload);
    var n := if |entries| > max then |entries| - max else 0;
    assert after == entries[n..];
    DropKeeps(entries, n, k);
    forall other | other in Keys(items) && other != k
      ensures if |KeysAfter(items, other) + {k}| < max then other in Keys(after) && KeptBefore(items, after, other, k)
              else other !in Keys(after)
    {
      DropKeeps(entries, n, other);
      AfterCount(entries, other);
    }
  }

  /** The dict is cut to the bound exactly when the bound is positive: `[-0:]` is everything. */
  lemma GrantCutIff(items: seq<Item>, k: Key, payload: Payload, max: int)
    ensures |Grant(items, k, payload, max)| <= max <==> max >= 1
  {
  }

  lemma SliceRecorded(entries: seq<Item>, k: Key, max: int)
    requires Distinct(entries) && k in Keys(entries) && KeysAfter(entries, k) == {} && max <= 0
    ensures k in Keys(Slice(entries, max)) <==> -max < |entries|
  {
    if -max <= |entries| { DropKeeps(entries, -max, k); }
  }

  /** The granted key itself is kept exactly unless a negative bound cuts the whole dict away. */
  lemma GrantRecordedIff(items: seq<Item>, k: Key, payload: Payload, max: int)
    requires Distinct(items)
    ensures k in Keys(Grant(items, k, payload, max)) <==> -max < |Uncut(items, k, payload)|
  {
    if max >= 1 {
      GrantMeans(items, k, payload, max);
    } else {
      UncutKeeps(items, k, payload);
      SliceRecorded(Uncut(items, k, payload), k, max);
      hide Keys, Distinct, Slice, Find, Pop, KeysAfter;
      assert Grant(items, k, payload, max) == Slice(Uncut(items, k, payload), max);
    }
  }

  // ---------------------------------------------------------------- runs

  datatype Step = Give(key: Key, payload: Payload) | Revoke(key: Key)

  function Apply(items: seq<Item>, a: Step, max: int): seq<Item> {
    match a
    case Give(k, payload) => Grant(items, k, payload, max)
    case Revoke(k) => Pop(items, k)
  }

  function Run(items: seq<Item>, steps: seq<Step>, max: int): seq<Item> {
    if steps == [] then items else Apply(Run(items, steps[..|steps| - 1], max), steps[|steps| - 1], max)
  }

  /** The keys other than `k` granted in a run. */
  function Others(steps: seq<Step>, k: Key): set<Key> {
    if steps == [] then {}
    else
      var a := steps[|steps| - 1];
      Others(steps[..|steps| - 1], k) + if a.Give? && a.key != k then {a.key} else {}
  }

  predicate NoRevoke(steps: seq<Step>) {
    forall i: nat | i < |steps| :: steps[i].Give?
  }

  predicate Untouched(steps: seq<Step>, k: Key) {
    forall i: nat | i < |steps| :: steps[i].key != k
  }

  lemma {:induction false} RunDistinct(items: seq<Item>, steps: seq<Step>, max: int)
    requires Distinct(items) && |items| <= max && max >= 1
    ensures Distinct(Run(items, steps, max)) && |Run(items, steps, max)| <= max
  {
    if steps != [] {
      var before, a := Run(items, steps[..|steps| - 1], max), steps[|steps| - 1];
      RunDistinct(items, steps[..|steps| - 1], max);
      if a.Give? {
        GrantMeans(before, a.key, a.payload, max);
      } else {
        PopKeeps(before, a.key);
        KeysCount(before);
        KeysCount(Pop(before, a.key));
        SubsetCount(Keys(before) - {a.key}, Keys(before));
      }
    }
  }

  /**
   The key of `items` is in `after`, with its entry, while fewer than the bound of keys come `since`; when
   `exact`, only then, and all of those keys are still there.
   */
  ghost predicate Kept(items: seq<Item>, after: seq<Item>, k: Key, since: set<Key>, exact: bool, max: int) {
    && (k in Keys(after) ==> Find(after, k) == Find(items, k) && KeysAfter(after, k) <= since)
    && (|since| < max ==> k in Keys(after))
    && (exact && k in Keys(after) ==> |since| < max && KeysAfter(after, k) == since)
  }

  lemma GiveKeeps(items: seq<Item>, before: seq<Item>, a: Step, k: Key, since: set<Key>, exact: bool, max: int)
    requires Distinct(before) && max >= 1 && a.Give? && a.key != k && Kept(items, before, k, since, exact, max)
    ensures Kept(items, Apply(before, a, max), k, since + {a.key}, exact, max)
  {
    hide Grant, Distinct, Find, KeysAfter, Keys;
    GrantMeans(before, a.key, a.payload, max);
    SubsetCount(since, since + {a.key});
    SubsetCount(KeysAfter(before, k) + {a.key}, KeysAfter(before, k) + since + {a.key});
    if k in Keys(before) {
      assert KeysAfter(before, k) + since + {a.key} == since + {a.key};
    }
  }

  lemma RevokeKeeps(items: seq<Item>, before: seq<Item>, a: Step, k: Key, since: set<Key>, max: int)
    requires Distinct(before) && a.Revoke? && a.key != k && Kept(items, before, k, since, false, max)
    ensures Kept(items, Apply(before, a, max), k, since, false, max)
  {
    PopKeeps(before, a.key);
    PopOther(before, a.key, k);
  }

  lemma KeptAtFirst(items: seq<Item>, k: Key, exact: bool, max: int)
    requires Distinct(items) && |items| <= max && k in Keys(items)
    ensures Kept(items, items, k, KeysAfter(items, k), exact, max)
  {
    AfterCount(items, k);
  }

  lemma StepKept(items: seq<Item>, before: seq<Item>, a: Step, k: Key, since: set<Key>, exact: bool, max: int)
    requires Distinct(before) && max >= 1 && a.key != k && Kept(items, before, k, since, exact, max)
    requires exact ==> a.Give?
    ensures Kept(items, Apply(before, a, max), k, if a.Give? then since + {a.key} else since, exact, max)
  {
    if a.Give? {
      hide Kept, Distinct, Apply;
      GiveKeeps(items, before, a, k, since, exact, max);
    } else {
      RevokeKeeps(items, before, a, k, since, max);
    }
  }

  /**
   A key not granted or revoked again stays, with its entry, while fewer than the bound of other keys have
   been granted since; without revocations it stays exactly then.
   */
  lemma {:induction false} RunKeeps(items: seq<Item>, steps: seq<Step>, k: Key, exact: bool, max: int)
    requires Distinct(items) && |items| <= max && max >= 1 && k in Keys(items) && Untouched(steps, k)
    requires exact ==> NoRevoke(steps)
    ensures Kept(items, Run(items, steps, max), k, KeysAfter(items, k) + Others(steps, k), exact, max)
  {
    if steps == [] {
      KeptAtFirst(items, k, exact, max);
      hide Kept, KeysAfter;
      assert KeysAfter(items, k) + Others(steps, k) == KeysAfter(items, k);
    } else {
      var front, a := steps[..|steps| - 1], steps[|steps| - 1];
      RunKeeps(items, front, k, exact, max);
      RunDistinct(items, front, max);
      var since := KeysAfter(items, k) + Others(front, k);
      assert a.key != k && (exact ==> a.Give?);
      hide Kept, Distinct, KeysAfter, Keys, Apply;
      StepKept(items, Run(items, front, max), a, k, since, exact, max);
      assert KeysAfter(items, k) + Others(steps, k) == if a.Give? then since + {a.key} else since;
    }
  }

  /** The recency guarantee, from one grant of a key to a later moment. */
  lemma RecentGrantsStay(items: seq<Item>, k: Key, payload: Payload, steps: seq<Step>, max: int)
    requires Distinct(items) && max >= 1 && Untouched(steps, k)
    ensures var after := Run(Grant(items, k, payload, max), steps, max);
            && |after| <= max
            && (|Others(steps, k)| < max ==> Find(after, k) == Some(Merged(Find(items, k), payload)))
            && (NoRevoke(steps) ==> (k in Keys(after) <==> |Others(steps, k)| < max))
  {
    var granted := Grant(items, k, payload, max);
    GrantMeans(items, k, payload, max);
    RunKeeps(granted, steps, k, NoRevoke(steps), max);
    RunDistinct(granted, steps, max);
    assert KeysAfter(granted, k) + Others(steps, k) == Others(steps, k);
  }

  /** The last step of a run that concerns the key is a grant. */
  predicate Standing(steps: seq<Step>, k: Key) {
    steps != [] &&
    (if steps[|steps| - 1].key == k then steps[|steps| - 1].Give? else Standing(steps[..|steps| - 1], k))
  }

  /** The other keys granted after that step. */
  function Since(steps: seq<Step>, k: Key): set<Key> {
    if steps == [] || steps[|steps| - 1].key == k then {}
    else
      var a := steps[|steps| - 1];
      Since(steps[..|steps| - 1], k) + if a.Give? then {a.key} else {}
  }

  /** What a dict tells about a key; `exact` when nothing has been revoked. */
  ghost predicate Remembers(items: seq<Item>, k: Key, standing: bool, since: set<Key>, exact: bool, max: int) {
    && (k in Keys(items) ==> standing && KeysAfter(items, k) <= since)
    && (standing && |since| < max ==> k in Keys(items))
    && (exact && k in Keys(items) ==> |since| < max && KeysAfter(items, k) == since)
  }

  lemma OtherStepRemembers(items: seq<Item>, a: Step, k: Key, standing: bool, since: set<Key>, exact: bool, max: int)
    requires Distinct(items) && max >= 1 && a.key != k && (exact ==> a.Give?)
    requires Remembers(items, k, standing, since, exact, max)
    ensures Remembers(Apply(items, a, max), k, standing, since + (if a.Give? then {a.key} else {}), exact, max)
  {
    hide Grant, Distinct, Find, KeysAfter, Keys;
    if a.Give? {
      GrantMeans(items, a.key, a.payload, max);
      SubsetCount(since, since + {a.key});
      SubsetCount(KeysAfter(items, k) + {a.key}, KeysAfter(items, k) + since + {a.key});
      if k in Keys(items) {
        assert KeysAfter(items, k) + since + {a.key} == since + {a.key};
      }
    } else {
      PopKeeps(items, a.key);
      PopOther(items, a.key, k);
      assert since + {} == since;
    }
  }

  lemma OwnStepRemembers(items: seq<Item>, a: Step, k: Key, exact: bool, max: int)
    requires Distinct(items) && max >= 1 && a.key == k
    ensures Remembers(Apply(items, a, max), k, a.Give?, {}, exact, max)
  {
    if a.Give? {
      GrantMeans(items, k, a.payload, max);
    } else {
      PopKeeps(items, k);
    }
  }

  lemma {:induction false} RunRemembers(steps: seq<Step>, k: Key, exact: bool, max: int)
    requires max >= 1 && (exact ==> NoRevoke(steps))
    ensures Remembers(Run([], steps, max), k, Standing(steps, k), Since(steps, k), exact, max)
  {
    if steps != [] {
      var front, a := steps[..|steps| - 1], steps[|steps| - 1];
      RunDistinct([], front, max);
      RunRemembers(front, k, exact, max);
      assert exact ==> a.Give?;
      hide Remembers, Distinct, Apply;
      if a.key == k {
        OwnStepRemembers(Run([], front, max), a, k, exact, max);
      } else {
        OtherStepRemembers(Run([], front, max), a, k, Standing(front, k), Since(front, k), exact, max);
      }
    }
  }

  /**
   After any run from an empty session, access is recorded only for keys granted and not revoked since; it
   is recorded for such a key while fewer than the bound of others have been granted since; and in a run
   without revocations exactly then.
   */
  lemma AccessAfterRun(steps: seq<Step>, k: Key, max: int)
    requires max >= 1
    ensures var recorded := k in Keys(Run([], steps, max));
            && (recorded ==> Standing(steps, k))
            && (Standing(steps, k) && |Since(steps, k)| < max ==> recorded)
            && (NoRevoke(steps) ==> (recorded <==> Standing(steps, k) && |Since(steps, k)| < max))
  {
    RunRemembers(steps, k, NoRevoke(steps), max);
  }

  /** When the key was last granted in a run, or -1. */
  function LastGrant(steps: seq<Step>, k: Key): int {
    if steps == [] then -1
    else if steps[|steps| - 1] == Revoke(k) || steps[|steps| - 1].key != k then LastGrant(steps[..|steps| - 1], k)
    else |steps| - 1
  }

  lemma {:induction false} LastGrantBound(steps: seq<Step>, k: Key)
    ensures -1 <= LastGrant(steps, k) < |steps|
  {
    if steps != [] {
      LastGrantBound(steps[..|steps| - 1], k);
    }
  }

  /** A dict built from nothing is in the order of the last grants. */
  lemma {:induction false} RecencyOrder(steps: seq<Step>, a: Key, b: Key, max: int)
    requires max >= 1 && a in Keys(Run([], steps, max)) && b in KeysAfter(Run([], steps, max), a)
    ensures LastGrant(steps, a) < LastGrant(steps, b)
  {
    if steps != [] {
      var front, last := steps[..|steps| - 1], steps[|steps| - 1];
      var before := Run([], front, max);
      RunDistinct([], front, max);
      LastGrantBound(front, a);
      if last.Give? {
        GrantMeans(before, last.key, last.payload, max);
        if b != last.key { RecencyOrder(front, a, b, max); }
      } else {
        PopKeeps(before, last.key);
        PopOther(before, last.key, a);
        RecencyOrder(front, a, b, max);
      }
    }
  }

  // ---------------------------------------------------------------- payload fields

  function FieldOf(items: seq<Item>, k: Key, f: string): Option<Field> {
    var entry := Find(items, k);
    if entry.Some? && entry.value.Fields? && f in entry.value.fields then Some(entry.value.fields[f]) else None
  }

  /** The key is in the dict before and after every step. */
  predicate Present(items: seq<Item>, steps: seq<Step>, k: Key, max: int) {
    k in Keys(Run(items, steps, max)) && (steps == [] || Present(items, steps[..|steps| - 1], k, max))
  }

  /** The value a run's grants last gave the field, or the one it had. */
  function LastGiven(was: Option<Field>, steps: seq<Step>, k: Key, f: string): Option<Field> {
    if steps == [] then was
    else
      var a := steps[|steps| - 1];
      if a.Give? && a.key == k && f in a.payload then Some(Str(a.payload[f].GetOr("")))
      else LastGiven(was, steps[..|steps| - 1], k, f)
  }

  /** A field keeps its last given value through every re-grant until its key is evicted or revoked. */
  lemma {:induction false} FieldSurvives(items: seq<Item>, steps: seq<Step>, k: Key, f: string, max: int)
    requires Distinct(items) && |items| <= max && max >= 1 && Present(items, steps, k, max)
    ensures FieldOf(Run(items, steps, max), k, f) == LastGiven(FieldOf(items, k, f), steps, k, f)
  {
    if steps != [] {
      var front := steps[..|steps| - 1];
      FieldSurvives(items, front, k, f, max);
      RunDistinct(items, front, max);
      FrontPresent(items, front, k, max);
      FrontPresent(items, steps, k, max);
      hide FieldOf, Present, Distinct, Keys, Apply;
      FieldKept(Run(items, front, max), steps[|steps| - 1], k, f, max);
    }
  }

  /** One step that keeps the key: only a grant of it that names the field changes the field. */
  lemma FieldKept(items: seq<Item>, a: Step, k: Key, f: string, max: int)
    requires Distinct(items) && max >= 1 && k in Keys(items) && k in Keys(Apply(items, a, max))
    ensures FieldOf(Apply(items, a, max), k, f) ==
            if a.Give? && a.key == k && f in a.payload then Some(Str(a.payload[f].GetOr("")))
            else FieldOf(items, k, f)
  {
    hide Find, Keys, KeysAfter, Distinct, Grant, Pop;
    if a.Give? {
      GrantMeans(items, a.key, a.payload, max);
    } else {
      PopKeeps(items, a.key);
      PopOther(items, a.key, k);
    }
  }

  lemma FrontPresent(items: seq<Item>, steps: seq<Step>, k: Key, max: int)
    requires Present(items, steps, k, max)
    ensures k in Keys(Run(items, steps, max))
  {
  }

  // ---------------------------------------------------------------- the namespaces of a session

  type Spaces = map<string, Raw>

  /** The dict under a namespace; a missing or malformed one counts as empty. */
  function Entries(spaces: Spaces, namespace: string): seq<Item> {
    if namespace in spaces && spaces[namespace].Dict? then spaces[namespace].items else []
  }

  /** `has_access`. */
  predicate Has(spaces: Spaces, namespace: string, k: Key) {
    k in Keys(Entries(spaces, namespace))
  }

  /** `get_access_field`: the stored string, or the default for anything else. */
  function FieldText(spaces: Spaces, namespace: string, k: Key, f: string, default: string): string {
    var field := FieldOf(Entries(spaces, namespace), k, f);
    if field.Some? && field.value.Str? then field.value.value else default
  }

  /** A grant or a revocation in a namespace; revoking an absent key writes nothing. */
  datatype Call = Call(namespace: string, step: Step)

  function Called(spaces: Spaces, c: Call, max: int): Spaces {
    if c.step.Revoke? && !Has(spaces, c.namespace, c.step.key) then spaces
    else spaces[c.namespace := Dict(Apply(Entries(spaces, c.namespace), c.step, max))]
  }

  function AfterCalls(calls: seq<Call>, max: int): Spaces {
    if calls == [] then map[] else Called(AfterCalls(calls[..|calls| - 1], max), calls[|calls| - 1], max)
  }

  /** The steps of one namespace. */
  function StepsIn(calls: seq<Call>, namespace: string): seq<Step> {
    if calls == [] then []
    else
      var front, c := StepsIn(calls[..|calls| - 1], namespace), calls[|calls| - 1];
      if c.namespace == namespace then front + [c.step] else front
  }

  lemma {:induction false} PopAbsent(items: seq<Item>, k: Key)
    ensures k !in Keys(items) ==> Pop(items, k) == items
  {
    if items != [] {
      PopAbsent(items[1..], k);
    }
  }

  /** What a namespace holds after its own steps. */
  ghost predicate Follows(spaces: Spaces, namespace: string, steps: seq<Step>, max: int) {
    && (namespace in spaces <==> exists i: nat :: i < |steps| && steps[i].Give?)
    && (namespace in spaces ==> spaces[namespace].Dict? && spaces[namespace].items == Run([], steps, max))
    && (namespace !in spaces ==> Run([], steps, max) == [])
  }

  lemma CalledFollows(spaces: Spaces, steps: seq<Step>, c: Call, max: int)
    requires Follows(spaces, c.namespace, steps, max)
    ensures Follows(Called(spaces, c, max), c.namespace, steps + [c.step], max)
  {
    var items := Run([], steps, max);
    assert (steps + [c.step])[..|steps|] == steps && (steps + [c.step])[|steps|] == c.step;
    assert Run([], steps + [c.step], max) == Apply(items, c.step, max);
    assert forall i: nat | i < |steps| :: (steps + [c.step])[i] == steps[i];
    assert Entries(spaces, c.namespace) == items;
    hide Run, Pop, Grant, Keys;
    PopAbsent(items, c.step.key);
  }

  lemma {:induction false} CallsFollow(calls: seq<Call>, namespace: string, max: int)
    ensures Follows(AfterCalls(calls, max), namespace, StepsIn(calls, namespace), max)
  {
    if calls != [] {
      var front, c := calls[..|calls| - 1], calls[|calls| - 1];
      CallsFollow(front, namespace, max);
      if c.namespace == namespace {
        hide Follows, Called;
        CalledFollows(AfterCalls(front, max), StepsIn(front, namespace), c, max);
      }
    }
  }

  /** A namespace that nothing was granted in holds nothing; any other holds the dict that its own steps make. */
  lemma SpacesFollow(calls: seq<Call>, namespace: string, max: int)
    ensures var spaces, steps := AfterCalls(calls, max), StepsIn(calls, namespace);
            && (namespace in spaces <==> exists i: nat :: i < |steps| && steps[i].Give?)
            && (namespace in spaces ==> spaces[namespace].Dict? && spaces[namespace].items == Run([], steps, max))
            && (namespace !in spaces ==> Run([], steps, max) == [])
  {
    CallsFollow(calls, namespace, max);
    hide AfterCalls, StepsIn, Run;
  }

  /**
   After any grants and revocations on a new session, in whatever namespaces, access to a key is recorded
   only if it was granted in that namespace and not revoked there since; it is recorded for such a key while
   fewer than the bound of others were granted there since; and without revocations exactly then.
   */
  lemma SessionAccess(calls: seq<Call>, namespace: string, k: Key, max: int)
    requires max >= 1
    ensures var recorded, steps := Has(AfterCalls(calls, max), namespace, k), StepsIn(calls, namespace);
            && (recorded ==> Standing(steps, k))
            && (Standing(steps, k) && |Since(steps, k)| < max ==> recorded)
            && (NoRevoke(steps) ==> (recorded <==> Standing(steps, k) && |Since(steps, k)| < max))
  {
    SpacesFollow(calls, namespace, max);
    AccessAfterRun(StepsIn(calls, namespace), k, max);
  }

  lemma GrantFields(items: seq<Item>, k: Key, payload: Payload, f: string, max: int)
    requires Distinct(items) && max >= 1
    ensures FieldOf(Grant(items, k, payload, max), k, f) ==
            if f in payload then Some(Str(if payload[f].Some? then payload[f].value else "")) else FieldOf(items, k, f)
    ensures k in Keys(Grant(items, k, payload, max))
  {
    hide Find, Keys, KeysAfter, Distinct, Grant;
    GrantMeans(items, k, payload, max);
  }

  lemma CalledReads(spaces: Spaces, c: Call, max: int)
    ensures Entries(Called(spaces, c, max), c.namespace) == Apply(Entries(spaces, c.namespace), c.step, max)
    ensures Called(spaces, c, max) - {c.namespace} == spaces - {c.namespace}
  {
    if c.step.Revoke? { PopAbsent(Entries(spaces, c.namespace), c.step.key); }
  }

  /** A granted key is seen at once, with the payload's fields as text; other namespaces stay. */
  lemma GrantedIsSeen(spaces: Spaces, namespace: string, k: Key, payload: Payload, f: string, default: string, max: int)
    requires max >= 1 && (namespace in spaces && spaces[namespace].Dict? ==> Distinct(spaces[namespace].items))
    ensures var after := Called(spaces, Call(namespace, Give(k, payload)), max);
            && Has(after, namespace, k)
            && FieldText(after, namespace, k, f, default) ==
               (if f !in payload then FieldText(spaces, namespace, k, f, default)
                else if payload[f].Some? then payload[f].value else "")
            && after - {namespace} == spaces - {namespace}
  {
    var c := Call(namespace, Give(k, payload));
    assert Distinct(Entries(spaces, namespace));
    hide Called, Entries, Grant, FieldOf, Distinct, Keys;
    CalledReads(spaces, c, max);
    GrantFields(Entries(spaces, namespace), k, payload, f, max);
  }

  /** A revoked key is not seen any more, and nothing else changes for the others. */
  lemma RevokedIsUnseen(spaces: Spaces, namespace: string, k: Key, other: Key, f: string, default: string, max: int)
    requires namespace in spaces && spaces[namespace].Dict? ==> Distinct(spaces[namespace].items)
    ensures var after := Called(spaces, Call(namespace, Revoke(k)), max);
            && !Has(after, namespace, k) && FieldText(after, namespace, k, f, default) == default
            && (other != k ==>
                  && (Has(after, namespace, other) <==> Has(spaces, namespace, other))
                  && FieldText(after, namespace, other, f, default) == FieldText(spaces, namespace, other, f, default))
  {
    PopKeeps(Entries(spaces, namespace), k);
    AbsentFinds(Called(spaces, Call(namespace, Revoke(k)), max), namespace, k);
    if other != k { PopOther(Entries(spaces, namespace), k, other); }
  }

  lemma AbsentFinds(spaces: Spaces, namespace: string, k: Key)
    requires !Has(spaces, namespace, k)
    ensures Find(Entries(spaces, namespace), k) == None
  {
    FindAbsent(Entries(spaces, namespace), k);
  }

  lemma {:induction false} FindAbsent(items: seq<Item>, k: Key)
    requires k !in Keys(items)
    ensures Find(items, k) == None
  {
    if items != [] {
      FindAbsent(items[1..], k);
    }
  }

  // ---------------------------------------------------------------- the session, step by step

  class Session {
    var spaces: Spaces

    constructor ()
      ensures spaces == map[]
    {
      spaces := map[];
    }

    method GrantAccess(namespace: string, k: Key, payload: Payload, max: int)
      modifies this
      ensures spaces == Called(old(spaces), Call(namespace, Give(k, payload)), max)
    {
      var entries := Entries(spaces, namespace);
      hide Entries, Find, Pop, Slice;
      var existing := Find(entries, k);
      entries := Pop(entries, k);
      var entry := if existing.Some? && existing.value.Fields? then existing.value.fields else map[];
      if payload != map[] {
        entry := entry + Coerced(payload);
      }
      assert payload == map[] ==> entry + Coerced(payload) == entry;
      entries := entries + [Item(k, Fields(entry))];
      if |entries| > max {
        entries := Slice(entries, max);
      }
      spaces := spaces[namespace := Dict(entries)];
    }

    /** True exactly for the keys of the dict under the namespace; `SessionAccess` says which those are. */
    method HasAccess(namespace: string, k: Key) returns (r: bool)
      ensures r == Has(spaces, namespace, k)
      ensures r <==>
              && namespace in spaces && spaces[namespace].Dict?
              && exists i: nat :: i < |spaces[namespace].items| && spaces[namespace].items[i].key == k
    {
      KeysAt(Entries(spaces, namespace), k);
      r := k in Keys(Entries(spaces, namespace));
    }

    method GetAccessField(namespace: string, k: Key, f: string, default: string) returns (r: string)
      ensures r == FieldText(spaces, namespace, k, f, default)
    {
      var entry := Find(Entries(spaces, namespace), k);
      if entry.None? || entry.value.Legacy? || entry.value.fields == map[] {
        return default;
      }
      if f in entry.value.fields && entry.value.fields[f].Str? {
        return entry.value.fields[f].value;
      }
      return default;
    }

    method RevokeAccess(namespace: string, k: Key)
      modifies this
      ensures forall max :: spaces == Called(old(spaces), Call(namespace, Revoke(k)), max)
    {
      var entries := Entries(spaces, namespace);
      if k in Keys(entries) {
        spaces := spaces[namespace := Dict(Pop(entries, k))];
      }
    }
  }
}
