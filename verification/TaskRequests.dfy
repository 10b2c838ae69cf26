/** What the request models accept, and what they make of it. */
module TaskRequests {
  import opened Ordering
  import opened TaskDates
  import opened TaskModel
  import opened TaskText
  import opened Wrappers

  // ---------------------------------------------------------------- lists of tags

  /** The elements of `d` stand in the order in which they first occur in `s`. */
  ghost predicate FirstsInOrder<T(!new)>(d: seq<T>, s: seq<T>) {
    forall i: nat, j: nat | i < j < |d| :: exists k: nat :: k < |s| && s[k] == d[i] && d[j] !in s[..k]
  }

  lemma {:induction false} DistinctInOrder<T(!new)>(s: seq<T>)
    ensures FirstsInOrder(Distinct(s), s)
  {
    if s != [] {
      var front, last := s[..|s| - 1], s[|s| - 1];
      DistinctInOrder(front);
      var d := Distinct(s);
      assert s == front + [last];
      forall i: nat, j: nat | i < j < |d|
        ensures exists k: nat :: k < |s| && s[k] == d[i] && d[j] !in s[..k]
      {
        if j < |Distinct(front)| {
          var k: nat :| k < |front| && front[k] == Distinct(front)[i] && Distinct(front)[j] !in front[..k];
          assert s[..k] == front[..k] && s[k] == d[i];
        } else {
          assert d[i] in front;
          var k: nat :| k < |front| && front[k] == d[i];
          assert d[j] !in front && s[k] == d[i] && s[..k] == front[..k];
        }
      }
    }
  }

  lemma {:induction false} DistinctSize<T(!new)>(s: seq<T>)
    ensures |Distinct(s)| == |Elements(s)|
  {
    if s != [] {
      var front, last := s[..|s| - 1], s[|s| - 1];
      DistinctSize(front);
      assert s == front + [last];
      assert Elements(s) == Elements(front) + {last};
      if last in front {
        assert Elements(s) == Elements(front) && Distinct(s) == Distinct(front);
      } else {
        assert last !in Elements(front) && |Elements(s)| == |Elements(front)| + 1;
      }
    }
  }

  lemma SameElements<T(!new)>(s: seq<T>, d: seq<T>)
    requires forall x :: x in d <==> x in s
    ensures Elements(d) == Elements(s)
  {
    forall x ensures x in Elements(d) <==> x in Elements(s) {
      assert x in Elements(d) <==> x in d;
      assert x in Elements(s) <==> x in s;
    }
  }

  /** Tag ids are accepted when all are positive and, repetitions aside, there are no more than an item may have. */
  ghost predicate IdsAccepted(ids: seq<int>) {
    (forall k: nat | k < |ids| :: ids[k] > 0) && |set k: nat | k < |ids| :: ids[k]| <= MAX_TAGS_PER_ITEM
  }

  lemma TagIdsIff(ids: seq<int>)
    ensures var r := NormalizeTagIds(ids);
            && (r.Some? <==> IdsAccepted(ids))
            && (r.Some? ==>
                  && (forall k: nat | k < |r.value| :: r.value[k] in ids)
                  && (forall k: nat | k < |ids| :: ids[k] in r.value)
                  && NoDuplicates(r.value) && FirstsInOrder(r.value, ids))
  {
    DistinctSize(ids);
    DistinctInOrder(ids);
    assert Elements(ids) == set k: nat | k < |ids| :: ids[k];
    var r := NormalizeTagIds(ids);
    if r.Some? {
      assert r.value == Distinct(ids);
      assert forall k: nat | k < |ids| :: ids[k] in Distinct(ids);
      assert forall k: nat | k < |r.value| :: r.value[k] in Distinct(ids);
    }
  }

  /**
   Tag ids in a request: `null` is no list, any other value that is no list is refused, and so is a list with an
   element that is no positive integer or with too many different ones.
   */
  lemma TagIdsRead(value: RawList<Option<int>>)
    ensures var r := ReadTagIds(value);
            && (value.NoValue? ==> r == Some(None))
            && (value.Single? || value.NotAList? ==> r == None)
            && (value.Items? ==>
                  && (r.Some? <==>
                        && (forall k: nat | k < |value.items| :: value.items[k].Some? && value.items[k].value > 0)
                        && |set k: nat | k < |value.items| :: value.items[k].GetOr(0)| <= MAX_TAGS_PER_ITEM)
                  && (r.Some? ==>
                        && r.value.Some? && NoDuplicates(r.value.value)
                        && (forall k: nat | k < |value.items| :: value.items[k].GetOr(0) in r.value.value)
                        && (forall k: nat | k < |r.value.value| :: Some(r.value.value[k] as int) in value.items)))
  {
    if value.Items? {
      var items, ids := value.items, Integers(value.items);
      TagIdsIff(ids);
      assert forall k: nat | k < |items| :: ids[k] == items[k].GetOr(0);
      assert (set k: nat | k < |items| :: items[k].GetOr(0)) == (set k: nat | k < |ids| :: ids[k]);
      if ReadTagIds(value).Some? {
        assert forall k: nat | k < |items| :: ids[k] > 0 && items[k] == Some(ids[k]);
      }
    }
  }

  /** The names meant by some texts: normalised, those of blank texts left out. */
  ghost function NamesMeant(texts: seq<string>): set<string> {
    set k: nat | k < |texts| && NormalizeTagName(texts[k]) != "" :: NormalizeTagName(texts[k])
  }

  ghost predicate NamesAccepted(texts: seq<string>) {
    (forall n | n in NamesMeant(texts) :: |n| <= MAX_TAG_LENGTH) && |NamesMeant(texts)| <= MAX_TAGS_PER_ITEM
  }

  /** Where an element of the names that are not empty stands among all of them. */
  lemma {:induction false} FilledPlace(names: seq<string>, k: nat) returns (p: nat)
    requires k < |NonEmpty(names)|
    ensures p < |names| && names[p] == NonEmpty(names)[k]
    ensures forall x | x in names[..p] && x != "" :: x in NonEmpty(names)[..k]
  {
    if names[0] == "" {
      var q := FilledPlace(names[1..], k);
      p := q + 1;
      assert names[..p] == [names[0]] + names[1..][..q];
    } else if k == 0 {
      p := 0;
    } else {
      var q := FilledPlace(names[1..], k - 1);
      p := q + 1;
      assert names[..p] == [names[0]] + names[1..][..q];
      assert NonEmpty(names)[..k] == [names[0]] + NonEmpty(names[1..])[..k - 1];
    }
  }

  lemma FilledInOrder(d: seq<string>, names: seq<string>)
    requires FirstsInOrder(d, NonEmpty(names)) && forall x | x in d :: x != ""
    ensures FirstsInOrder(d, names)
  {
    var filled := NonEmpty(names);
    forall i: nat, j: nat | i < j < |d|
      ensures exists p: nat :: p < |names| && names[p] == d[i] && d[j] !in names[..p]
    {
      var k: nat :| k < |filled| && filled[k] == d[i] && d[j] !in filled[..k];
      var p := FilledPlace(names, k);
      assert d[j] in d;
    }
  }

  lemma FilledNames(texts: seq<string>)
    ensures Elements(NonEmpty(Normalized(texts))) == NamesMeant(texts)
  {
    var names := Normalized(texts);
    var filled := NonEmpty(names);
    hide NormalizeTagName, NonEmpty;
    forall n ensures n in Elements(filled) <==> n in NamesMeant(texts) {
      if n in filled {
        var k: nat :| k < |names| && names[k] == n;
        assert n == NormalizeTagName(texts[k]);
      }
      if n in NamesMeant(texts) {
        var k: nat :| k < |texts| && NormalizeTagName(texts[k]) == n;
        assert names[k] == n && n in names;
      }
    }
  }

  lemma NamesTested(texts: seq<string>)
    ensures var filled := NonEmpty(Normalized(texts));
            NormalizeTagNames(texts) ==
            if (forall n | n in Elements(filled) :: |n| <= MAX_TAG_LENGTH) && |Distinct(filled)| <= MAX_TAGS_PER_ITEM
            then Some(Distinct(filled)) else None
  {
    var filled := NonEmpty(Normalized(texts));
    hide NonEmpty, Normalized, Distinct, NoDuplicates;
    assert forall k: nat | k < |filled| :: filled[k] in Elements(filled);
  }

  /** Tag names are accepted when none is too long and, repetitions and blanks aside, an item may have that many. */
  lemma TagNamesIff(texts: seq<string>)
    ensures var r := NormalizeTagNames(texts);
            && (r.Some? <==> NamesAccepted(texts))
            && (r.Some? ==> NoDuplicates(r.value) && Elements(r.value) == NamesMeant(texts))
  {
    var filled := NonEmpty(Normalized(texts));
    FilledNames(texts);
    DistinctSize(filled);
    NamesTested(texts);
    hide NormalizeTagNames, Normalized, NonEmpty, NoDuplicates, Distinct, NamesMeant;
    SameElements(filled, Distinct(filled));
  }

  /** They are kept in the order in which they first occur. */
  lemma TagNamesOrder(texts: seq<string>)
    requires NormalizeTagNames(texts).Some?
    ensures FirstsInOrder(NormalizeTagNames(texts).value,
                          seq(|texts|, k requires 0 <= k < |texts| => NormalizeTagName(texts[k])))
  {
    var names := seq(|texts|, k requires 0 <= k < |texts| => NormalizeTagName(texts[k]));
    assert names == Normalized(texts);
    var filled := NonEmpty(names);
    NamesTested(texts);
    hide NormalizeTagNames, NormalizeTagName;
    DistinctInOrder(filled);
    FilledInOrder(Distinct(filled), names);
  }

  /** Tag names in a request: `null` is no list, one text is a list of one, and any other value is refused. */
  lemma TagNamesRead(value: RawList<string>)
    ensures var r := ReadTagNames(value);
            && (value.NoValue? ==> r == Some(None))
            && (value.NotAList? ==> r == None)
            && (value.Single? || value.Items? ==>
                  var texts := if value.Single? then [value.value] else value.items;
                  && (r.Some? <==> NamesAccepted(texts))
                  && (r.Some? ==> r.value.Some? && NoDuplicates(r.value.value)
                                  && Elements(r.value.value) == NamesMeant(texts)))
  {
    if value.Single? || value.Items? {
      TagNamesIff(if value.Single? then [value.value] else value.items);
    }
  }

  /** A tag's name is accepted when, normalised, it is neither empty nor too long. */
  lemma TagNameAccepted(raw: string)
    ensures var n := NormalizeTagName(raw);
            ValidateTagName(raw) == if n != "" && |n| <= MAX_TAG_LENGTH then Some(n) else None
  {
  }

  // ---------------------------------------------------------------- task requests

  /** Nothing but white space, or an ISO date with white space around it. */
  predicate DateAccepted(text: Option<string>) {
    text.None? || Strip(text.value) == "" || IsIsoDate(Strip(text.value))
  }

  /** The date that an accepted text gives. */
  function DateGiven(text: Option<string>): (d: Option<string>)
    requires DateAccepted(text)
    ensures ValidDate(d)
  {
    if text.None? || Strip(text.value) == "" then None else Some(Strip(text.value))
  }

  /** The three columns by name; without one it is the first. */
  lemma StatusRead(t: Option<string>)
    ensures var r := ParseStatus(t);
            && (r == Some(Todo) <==> t == None || t == Some("todo"))
            && (r == Some(Doing) <==> t == Some("doing")) && (r == Some(Done) <==> t == Some("done"))
            && (r.Some? <==> t in {None, Some("todo"), Some("doing"), Some("done")})
  {
    assert "todo"[0] != "done"[0];
  }

  /** The three priorities by name; without one it is the middle. */
  lemma PriorityRead(t: Option<string>)
    ensures var r := ParsePriority(t);
            && (r == Some(Normal) <==> t == None || t == Some("normal"))
            && (r == Some(High) <==> t == Some("high")) && (r == Some(Low) <==> t == Some("low"))
            && (r.Some? <==> t in {None, Some("high"), Some("normal"), Some("low")})
  {
  }

  /** Exactly the creations with fitting texts, known choices, accepted tags, and dates in order are accepted. */
  lemma TaskAccepted(raw: RawTask)
    ensures ValidateTask(raw).Some? <==>
            && 1 <= |Strip(raw.title.GetOr(""))| <= MAX_TITLE && |Strip(raw.note.GetOr(""))| <= MAX_NOTE
            && raw.status in {None, Some("todo"), Some("doing"), Some("done")}
            && raw.priority in {None, Some("high"), Some("normal"), Some("low")}
            && IdsAccepted(raw.tagIds) && NamesAccepted(raw.tags)
            && DateAccepted(raw.start) && DateAccepted(raw.due) && !Reversed(DateGiven(raw.start), DateGiven(raw.due))
  {
    TagIdsIff(raw.tagIds);
    TagNamesIff(raw.tags);
    StatusRead(raw.status);
    PriorityRead(raw.priority);
    DateAnswers(raw.start);
    DateAnswers(raw.due);
    hide NormalizeTagIds, NormalizeTagNames, NormalizeDate, IsIsoDate, IdsAccepted, NamesAccepted, Strip,
         ParseStatus, ParsePriority;
    if DateAccepted(raw.start) && DateAccepted(raw.due) {
      RangeOkIff(DateGiven(raw.start), DateGiven(raw.due));
      hide DateRangeOk, Reversed;
    }
  }

  /** What an accepted creation request gives, member by member. */
  lemma TaskRead(raw: RawTask)
    requires ValidateTask(raw).Some?
    ensures var input := ValidateTask(raw).value;
            var v := input.values;
            && v.title == Strip(raw.title.GetOr("")) && v.note == Strip(raw.note.GetOr(""))
            && (v.status.Todo? <==> raw.status == None || raw.status == Some("todo"))
            && (v.status.Doing? <==> raw.status == Some("doing")) && (v.status.Done? <==> raw.status == Some("done"))
            && (v.priority.Normal? <==> raw.priority == None || raw.priority == Some("normal"))
            && (v.priority.High? <==> raw.priority == Some("high"))
            && (v.priority.Low? <==> raw.priority == Some("low"))
            && DateAccepted(raw.start) && v.start == DateGiven(raw.start)
            && DateAccepted(raw.due) && v.due == DateGiven(raw.due)
  {
    StatusRead(raw.status);
    PriorityRead(raw.priority);
    DateAnswers(raw.start);
    DateAnswers(raw.due);
    hide NormalizeTagIds, NormalizeTagNames, NormalizeDate, IsIsoDate, Strip, DateRangeOk, ParseStatus, ParsePriority;
  }

  /** The tags of an accepted creation request, each once, in the order given. */
  lemma TaskTagsRead(raw: RawTask)
    requires ValidateTask(raw).Some?
    ensures var input := ValidateTask(raw).value;
            var ids := input.values.tagIds;
            && NoDuplicates(ids) && (forall k: nat | k < |raw.tagIds| :: raw.tagIds[k] in ids)
            && (forall k: nat | k < |ids| :: ids[k] in raw.tagIds) && FirstsInOrder(ids, raw.tagIds)
            && NoDuplicates(input.tagNames) && Elements(input.tagNames) == NamesMeant(raw.tags)
  {
    TagIdsIff(raw.tagIds);
    TagNamesIff(raw.tags);
    hide NormalizeTagIds, NormalizeTagNames, NormalizeDate, IsIsoDate, IdsAccepted, NamesAccepted, Strip, DateRangeOk,
         NoDuplicates, FirstsInOrder, NamesMeant, Elements;
  }

  /** The text of a date member; `null` and a member left out have none. */
  function Sent(f: Field<string>): Option<string> {
    match f case Given(text) => Some(text) case Null => None case Absent => None
  }

  lemma DateRead(f: Field<string>)
    ensures DateField(f).Some? <==> DateAccepted(Sent(f))
    ensures DateField(f).Some? ==> GivenDate(DateField(f).value) == DateGiven(Sent(f))
  {
    DateAnswers(Sent(f));
    hide NormalizeDate, IsIsoDate, Strip;
  }

  lemma DatesTested(start: Field<string>, due: Field<string>)
    requires DateField(start).Some? && DateField(due).Some?
    ensures DateAccepted(Sent(start)) && DateAccepted(Sent(due))
    ensures DateRangeOk(GivenDate(DateField(start).value), GivenDate(DateField(due).value)) <==>
            !Reversed(DateGiven(Sent(start)), DateGiven(Sent(due)))
  {
    DateRead(start);
    DateRead(due);
    hide DateField, GivenDate, DateAccepted, Sent;
    RangeOkIff(DateGiven(Sent(start)), DateGiven(Sent(due)));
  }

  /** The same for update requests: what is left out or null is not tested. */
  lemma UpdateAccepted(raw: RawUpdate)
    ensures ValidateUpdate(raw).Some? <==>
            && (raw.title.Given? ==> 1 <= |Strip(raw.title.value)| <= MAX_TITLE)
            && (raw.note.Given? ==> |Strip(raw.note.value)| <= MAX_NOTE)
            && (raw.status.Given? ==> raw.status.value in {"todo", "doing", "done"})
            && (raw.priority.Given? ==> raw.priority.value in {"high", "normal", "low"})
            && (raw.tagIds.Given? ==> IdsAccepted(raw.tagIds.value))
            && (raw.position.Given? ==> raw.position.value >= 0)
            && DateAccepted(Sent(raw.start)) && DateAccepted(Sent(raw.due))
            && !Reversed(DateGiven(Sent(raw.start)), DateGiven(Sent(raw.due)))
  {
    if raw.tagIds.Given? { TagIdsIff(raw.tagIds.value); }
    if raw.status.Given? { StatusRead(Some(raw.status.value)); }
    if raw.priority.Given? { PriorityRead(Some(raw.priority.value)); }
    DateRead(raw.start);
    DateRead(raw.due);
    if DateField(raw.start).Some? && DateField(raw.due).Some? { DatesTested(raw.start, raw.due); }
    hide NormalizeTagIds, IdsAccepted, Strip, ParseStatus, ParsePriority, FirstsInOrder, NoDuplicates,
         DateField, GivenDate, DateGiven, DateAccepted, DateRangeOk, Reversed, Sent;
  }

  /** What an accepted update asks for: members left out or null stay so, and a blank date becomes null. */
  lemma UpdateRead(raw: RawUpdate)
    requires ValidateUpdate(raw).Some?
    ensures var u := ValidateUpdate(raw).value;
            && (if raw.title.Given? then u.title == Given(Strip(raw.title.value)) else u.title == raw.title)
            && (if raw.note.Given? then u.note == Given(Strip(raw.note.value)) else u.note == raw.note)
            && (u.status.Absent? <==> raw.status.Absent?) && (u.status.Null? <==> raw.status.Null?)
            && (u.status == Given(Todo) <==> raw.status == Given("todo"))
            && (u.status == Given(Doing) <==> raw.status == Given("doing"))
            && (u.status == Given(Done) <==> raw.status == Given("done"))
            && (u.priority.Absent? <==> raw.priority.Absent?) && (u.priority.Null? <==> raw.priority.Null?)
            && (u.priority == Given(High) <==> raw.priority == Given("high"))
            && (u.priority == Given(Normal) <==> raw.priority == Given("normal"))
            && (u.priority == Given(Low) <==> raw.priority == Given("low"))
            && u.position == raw.position
  {
    if raw.status.Given? { StatusRead(Some(raw.status.value)); }
    if raw.priority.Given? { PriorityRead(Some(raw.priority.value)); }
    hide NormalizeTagIds, NormalizeDate, IsIsoDate, Strip, DateRangeOk, ParseStatus, ParsePriority;
  }

  lemma UpdateReadLists(raw: RawUpdate)
    requires ValidateUpdate(raw).Some?
    ensures var u := ValidateUpdate(raw).value;
            && (u.start.Absent? <==> raw.start.Absent?) && (u.due.Absent? <==> raw.due.Absent?)
            && DateAccepted(Sent(raw.start)) && DateAfter(u.start, None) == DateGiven(Sent(raw.start))
            && DateAccepted(Sent(raw.due)) && DateAfter(u.due, None) == DateGiven(Sent(raw.due))
            && (u.tagIds.Absent? <==> raw.tagIds.Absent?) && (u.tagIds.Null? <==> raw.tagIds.Null?)
            && (raw.tagIds.Given? ==>
                  && NoDuplicates(u.tagIds.value)
                  && (forall k: nat | k < |raw.tagIds.value| :: raw.tagIds.value[k] in u.tagIds.value)
                  && (forall k: nat | k < |u.tagIds.value| :: u.tagIds.value[k] in raw.tagIds.value))
  {
    if raw.tagIds.Given? { TagIdsIff(raw.tagIds.value); }
    DateAnswers(Sent(raw.start));
    DateAnswers(Sent(raw.due));
    hide NormalizeTagIds, NormalizeDate, IsIsoDate, Strip, DateRangeOk, NoDuplicates, FirstsInOrder, IdsAccepted;
  }
}
