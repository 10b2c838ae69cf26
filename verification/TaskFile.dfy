/**
 The exported file as JSON text in UTF-8, and how long it can be: `json.dumps` in compact form without
 escaping non-ASCII characters.
 */
module TaskFile {
  import opened Collections
  import Decimal
  import opened Ordering
  import opened TaskImport
  import opened TaskDates
  import opened TaskInvariant
  import opened TaskModel
  import opened TaskText
  import opened Texts
  import opened Wrappers

  // ---------------------------------------------------------------- bytes

  function CharSize(c: char): nat {
    var n := c as int;
    if n < 0x80 then 1 else if n < 0x800 then 2 else if n < 0x10000 then 3 else 4
  }

  /** The length of a text in UTF-8. */
  function Size(s: string): nat {
    if s == [] then 0 else CharSize(s[0]) + Size(s[1..])
  }

  lemma {:induction false} SizeAdd(a: string, b: string)
    ensures Size(a + b) == Size(a) + Size(b)
  {
    if a == [] {
      assert a + b == b;
    } else {
      assert (a + b)[1..] == a[1..] + b;
      SizeAdd(a[1..], b);
    }
  }

  lemma {:induction false} SizeBounds(s: string)
    ensures |s| <= Size(s) <= 4 * |s|
  {
    if s != [] {
      SizeBounds(s[1..]);
    }
  }

  // ---------------------------------------------------------------- JSON text

  /** The control characters without a short escape; they take six bytes. */
  predicate LongEscape(c: char) {
    var n := c as int;
    n < 32 && n != 8 && n != 9 && n != 10 && n != 12 && n != 13
  }

  function Escape(c: char): string {
    var n := c as int;
    if c == '"' then "\\\""
    else if c == '\\' then "\\\\"
    else if n == 8 then "\\b"
    else if n == 9 then "\\t"
    else if n == 10 then "\\n"
    else if n == 12 then "\\f"
    else if n == 13 then "\\r"
    else if n < 32 then "\\u00" + [HexDigit(n / 16, 'a'), HexDigit(n % 16, 'a')]
    else [c]
  }

  function Escaped(s: string): string {
    if s == [] then [] else Escape(s[0]) + Escaped(s[1..])
  }

  function Quoted(s: string): string {
    "\"" + Escaped(s) + "\""
  }

  function QuotedOrNull(t: Option<string>): string {
    if t.Some? then Quoted(t.value) else "null"
  }

  function Commas(texts: seq<string>): string {
    if texts == [] then []
    else if |texts| == 1 then texts[0]
    else texts[0] + "," + Commas(texts[1..])
  }

  function QuotedAll(names: seq<string>): seq<string> {
    seq(|names|, k requires 0 <= k < |names| => Quoted(names[k]))
  }

  function Member(key: string, value: string): string {
    "\"" + key + "\":" + value
  }

  function TextMembers(v: View): string {
    Member("title", Quoted(v.item.title)) + "," + Member("note", QuotedOrNull(v.item.note))
  }

  function CodeMembers(v: View): string {
    Member("board_status", Quoted(StatusText(v.item.status))) + "," +
    Member("priority", Quoted(PriorityText(v.item.priority)))
  }

  function TagMember(v: View): string {
    Member("tags", "[" + Commas(QuotedAll(v.tags)) + "]")
  }

  function DateMembers(v: View): string {
    Member("start_date", QuotedOrNull(v.item.start)) + "," + Member("due_date", QuotedOrNull(v.item.due))
  }

  function PositionMember(v: View): string {
    Member("position", Decimal.IntText(v.item.position))
  }

  /** One exported task. */
  function EntryText(v: View): string {
    JsonObject(TextMembers(v), CodeMembers(v), TagMember(v), DateMembers(v), PositionMember(v))
  }

  /** A JSON object of five parts. */
  function JsonObject(a: string, b: string, c: string, d: string, e: string): string {
    "{" + (a + ("," + (b + ("," + (c + ("," + (d + ("," + (e + "}")))))))))
  }

  function EntryTexts(vs: seq<View>): seq<string> {
    seq(|vs|, k requires 0 <= k < |vs| => EntryText(vs[k]))
  }

  const HEAD := "{\"version\":2,\"exported_at\":"

  const TASKS := ",\"tasks\":["

  /** The body of the export response; `at` is the clock's text. */
  function FileText(vs: seq<View>, at: string): string {
    HEAD + (Quoted(at) + (TASKS + (Commas(EntryTexts(vs)) + "]}")))
  }

  /** The bytes of the exported file of a room. */
  function FileSize(s: Store, room: string, at: string): nat {
    Size(FileText(ListItems(s, room), at))
  }

  // ---------------------------------------------------------------- sizes of the parts

  predicate NoLong(s: string) {
    forall i: nat | i < |s| :: !LongEscape(s[i])
  }

  predicate AllLong(s: string) {
    forall i: nat | i < |s| :: LongEscape(s[i])
  }

  lemma EscapeSize(c: char)
    ensures Size(Escape(c)) <= 6
    ensures if LongEscape(c) then Size(Escape(c)) == 6 else Size(Escape(c)) <= 4
  {
    var e := Escape(c);
    SizeBounds(e);
    if LongEscape(c) {
      assert forall i: nat | i < |e| :: CharSize(e[i]) == 1;
      Ascii(e);
    } else if |e| == 2 {
      Ascii(e);
    }
  }

  lemma {:induction false} Ascii(s: string)
    requires forall i: nat | i < |s| :: CharSize(s[i]) == 1
    ensures Size(s) == |s|
  {
    if s != [] {
      Ascii(s[1..]);
    }
  }

  lemma {:induction false} EscapedSize(s: string)
    ensures Size(Escaped(s)) <= 6 * |s|
    ensures NoLong(s) ==> Size(Escaped(s)) <= 4 * |s|
    ensures AllLong(s) ==> Size(Escaped(s)) == 6 * |s|
  {
    if s != [] {
      EscapedSize(s[1..]);
      EscapeSize(s[0]);
      SizeAdd(Escape(s[0]), Escaped(s[1..]));
      assert forall i: nat | i < |s[1..]| :: s[1..][i] == s[i + 1];
    }
  }

  lemma QuotedSize(s: string)
    ensures Size(Quoted(s)) == 2 + Size(Escaped(s))
  {
    SizeAdd("\"" + Escaped(s), "\"");
    SizeAdd("\"", Escaped(s));
    assert Size("\"") == 1;
  }

  lemma MemberSize(key: string, value: string)
    ensures Size(value) <= Size(Member(key, value)) <= 4 * |key| + 12 + Size(value)
  {
    SizeAdd("\"" + key + "\":", value);
    SizeBounds("\"" + key + "\":");
  }

  /** A comma-separated list whose texts all have at most `most` bytes, or at least `least`. */
  lemma {:induction false} CommasSize(texts: seq<string>, least: nat, most: nat)
    requires forall i: nat | i < |texts| :: least <= Size(texts[i]) <= most
    ensures least * |texts| <= Size(Commas(texts)) <= (most + 1) * |texts|
  {
    if |texts| == 1 {
    } else if texts != [] {
      CommasSize(texts[1..], least, most);
      SizeAdd(texts[0] + ",", Commas(texts[1..]));
      SizeAdd(texts[0], ",");
      assert Size(",") == 1;
      Distributes(least, most + 1, |texts|);
    }
  }

  lemma Distributes(a: nat, b: nat, n: nat)
    requires n > 0
    ensures a * n == a + a * (n - 1) && b * n == b + b * (n - 1)
  {
  }

  // ---------------------------------------------------------------- the exact number of bytes

  /** A character in a JSON string: its escape, or its UTF-8 form (section 3 of RFC 3629). */
  function CharBytes(c: char): nat {
    var n := c as int;
    if n in {8, 9, 10, 12, 13, 34, 92} then 2
    else if n <= 31 then 6
    else if n <= 127 then 1
    else if n <= 2047 then 2
    else if n <= 65535 then 3
    else 4
  }

  function StringBytes(s: string): nat {
    if s == [] then 2 else CharBytes(s[0]) + StringBytes(s[1..])
  }

  lemma EscapeBytes(c: char)
    ensures Size(Escape(c)) == CharBytes(c)
  {
    if LongEscape(c) {
      EscapeSize(c);
    } else if |Escape(c)| == 2 {
      Ascii(Escape(c));
    } else {
      assert Escape(c) == [c] && [c][1..] == [];
    }
  }

  /** The escapes of section 7 of RFC 8259: a letter for each short one, two hexadecimal digits in a long one. */
  lemma EscapeStands(c: char)
    ensures var e := Escape(c);
            && (|e| == 2 ==>
                  && e[0] == '\\'
                  && (e[1], c as int) in
                     {('"', 34), ('\\', 92), ('b', 8), ('t', 9), ('n', 10), ('f', 12), ('r', 13)})
            && (|e| == 6 ==>
                  && e[..4] == "\\u00" && HexValue(e[4]).Some? && HexValue(e[5]).Some?
                  && 16 * HexValue(e[4]).value + HexValue(e[5]).value == c as int)
            && (|e| != 2 && |e| != 6 ==> e == [c])
  {
  }

  lemma {:induction false} QuotedBytes(s: string)
    ensures Size(Quoted(s)) == StringBytes(s)
  {
    QuotedSize(s);
    if s != [] {
      QuotedBytes(s[1..]);
      QuotedSize(s[1..]);
      EscapeBytes(s[0]);
      SizeAdd(Escape(s[0]), Escaped(s[1..]));
    }
  }

  /** The bytes of a JSON array, and of the texts in it: brackets, and a comma between neighbours. */
  function ArrayBytes(sizes: seq<nat>): nat {
    if sizes == [] then 2 else if |sizes| == 1 then 2 + sizes[0] else sizes[0] + 1 + ArrayBytes(sizes[1..])
  }

  lemma {:induction false} CommasBytes(texts: seq<string>, sizes: seq<nat>)
    requires |sizes| == |texts| && forall i: nat | i < |texts| :: Size(texts[i]) == sizes[i]
    ensures Size("[" + Commas(texts) + "]") == ArrayBytes(sizes)
  {
    Bracketed(Commas(texts));
    if |texts| > 1 {
      CommasBytes(texts[1..], sizes[1..]);
      Bracketed(Commas(texts[1..]));
      Joined(texts[0], Commas(texts[1..]));
    }
  }

  lemma MemberBytes(key: string, value: string)
    requires forall i: nat | i < |key| :: 32 < key[i] as int < 127
    ensures Size(Member(key, value)) == |key| + 3 + Size(value)
  {
    SizeAdd("\"" + key + "\":", value);
    Ascii("\"" + key + "\":");
  }

  function TextOrNullBytes(d: Option<string>): nat {
    if d.Some? then StringBytes(d.value) else 4
  }

  lemma OptionalBytes(t: Option<string>)
    ensures Size(QuotedOrNull(t)) == TextOrNullBytes(t)
  {
    if t.Some? { QuotedBytes(t.value); } else { Ascii("null"); }
  }

  function NameBytes(names: seq<string>): seq<nat> {
    seq(|names|, k requires 0 <= k < |names| => StringBytes(names[k]))
  }

  /** One exported task: 92 bytes of keys and punctuation, and its values. */
  function EntryBytes(v: View): nat {
    92 + StringBytes(v.item.title) + TextOrNullBytes(v.item.note)
    + (if v.item.status.Doing? then 7 else 6)
    + (match v.item.priority case High => 6 case Normal => 8 case Low => 5)
    + ArrayBytes(NameBytes(v.tags)) + TextOrNullBytes(v.item.start) + TextOrNullBytes(v.item.due)
    + |Decimal.IntText(v.item.position)|
  }

  lemma TextsBytes(v: View)
    ensures Size(TextMembers(v)) == 16 + StringBytes(v.item.title) + TextOrNullBytes(v.item.note)
  {
    QuotedBytes(v.item.title);
    OptionalBytes(v.item.note);
    MemberBytes("title", Quoted(v.item.title));
    MemberBytes("note", QuotedOrNull(v.item.note));
    Joined(Member("title", Quoted(v.item.title)), Member("note", QuotedOrNull(v.item.note)));
  }

  lemma PlainBytes(s: string)
    requires forall i: nat | i < |s| :: 'a' <= s[i] <= 'z'
    ensures StringBytes(s) == |s| + 2
  {
    if s != [] { PlainBytes(s[1..]); }
  }

  lemma ChoiceBytes(s: Status, p: Priority)
    ensures StringBytes(StatusText(s)) == if s.Doing? then 7 else 6
    ensures StringBytes(PriorityText(p)) == match p case High => 6 case Normal => 8 case Low => 5
  {
    hide StringBytes;
    PlainBytes(StatusText(s));
    PlainBytes(PriorityText(p));
  }

  lemma CodesBytes(v: View)
    ensures Size(CodeMembers(v)) ==
            27 + (if v.item.status.Doing? then 7 else 6)
            + match v.item.priority case High => 6 case Normal => 8 case Low => 5
  {
    var a, b := StatusText(v.item.status), PriorityText(v.item.priority);
    ChoiceBytes(v.item.status, v.item.priority);
    hide StringBytes, Size, StatusText, PriorityText, Quoted, Member;
    QuotedBytes(a);
    QuotedBytes(b);
    MemberBytes("board_status", Quoted(a));
    MemberBytes("priority", Quoted(b));
    Joined(Member("board_status", Quoted(a)), Member("priority", Quoted(b)));
  }

  lemma TagsBytes(v: View)
    ensures Size(TagMember(v)) == 7 + ArrayBytes(NameBytes(v.tags))
  {
    var texts := QuotedAll(v.tags);
    forall i: nat | i < |texts| ensures Size(texts[i]) == NameBytes(v.tags)[i] {
      QuotedBytes(v.tags[i]);
    }
    CommasBytes(texts, NameBytes(v.tags));
    MemberBytes("tags", "[" + Commas(texts) + "]");
  }

  lemma DatesBytes(v: View)
    ensures Size(DateMembers(v)) == 25 + TextOrNullBytes(v.item.start) + TextOrNullBytes(v.item.due)
  {
    OptionalBytes(v.item.start);
    OptionalBytes(v.item.due);
    MemberBytes("start_date", QuotedOrNull(v.item.start));
    MemberBytes("due_date", QuotedOrNull(v.item.due));
    Joined(Member("start_date", QuotedOrNull(v.item.start)), Member("due_date", QuotedOrNull(v.item.due)));
  }

  lemma PositionBytes(v: View)
    ensures Size(PositionMember(v)) == 11 + |Decimal.IntText(v.item.position)|
  {
    var n := v.item.position;
    Ascii(Decimal.IntText(n));
    MemberBytes("position", Decimal.IntText(n));
  }

  /** The bytes of an exported task. */
  lemma EntryTakes(v: View)
    ensures Size(EntryText(v)) == EntryBytes(v)
  {
    TextsBytes(v);
    CodesBytes(v);
    TagsBytes(v);
    DatesBytes(v);
    PositionBytes(v);
    ObjectSize(TextMembers(v), CodeMembers(v), TagMember(v), DateMembers(v), PositionMember(v));
    hide TextMembers, CodeMembers, TagMember, DateMembers, PositionMember, JsonObject, Size, StringBytes;
  }

  lemma TasksTake(vs: seq<View>)
    ensures Size(Commas(EntryTexts(vs))) + 2 == ArrayBytes(seq(|vs|, k requires 0 <= k < |vs| => EntryBytes(vs[k])))
  {
    var texts, sizes := EntryTexts(vs), seq(|vs|, k requires 0 <= k < |vs| => EntryBytes(vs[k]));
    hide EntryText, EntryBytes, Size, Commas, ArrayBytes;
    forall i: nat | i < |texts| ensures Size(texts[i]) == sizes[i] {
      EntryTakes(vs[i]);
    }
    CommasBytes(texts, sizes);
    Bracketed(Commas(texts));
  }

  /** The bytes of the exported file: 37 of its own, the time, and the array of its tasks. */
  lemma FileTakes(s: Store, room: string, at: string)
    ensures var vs := ListItems(s, room);
            FileSize(s, room, at) ==
            37 + StringBytes(at) + ArrayBytes(seq(|vs|, k requires 0 <= k < |vs| => EntryBytes(vs[k])))
  {
    var vs := ListItems(s, room);
    hide Commas, EntryTexts, EntryBytes, ArrayBytes, ListItems, Size, HEAD, TASKS, Quoted, StringBytes;
    var body := Commas(EntryTexts(vs));
    TasksTake(vs);
    QuotedBytes(at);
    FrameTakes();
    SizeAdd(body, "]}");
    SizeAdd(TASKS, body + "]}");
    SizeAdd(Quoted(at), TASKS + (body + "]}"));
    SizeAdd(HEAD, Quoted(at) + (TASKS + (body + "]}")));
  }

  lemma FrameTakes()
    ensures Size(HEAD) == 27 && Size(TASKS) == 10 && Size("]}") == 2
  {
    hide Size;
    Ascii(HEAD);
    Ascii(TASKS);
    Ascii("]}");
  }

  // ---------------------------------------------------------------- a file without long escapes fits

  /** What the invariant bounds in a listed task. */
  predicate LimitsMet(v: View) {
    && |v.item.title| <= MAX_TITLE && |v.item.note.GetOr("")| <= MAX_NOTE && 0 <= v.item.position <= MAX_INT
    && (v.item.start.Some? ==> |v.item.start.value| == 10) && (v.item.due.Some? ==> |v.item.due.value| == 10)
    && |v.tags| <= MAX_TAGS_PER_ITEM && forall k: nat | k < |v.tags| :: |v.tags[k]| <= MAX_TAG_LENGTH
  }

  /** No text of the task needs a long escape. */
  predicate Short(v: View) {
    NoLong(v.item.title) && NoLong(v.item.note.GetOr("")) && forall k: nat | k < |v.tags| :: NoLong(v.tags[k])
  }

  /** A text that consists of characters from the blank on, and of the five control characters with short escapes. */
  lemma NoLongIff(s: string)
    ensures NoLong(s) <==> forall i: nat | i < |s| :: s[i] as int >= 32 || s[i] as int in {8, 9, 10, 12, 13}
  {
  }

  /** The most bytes that the tag names, a task and a file take, with texts of any other characters. */
  const LONGEST_TAGS: nat := (3 + 4 * MAX_TAG_LENGTH) * MAX_TAGS_PER_ITEM
  const LONGEST_ENTRY: nat := 600 + 4 * MAX_TITLE + 4 * MAX_NOTE + LONGEST_TAGS
  const LONGEST_FILE: nat := 300 + (LONGEST_ENTRY + 1) * MAX_ITEMS

  lemma ShortQuoted(t: string)
    requires NoLong(t)
    ensures Size(Quoted(t)) <= 2 + 4 * |t|
  {
    QuotedSize(t);
    EscapedSize(t);
  }

  lemma AnyQuoted(t: string)
    ensures Size(Quoted(t)) <= 2 + 6 * |t|
  {
    QuotedSize(t);
    EscapedSize(t);
  }

  lemma {:induction false} DigitsBound(n: nat, k: nat, power: nat)
    requires 1 <= k <= 10 && n < power && power == Power10(k)
    ensures |Decimal.Text(n)| <= k
    decreases k
  {
    if n >= 10 { DigitsBound(n / 10, k - 1, Power10(k - 1)); }
  }

  function Power10(k: nat): nat {
    if k == 0 then 1 else 10 * Power10(k - 1)
  }

  lemma PositionSize(n: int)
    requires 0 <= n <= MAX_INT
    ensures Size(Decimal.IntText(n)) <= 40
  {
    assert Power10(5) == 100000;
    assert Power10(10) == 10000000000;
    DigitsBound(n, 10, Power10(10));
    SizeBounds(Decimal.IntText(n));
  }

  lemma TextsSize(v: View)
    requires LimitsMet(v) && Short(v)
    ensures Size(TextMembers(v)) <= 65 + 4 * MAX_TITLE + 4 * MAX_NOTE
  {
    ShortQuoted(v.item.title);
    if v.item.note.Some? { ShortQuoted(v.item.note.value); } else { Ascii("null"); }
    MemberSize("title", Quoted(v.item.title));
    MemberSize("note", QuotedOrNull(v.item.note));
    Joined(Member("title", Quoted(v.item.title)), Member("note", QuotedOrNull(v.item.note)));
  }

  lemma Joined(a: string, b: string)
    ensures Size(a + "," + b) == Size(a) + 1 + Size(b)
  {
    SizeAdd(a + ",", b);
    SizeAdd(a, ",");
    assert Size(",") == 1;
  }

  lemma CodesSize(v: View)
    ensures Size(CodeMembers(v)) <= 180
  {
    var a, b := StatusText(v.item.status), PriorityText(v.item.priority);
    AnyQuoted(a);
    AnyQuoted(b);
    MemberSize("board_status", Quoted(a));
    MemberSize("priority", Quoted(b));
    Joined(Member("board_status", Quoted(a)), Member("priority", Quoted(b)));
  }

  lemma Bracketed(s: string)
    ensures Size("[" + s + "]") == Size(s) + 2
  {
    SizeAdd("[" + s, "]");
    SizeAdd("[", s);
    assert Size("[") == 1 && Size("]") == 1;
  }

  lemma TagsSize(v: View)
    requires LimitsMet(v) && Short(v)
    ensures Size(TagMember(v)) <= 30 + LONGEST_TAGS
  {
    var texts, most := QuotedAll(v.tags), 2 + 4 * MAX_TAG_LENGTH;
    forall i: nat | i < |texts| ensures Size(texts[i]) <= most {
      ShortQuoted(v.tags[i]);
    }
    CommasSize(texts, 0, most);
    Grows(most + 1, |texts|, MAX_TAGS_PER_ITEM);
    Bracketed(Commas(texts));
    MemberSize("tags", "[" + Commas(texts) + "]");
  }

  lemma Grows(a: nat, m: nat, n: nat)
    requires m <= n
    ensures a * m <= a * n
  {
  }

  lemma DatesSize(v: View)
    requires LimitsMet(v)
    ensures Size(DateMembers(v)) <= 230
  {
    if v.item.start.Some? { AnyQuoted(v.item.start.value); } else { SizeBounds("null"); }
    if v.item.due.Some? { AnyQuoted(v.item.due.value); } else { SizeBounds("null"); }
    MemberSize("start_date", QuotedOrNull(v.item.start));
    MemberSize("due_date", QuotedOrNull(v.item.due));
    Joined(Member("start_date", QuotedOrNull(v.item.start)), Member("due_date", QuotedOrNull(v.item.due)));
  }

  /** The size of an object is that of its parts and of the six signs around them. */
  lemma ObjectSize(a: string, b: string, c: string, d: string, e: string)
    ensures Size(JsonObject(a, b, c, d, e)) == Size(a) + Size(b) + Size(c) + Size(d) + Size(e) + 6
  {
    hide Size;
    var e1 := e + "}";
    var d1 := d + ("," + e1);
    var c1 := c + ("," + d1);
    var b1 := b + ("," + c1);
    SizeAdd(e, "}");
    Ascii("}");
    Sign(",", e1);
    SizeAdd(d, "," + e1);
    Sign(",", d1);
    SizeAdd(c, "," + d1);
    Sign(",", c1);
    SizeAdd(b, "," + c1);
    Sign(",", b1);
    SizeAdd(a, "," + b1);
    Sign("{", a + ("," + b1));
  }

  lemma Sign(sign: string, s: string)
    requires |sign| == 1 && CharSize(sign[0]) == 1
    ensures Size(sign + s) == 1 + Size(s)
  {
    SizeAdd(sign, s);
    Ascii(sign);
  }

  lemma EntrySize(v: View)
    requires LimitsMet(v) && Short(v)
    ensures Size(EntryText(v)) <= LONGEST_ENTRY
  {
    TextsSize(v);
    CodesSize(v);
    TagsSize(v);
    DatesSize(v);
    PositionSize(v.item.position);
    MemberSize("position", Decimal.IntText(v.item.position));
    ObjectSize(TextMembers(v), CodeMembers(v), TagMember(v), DateMembers(v), PositionMember(v));
    hide LimitsMet, Short, TextMembers, CodeMembers, TagMember, DateMembers, Member, JsonObject, Size;
  }

  lemma FrameSizes()
    ensures Size(HEAD) <= 108 && Size(TASKS) <= 40 && Size("]}") <= 8
  {
    hide Size;
    SizeBounds(HEAD);
    SizeBounds(TASKS);
    SizeBounds("]}");
  }

  /** The size of the file is that of its tasks and of the fixed text around them. */
  lemma FileParts(vs: seq<View>, at: string)
    requires |at| <= 20
    ensures Size(Commas(EntryTexts(vs))) <= Size(FileText(vs, at)) <= Size(Commas(EntryTexts(vs))) + 300
  {
    hide Quoted, Size, Commas, EntryTexts, HEAD, TASKS;
    var body := Commas(EntryTexts(vs));
    AnyQuoted(at);
    FrameSizes();
    SizeAdd(body, "]}");
    SizeAdd(TASKS, body + "]}");
    SizeAdd(Quoted(at), TASKS + (body + "]}"));
    SizeAdd(HEAD, Quoted(at) + (TASKS + (body + "]}")));
  }

  lemma EntriesSize(vs: seq<View>)
    requires forall k: nat | k < |vs| :: LimitsMet(vs[k]) && Short(vs[k])
    ensures Size(Commas(EntryTexts(vs))) <= (LONGEST_ENTRY + 1) * |vs|
  {
    hide LimitsMet, Short, EntryText, Size, Commas;
    var texts := EntryTexts(vs);
    forall i: nat | i < |texts| ensures 0 <= Size(texts[i]) <= LONGEST_ENTRY {
      EntrySize(vs[i]);
    }
    CommasSize(texts, 0, LONGEST_ENTRY);
  }

  lemma ListedIsBounded(s: Store, room: string, k: nat)
    requires Inv(s) && k < |ListItems(s, room)|
    ensures LimitsMet(ListItems(s, room)[k])
  {
    BoardOrderTotal(s);
    var i := ListIds(s, room)[k];
    assert i in Elements(ListIds(s, room));
    ViewTags(s, room, i);
    assert ValidItem(s.items[i]);
  }

  lemma ListLength(s: Store, room: string)
    requires Quotas(s)
    ensures |ListItems(s, room)| == |ItemIds(s, room)| <= MAX_ITEMS
  {
    BoardOrderTotal(s);
    AscendingCount(ListIds(s, room), BoardOrder(s));
  }

  lemma DefaultsFit()
    ensures DefaultSettings() ==> LONGEST_FILE <= MAX_FILE_BYTES
  {
  }

  lemma LongestFile(vs: seq<View>, at: string)
    requires |vs| <= MAX_ITEMS && |at| <= 20 && forall k: nat | k < |vs| :: LimitsMet(vs[k]) && Short(vs[k])
    ensures Size(FileText(vs, at)) <= LONGEST_FILE
  {
    hide Size, FileText, EntryTexts, Commas, LimitsMet, Short, LONGEST_ENTRY;
    EntriesSize(vs);
    FileParts(vs, at);
    AtMost(Size(FileText(vs, at)), LONGEST_ENTRY + 1, |vs|, MAX_ITEMS);
  }

  lemma AtMost(size: nat, entry: nat, m: nat, n: nat)
    requires size <= entry * m + 300 && m <= n
    ensures size <= 300 + entry * n
  {
    Grows(entry, m, n);
  }

  /**
   In a store that meets the invariant, an export without long escapes has at most `LONGEST_FILE` bytes,
   whatever the settings; under the default ones it can be imported again.
   */
  lemma ExportFits(s: Store, room: string, at: string)
    requires Inv(s) && |at| <= 20
    requires forall k: nat | k < |ListItems(s, room)| :: Short(ListItems(s, room)[k])
    ensures FileSize(s, room, at) <= LONGEST_FILE
    ensures DefaultSettings() ==> LONGEST_FILE <= MAX_FILE_BYTES
  {
    var vs := ListItems(s, room);
    assert Quotas(s) && FileSize(s, room, at) == Size(FileText(vs, at));
    hide *;
    ListLength(s, room);
    forall k: nat | k < |vs| ensures LimitsMet(vs[k]) && Short(vs[k]) {
      ListedIsBounded(s, room, k);
    }
    LongestFile(vs, at);
    DefaultsFit();
  }
}
