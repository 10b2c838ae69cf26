/** Text and date normalisation of the request models, as far as the task board uses it. */
module TaskText {
  import Decimal
  import opened Wrappers

  /** The characters that `str.strip` and `str.split` treat as white space. */
  predicate IsSpace(c: char) {
    var n := c as int;
    || 0x09 <= n <= 0x0d || 0x1c <= n <= 0x20 || n == 0x85 || n == 0xa0 || n == 0x1680
    || 0x2000 <= n <= 0x200a || n == 0x2028 || n == 0x2029 || n == 0x202f || n == 0x205f || n == 0x3000
  }

  function StripLeft(s: string): (r: string)
    ensures |r| <= |s| && (r == [] || !IsSpace(r[0]))
    ensures s == [] || !IsSpace(s[0]) ==> r == s
  {
    if s != [] && IsSpace(s[0]) then StripLeft(s[1..]) else s
  }

  function StripRight(s: string): (r: string)
    ensures r <= s && (r == [] || !IsSpace(r[|r| - 1]))
    ensures s == [] || !IsSpace(s[|s| - 1]) ==> r == s
  {
    if s != [] && IsSpace(s[|s| - 1]) then StripRight(s[..|s| - 1]) else s
  }

  function Strip(s: string): string {
    StripRight(StripLeft(s))
  }

  predicate Stripped(s: string) {
    s == [] || (!IsSpace(s[0]) && !IsSpace(s[|s| - 1]))
  }

  lemma StripLaws(s: string)
    ensures Stripped(Strip(s))
    ensures Stripped(s) ==> Strip(s) == s
  {
    var l := StripLeft(s);
    if Strip(s) != [] {
      assert Strip(s)[0] == l[0];
    }
  }

  // ---------------------------------------------------------------- tag names

  function FirstWord(s: string): (w: string)
    ensures w <= s && forall c | c in w :: !IsSpace(c)
    ensures s != [] && !IsSpace(s[0]) ==> w != []
    ensures |w| == |s| || IsSpace(s[|w|])
  {
    if s == [] || IsSpace(s[0]) then [] else [s[0]] + FirstWord(s[1..])
  }

  function Words(s: string): (ws: seq<string>)
    ensures forall w | w in ws :: IsWord(w)
    decreases |s|
  {
    var t := StripLeft(s);
    if t == [] then [] else
    var w := FirstWord(t);
    [w] + Words(t[|w|..])
  }

  predicate IsWord(w: string) {
    w != [] && forall c | c in w :: !IsSpace(c)
  }

  function JoinWords(ws: seq<string>): string {
    if ws == [] then [] else if |ws| == 1 then ws[0] else ws[0] + " " + JoinWords(ws[1..])
  }

  /** `_normalize_tag_name`. */
  function NormalizeTagName(raw: string): string {
    JoinWords(Words(raw))
  }

  lemma {:induction false} FirstWordOf(w: string, rest: string)
    requires IsWord(w) && (rest == [] || IsSpace(rest[0]))
    ensures FirstWord(w + rest) == w
  {
    if |w| == 1 {
      assert (w + rest)[1..] == rest;
      assert FirstWord(rest) == [];
    } else {
      assert (w + rest)[1..] == w[1..] + rest;
      assert IsWord(w[1..]);
      FirstWordOf(w[1..], rest);
    }
  }

  /** The first word of a text and what follows it. */
  lemma WordsStep(w: string, rest: string)
    requires IsWord(w) && (rest == [] || IsSpace(rest[0]))
    ensures Words(w + rest) == [w] + Words(rest)
  {
    var s := w + rest;
    FirstWordOf(w, rest);
    assert s[0] == w[0] && w[0] in w;
    assert StripLeft(s) == s && s[|w|..] == rest;
  }

  lemma WordsAfterSpace(rest: string)
    ensures Words(" " + rest) == Words(rest)
  {
    assert (" " + rest)[1..] == rest;
    assert StripLeft(" " + rest) == StripLeft(rest);
  }

  lemma JoinFirst(ws: seq<string>)
    requires |ws| > 1
    ensures JoinWords(ws) == ws[0] + (" " + JoinWords(ws[1..]))
  {
  }

  lemma {:induction false} WordsOfJoin(ws: seq<string>)
    requires forall i | 0 <= i < |ws| :: IsWord(ws[i])
    ensures Words(JoinWords(ws)) == ws
  {
    if |ws| == 1 {
      WordsStep(ws[0], []);
      assert ws[0] + [] == ws[0];
    } else if ws != [] {
      hide Words, JoinWords;
      JoinFirst(ws);
      WordsOfJoin(ws[1..]);
      WordsAfterSpace(JoinWords(ws[1..]));
      WordsStep(ws[0], " " + JoinWords(ws[1..]));
    }
  }

  lemma JoinedStart(ws: seq<string>)
    requires ws != [] && forall j: nat | j < |ws| :: IsWord(ws[j])
    ensures JoinWords(ws) != [] && ws[0] != [] && JoinWords(ws)[0] == ws[0][0] && !IsSpace(ws[0][0])
  {
    assert IsWord(ws[0]) && ws[0][0] in ws[0];
  }

  lemma {:induction false} JoinedSpaces(ws: seq<string>, i: nat)
    requires forall j: nat | j < |ws| :: IsWord(ws[j])
    requires i < |JoinWords(ws)| && IsSpace(JoinWords(ws)[i])
    ensures var n := JoinWords(ws); n[i] == ' ' && 0 < i < |n| - 1 && !IsSpace(n[i - 1]) && !IsSpace(n[i + 1])
  {
    var n, w := JoinWords(ws), ws[0];
    assert forall k: nat | k < |w| :: w[k] in w && !IsSpace(w[k]);
    if |ws| > 1 {
      var tail := JoinWords(ws[1..]);
      JoinFirst(ws);
      JoinedStart(ws[1..]);
      if i == |w| {
        assert n[i - 1] == w[i - 1] && n[i + 1] == tail[0];
      } else if i > |w| {
        assert n[i] == tail[i - |w| - 1];
        JoinedSpaces(ws[1..], i - |w| - 1);
        assert n[i - 1] == tail[i - |w| - 2] && n[i + 1] == tail[i - |w|];
      }
    }
  }

  /** A normalised name has the words of the raw one, with single blanks between them and none around them. */
  lemma NormalizedName(raw: string, i: nat)
    ensures var n := NormalizeTagName(raw);
            && Words(n) == Words(raw)
            && (i < |n| && IsSpace(n[i]) ==>
                  n[i] == ' ' && 0 < i < |n| - 1 && !IsSpace(n[i - 1]) && !IsSpace(n[i + 1]))
  {
    WordsOfJoin(Words(raw));
    if i < |NormalizeTagName(raw)| && IsSpace(NormalizeTagName(raw)[i]) { JoinedSpaces(Words(raw), i); }
  }

  /** White space as Python's `str.isspace` has it. */
  lemma WhiteSpace(c: char)
    ensures IsSpace(c) <==>
            c as int in {9, 10, 11, 12, 13, 28, 29, 30, 31, 32, 0x85, 0xa0, 0x1680, 0x2000, 0x2001, 0x2002, 0x2003,
                         0x2004, 0x2005, 0x2006, 0x2007, 0x2008, 0x2009, 0x200a, 0x2028, 0x2029, 0x202f, 0x205f, 0x3000}
  {
  }

  /** Normalising twice is normalising once, so a stored name is found again under itself. */
  lemma NormalizeTagNameIdempotent(raw: string)
    ensures NormalizeTagName(NormalizeTagName(raw)) == NormalizeTagName(raw)
  {
    WordsOfJoin(Words(raw));
  }

  // ---------------------------------------------------------------- dates

  function DaysInMonth(year: nat, month: nat): nat {
    if month == 2 then (if year % 4 == 0 && (year % 100 != 0 || year % 400 == 0) then 29 else 28)
    else if month in {4, 6, 9, 11} then 30
    else 31
  }

  /** What the pattern and `date.fromisoformat` accept together. */
  predicate IsIsoDate(s: string) {
    && |s| == 10 && s[4] == '-' && s[7] == '-'
    && Decimal.AllDigits(s[..4]) && Decimal.AllDigits(s[5..7]) && Decimal.AllDigits(s[8..])
    && Decimal.Value(s[..4]) >= 1 && 1 <= Decimal.Value(s[5..7]) <= 12
    && 1 <= Decimal.Value(s[8..]) <= DaysInMonth(Decimal.Value(s[..4]), Decimal.Value(s[5..7]))
  }

  /** `_normalize_task_date`; the outer None is the ValueError. */
  function NormalizeDate(value: Option<string>): (r: Option<Option<string>>)
    ensures r.Some? && r.value.Some? ==> IsIsoDate(r.value.value)
  {
    if value.None? then Some(None)
    else
      var t := Strip(value.value);
      if t == [] then Some(None)
      else if IsIsoDate(t) then Some(Some(t))
      else None
  }

  /** A date member is absent when nothing but white space is given, and otherwise an ISO date or refused. */
  lemma DateAnswers(value: Option<string>)
    ensures var r := NormalizeDate(value);
            && (value == None ==> r == Some(None))
            && (value.Some? && Strip(value.value) == "" ==> r == Some(None))
            && (value.Some? && IsIsoDate(Strip(value.value)) ==> r == Some(Some(Strip(value.value))))
            && (value.Some? && Strip(value.value) != "" && !IsIsoDate(Strip(value.value)) ==> r == None)
  {
  }

  lemma IsoDateIsNormal(s: string)
    requires IsIsoDate(s)
    ensures NormalizeDate(Some(s)) == Some(Some(s))
  {
    assert s[..4][0] == s[0] && s[8..][1] == s[9];
    StripLaws(s);
  }
}
