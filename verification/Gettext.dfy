/**
 The message-format compiler of the catalog generator: `{name}` templates become gettext templates
 for Python's `%` operator.  It preserves meaning exactly on the templates that hold no literal
 `%(name)s`, and its output never holds a stray percent sign.
 */
module Gettext {
  import opened Wrappers

  // ---------------------------------------------------------------- the two patterns

  predicate IdentStart(c: char) { 'A' <= c <= 'Z' || 'a' <= c <= 'z' || c == '_' }

  predicate IdentChar(c: char) { IdentStart(c) || '0' <= c <= '9' }

  predicate IsIdent(x: string) {
    x != [] && IdentStart(x[0]) && forall i | 0 <= i < |x| :: IdentChar(x[i])
  }

  /** The longest run of identifier characters at the head of a text. */
  function Run(s: string): (r: string)
    ensures r <= s && (forall i | 0 <= i < |r| :: IdentChar(r[i])) && (|r| == |s| || !IdentChar(s[|r|]))
  {
    if s == [] || !IdentChar(s[0]) then [] else [s[0]] + Run(s[1..])
  }

  /** The identifier between `open` and `close` at the head of a text. */
  function Enclosed(s: string, open: string, close: string): (r: Option<string>)
    ensures r.Some? ==> IsIdent(r.value) && open + r.value + close <= s
  {
    if !(open <= s) then None
    else
      var x := Run(s[|open|..]);
      if x == [] || !IdentStart(x[0]) || !(close <= s[|open| + |x|..]) then None
      else
        assert open + x + close <= s;
        Some(x)
  }

  /** `BRACE_PLACEHOLDER_RE` at the head of a text. */
  function Brace(s: string): Option<string> { Enclosed(s, "{", "}") }

  /** The look-ahead of `PERCENT_RE` together with the percent sign before it. */
  function Spec(s: string): Option<string> { Enclosed(s, "%(", ")s") }

  function SpecText(x: string): string { "%(" + x + ")s" }

  // ---------------------------------------------------------------- the compiler

  /** The substitution of `BRACE_PLACEHOLDER_RE`. */
  function SubBraces(s: string): string {
    if s == [] then []
    else match Brace(s)
      case Some(x) => SpecText(x) + SubBraces(s[|x| + 2..])
      case None => [s[0]] + SubBraces(s[1..])
  }

  /** The substitution of `PERCENT_RE`. */
  function EscapePercents(s: string): string {
    if s == [] then []
    else if s[0] == '%' && Spec(s).None? then "%%" + EscapePercents(s[1..])
    else [s[0]] + EscapePercents(s[1..])
  }

  /** `_gettext_format`. */
  function GettextFormat(v: string): string {
    EscapePercents(SubBraces(v))
  }

  // ---------------------------------------------------------------- what templates mean

  datatype Rendered = Text(text: string) | MissingKey | Unsupported {
    function Prepend(s: string): Rendered {
      if Text? then Text(s + text) else this
    }
  }

  /** Python's `value % params` for a mapping; conversions other than `%%` and `%(name)s` are Unsupported. */
  function Percent(s: string, params: map<string, string>): Rendered {
    if s == [] then Text([])
    else if s[0] != '%' then Percent(s[1..], params).Prepend([s[0]])
    else if "%%" <= s then Percent(s[2..], params).Prepend("%")
    else match Spec(s)
      case None => Unsupported
      case Some(x) =>
        if x !in params then MissingKey else Percent(s[|x| + 4..], params).Prepend(params[x])
  }

  /** The meaning of the brace template: every `{name}` replaced by its parameter. */
  function Direct(s: string, params: map<string, string>): Rendered {
    if s == [] then Text([])
    else match Brace(s)
      case None => Direct(s[1..], params).Prepend([s[0]])
      case Some(x) =>
        if x !in params then MissingKey else Direct(s[|x| + 2..], params).Prepend(params[x])
  }

  /** A literal gettext placeholder somewhere in the template. */
  ghost predicate HasLiteralSpec(v: string) {
    exists i :: 0 <= i <= |v| && Spec(v[i..]).Some?
  }

  // ---------------------------------------------------------------- scanning lemmas

  lemma {:induction false} RunOfIdent(x: string, rest: string)
    requires (forall i | 0 <= i < |x| :: IdentChar(x[i])) && (rest == [] || !IdentChar(rest[0]))
    ensures Run(x + rest) == x
  {
    if x != [] {
      assert (x + rest)[1..] == x[1..] + rest;
      RunOfIdent(x[1..], rest);
    } else {
      assert x + rest == rest;
    }
  }

  lemma EnclosedIs(open: string, x: string, close: string, rest: string)
    requires IsIdent(x) && close != [] && !IdentChar(close[0])
    ensures Enclosed(open + x + close + rest, open, close) == Some(x)
  {
    var s := open + x + close + rest;
    assert s[|open|..] == x + (close + rest);
    RunOfIdent(x, close + rest);
    assert s[|open| + |x|..] == close + rest;
  }

  /** A name is a letter or an underscore, and letters, digits and underscores after it, all of them ASCII. */
  lemma IdentIff(x: string)
    ensures IsIdent(x) <==>
            && x != [] && !(48 <= x[0] as int <= 57)
            && forall i: nat | i < |x| ::
                 var c := x[i] as int; 48 <= c <= 57 || 65 <= c <= 90 || c == 95 || 97 <= c <= 122
  {
  }

  /** What the two patterns match at the head of a text: a name in its marks, and nothing else. */
  lemma PlaceholderIff(s: string, x: string)
    ensures Brace(s) == Some(x) <==> IsIdent(x) && "{" + x + "}" <= s
    ensures Spec(s) == Some(x) <==> IsIdent(x) && "%(" + x + ")s" <= s
  {
    if IsIdent(x) && "{" + x + "}" <= s {
      EnclosedIs("{", x, "}", s[|x| + 2..]);
      assert s == "{" + x + "}" + s[|x| + 2..];
    }
    if IsIdent(x) && "%(" + x + ")s" <= s {
      EnclosedIs("%(", x, ")s", s[|x| + 4..]);
      assert s == "%(" + x + ")s" + s[|x| + 4..];
    }
  }

  lemma EnclosedSplits(s: string, open: string, close: string)
    requires Enclosed(s, open, close).Some?
    ensures var x := Enclosed(s, open, close).value;
            s == open + x + close + s[|open| + |x| + |close|..]
  {
  }

  lemma {:induction false} EscapeCopies(a: string, b: string)
    requires '%' !in a
    ensures EscapePercents(a + b) == a + EscapePercents(b)
  {
    if a == [] {
      assert a + b == b;
    } else {
      assert (a + b)[1..] == a[1..] + b;
      EscapeCopies(a[1..], b);
      assert a + EscapePercents(b) == [a[0]] + (a[1..] + EscapePercents(b));
    }
  }

  lemma {:induction false} BracesCopy(a: string, b: string)
    requires '{' !in a
    ensures SubBraces(a + b) == a + SubBraces(b)
  {
    if a == [] {
      assert a + b == b;
    } else {
      assert (a + b)[1..] == a[1..] + b;
      BracesCopy(a[1..], b);
      assert a + SubBraces(b) == [a[0]] + (a[1..] + SubBraces(b));
    }
  }

  lemma PrependTwice(r: Rendered, a: string, b: string)
    ensures r.Prepend(b).Prepend(a) == r.Prepend(a + b)
  {
    if r.Text? { assert a + (b + r.text) == (a + b) + r.text; }
  }

  lemma DirectFirst(a: string, params: map<string, string>)
    requires a != [] && a[0] != '{'
    ensures Direct(a, params) == Direct(a[1..], params).Prepend([a[0]])
  {
  }

  lemma {:induction false} DirectCopies(a: string, b: string, params: map<string, string>)
    requires '{' !in a
    ensures Direct(a + b, params) == Direct(b, params).Prepend(a)
  {
    if a == [] {
      assert a + b == b;
    } else {
      assert (a + b)[1..] == a[1..] + b;
      hide Direct, Brace, Rendered.Prepend;
      DirectFirst(a + b, params);
      DirectCopies(a[1..], b, params);
      PrependTwice(Direct(b, params), [a[0]], a[1..]);
      assert a == [a[0]] + a[1..];
    }
  }

  lemma IdentHasNoMarks(x: string)
    requires IsIdent(x)
    ensures '%' !in x && '{' !in x
  {
  }

  lemma EscapeMark(s: string)
    requires s != [] && Spec(s).Some?
    ensures EscapePercents(s) == [s[0]] + EscapePercents(s[1..])
  {
  }

  /** A placeholder is copied by the escaping step. */
  lemma SpecEscapes(x: string, rest: string)
    requires IsIdent(x)
    ensures EscapePercents(SpecText(x) + rest) == SpecText(x) + EscapePercents(rest)
  {
    var tail := "(" + x + ")s";
    assert SpecText(x) == ['%'] + tail;
    var s := SpecText(x) + rest;
    assert Spec(s) == Some(x) by { EnclosedIs("%(", x, ")s", rest); }
    hide EscapePercents, Spec;
    EscapeMark(s);
    assert s[1..] == tail + rest;
    IdentHasNoMarks(x);
    EscapeCopies(tail, rest);
    assert ['%'] + (tail + EscapePercents(rest)) == (['%'] + tail) + EscapePercents(rest);
  }

  /** A placeholder is read back by the formatting step. */
  lemma SpecFormats(x: string, rest: string, params: map<string, string>)
    requires IsIdent(x)
    ensures Percent(SpecText(x) + rest, params) ==
            if x in params then Percent(rest, params).Prepend(params[x]) else MissingKey
  {
    EnclosedIs("%(", x, ")s", rest);
    var s := SpecText(x) + rest;
    assert s == "%(" + x + ")s" + rest && s[1] == '(';
    assert s[|x| + 4..] == rest;
  }

  /** The escaping step leaves only `%%` and placeholders, whatever it is given. */
  lemma {:induction false} EscapedIsSupported(s: string, params: map<string, string>)
    ensures Percent(EscapePercents(s), params) != Unsupported
    decreases |s|
  {
    if s != [] {
      if s[0] != '%' {
        EscapedIsSupported(s[1..], params);
        assert EscapePercents(s)[1..] == EscapePercents(s[1..]);
      } else if Spec(s).None? {
        EscapedIsSupported(s[1..], params);
        assert EscapePercents(s)[2..] == EscapePercents(s[1..]);
      } else {
        var x := Spec(s).value;
        var rest := s[|x| + 4..];
        EnclosedSplits(s, "%(", ")s");
        SpecEscapes(x, rest);
        SpecFormats(x, EscapePercents(rest), params);
        EscapedIsSupported(rest, params);
      }
    }
  }

  /** For every template and parameter map the output holds no stray percent sign. */
  lemma NoStrayPercent(v: string, params: map<string, string>)
    ensures Percent(GettextFormat(v), params) != Unsupported
  {
    EscapedIsSupported(SubBraces(v), params);
  }

  // ---------------------------------------------------------------- meaning is preserved

  lemma BraceHead(w: string)
    requires w != [] && Brace(w).Some?
    ensures SubBraces(w) != [] && SubBraces(w)[0] == '%'
  {
  }

  /** Text without a percent sign at the head of the substituted template was there before. */
  lemma {:induction false} HeadWasThere(t: string, w: string)
    requires '%' !in t && t <= SubBraces(w)
    ensures t <= w
  {
    if t != [] {
      assert w != [];
      assert SubBraces(w)[0] == t[0];
      assert Brace(w).None? by { if Brace(w).Some? { BraceHead(w); } }
      assert t[1..] <= SubBraces(w)[1..] == SubBraces(w[1..]);
      HeadWasThere(t[1..], w[1..]);
    }
  }

  lemma SpecHead(x: string, w: string)
    requires IsIdent(x)
    ensures "(" + x + ")s" <= w ==> Spec(['%'] + w).Some?
    ensures SpecText(x) <= ['%'] + w ==> "(" + x + ")s" <= w
  {
    var t := "(" + x + ")s";
    assert SpecText(x) == ['%'] + t;
    if t <= w {
      assert ['%'] + w == "%(" + x + ")s" + w[|t|..];
      EnclosedIs("%(", x, ")s", w[|t|..]);
    }
    if SpecText(x) <= ['%'] + w {
      assert w == (['%'] + w)[1..] && t == SpecText(x)[1..];
    }
  }

  lemma SpecWasThere(w: string)
    requires Spec(['%'] + SubBraces(w)).Some?
    ensures Spec(['%'] + w).Some?
  {
    var x := Spec(['%'] + SubBraces(w)).value;
    IdentHasNoMarks(x);
    SpecHead(x, SubBraces(w));
    HeadWasThere("(" + x + ")s", w);
    SpecHead(x, w);
  }

  lemma LiteralInTail(v: string, k: nat)
    requires k <= |v| && HasLiteralSpec(v[k..])
    ensures HasLiteralSpec(v)
  {
    var i :| 0 <= i <= |v[k..]| && Spec(v[k..][i..]).Some?;
    assert v[k..][i..] == v[k + i..];
  }

  /** The two renderings of a template agree. */
  ghost predicate Agrees(v: string, params: map<string, string>) {
    Percent(GettextFormat(v), params) == Direct(v, params)
  }

  lemma BraceAgrees(v: string, params: map<string, string>)
    requires Brace(v).Some? && Agrees(v[|Brace(v).value| + 2..], params)
    ensures Agrees(v, params)
  {
    var x := Brace(v).value;
    var rest := v[|x| + 2..];
    SpecEscapes(x, SubBraces(rest));
    SpecFormats(x, GettextFormat(rest), params);
    hide Percent, EscapePercents, Brace;
  }

  lemma CharAgrees(v: string, params: map<string, string>)
    requires v != [] && Brace(v).None? && Spec(v).None? && Agrees(v[1..], params)
    ensures Agrees(v, params)
  {
    assert SubBraces(v)[1..] == SubBraces(v[1..]);
    if v[0] == '%' {
      assert v == ['%'] + v[1..];
      if Spec(SubBraces(v)).Some? { SpecWasThere(v[1..]); }
      assert GettextFormat(v) == "%%" + GettextFormat(v[1..]);
      assert GettextFormat(v)[2..] == GettextFormat(v[1..]);
    } else {
      assert GettextFormat(v)[1..] == GettextFormat(v[1..]);
    }
  }

  lemma {:induction false} MeaningPreserved(v: string, params: map<string, string>)
    requires !HasLiteralSpec(v)
    ensures Percent(GettextFormat(v), params) == Direct(v, params)
    decreases |v|
  {
    hide Percent, Direct, GettextFormat;
    if v == [] {
      NothingAgrees(params);
    } else if Brace(v).Some? {
      var k := |Brace(v).value| + 2;
      if HasLiteralSpec(v[k..]) { LiteralInTail(v, k); }
      MeaningPreserved(v[k..], params);
      BraceAgrees(v, params);
    } else {
      assert v[0..] == v;
      if HasLiteralSpec(v[1..]) { LiteralInTail(v, 1); }
      MeaningPreserved(v[1..], params);
      CharAgrees(v, params);
    }
  }

  lemma NothingAgrees(params: map<string, string>)
    ensures Agrees([], params)
  {
  }

  // ---------------------------------------------------------------- and only then

  ghost predicate AllBlank(params: map<string, string>) {
    forall x | x in params :: params[x] == ""
  }

  ghost predicate Covers(params: map<string, string>, v: string) {
    forall i, j | 0 <= i <= j <= |v| :: v[i..j] in params
  }

  lemma CoversTail(params: map<string, string>, v: string, k: nat)
    requires Covers(params, v) && k <= |v|
    ensures Covers(params, v[k..])
  {
    forall i, j | 0 <= i <= j <= |v[k..]| ensures v[k..][i..j] in params {
      assert v[k..][i..j] == v[k + i..k + j];
    }
  }

  lemma LiteralBeyond(v: string, i: nat, k: nat)
    requires k <= i <= |v| && Spec(v[i..]).Some?
    ensures HasLiteralSpec(v[k..])
  {
    assert v[k..][i - k..] == v[i..];
  }

  /** No literal placeholder starts inside a brace placeholder. */
  lemma NoSpecInBrace(v: string, i: nat)
    requires Brace(v).Some? && i < |Brace(v).value| + 2
    ensures i <= |v| && Spec(v[i..]).None?
  {
    var x := Brace(v).value;
    IdentHasNoMarks(x);
    EnclosedSplits(v, "{", "}");
    if 1 <= i <= |x| { assert v[i] == x[i - 1] && x[i - 1] in x; }
    assert v[i..][0] == v[i];
  }

  lemma LiteralPastBrace(v: string)
    requires Brace(v).Some? && HasLiteralSpec(v)
    ensures HasLiteralSpec(v[|Brace(v).value| + 2..])
  {
    var x := Brace(v).value;
    var i :| 0 <= i <= |v| && Spec(v[i..]).Some?;
    if i < |x| + 2 { NoSpecInBrace(v, i); }
    LiteralBeyond(v, i, |x| + 2);
  }

  /** Both renderings of a template and of what follows its first element, compared. */
  ghost predicate Shorter(v: string, params: map<string, string>) {
    var p, d := Percent(GettextFormat(v), params), Direct(v, params);
    p.Text? && d.Text? && |p.text| <= |d.text| && (HasLiteralSpec(v) ==> |p.text| < |d.text|)
  }

  lemma BlankBrace(v: string, params: map<string, string>)
    requires Brace(v).Some? && AllBlank(params) && Covers(params, v)
    requires Shorter(v[|Brace(v).value| + 2..], params)
    ensures Shorter(v, params)
  {
    var x := Brace(v).value;
    var rest := v[|x| + 2..];
    hide HasLiteralSpec, Percent;
    EnclosedSplits(v, "{", "}");
    SpecEscapes(x, SubBraces(rest));
    SpecFormats(x, GettextFormat(rest), params);
    assert v[1..|x| + 1] == x;
    if HasLiteralSpec(v) { LiteralPastBrace(v); }
  }

  lemma BlankLiteral(v: string, params: map<string, string>)
    requires Spec(v).Some? && AllBlank(params) && Covers(params, v)
    requires Shorter(v[|Spec(v).value| + 4..], params)
    ensures Shorter(v, params)
  {
    var x := Spec(v).value;
    var rest := v[|x| + 4..];
    EnclosedSplits(v, "%(", ")s");
    assert v[2..|x| + 2] == x;
    assert v == SpecText(x) + rest;
    hide Percent, Direct, GettextFormat, HasLiteralSpec;
    LiteralRendered(x, rest, params);
  }

  /** A literal placeholder is filled in by formatting but is text to the brace template. */
  lemma LiteralRendered(x: string, rest: string, params: map<string, string>)
    requires IsIdent(x) && x in params
    ensures Percent(GettextFormat(SpecText(x) + rest), params) ==
            Percent(GettextFormat(rest), params).Prepend(params[x])
    ensures Direct(SpecText(x) + rest, params) == Direct(rest, params).Prepend(SpecText(x))
  {
    IdentHasNoMarks(x);
    BracesCopy(SpecText(x), rest);
    DirectCopies(SpecText(x), rest, params);
    SpecEscapes(x, SubBraces(rest));
    SpecFormats(x, GettextFormat(rest), params);
  }

  lemma BlankChar(v: string, params: map<string, string>)
    requires v != [] && Brace(v).None? && Spec(v).None?
    requires Shorter(v[1..], params)
    ensures Shorter(v, params)
  {
    assert SubBraces(v)[1..] == SubBraces(v[1..]);
    if v[0] == '%' {
      assert v == ['%'] + v[1..];
      assert Spec(SubBraces(v)).None? by { if Spec(SubBraces(v)).Some? { SpecWasThere(v[1..]); } }
      assert GettextFormat(v)[2..] == GettextFormat(v[1..]);
    } else {
      assert GettextFormat(v)[1..] == GettextFormat(v[1..]);
    }
    if HasLiteralSpec(v) {
      assert v[0..] == v;
      var i :| 0 <= i <= |v| && Spec(v[i..]).Some?;
      LiteralBeyond(v, i, 1);
    }
  }

  /** With blank parameters both renderings succeed, and a literal placeholder costs length. */
  lemma {:induction false} BlankLengths(v: string, params: map<string, string>)
    requires AllBlank(params) && Covers(params, v)
    ensures Shorter(v, params)
    decreases |v|
  {
    if v == [] {
      assert forall i | 0 <= i <= |v| :: v[i..] == [];
    } else {
      var k := if Brace(v).Some? then |Brace(v).value| + 2 else if Spec(v).Some? then |Spec(v).value| + 4 else 1;
      CoversTail(params, v, k);
      BlankLengths(v[k..], params);
      if Brace(v).Some? { BlankBrace(v, params); }
      else if Spec(v).Some? { BlankLiteral(v, params); }
      else { BlankChar(v, params); }
    }
  }

  /** Formatting the compiled template is filling in the brace template, errors included. */
  predicate SameMeaning(v: string, params: map<string, string>) {
    Percent(GettextFormat(v), params) == Direct(v, params)
  }

  /**
   The compiled template means the same as the brace template under every parameter map exactly
   when the template holds no literal gettext placeholder.
   */
  lemma MeaningPreservedIff(v: string)
    ensures (forall params :: SameMeaning(v, params)) <==> !HasLiteralSpec(v)
  {
    if HasLiteralSpec(v) {
      var blank := map i, j | 0 <= i <= j <= |v| :: v[i..j] := "";
      BlankLengths(v, blank);
      assert !SameMeaning(v, blank);
    } else {
      forall params: map<string, string> ensures SameMeaning(v, params) {
        MeaningPreserved(v, params);
      }
    }
  }

  // ---------------------------------------------------------------- the translator

  /** `str.format` on a text and parameters; None when it raises. */
  type Format = (string, map<string, string>) -> Option<string>

  /**
   `translate`: without parameters the message is not formatted at all; when percent formatting raises,
   `str.format` is tried, and when that raises too the message is shown as it is.
   */
  function Translate(message: string, params: map<string, string>, format: Format): string {
    if params == map[] then message
    else match Percent(message, params) case Text(t) => t case _ => format(message, params).GetOr(message)
  }

  /** A template is shown as written without parameters exactly when compiling it changes nothing. */
  predicate Inert(v: string) {
    v == [] || (Brace(v).None? && (v[0] == '%' ==> Spec(v).Some?) && Inert(v[1..]))
  }

  lemma {:induction false} SubBracesGrows(v: string)
    ensures |SubBraces(v)| >= |v|
    decreases |v|
  {
    if v != [] {
      if Brace(v).Some? { SubBracesGrows(v[|Brace(v).value| + 2..]); } else { SubBracesGrows(v[1..]); }
    }
  }

  lemma {:induction false} EscapeGrows(v: string)
    ensures |EscapePercents(v)| >= |v|
  {
    if v != [] { EscapeGrows(v[1..]); }
  }

  lemma {:induction false} InertStays(v: string)
    ensures Inert(v) ==> SubBraces(v) == v && EscapePercents(v) == v
  {
    if v != [] && Inert(v) {
      InertStays(v[1..]);
      assert v == [v[0]] + v[1..];
    }
  }

  lemma {:induction false} ChangedGrows(v: string)
    requires !Inert(v)
    ensures |GettextFormat(v)| > |v|
    decreases |v|
  {
    if Brace(v).Some? {
      var rest := v[|Brace(v).value| + 2..];
      SubBracesGrows(rest);
      EscapeGrows(SubBraces(v));
    } else if v[0] == '%' && Spec(v).None? {
      assert v == ['%'] + v[1..];
      assert Spec(SubBraces(v)).None? by { if Spec(SubBraces(v)).Some? { SpecWasThere(v[1..]); } }
      assert SubBraces(v)[1..] == SubBraces(v[1..]);
      SubBracesGrows(v[1..]);
      EscapeGrows(SubBraces(v[1..]));
    } else {
      ChangedGrows(v[1..]);
      assert SubBraces(v)[1..] == SubBraces(v[1..]);
    }
  }

  /**
   A message without parameters is shown as its template was written exactly when the template has
   no placeholder and no percent sign outside a literal gettext placeholder: any other percent sign
   is shown doubled.
   */
  lemma UnformattedIff(v: string, format: Format)
    ensures Translate(GettextFormat(v), map[], format) == v <==> Inert(v)
  {
    if Inert(v) { InertStays(v); } else { ChangedGrows(v); }
  }

  /**
   With parameters a template translates to its direct meaning where that is defined, and otherwise to what
   the fallback makes of the compiled template.
   */
  lemma TranslateMeaning(v: string, params: map<string, string>, format: Format)
    requires !HasLiteralSpec(v) && params != map[]
    ensures Translate(GettextFormat(v), params, format) ==
            if Direct(v, params).Text? then Direct(v, params).text
            else format(GettextFormat(v), params).GetOr(GettextFormat(v))
  {
    MeaningPreserved(v, params);
  }
}
