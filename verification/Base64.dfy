/**
 Base64 and its URL form (sections 4 and 5 of RFC 4648): the browser's `btoa` and `atob`, the two helpers
 built on them, and the decoder of Node.
 */
module Base64 {
  import opened Texts
  import opened Wrappers

  type Sextet = n: nat | n < 64

  // ---------------------------------------------------------------- the alphabet

  function Letter(i: Sextet): char {
    if i < 26 then ('A' as int + i) as char
    else if i < 52 then ('a' as int + i - 26) as char
    else if i < 62 then ('0' as int + i - 52) as char
    else if i == 62 then '+'
    else '/'
  }

  function Index(c: char): Option<Sextet> {
    if 'A' <= c <= 'Z' then Some(c as int - 'A' as int)
    else if 'a' <= c <= 'z' then Some(c as int - 'a' as int + 26)
    else if '0' <= c <= '9' then Some(c as int - '0' as int + 52)
    else if c == '+' then Some(62)
    else if c == '/' then Some(63)
    else None
  }

  function ToUrl(c: char): char {
    if c == '+' then '-' else if c == '/' then '_' else c
  }

  function FromUrl(c: char): char {
    if c == '-' then '+' else if c == '_' then '/' else c
  }

  predicate UrlSafe(c: char) {
    'A' <= c <= 'Z' || 'a' <= c <= 'z' || '0' <= c <= '9' || c == '-' || c == '_'
  }

  lemma LetterReads(i: Sextet)
    ensures Index(Letter(i)) == Some(i) && UrlSafe(ToUrl(Letter(i))) && FromUrl(ToUrl(Letter(i))) == Letter(i)
  {
  }

  // ---------------------------------------------------------------- encoding

  // The four sextets of three bytes; a missing byte counts as 0.

  function First(a: Byte): Sextet {
    a / 4
  }

  function Second(a: Byte, b: Byte): Sextet {
    a % 4 * 16 + b / 16
  }

  function Third(b: Byte, c: Byte): Sextet {
    b % 16 * 4 + c / 64
  }

  function Fourth(c: Byte): Sextet {
    c % 64
  }

  /** The sextets of the groups of three bytes; a last group of one or two bytes has two or three. */
  function Sextets(bytes: seq<Byte>): seq<Sextet> {
    if |bytes| == 0 then []
    else if |bytes| == 1 then [First(bytes[0]), Second(bytes[0], 0)]
    else if |bytes| == 2 then [First(bytes[0]), Second(bytes[0], bytes[1]), Third(bytes[1], 0)]
    else [First(bytes[0]), Second(bytes[0], bytes[1]), Third(bytes[1], bytes[2]), Fourth(bytes[2])]
         + Sextets(bytes[3..])
  }

  function Letters(bytes: seq<Byte>): string {
    var s := Sextets(bytes);
    seq(|s|, i requires 0 <= i < |s| => Letter(s[i]))
  }

  function Padding(n: nat): string {
    if n % 3 == 1 then "==" else if n % 3 == 2 then "=" else ""
  }

  /** `btoa` and `base64.b64encode`. */
  function Btoa(bytes: seq<Byte>): string {
    Letters(bytes) + Padding(|bytes|)
  }

  function Mapped(s: string, f: char -> char): (r: string)
    ensures |r| == |s| && forall i: nat | i < |s| :: r[i] == f(s[i])
  {
    seq(|s|, i requires 0 <= i < |s| => f(s[i]))
  }

  /** Trailing equals signs removed, `rstrip("=")`. */
  function Stripped(s: string): string {
    if s != [] && s[|s| - 1] == '=' then Stripped(s[..|s| - 1]) else s
  }

  function UrlEncode(bytes: seq<Byte>): string {
    Stripped(Mapped(Btoa(bytes), ToUrl))
  }

  // ---------------------------------------------------------------- decoding

  // The three bytes of four sextets.

  function High(w: Sextet, x: Sextet): Byte {
    w * 4 + x / 16
  }

  function Middle(x: Sextet, y: Sextet): Byte {
    x % 16 * 16 + y / 4
  }

  function Low(y: Sextet, z: Sextet): Byte {
    y % 4 * 64 + z
  }

  /** The bytes of groups of four sextets; a last group has two or three, and its spare bits are dropped. */
  function Bytes(s: seq<Sextet>): seq<Byte> {
    if |s| < 2 then []
    else if |s| == 2 then [High(s[0], s[1])]
    else if |s| == 3 then [High(s[0], s[1]), Middle(s[1], s[2])]
    else [High(s[0], s[1]), Middle(s[1], s[2]), Low(s[2], s[3])] + Bytes(s[4..])
  }

  predicate AllLetters(s: string) {
    forall i: nat | i < |s| :: Index(s[i]).Some?
  }

  function Indices(s: string): seq<Sextet>
    requires AllLetters(s)
  {
    seq(|s|, i requires 0 <= i < |s| => Index(s[i]).value)
  }

  predicate Space(c: char) {
    c == ' ' || c == '\t' || c == '\n' || c == '\r' || c as int == 12
  }

  function NoSpaces(s: string): string {
    if s == [] then [] else (if Space(s[0]) then [] else [s[0]]) + NoSpaces(s[1..])
  }

  /** One or two equals signs that complete a group of four. */
  function Unpadded(s: string): string {
    if |s| % 4 != 0 || s == [] || s[|s| - 1] != '=' then s
    else if s[|s| - 2] == '=' then s[..|s| - 2]
    else s[..|s| - 1]
  }

  /** `atob`; `None` is the exception it throws. */
  function Atob(s: string): Option<seq<Byte>> {
    var t := Unpadded(NoSpaces(s));
    if |t| % 4 == 1 || !AllLetters(t) then None else Some(Bytes(Indices(t)))
  }

  function Pad(s: string): string
    decreases (4 - |s| % 4) % 4
  {
    if |s| % 4 == 0 then s else Pad(s + "=")
  }

  function UrlDecode(value: string): Option<seq<Byte>> {
    Atob(Pad(Mapped(value, FromUrl)))
  }

  /** The letters of either alphabet; Node's decoder passes over anything else. */
  function OnlyLetters(s: string): (r: string)
    ensures AllLetters(r)
  {
    if s == [] then []
    else if Index(FromUrl(s[0])).Some? then [FromUrl(s[0])] + OnlyLetters(s[1..])
    else OnlyLetters(s[1..])
  }

  /** `Buffer.from(s, "base64url")`. */
  function NodeDecode(s: string): seq<Byte> {
    Bytes(Indices(OnlyLetters(s)))
  }

  // ---------------------------------------------------------------- round trips

  lemma GroupReads(a: Byte, b: Byte, c: Byte)
    ensures High(First(a), Second(a, b)) == a
    ensures Middle(Second(a, b), Third(b, c)) == b
    ensures Low(Third(b, c), Fourth(c)) == c
  {
  }

  /** Three bytes as one number of 24 bits. */
  function Number3(a: int, b: int, c: int): int {
    a * 65536 + b * 256 + c
  }

  /** Four sextets as one number of 24 bits. */
  function Number4(w: int, x: int, y: int, z: int): int {
    w * 262144 + x * 4096 + y * 64 + z
  }

  /** Sextets that stand for a group of bytes: the same bits, filled up with zeros on the right. */
  predicate Codes(group: seq<Byte>, s: seq<Sextet>) {
    || (|group| == 3 && |s| == 4 && Number4(s[0], s[1], s[2], s[3]) == Number3(group[0], group[1], group[2]))
    || (|group| == 2 && |s| == 3 && Number4(s[0], s[1], s[2], 0) == Number3(group[0], group[1], 0))
    || (|group| == 1 && |s| == 2 && Number4(s[0], s[1], 0, 0) == Number3(group[0], 0, 0))
  }

  function Slice<T>(s: seq<T>, from: nat, to: nat): seq<T> {
    if from > |s| || to < from then [] else if to > |s| then s[from..] else s[from..to]
  }

  lemma GroupValue(a: Byte, b: Byte, c: Byte)
    ensures Number4(First(a), Second(a, b), Third(b, c), Fourth(c)) == Number3(a, b, c)
    ensures Number4(First(a), Second(a, b), Third(b, 0), 0) == Number3(a, b, 0)
    ensures Number4(First(a), Second(a, 0), 0, 0) == Number3(a, 0, 0)
  {
  }

  /** Every group of up to three bytes is coded by the four, three or two sextets in its place (section 4). */
  lemma {:induction false} GroupsAreCoded(bytes: seq<Byte>, i: nat)
    requires 3 * i < |bytes|
    ensures Codes(Slice(bytes, 3 * i, 3 * i + 3), Slice(Sextets(bytes), 4 * i, 4 * i + 4))
  {
    hide First, Second, Third, Fourth, Number3, Number4;
    if i == 0 {
      GroupValue(bytes[0], if |bytes| > 1 then bytes[1] else 0, if |bytes| > 2 then bytes[2] else 0);
    } else {
      hide Codes, Slice;
      assert Sextets(bytes)[4..] == Sextets(bytes[3..]);
      GroupsAreCoded(bytes[3..], i - 1);
      SliceShift(bytes, 3, 3 * (i - 1), 3 * (i - 1) + 3);
      SliceShift(Sextets(bytes), 4, 4 * (i - 1), 4 * (i - 1) + 4);
    }
  }

  lemma SliceShift<T>(s: seq<T>, k: nat, from: nat, to: nat)
    requires k <= |s|
    ensures Slice(s[k..], from, to) == Slice(s, from + k, to + k)
  {
  }

  lemma {:induction false} SextetsRead(bytes: seq<Byte>)
    ensures Bytes(Sextets(bytes)) == bytes && |Sextets(bytes)| == (4 * |bytes| + 2) / 3
  {
    hide First, Second, Third, Fourth, High, Middle, Low;
    if |bytes| == 1 {
      GroupReads(bytes[0], 0, 0);
    } else if |bytes| == 2 {
      GroupReads(bytes[0], bytes[1], 0);
    } else if |bytes| >= 3 {
      GroupReads(bytes[0], bytes[1], bytes[2]);
      SextetsRead(bytes[3..]);
      assert Sextets(bytes)[4..] == Sextets(bytes[3..]);
      assert bytes == [bytes[0], bytes[1], bytes[2]] + bytes[3..];
    }
  }

  lemma LettersRead(bytes: seq<Byte>)
    ensures AllLetters(Letters(bytes)) && Bytes(Indices(Letters(bytes))) == bytes
    ensures |Letters(bytes)| == (4 * |bytes| + 2) / 3
  {
    var s := Sextets(bytes);
    SextetsRead(bytes);
    hide Sextets, Bytes, Letter, Index;
    forall i: nat | i < |s| ensures Index(Letters(bytes)[i]) == Some(s[i]) {
      LetterReads(s[i]);
    }
    assert Indices(Letters(bytes)) == s;
  }

  predicate AllUrlSafe(s: string) {
    forall i: nat | i < |s| :: UrlSafe(s[i])
  }

  lemma {:induction false} LettersSafe(bytes: seq<Byte>)
    ensures AllUrlSafe(Mapped(Letters(bytes), ToUrl))
    ensures Mapped(Mapped(Letters(bytes), ToUrl), FromUrl) == Letters(bytes)
  {
    var s := Sextets(bytes);
    hide Sextets, Letter, ToUrl, FromUrl, UrlSafe;
    forall i: nat | i < |s|
      ensures UrlSafe(ToUrl(Letters(bytes)[i])) && FromUrl(ToUrl(Letters(bytes)[i])) == Letters(bytes)[i]
    {
      LetterReads(s[i]);
    }
  }

  lemma StrippedPadding(s: string, pad: string)
    requires pad == "" || pad == "=" || pad == "=="
    requires s == [] || s[|s| - 1] != '='
    ensures Stripped(s + pad) == s
  {
    assert Stripped(s) == s && s + "" == s;
    assert (s + "=")[..|s|] == s && Stripped(s + "=") == s;
    assert (s + "==")[..|s| + 1] == s + "=" && Stripped(s + "==") == s;
  }

  /** The URL form is the letters with two of them replaced, and nothing else. */
  lemma UrlEncodeIs(bytes: seq<Byte>)
    ensures UrlEncode(bytes) == Mapped(Letters(bytes), ToUrl)
  {
    var s := Mapped(Letters(bytes), ToUrl);
    LettersSafe(bytes);
    hide Letters, Stripped;
    assert Mapped(Btoa(bytes), ToUrl) == s + Padding(|bytes|);
    StrippedPadding(s, Padding(|bytes|));
  }

  /** Encoded text has URL-safe characters only, so none of `.`, `+`, `/` and `=`, and a length set by the bytes. */
  lemma EncodedIsSafe(bytes: seq<Byte>)
    ensures AllUrlSafe(UrlEncode(bytes)) && |UrlEncode(bytes)| == (4 * |bytes| + 2) / 3
    ensures forall c | c in {'.', '+', '/', '='} :: c !in UrlEncode(bytes)
  {
    UrlEncodeIs(bytes);
    LettersSafe(bytes);
    LettersRead(bytes);
    hide Letters, UrlEncode;
    var s := UrlEncode(bytes);
    assert forall i: nat | i < |s| :: UrlSafe(s[i]);
  }

  lemma {:induction false} NoSpacesKeeps(s: string)
    requires forall i: nat | i < |s| :: !Space(s[i])
    ensures NoSpaces(s) == s
  {
    if s != [] {
      NoSpacesKeeps(s[1..]);
    }
  }

  lemma PadDone(s: string)
    requires |s| % 4 == 0
    ensures Pad(s) == s
  {
  }

  lemma PadStep(s: string, t: string)
    requires |s| % 4 != 0 && t == s + "="
    ensures |t| == |s| + 1 && Pad(s) == Pad(t)
  {
  }

  lemma NextRemainder(n: nat)
    ensures (n + 1) % 4 == if n % 4 == 3 then 0 else n % 4 + 1
  {
  }

  /** Padding to a multiple of four; one character over takes three signs, which `atob` refuses. */
  lemma PadCases(s: string, t: string, u: string, v: string)
    requires t == s + "=" && u == t + "=" && v == u + "="
    ensures Pad(s) == if |s| % 4 == 0 then s else if |s| % 4 == 3 then t else if |s| % 4 == 2 then u else v
  {
    hide Pad;
    NextRemainder(|s|);
    NextRemainder(|t|);
    NextRemainder(|u|);
    if |s| % 4 == 0 {
      PadDone(s);
    } else {
      PadStep(s, t);
      if |s| % 4 == 3 {
        PadDone(t);
      } else {
        PadStep(t, u);
        if |s| % 4 == 2 {
          PadDone(u);
        } else {
          PadStep(u, v);
          PadDone(v);
        }
      }
    }
  }

  lemma UnpadOne(s: string)
    requires |s| % 4 == 3 && s[|s| - 1] != '='
    ensures Unpadded(s + "=") == s
  {
    var t := s + "=";
    NextRemainder(|s|);
    assert t[..|t| - 1] == s && t[|t| - 1] == '=' && t[|t| - 2] == s[|s| - 1];
  }

  lemma UnpadTwo(s: string)
    requires |s| % 4 == 2 && s[|s| - 1] != '='
    ensures Unpadded(s + "==") == s
  {
    var t := s + "==";
    NextRemainder(|s|);
    NextRemainder(|s| + 1);
    assert t[..|t| - 2] == s && t[|t| - 1] == '=' && t[|t| - 2] == '=';
  }

  lemma UnpadCases(s: string)
    requires s == [] || s[|s| - 1] != '='
    ensures Unpadded(s) == s
    ensures |s| % 4 == 3 ==> Unpadded(s + "=") == s
    ensures |s| % 4 == 2 ==> Unpadded(s + "==") == s
  {
    assert Unpadded(s) == s;
    hide Unpadded;
    if |s| % 4 == 3 { UnpadOne(s); }
    if |s| % 4 == 2 { UnpadTwo(s); }
  }

  lemma LengthCases(n: nat)
    ensures (4 * n + 2) / 3 % 4 == if n % 3 == 0 then 0 else n % 3 + 1
  {
    var q, r := n / 3, if n % 3 == 0 then 0 else n % 3 + 1;
    assert n == 3 * q + n % 3;
    QuotientIs(4 * n + 2, 3, 4 * q + r);
    QuotientIs(4 * q + r, 4, q);
  }

  /** A number between two multiples. */
  lemma QuotientIs(a: nat, d: nat, q: nat)
    requires d > 0 && d * q <= a < d * q + d
    ensures a / d == q && a % d == a - d * q
  {
    assert a - d * q == (a / d - q) * d + a % d;
    if a / d > q {
      Multiple(a / d - q - 1, d);
    } else if a / d < q {
      Multiple(q - a / d - 1, d);
    }
  }

  lemma Multiple(n: nat, d: nat)
    ensures (n + 1) * d >= d
  {
  }

  lemma PadIs(s: string, n: nat)
    requires |s| == (4 * n + 2) / 3
    ensures Pad(s) == s + Padding(n)
  {
    LengthCases(n);
    PadCases(s, s + "=", s + "==", s + "===");
    assert s + "=" + "=" == s + "==" && s + "==" + "=" == s + "===" && s + "" == s;
  }

  lemma UnpaddedIs(s: string, n: nat)
    requires |s| == (4 * n + 2) / 3 && (s == [] || s[|s| - 1] != '=')
    ensures Unpadded(s + Padding(n)) == s
  {
    LengthCases(n);
    UnpadCases(s);
    assert s + "" == s;
  }

  /** What `atob` makes of padded letters. */
  lemma AtobReads(s: string, n: nat)
    requires |s| == (4 * n + 2) / 3 && AllLetters(s)
    ensures Atob(s + Padding(n)) == Some(Bytes(Indices(s)))
  {
    var t := s + Padding(n);
    forall i: nat | i < |t| ensures !Space(t[i]) {
      if i < |s| { assert Index(s[i]).Some?; }
    }
    NoSpacesKeeps(t);
    assert s != [] ==> Index(s[|s| - 1]).Some?;
    UnpaddedIs(s, n);
    LengthCases(n);
  }

  /** Decoding gives back every byte sequence, in the browser and in Node. */
  lemma RoundTrip(bytes: seq<Byte>)
    ensures UrlDecode(UrlEncode(bytes)) == Some(bytes)
    ensures NodeDecode(UrlEncode(bytes)) == bytes
  {
    hide Letters, UrlEncode, AllLetters, Atob, OnlyLetters, Bytes, Indices, Pad, AllUrlSafe;
    var s := Letters(bytes);
    UrlEncodeIs(bytes);
    LettersSafe(bytes);
    LettersRead(bytes);
    PadIs(s, |bytes|);
    AtobReads(s, |bytes|);
    OnlyLettersKeeps(UrlEncode(bytes));
  }

  lemma {:induction false} NoSpacesConcat(a: string, b: string)
    ensures NoSpaces(a + b) == NoSpaces(a) + NoSpaces(b)
  {
    if a == [] {
      assert a + b == b;
    } else {
      assert (a + b)[1..] == a[1..] + b;
      NoSpacesConcat(a[1..], b);
    }
  }

  /** `atob` passes over ASCII white space: tab, line feed, form feed, carriage return and blank. */
  lemma SpacesIgnored(a: string, c: char, b: string)
    ensures Space(c) <==> c as int in {9, 10, 12, 13, 32}
    ensures c as int in {9, 10, 12, 13, 32} ==> Atob(a + [c] + b) == Atob(a + b)
  {
    if Space(c) {
      NoSpacesConcat(a + [c], b);
      NoSpacesConcat(a, [c]);
      NoSpacesConcat(a, b);
      assert NoSpaces([c]) == [];
      hide Atob;
      assert NoSpaces(a + [c] + b) == NoSpaces(a + b);
      SameAtob(a + [c] + b, a + b);
    }
  }

  lemma SameAtob(s: string, t: string)
    requires NoSpaces(s) == NoSpaces(t)
    ensures Atob(s) == Atob(t)
  {
  }

  lemma LonelyFails(s: string)
    requires |s| % 4 == 1 && AllLetters(s)
    ensures Atob(s + "===") == None
  {
    var t := s + "===";
    forall i: nat | i < |t| ensures !Space(t[i]) {
      if i < |s| { assert Index(s[i]).Some?; }
    }
    NoSpacesKeeps(t);
    assert t[|t| - 1] == '=' && t[|t| - 2] == '=' && t[..|t| - 2][|s|] == '=';
  }

  /** URL-safe text fails to decode exactly when its length leaves one character over. */
  lemma DecodeFailsIff(s: string)
    requires AllUrlSafe(s)
    ensures UrlDecode(s) == None <==> |s| % 4 == 1
  {
    var t := Mapped(s, FromUrl);
    forall i: nat | i < |t| ensures Index(t[i]).Some? {
      assert UrlSafe(s[i]);
    }
    assert AllLetters(t);
    hide Pad, Atob, AllLetters, AllUrlSafe;
    if |s| % 4 == 1 {
      assert t + "=" + "=" == t + "==" && t + "==" + "=" == t + "===";
      PadCases(t, t + "=", t + "==", t + "===");
      LonelyFails(t);
    } else {
      var n := 3 * (|s| / 4) + (if |s| % 4 == 0 then 0 else |s| % 4 - 1);
      PadIs(t, n);
      AtobReads(t, n);
    }
  }

  lemma {:induction false} OnlyLettersKeeps(s: string)
    requires AllUrlSafe(s)
    ensures OnlyLetters(s) == Mapped(s, FromUrl)
  {
    if s != [] {
      OnlyLettersKeeps(s[1..]);
    }
  }

  // ---------------------------------------------------------------- the browser's loops

  method Base64UrlEncode(bytes: array<Byte>) returns (text: string)
    ensures text == UrlEncode(bytes[..])
  {
    var binary: string := "";
    for i := 0 to bytes.Length
      invariant |binary| == i && forall j: nat | j < i :: binary[j] as int == bytes[j]
    {
      binary := binary + [bytes[i] as char];
    }
    var codes: seq<Byte> := seq(|binary|, j requires 0 <= j < |binary| && binary[j] as int < 256 => binary[j] as int);
    assert codes == bytes[..];
    text := Stripped(Mapped(Btoa(codes), ToUrl));
  }

  /** How many signs are missing to a multiple of four. */
  function Missing(n: nat): nat {
    if n % 4 == 0 then 0 else 4 - n % 4
  }

  lemma PaddedOnce(s: string, t: string)
    requires |s| % 4 != 0 && t == s + "="
    ensures Pad(s) == Pad(t) && Missing(|t|) < Missing(|s|)
  {
    hide Pad;
    PadStep(s, t);
    NextRemainder(|s|);
  }

  method Base64UrlDecode(value: string) returns (thrown: bool, bytes: array<Byte>)
    ensures thrown <==> UrlDecode(value) == None
    ensures !thrown ==> UrlDecode(value) == Some(bytes[..])
  {
    hide Atob, FromUrl, Mapped, Pad, Missing;
    var normalized := Mapped(value, FromUrl);
    while |normalized| % 4 != 0
      invariant Pad(normalized) == Pad(Mapped(value, FromUrl))
      decreases Missing(|normalized|)
    {
      PaddedOnce(normalized, normalized + "=");
      normalized := normalized + "=";
    }
    PadDone(normalized);
    var binary := Atob(normalized);
    if binary.None? {
      bytes := new Byte[0];
      return true, bytes;
    }
    bytes := new Byte[|binary.value|];
    for i := 0 to |binary.value|
      invariant forall j: nat | j < i :: bytes[j] == binary.value[j]
    {
      bytes[i] := binary.value[i];
    }
    assert bytes[..] == binary.value;
    return false, bytes;
  }
}
