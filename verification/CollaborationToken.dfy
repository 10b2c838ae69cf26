/**
 The signed token of a note's collaboration: written by the Python server, checked by the Node server.
 The keyed hash is a parameter; both sides share it and the secret.
 */
module CollaborationToken {
  import opened Base64
  import Decimal
  import opened Texts
  import opened Wrappers

  /** A UTF-16 code unit, the element of a room's text on both sides. */
  type Unit = n: nat | n < 0x10000
  type Room = seq<Unit>

  /** The keyed hash of a text under a secret. */
  type Mac = (string, string) -> seq<Byte>

  predicate Ascii(s: string) {
    forall i: nat | i < |s| :: s[i] as int < 128
  }

  // ---------------------------------------------------------------- JSON text (RFC 8259)

  function Lower(d: nat): char
    requires d < 16
  {
    HexDigit(d, 'a')
  }

  function Hex4(u: Unit): string {
    [Lower(u / 4096), Lower(u / 256 % 16), Lower(u / 16 % 16), Lower(u % 16)]
  }

  /** The short escapes of section 7: the letter after the backslash, if there is one. */
  function ShortEscape(u: Unit): Option<char> {
    if u == 34 then Some('"')
    else if u == 92 then Some('\\')
    else if u == 8 then Some('b')
    else if u == 9 then Some('t')
    else if u == 10 then Some('n')
    else if u == 12 then Some('f')
    else if u == 13 then Some('r')
    else None
  }

  function Unescape(c: char): Option<Unit> {
    if c == '"' then Some(34)
    else if c == '\\' then Some(92)
    else if c == '/' then Some(47)
    else if c == 'b' then Some(8)
    else if c == 't' then Some(9)
    else if c == 'n' then Some(10)
    else if c == 'f' then Some(12)
    else if c == 'r' then Some(13)
    else None
  }

  /** `json.dumps` of one unit, with `ensure_ascii`. */
  function Escape(u: Unit): string {
    if ShortEscape(u).Some? then ['\\', ShortEscape(u).value]
    else if 32 <= u <= 126 then [u as char]
    else "\\u" + Hex4(u)
  }

  function Escapes(room: Room): string {
    if room == [] then [] else Escape(room[0]) + Escapes(room[1..])
  }

  /** The units up to the closing quote, and what follows it. */
  function ReadString(s: string): Option<(Room, string)>
    decreases |s|
  {
    if s == [] then None
    else if s[0] == '"' then Some(([], s[1..]))
    else if s[0] == '\\' then
      if |s| >= 2 && Unescape(s[1]).Some? then Consed(Unescape(s[1]).value, ReadString(s[2..]))
      else if |s| >= 6 && s[1] == 'u' then
        var (a, b, c, d) := (HexValue(s[2]), HexValue(s[3]), HexValue(s[4]), HexValue(s[5]));
        if a.Some? && b.Some? && c.Some? && d.Some? then
          Consed(HexUnit(a.value, b.value, c.value, d.value), ReadString(s[6..]))
        else None
      else None
    else if 32 <= s[0] as int < 0x10000 then Consed(s[0] as int, ReadString(s[1..]))
    else None
  }

  function HexUnit(a: nat, b: nat, c: nat, d: nat): Unit {
    if a < 16 && b < 16 && c < 16 && d < 16 then a * 4096 + b * 256 + c * 16 + d else 0
  }

  function Consed(u: Unit, r: Option<(Room, string)>): Option<(Room, string)> {
    if r.Some? then Some(([u] + r.value.0, r.value.1)) else None
  }

  predicate Digits(s: string) {
    s != [] && Decimal.AllDigits(s) && (s[0] == '0' ==> |s| == 1)
  }

  function ReadInt(s: string): Option<int> {
    if Digits(s) then Some(Decimal.Value(s))
    else if s != [] && s[0] == '-' && Digits(s[1..]) then Some(0 - Decimal.Value(s[1..]))
    else None
  }

  function After(prefix: string, s: string): Option<string> {
    if prefix <= s then Some(s[|prefix|..]) else None
  }

  // ---------------------------------------------------------------- the payload

  const ROOM_FIELD := "{\"room\":\""
  const EXP_FIELD := ",\"exp\":"

  /** `json.dumps({"room": …, "exp": …}, separators=(",", ":"))`. */
  function Payload(room: Room, exp: int): string {
    ROOM_FIELD + (Escapes(room) + "\"" + (EXP_FIELD + (Decimal.IntText(exp) + "}")))
  }

  /** `JSON.parse`, for payloads with just these two fields in compact form. */
  function ReadPayload(s: string): Option<(Room, int)> {
    var text := After(ROOM_FIELD, s);
    if text.None? then None
    else
      var room := ReadString(text.value);
      if room.None? then None
      else
        var rest := After(EXP_FIELD, room.value.1);
        if rest.None? || rest.value == [] || rest.value[|rest.value| - 1] != '}' then None
        else
          var exp := ReadInt(rest.value[..|rest.value| - 1]);
          if exp.None? then None else Some((room.value.0, exp.value))
  }

  /** The bytes of ASCII text. */
  function Encoded(s: string): seq<Byte>
    requires Ascii(s)
  {
    seq(|s|, i requires 0 <= i < |s| => s[i] as int)
  }

  function Decoded(bytes: seq<Byte>): string {
    seq(|bytes|, i requires 0 <= i < |bytes| => bytes[i] as char)
  }

  // ---------------------------------------------------------------- the token

  const TTL := 3600

  function Body(room: Room, issuedAt: int): string {
    UrlEncode(Encoded(AsciiPayload(room, issuedAt + TTL)))
  }

  function AsciiPayload(room: Room, exp: int): (s: string)
    ensures s == Payload(room, exp) && Ascii(s)
  {
    PayloadAscii(room, exp);
    Payload(room, exp)
  }

  /** `create_collaboration_token`; without a secret it raises. */
  function Create(mac: Mac, secret: string, room: Room, issuedAt: int): Option<string> {
    if secret == "" then None
    else Some(Body(room, issuedAt) + "." + UrlEncode(mac(secret, Body(room, issuedAt))))
  }

  /** `verifyCollaborationToken`. */
  predicate Verify(mac: Mac, token: string, room: Room, secret: string, now: real) {
    && secret != "" && |token| <= 2048
    && var parts := Split(token, '.');
       && parts[0] != "" && |parts| >= 2 && parts[1] != "" && (|parts| == 2 || parts[2] == "")
       && NodeDecode(parts[1]) == mac(secret, parts[0])
       && var payload := ReadPayload(Decoded(NodeDecode(parts[0])));
          payload.Some? && payload.value.0 == room && payload.value.1 as real > now
  }

  // ---------------------------------------------------------------- printing is read back

  lemma HexReads(d: nat)
    requires d < 16
    ensures HexValue(Lower(d)) == Some(d) && Lower(d) as int < 128
  {
  }

  lemma HexParts(u: Unit)
    ensures HexUnit(u / 4096, u / 256 % 16, u / 16 % 16, u % 16) == u
  {
    var v, w := u / 16, u / 256;
    assert v / 16 == w && w / 16 == u / 4096;
    assert u == v * 16 + u % 16 && v == w * 16 + v % 16 && w == u / 4096 * 16 + w % 16;
  }

  /** Four hexadecimal digits stand for the unit. */
  ghost predicate Stand(s: string, u: Unit) {
    && |s| == 4 && Ascii(s)
    && HexValue(s[0]).Some? && HexValue(s[1]).Some? && HexValue(s[2]).Some? && HexValue(s[3]).Some?
    && HexUnit(HexValue(s[0]).value, HexValue(s[1]).value, HexValue(s[2]).value, HexValue(s[3]).value) == u
  }

  lemma Hex4Reads(u: Unit)
    ensures Stand(Hex4(u), u)
  {
    hide Lower, HexValue, HexUnit;
    HexReads(u / 4096);
    HexReads(u / 256 % 16);
    HexReads(u / 16 % 16);
    HexReads(u % 16);
    HexParts(u);
  }

  lemma HexEscapeReads(hex: string, u: Unit, rest: string)
    requires Stand(hex, u)
    ensures Ascii("\\u" + hex) && ReadString("\\u" + hex + rest) == Consed(u, ReadString(rest))
  {
    hide HexValue, HexUnit, Consed;
    var s := "\\u" + hex + rest;
    assert s[6..] == rest;
    assert s[2] == hex[0] && s[3] == hex[1] && s[4] == hex[2] && s[5] == hex[3];
    assert s[0] == '\\' && s[1] == 'u' && |s| >= 6;
  }

  lemma EscapeReads(u: Unit, rest: string)
    ensures Ascii(Escape(u)) && ReadString(Escape(u) + rest) == Consed(u, ReadString(rest))
  {
    hide Consed, Hex4, HexValue, HexUnit;
    var s := Escape(u) + rest;
    if ShortEscape(u).Some? {
      assert s[2..] == rest;
    } else if 32 <= u <= 126 {
      assert s[1..] == rest;
    } else {
      hide ReadString, Stand;
      Hex4Reads(u);
      HexEscapeReads(Hex4(u), u, rest);
    }
  }

  lemma QuoteEnds(rest: string)
    ensures ReadString("\"" + rest) == Some(([], rest))
  {
    assert ("\"" + rest)[1..] == rest;
  }

  lemma {:induction false} StringReads(room: Room, rest: string)
    ensures Ascii(Escapes(room)) && ReadString(Escapes(room) + "\"" + rest) == Some((room, rest))
  {
    hide ReadString, Escape;
    if room == [] {
      assert Escapes(room) + "\"" + rest == "\"" + rest;
      QuoteEnds(rest);
    } else {
      var tail := Escapes(room[1..]) + "\"" + rest;
      EscapeReads(room[0], tail);
      StringReads(room[1..], rest);
      assert Escapes(room) + "\"" + rest == Escape(room[0]) + tail;
      assert room == [room[0]] + room[1..];
    }
  }

  lemma {:induction false} TextDigits(n: nat)
    ensures Digits(Decimal.Text(n)) && (n > 0 ==> Decimal.Text(n)[0] != '0')
  {
    if n >= 10 {
      TextDigits(n / 10);
    }
  }

  lemma IntReads(n: int)
    ensures ReadInt(Decimal.IntText(n)) == Some(n) && Ascii(Decimal.IntText(n))
  {
    hide Decimal.Text, Decimal.Value;
    if n < 0 {
      TextDigits(-n);
      Decimal.ValueOfText(-n);
      assert Decimal.IntText(n)[1..] == Decimal.Text(-n);
    } else {
      TextDigits(n);
      Decimal.ValueOfText(n);
    }
  }

  lemma PayloadAscii(room: Room, exp: int)
    ensures Ascii(Payload(room, exp))
  {
    StringReads(room, "");
    IntReads(exp);
    hide Escapes, Decimal.IntText;
  }

  /** A printed payload is read back, for every room text and expiry. */
  lemma PayloadReads(room: Room, exp: int)
    ensures ReadPayload(Payload(room, exp)) == Some((room, exp))
  {
    hide Escapes, ReadString, Decimal.IntText, ReadInt;
    var rest := EXP_FIELD + (Decimal.IntText(exp) + "}");
    var text := Escapes(room) + "\"" + rest;
    StringReads(room, rest);
    IntReads(exp);
    assert (ROOM_FIELD + text)[|ROOM_FIELD|..] == text;
    assert rest[|EXP_FIELD|..] == Decimal.IntText(exp) + "}";
    assert (Decimal.IntText(exp) + "}")[..|Decimal.IntText(exp)|] == Decimal.IntText(exp);
  }

  lemma SplitTwo(a: string, b: string)
    requires '.' !in a && '.' !in b
    ensures Split(a + "." + b, '.') == [a, b]
  {
    SplitAt(a, '.', b);
    SplitPlain(a, '.');
    SplitPlain(b, '.');
    assert a + "." + b == a + ['.'] + b;
  }

  // ---------------------------------------------------------------- what verifies

  /**
   A token verifies exactly for its own room, before its hour is over, and when it is not longer than 2048
   characters.
   */
  lemma VerifiesIff(mac: Mac, secret: string, room: Room, issuedAt: int, other: Room, now: real)
    requires secret != "" && mac(secret, Body(room, issuedAt)) != []
    ensures var token := Create(mac, secret, room, issuedAt).value;
            Verify(mac, token, other, secret, now) <==>
            other == room && now < (issuedAt + TTL) as real && |token| <= 2048
  {
    var payload := AsciiPayload(room, issuedAt + TTL);
    var body := Body(room, issuedAt);
    var signature := UrlEncode(mac(secret, body));
    PayloadReads(room, issuedAt + TTL);
    hide Payload, ReadPayload, UrlEncode, NodeDecode, Split;
    RoundTrip(Encoded(payload));
    RoundTrip(mac(secret, body));
    EncodedIsSafe(Encoded(payload));
    EncodedIsSafe(mac(secret, body));
    SplitTwo(body, signature);
    assert Decoded(Encoded(payload)) == payload;
    PayloadNotEmpty(room, issuedAt + TTL);
  }

  /** A server without a secret makes no tokens, and a checker without one accepts none. */
  lemma SecretNeeded(mac: Mac, secret: string, room: Room, issuedAt: int, token: string, now: real)
    ensures Create(mac, secret, room, issuedAt).None? <==> secret == ""
    ensures Verify(mac, token, room, "", now) == false
  {
  }

  lemma FirstPart(c: string)
    ensures Split(c, '.')[0] == "" <==> c == "" || c[0] == '.'
  {
  }

  /** The parts of a token with at least two dots. */
  lemma SplitThree(a: string, b: string, c: string)
    requires '.' !in a && '.' !in b
    ensures var parts := Split(a + "." + b + "." + c, '.');
            |parts| >= 3 && parts[0] == a && parts[1] == b && (parts[2] == "" <==> c == "" || c[0] == '.')
  {
    SplitPlain(a, '.');
    SplitPlain(b, '.');
    FirstPart(c);
    hide Split;
    SplitAt(a, '.', b + "." + c);
    SplitAt(b, '.', c);
    assert a + "." + b + "." + c == a + ['.'] + (b + "." + c) && b + "." + c == b + ['.'] + c;
    assert Split(a + "." + b + "." + c, '.') == [a, b] + Split(c, '.');
  }

  /**
   Only two parts are looked at: a text without a dot or with an empty part before the second dot is refused, and
   whatever follows a second dot must be nothing or start with another dot.
   */
  lemma TokenParts(mac: Mac, a: string, b: string, c: string, room: Room, secret: string, now: real)
    requires '.' !in a && '.' !in b
    ensures !Verify(mac, a, room, secret, now)
    ensures Verify(mac, a + "." + b, room, secret, now) ==> a != "" && b != ""
    ensures Verify(mac, a + "." + b + "." + c, room, secret, now) <==>
            && Verify(mac, a + "." + b, room, secret, now) && (c == "" || c[0] == '.')
            && |a + "." + b + "." + c| <= 2048
  {
    SplitPlain(a, '.');
    SplitTwo(a, b);
    SplitThree(a, b, c);
    hide NodeDecode, ReadPayload, Split, Decoded;
  }

  /**
   A token that verifies carries the keyed hash of its first part, is for one room only, and is as good at any
   earlier time; some time no longer.
   */
  lemma VerifiedMeans(mac: Mac, a: string, b: string, room: Room, secret: string, now: real) returns (end: int)
    requires '.' !in a && '.' !in b && Verify(mac, a + "." + b, room, secret, now)
    ensures NodeDecode(b) == mac(secret, a)
    ensures forall other: Room, at: real | at <= now :: Verify(mac, a + "." + b, other, secret, at) <==> other == room
    ensures forall at: real :: Verify(mac, a + "." + b, room, secret, at) <==> at < end as real
  {
    SplitTwo(a, b);
    var payload := ReadPayload(Decoded(NodeDecode(a)));
    hide Split, NodeDecode, ReadPayload;
    end := payload.value.1;
  }

  lemma TextStep(n: nat, c: char)
    requires '0' <= c <= '9'
    ensures n > 0 ==> Decimal.Text(10 * n + (c as int - '0' as int)) == Decimal.Text(n) + [c]
    ensures Decimal.Text(c as int - '0' as int) == [c]
  {
    var d := c as int - '0' as int;
    assert (10 * n + d) / 10 == n && (10 * n + d) % 10 == d;
  }

  lemma FrontDigits(s: string)
    requires Digits(s) && |s| > 1
    ensures Digits(s[..|s| - 1]) && s[..|s| - 1][0] == s[0] != '0'
  {
    Decimal.LastDigit(s);
    hide Decimal.Value, Decimal.AllDigits;
  }

  /** Digits without a leading zero are what the number they stand for prints as. */
  lemma {:induction false} DigitsPrinted(s: string)
    requires Digits(s)
    ensures s[0] != '0' ==> Decimal.Value(s) > 0
    ensures Decimal.Text(Decimal.Value(s)) == s
  {
    var n := |s| - 1;
    Decimal.LastDigit(s);
    assert s == s[..n] + [s[n]];
    if n > 0 { FrontDigits(s); } else { Decimal.ValueOfNothing(); }
    TextStep(Decimal.Value(s[..n]), s[n]);
    hide *;
    if n > 0 { DigitsPrinted(s[..n]); } else { assert s[..n] == []; }
  }

  /** A number is read exactly from its decimal text; zero also from `-0`. */
  lemma ReadIntIff(s: string, n: int)
    ensures ReadInt(s) == Some(n) <==> s == Decimal.IntText(n) || (s == "-0" && n == 0)
  {
    IntReads(n);
    hide Decimal.Value;
    if Digits(s) {
      DigitsPrinted(s);
    } else if s != [] && s[0] == '-' && Digits(s[1..]) {
      DigitsPrinted(s[1..]);
      assert s == "-" + s[1..];
    }
    if s == "-0" && n == 0 { DigitsPrinted("0"); Decimal.ValueOfText(0); }
  }

  /** A text ends at its first quote; a backslash before anything but the escapes makes it no text. */
  lemma UnknownEscape(c: char, rest: string)
    requires c !in ['"', '\\', '/', 'b', 'f', 'n', 'r', 't', 'u']
    ensures ReadString(['\\', c] + rest) == None
  {
  }

  /** The length of a unit in JSON text: two for what has a short escape, one for printable ASCII, six otherwise. */
  lemma EscapeLength(u: Unit)
    ensures |Escape(u)| == if u in {8, 9, 10, 12, 13, 34, 92} then 2 else if 32 <= u <= 126 then 1 else 6
  {
  }

  /** The short escapes of section 7 of RFC 8259, as they are read. */
  lemma ShortEscapesRead(c: char)
    ensures Unescape(c).Some? <==> c in ['"', '\\', '/', 'b', 'f', 'n', 'r', 't']
    ensures Unescape('"') == Some(34) && Unescape('\\') == Some(92) && Unescape('/') == Some(47)
    ensures Unescape('b') == Some(8) && Unescape('t') == Some(9) && Unescape('n') == Some(10)
    ensures Unescape('f') == Some(12) && Unescape('r') == Some(13)
  {
  }

  lemma PayloadNotEmpty(room: Room, exp: int)
    ensures Payload(room, exp) != []
  {
  }

  /** With 32 bytes of signature a token fits exactly when its payload has at most 1503 characters. */
  lemma FitsIff(mac: Mac, secret: string, room: Room, issuedAt: int)
    requires secret != "" && |mac(secret, Body(room, issuedAt))| == 32
    ensures |Create(mac, secret, room, issuedAt).value| <= 2048 <==> |Payload(room, issuedAt + TTL)| <= 1503
  {
    hide Payload, UrlEncode;
    EncodedIsSafe(Encoded(AsciiPayload(room, issuedAt + TTL)));
    EncodedIsSafe(mac(secret, Body(room, issuedAt)));
  }
}
