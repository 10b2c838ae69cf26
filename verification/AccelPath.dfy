/**
 Two readings of "this path lies under this root" on a POSIX system: the group storage's `is_safe_path` and
 the URI that hands a file to nginx, which is to lead back to the same file.
 */
module AccelPath {
  import opened Texts
  import opened Wrappers

  /** Text in UTF-8. */
  type Text = seq<Byte>

  const SLASH: Byte := 47
  const DOT: Byte := 46
  const PERCENT: Byte := 37

  // ---------------------------------------------------------------- text and components

  /** `s.split("/")`. */
  function Parts(s: Text): (parts: seq<Text>)
    ensures parts != []
  {
    Split(s, SLASH)
  }

  /** `"/".join(parts)`. */
  function Join(parts: seq<Text>): Text {
    if parts == [] then []
    else if |parts| == 1 then parts[0]
    else parts[0] + [SLASH] + Join(parts[1..])
  }

  predicate Starts(s: Text, prefix: Text) {
    prefix <= s
  }

  /** A component that names something: not empty, not `.` and not `..`. */
  predicate Plain(part: Text) {
    part != [] && part != [DOT] && part != [DOT, DOT] && SLASH !in part
  }

  predicate AllPlain(parts: seq<Text>) {
    forall i: nat | i < |parts| :: Plain(parts[i])
  }

  // ---------------------------------------------------------------- os.path

  /** An absolute normalised path; POSIX keeps exactly two leading slashes apart from one. */
  datatype Path = Path(double: bool, parts: seq<Text>)

  predicate IsAbs(s: Text) {
    Starts(s, [SLASH])
  }

  predicate IsDouble(s: Text) {
    Starts(s, [SLASH, SLASH]) && !Starts(s, [SLASH, SLASH, SLASH])
  }

  /** The loop of `normpath` for an absolute path, from the components kept so far. */
  function Fold(kept: seq<Text>, parts: seq<Text>): seq<Text>
    decreases |parts|
  {
    if parts == [] then kept
    else if parts[0] == [] || parts[0] == [DOT] then Fold(kept, parts[1..])
    else if parts[0] != [DOT, DOT] then Fold(kept + [parts[0]], parts[1..])
    else Fold(if kept == [] then [] else kept[..|kept| - 1], parts[1..])
  }

  function Normal(s: Text): Path {
    Path(IsDouble(s), Fold([], Parts(s)))
  }

  function Render(p: Path): Text {
    (if p.double then [SLASH, SLASH] else [SLASH]) + Join(p.parts)
  }

  /** `os.path.join` of two. */
  function JoinPath(a: Text, b: Text): Text {
    if IsAbs(b) then b
    else if a == [] || a[|a| - 1] == SLASH then a + b
    else a + [SLASH] + b
  }

  /** `os.path.abspath`, in a working directory. */
  function AbsPath(cwd: Text, s: Text): Path {
    Normal(JoinPath(cwd, s))
  }

  function Components(parts: seq<Text>): seq<Text> {
    if parts == [] then []
    else (if parts[0] == [] || parts[0] == [DOT] then [] else [parts[0]]) + Components(parts[1..])
  }

  function Common(a: seq<Text>, b: seq<Text>): (n: nat)
    ensures n <= |a| && n <= |b| && a[..n] == b[..n]
    ensures n < |a| && n < |b| ==> a[n] != b[n]
  {
    if a == [] || b == [] || a[0] != b[0] then 0 else 1 + Common(a[1..], b[1..])
  }

  /** `os.path.commonpath` of two absolute paths: its prefix is one slash, whatever theirs are. */
  function CommonPath(a: Text, b: Text): Text {
    var x, y := Components(Parts(a)), Components(Parts(b));
    [SLASH] + Join(x[..Common(x, y)])
  }

  function Ups(n: nat): seq<Text> {
    seq(n, i => [DOT, DOT])
  }

  /** The way from one list of components to another. */
  function Way(start: seq<Text>, path: seq<Text>): seq<Text> {
    var n := Common(start, path);
    Ups(|start| - n) + path[n..]
  }

  /** `os.path.relpath` of two absolute normalised paths. */
  function RelPath(path: Text, start: Text): Text {
    var way := Way(Components(Parts(start)), Components(Parts(path)));
    if way == [] then [DOT] else Join(way)
  }

  // ---------------------------------------------------------------- the two readings

  /** `is_safe_path`. */
  predicate IsSafePath(cwd: Text, base: Text, target: Text) {
    var baseAbs := Render(AbsPath(cwd, base));
    CommonPath(Render(AbsPath(cwd, target)), baseAbs) == baseAbs
  }

  predicate Unreserved(b: Byte) {
    65 <= b <= 90 || 97 <= b <= 122 || 48 <= b <= 57 || b == 95 || b == 46 || b == 45 || b == 126
  }

  function Upper(d: nat): Byte
    requires d < 16
  {
    HexDigit(d, 'A') as int
  }

  /** `urllib.parse.quote` of text without slashes. */
  function Quote(s: Text): Text {
    if s == [] then []
    else (if Unreserved(s[0]) then [s[0]] else [PERCENT, Upper(s[0] / 16), Upper(s[0] % 16)]) + Quote(s[1..])
  }

  function QuoteAll(parts: seq<Text>): seq<Text> {
    if parts == [] then [] else [Quote(parts[0])] + QuoteAll(parts[1..])
  }

  /** `rstrip("/")`. */
  function Trimmed(s: Text): Text {
    if s != [] && s[|s| - 1] == SLASH then Trimmed(s[..|s| - 1]) else s
  }

  /** `_build_accel_uri`. */
  function BuildAccelUri(cwd: Text, internalPrefix: Text, fsRoot: Text, path: Text): Option<Text> {
    var rel := RelPath(Render(AbsPath(cwd, path)), Render(AbsPath(cwd, fsRoot)));
    if rel == [DOT, DOT] || Starts(rel, [DOT, DOT, SLASH]) || IsAbs(rel) then None
    else Some(Trimmed(internalPrefix) + [SLASH] + Join(QuoteAll(Parts(rel))))
  }

  // ---------------------------------------------------------------- splitting and joining

  predicate NoSlashes(parts: seq<Text>) {
    forall i: nat | i < |parts| :: SLASH !in parts[i]
  }

  lemma {:induction false} SplitJoin(parts: seq<Text>)
    requires parts != [] && NoSlashes(parts)
    ensures Parts(Join(parts)) == parts
  {
    SplitPlain(parts[0], SLASH);
    if |parts| > 1 {
      SplitJoin(parts[1..]);
      SplitAt(parts[0], SLASH, Join(parts[1..]));
      assert parts == [parts[0]] + parts[1..];
    }
  }

  lemma {:induction false} SplitNoSlashes(s: Text)
    ensures NoSlashes(Parts(s))
  {
    if s != [] {
      SplitNoSlashes(s[1..]);
    }
  }

  lemma {:induction false} ComponentsPlain(parts: seq<Text>)
    requires AllPlain(parts)
    ensures Components(parts) == parts
  {
    if parts != [] {
      ComponentsPlain(parts[1..]);
    }
  }

  /** The leading slashes of a rendered path give empty parts. */
  function Heads(p: Path): seq<Text> {
    if p.double then [[], []] else [[]]
  }

  lemma SlashSplits(s: Text)
    ensures Parts([SLASH] + s) == [[]] + Parts(s)
  {
    SplitAt([], SLASH, s);
    assert [] + [SLASH] + s == [SLASH] + s;
  }

  lemma RenderedSplits(p: Path)
    ensures Parts(Render(p)) == Heads(p) + Parts(Join(p.parts))
  {
    var tail := Join(p.parts);
    hide Parts;
    SlashSplits(tail);
    SlashSplits([SLASH] + tail);
    assert [SLASH, SLASH] + tail == [SLASH] + ([SLASH] + tail);
    assert [[], []] + Parts(tail) == [[]] + ([[]] + Parts(tail));
  }

  /** The components of a rendered path. */
  lemma RenderedParts(p: Path)
    requires AllPlain(p.parts)
    ensures Components(Parts(Render(p))) == p.parts
  {
    var tail := Join(p.parts);
    var parts := Parts(tail);
    RenderedSplits(p);
    assert Components(parts) == p.parts by {
      if p.parts != [] {
        assert NoSlashes(p.parts);
        SplitJoin(p.parts);
        ComponentsPlain(p.parts);
      }
    }
    assert ([[]] + parts)[1..] == parts && ([[], []] + parts)[1..] == [[]] + parts;
  }

  lemma {:induction false} FoldPlain(kept: seq<Text>, parts: seq<Text>)
    requires AllPlain(kept) && NoSlashes(parts)
    ensures AllPlain(Fold(kept, parts))
    decreases |parts|
  {
    if parts != [] {
      if parts[0] == [] || parts[0] == [DOT] {
        FoldPlain(kept, parts[1..]);
      } else if parts[0] != [DOT, DOT] {
        FoldPlain(kept + [parts[0]], parts[1..]);
      } else {
        FoldPlain(if kept == [] then [] else kept[..|kept| - 1], parts[1..]);
      }
    }
  }

  lemma NormalIsPlain(s: Text)
    ensures AllPlain(Normal(s).parts)
  {
    SplitNoSlashes(s);
    FoldPlain([], Parts(s));
  }

  lemma {:induction false} JoinHead(parts: seq<Text>)
    requires parts != []
    ensures parts[0] <= Join(parts)
    ensures |parts| > 1 ==> parts[0] + [SLASH] <= Join(parts)
  {
  }

  /** Joined components tell their list. */
  lemma JoinInjective(a: seq<Text>, b: seq<Text>)
    requires AllPlain(a) && AllPlain(b) && Join(a) == Join(b)
    ensures a == b
  {
    assert NoSlashes(a) && NoSlashes(b);
    if a != [] { SplitJoin(a); JoinHead(a); }
    if b != [] { SplitJoin(b); JoinHead(b); }
  }

  // ---------------------------------------------------------------- agreement

  /** The path's components begin with the root's. */
  predicate Under(root: Path, path: Path) {
    root.parts <= path.parts
  }

  lemma {:induction false} CommonIsAll(a: seq<Text>, b: seq<Text>)
    ensures (Common(a, b) == |a| <==> a <= b) && (Common(a, b) == |b| <==> b <= a)
  {
    if a != [] && b != [] && a[0] == b[0] {
      CommonIsAll(a[1..], b[1..]);
      assert a == [a[0]] + a[1..] && b == [b[0]] + b[1..];
    }
  }

  lemma JoinStart(parts: seq<Text>)
    requires AllPlain(parts)
    ensures Join(parts) == [] || Join(parts)[0] != SLASH
  {
    if parts != [] {
      JoinHead(parts);
      assert Plain(parts[0]) && Join(parts)[0] == parts[0][0];
    }
  }

  lemma CommonIs(b: Path, t: Path)
    requires AllPlain(b.parts) && AllPlain(t.parts)
    ensures CommonPath(Render(t), Render(b)) == [SLASH] + Join(t.parts[..Common(t.parts, b.parts)])
  {
    hide Render, Parts, Components, Join;
    RenderedParts(b);
    RenderedParts(t);
  }

  /** Which components, rendered with one slash, are those of a path. */
  lemma RendersAs(parts: seq<Text>, p: Path)
    requires AllPlain(parts) && AllPlain(p.parts)
    ensures [SLASH] + Join(parts) == Render(p) <==> parts == p.parts && !p.double
  {
    hide Join;
    assert ([SLASH] + Join(parts))[1..] == Join(parts);
    if p.double {
      JoinStart(parts);
      assert Render(p)[1] == SLASH;
    } else {
      assert Render(p)[1..] == Join(p.parts);
      if Join(parts) == Join(p.parts) { JoinInjective(parts, p.parts); }
    }
  }

  lemma SafeIs(cwd: Text, base: Text, target: Text)
    ensures IsSafePath(cwd, base, target) <==>
            Under(AbsPath(cwd, base), AbsPath(cwd, target)) && !AbsPath(cwd, base).double
  {
    var b, t := AbsPath(cwd, base), AbsPath(cwd, target);
    hide CommonPath, Common, Join, Render, Normal;
    NormalIsPlain(JoinPath(cwd, base));
    NormalIsPlain(JoinPath(cwd, target));
    CommonIs(b, t);
    var common := t.parts[..Common(t.parts, b.parts)];
    RendersAs(common, b);
    CommonIsAll(t.parts, b.parts);
  }

  lemma StartsSplit(s: Text)
    ensures Starts(s, [DOT, DOT, SLASH]) ==> Parts(s)[0] == [DOT, DOT]
  {
    if Starts(s, [DOT, DOT, SLASH]) {
      assert s == [DOT, DOT] + [SLASH] + s[3..];
      SplitAt([DOT, DOT], SLASH, s[3..]);
      SplitPlain([DOT, DOT], SLASH);
    }
  }

  /** A relative path inside the root: its components again, and none of the refused forms. */
  lemma RelInside(list: seq<Text>)
    requires AllPlain(list)
    ensures var rel := if list == [] then [DOT] else Join(list);
            && !(rel == [DOT, DOT] || Starts(rel, [DOT, DOT, SLASH]) || IsAbs(rel))
            && Parts(rel) == if list == [] then [[DOT]] else list
  {
    if list == [] {
      SplitPlain([DOT], SLASH);
    } else {
      assert Plain(list[0]) && NoSlashes(list);
      SplitJoin(list);
      JoinStart(list);
      var rel := Join(list);
      SplitPlain([DOT, DOT], SLASH);
      StartsSplit(rel);
    }
  }

  /** The components of the URI's last part. */
  function Rest(root: Path, path: Path): seq<Text>
    requires Under(root, path)
  {
    if root.parts == path.parts then [[DOT]] else path.parts[|root.parts|..]
  }

  lemma UriIs(cwd: Text, internalPrefix: Text, fsRoot: Text, path: Text)
    ensures var r, p := AbsPath(cwd, fsRoot), AbsPath(cwd, path);
            BuildAccelUri(cwd, internalPrefix, fsRoot, path) ==
            if Under(r, p) then Some(Trimmed(internalPrefix) + [SLASH] + Join(QuoteAll(Rest(r, p)))) else None
  {
    var r, p := AbsPath(cwd, fsRoot), AbsPath(cwd, path);
    NormalIsPlain(JoinPath(cwd, fsRoot));
    NormalIsPlain(JoinPath(cwd, path));
    hide Normal, JoinPath, Render, Parts, Join, QuoteAll, Trimmed, RelPath, Rest;
    RelPathIs(r, p);
  }

  lemma RelPathIs(root: Path, path: Path)
    requires AllPlain(root.parts) && AllPlain(path.parts)
    ensures var rel := RelPath(Render(path), Render(root));
            if Under(root, path) then
              !(rel == [DOT, DOT] || Starts(rel, [DOT, DOT, SLASH]) || IsAbs(rel)) && Parts(rel) == Rest(root, path)
            else rel == [DOT, DOT] || Starts(rel, [DOT, DOT, SLASH])
  {
    RenderedParts(root);
    RenderedParts(path);
    var way := Way(root.parts, path.parts);
    WayIs(root, path);
    hide Render, Components, Parts, Join, Way, AllPlain;
    assert RelPath(Render(path), Render(root)) == if way == [] then [DOT] else Join(way);
    if Under(root, path) {
      RelInside(way);
    } else {
    }
  }

  lemma WayIs(root: Path, path: Path)
    requires AllPlain(path.parts)
    ensures var way := Way(root.parts, path.parts);
            if Under(root, path) then AllPlain(way) && Rest(root, path) == (if way == [] then [[DOT]] else way)
            else way != [] && way[0] == [DOT, DOT]
  {
    CommonIsAll(root.parts, path.parts);
    if Under(root, path) {
      assert Way(root.parts, path.parts) == path.parts[|root.parts|..];
    }
  }

  /** A URI is built exactly for the paths under the root; `is_safe_path` also refuses a root with two slashes. */
  lemma SafeIff(cwd: Text, internalPrefix: Text, root: Text, path: Text)
    ensures BuildAccelUri(cwd, internalPrefix, root, path).Some? <==> Under(AbsPath(cwd, root), AbsPath(cwd, path))
    ensures IsSafePath(cwd, root, path) <==>
            BuildAccelUri(cwd, internalPrefix, root, path).Some? && !AbsPath(cwd, root).double
  {
    UriIs(cwd, internalPrefix, root, path);
    SafeIs(cwd, root, path);
  }

  /** The two readings agree on every path exactly for a root that does not begin with two slashes. */
  lemma AgreeIff(cwd: Text, internalPrefix: Text, root: Text)
    ensures (forall path :: IsSafePath(cwd, root, path) == BuildAccelUri(cwd, internalPrefix, root, path).Some?) <==>
            !AbsPath(cwd, root).double
  {
    forall path ensures IsSafePath(cwd, root, path) <==>
                        BuildAccelUri(cwd, internalPrefix, root, path).Some? && !AbsPath(cwd, root).double
    {
      SafeIff(cwd, internalPrefix, root, path);
    }
    SafeIff(cwd, internalPrefix, root, root);
    assert Under(AbsPath(cwd, root), AbsPath(cwd, root));
    assert (IsSafePath(cwd, root, root) == BuildAccelUri(cwd, internalPrefix, root, root).Some?)
      <==> !AbsPath(cwd, root).double;
  }

  // ---------------------------------------------------------------- decoding leads back

  /** The unreserved characters of section 2.3 of RFC 3986, and they alone, are left as they are. */
  lemma QuotedLength(b: Byte)
    ensures |Quote([b])| ==
            if 48 <= b <= 57 || 65 <= b <= 90 || 97 <= b <= 122 || b in {45, 46, 95, 126} then 1 else 3
  {
    QuoteNothing();
    assert [b][1..] == [] && [b][0] == b;
  }

  /** A quoted text consists of unreserved characters, percent signs and upper-case hexadecimal digits. */
  lemma {:induction false} QuotedBytes(s: Text, i: nat)
    requires i < |Quote(s)|
    ensures var b := Quote(s)[i];
            48 <= b <= 57 || 65 <= b <= 90 || 97 <= b <= 122 || b in {45, 46, 95, 126} || b == PERCENT
  {
    var head := |Quote(s)| - |Quote(s[1..])|;
    if i >= head {
      QuotedBytes(s[1..], i - head);
      assert Quote(s)[i] == Quote(s[1..])[i - head];
    }
  }

  /** The slashes at the end of the internal prefix, and nothing else, are taken off. */
  lemma {:induction false} TrimmedPrefix(s: Text)
    ensures var t := Trimmed(s);
            t <= s && (t == [] || t[|t| - 1] != SLASH) && forall i: nat | |t| <= i < |s| :: s[i] == SLASH
  {
    if s != [] && s[|s| - 1] == SLASH {
      TrimmedPrefix(s[..|s| - 1]);
    }
  }

  /** POSIX keeps two leading slashes apart, and only two. */
  lemma DoubleIff(s: Text)
    ensures Normal(s).double <==> |s| >= 2 && s[0] == SLASH && s[1] == SLASH && (|s| == 2 || s[2] != SLASH)
  {
    if |s| >= 3 && s[0] == SLASH && s[1] == SLASH && s[2] == SLASH { assert Starts(s, [SLASH, SLASH, SLASH]); }
    if Starts(s, [SLASH, SLASH, SLASH]) { assert s[2] == SLASH; }
  }

  /** Percent decoding, section 2.1 of RFC 3986. */
  function Unquote(s: Text): Text
    decreases |s|
  {
    if s == [] then []
    else if s[0] == PERCENT && |s| >= 3 && HexValue(s[1] as char).Some? && HexValue(s[2] as char).Some? then
      [HexByte(HexValue(s[1] as char).value, HexValue(s[2] as char).value)] + Unquote(s[3..])
    else [s[0]] + Unquote(s[1..])
  }

  function HexByte(a: nat, b: nat): Byte {
    if a < 16 && b < 16 then a * 16 + b else 0
  }

  lemma ByteReads(b: Byte, rest: Text)
    ensures Unquote(Quote([b]) + rest) == [b] + Unquote(rest)
  {
    var s := Quote([b]) + rest;
    assert Quote([]) == [];
    if Unreserved(b) {
      assert s[1..] == rest;
    } else {
      var hi, lo := Upper(b / 16), Upper(b % 16);
      assert s == [PERCENT, hi, lo] + rest && s[3..] == rest;
      assert HexValue(hi as char) == Some(b / 16) && HexValue(lo as char) == Some(b % 16);
      assert HexByte(b / 16, b % 16) == b;
    }
  }

  lemma QuoteNothing()
    ensures Quote([]) == []
  {
  }

  lemma QuoteFirst(s: Text)
    requires s != []
    ensures Quote(s) == Quote([s[0]]) + Quote(s[1..])
  {
    assert [s[0]][1..] == [] && [s[0]][0] == s[0];
    hide Unreserved, Upper;
  }

  lemma {:induction false} QuoteReads(s: Text, rest: Text)
    ensures Unquote(Quote(s) + rest) == s + Unquote(rest)
  {
    hide *;
    if s == [] {
      QuoteNothing();
      assert Quote(s) + rest == rest;
    } else {
      QuoteFirst(s);
      assert Quote(s) + rest == Quote([s[0]]) + (Quote(s[1..]) + rest);
      ByteReads(s[0], Quote(s[1..]) + rest);
      QuoteReads(s[1..], rest);
      assert s == [s[0]] + s[1..];
    }
  }

  /** Decoding the joined quoted components gives the joined components. */
  lemma {:induction false} QuotedJoinReads(parts: seq<Text>)
    ensures Unquote(Join(QuoteAll(parts))) == Join(parts)
  {
    if |parts| == 1 {
      QuoteReads(parts[0], []);
      assert QuoteAll(parts) == [Quote(parts[0])];
      assert Quote(parts[0]) + [] == Quote(parts[0]) && parts[0] + [] == parts[0];
    } else if |parts| > 1 {
      var tail := Join(QuoteAll(parts[1..]));
      QuotedJoinStep(parts);
      hide Unquote, Quote, QuoteAll, Join;
      QuotedJoinReads(parts[1..]);
      QuoteReads(parts[0], [SLASH] + tail);
    }
  }

  lemma JoinCons(parts: seq<Text>)
    requires |parts| > 1
    ensures Join(parts) == parts[0] + ([SLASH] + Join(parts[1..]))
  {
  }

  lemma QuotedJoinStep(parts: seq<Text>)
    requires |parts| > 1
    ensures Join(QuoteAll(parts)) == Quote(parts[0]) + ([SLASH] + Join(QuoteAll(parts[1..])))
    ensures Join(parts) == parts[0] + ([SLASH] + Join(parts[1..]))
  {
    assert QuoteAll(parts)[1..] == QuoteAll(parts[1..])
           && |QuoteAll(parts)| > 1 && QuoteAll(parts)[0] == Quote(parts[0]);
    hide *;
    JoinCons(parts);
    JoinCons(QuoteAll(parts));
  }

  lemma {:induction false} FoldAppends(kept: seq<Text>, parts: seq<Text>)
    requires AllPlain(parts)
    ensures Fold(kept, parts) == kept + parts
    decreases |parts|
  {
    if parts != [] {
      assert Plain(parts[0]);
      FoldAppends(kept + [parts[0]], parts[1..]);
      assert kept + [parts[0]] + parts[1..] == kept + parts;
    }
  }

  lemma {:induction false} FoldTwo(kept: seq<Text>, a: seq<Text>, b: seq<Text>)
    ensures Fold(kept, a + b) == Fold(Fold(kept, a), b)
    decreases |a|
  {
    if a == [] {
      assert a + b == b;
    } else {
      assert (a + b)[1..] == a[1..] + b;
      if a[0] == [] || a[0] == [DOT] {
        FoldTwo(kept, a[1..], b);
      } else if a[0] != [DOT, DOT] {
        FoldTwo(kept + [a[0]], a[1..], b);
      } else {
        FoldTwo(if kept == [] then [] else kept[..|kept| - 1], a[1..], b);
      }
    }
  }

  /** A rendered path is its own normal form. */
  lemma RenderedFold(p: Path)
    requires AllPlain(p.parts)
    ensures Fold([], Parts(Render(p))) == p.parts
  {
    var tail := Join(p.parts);
    var heads := Heads(p);
    RenderedSplits(p);
    FoldTwo([], heads, Parts(tail));
    var one: seq<Text>, two: seq<Text> := [[]], [[], []];
    assert Fold([], one) == [] && two[1..] == one && Fold([], two) == Fold([], one);
    if p.parts == [] {
      assert Parts(tail) == [[]];
    } else {
      assert NoSlashes(p.parts);
      SplitJoin(p.parts);
      FoldAppends([], p.parts);
    }
  }

  /** Joining a relative text to a rendered root adds its components. */
  lemma JoinFolds(root: Path, rel: Text)
    requires AllPlain(root.parts) && rel != [] && rel[0] != SLASH
    ensures var s := JoinPath(Render(root), rel);
            && IsAbs(s) && IsDouble(s) == root.double
            && Fold([], Parts(s)) == Fold(root.parts, Parts(rel))
  {
    var a := Render(root);
    var s := JoinPath(a, rel);
    RenderedFold(root);
    JoinStart(root.parts);
    if root.parts == [] {
      var front: Text := if root.double then [SLASH] else [];
      assert a == front + [SLASH] && s == front + [SLASH] + rel;
      SplitAt(front, SLASH, rel);
      SplitAt(front, SLASH, []);
      FoldTwo([], Parts(front), Parts(rel));
      FoldTwo([], Parts(front), [[]]);
      assert Fold(Fold([], Parts(front)), [[]]) == Fold([], Parts(front));
    } else {
      JoinEnd(root.parts);
      assert s == a + [SLASH] + rel && |a| >= 2 && s[0] == SLASH && s[1] == a[1];
      if root.double { assert |s| >= 3 && s[2] == Join(root.parts)[0]; } else { assert s[1] == Join(root.parts)[0]; }
      SplitAt(a, SLASH, rel);
      FoldTwo([], Parts(a), Parts(rel));
    }
  }

  lemma {:induction false} JoinEnd(parts: seq<Text>)
    requires parts != [] && AllPlain(parts)
    ensures Join(parts) != [] && Join(parts)[|Join(parts)| - 1] != SLASH
  {
    assert Plain(parts[0]);
    if |parts| > 1 {
      JoinEnd(parts[1..]);
    } else {
      assert Join(parts)[|parts[0]| - 1] == parts[0][|parts[0]| - 1];
    }
  }

  lemma RestFolds(root: Path, path: Path)
    requires AllPlain(root.parts) && AllPlain(path.parts) && Under(root, path)
    ensures var rel := Join(Rest(root, path));
            rel != [] && rel[0] != SLASH && Fold(root.parts, Parts(rel)) == path.parts
  {
    var rest := Rest(root, path);
    if root.parts == path.parts {
      SplitPlain([DOT], SLASH);
      assert Fold(root.parts, [[DOT]]) == Fold(root.parts, []);
    } else {
      assert AllPlain(rest) && NoSlashes(rest) && rest != [];
      SplitJoin(rest);
      JoinStart(rest);
      JoinEnd(rest);
      FoldAppends(root.parts, rest);
      assert root.parts + rest == path.parts;
    }
  }

  /**
   Decoding what follows the internal prefix and joining it to the root leads to a path with the same
   components, which is the requested one exactly when both begin with as many slashes.
   */
  lemma DecodesBackIff(cwd: Text, internalPrefix: Text, root: Text, path: Text)
    requires BuildAccelUri(cwd, internalPrefix, root, path).Some?
    ensures var uri := BuildAccelUri(cwd, internalPrefix, root, path).value;
            && Trimmed(internalPrefix) + [SLASH] <= uri
            && var back := AbsPath(cwd, JoinPath(Render(AbsPath(cwd, root)),
                                                     Unquote(uri[|Trimmed(internalPrefix)| + 1..])));
               && back.parts == AbsPath(cwd, path).parts
               && (back == AbsPath(cwd, path) <==> AbsPath(cwd, root).double == AbsPath(cwd, path).double)
  {
    var r, p := AbsPath(cwd, root), AbsPath(cwd, path);
    UriIs(cwd, internalPrefix, root, path);
    NormalIsPlain(JoinPath(cwd, root));
    NormalIsPlain(JoinPath(cwd, path));
    var rest := Rest(r, p);
    var quoted := Join(QuoteAll(rest));
    assert (Trimmed(internalPrefix) + [SLASH] + quoted)[|Trimmed(internalPrefix)| + 1..] == quoted;
    QuotedJoinReads(rest);
    RestFolds(r, p);
    JoinFolds(r, Join(rest));
    var s := JoinPath(Render(r), Join(rest));
    assert JoinPath(cwd, s) == s;
  }
}
