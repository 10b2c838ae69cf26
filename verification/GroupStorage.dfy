/** File names of a group room: sanitising an uploaded name and finding an unused one. */
module GroupStorage {
  import opened Wrappers
  import Decimal

  // ---------------------------------------------------------------- splitext

  /** `rfind` of one character; -1 when it does not occur. */
  function LastIndex(s: string, c: char): (i: int)
    ensures -1 <= i < |s| && (i >= 0 ==> s[i] == c) && forall j | i < j < |s| :: s[j] != c
  {
    if s == [] then -1 else if s[|s| - 1] == c then |s| - 1 else LastIndex(s[..|s| - 1], c)
  }

  /** `os.path.splitext` on a POSIX system: leading dots do not start an extension. */
  function SplitExt(name: string): (r: (string, string))
    ensures r.0 + r.1 == name && '/' !in r.1 && (r.1 != "" ==> r.1[0] == '.')
    ensures name != "" && name[0] != '.' ==> r.0 != ""
  {
    var slash, dot := LastIndex(name, '/'), LastIndex(name, '.');
    if dot > slash && exists i | slash < i < dot :: name[i] != '.' then (name[..dot], name[dot..])
    else (name, "")
  }

  lemma LastIndexIs(s: string, c: char, i: int)
    requires -1 <= i < |s| && (i >= 0 ==> s[i] == c) && forall j | i < j < |s| :: s[j] != c
    ensures LastIndex(s, c) == i
  {
  }

  /** What follows the last dot is the extension, when some other character of the last component comes before it. */
  lemma SplitsAtLastDot(dir: string, stem: string, ext: string)
    requires dir == "" || dir[|dir| - 1] == '/'
    requires '/' !in stem && '/' !in ext && '.' !in ext && exists i: nat :: i < |stem| && stem[i] != '.'
    ensures SplitExt(dir + stem + "." + ext) == (dir + stem, "." + ext)
  {
    var name, n := dir + stem + "." + ext, |dir + stem|;
    assert name[..n] == dir + stem && name[n..] == "." + ext && name[n] == '.';
    LastIndexIs(name, '.', n);
    LastIndexIs(name, '/', |dir| - 1);
    var i: nat :| i < |stem| && stem[i] != '.';
    assert name[|dir| + i] == stem[i];
  }

  /** A last component whose only dots are its first characters has no extension. */
  lemma LeadingDotsAreNoExtension(dir: string, dots: string, rest: string)
    requires dir == "" || dir[|dir| - 1] == '/'
    requires (forall i: nat | i < |dots| :: dots[i] == '.') && '.' !in rest && '/' !in rest
    ensures SplitExt(dir + dots + rest) == (dir + dots + rest, "")
  {
    var name := dir + dots + rest;
    LastIndexIs(name, '/', |dir| - 1);
    if dots != [] {
      LastIndexIs(name, '.', |dir| + |dots| - 1);
      assert forall i: nat | |dir| <= i < |dir| + |dots| :: name[i] == dots[i - |dir|];
    } else {
      assert forall i: nat | |dir| <= i < |name| :: name[i] == rest[i - |dir|];
      assert dir != "" ==> name[|dir| - 1] == '/';
    }
  }

  // ---------------------------------------------------------------- sanitising

  predicate Contains(s: string, part: string) {
    exists i | 0 <= i <= |s| :: part <= s[i..]
  }

  predicate HasDangerousPattern(name: string) {
    || Contains(name, "..") || Contains(name, "/") || Contains(name, "\\")
    || Contains(name, "\0") || Contains(name, "\r") || Contains(name, "\n")
  }

  /** `sanitize_group_upload_filename`, for a given `secure_filename` and clock. */
  function Sanitize(name: string, secure: string -> string, now: nat): string {
    var safe := if HasDangerousPattern(name) then secure(name) else name;
    if safe == "" || safe[0] == '.' then "file_" + Decimal.Text(now) + SplitExt(name).1 else safe
  }

  /** A name that stays in the folder it is joined to. */
  predicate PlainComponent(name: string) {
    name != "" && name[0] != '.' && '/' !in name
  }

  lemma NoSlash(name: string)
    requires !Contains(name, "/")
    ensures '/' !in name
  {
    forall i | 0 <= i < |name| ensures name[i] != '/' {
      assert !("/" <= name[i..]);
    }
  }

  lemma {:induction false} ContainsChar(s: string, c: char)
    ensures Contains(s, [c]) <==> c in s
  {
    if c in s {
      var i :| 0 <= i < |s| && s[i] == c;
      assert [c] <= s[i..];
    }
    if Contains(s, [c]) {
      var i :| 0 <= i <= |s| && [c] <= s[i..];
      assert s[i] == [c][0];
    }
  }

  lemma ContainsTwo(s: string, c: char, d: char)
    ensures Contains(s, [c, d]) <==> exists i: nat :: i + 1 < |s| && s[i] == c && s[i + 1] == d
  {
    if i: nat :| i + 1 < |s| && s[i] == c && s[i + 1] == d {
      assert [c, d] <= s[i..];
    }
    if Contains(s, [c, d]) {
      var i :| 0 <= i <= |s| && [c, d] <= s[i..];
      assert s[i] == [c, d][0] && s[i + 1] == [c, d][1];
    }
  }

  /** A name without two dots in a row, separators, NUL or line breaks is taken as it is. */
  predicate Harmless(name: string) {
    && (forall c | c in name :: c !in {'/', '\\', '\0', '\r', '\n'})
    && forall i: nat | i + 1 < |name| :: name[i] != '.' || name[i + 1] != '.'
  }

  /** The sanitised name: the harmless one itself or the secured one, unless that is empty or hidden. */
  lemma SanitizedIs(name: string, secure: string -> string, now: nat)
    ensures var safe := if Harmless(name) then name else secure(name);
            Sanitize(name, secure, now) ==
            if safe != "" && safe[0] != '.' then safe else "file_" + Decimal.Text(now) + SplitExt(name).1
  {
    ContainsTwo(name, '.', '.');
    ContainsChar(name, '/');
    ContainsChar(name, '\\');
    ContainsChar(name, '\0');
    ContainsChar(name, '\r');
    ContainsChar(name, '\n');
    hide Contains;
  }

  /** Whatever was uploaded, the sanitised name is one visible component, never "." or "..". */
  lemma SanitizedIsPlain(name: string, secure: string -> string, now: nat)
    requires '/' !in secure(name)
    ensures PlainComponent(Sanitize(name, secure, now))
  {
    if !HasDangerousPattern(name) { NoSlash(name); }
    var stem := "file_" + Decimal.Text(now);
    assert forall i | 0 <= i < |Decimal.Text(now)| :: Decimal.Text(now)[i] != '/';
  }

  // ---------------------------------------------------------------- unused names

  /** `"{stem} ({counter}){ext}"`. */
  function Candidate(name: string, k: nat): string {
    (SplitExt(name).0 + " (") + Decimal.Text(k) + (")" + SplitExt(name).1)
  }

  lemma MiddleEqual(before: string, a: string, b: string, after: string)
    requires before + a + after == before + b + after
    ensures a == b
  {
    assert |before + a + after| == |before| + |a| + |after|;
    assert |before + b + after| == |before| + |b| + |after|;
    assert a == (before + a + after)[|before|..|before| + |a|];
    assert b == (before + b + after)[|before|..|before| + |b|];
  }

  lemma CandidatesDiffer(name: string, j: nat, k: nat)
    ensures Candidate(name, j) == Candidate(name, k) ==> j == k
    ensures Candidate(name, k) != name
  {
    var (stem, ext) := SplitExt(name);
    assert |Candidate(name, k)| > |stem| + |ext| == |name|;
    if Candidate(name, j) == Candidate(name, k) {
      MiddleEqual(stem + " (", Decimal.Text(j), Decimal.Text(k), ")" + ext);
      Decimal.TextInjective(j, k);
    }
  }

  /** The candidates 1 .. n. */
  function Candidates(name: string, n: nat): set<string> {
    set k | 1 <= k <= n :: Candidate(name, k)
  }

  lemma {:induction false} CandidatesCount(name: string, n: nat)
    ensures |Candidates(name, n)| == n && name !in Candidates(name, n)
  {
    if n == 0 {
      assert Candidates(name, 0) == {};
    } else {
      CandidatesCount(name, n - 1);
      assert Candidates(name, n) == Candidates(name, n - 1) + {Candidate(name, n)};
      forall k | 1 <= k <= n - 1 ensures Candidate(name, k) != Candidate(name, n) {
        CandidatesDiffer(name, k, n);
      }
      CandidatesDiffer(name, n, n);
    }
  }

  /** Pigeonhole: the name and n candidates being taken needs more than n names. */
  lemma TakenNeedsNames(existing: set<string>, name: string, n: nat)
    requires name in existing && Candidates(name, n) <= existing
    ensures n < |existing|
  {
    CandidatesCount(name, n);
    assert existing == (Candidates(name, n) + {name}) + (existing - (Candidates(name, n) + {name}));
  }

  lemma NextCandidate(existing: set<string>, name: string, k: nat)
    requires k >= 1 && name in existing && Candidates(name, k - 1) <= existing
    ensures k <= |existing|
    ensures Candidate(name, k) in existing ==> k < |existing| && Candidates(name, k) <= existing
  {
    TakenNeedsNames(existing, name, k - 1);
    if Candidate(name, k) in existing {
      assert Candidates(name, k) == Candidates(name, k - 1) + {Candidate(name, k)};
      TakenNeedsNames(existing, name, k);
    }
  }

  /** The first unused candidate from `k` on. */
  function FirstFree(existing: set<string>, name: string, k: nat): (r: string)
    requires k >= 1 && name in existing && Candidates(name, k - 1) <= existing
    ensures r !in existing &&
            exists n :: k <= n <= |existing| && r == Candidate(name, n) && Candidates(name, n - 1) <= existing
    decreases |existing| - k
  {
    NextCandidate(existing, name, k);
    if Candidate(name, k) in existing then FirstFree(existing, name, k + 1) else Candidate(name, k)
  }

  /** `unique_room_filename` for the names of the room's files. */
  function UnusedName(existing: set<string>, name: string): (r: string)
    ensures r !in existing && (name !in existing ==> r == name)
    ensures name in existing ==>
              exists n :: 1 <= n <= |existing| && r == Candidate(name, n) && Candidates(name, n - 1) <= existing
  {
    if name !in existing then name else FirstFree(existing, name, 1)
  }

  /** The loop of `unique_room_filename` ends within as many turns as there are names. */
  method UniqueRoomFilename(existing: set<string>, name: string) returns (unused: string)
    ensures unused == UnusedName(existing, name)
  {
    if name !in existing {
      return name;
    }
    var counter := 1;
    while true
      invariant counter >= 1 && Candidates(name, counter - 1) <= existing
      invariant UnusedName(existing, name) == FirstFree(existing, name, counter)
      decreases |existing| - counter
    {
      NextCandidate(existing, name, counter);
      var candidate := Candidate(name, counter);
      if candidate !in existing {
        return candidate;
      }
      counter := counter + 1;
    }
  }

  /** A plain name stays plain when a counter is added to it. */
  lemma UnusedIsPlain(existing: set<string>, name: string)
    requires PlainComponent(name)
    ensures PlainComponent(UnusedName(existing, name))
  {
    if name in existing {
      var n :| 1 <= n <= |existing| && UnusedName(existing, name) == Candidate(name, n);
      var (stem, ext) := SplitExt(name);
      assert stem != "" && stem[0] == name[0];
      assert forall i | 0 <= i < |Decimal.Text(n)| :: Decimal.Text(n)[i] != '/';
      assert forall i | 0 <= i < |stem| :: stem[i] == name[i];
    }
  }
}
