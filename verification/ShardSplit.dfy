/**
 Moving article phrases into the shard of their article, for a language kept as shard files only: what the
 script writes, and that the catalog merged from the files stays as it was.
 */
module ShardSplit {
  import opened Wrappers

  type Shard = string
  type Phrase = string
  type Dict = map<Phrase, string>
  type Files = map<Shard, Dict>

  /** `article_phrase_shard_for_key`: the home shard of an article phrase. */
  type Home = Phrase -> Option<Shard>

  /** The one shard whose values win over others. */
  const QUALITY_FILL := "quality_fill"

  function Lookup(files: Files, s: Shard, k: Phrase): Option<string> {
    if s in files && k in files[s] then Some(files[s][k]) else None
  }

  /** A directory listing: every file once, in some order. */
  ghost predicate Lists(names: seq<Shard>, files: Files) {
    && (forall i: nat, j: nat | i < j < |names| :: names[i] != names[j])
    && (forall s :: s in names <==> s in files)
  }

  // ---------------------------------------------------------------- the merged catalog

  /** `load_locale_section` over the shard files in listing order. */
  function Merge(files: Files, names: seq<Shard>): Dict {
    if names == [] then map[]
    else
      var last := names[|names| - 1];
      Merge(files, names[..|names| - 1]) + (if last in files then files[last] else map[])
  }

  ghost predicate NoDuplicates(files: Files) {
    forall s, t, k | s in files && t in files && k in files[s] && k in files[t] :: s == t
  }

  lemma {:induction false} MergeFinds(files: Files, names: seq<Shard>, k: Phrase)
    ensures k in Merge(files, names) ==>
              exists s :: s in names && s in files && k in files[s] && files[s][k] == Merge(files, names)[k]
    ensures forall s | s in names && s in files && k in files[s] :: k in Merge(files, names)
  {
    if names != [] {
      var front, last := names[..|names| - 1], names[|names| - 1];
      MergeFinds(files, front, k);
      assert names == front + [last];
      if last in files && k in files[last] {
        assert files[last][k] == Merge(files, names)[k];
      } else if k in Merge(files, front) {
        var s :| s in front && s in files && k in files[s] && files[s][k] == Merge(files, front)[k];
        assert s in names;
      }
    }
  }

  predicate Says(catalog: Dict, k: Phrase, text: string) {
    k in catalog && catalog[k] == text
  }

  ghost predicate HasText(files: Files, k: Phrase, text: string) {
    exists s :: Lookup(files, s, k) == Some(text)
  }

  /** Without duplicates the merged catalog has a phrase exactly when a file has it, with that file's text. */
  lemma MergeIs(files: Files, names: seq<Shard>, k: Phrase, text: string)
    requires Lists(names, files) && NoDuplicates(files)
    ensures Says(Merge(files, names), k, text) <==> HasText(files, k, text)
  {
    MergeFinds(files, names, k);
    if k in Merge(files, names) && Merge(files, names)[k] == text {
      var s :| s in names && s in files && k in files[s] && files[s][k] == Merge(files, names)[k];
      assert Lookup(files, s, k) == Some(text);
    }
    if s :| Lookup(files, s, k) == Some(text) {
      assert s in names && k in files[s];
      var t :| t in names && t in files && k in files[t] && files[t][k] == Merge(files, names)[k];
    }
  }

  // ---------------------------------------------------------------- the split

  /** The first of some shards that has a phrase. */
  function First(files: Files, names: seq<Shard>, k: Phrase): Option<string> {
    if names == [] then None
    else
      var before := First(files, names[..|names| - 1], k);
      if before.Some? then before else Lookup(files, names[|names| - 1], k)
  }

  /** The text that ends in the home shard once the shards `names` have been gone through. */
  function Chosen(files: Files, names: seq<Shard>, k: Phrase, home: Shard): Option<string> {
    if QUALITY_FILL in names && QUALITY_FILL != home && Lookup(files, QUALITY_FILL, k).Some?
    then Lookup(files, QUALITY_FILL, k)
    else if Lookup(files, home, k).Some? then Lookup(files, home, k)
    else First(files, names, k)
  }

  /** What a shard holds for a phrase once the shards `names` have been gone through. */
  function After(files: Files, names: seq<Shard>, home: Home, s: Shard, k: Phrase): Option<string> {
    var h := home(k);
    if h.None? then Lookup(files, s, k)
    else if s == h.value then Chosen(files, names, k, s)
    else if s in names then None
    else Lookup(files, s, k)
  }

  predicate Moves(home: Home, s: Shard, k: Phrase) {
    home(k).Some? && home(k).value != s
  }

  ghost function AllMoves(files: Files, home: Home): set<(Shard, Phrase)> {
    set s, k | s in files && k in files[s] && Moves(home, s, k) :: (s, k)
  }

  ghost predicate Is(updated: Files, files: Files, names: seq<Shard>, home: Home) {
    forall s, k :: Lookup(updated, s, k) == After(files, names, home, s, k)
  }

  function At(updated: Files, s: Shard): Dict {
    if s in updated then updated[s] else map[]
  }

  /** One phrase leaves a shard for its home, whose own text it replaces only from `quality_fill`. */
  function MoveOne(updated: Files, shard: Shard, k: Phrase, text: string, target: Shard): Files {
    var without := updated[shard := At(updated, shard) - {k}];
    var dict := At(without, target);
    without[target := if k !in dict || shard == QUALITY_FILL then dict[k := text] else dict]
  }

  lemma MoveOneReads(updated: Files, shard: Shard, k: Phrase, text: string, target: Shard, s: Shard, other: Phrase)
    requires target != shard
    ensures Lookup(MoveOne(updated, shard, k, text, target), s, other) ==
            if other != k then Lookup(updated, s, other)
            else if s == shard then None
            else if s != target then Lookup(updated, s, k)
            else if Lookup(updated, target, k).None? || shard == QUALITY_FILL then Some(text)
            else Lookup(updated, target, k)
  {
  }

  /** Some phrases of `shard` have been gone through. */
  ghost predicate PartIs(updated: Files, files: Files, names: seq<Shard>, shard: Shard, home: Home, done: set<Phrase>) {
    forall s, k :: Lookup(updated, s, k) == After(files, if k in done then names + [shard] else names, home, s, k)
  }

  lemma MoveOneKeeps(updated: Files, files: Files, names: seq<Shard>, shard: Shard,
                     home: Home, done: set<Phrase>, k: Phrase)
    requires shard in files && k in files[shard] && shard !in names && k !in done
    requires PartIs(updated, files, names, shard, home, done)
    ensures PartIs(if Moves(home, shard, k) then MoveOne(updated, shard, k, files[shard][k], home(k).value)
                   else updated,
                   files, names, shard, home, done + {k})
  {
    var after := if Moves(home, shard, k) then MoveOne(updated, shard, k, files[shard][k], home(k).value) else updated;
    hide After, MoveOne;
    forall s, other ensures Lookup(after, s, other) ==
                            After(files, if other in done + {k} then names + [shard] else names, home, s, other)
    {
      if Moves(home, shard, k) {
        MoveOneReads(updated, shard, k, files[shard][k], home(k).value, s, other);
        MoveOneReads(updated, shard, k, files[shard][k], home(k).value, home(k).value, k);
      } else {
      }
    }
  }

  ghost function Movers(files: Files, shard: Shard, home: Home, among: set<Phrase>): set<Phrase>
    requires shard in files
  {
    set k | k in among && k in files[shard] && Moves(home, shard, k)
  }

  lemma MoversGrow(files: Files, shard: Shard, home: Home, done: set<Phrase>, k: Phrase)
    requires shard in files && k in files[shard] && k !in done
    ensures var before, after := Movers(files, shard, home, done), Movers(files, shard, home, done + {k});
            if Moves(home, shard, k) then
              |after| == |before| + 1
            else after == before
  {
    var before, after := Movers(files, shard, home, done), Movers(files, shard, home, done + {k});
    assert after == if Moves(home, shard, k) then before + {k} else before;
  }

  /** The homes of the phrases to be moved out of some of the shards. */
  ghost function Targets(files: Files, names: seq<Shard>, home: Home): set<Shard> {
    set s, k | s in files && s in names && k in files[s] && Moves(home, s, k) :: home(k).value
  }

  ghost function ShardTargets(files: Files, shard: Shard, home: Home, among: set<Phrase>): set<Shard>
    requires shard in files
  {
    set k | k in among && k in files[shard] && Moves(home, shard, k) :: home(k).value
  }

  lemma TargetsGrow(files: Files, names: seq<Shard>, shard: Shard, home: Home)
    requires shard in files
    ensures Targets(files, names + [shard], home) ==
            Targets(files, names, home) + ShardTargets(files, shard, home, files[shard].Keys)
  {
  }

  /** The loop over one shard's phrases has gone through `done`. */
  ghost predicate Progress(updated: Files, moved: nat, start: Files, files: Files, names: seq<Shard>, shard: Shard,
                           home: Home, done: set<Phrase>)
    requires shard in files
  {
    && shard in updated && PartIs(updated, files, names, shard, home, done)
    && moved == |Movers(files, shard, home, done)|
    && updated.Keys == start.Keys + ShardTargets(files, shard, home, done)
  }

  lemma ProgressStep(updated: Files, moved: nat, start: Files, files: Files, names: seq<Shard>, shard: Shard,
                     home: Home, done: set<Phrase>, k: Phrase)
    requires shard in files && k in files[shard] && shard !in names && k !in done
    requires Progress(updated, moved, start, files, names, shard, home, done)
    ensures if Moves(home, shard, k)
            then Progress(MoveOne(updated, shard, k, files[shard][k], home(k).value), moved + 1,
                          start, files, names, shard, home, done + {k})
            else Progress(updated, moved, start, files, names, shard, home, done + {k})
  {
    MoveOneKeeps(updated, files, names, shard, home, done, k);
    MoversGrow(files, shard, home, done, k);
    if Moves(home, shard, k) {
    }
    hide PartIs, Movers, ShardTargets, MoveOne, Moves;
  }

  /** The body of the inner loop for a phrase that moves. */
  method MoveKey(updated: Files, shard: Shard, k: Phrase, text: string, target: Shard) returns (after: Files)
    requires shard in updated
    ensures after == MoveOne(updated, shard, k, text, target)
  {
    after := updated[shard := updated[shard] - {k}];
    var dict := At(after, target);
    if k !in dict || shard == QUALITY_FILL {
      dict := dict[k := text];
    }
    after := after[target := dict];
  }

  /** The loop over one shard's phrases. */
  method MoveFrom(files: Files, names: seq<Shard>, shard: Shard, home: Home, start: Files)
    returns (updated: Files, moved: nat)
    requires shard in files && shard !in names && shard in start && Is(start, files, names, home)
    ensures Is(updated, files, names + [shard], home)
    ensures moved == |Movers(files, shard, home, files[shard].Keys)|
    ensures updated.Keys == start.Keys + ShardTargets(files, shard, home, files[shard].Keys)
  {
    updated, moved := start, 0;
    var todo := files[shard].Keys;
    ghost var done: set<Phrase> := {};
    ProgressBegins(start, files, names, shard, home);
    hide *;
    while todo != {}
      invariant done !! todo && done + todo == files[shard].Keys
      invariant Progress(updated, moved, start, files, names, shard, home, done)
      decreases todo
    {
      ProgressHas(updated, moved, start, files, names, shard, home, done);
      var k :| k in todo;
      ProgressStep(updated, moved, start, files, names, shard, home, done, k);
      MovesIs(home, shard, k);
      var target := home(k);
      if target.Some? && target.value != shard {
        updated := MoveKey(updated, shard, k, files[shard][k], target.value);
        moved := moved + 1;
      }
      done, todo := done + {k}, todo - {k};
    }
    assert done == files[shard].Keys;
    ProgressEnds(updated, moved, start, files, names, shard, home);
  }

  lemma MovesIs(home: Home, shard: Shard, k: Phrase)
    ensures Moves(home, shard, k) <==> home(k).Some? && home(k).value != shard
  {
  }

  lemma ProgressHas(updated: Files, moved: nat, start: Files, files: Files, names: seq<Shard>, shard: Shard,
                    home: Home, done: set<Phrase>)
    requires shard in files && Progress(updated, moved, start, files, names, shard, home, done)
    ensures shard in updated
  {
  }

  lemma ProgressBegins(start: Files, files: Files, names: seq<Shard>, shard: Shard, home: Home)
    requires shard in files && shard in start && Is(start, files, names, home)
    ensures Progress(start, 0, start, files, names, shard, home, {})
  {
  }

  lemma ProgressEnds(updated: Files, moved: nat, start: Files, files: Files, names: seq<Shard>,
                     shard: Shard, home: Home)
    requires shard in files && Progress(updated, moved, start, files, names, shard, home, files[shard].Keys)
    ensures Is(updated, files, names + [shard], home)
    ensures moved == |Movers(files, shard, home, files[shard].Keys)|
    ensures updated.Keys == start.Keys + ShardTargets(files, shard, home, files[shard].Keys)
  {
  }

  /** The files that are written: a shard left empty is removed. */
  function Written(updated: Files): Files {
    map s | s in updated && updated[s] != map[] :: updated[s]
  }

  /** The moves out of some of the shards. */
  ghost function MovesFrom(files: Files, names: seq<Shard>, home: Home): set<(Shard, Phrase)> {
    set s, k | s in files && s in names && k in files[s] && Moves(home, s, k) :: (s, k)
  }

  lemma MovesGrow(files: Files, names: seq<Shard>, shard: Shard, home: Home)
    requires shard in files && shard !in names
    ensures |MovesFrom(files, names + [shard], home)| ==
            |MovesFrom(files, names, home)| + |Movers(files, shard, home, files[shard].Keys)|
  {
    var movers := Movers(files, shard, home, files[shard].Keys);
    var more := set k | k in movers :: (shard, k);
    PairsCount(shard, movers);
    assert MovesFrom(files, names + [shard], home) == MovesFrom(files, names, home) + more;
    assert MovesFrom(files, names, home) !! more;
  }

  lemma {:induction false} PairsCount(shard: Shard, ks: set<Phrase>)
    ensures |set k | k in ks :: (shard, k)| == |ks|
    decreases ks
  {
    if ks != {} {
      var k :| k in ks;
      PairsCount(shard, ks - {k});
      assert (set x | x in ks :: (shard, x)) == (set x | x in ks - {k} :: (shard, x)) + {(shard, k)};
    }
  }

  const ARTICLES := "articles/"

  /** The article shards among the files and the homes of the moved phrases, whether they end empty or not. */
  ghost function ArticleShards(files: Files, names: seq<Shard>, home: Home): set<Shard> {
    set s | s in files.Keys + Targets(files, names, home) && ARTICLES <= s
  }

  /** The outer loop has gone through the shards `names`. */
  ghost predicate Through(updated: Files, moved: nat, files: Files, names: seq<Shard>, home: Home) {
    && Is(updated, files, names, home) && updated.Keys == files.Keys + Targets(files, names, home)
    && moved == |MovesFrom(files, names, home)|
  }

  lemma ThroughOne(before: Files, n: nat, files: Files, names: seq<Shard>, shard: Shard,
                   home: Home, updated: Files, more: nat)
    requires shard in files && shard !in names && Through(before, n, files, names, home)
    requires Is(updated, files, names + [shard], home) && more == |Movers(files, shard, home, files[shard].Keys)|
    requires updated.Keys == before.Keys + ShardTargets(files, shard, home, files[shard].Keys)
    ensures Through(updated, n + more, files, names + [shard], home)
  {
    hide Is, Targets, MovesFrom, Movers, ShardTargets;
    MovesGrow(files, names, shard, home);
    TargetsGrow(files, names, shard, home);
  }

  /**
   `split_language`: with `apply` the files as written, without it as they were; the numbers of moves and of
   article shards are the same.
   */
  method SplitLanguage(files: Files, names: seq<Shard>, home: Home, apply: bool)
    returns (after: Files, moved: nat, articleShards: nat)
    requires Lists(names, files)
    ensures if apply then Is(after, files, names, home) && (forall s | s in after :: after[s] != map[])
            else after == files
    ensures moved == |AllMoves(files, home)|
    ensures articleShards == |ArticleShards(files, names, home)|
  {
    var updated;
    updated, moved := MoveAll(files, names, home);
    assert MovesFrom(files, names, home) == AllMoves(files, home);
    var articles := set s | s in updated.Keys && ARTICLES <= s;
    articleShards := |articles|;
    assert articles == ArticleShards(files, names, home);
    if !apply {
      return files, moved, articleShards;
    }
    after := Written(updated);
  }

  lemma ListedAt(files: Files, names: seq<Shard>, i: nat)
    requires Lists(names, files) && i < |names|
    ensures names[i] in files && names[i] !in names[..i] && names[..i + 1] == names[..i] + [names[i]]
  {
    assert names[i] in names;
  }

  /** The loop over the shards. */
  method MoveAll(files: Files, names: seq<Shard>, home: Home) returns (updated: Files, moved: nat)
    requires Lists(names, files)
    ensures Through(updated, moved, files, names, home)
  {
    updated, moved := files, 0;
    hide *;
    for i := 0 to |names|
      invariant Through(updated, moved, files, names[..i], home)
    {
      ListedAt(files, names, i);
      var next, more := MoveFrom(files, names[..i], names[i], home, updated);
      ThroughOne(updated, moved, files, names[..i], names[i], home, next, more);
      updated, moved := next, moved + more;
    }
    assert names[..|names|] == names;
  }

  // ---------------------------------------------------------------- what the split keeps

  lemma {:induction false} FirstFinds(files: Files, names: seq<Shard>, k: Phrase)
    ensures First(files, names, k).Some? ==> exists s :: s in names && Lookup(files, s, k) == First(files, names, k)
    ensures forall s | s in names && Lookup(files, s, k).Some? :: First(files, names, k).Some?
  {
    if names != [] {
      var front, last := names[..|names| - 1], names[|names| - 1];
      FirstFinds(files, front, k);
      assert names == front + [last];
      var before := First(files, front, k);
      if before.Some? {
        var s :| s in front && Lookup(files, s, k) == before;
        assert s in names;
      }
    }
  }

  /** Without duplicates the home shard gets the one text there is. */
  lemma ChosenIs(files: Files, names: seq<Shard>, k: Phrase, home: Shard, text: string)
    requires Lists(names, files) && NoDuplicates(files)
    ensures Chosen(files, names, k, home) == Some(text) <==> HasText(files, k, text)
  {
    FirstFinds(files, names, k);
    if s :| Lookup(files, s, k) == Some(text) {
      assert s in names;
      assert forall t :: Lookup(files, t, k).Some? ==> t == s;
    }
    if Chosen(files, names, k, home) == Some(text) {
      if First(files, names, k) == Some(text) {
        var s :| s in names && Lookup(files, s, k) == First(files, names, k);
      }
    }
  }

  /** No shard but its home has an article phrase afterwards, whatever the duplicates were before. */
  lemma OnlyAtHome(files: Files, names: seq<Shard>, home: Home, after: Files, s: Shard, k: Phrase)
    requires Lists(names, files) && Is(after, files, names, home) && Lookup(after, s, k).Some? && home(k).Some?
    ensures s == home(k).value
  {
    assert Lookup(after, s, k) == After(files, names, home, s, k);
    assert s in files ==> s in names;
  }

  /** With or without duplicates, the merged catalog then gives an article phrase the chosen text. */
  lemma ArticleText(files: Files, names: seq<Shard>, home: Home, after: Files,
                    afterNames: seq<Shard>, k: Phrase, text: string)
    requires Lists(names, files) && Is(after, files, names, home) && Lists(afterNames, after) && home(k).Some?
    ensures Says(Merge(after, afterNames), k, text) <==> Chosen(files, names, k, home(k).value) == Some(text)
  {
    var h := home(k).value;
    assert Lookup(after, h, k) == After(files, names, home, h, k);
    MergeFinds(after, afterNames, k);
    if k in Merge(after, afterNames) {
      var s :| s in afterNames && s in after && k in after[s] && after[s][k] == Merge(after, afterNames)[k];
      OnlyAtHome(files, names, home, after, s, k);
    }
  }

  lemma NoneIntroduced(files: Files, names: seq<Shard>, home: Home, after: Files)
    requires Lists(names, files) && Is(after, files, names, home) && NoDuplicates(files)
    ensures NoDuplicates(after)
  {
    forall s, t, k | s in after && t in after && k in after[s] && k in after[t] ensures s == t {
      if home(k).Some? {
        OnlyAtHome(files, names, home, after, s, k);
        OnlyAtHome(files, names, home, after, t, k);
      } else {
        assert Lookup(after, s, k) == Lookup(files, s, k) && Lookup(after, t, k) == Lookup(files, t, k);
      }
    }
  }

  /** A text is found for a phrase afterwards exactly when it was before. */
  lemma TextsKept(files: Files, names: seq<Shard>, home: Home, after: Files, k: Phrase, text: string)
    requires Lists(names, files) && Is(after, files, names, home) && NoDuplicates(files)
    ensures HasText(after, k, text) <==> HasText(files, k, text)
  {
    if home(k).None? {
      forall s ensures Lookup(after, s, k) == Lookup(files, s, k) {
      }
    } else {
      ChosenIs(files, names, k, home(k).value, text);
      forall s ensures Lookup(after, s, k) == if s == home(k).value then Chosen(files, names, k, s) else None {
        assert Lookup(after, s, k) == After(files, names, home, s, k);
        assert s !in names ==> Lookup(files, s, k).None?;
      }
    }
  }

  /** The merged catalog is the same before and after, in whatever order the files are listed. */
  lemma CatalogKept(files: Files, names: seq<Shard>, home: Home, after: Files, afterNames: seq<Shard>)
    requires Lists(names, files) && Is(after, files, names, home) && NoDuplicates(files) && Lists(afterNames, after)
    ensures Merge(after, afterNames) == Merge(files, names)
  {
    NoneIntroduced(files, names, home, after);
    forall k, text ensures Says(Merge(after, afterNames), k, text) <==> Says(Merge(files, names), k, text) {
      MergeIs(after, afterNames, k, text);
      MergeIs(files, names, k, text);
      TextsKept(files, names, home, after, k, text);
    }
    SameCatalog(Merge(after, afterNames), Merge(files, names));
  }

  lemma SameCatalog(a: Dict, b: Dict)
    requires forall k, text :: Says(a, k, text) <==> Says(b, k, text)
    ensures a == b
  {
    forall k ensures (k in a <==> k in b) && (k in a ==> a[k] == b[k]) {
      if k in a { assert Says(a, k, a[k]); }
      if k in b { assert Says(b, k, b[k]); }
    }
  }

  /** A second run moves nothing and leaves every file as it is. */
  lemma SecondRun(files: Files, names: seq<Shard>, home: Home, after: Files, afterNames: seq<Shard>, again: Files)
    requires Lists(names, files) && Is(after, files, names, home) && Lists(afterNames, after)
    requires Is(again, after, afterNames, home)
    requires (forall s | s in after :: after[s] != map[]) && (forall s | s in again :: again[s] != map[])
    ensures AllMoves(after, home) == {} && again == after
  {
    forall s, k | s in after && k in after[s] && home(k).Some? ensures home(k).value == s {
      OnlyAtHome(files, names, home, after, s, k);
    }
    forall s, k ensures Lookup(again, s, k) == Lookup(after, s, k) {
      assert Lookup(again, s, k) == After(after, afterNames, home, s, k);
      if home(k).Some? {
        FirstFinds(after, afterNames, k);
      }
    }
    SameFiles(again, after);
  }

  lemma SameFiles(a: Files, b: Files)
    requires (forall s | s in a :: a[s] != map[]) && (forall s | s in b :: b[s] != map[])
    requires forall s, k :: Lookup(a, s, k) == Lookup(b, s, k)
    ensures a == b
  {
    forall s ensures (s in a <==> s in b) && (s in a ==> a[s] == b[s]) {
      forall k ensures Lookup(a, s, k) == Lookup(b, s, k) {
      }
      if s in a { var k :| k in a[s]; assert Lookup(a, s, k).Some?; }
      if s in b { var k :| k in b[s]; assert Lookup(b, s, k).Some?; }
      if s in a && s in b {
        forall k ensures (k in a[s] <==> k in b[s]) && (k in a[s] ==> a[s][k] == b[s][k]) {
          assert Lookup(a, s, k) == Lookup(b, s, k);
        }
      }
    }
  }
}
