/**
 The `cache_data` decorator and its invalidators: results of database readers kept in Redis under a key
 made of the reader's name and arguments, with some columns stripped before they are stored or returned.
 */
module CacheAside {
  import opened Wrappers

  /** A column value.  `Typed` is a date or a time span, with the text its JSON form has. */
  datatype Value = Null | Text(text: string) | Typed(json: string)

  /** A row as a dict of its columns. */
  type Row = map<string, Value>

  function Get(row: Row, column: string): Value {
    if column in row then row[column] else Null
  }

  /** What a reader returns: `None`, a string, or a list of rows. */
  datatype Answer = Nothing | Plain(text: string) | Rows(rows: seq<Row>)

  // ---------------------------------------------------------------- what enters the cache

  /** `_normalize_for_cache`. */
  function Normalize(a: Answer, strip: set<string>): Answer {
    if a.Rows? then Rows(seq(|a.rows|, i requires 0 <= i < |a.rows| => a.rows[i] - strip)) else a
  }

  function JsonValue(v: Value): Value {
    if v.Typed? then Text(v.json) else v
  }

  function JsonRow(row: Row): Row {
    map column | column in row :: JsonValue(row[column])
  }

  /** What `json.loads` gives back for `json.dumps`. */
  function Json(a: Answer): Answer {
    if a.Rows? then Rows(seq(|a.rows|, i requires 0 <= i < |a.rows| => JsonRow(a.rows[i]))) else a
  }

  ghost predicate Clean(a: Answer, strip: set<string>) {
    a.Rows? ==> forall i: nat | i < |a.rows| :: a.rows[i].Keys !! strip
  }

  /** Answers that differ at most in the JSON form of their values. */
  ghost predicate Same(a: Answer, b: Answer) {
    Json(a) == Json(b)
  }

  lemma JsonOnce(a: Answer)
    ensures Json(Json(a)) == Json(a)
  {
    if a.Rows? {
      forall i: nat | i < |a.rows| ensures JsonRow(JsonRow(a.rows[i])) == JsonRow(a.rows[i]) {
      }
    }
  }

  // ---------------------------------------------------------------- keys

  /** A call of a reader: its positional and its keyword arguments. */
  datatype Key = Key(reader: string, args: seq<string>, named: map<string, string> := map[])

  /** The digest of the JSON form of both kinds of arguments. */
  type Digest = (seq<string>, map<string, string>) -> string

  /** `_build_cache_key`. */
  function KeyText(digest: Digest, k: Key): string {
    "db_cache:" + k.reader + ":" + digest(k.args, k.named)
  }

  /** The pattern of `invalidate_cache_prefix` up to its star. */
  function Pattern(reader: string): string {
    "db_cache:" + reader + ":"
  }

  ghost predicate CollisionFree(digest: Digest) {
    forall a, m, b, n :: digest(a, m) == digest(b, n) ==> a == b && m == n
  }

  lemma {:induction false} PrefixBeforeColon(a: string, b: string, rest: string)
    requires ':' !in a && ':' !in b
    ensures a + ":" <= b + ":" + rest <==> a == b
  {
    var text, head := b + ":" + rest, a + ":";
    assert head[|a|] == ':' && text[|b|] == ':' && text[..|b| + 1] == b + ":";
    assert forall i: nat | i < |b| :: text[i] == b[i] && b[i] != ':';
    assert forall i: nat | i < |a| :: head[i] == a[i] && a[i] != ':';
    if |a| == |b| && head <= text {
      assert a == head[..|a|] == text[..|a|] == b;
    }
  }

  /**
   A prefix pattern selects the keys of its own reader only, and different calls, by position or by keyword,
   have different keys.
   */
  lemma KeysApart(digest: Digest, a: Key, b: Key)
    requires ':' !in a.reader && ':' !in b.reader
    ensures Pattern(a.reader) <= KeyText(digest, b) <==> a.reader == b.reader
    ensures CollisionFree(digest) ==> (KeyText(digest, a) == KeyText(digest, b) <==> a == b)
  {
    var cut := b.reader + ":" + digest(b.args, b.named);
    PrefixBeforeColon(a.reader, b.reader, digest(b.args, b.named));
    assert KeyText(digest, b) == "db_cache:" + cut && Pattern(a.reader) == "db_cache:" + (a.reader + ":");
    assert KeyText(digest, b)[9..] == cut;
    if Pattern(a.reader) <= KeyText(digest, b) {
      assert a.reader + ":" == Pattern(a.reader)[9..];
      assert a.reader + ":" <= cut;
    }
    if KeyText(digest, a) == KeyText(digest, b) {
      assert Pattern(a.reader) <= KeyText(digest, a);
      assert digest(a.args, a.named) == KeyText(digest, a)[|Pattern(a.reader)|..];
    }
  }

  // ---------------------------------------------------------------- the cache

  type Entries = map<Key, Answer>

  /** A service's readers: which columns each strips, and what each reads from the tables. */
  type Strips = string -> set<string>

  /** Every cached answer is what its reader would give now, stripped and in JSON form. */
  ghost predicate Coherent(entries: Entries, direct: Key -> Answer, strip: Strips) {
    forall k | k in entries ::
      direct(k) != Nothing && entries[k] == Json(Normalize(direct(k), strip(k.reader)))
  }

  /** The wrapped reader: the entry when there is one, and otherwise the reader's answer, kept unless it is `None`. */
  function Cached(entries: Entries, direct: Key -> Answer, strip: Strips, k: Key): (Answer, Entries) {
    if k in entries then (entries[k], entries)
    else
      var a := Normalize(direct(k), strip(k.reader));
      (a, if a == Nothing then entries else entries[k := Json(a)])
  }

  /** The entries left when those of some readers have been dropped. */
  function Without(entries: Entries, readers: set<string>): Entries {
    map k | k in entries && k.reader !in readers :: entries[k]
  }

  /** Over a coherent cache a wrapped reader answers as the reader itself, stripped, and leaves it coherent. */
  lemma CachedIsDirect(entries: Entries, direct: Key -> Answer, strip: Strips, k: Key)
    requires Coherent(entries, direct, strip)
    ensures var (a, after) := Cached(entries, direct, strip, k);
            && Same(a, Normalize(direct(k), strip(k.reader))) && Clean(a, strip(k.reader))
            && Coherent(after, direct, strip)
  {
    JsonOnce(Normalize(direct(k), strip(k.reader)));
  }

  /**
   An answer is read from the tables once, and served from the cache, in JSON form, whatever the tables hold by
   then; `None` is asked for every time.
   */
  lemma ServedFromCache(entries: Entries, before: Key -> Answer, after: Key -> Answer, strip: Strips, k: Key)
    requires k !in entries
    ensures var (first, kept) := Cached(entries, before, strip, k);
            var (second, end) := Cached(kept, after, strip, k);
            && first == Normalize(before(k), strip(k.reader))
            && (if before(k) == Nothing then kept == entries && second == Normalize(after(k), strip(k.reader))
                else kept == entries[k := Json(first)] && second == Json(first) && end == kept)
  {
  }

  /** The JSON form keeps rows and columns; dates and time spans come back as text. */
  lemma JsonForm(rows: seq<Row>, i: nat, column: string)
    requires i < |rows|
    ensures var r := Json(Rows(rows));
            && r.Rows? && |r.rows| == |rows| && (column in r.rows[i] <==> column in rows[i])
            && (column in rows[i] ==>
                  r.rows[i][column] == match rows[i][column] case Typed(text) => Text(text) case v => v)
    ensures Json(Plain(column)) == Plain(column) && Json(Nothing) == Nothing
  {
  }

  /** Stripping takes exactly the named columns out of every row. */
  lemma StrippedForm(rows: seq<Row>, strip: set<string>, i: nat, column: string)
    requires i < |rows|
    ensures var r := Normalize(Rows(rows), strip);
            && r.Rows? && |r.rows| == |rows| && (column in r.rows[i] <==> column in rows[i] && column !in strip)
            && (column in r.rows[i] ==> r.rows[i][column] == rows[i][column])
    ensures Normalize(Plain(column), strip) == Plain(column) && Normalize(Nothing, strip) == Nothing
  {
  }

  /** Dropping entries keeps the rest coherent with tables that changed only what the dropped ones had read. */
  lemma InvalidationKeeps(entries: Entries, rest: Entries, before: Key -> Answer, after: Key -> Answer, strip: Strips)
    requires Coherent(entries, before, strip)
    requires forall k | k in rest :: k in entries && rest[k] == entries[k] && after(k) == before(k)
    ensures Coherent(rest, after, strip)
  {
  }

  /** No stored answer has a stripped column. */
  ghost predicate AllClean(entries: Entries, strip: Strips) {
    forall k | k in entries :: Clean(entries[k], strip(k.reader))
  }

  lemma CachedStaysClean(entries: Entries, direct: Key -> Answer, strip: Strips, k: Key)
    requires AllClean(entries, strip)
    ensures var (a, after) := Cached(entries, direct, strip, k);
            Clean(a, strip(k.reader)) && AllClean(after, strip)
  {
  }

  class RedisCache {
    var entries: Entries

    constructor ()
      ensures entries == map[]
    {
      entries := map[];
    }

    method Fetch(k: Key) returns (a: Option<Answer>)
      ensures a == if k in entries then Some(entries[k]) else None
    {
      a := if k in entries then Some(entries[k]) else None;
    }

    method SetEx(k: Key, a: Answer)
      modifies this
      ensures entries == old(entries)[k := Json(a)]
    {
      entries := entries[k := Json(a)];
    }

    /** `invalidate_cache_entry`; also what the store does when an entry's time is over. */
    method Delete(k: Key)
      modifies this
      ensures entries == old(entries) - {k}
    {
      entries := entries - {k};
    }

    /** `invalidate_cache_prefix`: a scan for the matching keys, then their removal. */
    method DeletePrefix(reader: string)
      modifies this
      ensures entries == Without(old(entries), {reader})
    {
      var keys: set<Key> := {};
      var todo := entries.Keys;
      while todo != {}
        invariant todo <= entries.Keys && entries == old(entries)
        invariant forall k :: k in keys <==> k in entries && k !in todo && k.reader == reader
        decreases todo
      {
        var k :| k in todo;
        if k.reader == reader {
          keys := keys + {k};
        }
        todo := todo - {k};
      }
      entries := entries - keys;
      assert entries == Without(old(entries), {reader});
    }
  }
}
