/** The file-sharing table and its cached readers: saving, removing, removing all, reading, and expiry. */
module FsqrCache {
  import opened Wrappers
  import opened CacheAside
  import opened Tables

  const TRY_LOGIN := "FSQR.fsqr_data.try_login"
  const BY_CREDENTIALS := "FSQR.fsqr_data.get_data_by_credentials"
  const GET_DATA := "FSQR.fsqr_data.get_data"
  const BY_TOKEN := "FSQR.fsqr_data.get_data_by_share_token"
  const GET_ALL := "FSQR.fsqr_data.get_all"

  const READERS := {TRY_LOGIN, BY_CREDENTIALS, BY_TOKEN, GET_DATA, GET_ALL}

  function Strip(reader: string): set<string> {
    if reader == TRY_LOGIN then {}
    else if reader == BY_CREDENTIALS then {"password", "password_lookup_hash"}
    else {"password", "password_lookup_hash", "share_token_hash"}
  }

  /** The keyed hash of the service, and the check of a stored password. */
  datatype Hashes = Hashes(mac: string -> string, verify: Verify)

  ghost predicate CollisionFree(h: Hashes) {
    forall a, b :: h.mac(a) == h.mac(b) ==> a == b
  }

  function LookupHash(h: Hashes, id: string, password: string): string {
    h.mac("fsqr:" + id + ":" + password)
  }

  // ---------------------------------------------------------------- the readers

  /** `_find_record_by_credentials`. */
  function FindRecord(h: Hashes, rows: seq<Row>, id: string, password: string): Option<Row> {
    var hits := Select(rows, Hashed(id, LookupHash(h, id, password)));
    if hits != [] && Verified(h.verify, hits[0], password) then Some(hits[0])
    else FirstVerified(h.verify, Select(rows, Legacy(id)), password)
  }

  /**
   What each reader gives without its cache, called by position; a credential reader's login answers with
   the secure id.
   */
  function Direct(h: Hashes, rows: seq<Row>, k: Key): Answer {
    if k.named != map[] then Nothing
    else if k.reader == GET_ALL && |k.args| == 0 then Rows(Reversed(rows))
    else if k.reader == GET_DATA && |k.args| == 1 then Rows(Select(rows, Is("secure_id", k.args[0])))
    else if k.reader == BY_TOKEN && |k.args| == 1 then Rows(Select(rows, Is("share_token_hash", h.mac(k.args[0]))))
    else if k.reader in {TRY_LOGIN, BY_CREDENTIALS} && |k.args| == 2 then
      var record := FindRecord(h, rows, k.args[0], k.args[1]);
      if k.reader == BY_CREDENTIALS then Rows(if record.Some? then [record.value] else [])
      else if record.Some? && Get(record.value, "secure_id").Text? then Plain(Get(record.value, "secure_id").text)
      else Nothing
    else Nothing
  }

  function DirectOf(h: Hashes, rows: seq<Row>): Key -> Answer {
    (k: Key) => Direct(h, rows, k)
  }

  // ---------------------------------------------------------------- the operations

  datatype Db = Db(rows: seq<Row>, entries: Entries)

  datatype Upload = Upload(
    uid: string, id: string, password: string, stored: string, secureId: string, token: Option<string>, others: Row)

  function NewRow(h: Hashes, u: Upload): Row {
    u.others[
      "uuid" := Text(u.uid)][
      "id" := Text(u.id)][
      "password" := Text(u.stored)][
      "password_lookup_hash" := Text(LookupHash(h, u.id, u.password))][
      "secure_id" := Text(u.secureId)][
      "share_token_hash" := TokenColumn(h, u.token)]
  }

  /** An absent or empty token is stored as NULL. */
  function TokenColumn(h: Hashes, token: Option<string>): Value {
    if token.Some? && token.value != "" then Text(h.mac(token.value)) else Null
  }

  /** The two unique keys of the table refuse the insert. */
  predicate Refused(h: Hashes, rows: seq<Row>, u: Upload) {
    || Select(rows, Is("uuid", u.uid)) != []
    || (TokenColumn(h, u.token) != Null && Select(rows, Is("share_token_hash", TokenColumn(h, u.token).text)) != [])
  }

  function SaveKeys(u: Upload): set<Key> {
    {Key(TRY_LOGIN, [u.id, u.password]), Key(BY_CREDENTIALS, [u.id, u.password]), Key(GET_DATA, [u.secureId]),
     Key(GET_ALL, [])} + (if u.token.Some? && u.token.value != "" then {Key(BY_TOKEN, [u.token.value])} else {})
  }

  function SaveFile(h: Hashes, s: Db, u: Upload): Db {
    if Refused(h, s.rows, u) then s else Db(s.rows + [NewRow(h, u)], s.entries - SaveKeys(u))
  }

  /** `remove_data`; when a file cannot be deleted it raises before touching the table. */
  function RemoveData(h: Hashes, s: Db, secureId: string, filesFail: bool): Db {
    if filesFail then s
    else
      var entries := s.entries - {Key(GET_DATA, [secureId]), Key(GET_ALL, [])};
      Db(Select(s.rows, IsNot("secure_id", secureId)),
         if Select(s.rows, Is("secure_id", secureId)) == [] then entries
         else Without(entries, {TRY_LOGIN, BY_CREDENTIALS, BY_TOKEN}))
  }

  /** Revoking the share links of a removed row raises; a row without a secure id has none. */
  predicate Raises(row: Row, failing: set<string>) {
    Get(row, "secure_id").Text? && Get(row, "secure_id").text != "" && Get(row, "secure_id").text in failing
  }

  predicate RevokeRaises(rows: seq<Row>, failing: set<string>) {
    exists i: nat | i < |rows| :: Raises(rows[i], failing)
  }

  /** `all_remove`: a revocation that raises leaves before the caches are invalidated. */
  function AllRemove(s: Db, failing: set<string>): Db {
    Db([], if RevokeRaises(s.rows, failing) then s.entries
           else Without(s.entries, READERS))
  }

  // ---------------------------------------------------------------- coherence

  ghost predicate Coherent(h: Hashes, s: Db) {
    CacheAside.Coherent(s.entries, DirectOf(h, s.rows), Strip)
  }

  lemma LookupDiffers(h: Hashes, id: string, a: string, b: string)
    requires CollisionFree(h) && a != b
    ensures LookupHash(h, id, a) != LookupHash(h, id, b)
  {
    var head := "fsqr:" + id + ":";
    assert (head + a)[|head|..] == a && (head + b)[|head|..] == b;
  }

  /** A new row changes no other credentials' record. */
  lemma RecordKept(h: Hashes, rows: seq<Row>, u: Upload, id: string, password: string)
    requires CollisionFree(h) && !(id == u.id && password == u.password)
    ensures FindRecord(h, rows + [NewRow(h, u)], id, password) == FindRecord(h, rows, id, password)
  {
    var row := NewRow(h, u);
    SelectAppend(rows, row, Hashed(id, LookupHash(h, id, password)));
    SelectAppend(rows, row, Legacy(id));
    if id == u.id { LookupDiffers(h, id, password, u.password); }
  }

  lemma SaveReads(h: Hashes, rows: seq<Row>, u: Upload, k: Key)
    requires CollisionFree(h) && k !in SaveKeys(u)
    ensures Direct(h, rows + [NewRow(h, u)], k) == Direct(h, rows, k)
  {
    var row := NewRow(h, u);
    assert k.named == map[] && k.reader == GET_ALL && |k.args| == 0 ==> k == Key(GET_ALL, []);
    if k.named != map[] {
    } else if k.reader == GET_DATA && |k.args| == 1 {
      assert k == Key(GET_DATA, [k.args[0]]);
      SelectAppend(rows, row, Is("secure_id", k.args[0]));
    } else if k.reader == BY_TOKEN && |k.args| == 1 {
      assert k == Key(BY_TOKEN, [k.args[0]]);
      SelectAppend(rows, row, Is("share_token_hash", h.mac(k.args[0])));
    } else if k.reader in {TRY_LOGIN, BY_CREDENTIALS} && |k.args| == 2 {
      assert k == Key(k.reader, [k.args[0], k.args[1]]);
      RecordKept(h, rows, u, k.args[0], k.args[1]);
    }
  }

  lemma SaveKeeps(h: Hashes, s: Db, u: Upload)
    requires CollisionFree(h) && Coherent(h, s)
    ensures Coherent(h, SaveFile(h, s, u))
  {
    if !Refused(h, s.rows, u) {
      var after := SaveFile(h, s, u);
      forall k | k in after.entries ensures Direct(h, after.rows, k) == Direct(h, s.rows, k) {
        SaveReads(h, s.rows, u, k);
      }
      InvalidationKeeps(s.entries, after.entries, DirectOf(h, s.rows), DirectOf(h, after.rows), Strip);
    }
  }

  lemma RemoveReads(h: Hashes, s: Db, secureId: string, k: Key)
    requires k in RemoveData(h, s, secureId, false).entries
    ensures Direct(h, RemoveData(h, s, secureId, false).rows, k) == Direct(h, s.rows, k)
  {
    assert k.named == map[] && k.reader == GET_ALL && |k.args| == 0 ==> k == Key(GET_ALL, []);
    if Select(s.rows, Is("secure_id", secureId)) == [] {
      SelectNone(s.rows, "secure_id", secureId);
    } else if k.named == map[] && k.reader == GET_DATA && |k.args| == 1 {
      assert k == Key(GET_DATA, [k.args[0]]);
      SelectRest(s.rows, "secure_id", secureId, k.args[0]);
    }
  }

  lemma RemoveKeeps(h: Hashes, s: Db, secureId: string, filesFail: bool)
    requires Coherent(h, s)
    ensures Coherent(h, RemoveData(h, s, secureId, filesFail))
  {
    if !filesFail {
      var after := RemoveData(h, s, secureId, false);
      forall k | k in after.entries ensures Direct(h, after.rows, k) == Direct(h, s.rows, k) {
        RemoveReads(h, s, secureId, k);
      }
      InvalidationKeeps(s.entries, after.entries, DirectOf(h, s.rows), DirectOf(h, after.rows), Strip);
    }
  }

  ghost predicate RemovalSafe(h: Hashes, rows: seq<Row>, failing: set<string>) {
    forall entries :: CacheAside.Coherent(entries, DirectOf(h, rows), Strip) ==>
                        Coherent(h, AllRemove(Db(rows, entries), failing))
  }

  lemma AllRemoveKeeps(h: Hashes, s: Db, failing: set<string>)
    requires Coherent(h, s) && !RevokeRaises(s.rows, failing)
    ensures Coherent(h, AllRemove(s, failing))
  {
    forall k | k in s.entries ensures k.reader in READERS {
      assert Direct(h, s.rows, k) != Nothing;
    }
    assert AllRemove(s, failing).entries == map[];
  }

  /** The loop raises for a row whose non-empty secure id has a link that cannot be revoked. */
  lemma RevokesIff(rows: seq<Row>, failing: set<string>)
    ensures RevokeRaises(rows, failing) <==>
            exists row, id :: row in rows && id in failing && id != "" && Get(row, "secure_id") == Text(id)
  {
    if RevokeRaises(rows, failing) {
      var i: nat :| i < |rows| && Raises(rows[i], failing);
      assert rows[i] in rows && Get(rows[i], "secure_id") == Text(Get(rows[i], "secure_id").text);
    }
    if row, id :| row in rows && id in failing && id != "" && Get(row, "secure_id") == Text(id) {
      var i: nat :| i < |rows| && rows[i] == row;
      assert Raises(rows[i], failing);
    }
  }

  /**
   Removing everything leaves every coherent cache coherent exactly when no revocation raises: the
   revocations stand between the DELETE and the invalidations and nothing catches them.
   */
  lemma AllRemoveSafeIff(h: Hashes, rows: seq<Row>, failing: set<string>)
    ensures RemovalSafe(h, rows, failing) <==>
            !exists row, id :: row in rows && id in failing && id != "" && Get(row, "secure_id") == Text(id)
  {
    RevokesIff(rows, failing);
    if RevokeRaises(rows, failing) {
      var all := Key(GET_ALL, []);
      var answer := Json(Normalize(Rows(Reversed(rows)), Strip(GET_ALL)));
      var entries := map[all := answer];
      ReversedLength(rows);
      assert Direct(h, rows, all) == Rows(Reversed(rows));
      assert CacheAside.Coherent(entries, DirectOf(h, rows), Strip);
      var after := AllRemove(Db(rows, entries), failing);
      assert after.entries[all] == answer && Direct(h, [], all) == Rows([]);
      assert answer != Json(Normalize(Rows([]), Strip(GET_ALL)));
      assert !Coherent(h, after);
    } else {
      forall entries | CacheAside.Coherent(entries, DirectOf(h, rows), Strip)
        ensures Coherent(h, AllRemove(Db(rows, entries), failing))
      {
        AllRemoveKeeps(h, Db(rows, entries), failing);
      }
    }
  }

  // ---------------------------------------------------------------- whole runs

  datatype Step =
    | Save(upload: Upload)
    | Remove(secureId: string, filesFail: bool)
    | RemoveAll(failing: set<string>)
    | Read(key: Key)
    | Expire(gone: set<Key>)

  function Apply(h: Hashes, s: Db, a: Step): Db {
    match a
    case Save(u) => SaveFile(h, s, u)
    case Remove(secureId, filesFail) => RemoveData(h, s, secureId, filesFail)
    case RemoveAll(failing) => AllRemove(s, failing)
    case Read(k) => s.(entries := Cached(s.entries, DirectOf(h, s.rows), Strip, k).1)
    case Expire(gone) => s.(entries := s.entries - gone)
  }

  function Run(h: Hashes, s: Db, steps: seq<Step>): Db
    decreases |steps|
  {
    if steps == [] then s else Run(h, Apply(h, s, steps[0]), steps[1..])
  }

  /** No `all_remove` of the run is cut short by a revocation that raises. */
  predicate Uncut(h: Hashes, s: Db, steps: seq<Step>)
    decreases |steps|
  {
    steps == [] ||
    (!(steps[0].RemoveAll? && RevokeRaises(s.rows, steps[0].failing)) && Uncut(h, Apply(h, s, steps[0]), steps[1..]))
  }

  lemma {:induction false} UncutIff(h: Hashes, s: Db, steps: seq<Step>)
    ensures Uncut(h, s, steps) <==>
            forall i: nat | i < |steps| && steps[i].RemoveAll? ::
              !RevokeRaises(Run(h, s, steps[..i]).rows, steps[i].failing)
    decreases |steps|
  {
    if steps != [] {
      var next, rest := Apply(h, s, steps[0]), steps[1..];
      UncutIff(h, next, rest);
      hide Apply, RevokeRaises;
      assert steps[..0] == [];
      forall i: nat | i < |rest|
        ensures rest[i] == steps[i + 1] && Run(h, s, steps[..i + 1]) == Run(h, next, rest[..i])
      {
        assert steps[..i + 1][1..] == rest[..i];
      }
      forall i: nat | 0 < i < |steps|
        ensures steps[i] == rest[i - 1] && Run(h, s, steps[..i]) == Run(h, next, rest[..i - 1])
      {
        assert steps[..i][1..] == rest[..i - 1];
      }
    }
  }

  lemma StepKeeps(h: Hashes, s: Db, a: Step)
    requires CollisionFree(h) && Coherent(h, s) && !(a.RemoveAll? && RevokeRaises(s.rows, a.failing))
    ensures Coherent(h, Apply(h, s, a))
  {
    match a
    case Save(u) => SaveKeeps(h, s, u);
    case Remove(secureId, filesFail) => RemoveKeeps(h, s, secureId, filesFail);
    case RemoveAll(failing) => AllRemoveKeeps(h, s, failing);
    case Read(k) => CachedIsDirect(s.entries, DirectOf(h, s.rows), Strip, k);
    case Expire(gone) =>
      InvalidationKeeps(s.entries, s.entries - gone, DirectOf(h, s.rows), DirectOf(h, s.rows), Strip);
  }

  lemma {:induction false} RunSnoc(h: Hashes, s: Db, steps: seq<Step>, a: Step)
    ensures Run(h, s, steps + [a]) == Apply(h, Run(h, s, steps), a)
    decreases |steps|
  {
    if steps == [] {
      assert [] + [a] == [a] && [a][1..] == [];
    } else {
      assert (steps + [a])[1..] == steps[1..] + [a];
      RunSnoc(h, Apply(h, s, steps[0]), steps[1..], a);
    }
  }

  /** After any uncut run, a cached reader answers as its direct reader would, stripped. */
  lemma {:induction false} ReadsAfterRun(h: Hashes, s: Db, steps: seq<Step>, k: Key)
    requires CollisionFree(h) && Coherent(h, s) && Uncut(h, s, steps)
    ensures var end := Run(h, s, steps);
            Same(Cached(end.entries, DirectOf(h, end.rows), Strip, k).0,
                 Normalize(Direct(h, end.rows, k), Strip(k.reader)))
    decreases |steps|
  {
    if steps == [] {
      CachedIsDirect(s.entries, DirectOf(h, s.rows), Strip, k);
    } else {
      StepKeeps(h, s, steps[0]);
      ReadsAfterRun(h, Apply(h, s, steps[0]), steps[1..], k);
    }
  }

  /** After any run at all, no stripped column is in the cache or in an answer. */
  lemma {:induction false} CleanAfterRun(h: Hashes, s: Db, steps: seq<Step>, k: Key)
    requires AllClean(s.entries, Strip)
    ensures var end := Run(h, s, steps);
            && AllClean(end.entries, Strip)
            && Clean(Cached(end.entries, DirectOf(h, end.rows), Strip, k).0, Strip(k.reader))
    decreases |steps|
  {
    if steps == [] {
      CachedStaysClean(s.entries, DirectOf(h, s.rows), Strip, k);
    } else {
      if steps[0].Read? { CachedStaysClean(s.entries, DirectOf(h, s.rows), Strip, steps[0].key); }
      CleanAfterRun(h, Apply(h, s, steps[0]), steps[1..], k);
    }
  }

  /**
   Named columns: after any run no answer shows a password or its lookup hash, and only the credential reader
   shows the hash of a share token.
   */
  lemma NoSecretsAfterRun(h: Hashes, s: Db, steps: seq<Step>, k: Key, i: nat)
    requires AllClean(s.entries, Strip)
    ensures var end := Run(h, s, steps);
            var a := Cached(end.entries, DirectOf(h, end.rows), Strip, k).0;
            a.Rows? && i < |a.rows| && k.reader in {BY_CREDENTIALS, GET_DATA, BY_TOKEN, GET_ALL} ==>
              && "password" !in a.rows[i] && "password_lookup_hash" !in a.rows[i]
              && (k.reader != BY_CREDENTIALS ==> "share_token_hash" !in a.rows[i])
  {
    CleanAfterRun(h, s, steps, k);
    hide Run, Cached, Direct;
  }

  /** Nothing else is stripped: every other column is answered as it is stored, up to its JSON form. */
  lemma OtherColumnsStay(h: Hashes, rows: seq<Row>, k: Key, i: nat, column: string)
    requires k.reader in {BY_CREDENTIALS, GET_DATA, BY_TOKEN, GET_ALL}
    requires var direct := Direct(h, rows, k); direct.Rows? && i < |direct.rows|
    requires column !in {"password", "password_lookup_hash", "share_token_hash"}
             || (k.reader == BY_CREDENTIALS && column == "share_token_hash")
    ensures var direct, a := Direct(h, rows, k), Cached(map[], DirectOf(h, rows), Strip, k).0;
            && a.Rows? && |a.rows| == |direct.rows| && Get(a.rows[i], column) == Get(direct.rows[i], column)
  {
    hide Direct;
  }

  /** A save at the end of a run is read at once, through the cache. */
  lemma SavedThenRead(h: Hashes, s: Db, steps: seq<Step>, u: Upload)
    requires CollisionFree(h) && Coherent(h, s) && Uncut(h, s, steps) && !Refused(h, Run(h, s, steps).rows, u)
    ensures var before, end := Run(h, s, steps), Run(h, s, steps + [Save(u)]);
            && end.rows == before.rows + [NewRow(h, u)]
            && Cached(end.entries, DirectOf(h, end.rows), Strip, Key(GET_ALL, [])).0 ==
               Normalize(Rows([NewRow(h, u)] + Reversed(before.rows)),
                         {"password", "password_lookup_hash", "share_token_hash"})
  {
    RunSnoc(h, s, steps, Save(u));
    ReversedAppend(Run(h, s, steps).rows, NewRow(h, u));
    hide Run, NewRow, Refused;
  }

  /** A removal at the end of a run leaves no row of the secure id, and the cached reader none either. */
  lemma RemovedThenRead(h: Hashes, s: Db, steps: seq<Step>, secureId: string)
    ensures var before, end := Run(h, s, steps), Run(h, s, steps + [Remove(secureId, false)]);
            && (forall row :: row in end.rows <==> row in before.rows && Get(row, "secure_id") != Text(secureId))
            && Cached(end.entries, DirectOf(h, end.rows), Strip, Key(GET_DATA, [secureId])).0 == Rows([])
            && Run(h, s, steps + [Remove(secureId, true)]) == before
  {
    RunSnoc(h, s, steps, Remove(secureId, false));
    RunSnoc(h, s, steps, Remove(secureId, true));
    var rows := Run(h, s, steps).rows;
    forall row
      ensures row in Select(rows, IsNot("secure_id", secureId)) <==>
              row in rows && Get(row, "secure_id") != Text(secureId)
    {
      Selected(rows, IsNot("secure_id", secureId), row);
    }
    NoneSelected(rows, "secure_id", secureId);
    hide Run;
  }

  /** A reader asked at the end of a run leaves its answer in the cache, and an expiry takes entries out of it. */
  lemma ReadThenExpired(h: Hashes, s: Db, steps: seq<Step>, k: Key, gone: set<Key>)
    ensures var before := Run(h, s, steps);
            && Run(h, s, steps + [Read(k)]).rows == before.rows
            && (Direct(h, before.rows, k) != Nothing ==> k in Run(h, s, steps + [Read(k)]).entries)
            && Run(h, s, steps + [Expire(gone)]) == Db(before.rows, before.entries - gone)
            && Run(h, s, steps + [RemoveAll({})]) == Db([], Without(before.entries, READERS))
  {
    RunSnoc(h, s, steps, Read(k));
    RunSnoc(h, s, steps, Expire(gone));
    RunSnoc(h, s, steps, RemoveAll({}));
    hide Run, Direct;
  }

  // ---------------------------------------------------------------- what a credential lookup finds

  /** Every row whose lookup hash is that of some password also verifies it. */
  ghost predicate Faithful(h: Hashes, rows: seq<Row>) {
    forall row, password | row in rows && Get(row, "id").Text?
      && Get(row, "password_lookup_hash") == Text(LookupHash(h, Get(row, "id").text, password))
      :: Verified(h.verify, row, password)
  }

  /** A record that a lookup can find: a row of the id that verifies the password, by its hash or without one. */
  ghost predicate Matches(h: Hashes, row: Row, id: string, password: string) {
    && Get(row, "id") == Text(id)
    && (Get(row, "password_lookup_hash") == Text(h.mac("fsqr:" + id + ":" + password))
        || Get(row, "password_lookup_hash") == Null)
    && Get(row, "password").Text? && h.verify(Get(row, "password").text, password)
  }

  /** A lookup answers only with a matching row, and misses none when the stored hashes are faithful. */
  lemma LookupFinds(h: Hashes, rows: seq<Row>, id: string, password: string, row: Row)
    ensures FindRecord(h, rows, id, password).Some? ==>
              FindRecord(h, rows, id, password).value in rows
              && Matches(h, FindRecord(h, rows, id, password).value, id, password)
    ensures Faithful(h, rows) && row in rows && Matches(h, row, id, password) ==>
              FindRecord(h, rows, id, password).Some?
  {
    var where := Hashed(id, LookupHash(h, id, password));
    var hits, legacy := Select(rows, where), Select(rows, Legacy(id));
    if hits != [] { Selected(rows, where, hits[0]); }
    Selected(rows, where, row);
    Selected(rows, Legacy(id), row);
    FirstVerifiedFinds(h.verify, legacy, password, row);
    var other := FirstVerified(h.verify, legacy, password);
    if other.Some? { Selected(rows, Legacy(id), other.value); }
  }

  /**
   A file just saved is read by its secure id after any others of that id, alone by its share token, first in
   the list of all, and, when stored hashes are faithful, its credentials find a record.
   */
  lemma SavedIsFound(h: Hashes, s: Db, u: Upload)
    requires !Refused(h, s.rows, u) && h.verify(u.stored, u.password)
    ensures var rows := SaveFile(h, s, u).rows;
            && Direct(h, rows, Key(GET_DATA, [u.secureId])) ==
               Rows(Select(s.rows, Is("secure_id", u.secureId)) + [NewRow(h, u)])
            && (u.token.Some? && u.token.value != "" ==>
                  Direct(h, rows, Key(BY_TOKEN, [u.token.value])) == Rows([NewRow(h, u)]))
            && Direct(h, rows, Key(GET_ALL, [])) == Rows([NewRow(h, u)] + Reversed(s.rows))
            && (Faithful(h, rows) ==> FindRecord(h, rows, u.id, u.password).Some?)
  {
    hide FindRecord, Faithful, Reversed, Select;
    var row := NewRow(h, u);
    SelectAppend(s.rows, row, Is("secure_id", u.secureId));
    if u.token.Some? && u.token.value != "" {
      SelectAppend(s.rows, row, Is("share_token_hash", h.mac(u.token.value)));
    }
    ReversedAppend(s.rows, row);
    LookupFinds(h, s.rows + [row], u.id, u.password, row);
    assert row in s.rows + [row];
  }

  /**
   What the two credential readers answer, for every table: at most one row, a matching one, and its secure id;
   nothing only when no row matches, if stored hashes are faithful.
   */
  lemma CredentialAnswers(h: Hashes, rows: seq<Row>, id: string, password: string, row: Row)
    ensures var data := Direct(h, rows, Key(BY_CREDENTIALS, [id, password]));
            var login := Direct(h, rows, Key(TRY_LOGIN, [id, password]));
            && data.Rows? && |data.rows| <= 1
            && (data.rows != [] ==> data.rows[0] in rows && Matches(h, data.rows[0], id, password))
            && (forall secureId ::
                  login == Plain(secureId) <==> data.rows != [] && Get(data.rows[0], "secure_id") == Text(secureId))
            && !login.Rows?
            && (Faithful(h, rows) && row in rows && Matches(h, row, id, password) ==> data.rows != [])
  {
    LookupFinds(h, rows, id, password, row);
  }

  /** The columns of a new row. */
  lemma NewColumns(h: Hashes, u: Upload)
    ensures var row := NewRow(h, u);
            && Get(row, "uuid") == Text(u.uid) && Get(row, "id") == Text(u.id) && Get(row, "password") == Text(u.stored)
            && Get(row, "password_lookup_hash") == Text(h.mac("fsqr:" + u.id + ":" + u.password))
            && Get(row, "secure_id") == Text(u.secureId)
            && Get(row, "share_token_hash") ==
               (if u.token == None || u.token == Some("") then Null else Text(h.mac(u.token.value)))
  {
  }

  /** The credentials of a file just saved, in a table without other rows of that id, answer that file. */
  lemma SavedLogsIn(h: Hashes, s: Db, u: Upload)
    requires !Refused(h, s.rows, u) && h.verify(u.stored, u.password)
    requires forall row | row in s.rows :: Get(row, "id") != Text(u.id)
    ensures var rows := SaveFile(h, s, u).rows;
            && Direct(h, rows, Key(BY_CREDENTIALS, [u.id, u.password])) == Rows([NewRow(h, u)])
            && Direct(h, rows, Key(TRY_LOGIN, [u.id, u.password])) == Plain(u.secureId)
  {
    var row, where := NewRow(h, u), Hashed(u.id, LookupHash(h, u.id, u.password));
    SelectAppend(s.rows, row, where);
    SelectEmpty(s.rows, where);
  }

  /** A save is refused exactly when its upload id or its share token is in use; it then changes nothing. */
  lemma SaveRefusedIff(h: Hashes, s: Db, u: Upload)
    ensures Refused(h, s.rows, u) <==>
            exists row :: row in s.rows &&
              (Get(row, "uuid") == Text(u.uid)
               || (u.token.Some? && u.token.value != "" && Get(row, "share_token_hash") == Text(h.mac(u.token.value))))
    ensures Refused(h, s.rows, u) ==> SaveFile(h, s, u) == s
  {
    HasSelected(s.rows, "uuid", u.uid);
    HasSelected(s.rows, "share_token_hash", h.mac(u.token.GetOr("")));
  }

  /** Which rows the other readers answer, for every table. */
  lemma ReadersAnswer(h: Hashes, rows: seq<Row>, secureId: string, token: string, row: Row, i: nat)
    ensures var data := Direct(h, rows, Key(GET_DATA, [secureId]));
            data.Rows? && (row in data.rows <==> row in rows && Get(row, "secure_id") == Text(secureId))
    ensures var data := Direct(h, rows, Key(BY_TOKEN, [token]));
            data.Rows? && (row in data.rows <==> row in rows && Get(row, "share_token_hash") == Text(h.mac(token)))
    ensures var all := Direct(h, rows, Key(GET_ALL, []));
            all.Rows? && |all.rows| == |rows| && (i < |rows| ==> all.rows[i] == rows[|rows| - 1 - i])
  {
    Selected(rows, Is("secure_id", secureId), row);
    Selected(rows, Is("share_token_hash", h.mac(token)), row);
    ReversedLength(rows);
    if i < |rows| { ReversedAt(rows, i); }
  }

  /** Which entries the operations drop: a save those of what it made readable, a removal also all credentials. */
  lemma DroppedEntries(h: Hashes, s: Db, u: Upload, secureId: string, failing: set<string>, k: Key)
    requires k in s.entries && k.named == map[]
    ensures !Refused(h, s.rows, u) ==>
              (k !in SaveFile(h, s, u).entries <==>
                 || (k.reader in {TRY_LOGIN, BY_CREDENTIALS} && k.args == [u.id, u.password])
                 || (k.reader == GET_DATA && k.args == [u.secureId]) || (k.reader == GET_ALL && k.args == [])
                 || (k.reader == BY_TOKEN && u.token.Some? && u.token.value != "" && k.args == [u.token.value]))
    ensures k !in RemoveData(h, s, secureId, false).entries <==>
              || (k.reader == GET_DATA && k.args == [secureId]) || (k.reader == GET_ALL && k.args == [])
              || (k.reader in {TRY_LOGIN, BY_CREDENTIALS, BY_TOKEN}
                  && exists row :: row in s.rows && Get(row, "secure_id") == Text(secureId))
  {
    HasSelected(s.rows, "secure_id", secureId);
  }

  /** Removing a secure id leaves exactly the rows of other ids. */
  lemma RemovedIsGone(h: Hashes, s: Db, secureId: string, row: Row)
    ensures row in RemoveData(h, s, secureId, false).rows <==> row in s.rows && Get(row, "secure_id") != Text(secureId)
  {
    Selected(s.rows, IsNot("secure_id", secureId), row);
  }

  // ---------------------------------------------------------------- the module's functions, step by step

  class FsqrData {
    const h: Hashes
    const cache: RedisCache
    var rows: seq<Row>

    constructor (h: Hashes, cache: RedisCache)
      ensures this.h == h && this.cache == cache && rows == []
    {
      this.h, this.cache, rows := h, cache, [];
    }

    function State(): Db
      reads this, cache
    {
      Db(rows, cache.entries)
    }

    method FindByCredentials(id: string, password: string) returns (record: Option<Row>)
      ensures record == FindRecord(h, rows, id, password)
    {
      var hits := Select(rows, Hashed(id, LookupHash(h, id, password)));
      if hits != [] && Verified(h.verify, hits[0], password) {
        return Some(hits[0]);
      }
      var legacy := Select(rows, Legacy(id));
      for i := 0 to |legacy|
        invariant FirstVerified(h.verify, legacy, password) == FirstVerified(h.verify, legacy[i..], password)
      {
        if Verified(h.verify, legacy[i], password) {
          return Some(legacy[i]);
        }
      }
      return None;
    }

    method Query(k: Key) returns (a: Answer)
      ensures a == Direct(h, rows, k)
    {
      if k.named == map[] && k.reader in {TRY_LOGIN, BY_CREDENTIALS} && |k.args| == 2 {
        var record := FindByCredentials(k.args[0], k.args[1]);
        if k.reader == BY_CREDENTIALS {
          a := Rows(if record.Some? then [record.value] else []);
        } else if record.Some? && Get(record.value, "secure_id").Text? {
          a := Plain(Get(record.value, "secure_id").text);
        } else {
          a := Nothing;
        }
      } else {
        a := Direct(h, rows, k);
      }
    }

    /** A decorated reader. */
    method Read(k: Key) returns (a: Answer)
      modifies cache
      ensures (a, cache.entries) == Cached(old(cache.entries), DirectOf(h, rows), Strip, k)
    {
      var hit := cache.Fetch(k);
      if hit.Some? {
        return hit.value;
      }
      var result := Query(k);
      a := Normalize(result, Strip(k.reader));
      if a != Nothing {
        cache.SetEx(k, a);
      }
    }

    method Save(u: Upload) returns (saved: bool)
      modifies this, cache
      ensures saved == !Refused(h, old(rows), u) && State() == SaveFile(h, old(State()), u)
    {
      if Refused(h, rows, u) {
        return false;
      }
      rows := rows + [NewRow(h, u)];
      cache.Delete(Key(TRY_LOGIN, [u.id, u.password]));
      cache.Delete(Key(BY_CREDENTIALS, [u.id, u.password]));
      cache.Delete(Key(GET_DATA, [u.secureId]));
      if u.token.Some? && u.token.value != "" {
        cache.Delete(Key(BY_TOKEN, [u.token.value]));
      }
      cache.Delete(Key(GET_ALL, []));
      assert cache.entries == old(cache.entries) - SaveKeys(u);
      return true;
    }

    method Remove(secureId: string, filesFail: bool) returns (raised: bool)
      modifies this, cache
      ensures raised == filesFail && State() == RemoveData(h, old(State()), secureId, filesFail)
    {
      var data := Select(rows, Is("secure_id", secureId));
      if filesFail {
        return true;
      }
      rows := Select(rows, IsNot("secure_id", secureId));
      cache.Delete(Key(GET_DATA, [secureId]));
      cache.Delete(Key(GET_ALL, []));
      assert cache.entries == old(cache.entries) - {Key(GET_DATA, [secureId]), Key(GET_ALL, [])};
      if data != [] {
        cache.DeletePrefix(TRY_LOGIN);
        cache.DeletePrefix(BY_CREDENTIALS);
        cache.DeletePrefix(BY_TOKEN);
      }
      return false;
    }

    method RemoveAll(failing: set<string>) returns (raised: bool)
      modifies this, cache
      ensures raised == RevokeRaises(old(rows), failing) && State() == AllRemove(old(State()), failing)
    {
      var removed := rows;
      rows := [];
      for i := 0 to |removed|
        invariant forall j: nat | j < i :: !Raises(removed[j], failing)
        invariant rows == [] && cache.entries == old(cache.entries)
      {
        if Raises(removed[i], failing) {
          return true;
        }
      }
      cache.DeletePrefix(TRY_LOGIN);
      cache.DeletePrefix(BY_CREDENTIALS);
      cache.DeletePrefix(BY_TOKEN);
      cache.DeletePrefix(GET_DATA);
      cache.DeletePrefix(GET_ALL);
      return false;
    }
  }
}
