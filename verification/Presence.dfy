/**
 Viewer counts: a sliding window of heartbeats, kept in a dictionary of one process or in Redis sorted
 sets with a time to live, against a definition over the history of heartbeats and departures.
 */
module Presence {
  import opened Wrappers

  type Viewer = string
  datatype Place = Place(scope: string, key: string)

  /** The calls, each with the clock's reading. */
  datatype Event =
    | Heartbeat(place: Place, viewer: Viewer, now: real)
    | Count(place: Place, now: real)
    | Leave(place: Place, viewer: Viewer, now: real)

  // ---------------------------------------------------------------- the meaning of a count

  /** When the viewer was last heard of at the place, unless it has left since. */
  function LastSeen(h: seq<Event>, place: Place, v: Viewer): Option<real> {
    if h == [] then None
    else
      var e := h[|h| - 1];
      if e.Heartbeat? && e.place == place && e.viewer == v then Some(e.now)
      else if e.Leave? && e.place == place && e.viewer == v then None
      else LastSeen(h[..|h| - 1], place, v)
  }

  predicate Watching(h: seq<Event>, place: Place, v: Viewer, now: real) {
    var seen := LastSeen(h, place, v);
    seen.Some? && now - seen.value < 10.0
  }

  function Live(h: seq<Event>, place: Place, now: real): set<Viewer> {
    set i: nat | i < |h| && h[i].Heartbeat? && Watching(h, place, h[i].viewer, now) :: h[i].viewer
  }

  lemma {:induction false} SeenInHistory(h: seq<Event>, place: Place, v: Viewer)
    requires LastSeen(h, place, v).Some?
    ensures exists i: nat :: i < |h| && h[i].Heartbeat? && h[i].viewer == v
  {
    var e := h[|h| - 1];
    if e.Heartbeat? && e.place == place && e.viewer == v {
    } else {
      SeenInHistory(h[..|h| - 1], place, v);
      var i: nat :| i < |h| - 1 && h[..|h| - 1][i].Heartbeat? && h[..|h| - 1][i].viewer == v;
      assert h[i] == h[..|h| - 1][i];
    }
  }

  lemma LiveIs(h: seq<Event>, place: Place, now: real, v: Viewer)
    ensures v in Live(h, place, now) <==> Watching(h, place, v, now)
  {
    if Watching(h, place, v, now) {
      SeenInHistory(h, place, v);
      var i: nat :| i < |h| && h[i].Heartbeat? && h[i].viewer == v;
      assert Watching(h, place, h[i].viewer, now);
    }
  }

  // ---------------------------------------------------------------- the two stores

  type Viewers = map<Viewer, real>
  type Store = map<Place, Viewers>

  function At(store: Store, place: Place): Viewers {
    if place in store then store[place] else map[]
  }

  /** `_local_prune` and `ZREMRANGEBYSCORE -inf now-10`. */
  function Prune(viewers: Viewers, now: real): Viewers {
    map v | v in viewers && viewers[v] > now - 10.0 :: viewers[v]
  }

  function Touched(viewers: Viewers, e: Event): Viewers {
    match e
    case Heartbeat(_, v, now) => viewers[v := now]
    case Leave(_, v, _) => viewers - {v}
    case Count(_, _) => viewers
  }

  function Put(store: Store, place: Place, viewers: Viewers): Store {
    if viewers == map[] then store - {place} else store[place := viewers]
  }

  /** A call on the dictionary: the new store and the count returned. */
  function LocalStep(store: Store, e: Event): (Store, nat) {
    var viewers := Prune(Touched(At(store, e.place), e), e.now);
    (Put(store, e.place, viewers), |viewers|)
  }

  /** Sorted sets by score, and when each key's time to live ends. */
  datatype Redis = Redis(sets: Store, deadlines: map<Place, real>)

  /** The keys that are still there at a time. */
  function Unexpired(r: Redis, now: real): Store {
    map place | place in r.sets && place in r.deadlines && now < r.deadlines[place] :: r.sets[place]
  }

  /** A call on Redis: a heartbeat renews the 60 seconds of the key; an empty sorted set is no key. */
  function RedisStep(r: Redis, e: Event): (Redis, nat) {
    var store := Unexpired(r, e.now);
    var viewers := Prune(Touched(At(store, e.place), e), e.now);
    (Redis(Put(store, e.place, viewers),
           if e.Heartbeat? then r.deadlines[e.place := e.now + 60.0] else r.deadlines),
     |viewers|)
  }

  function LocalRun(h: seq<Event>): Store {
    if h == [] then map[] else LocalStep(LocalRun(h[..|h| - 1]), h[|h| - 1]).0
  }

  function RedisRun(h: seq<Event>): Redis {
    if h == [] then Redis(map[], map[]) else RedisStep(RedisRun(h[..|h| - 1]), h[|h| - 1]).0
  }

  /** Only a heartbeat renews a key, and for a minute. */
  lemma Renewal(r: Redis, e: Event, place: Place)
    ensures var after := RedisStep(r, e).0;
            && (e.Heartbeat? && e.place == place ==>
                  place in after.deadlines && after.deadlines[place] == e.now + 60.0)
            && (!(e.Heartbeat? && e.place == place) ==>
                  && (place in after.deadlines <==> place in r.deadlines)
                  && (place in r.deadlines ==> after.deadlines[place] == r.deadlines[place]))
  {
  }

  // ---------------------------------------------------------------- what each store remembers

  ghost predicate NoEmpty(store: Store) {
    forall place | place in store :: store[place] != map[]
  }

  /** The store knows only true readings, and every reading that still counts at `now`. */
  ghost predicate Tracks(h: seq<Event>, store: Store, now: real) {
    && NoEmpty(store)
    && (forall place, v :: v in At(store, place) ==> LastSeen(h, place, v) == Some(At(store, place)[v]))
    && (forall place, v :: Watching(h, place, v, now) ==> v in At(store, place))
  }

  lemma PutKeeps(h: seq<Event>, store: Store, now: real, e: Event)
    requires Tracks(h, store, now) && now <= e.now
    ensures var viewers := Prune(Touched(At(store, e.place), e), e.now);
            Tracks(h + [e], Put(store, e.place, viewers), e.now) && viewers.Keys == Live(h + [e], e.place, e.now)
  {
    var viewers := Prune(Touched(At(store, e.place), e), e.now);
    var after := Put(store, e.place, viewers);
    var g := h + [e];
    assert g[..|g| - 1] == h;
    forall place, v ensures
      (v in At(after, place) ==> LastSeen(g, place, v) == Some(At(after, place)[v]))
      && (Watching(g, place, v, e.now) ==> v in At(after, place))
    {
      assert Watching(h, place, v, e.now) ==> Watching(h, place, v, now);
    }
    forall v ensures v in viewers.Keys <==> v in Live(g, e.place, e.now) {
      LiveIs(g, e.place, e.now, v);
      assert At(after, e.place) == viewers;
    }
  }

  predicate Ordered(h: seq<Event>) {
    forall i: nat | i + 1 < |h| :: h[i].now <= h[i + 1].now
  }

  function Clock(h: seq<Event>): real
    requires h != []
  {
    h[|h| - 1].now
  }

  lemma KeysCount(viewers: Viewers)
    ensures |viewers.Keys| == |viewers|
  {
  }

  /** Each call on the dictionary returns the number of viewers watching then; no empty entry is kept. */
  lemma {:induction false} LocalCounts(h: seq<Event>)
    requires h != [] && Ordered(h)
    ensures Tracks(h, LocalRun(h), Clock(h))
    ensures var e := h[|h| - 1]; LocalStep(LocalRun(h[..|h| - 1]), e).1 == |Live(h, e.place, e.now)|
  {
    var before, e := h[..|h| - 1], h[|h| - 1];
    assert before + [e] == h;
    var now := if before == [] then e.now else Clock(before);
    if before != [] {
      LocalCounts(before);
      assert before[|before| - 1] == h[|h| - 2];
    }
    PutKeeps(before, LocalRun(before), now, e);
    KeysCount(Prune(Touched(At(LocalRun(before), e.place), e), e.now));
  }

  /** Every key lives for 60 seconds after its latest score, and no score lies in the future. */
  ghost predicate Renewed(r: Redis, now: real) {
    && (forall place | place in r.sets :: place in r.deadlines)
    && (forall place, v | place in r.sets && v in r.sets[place] ::
          r.sets[place][v] <= now && r.sets[place][v] + 60.0 <= r.deadlines[place])
  }

  /** Expiry takes away no reading that still counts. */
  lemma ExpiryKeeps(h: seq<Event>, r: Redis, now: real, later: real)
    requires Tracks(h, r.sets, now) && Renewed(r, now) && now <= later
    ensures Tracks(h, Unexpired(r, later), later)
    ensures forall place | place in Unexpired(r, later) :: place in r.deadlines && later < r.deadlines[place]
    ensures forall place | place in r.sets && r.deadlines[place] <= later :: Live(h, place, later) == {}
  {
    var store := Unexpired(r, later);
    forall place, v | Watching(h, place, v, later) ensures v in At(store, place) {
      assert Watching(h, place, v, now);
      assert v in At(r.sets, place) && r.sets[place][v] + 60.0 <= r.deadlines[place];
    }
    forall place | place in r.sets && r.deadlines[place] <= later ensures Live(h, place, later) == {} {
      forall v ensures v !in Live(h, place, later) {
        LiveIs(h, place, later, v);
      }
    }
  }

  /** So does each call on Redis, whatever keys have expired; an expired key had nobody watching. */
  lemma {:induction false} RedisCounts(h: seq<Event>)
    requires h != [] && Ordered(h)
    ensures Tracks(h, RedisRun(h).sets, Clock(h)) && Renewed(RedisRun(h), Clock(h))
    ensures var e := h[|h| - 1]; RedisStep(RedisRun(h[..|h| - 1]), e).1 == |Live(h, e.place, e.now)|
  {
    var before, e := h[..|h| - 1], h[|h| - 1];
    assert before + [e] == h;
    var now := if before == [] then e.now else Clock(before);
    var r := RedisRun(before);
    if before != [] {
      RedisCounts(before);
      assert before[|before| - 1] == h[|h| - 2];
    }
    hide Tracks, Renewed, RedisStep, Live, Watching, LastSeen;
    assert Tracks(before, r.sets, now) && Renewed(r, now);
    ExpiryKeeps(before, r, now, e.now);
    var store := Unexpired(r, e.now);
    PutKeeps(before, store, e.now, e);
    KeysCount(Prune(Touched(At(store, e.place), e), e.now));
    RenewedStep(r, now, e);
  }

  lemma RenewedStep(r: Redis, now: real, e: Event)
    requires Renewed(r, now) && now <= e.now
    ensures Renewed(RedisStep(r, e).0, e.now)
  {
  }

  /** The two stores answer alike. */
  lemma SameCounts(h: seq<Event>)
    requires h != [] && Ordered(h)
    ensures LocalStep(LocalRun(h[..|h| - 1]), h[|h| - 1]).1 == RedisStep(RedisRun(h[..|h| - 1]), h[|h| - 1]).1
  {
    LocalCounts(h);
    RedisCounts(h);
  }

  // ---------------------------------------------------------------- the two back ends, step by step

  class LocalPresence {
    var store: Store

    constructor ()
      ensures store == LocalRun([])
    {
      store := map[];
    }

    /** `_local_prune` on the dictionary of one place. */
    static method PruneViewers(viewers: Viewers, now: real) returns (kept: Viewers)
      ensures kept == Prune(viewers, now)
    {
      kept := viewers;
      var stale := set v | v in viewers && viewers[v] <= now - 10.0;
      while stale != {}
        invariant stale <= kept.Keys && forall v | v in stale :: viewers[v] <= now - 10.0
        invariant forall v | v in kept :: v in viewers && kept[v] == viewers[v]
        invariant forall v | v in viewers && v !in kept :: viewers[v] <= now - 10.0
        invariant forall v | v in kept && v !in stale :: viewers[v] > now - 10.0
        decreases stale
      {
        var v :| v in stale;
        kept, stale := kept - {v}, stale - {v};
      }
    }

    method Touch(place: Place, v: Viewer, now: real) returns (n: nat)
      modifies this
      ensures (store, n) == LocalStep(old(store), Heartbeat(place, v, now))
    {
      var viewers := PruneViewers(At(store, place)[v := now], now);
      if viewers == map[] {
        store := store - {place};
        return 0;
      }
      store := store[place := viewers];
      return |viewers|;
    }

    method CountViewers(place: Place, now: real) returns (n: nat)
      requires NoEmpty(store)
      modifies this
      ensures (store, n) == LocalStep(old(store), Count(place, now))
    {
      if place !in store || store[place] == map[] {
        assert Prune(At(store, place), now) == map[] && store - {place} == store;
        return 0;
      }
      var viewers := PruneViewers(store[place], now);
      if viewers == map[] {
        store := store - {place};
        return 0;
      }
      store := store[place := viewers];
      return |viewers|;
    }

    method LeavePlace(place: Place, v: Viewer, now: real) returns (n: nat)
      requires NoEmpty(store)
      modifies this
      ensures (store, n) == LocalStep(old(store), Leave(place, v, now))
    {
      if place !in store || store[place] == map[] {
        assert Prune(At(store, place) - {v}, now) == map[] && store - {place} == store;
        return 0;
      }
      var viewers := PruneViewers(store[place] - {v}, now);
      if viewers == map[] {
        store := store - {place};
        return 0;
      }
      store := store[place := viewers];
      return |viewers|;
    }
  }

  lemma PutTwice(store: Store, place: Place, a: Viewers, b: Viewers)
    ensures At(Put(store, place, a), place) == a && At(store[place := a], place) == a
    ensures Put(Put(store, place, a), place, b) == Put(store, place, b) == Put(store[place := a], place, b)
  {
  }

  /** The sorted-set commands used, each on a key that has not expired. */
  class RedisPresence {
    var r: Redis

    constructor ()
      ensures r == RedisRun([])
    {
      r := Redis(map[], map[]);
    }

    /** Keys whose time is over are gone before the transaction runs. */
    method Expire(now: real)
      modifies this
      ensures r == old(r).(sets := Unexpired(old(r), now))
    {
      r := r.(sets := Unexpired(r, now));
    }

    method ZAdd(place: Place, v: Viewer, score: real)
      modifies this
      ensures r == old(r).(sets := old(r).sets[place := At(old(r).sets, place)[v := score]])
    {
      r := r.(sets := r.sets[place := At(r.sets, place)[v := score]]);
    }

    method ZRem(place: Place, v: Viewer)
      modifies this
      ensures r == old(r).(sets := Put(old(r).sets, place, At(old(r).sets, place) - {v}))
    {
      r := r.(sets := Put(r.sets, place, At(r.sets, place) - {v}));
    }

    method ZRemRangeByScore(place: Place, now: real)
      modifies this
      ensures r == old(r).(sets := Put(old(r).sets, place, Prune(At(old(r).sets, place), now)))
    {
      r := r.(sets := Put(r.sets, place, Prune(At(r.sets, place), now)));
    }

    method Touch(place: Place, v: Viewer, now: real) returns (n: nat)
      modifies this
      ensures (r, n) == RedisStep(old(r), Heartbeat(place, v, now))
    {
      hide Prune, Put, At, Unexpired;
      ghost var e := Heartbeat(place, v, now);
      Expire(now);
      ghost var store := r.sets;
      ghost var viewers := Touched(At(store, place), e);
      ZAdd(place, v, now);
      ZRemRangeByScore(place, now);
      PutTwice(store, place, viewers, Prune(viewers, now));
      PutTwice(store, place, Prune(viewers, now), map[]);
      n := |At(r.sets, place)|;
      r := r.(deadlines := r.deadlines[place := now + 60.0]);
    }

    method CountViewers(place: Place, now: real) returns (n: nat)
      modifies this
      ensures (r, n) == RedisStep(old(r), Count(place, now))
    {
      Expire(now);
      ZRemRangeByScore(place, now);
      n := |At(r.sets, place)|;
    }

    method LeavePlace(place: Place, v: Viewer, now: real) returns (n: nat)
      modifies this
      ensures (r, n) == RedisStep(old(r), Leave(place, v, now))
    {
      hide Prune, Put, At, Unexpired;
      ghost var e := Leave(place, v, now);
      Expire(now);
      ghost var store := r.sets;
      ghost var viewers := Touched(At(store, place), e);
      ZRem(place, v);
      ZRemRangeByScore(place, now);
      PutTwice(store, place, viewers, Prune(viewers, now));
      PutTwice(store, place, Prune(viewers, now), map[]);
      n := |At(r.sets, place)|;
    }
  }
}
