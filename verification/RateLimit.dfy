/**
 Failure counters and expiring blocks.  The first part is one client's keys as a value; the class at
 the end is the key store with its expiry times, proved against it.  Time is whole seconds and every
 call is one atomic step.
 */
module RateLimit {
  import opened Wrappers
  import Decimal

  const HALF_HOUR: nat := 1800
  const DAY: nat := 86400
  const COUNTER_LIFE: nat := 2592000

  /** A key's value and the second at which it disappears. */
  datatype Entry<T> = Entry(value: T, expires: int)

  function Live<T>(e: Option<Entry<T>>, now: int): Option<T> {
    if e.Some? && now < e.value.expires then Some(e.value.value) else None
  }

  datatype Level = Level(threshold: nat, duration: nat, text: string)

  /** `THRESHOLDS`, highest first. */
  const LEVELS: seq<Level> := [Level(50, DAY, "1日"), Level(10, HALF_HOUR, "30分")]

  /** The level that a failure count falls in. */
  function LevelOf(count: nat): Option<Level> {
    if count >= 50 then Some(LEVELS[0]) else if count >= 10 then Some(LEVELS[1]) else None
  }

  function BlockTime(count: nat): nat {
    if count >= 50 then DAY else if count >= 10 then HALF_HOUR else 0
  }

  // ---------------------------------------------------------------- graduated blocks

  /** The counter and block keys of one client. */
  datatype Client = Client(count: Option<Entry<nat>>, block: Option<Entry<string>>)

  const FRESH := Client(None, None)

  predicate Blocked(c: Client, now: int) {
    Live(c.block, now).Some?
  }

  /** `register_failure`. */
  function Failure(c: Client, now: int): Client {
    if Blocked(c, now) then c
    else
      var n := Live(c.count, now).GetOr(0) + 1;
      Client(Some(Entry(n, now + COUNTER_LIFE)),
             match LevelOf(n) case Some(l) => Some(Entry(l.text, now + l.duration)) case None => c.block)
  }

  /** `register_success`. */
  function Success(c: Client): Client { FRESH }

  datatype Event = Fail(at: int) | Succeed(at: int)

  function Apply(c: Client, e: Event): Client {
    match e case Fail(at) => Failure(c, at) case Succeed(at) => Success(c)
  }

  function Run(events: seq<Event>): Client {
    if events == [] then FRESH else Apply(Run(events[..|events| - 1]), events[|events| - 1])
  }

  predicate InOrder(events: seq<Event>) {
    forall i, j | 0 <= i < j < |events| :: events[i].at <= events[j].at
  }

  /** The last failure was counted, and made the counter one. */
  predicate Restarts(events: seq<Event>)
    requires events != []
  {
    var c, e := Run(events[..|events| - 1]), events[|events| - 1];
    e.Fail? && !Blocked(c, e.at) && Live(c.count, e.at).None?
  }

  /** When the stored count last became one. */
  function StartTime(events: seq<Event>): int {
    if events == [] then 0
    else if Restarts(events) then events[|events| - 1].at
    else StartTime(events[..|events| - 1])
  }

  /** The least time in which a count can be reached: no wait up to 10, then every block in full. */
  function LeastTime(count: nat): nat {
    if count <= 10 then 0
    else if count <= 50 then 1800 * (count - 10)
    else 72000 + 86400 * (count - 50)
  }

  /** The last counted failure set the counter to `n`, and its block runs for the level of `n`. */
  ghost predicate Escalated(c: Client, start: int, now: int) {
    && (c.count.None? ==> c.block.None?)
    && (c.count.Some? ==>
          var n, last := c.count.value.value, c.count.value.expires - COUNTER_LIFE;
          && n >= 1 && last <= now && last - start >= LeastTime(n)
          && (BlockTime(n) > 0 ==> c.block.Some? && c.block.value.expires == last + BlockTime(n))
          && (BlockTime(n) == 0 ==> !Blocked(c, now)))
  }

  lemma {:induction false} FailureEscalates(c: Client, start: int, last: int, now: int)
    requires Escalated(c, start, last) && last <= now
    ensures Escalated(Failure(c, now), if !Blocked(c, now) && Live(c.count, now).None? then now else start, now)
  {
  }

  lemma {:induction false} RunEscalates(events: seq<Event>, now: int)
    requires InOrder(events) && forall i | 0 <= i < |events| :: events[i].at <= now
    ensures Escalated(Run(events), StartTime(events), now)
  {
    if events != [] {
      var e := events[|events| - 1];
      RunEscalates(events[..|events| - 1], e.at);
      if e.Fail? {
        FailureEscalates(Run(events[..|events| - 1]), StartTime(events[..|events| - 1]), e.at, e.at);
      }
    }
  }

  /**
   In every run, whenever a count of `n` is stored at least `LeastTime(n)` has passed since it became
   one: half an hour for each failure from 10 to 50, and a day for each beyond.
   */
  lemma {:induction false} EscalationBound(events: seq<Event>, now: int)
    requires InOrder(events) && forall i | 0 <= i < |events| :: events[i].at <= now
    ensures var n := Live(Run(events).count, now).GetOr(0);
            && (10 <= n <= 50 ==> now - StartTime(events) >= 1800 * (n - 10))
            && (n > 50 ==> now - StartTime(events) >= 72000 + 86400 * (n - 50))
  {
    RunEscalates(events, now);
  }

  // ---------------------------------------------------------------- what a success undoes

  /** The failures since the last success. */
  function FailuresSince(events: seq<Event>): nat {
    if events == [] || events[|events| - 1].Succeed? then 0 else FailuresSince(events[..|events| - 1]) + 1
  }

  /** They are those behind the last success, or all when there was none. */
  lemma {:induction false} FailuresCounted(events: seq<Event>, k: nat)
    requires k <= |events| && (k == |events| || events[|events| - k - 1].Succeed?)
    requires forall i: nat | |events| - k <= i < |events| :: events[i].Fail?
    ensures FailuresSince(events) == k
  {
    if k > 0 { FailuresCounted(events[..|events| - 1], k - 1); }
  }

  lemma {:induction false} CountWithin(events: seq<Event>)
    ensures var c := Run(events).count; c.Some? ==> c.value.value <= FailuresSince(events)
  {
    if events != [] {
      CountWithin(events[..|events| - 1]);
    }
  }

  /** In every run a stored count is at most the failures since the last success, and a block needs ten of them. */
  lemma BlockNeedsTen(events: seq<Event>, now: int)
    requires InOrder(events) && forall i | 0 <= i < |events| :: events[i].at <= now
    ensures Live<nat>(Run(events).count, now).GetOr(0) <= FailuresSince(events)
    ensures Blocked(Run(events), now) ==> FailuresSince(events) >= 10
  {
    CountWithin(events);
    RunEscalates(events, now);
  }

  /** A success ends block and count for good, whatever came before; so do fewer than ten failures after it. */
  lemma {:induction false} SuccessForgets(before: seq<Event>, at: int, failures: seq<Event>, now: int)
    requires forall i: nat | i < |failures| :: failures[i].Fail?
    ensures var c := Run(before + [Succeed(at)] + failures);
            && (c.count.Some? ==> c.count.value.value <= |failures|)
            && (failures == [] ==> Live(c.count, now).None?)
            && (|failures| < 10 ==> !Blocked(c, now))
  {
    var events := before + [Succeed(at)];
    if failures == [] {
      assert events + failures == events && events[..|events| - 1] == before;
    } else {
      var n := |failures| - 1;
      SuccessForgets(before, at, failures[..n], now);
      assert (events + failures)[..|events| + n] == events + failures[..n];
      SuccessForgets(before, at, failures[..n], failures[n].at);
    }
  }

  /** A counted failure: the count goes up and is kept for thirty days, and from ten failures on it blocks. */
  lemma CountedFailure(c: Client, at: int, now: int)
    requires !Blocked(c, at)
    ensures var n, after := Live(c.count, at).GetOr(0) + 1, Failure(c, at);
            && (now < at + 30 * 24 * 60 * 60 ==> Live(after.count, now) == Some(n))
            && (now >= at + 30 * 24 * 60 * 60 ==> Live(after.count, now) == None)
            && (n >= 50 ==> Live(after.block, now) == if now < at + 24 * 60 * 60 then Some("1日") else None)
            && (10 <= n < 50 ==> Live(after.block, now) == if now < at + 30 * 60 then Some("30分") else None)
            && (n < 10 && now >= at ==> !Blocked(after, now))
  {
  }

  /** The failures of a client that retries the moment each block ends, from second `start`. */
  function Impatient(start: int, n: nat): (events: seq<Event>)
    ensures |events| == n
  {
    if n == 0 then [] else Impatient(start, n - 1) + [Fail(start + LeastTime(n))]
  }

  lemma {:induction false} ImpatientInOrder(start: int, n: nat)
    ensures InOrder(Impatient(start, n)) && forall i | 0 <= i < n :: Impatient(start, n)[i].at <= start + LeastTime(n)
  {
    if n > 0 { ImpatientInOrder(start, n - 1); }
  }

  /** The client's keys after its n-th failure. */
  ghost predicate Waiting(c: Client, start: int, n: nat) {
    && c.count == Some(Entry(n, start + LeastTime(n) + COUNTER_LIFE))
    && (n >= 10 ==> c.block.Some? && c.block.value.expires == start + LeastTime(n + 1))
    && (n < 10 ==> c.block == None)
  }

  lemma {:induction false} WaitsOut(c: Client, start: int, n: nat)
    requires n >= 1 && Waiting(c, start, n)
    ensures !Blocked(c, start + LeastTime(n + 1)) && Live(c.count, start + LeastTime(n + 1)) == Some(n)
    ensures Waiting(Failure(c, start + LeastTime(n + 1)), start, n + 1)
  {
  }

  lemma {:induction false} ImpatientWaits(start: int, n: nat)
    requires n >= 1
    ensures Waiting(Run(Impatient(start, n)), start, n) && StartTime(Impatient(start, n)) == start
  {
    var front, at := Impatient(start, n - 1), start + LeastTime(n);
    RunSnoc(front, Fail(at));
    if n > 1 {
      ImpatientWaits(start, n - 1);
      hide Run, StartTime, Impatient, Waiting, LeastTime, Failure;
      WaitsOut(Run(front), start, n - 1);
    } else {
      assert front == [];
    }
  }

  /** The bound is met by the impatient client: waiting out a block never loses the count. */
  lemma BoundIsAttained(start: int, n: nat)
    requires n >= 1
    ensures InOrder(Impatient(start, n)) && forall i | 0 <= i < n :: Impatient(start, n)[i].at <= start + LeastTime(n)
    ensures Waiting(Run(Impatient(start, n)), start, n) && StartTime(Impatient(start, n)) == start
  {
    hide *;
    ImpatientInOrder(start, n);
    ImpatientWaits(start, n);
  }

  lemma {:induction false} RunSnoc(events: seq<Event>, e: Event)
    ensures Run(events + [e]) == Apply(Run(events), e)
    ensures StartTime(events + [e]) ==
            if e.Fail? && !Blocked(Run(events), e.at) && Live(Run(events).count, e.at).None? then e.at
            else StartTime(events)
  {
    assert (events + [e])[..|events|] == events;
  }

  /** Whatever a block's length, its failure count is still stored when the block ends. */
  lemma {:induction false} BlockOutlivedByCount(events: seq<Event>, now: int)
    requires InOrder(events) && forall i | 0 <= i < |events| :: events[i].at <= now
    requires Blocked(Run(events), now)
    ensures var c := Run(events);
            && Live(c.count, c.block.value.expires) == Live(c.count, now) && Live(c.count, now).Some?
            && Failure(c, c.block.value.expires).count.value.value == c.count.value.value + 1
  {
    RunEscalates(events, now);
  }

  // ---------------------------------------------------------------- exponential backoff

  const BACKOFF_LIFE := 3600

  function Power2(n: nat): nat {
    if n == 0 then 1 else 2 * Power2(n - 1)
  }

  /** The delay after the n-th failure: 2, 4, 8, ... seconds, at most 300. */
  function Delay(n: nat): nat {
    var d := 2 * Power2(if n == 0 then 0 else n - 1);
    if d < 300 then d else 300
  }

  function DelayText(n: nat): string {
    Decimal.Text(Delay(n)) + "秒"
  }

  /** `register_exponential_backoff_failure`: the counter's life starts at its first failure only. */
  function BackoffFailure(c: Client, now: int): Client {
    var n := Live(c.count, now).GetOr(0) + 1;
    Client(Some(Entry(n, if n == 1 then now + BACKOFF_LIFE else c.count.value.expires)),
           Some(Entry(DelayText(n), now + Delay(n))))
  }

  /** A registered failure: its count ends an hour after the first one, and it blocks for 2, 4, ... 256, then 300 s. */
  lemma RegisteredFailure(c: Client, at: int, now: int)
    ensures var n, after := Live(c.count, at).GetOr(0) + 1, BackoffFailure(c, at);
            var delay: nat := if n <= 8 then [2, 4, 8, 16, 32, 64, 128, 256][n - 1] else 300;
            && after.count.Some? && after.count.value.value == n
            && after.count.value.expires == (if n == 1 then at + 60 * 60 else c.count.value.expires)
            && Live(after.block, now) == if now < at + delay then Some(Decimal.Text(delay) + "秒") else None
  {
    PowersTo8();
    var n := Live(c.count, at).GetOr(0) + 1;
    if n >= 9 { PowerAtLeast(n - 1); }
    hide Power2, Decimal.Text;
  }

  lemma PowersTo8()
    ensures Power2(0) == 1 && Power2(1) == 2 && Power2(2) == 4 && Power2(3) == 8
    ensures Power2(4) == 16 && Power2(5) == 32 && Power2(6) == 64 && Power2(7) == 128
  {
    assert Power2(3) == 8;
    assert Power2(5) == 32;
  }

  lemma {:induction false} PowerAtLeast(n: nat)
    requires n >= 8
    ensures Power2(n) >= 256
  {
    if n == 8 { PowersTo8(); } else { PowerAtLeast(n - 1); }
  }

  /** `min(max_seconds, base_seconds * 2 ** max(count - 1, 0))`. */
  function DelayWith(base: int, most: int, n: nat): int {
    var d := base * Power2(if n == 0 then 0 else n - 1);
    if d < most then d else most
  }

  /** The same with other seconds; Redis refuses a life that is not positive, after the count has gone up. */
  function BackoffFailureWith(c: Client, now: int, base: int, most: int): Client {
    var n := Live(c.count, now).GetOr(0) + 1;
    var delay := DelayWith(base, most, n);
    Client(Some(Entry(n, if n == 1 then now + BACKOFF_LIFE else c.count.value.expires)),
           if delay > 0 then Some(Entry(Decimal.Text(delay) + "秒", now + delay)) else c.block)
  }

  /** A delay of a second or more blocks for exactly that long; without one the earlier block stays as it was. */
  lemma DelayBlocks(c: Client, now: int, base: int, most: int, at: int)
    requires now <= at
    ensures var after := BackoffFailureWith(c, now, base, most);
            var n := if c.count.Some? && now < c.count.value.expires then c.count.value.value + 1 else 1;
            var delay := if base * Power2(n - 1) < most then base * Power2(n - 1) else most;
            && after.count.Some? && after.count.value.value == n
            && (delay >= 1 ==> (Blocked(after, at) <==> at < now + delay))
            && (delay < 1 ==> after.block == c.block)
  {
  }

  /** The defaults are 2 and 300 seconds. */
  lemma DefaultSeconds(c: Client, now: int)
    ensures BackoffFailureWith(c, now, 2, 300) == BackoffFailure(c, now)
    ensures forall n: nat :: DelayWith(2, 300, n) == Delay(n) > 0
  {
    forall n: nat ensures DelayWith(2, 300, n) == Delay(n) > 0 {
      PowerPositive(if n == 0 then 0 else n - 1);
    }
  }

  lemma {:induction false} PowerPositive(n: nat)
    ensures Power2(n) >= 1
  {
    if n > 0 {
      PowerPositive(n - 1);
    }
  }

  /**
   A client's failures as they are registered.  The check of a route and its registration are separate calls
   with other requests between them, so a failure may be registered while a block stands that its check did
   not see yet; such a one is late.
   */
  function Register(c: Client, e: Event): Client {
    match e case Fail(at) => BackoffFailure(c, at) case Succeed(at) => FRESH
  }

  function RunRegistered(events: seq<Event>): Client {
    if events == [] then FRESH else Register(RunRegistered(events[..|events| - 1]), events[|events| - 1])
  }

  /** The late registrations of the counter's life, after one more. */
  function LateAfter(c: Client, late: nat, e: Event): nat {
    if e.Succeed? then 0
    else (if Live(c.count, e.at).Some? then late else 0) + (if Blocked(c, e.at) then 1 else 0)
  }

  /** The late registrations since the stored count became one. */
  function Late(events: seq<Event>): nat {
    if events == [] then 0
    else
      var front := events[..|events| - 1];
      LateAfter(RunRegistered(front), Late(front), events[|events| - 1])
  }

  /** A success ends what is counted as late; a registration is late exactly when a block stands. */
  lemma LateIs(events: seq<Event>, e: Event)
    ensures e.Succeed? ==> Late(events + [e]) == 0
    ensures e.Fail? && !Blocked(RunRegistered(events), e.at) ==> Late(events + [e]) <= Late(events)
    ensures e.Fail? ==> Late(events + [e]) <= Late(events) + 1
  {
    assert (events + [e])[..|events|] == events;
  }

  /** An attempt whose check and registration nothing comes between: it is registered only when no block stands. */
  function Attempt(c: Client, e: Event): Client {
    if Blocked(c, e.at) then c else Register(c, e)
  }

  function RunAttempts(events: seq<Event>): Client {
    if events == [] then FRESH else Attempt(RunAttempts(events[..|events| - 1]), events[|events| - 1])
  }

  function SumDelays(n: nat): nat {
    if n == 0 then 0 else SumDelays(n - 1) + Delay(n)
  }

  lemma OneMoreDelay(n: nat)
    ensures SumDelays(n + 1) == SumDelays(n) + Delay(n + 1)
  {
  }

  lemma {:induction false} SumDelaysTail(n: nat)
    requires n >= 9
    ensures Delay(n) == 300 && SumDelays(n) == 510 + 300 * (n - 8) && Power2(n - 1) >= 256
  {
    if n == 9 {
      assert Power2(4) == 16;
      assert Power2(8) == 256;
      assert SumDelays(4) == 30;
      assert SumDelays(8) == 510;
    } else {
      SumDelaysTail(n - 1);
    }
  }

  /** The counter began at `first`; every registration but the late ones waited for the delay before it. */
  ghost predicate BackedOff(c: Client, late: nat, now: int) {
    && (c.count.None? ==> c.block.None?)
    && (c.count.Some? ==>
          var n, first := c.count.value.value, c.count.value.expires - BACKOFF_LIFE;
          && 1 <= n <= 19 + late && late <= n && c.block.Some?
          && c.block.value.expires - Delay(n) <= now
          && c.block.value.expires - first >= SumDelays(n - late))
  }

  /** A twentieth failure would come after the counter's life. */
  lemma {:induction false} NineteenFill(n: nat)
    requires SumDelays(n) < BACKOFF_LIFE
    ensures n <= 18
    decreases n
  {
    if n >= 19 {
      SumDelaysTail(n);
    }
  }

  lemma {:induction false} DelayGrows(m: nat, n: nat)
    requires m <= n
    ensures Delay(m) <= Delay(n) && Power2(m) <= Power2(n)
  {
    if m < n {
      DelayGrows(m, n - 1);
      PowerPositive(n - 1);
    }
  }

  /** A registration that makes the counter one. */
  lemma FirstBacksOff(c: Client, now: int)
    requires Live(c.count, now).None?
    ensures BackedOff(BackoffFailure(c, now), if Blocked(c, now) then 1 else 0, now)
  {
    OneMoreDelay(0);
    assert SumDelays(0) == 0;
    hide SumDelays, Delay, DelayText;
  }

  /** A registration that raises it after the delay before it has passed. */
  lemma OnTimeBacksOff(c: Client, late: nat, last: int, now: int)
    requires BackedOff(c, late, last) && last <= now && !Blocked(c, now) && Live(c.count, now).Some?
    ensures BackedOff(BackoffFailure(c, now), late, now)
  {
    hide SumDelays, Delay, DelayText;
    var n, first := c.count.value.value, c.count.value.expires - BACKOFF_LIFE;
    assert SumDelays(n - late) <= c.block.value.expires - first <= now - first < BACKOFF_LIFE;
    NineteenFill(n - late);
    OneMoreDelay(n - late);
    DelayGrows(n - late + 1, n + 1);
  }

  /** A registration that raises it while a block stands: the block only grows. */
  lemma LateBacksOff(c: Client, late: nat, last: int, now: int)
    requires BackedOff(c, late, last) && last <= now && Blocked(c, now) && Live(c.count, now).Some?
    ensures BackedOff(BackoffFailure(c, now), late + 1, now)
  {
    var n := c.count.value.value;
    DelayGrows(n, n + 1);
    hide SumDelays, Delay, DelayText;
  }

  lemma StepBacksOff(c: Client, late: nat, e: Event)
    requires BackedOff(c, late, e.at)
    ensures BackedOff(Register(c, e), LateAfter(c, late, e), e.at)
  {
    if e.Fail? {
      hide BackedOff, BackoffFailure;
      if Live(c.count, e.at).None? {
        FirstBacksOff(c, e.at);
      } else if Blocked(c, e.at) {
        LateBacksOff(c, late, e.at, e.at);
      } else {
        OnTimeBacksOff(c, late, e.at, e.at);
      }
    }
  }

  lemma WaitingKeeps(c: Client, late: nat, last: int, now: int)
    requires BackedOff(c, late, last) && last <= now
    ensures BackedOff(c, late, now)
  {
  }

  lemma {:induction false} RegisteredBacksOff(events: seq<Event>, now: int)
    requires InOrder(events) && forall i | 0 <= i < |events| :: events[i].at <= now
    ensures BackedOff(RunRegistered(events), Late(events), now)
  {
    if events != [] {
      var front, e := events[..|events| - 1], events[|events| - 1];
      RegisteredBacksOff(front, e.at);
      hide Register, LateAfter, BackedOff;
      StepBacksOff(RunRegistered(front), Late(front), e);
      WaitingKeeps(RunRegistered(events), Late(events), e.at, now);
    }
  }

  /**
   However checks and registrations interleave: in one life of the counter the failures are at most 19 and
   the late ones.
   */
  lemma {:induction false} NineteenAndLate(events: seq<Event>, now: int)
    requires InOrder(events) && forall i | 0 <= i < |events| :: events[i].at <= now
    ensures Live(RunRegistered(events).count, now).GetOr(0) <= 19 + Late(events)
  {
    RegisteredBacksOff(events, now);
  }

  /** Requests whose checks all came before the first of their registrations, in one second. */
  function Overlapping(n: nat): (events: seq<Event>)
    ensures |events| == n && forall i | 0 <= i < n :: events[i] == Fail(0)
  {
    if n == 0 then [] else Overlapping(n - 1) + [Fail(0)]
  }

  lemma CountsAgain(c: Client, n: nat)
    requires if n == 0 then c == FRESH else Live(c.count, 0) == Some(n) && Blocked(c, 0)
    ensures Live(BackoffFailure(c, 0).count, 0) == Some(n + 1) && Blocked(BackoffFailure(c, 0), 0)
  {
    PowerPositive(n);
    assert Delay(n + 1) > 0;
    hide Delay;
  }

  /** They are all counted, and all but the first are late; so nothing bounds the late ones. */
  lemma {:induction false} OverlappingCounts(n: nat)
    requires n >= 1
    ensures InOrder(Overlapping(n)) && Late(Overlapping(n)) == n - 1
    ensures Live(RunRegistered(Overlapping(n)).count, 0) == Some(n) && Blocked(RunRegistered(Overlapping(n)), 0)
  {
    assert Overlapping(n)[..n - 1] == Overlapping(n - 1);
    assert Overlapping(n)[n - 1] == Fail(0);
    if n > 1 { OverlappingCounts(n - 1); } else { assert Overlapping(0) == []; }
    hide BackoffFailure, Live, Blocked, Overlapping;
    CountsAgain(RunRegistered(Overlapping(n - 1)), n - 1);
  }

  /** In every run of whole attempts none is late, and at most 19 failures are registered in one counter life. */
  lemma {:induction false} AtMostNineteen(events: seq<Event>, now: int)
    requires InOrder(events) && forall i | 0 <= i < |events| :: events[i].at <= now
    ensures BackedOff(RunAttempts(events), 0, now)
    ensures Live(RunAttempts(events).count, now).GetOr(0) <= 19
  {
    if events != [] {
      var front, e := events[..|events| - 1], events[|events| - 1];
      AtMostNineteen(front, e.at);
      hide Register, BackedOff;
      StepBacksOff(RunAttempts(front), 0, e);
      WaitingKeeps(RunAttempts(events), 0, e.at, now);
    }
  }

  /** The attempts of a client that retries the moment each delay ends. */
  function Retries(n: nat): seq<Event> {
    if n == 0 then [] else Retries(n - 1) + [Fail(SumDelays(n - 1))]
  }

  lemma {:induction false} RetriesInOrder(n: nat)
    ensures |Retries(n)| == n && InOrder(Retries(n))
    ensures forall i | 0 <= i < n :: Retries(n)[i].at <= SumDelays(n)
  {
    if n > 0 { RetriesInOrder(n - 1); }
  }

  /** The client's keys after n failures, each registered when the delay before had passed. */
  function Delayed(n: nat): Client {
    Client(Some(Entry(n, BACKOFF_LIFE)), Some(Entry(DelayText(n), SumDelays(n))))
  }

  lemma NextDelay(n: nat)
    requires 1 <= n <= 18
    ensures Attempt(Delayed(n), Fail(SumDelays(n))) == Delayed(n + 1)
  {
    hide SumDelays, Delay, DelayText;
    SumsBelow(n);
    OneMoreDelay(n);
  }

  /** Nineteen is reached, 90 seconds before the counter's life ends. */
  lemma {:induction false} NineteenIsReached(n: nat)
    requires 1 <= n <= 19
    ensures RunAttempts(Retries(n)) == Delayed(n) && InOrder(Retries(n))
  {
    RetriesInOrder(n);
    assert Retries(n)[..|Retries(n)| - 1] == Retries(n - 1) && Retries(n)[|Retries(n)| - 1] == Fail(SumDelays(n - 1));
    if n > 1 {
      assert RunAttempts(Retries(n)) == Attempt(RunAttempts(Retries(n - 1)), Fail(SumDelays(n - 1)));
      hide *;
      NineteenIsReached(n - 1);
      NextDelay(n - 1);
    } else {
      assert SumDelays(0) == 0 && SumDelays(1) == Delay(1) && Delay(1) == 2;
    }
  }

  lemma {:induction false} SumsBelow(n: nat)
    requires n <= 18
    ensures SumDelays(n) <= 3510
  {
    if n >= 9 { SumDelaysTail(n); } else if n > 0 { SmallSums(n); }
  }

  lemma {:induction false} SmallSums(n: nat)
    requires n <= 8
    ensures SumDelays(n) <= 300 * n
  {
    if n > 0 { SmallSums(n - 1); }
  }

  // ---------------------------------------------------------------- the key store

  /** A scope and the client address or other key within it. */
  datatype Id = Id(scope: string, key: string)

  /** The Redis keys of the module, each with its expiry time. */
  class Limiter {
    var counts: map<Id, Entry<nat>>
    var blocks: map<Id, Entry<string>>

    function Of(id: Id): Client
      reads this
    {
      Client(if id in counts then Some(counts[id]) else None, if id in blocks then Some(blocks[id]) else None)
    }

    constructor ()
      ensures forall id :: Of(id) == FRESH
    {
      counts, blocks := map[], map[];
    }

    /** `GET` and `TTL` of a block key: its text and end while it lasts. */
    method StandingBlock(id: Id, now: int) returns (r: Option<(int, string)>)
      ensures r.Some? == Blocked(Of(id), now)
      ensures r.Some? ==> Of(id).block == Some(Entry(r.value.1, r.value.0))
    {
      if id in blocks {
        var ttl := blocks[id].expires - now;
        if ttl > 0 {
          return Some((now + ttl, blocks[id].value));
        }
      }
      return None;
    }

    /** `INCR`: a missing or expired counter starts again at one, without an expiry time. */
    method Increment(id: Id, now: int) returns (n: nat, expires: Option<int>)
      ensures n == Live(Of(id).count, now).GetOr(0) + 1
      ensures expires.Some? <==> n > 1
      ensures expires.Some? ==> id in counts && counts[id].expires == expires.value
    {
      if id in counts && now < counts[id].expires && counts[id].value > 0 {
        return counts[id].value + 1, Some(counts[id].expires);
      }
      return 1, None;
    }

    method CheckRateLimit(id: Id, now: int) returns (allowed: bool, standing: Option<(int, string)>)
      ensures allowed == !Blocked(Of(id), now) && standing.Some? == !allowed
      ensures standing.Some? ==> Of(id).block == Some(Entry(standing.value.1, standing.value.0))
    {
      standing := StandingBlock(id, now);
      allowed := standing.None?;
    }

    method RegisterFailure(id: Id, now: int) returns (standing: Option<(int, string)>)
      modifies this
      ensures Of(id) == Failure(old(Of(id)), now)
      ensures forall other | other != id :: Of(other) == old(Of(other))
      ensures standing.Some? == Blocked(Of(id), now)
      ensures standing.Some? ==> Of(id).block == Some(Entry(standing.value.1, standing.value.0))
    {
      standing := StandingBlock(id, now);
      if standing.Some? {
        return;
      }
      var count, _ := Increment(id, now);
      counts := counts[id := Entry(count, now + COUNTER_LIFE)];
      var i := 0;
      while i < |LEVELS|
        invariant i <= |LEVELS|
        invariant forall k | 0 <= k < i :: count < LEVELS[k].threshold
      {
        if count >= LEVELS[i].threshold {
          blocks := blocks[id := Entry(LEVELS[i].text, now + LEVELS[i].duration)];
          return Some((now + LEVELS[i].duration, LEVELS[i].text));
        }
        i := i + 1;
      }
    }

    method RegisterSuccess(id: Id)
      modifies this
      ensures Of(id) == Success(old(Of(id)))
      ensures forall other | other != id :: Of(other) == old(Of(other))
    {
      counts, blocks := counts - {id}, blocks - {id};
    }

    method RegisterBackoffFailure(id: Id, now: int, base: int := 2, most: int := 300)
      returns (standing: Option<(int, string)>)
      modifies this
      ensures Of(id) == BackoffFailureWith(old(Of(id)), now, base, most)
      ensures base == 2 && most == 300 ==> Of(id) == BackoffFailure(old(Of(id)), now) && standing.Some?
      ensures forall other | other != id :: Of(other) == old(Of(other))
      ensures standing.Some? <==> DelayWith(base, most, Live(old(Of(id)).count, now).GetOr(0) + 1) > 0
      ensures standing.Some? ==> Of(id).block == Some(Entry(standing.value.1, standing.value.0))
                                 && standing.value.0 > now
    {
      DefaultSeconds(Of(id), now);
      var count, expires := Increment(id, now);
      counts := counts[id := Entry(count, if count == 1 then now + BACKOFF_LIFE else expires.value)];
      var delay := DoubledDelay(base, most, count);
      if delay <= 0 {
        return None;
      }
      var text := Decimal.Text(delay) + "秒";
      blocks := blocks[id := Entry(text, now + delay)];
      return Some((now + delay, text));
    }

    static method DoubledDelay(base: int, most: int, count: nat) returns (delay: int)
      ensures delay == DelayWith(base, most, count)
    {
      var power := 1;
      var k := 0;
      while k < count - 1
        invariant k == 0 || k <= count - 1
        invariant power == Power2(k)
      {
        power := 2 * power;
        k := k + 1;
      }
      delay := if base * power < most then base * power else most;
    }
  }
}
