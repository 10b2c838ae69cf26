/**
 The row-lock protocol of `create_item` and `create_tag`, statement by statement, under any
 interleaving of any number of transactions on one room.

 Both lock the room row and then count rows.  `create_tag` first looks the name up with a plain
 SELECT; under REPEATABLE READ, the server's default, that read fixes the snapshot from which the
 later count is answered.  A locking read fixes no snapshot.
 */
module TaskLocking {
  import opened Wrappers

  datatype Isolation = RepeatableRead | ReadCommitted

  datatype Phase = Start | LookedUp | Locked | Counted | Inserted | Ended

  datatype Tx = Tx(phase: Phase, snapshot: Option<nat>)

  /** Committed rows of the table, the holder of the room row's lock, and the transactions. */
  datatype State = State(rows: nat, holder: Option<nat>, txs: map<nat, Tx>)

  /** How the transactions are written: `create_tag` looks up first, `create_item` does not. */
  datatype Protocol = Protocol(isolation: Isolation, lookupFirst: bool, limit: nat)

  datatype Action =
    | Begin(t: nat) | Lookup(t: nat) | Lock(t: nat) | Count(t: nat) | Insert(t: nat) | Commit(t: nat)
    | Rollback(t: nat)
    | DeleteRow

  function PhaseOf(s: State, t: nat): Phase {
    if t in s.txs then s.txs[t].phase else Ended
  }

  function Release(s: State, t: nat, rows: nat): State {
    State(rows, if s.holder == Some(t) then None else s.holder, s.txs[t := Tx(Ended, None)])
  }

  /** The snapshot of a transaction after a plain SELECT. */
  function AfterRead(p: Protocol, s: State, tx: Tx): Option<nat> {
    if p.isolation.ReadCommitted? then None
    else if tx.snapshot.Some? then tx.snapshot
    else Some(s.rows)
  }

  /** One statement; an action that is not enabled (such as a lock that is held) leaves the state. */
  function Step(p: Protocol, s: State, a: Action): State {
    match a
    case Begin(t) =>
      if t in s.txs then s else s.(txs := s.txs[t := Tx(Start, None)])
    case Lookup(t) =>
      if PhaseOf(s, t) != Start || !p.lookupFirst then s
      else s.(txs := s.txs[t := Tx(LookedUp, AfterRead(p, s, s.txs[t]))])
    case Lock(t) =>
      if PhaseOf(s, t) != (if p.lookupFirst then LookedUp else Start) || s.holder.Some? then s
      else s.(holder := Some(t), txs := s.txs[t := s.txs[t].(phase := Locked)])
    case Count(t) =>
      if PhaseOf(s, t) != Locked then s
      else
        var snapshot := AfterRead(p, s, s.txs[t]);
        if snapshot.GetOr(s.rows) >= p.limit then Release(s, t, s.rows)
        else s.(txs := s.txs[t := Tx(Counted, snapshot)])
    case Insert(t) =>
      if PhaseOf(s, t) != Counted then s else s.(txs := s.txs[t := s.txs[t].(phase := Inserted)])
    case Commit(t) =>
      if PhaseOf(s, t) != Inserted then s else Release(s, t, s.rows + 1)
    case Rollback(t) =>
      if PhaseOf(s, t) == Ended then s else Release(s, t, s.rows)
    case DeleteRow =>
      if s.rows == 0 then s else s.(rows := s.rows - 1)
  }

  function Run(p: Protocol, s: State, actions: seq<Action>): State {
    if actions == [] then s else Step(p, Run(p, s, actions[..|actions| - 1]), actions[|actions| - 1])
  }

  /** A transaction that nothing interferes with adds one row to a room that has one free, and none to a full one. */
  lemma AloneCommits(p: Protocol, s: State, t: nat)
    requires t !in s.txs && s.holder == None
    ensures var looked := Step(p, Step(p, s, Begin(t)), Lookup(t));
            var counted := Step(p, Step(p, looked, Lock(t)), Count(t));
            var after := Step(p, Step(p, counted, Insert(t)), Commit(t));
            after == State(if s.rows < p.limit then s.rows + 1 else s.rows, None, s.txs[t := Tx(Ended, None)])
  {
  }

  /** A rollback in any phase frees the lock and leaves the rows; other transactions only ever take rows away. */
  lemma RollbackFrees(p: Protocol, s: State, t: nat)
    requires t in s.txs && s.txs[t].phase != Ended
    ensures var after := Step(p, s, Rollback(t));
            && after.rows == s.rows && PhaseOf(after, t) == Ended
            && after.holder == if s.holder == Some(t) then None else s.holder
    ensures s.rows > 0 ==> Step(p, s, DeleteRow) == s.(rows := s.rows - 1)
  {
  }

  /** The count a transaction acts on is taken after it holds the lock. */
  predicate CountsUnderLock(p: Protocol) {
    p.isolation.ReadCommitted? || !p.lookupFirst
  }

  ghost predicate Inv(p: Protocol, s: State) {
    && s.rows <= p.limit
    && (forall t | t in s.txs && s.txs[t].phase in {Locked, Counted, Inserted} :: s.holder == Some(t))
    && (forall t | t in s.txs && s.txs[t].phase in {Counted, Inserted} :: s.rows < p.limit)
    && (forall t | t in s.txs && s.txs[t].phase in {Start, LookedUp, Locked} :: s.txs[t].snapshot == None)
  }

  lemma StepKeeps(p: Protocol, s: State, a: Action)
    requires CountsUnderLock(p) && Inv(p, s)
    ensures Inv(p, Step(p, s, a))
  {
  }

  lemma {:induction false} RunKeeps(p: Protocol, rows: nat, actions: seq<Action>)
    requires CountsUnderLock(p) && rows <= p.limit
    ensures Inv(p, Run(p, State(rows, None, map[]), actions))
  {
    if actions != [] {
      RunKeeps(p, rows, actions[..|actions| - 1]);
      StepKeeps(p, Run(p, State(rows, None, map[]), actions[..|actions| - 1]), actions[|actions| - 1]);
    }
  }

  /** No interleaving from a room within the limit ever commits more rows than the limit. */
  ghost predicate LimitHolds(p: Protocol) {
    forall rows: nat, actions: seq<Action> | rows <= p.limit ::
      Run(p, State(rows, None, map[]), actions).rows <= p.limit
  }

  lemma {:induction false} RunSnoc(p: Protocol, s: State, actions: seq<Action>, a: Action)
    ensures Run(p, s, actions + [a]) == Step(p, Run(p, s, actions), a)
  {
    assert (actions + [a])[..|actions|] == actions;
  }

  /** The prefixes of a run in which two transactions look up while one row is still free. */
  function Trace(n: nat): seq<Action>
    requires n <= 12
  {
    [Begin(1), Begin(2), Lookup(1), Lookup(2), Lock(1), Count(1), Insert(1), Commit(1),
     Lock(2), Count(2), Insert(2), Commit(2)][..n]
  }

  lemma TraceStep(p: Protocol, s: State, n: nat)
    requires n < 12
    ensures Run(p, s, Trace(n + 1)) == Step(p, Run(p, s, Trace(n)), Trace(12)[n])
  {
    assert Trace(n + 1) == Trace(n) + [Trace(12)[n]];
    RunSnoc(p, s, Trace(n), Trace(12)[n]);
  }

  lemma BothLookUp(p: Protocol, s: State)
    requires !CountsUnderLock(p) && p.limit > 0 && s == State(p.limit - 1, None, map[])
    ensures var tx := Tx(LookedUp, Some(p.limit - 1));
            Run(p, s, Trace(4)) == State(p.limit - 1, None, map[1 := tx, 2 := tx])
  {
    TraceStep(p, s, 0); TraceStep(p, s, 1); TraceStep(p, s, 2); TraceStep(p, s, 3);
    assert Run(p, s, Trace(0)) == s;
    hide Run;
  }

  lemma FirstCommits(p: Protocol, s: State)
    requires !CountsUnderLock(p) && p.limit > 0 && s == State(p.limit - 1, None, map[])
    ensures Run(p, s, Trace(8)) == State(p.limit, None, map[1 := Tx(Ended, None), 2 := Tx(LookedUp, Some(p.limit - 1))])
  {
    hide Run;
    BothLookUp(p, s);
    TraceStep(p, s, 4); TraceStep(p, s, 5); TraceStep(p, s, 6); TraceStep(p, s, 7);
  }

  /** Each of the two then locks, counts in its own old snapshot, and inserts. */
  lemma TwoPassOneFreeRow(p: Protocol)
    requires !CountsUnderLock(p) && p.limit > 0
    ensures Run(p, State(p.limit - 1, None, map[]), Trace(12)).rows == p.limit + 1
  {
    hide Run;
    var s := State(p.limit - 1, None, map[]);
    FirstCommits(p, s);
    TraceStep(p, s, 8); TraceStep(p, s, 9); TraceStep(p, s, 10); TraceStep(p, s, 11);
  }

  /**
   The limit holds in every interleaving exactly when the count is taken under the lock: always for
   `create_item`, and for `create_tag` only under READ COMMITTED.
   */
  lemma LimitHoldsIff(p: Protocol)
    requires p.limit > 0
    ensures LimitHolds(p) <==> CountsUnderLock(p)
  {
    if CountsUnderLock(p) {
      forall rows: nat, actions: seq<Action> | rows <= p.limit
        ensures Run(p, State(rows, None, map[]), actions).rows <= p.limit
      {
        RunKeeps(p, rows, actions);
      }
    } else {
      TwoPassOneFreeRow(p);
    }
  }
}
