/** Nothing gets stuck: what a transaction can wait for, and what can keep a purge batch waiting. */
module LockProgress {
  import opened Wrappers
  import opened Tokens
  import opened Sessions
  import opened Locks

  /** The users whose lock the transaction has been granted and not given back. */
  function Grasped(phase: Phase): set<UserId> {
    match phase
    case Holding(user, _, _, _) => {user}
    case Loaded(held) => {held.user}
    case Staged(held, _, _, _, _) => {held.user}
    case _ => {}
  }

  predicate ReadsNothing(txn: Txn) {
    && (txn.phase.Loaded? && !HasToken(txn.req) ==> txn.phase.held.v.Unknown?)
    && (txn.phase.Staged? && !HasToken(txn.req) ==> txn.phase.held.v.Unknown?)
  }

  /** Every granted lock belongs to a transaction that has not finished. */
  ghost predicate Alive(sys: System) {
    && (forall user :: user in sys.locks ==>
          sys.locks[user] in sys.txns && user in Grasped(sys.txns[sys.locks[user]].phase))
    && (forall x :: x in sys.txns ==> ReadsNothing(sys.txns[x]))
  }

  lemma MoveAlive(sys: System, sys': System, x: TxnId)
    requires Alive(sys) && x in sys'.txns && sys'.txns == sys.txns[x := sys'.txns[x]] && ReadsNothing(sys'.txns[x])
    requires forall user :: user in sys'.locks ==>
      if sys'.locks[user] == x then user in Grasped(sys'.txns[x].phase)
      else user in sys.locks && sys.locks[user] == sys'.locks[user]
    ensures Alive(sys')
  {
    hide ReadsNothing, Grasped;
  }

  /** Before the lock: nothing is granted, nothing read. */
  lemma EarlyAlive(cfg: Settings, sys: System, m: Micro)
    requires Alive(sys) && Can(cfg, sys, m) && (m.Begin? || m.Decode? || m.Find?)
    ensures Alive(Do(cfg, sys, m))
  {
    hide Target, EventOf;
    MoveAlive(sys, Do(cfg, sys, m), m.x);
  }

  lemma LockAlive(cfg: Settings, sys: System, x: TxnId)
    requires Alive(sys) && Can(cfg, sys, Lock(x))
    ensures Alive(Do(cfg, sys, Lock(x)))
  {
    MoveAlive(sys, Do(cfg, sys, Lock(x)), x);
  }

  /** Under the lock: the grant stays, and only a token makes a transaction read a session. */
  lemma ReadAlive(cfg: Settings, sys: System, m: Micro)
    requires Alive(sys) && Can(cfg, sys, m) && (m.Load? || m.Stage?)
    ensures Alive(Do(cfg, sys, m))
  {
    hide StageOf, Verify, EventOf;
    assert ReadsNothing(sys.txns[m.x]);
    MoveAlive(sys, Do(cfg, sys, m), m.x);
  }

  lemma CommitAlive(cfg: Settings, sys: System, x: TxnId)
    requires Alive(sys) && Can(cfg, sys, Commit(x))
    ensures Alive(Do(cfg, sys, Commit(x)))
  {
    hide Apply;
    MoveAlive(sys, Do(cfg, sys, Commit(x)), x);
  }

  lemma MicroAlive(cfg: Settings, sys: System, m: Micro)
    requires Alive(sys) && Can(cfg, sys, m)
    ensures Alive(Do(cfg, sys, m))
  {
    match m
    case Lock(x) => LockAlive(cfg, sys, x);
    case Load(_, _) => ReadAlive(cfg, sys, m);
    case Stage(_, _) => ReadAlive(cfg, sys, m);
    case Commit(x) => CommitAlive(cfg, sys, x);
    case PurgeBatch(_, _) =>
    case _ => EarlyAlive(cfg, sys, m);
  }

  lemma {:induction false} ExecutionAlive(cfg: Settings, start: State, sys: System, ms: seq<Micro>)
    requires SysInv(cfg, start, sys) && Alive(sys) && Executes(cfg, sys, ms)
    ensures SysInv(cfg, start, Final(cfg, sys, ms)) && Alive(Final(cfg, sys, ms))
    decreases |ms|
  {
    hide SysInv, Alive, Can, Do;
    if ms != [] {
      MicroOk(cfg, start, sys, ms[0]);
      MicroAlive(cfg, sys, ms[0]);
      ExecutionAlive(cfg, start, Do(cfg, sys, ms[0]), ms[1..]);
    }
  }

  // ---- Transactions ----

  /** A statement of transaction x, not its start. */
  predicate Moves(m: Micro, x: TxnId) {
    !m.Begin? && !m.PurgeBatch? && m.x == x
  }

  ghost predicate CanMove(cfg: Settings, sys: System, x: TxnId) {
    exists m :: Moves(m, x) && Can(cfg, sys, m)
  }

  /** The next statement in program order. */
  function NextOf(sys: System, x: TxnId): Micro
    requires x in sys.txns && !sys.txns[x].phase.Done?
  {
    match sys.txns[x].phase
    case Begun => Decode(x, sys.now)
    case Decoding(_) => Find(x, sys.now)
    case Waiting(_, _, _) => Lock(x)
    case Holding(_, _, _, _) => Load(x, sys.now)
    case Loaded(_) => Stage(x, sys.now)
    case Staged(_, _, _, _, _) => Commit(x)
  }

  predicate WaitsForLock(sys: System, x: TxnId) {
    x in sys.txns && sys.txns[x].phase.Waiting? && sys.txns[x].phase.user in sys.locks
  }

  lemma NextIsPossible(cfg: Settings, start: State, sys: System, x: TxnId)
    requires SysInv(cfg, start, sys) && x in sys.txns && !sys.txns[x].phase.Done?
    ensures Can(cfg, sys, NextOf(sys, x)) <==> !WaitsForLock(sys, x)
  {
    assert PhaseOk(cfg, sys, x, sys.txns[x]);
    hide Inv, Serial, HeldOk, StageOf;
  }

  lemma WaitingCannotMove(cfg: Settings, sys: System, x: TxnId)
    requires WaitsForLock(sys, x)
    ensures !CanMove(cfg, sys, x)
  {}

  /** In every execution a request that has begun can go on, unless it waits for a user's lock that another
      request holds; that one can go on, so there is no deadlock. */
  lemma OnlyLocksAreWaitedFor(cfg: Settings, start: State, now: int, ms: seq<Micro>, x: TxnId)
    requires Inv(start) && Executes(cfg, Idle(start, now), ms)
    requires x in Final(cfg, Idle(start, now), ms).txns && !Final(cfg, Idle(start, now), ms).txns[x].phase.Done?
    ensures
      var end := Final(cfg, Idle(start, now), ms);
      && (CanMove(cfg, end, x) <==> !(end.txns[x].phase.Waiting? && end.txns[x].phase.user in end.locks))
      && (!CanMove(cfg, end, x) ==> CanMove(cfg, end, end.locks[end.txns[x].phase.user]))
  {
    ExecutionAlive(cfg, start, Idle(start, now), ms);
    var end := Final(cfg, Idle(start, now), ms);
    NextIsPossible(cfg, start, end, x);
    if WaitsForLock(end, x) {
      WaitingCannotMove(cfg, end, x);
      var holder := end.locks[end.txns[x].phase.user];
      NextIsPossible(cfg, start, end, holder);
      assert Moves(NextOf(end, holder), holder);
    } else {
      assert Moves(NextOf(end, x), x);
    }
  }

  // ---- Everything can finish ----

  /** How many statements are left at most. */
  function Left(phase: Phase): nat {
    match phase
    case Begun => 6
    case Decoding(_) => 5
    case Waiting(_, _, _) => 4
    case Holding(_, _, _, _) => 3
    case Loaded(_) => 2
    case Staged(_, _, _, _, _) => 1
    case Done(_) => 0
  }

  /** Nothing is in the transaction's way. */
  predicate Unhindered(sys: System, x: TxnId) {
    x in sys.txns && (Grasped(sys.txns[x].phase) != {} || sys.locks == map[])
  }

  /** Transaction x moved, the others stay where they are. */
  predicate Moved(sys: System, sys': System, x: TxnId) {
    && x in sys.txns && sys'.txns.Keys == sys.txns.Keys && sys'.txns[x].req == sys.txns[x].req
    && forall y :: y in sys.txns && y != x ==> sys'.txns[y] == sys.txns[y]
  }

  lemma NextMoves(cfg: Settings, start: State, sys: System, x: TxnId)
    requires SysInv(cfg, start, sys) && Unhindered(sys, x) && !sys.txns[x].phase.Done?
    ensures Can(cfg, sys, NextOf(sys, x))
    ensures var sys' := Do(cfg, sys, NextOf(sys, x));
            && Moved(sys, sys', x) && Left(sys'.txns[x].phase) < Left(sys.txns[x].phase)
            && (sys'.txns[x].phase.Done? || Unhindered(sys', x))
            && sys'.locks.Keys - Grasped(sys'.txns[x].phase) == sys.locks.Keys - Grasped(sys.txns[x].phase)
  {
    NextIsPossible(cfg, start, sys, x);
    hide SysInv, StageOf, Verify, Apply, Target, EventOf;
  }

  /** A transaction in whose way nothing is can run to its end and gives its lock back. */
  lemma FinishOne(cfg: Settings, start: State, sys: System, x: TxnId) returns (ms: seq<Micro>)
    requires SysInv(cfg, start, sys) && Alive(sys) && (Unhindered(sys, x) || (x in sys.txns && sys.txns[x].phase.Done?))
    ensures Executes(cfg, sys, ms)
    ensures var end := Final(cfg, sys, ms);
            && Moved(sys, end, x) && end.txns[x].phase.Done?
            && end.locks.Keys == sys.locks.Keys - Grasped(sys.txns[x].phase)
    decreases Left(sys.txns[x].phase)
  {
    ms := [];
    if !sys.txns[x].phase.Done? {
      var m := NextOf(sys, x);
      NextMoves(cfg, start, sys, x);
      MicroOk(cfg, start, sys, m);
      MicroAlive(cfg, sys, m);
      hide SysInv, Alive, Can, Do, Unhindered;
      ms := FinishOne(cfg, start, Do(cfg, sys, m), x);
      ms := [m] + ms;
    }
  }

  function Unfinished(sys: System): set<TxnId> {
    set x | x in sys.txns && !sys.txns[x].phase.Done?
  }

  lemma {:induction false} ExecutesOn(cfg: Settings, sys: System, first: seq<Micro>, next: seq<Micro>)
    requires Executes(cfg, sys, first) && Executes(cfg, Final(cfg, sys, first), next)
    ensures Executes(cfg, sys, first + next)
    ensures Final(cfg, sys, first + next) == Final(cfg, Final(cfg, sys, first), next)
    decreases |first|
  {
    hide Can, Do;
    if first == [] {
      assert first + next == next;
    } else {
      assert (first + next)[1..] == first[1..] + next;
      ExecutesOn(cfg, Do(cfg, sys, first[0]), first[1..], next);
    }
  }

  /** The request that can finish next: one that holds a lock, if any does. */
  lemma SomeUnhindered(sys: System) returns (x: TxnId)
    requires Alive(sys) && Unfinished(sys) != {}
    ensures Unhindered(sys, x) && x in Unfinished(sys)
  {
    if sys.locks == map[] {
      x :| x in Unfinished(sys);
    } else {
      var user :| user in sys.locks;
      x := sys.locks[user];
    }
  }

  /** The same requests, all finished. */
  predicate AllDone(sys: System, end: System) {
    end.txns.Keys == sys.txns.Keys
    && forall x :: x in sys.txns ==> end.txns[x].req == sys.txns[x].req && end.txns[x].phase.Done?
  }

  lemma OneFinished(sys: System, mid: System, x: TxnId)
    requires Moved(sys, mid, x) && mid.txns[x].phase.Done? && x in Unfinished(sys)
    ensures Unfinished(mid) == Unfinished(sys) - {x}
    ensures forall end :: AllDone(mid, end) ==> AllDone(sys, end)
  {}

  lemma NoneLeft(sys: System)
    requires Unfinished(sys) == {}
    ensures AllDone(sys, sys)
  {
    assert forall x :: x in sys.txns && !sys.txns[x].phase.Done? ==> x in Unfinished(sys);
  }

  lemma FinishAll(cfg: Settings, start: State, sys: System) returns (ms: seq<Micro>)
    requires SysInv(cfg, start, sys) && Alive(sys)
    ensures Executes(cfg, sys, ms) && AllDone(sys, Final(cfg, sys, ms))
    decreases Unfinished(sys)
  {
    ms := [];
    if Unfinished(sys) == {} {
      NoneLeft(sys);
    } else {
      var x := SomeUnhindered(sys);
      var first := FinishOne(cfg, start, sys, x);
      ExecutionAlive(cfg, start, sys, first);
      hide SysInv, Alive, Executes, Final, Unhindered, Moved, AllDone, Unfinished;
      var mid := Final(cfg, sys, first);
      OneFinished(sys, mid, x);
      var rest := FinishAll(cfg, start, mid);
      ExecutesOn(cfg, sys, first, rest);
      ms := first + rest;
    }
  }

  /** No execution is a dead end: from wherever it has come to, all its requests can still be answered. */
  lemma EverythingCanFinish(cfg: Settings, start: State, now: int, ms: seq<Micro>) returns (more: seq<Micro>)
    requires Inv(start) && Executes(cfg, Idle(start, now), ms)
    ensures Executes(cfg, Idle(start, now), ms + more)
    ensures AllDone(Final(cfg, Idle(start, now), ms), Final(cfg, Idle(start, now), ms + more))
  {
    ExecutionAlive(cfg, start, Idle(start, now), ms);
    more := FinishAll(cfg, start, Final(cfg, Idle(start, now), ms));
    ExecutesOn(cfg, Idle(start, now), ms, more);
  }

  // ---- Purges ----

  /** A session row is locked only while its user is. */
  lemma LockedRowsUser(cfg: Settings, start: State, sys: System, id: SessionId)
    requires SysInv(cfg, start, sys) && Alive(sys) && id in sys.db.sessions && RowLocked(sys, id)
    ensures sys.db.sessions[id].user in sys.locks
  {
    var x :| x in sys.txns && LocksRow(sys.txns[x].phase, id);
    var txn := sys.txns[x];
    assert PhaseOk(cfg, sys, x, txn) && IdOk(sys, txn) && ReadsNothing(txn);
    var h := txn.phase.held;
    if !h.v.Unknown? { HeldUser(sys.db, cfg, txn.req, h); }
    if txn.phase.Staged? { WritesOwnRows(sys.db, cfg, txn.req, h, txn.phase.issue); }
    hide Inv, Serial, StageOf, HeldOk, Verify;
  }

  /** At any moment of any execution a purge can take any rows past the retention whose users nobody has
      locked. */
  lemma PurgeWaitsForUsersOnly(cfg: Settings, start: State, now: int, ms: seq<Micro>, chosen: set<SessionId>, at: int)
    requires Inv(start) && Executes(cfg, Idle(start, now), ms) && Final(cfg, Idle(start, now), ms).now <= at
    requires
      var end := Final(cfg, Idle(start, now), ms);
      forall id :: id in chosen ==>
        && id in end.db.sessions && end.db.sessions[id].user !in end.locks
        && end.db.sessions[id].expiresAt + cfg.retentionSeconds * 1_000_000 < at
    ensures Can(cfg, Final(cfg, Idle(start, now), ms), PurgeBatch(chosen, at))
  {
    ExecutionAlive(cfg, start, Idle(start, now), ms);
    var end := Final(cfg, Idle(start, now), ms);
    forall id | id in end.db.sessions && (id in chosen || PointsInto(end.db.sessions[id], chosen))
      ensures !RowLocked(end, id)
    {
      if RowLocked(end, id) {
        LockedRowsUser(cfg, start, end, id);
      }
    }
  }
}
