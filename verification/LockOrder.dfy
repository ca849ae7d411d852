/** The serial order of concurrent requests: every finished request is exactly one of its events, and
    the events follow the order in which the user locks were granted, and real time. */
module LockOrder {
  import opened Wrappers
  import opened Tokens
  import opened Sessions
  import opened Locks

  // ---- One event per finished request ----

  predicate FinishedAs(sys: System, x: TxnId, k: nat) {
    x in sys.txns && sys.txns[x].phase == Done(k)
  }

  predicate RequestEvent(sys: System, k: nat) {
    k < |sys.events| && !sys.events[k].Purge?
  }

  /** Finished requests and logged events other than purges correspond one to one. */
  ghost predicate Paired(sys: System) {
    && (forall x: TxnId, k: nat :: FinishedAs(sys, x, k) ==> RequestEvent(sys, k))
    && (forall x: TxnId, y: TxnId, k: nat :: FinishedAs(sys, x, k) && FinishedAs(sys, y, k) ==> x == y)
    && (forall k: nat :: RequestEvent(sys, k) ==> exists x: TxnId :: FinishedAs(sys, x, k))
  }

  /** Nobody finishes; at most a purge is logged. */
  lemma PairedKept(sys: System, sys': System)
    requires Paired(sys) && sys.events <= sys'.events
    requires forall k :: |sys.events| <= k < |sys'.events| ==> sys'.events[k].Purge?
    requires forall x: TxnId, k: nat :: FinishedAs(sys', x, k) <==> FinishedAs(sys, x, k)
    ensures Paired(sys')
  {
    forall k: nat | RequestEvent(sys', k) ensures exists x: TxnId :: FinishedAs(sys', x, k) {
      assert RequestEvent(sys, k);
      var x: TxnId :| FinishedAs(sys, x, k);
      assert FinishedAs(sys', x, k);
    }
  }

  /** Transaction x finishes with the next event. */
  lemma PairedLogged(sys: System, sys': System, x: TxnId, e: Event)
    requires Paired(sys) && sys'.events == sys.events + [e] && !e.Purge?
    requires forall y: TxnId, k: nat ::
               FinishedAs(sys', y, k) <==> FinishedAs(sys, y, k) || (y == x && k == |sys.events|)
    ensures Paired(sys')
  {
    forall k: nat | RequestEvent(sys', k) ensures exists y: TxnId :: FinishedAs(sys', y, k) {
      if k < |sys.events| {
        assert RequestEvent(sys, k);
        var y: TxnId :| FinishedAs(sys, y, k);
        assert FinishedAs(sys', y, k);
      } else {
        assert FinishedAs(sys', x, k);
      }
    }
  }

  lemma PairedStep(cfg: Settings, start: State, sys: System, m: Micro)
    requires SysInv(cfg, start, sys) && Paired(sys) && Can(cfg, sys, m)
    ensures Paired(Do(cfg, sys, m))
  {
    hide Serial, Inv, Apply, StageOf, HeldOk, Target, Paired;
    var sys' := Do(cfg, sys, m);
    if m.Commit? {
      assert PhaseOk(cfg, sys, m.x, sys.txns[m.x]);
      PairedLogged(sys, sys', m.x, sys.txns[m.x].phase.event);
    } else if m.Find? && sys'.txns[m.x].phase.Done? {
      PairedLogged(sys, sys', m.x, sys'.events[|sys.events|]);
    } else {
      PairedKept(sys, sys');
    }
  }

  lemma {:induction false} PairedRun(cfg: Settings, start: State, sys: System, ms: seq<Micro>)
    requires SysInv(cfg, start, sys) && Paired(sys) && Executes(cfg, sys, ms)
    ensures Paired(Final(cfg, sys, ms))
    decreases |ms|
  {
    hide SysInv, Paired, Can, Do;
    if ms != [] {
      MicroOk(cfg, start, sys, ms[0]);
      PairedStep(cfg, start, sys, ms[0]);
      PairedRun(cfg, start, Do(cfg, sys, ms[0]), ms[1..]);
    }
  }

  /** In every execution each finished request is the answer to exactly one logged event of its own,
      and every logged event that is no purge is some finished request's. */
  lemma OneEventPerRequest(cfg: Settings, start: State, now: int, ms: seq<Micro>)
    requires Inv(start) && Executes(cfg, Idle(start, now), ms)
    ensures var end := Final(cfg, Idle(start, now), ms);
            && Paired(end)
            && forall x: TxnId, k: nat :: FinishedAs(end, x, k) ==> Answers(end.txns[x].req, end.events[k])
  {
    var sys := Idle(start, now);
    ExecutionOk(cfg, start, sys, ms);
    PairedRun(cfg, start, sys, ms);
    var end := Final(cfg, sys, ms);
    forall x: TxnId, k: nat | FinishedAs(end, x, k)
      ensures k < |end.events| && Answers(end.txns[x].req, end.events[k])
    {
      assert PhaseOk(cfg, end, x, end.txns[x]);
    }
  }

  // ---- The order of the events ----

  /** The user whose lock a transaction waits for or holds. */
  function LockOf(phase: Phase): Option<UserId> {
    match phase
    case Waiting(user, _, _) => Some(user)
    case Holding(user, _, _, _) => Some(user)
    case Loaded(h) => Some(h.user)
    case Staged(h, _, _, _, _) => Some(h.user)
    case _ => None
  }

  /** Has been granted the user's lock: holds it, or has finished. */
  predicate Granted(sys: System, x: TxnId, user: UserId) {
    && x in sys.txns
    && var phase := sys.txns[x].phase;
       phase.Done? || (!phase.Waiting? && LockOf(phase) == Some(user) && HoldsLock(sys, x, user))
  }

  /** If it finishes, then not among the first n events. */
  predicate Beyond(sys: System, y: TxnId, n: nat) {
    n <= |sys.events| && y in sys.txns && (sys.txns[y].phase.Done? ==> n <= sys.txns[y].phase.index)
  }

  lemma GrantedStays(cfg: Settings, start: State, sys: System, m: Micro, x: TxnId, user: UserId)
    requires SysInv(cfg, start, sys) && Can(cfg, sys, m) && Granted(sys, x, user)
    ensures Granted(Do(cfg, sys, m), x, user)
  {
    hide Serial, Inv, Apply, StageOf, HeldOk, Target;
    if m.Commit? { assert PhaseOk(cfg, sys, m.x, sys.txns[m.x]); }
  }

  lemma BeyondStays(cfg: Settings, sys: System, m: Micro, y: TxnId, n: nat)
    requires Can(cfg, sys, m) && Beyond(sys, y, n)
    ensures Beyond(Do(cfg, sys, m), y, n)
  {
    hide Apply, StageOf, Target;
  }

  lemma FinishedStays(cfg: Settings, sys: System, m: Micro, x: TxnId, k: nat)
    requires Can(cfg, sys, m) && FinishedAs(sys, x, k)
    ensures FinishedAs(Do(cfg, sys, m), x, k)
  {
    hide Apply, StageOf, Target;
  }

  lemma {:induction false} GrantedRun(cfg: Settings, start: State, sys: System, ms: seq<Micro>, x: TxnId, user: UserId)
    requires SysInv(cfg, start, sys) && Executes(cfg, sys, ms) && Granted(sys, x, user)
    ensures Granted(Final(cfg, sys, ms), x, user)
    decreases |ms|
  {
    hide SysInv, Granted, Can, Do;
    if ms != [] {
      MicroOk(cfg, start, sys, ms[0]);
      GrantedStays(cfg, start, sys, ms[0], x, user);
      GrantedRun(cfg, start, Do(cfg, sys, ms[0]), ms[1..], x, user);
    }
  }

  lemma {:induction false} OrderRun(cfg: Settings, sys: System, ms: seq<Micro>, x: TxnId, k: nat, y: TxnId, n: nat)
    requires Executes(cfg, sys, ms) && FinishedAs(sys, x, k) && Beyond(sys, y, n)
    ensures FinishedAs(Final(cfg, sys, ms), x, k) && Beyond(Final(cfg, sys, ms), y, n)
    decreases |ms|
  {
    hide Can, Do, FinishedAs, Beyond;
    if ms != [] {
      FinishedStays(cfg, sys, ms[0], x, k);
      BeyondStays(cfg, sys, ms[0], y, n);
      OrderRun(cfg, Do(cfg, sys, ms[0]), ms[1..], x, k, y, n);
    }
  }

  lemma {:induction false} ExecutesAppend(cfg: Settings, sys: System, a: seq<Micro>, b: seq<Micro>)
    requires Executes(cfg, sys, a + b)
    ensures Executes(cfg, sys, a)
    ensures Executes(cfg, Final(cfg, sys, a), b)
    ensures Final(cfg, Final(cfg, sys, a), b) == Final(cfg, sys, a + b)
    decreases |a|
  {
    hide Can, Do;
    if a == [] {
      assert a + b == b;
    } else {
      assert (a + b)[1..] == a[1..] + b;
      ExecutesAppend(cfg, Do(cfg, sys, a[0]), a[1..], b);
    }
  }

  /** The system before micro-step i. */
  ghost function Moment(cfg: Settings, sys: System, ms: seq<Micro>, i: nat): System
    requires Executes(cfg, sys, ms) && i <= |ms|
  {
    assert ms == ms[..i] + ms[i..];
    ExecutesAppend(cfg, sys, ms[..i], ms[i..]);
    Final(cfg, sys, ms[..i])
  }

  lemma MomentRun(cfg: Settings, sys: System, ms: seq<Micro>, i: nat, j: nat)
    requires Executes(cfg, sys, ms) && i <= j <= |ms|
    ensures Executes(cfg, Moment(cfg, sys, ms, i), ms[i..j])
    ensures Final(cfg, Moment(cfg, sys, ms, i), ms[i..j]) == Moment(cfg, sys, ms, j)
  {
    hide Executes, Final;
    assert ms == ms[..j] + ms[j..];
    ExecutesAppend(cfg, sys, ms[..j], ms[j..]);
    assert ms[..j] == ms[..i] + ms[i..j];
    ExecutesAppend(cfg, sys, ms[..i], ms[i..j]);
  }

  /** Between micro-steps i and j the system runs step i and then the others. */
  lemma MomentStep(cfg: Settings, sys: System, ms: seq<Micro>, i: nat, j: nat)
    requires Executes(cfg, sys, ms) && i < j <= |ms|
    ensures var before := Moment(cfg, sys, ms, i);
            && Can(cfg, before, ms[i])
            && Executes(cfg, Do(cfg, before, ms[i]), ms[i + 1..j])
            && Final(cfg, Do(cfg, before, ms[i]), ms[i + 1..j]) == Moment(cfg, sys, ms, j)
  {
    hide Can, Do, Moment;
    MomentRun(cfg, sys, ms, i, j);
    assert ms[i..j][1..] == ms[i + 1..j];
  }

  lemma MomentOk(cfg: Settings, start: State, now: int, ms: seq<Micro>, i: nat)
    requires Inv(start) && Executes(cfg, Idle(start, now), ms) && i <= |ms|
    ensures SysInv(cfg, start, Moment(cfg, Idle(start, now), ms, i))
  {
    hide Executes, Final;
    assert ms == ms[..i] + ms[i..];
    ExecutesAppend(cfg, Idle(start, now), ms[..i], ms[i..]);
    ExecutionOk(cfg, start, Idle(start, now), ms[..i]);
  }

  lemma MomentEnd(cfg: Settings, sys: System, ms: seq<Micro>)
    requires Executes(cfg, sys, ms)
    ensures Moment(cfg, sys, ms, |ms|) == Final(cfg, sys, ms)
  {
    assert ms[..|ms|] == ms;
  }

  /** The first finished before the second, if that has finished at all. */
  predicate Precedes(sys: System, x: TxnId, y: TxnId) {
    && x != y && x in sys.txns && y in sys.txns && sys.txns[x].phase.Done?
    && (sys.txns[y].phase.Done? ==> sys.txns[x].phase.index < sys.txns[y].phase.index)
  }

  lemma LockGrants(cfg: Settings, sys: System, x: TxnId)
    requires Can(cfg, sys, Lock(x))
    ensures Granted(Do(cfg, sys, Lock(x)), x, sys.txns[x].phase.user)
  {}

  /** When the user's lock can be taken, a transaction it was granted to before has finished. */
  lemma FreeLock(cfg: Settings, start: State, sys: System, x: TxnId, y: TxnId, user: UserId)
    requires SysInv(cfg, start, sys) && Can(cfg, sys, Lock(y)) && sys.txns[y].phase.user == user
    requires Granted(sys, x, user)
    ensures x != y && sys.txns[x].phase.Done? && sys.txns[x].phase.index < |sys.events|
  {
    assert PhaseOk(cfg, sys, x, sys.txns[x]);
  }

  /** What finishes later is logged later. */
  lemma PrecedesRun(cfg: Settings, start: State, sys: System, m: Micro, ms: seq<Micro>, x: TxnId, y: TxnId)
    requires SysInv(cfg, start, sys) && Can(cfg, sys, m) && Executes(cfg, Do(cfg, sys, m), ms)
    requires x in sys.txns && sys.txns[x].phase.Done? && x != y
    requires y in Do(cfg, sys, m).txns && (y in sys.txns ==> !sys.txns[y].phase.Done?)
    ensures Precedes(Final(cfg, Do(cfg, sys, m), ms), x, y)
  {
    var k := sys.txns[x].phase.index;
    assert PhaseOk(cfg, sys, x, sys.txns[x]);
    FinishedStays(cfg, sys, m, x, k);
    FinishesNext(cfg, sys, m, y);
    hide SysInv, Can, Do;
    OrderRun(cfg, Do(cfg, sys, m), ms, x, k, y, |sys.events|);
  }

  lemma FinishesNext(cfg: Settings, sys: System, m: Micro, y: TxnId)
    requires Can(cfg, sys, m)
    requires y in Do(cfg, sys, m).txns && (y in sys.txns ==> !sys.txns[y].phase.Done?)
    ensures Beyond(Do(cfg, sys, m), y, |sys.events|)
  {
    hide Apply, StageOf, Target;
  }

  /** Two grants of one user's lock, with any micro-steps between and after them. */
  lemma GrantsInOrder(cfg: Settings, start: State, first: System, x: TxnId, between: seq<Micro>, second: System,
                      y: TxnId, later: seq<Micro>)
    requires SysInv(cfg, start, first) && Can(cfg, first, Lock(x)) && SysInv(cfg, start, second)
             && Can(cfg, second, Lock(y))
    requires first.txns[x].phase.user == second.txns[y].phase.user
    requires Executes(cfg, Do(cfg, first, Lock(x)), between) && Final(cfg, Do(cfg, first, Lock(x)), between) == second
    requires Executes(cfg, Do(cfg, second, Lock(y)), later)
    ensures Precedes(Final(cfg, Do(cfg, second, Lock(y)), later), x, y)
  {
    var user := first.txns[x].phase.user;
    LockGrants(cfg, first, x);
    MicroOk(cfg, start, first, Lock(x));
    hide Executes, Final, SysInv, Precedes, Do, Granted;
    GrantedRun(cfg, start, Do(cfg, first, Lock(x)), between, x, user);
    FreeLock(cfg, start, second, x, y, user);
    LockKeeps(cfg, second, y);
    PrecedesRun(cfg, start, second, Lock(y), later, x, y);
  }

  lemma LockKeeps(cfg: Settings, sys: System, y: TxnId)
    requires Can(cfg, sys, Lock(y))
    ensures y in Do(cfg, sys, Lock(y)).txns
  {}

  /** The user whose lock micro-step i takes. */
  ghost function LockedAt(cfg: Settings, sys: System, ms: seq<Micro>, i: nat): Option<UserId>
    requires Executes(cfg, sys, ms) && i < |ms|
  {
    var before := Moment(cfg, sys, ms, i);
    if ms[i].Lock? && ms[i].x in before.txns then LockOf(before.txns[ms[i].x].phase) else None
  }

  /** Requests for one user happen in the order in which they were granted the user's lock. */
  lemma LockOrderIsSerialOrder(cfg: Settings, start: State, now: int, ms: seq<Micro>, i: nat, j: nat)
    requires Inv(start) && Executes(cfg, Idle(start, now), ms) && i < j < |ms|
    requires LockedAt(cfg, Idle(start, now), ms, i).Some?
    requires LockedAt(cfg, Idle(start, now), ms, i) == LockedAt(cfg, Idle(start, now), ms, j)
    ensures Precedes(Final(cfg, Idle(start, now), ms), ms[i].x, ms[j].x)
  {
    var sys := Idle(start, now);
    MomentOk(cfg, start, now, ms, i);
    MomentOk(cfg, start, now, ms, j);
    MomentStep(cfg, sys, ms, i, j);
    MomentStep(cfg, sys, ms, j, |ms|);
    MomentEnd(cfg, sys, ms);
    hide Moment, Executes, Final, SysInv, Precedes, Do, Idle;
    GrantsInOrder(cfg, start, Moment(cfg, sys, ms, i), ms[i].x, ms[i + 1..j], Moment(cfg, sys, ms, j), ms[j].x,
                  ms[j + 1..|ms|]);
  }

  /** A request that begins when another has finished comes after it. */
  lemma SerialOrderIsRealTime(cfg: Settings, start: State, now: int, ms: seq<Micro>, i: nat, x: TxnId)
    requires Inv(start) && Executes(cfg, Idle(start, now), ms)
    requires i < |ms| && ms[i].Begin?
    requires
      var before := Moment(cfg, Idle(start, now), ms, i);
      x in before.txns && before.txns[x].phase.Done?
    ensures Precedes(Final(cfg, Idle(start, now), ms), x, ms[i].x)
  {
    var sys := Idle(start, now);
    MomentOk(cfg, start, now, ms, i);
    MomentStep(cfg, sys, ms, i, |ms|);
    MomentEnd(cfg, sys, ms);
    hide Moment, Executes, Final, SysInv, Precedes, Idle;
    PrecedesRun(cfg, start, Moment(cfg, sys, ms, i), ms[i], ms[i + 1..|ms|], x, ms[i].x);
  }
}
