/** The retention purge cannot be observed by concurrent requests either: whatever the interleaving,
    erasing the purge batches from its log changes no answer beyond calling a token invalid instead of
    expired. */
module LockedPurges {
  import opened Tokens
  import opened Sessions
  import opened SessionRuns
  import opened Locks
  import opened PurgeInvisible

  /** The tables the same requests would have left without any purge. */
  ghost function Full(cfg: Settings, start: State, sys: System): State {
    After(start, cfg, Erase(sys.events))
  }

  /** The log without purges is a run with the same answers, and the committed tables lack only rows
      past retention. */
  ghost predicate Shadowed(cfg: Settings, start: State, sys: System) {
    && Runs(start, cfg, Erase(sys.events))
    && SameAnswers(Outcomes(start, cfg, Erase(sys.events)), Seen(start, cfg, sys.events))
    && Inv(Full(cfg, start, sys))
    && Matches(Full(cfg, start, sys), sys.db, cfg, sys.now)
  }

  /** A purge removes no row a transaction is at work on. */
  ghost predicate TxnRipe(full: State, db: State, txn: Txn) {
    HasToken(txn.req) ==>
      match txn.phase
      case Loaded(h) => Ripe(full, db, txn.req.token, h.check)
      case Staged(h, _, _, _, _) => Ripe(full, db, txn.req.token, h.check)
      case _ => true
  }

  ghost predicate AllRipe(full: State, sys: System) {
    forall x :: x in sys.txns ==> TxnRipe(full, sys.db, sys.txns[x])
  }

  // ---- One more event ----

  lemma {:induction false} EraseSnoc(es: seq<Event>, e: Event)
    ensures Erase(es + [e]) == if e.Purge? then Erase(es) else Erase(es) + [e]
    decreases |es|
  {
    if es == [] {
      assert ([] + [e])[1..] == [];
    } else {
      EraseSnoc(es[1..], e);
      assert (es + [e])[1..] == es[1..] + [e];
    }
  }

  lemma {:induction false} SeenSnoc(s: State, cfg: Settings, es: seq<Event>, e: Event)
    ensures Seen(s, cfg, es + [e])
            == if e.Purge? then Seen(s, cfg, es) else Seen(s, cfg, es) + [Step(After(s, cfg, es), cfg, e).1]
    decreases |es|
  {
    hide Step;
    if es == [] {
      assert ([] + [e])[1..] == [];
    } else {
      SeenSnoc(Step(s, cfg, es[0]).0, cfg, es[1..], e);
      assert (es + [e])[1..] == es[1..] + [e];
    }
  }

  /** A request's event is logged. */
  lemma ShadowEvent(cfg: Settings, start: State, sys: System, sys': System, e: Event)
    requires Serial(cfg, start, sys) && Shadowed(cfg, start, sys)
    requires Enabled(sys.db, cfg, e) && !e.Purge? && RipeFor(Full(cfg, start, sys), sys.db, e)
    requires sys'.events == sys.events + [e] && sys'.db == Step(sys.db, cfg, e).0 && sys.now <= sys'.now
    ensures Shadowed(cfg, start, sys')
    ensures Enabled(Full(cfg, start, sys), cfg, e) && Full(cfg, start, sys') == Step(Full(cfg, start, sys), cfg, e).0
    ensures SameAnswer(Step(Full(cfg, start, sys), cfg, e).1, Step(sys.db, cfg, e).1)
  {
    hide Step, Inv, Matches, Enabled, RipeFor;
    var full := Full(cfg, start, sys);
    StepMatches(full, sys.db, cfg, sys.now, e);
    StepInv(full, cfg, e);
    MatchesLater(Step(full, cfg, e).0, sys'.db, cfg, sys.now, sys'.now);
    EraseSnoc(sys.events, e);
    SeenSnoc(start, cfg, sys.events, e);
    SerialSnoc(start, cfg, Erase(sys.events), e);
  }

  lemma ShadowPurge(cfg: Settings, start: State, sys: System, chosen: set<SessionId>, at: int)
    requires Serial(cfg, start, sys) && Shadowed(cfg, start, sys) && Can(cfg, sys, PurgeBatch(chosen, at))
    ensures var sys' := Do(cfg, sys, PurgeBatch(chosen, at));
            Shadowed(cfg, start, sys') && Full(cfg, start, sys') == Full(cfg, start, sys)
  {
    hide Inv, Matches;
    var full := Full(cfg, start, sys);
    EraseSnoc(sys.events, Purge(chosen, at));
    SeenSnoc(start, cfg, sys.events, Purge(chosen, at));
    MatchesLater(full, sys.db, cfg, sys.now, at);
    MatchesPurge(full, sys.db, cfg, at, chosen);
  }

  // ---- What a transaction presented stays ripe ----

  /** Rows keep digest and expiry; a new row is the issued one. */
  ghost predicate SameDigests(s: State, s': State, o: Outcome) {
    && s.sessions.Keys <= s'.sessions.Keys
    && (forall id :: id in s.sessions ==>
          s'.sessions[id].hash == s.sessions[id].hash && s'.sessions[id].expiresAt == s.sessions[id].expiresAt)
    && (forall id :: id in s'.sessions && id !in s.sessions ==> o.Issued? && o.id == id)
    && (o.Issued? ==> o.id in s'.sessions)
  }

  /** The identifiers of the rows a request leaves. */
  function KeysLeft(s: State, o: Outcome): set<SessionId> {
    if o.Issued? then s.sessions.Keys + {o.id} else s.sessions.Keys
  }

  lemma RotateKeys(s: State, cfg: Settings, token: RawToken, id: SessionId, t: Reads)
    ensures RotateStep(s, cfg, token, id, t).0.sessions.Keys == KeysLeft(s, RotateStep(s, cfg, token, id, t).1)
  {
    hide DecodeRefreshClaims;
  }

  lemma StepKeys(s: State, cfg: Settings, e: Event)
    requires !e.Purge?
    ensures Step(s, cfg, e).0.sessions.Keys == KeysLeft(s, Step(s, cfg, e).1)
  {
    hide DecodeRefreshClaims, RotateStep;
    if e.Rotate? { RotateKeys(s, cfg, e.token, e.id, e.t); }
  }

  lemma StepDigests(s: State, cfg: Settings, e: Event)
    requires Inv(s) && Enabled(s, cfg, e) && !e.Purge?
    ensures SameDigests(s, Step(s, cfg, e).0, Step(s, cfg, e).1)
  {
    StepKeys(s, cfg, e);
    StepKeeps(s, cfg, e);
    hide Step, Enabled, Newcomers;
    forall id | id in s.sessions ensures id in s.issued { assert RowOk(s, id); }
  }

  lemma RipeStep(full: State, full': State, o: Outcome, db: State, db': State, o': Outcome, token: RawToken, check: int)
    requires Ripe(full, db, token, check)
    requires SameDigests(full, full', o) && SameDigests(db, db', o') && SameAnswer(o, o')
    ensures Ripe(full', db', token, check)
  {}

  lemma RipeEvent(cfg: Settings, full: State, sys: System, sys': System, x: TxnId, e: Event)
    requires Inv(full) && Inv(sys.db) && AllRipe(full, sys)
    requires Enabled(full, cfg, e) && Enabled(sys.db, cfg, e) && !e.Purge?
    requires SameAnswer(Step(full, cfg, e).1, Step(sys.db, cfg, e).1)
    requires x in sys'.txns && sys'.txns[x].phase.Done? && sys'.db == Step(sys.db, cfg, e).0
    requires sys'.txns == sys.txns[x := sys'.txns[x]]
    ensures AllRipe(Step(full, cfg, e).0, sys')
  {
    hide Step, Inv, Enabled, SameDigests, Ripe;
    StepDigests(full, cfg, e);
    StepDigests(sys.db, cfg, e);
    forall y | y in sys'.txns ensures TxnRipe(Step(full, cfg, e).0, sys'.db, sys'.txns[y]) {
      var txn := sys'.txns[y];
      if HasToken(txn.req) && (txn.phase.Loaded? || txn.phase.Staged?) {
        assert TxnRipe(full, sys.db, txn);
        RipeStep(full, Step(full, cfg, e).0, Step(full, cfg, e).1, sys.db, sys'.db, Step(sys.db, cfg, e).1,
                 txn.req.token, txn.phase.held.check);
      }
    }
  }

  /** The row of a presented token is the row the transaction has locked. */
  lemma HeldRow(db: State, cfg: Settings, req: Request, h: Held, id: SessionId)
    requires Inv(db) && HeldOk(db, cfg, req, h) && HasToken(req)
    requires id in db.sessions && db.sessions[id].hash == req.token
    ensures !h.v.Unknown? && h.v.id == id
  {
    assert RowOk(db, id);
  }

  lemma RipePurge(cfg: Settings, full: State, sys: System, chosen: set<SessionId>, at: int, y: TxnId)
    requires Inv(sys.db) && Matches(full, sys.db, cfg, sys.now) && Can(cfg, sys, PurgeBatch(chosen, at))
    requires y in sys.txns && PhaseOk(cfg, sys, y, sys.txns[y]) && TxnRipe(full, sys.db, sys.txns[y])
    ensures TxnRipe(full, sys.db.(sessions := Delete(sys.db.sessions, chosen)), sys.txns[y])
  {
    hide Inv, HeldOk, StageOf;
    var txn := sys.txns[y];
    if HasToken(txn.req) && (txn.phase.Loaded? || txn.phase.Staged?) {
      var h := txn.phase.held;
      forall id | id in sys.db.sessions && sys.db.sessions[id].hash == txn.req.token ensures id !in chosen {
        HeldRow(sys.db, cfg, txn.req, h, id);
        assert LocksRow(txn.phase, id);
        assert RowLocked(sys, id);
      }
    }
  }

  // ---- Micro-steps ----

  /** A step that logs nothing. */
  lemma ShadowQuiet(cfg: Settings, start: State, sys: System, m: Micro)
    requires SysInv(cfg, start, sys) && Shadowed(cfg, start, sys) && AllRipe(Full(cfg, start, sys), sys)
             && Can(cfg, sys, m)
    requires Do(cfg, sys, m).events == sys.events
    ensures Shadowed(cfg, start, Do(cfg, sys, m)) && AllRipe(Full(cfg, start, Do(cfg, sys, m)), Do(cfg, sys, m))
  {
    hide Inv, Matches, Serial, StageOf, Target, Ripe, Verify, Apply;
    var sys', full := Do(cfg, sys, m), Full(cfg, start, sys);
    assert sys.now <= sys'.now by {
      if m.Find? || m.Decode? || m.Stage? || m.Load? { assert PhaseOk(cfg, sys, m.x, sys.txns[m.x]); }
    }
    MatchesLater(full, sys.db, cfg, sys.now, sys'.now);
    forall y | y in sys'.txns ensures TxnRipe(full, sys'.db, sys'.txns[y]) {
      if m.Load? && y == m.x && HasToken(sys.txns[y].req) {
        LaterIsRipe(full, sys.db, cfg, sys.now, sys.txns[y].req.token, m.check);
      } else if y in sys.txns {
        assert TxnRipe(full, sys.db, sys.txns[y]);
      }
    }
  }

  lemma ShadowFind(cfg: Settings, start: State, sys: System, x: TxnId, again: int)
    requires SysInv(cfg, start, sys) && Shadowed(cfg, start, sys) && AllRipe(Full(cfg, start, sys), sys)
    requires Can(cfg, sys, Find(x, again))
    requires Target(sys.db, cfg, sys.txns[x].req, sys.txns[x].phase.decode, again).None?
    ensures var sys' := Do(cfg, sys, Find(x, again));
            Shadowed(cfg, start, sys') && AllRipe(Full(cfg, start, sys'), sys')
  {
    hide Inv, Matches, Serial, Target, Ripe, Shadowed, AllRipe, Step, Enabled;
    var sys', req, decode := Do(cfg, sys, Find(x, again)), sys.txns[x].req, sys.txns[x].phase.decode;
    assert PhaseOk(cfg, sys, x, sys.txns[x]);
    var e := EventOf(req, Reads(decode, again, again, again));
    assert IdOk(sys, sys.txns[x]);
    EarlyStep(sys.db, cfg, req, decode, again);
    EarlyRipe(cfg, start, sys, req, decode, again);
    ShadowEvent(cfg, start, sys, sys', e);
    FullInv(cfg, start, sys);
    RipeEvent(cfg, Full(cfg, start, sys), sys, sys', x, e);
  }

  lemma FullInv(cfg: Settings, start: State, sys: System)
    requires Shadowed(cfg, start, sys)
    ensures Inv(Full(cfg, start, sys)) && Matches(Full(cfg, start, sys), sys.db, cfg, sys.now)
  {}

  lemma EarlyRipe(cfg: Settings, start: State, sys: System, req: Request, decode: int, again: int)
    requires Shadowed(cfg, start, sys) && sys.now <= again
    ensures RipeFor(Full(cfg, start, sys), sys.db, EventOf(req, Reads(decode, again, again, again)))
  {
    hide Ripe;
    FullInv(cfg, start, sys);
    if HasToken(req) { LaterIsRipe(Full(cfg, start, sys), sys.db, cfg, sys.now, req.token, again); }
  }

  lemma ShadowCommit(cfg: Settings, start: State, sys: System, x: TxnId)
    requires SysInv(cfg, start, sys) && Shadowed(cfg, start, sys) && AllRipe(Full(cfg, start, sys), sys)
    requires Can(cfg, sys, Commit(x))
    ensures var sys' := Do(cfg, sys, Commit(x));
            Shadowed(cfg, start, sys') && AllRipe(Full(cfg, start, sys'), sys')
  {
    hide Inv, Matches, Serial, Target, Ripe, Shadowed, Step, Enabled, HeldOk, StageOf, Apply;
    var sys', p := Do(cfg, sys, Commit(x)), sys.txns[x].phase;
    assert PhaseOk(cfg, sys, x, sys.txns[x]) && IdOk(sys, sys.txns[x]);
    assert TxnRipe(Full(cfg, start, sys), sys.db, sys.txns[x]);
    hide AllRipe;
    StageIsStep(sys.db, cfg, sys.txns[x].req, p.held, p.issue);
    ShadowEvent(cfg, start, sys, sys', p.event);
    FullInv(cfg, start, sys);
    RipeEvent(cfg, Full(cfg, start, sys), sys, sys', x, p.event);
  }

  lemma ShadowBatch(cfg: Settings, start: State, sys: System, chosen: set<SessionId>, at: int)
    requires SysInv(cfg, start, sys) && Shadowed(cfg, start, sys) && AllRipe(Full(cfg, start, sys), sys)
    requires Can(cfg, sys, PurgeBatch(chosen, at))
    ensures var sys' := Do(cfg, sys, PurgeBatch(chosen, at));
            Shadowed(cfg, start, sys') && AllRipe(Full(cfg, start, sys'), sys')
  {
    hide Inv, Matches, Serial, Target, Shadowed, Full, PhaseOk, TxnRipe, Can;
    ShadowPurge(cfg, start, sys, chosen, at);
    FullInv(cfg, start, sys);
    forall y | y in sys.txns
      ensures TxnRipe(Full(cfg, start, sys), sys.db.(sessions := Delete(sys.db.sessions, chosen)), sys.txns[y])
    {
      RipePurge(cfg, Full(cfg, start, sys), sys, chosen, at, y);
    }
  }

  lemma ShadowMicro(cfg: Settings, start: State, sys: System, m: Micro)
    requires SysInv(cfg, start, sys) && Shadowed(cfg, start, sys) && AllRipe(Full(cfg, start, sys), sys)
             && Can(cfg, sys, m)
    ensures Shadowed(cfg, start, Do(cfg, sys, m)) && AllRipe(Full(cfg, start, Do(cfg, sys, m)), Do(cfg, sys, m))
  {
    hide SysInv, Shadowed, AllRipe, Full, Target, Apply, StageOf, Verify;
    if m.Commit? {
      ShadowCommit(cfg, start, sys, m.x);
    } else if m.PurgeBatch? {
      ShadowBatch(cfg, start, sys, m.chosen, m.at);
    } else if m.Find? && Target(sys.db, cfg, sys.txns[m.x].req, sys.txns[m.x].phase.decode, m.again).None? {
      ShadowFind(cfg, start, sys, m.x, m.again);
    } else {
      ShadowQuiet(cfg, start, sys, m);
    }
  }

  lemma {:induction false} ShadowRun(cfg: Settings, start: State, sys: System, ms: seq<Micro>)
    requires SysInv(cfg, start, sys) && Shadowed(cfg, start, sys) && AllRipe(Full(cfg, start, sys), sys)
    requires Executes(cfg, sys, ms)
    ensures Shadowed(cfg, start, Final(cfg, sys, ms))
    decreases |ms|
  {
    hide SysInv, Shadowed, AllRipe, Full, Can, Do;
    if ms != [] {
      MicroOk(cfg, start, sys, ms[0]);
      ShadowMicro(cfg, start, sys, ms[0]);
      ShadowRun(cfg, start, Do(cfg, sys, ms[0]), ms[1..]);
    }
  }

  /** In every interleaving, also when a purge runs between the statements of a request, the same
      requests without the purge batches give the same answers in the same order, except that a token
      past retention is called expired instead of invalid. */
  lemma PurgesChangeNoAnswer(cfg: Settings, start: State, now: int, ms: seq<Micro>)
    requires Inv(start) && Executes(cfg, Idle(start, now), ms)
    ensures var end := Final(cfg, Idle(start, now), ms);
            && Runs(start, cfg, Erase(end.events))
            && SameAnswers(Outcomes(start, cfg, Erase(end.events)), Seen(start, cfg, end.events))
            && Matches(After(start, cfg, Erase(end.events)), end.db, cfg, end.now)
  {
    hide Inv, Matches;
    MatchesSelf(start, cfg, now);
    ShadowRun(cfg, start, Idle(start, now), ms);
  }
}
