/** Concurrent requests: transactions that take the user's row lock before touching sessions, run
    statement by statement in any interleaving, together with purge batches that skip locked rows.
    Every execution is serial in commit order. */
module Locks {
  import opened Wrappers
  import opened Tokens
  import opened Sessions

  type TxnId = nat

  datatype Request =
    | LoginReq(user: UserId, id: SessionId)
    | RotateReq(token: RawToken, id: SessionId)
    | LogoutReq(token: RawToken)
    | SetActiveReq(user: UserId, active: bool)

  /** What a transaction knows once it holds the user lock and has read its session. */
  datatype Held = Held(user: UserId, active: bool, decode: int, again: int, check: int, v: Verification,
                       row: Option<Session>)

  /** Uncommitted writes: new versions of rows, possibly one insertion continuing `from`'s chain. */
  datatype Delta = Delta(writes: map<SessionId, Session>, added: Option<SessionId>, from: Option<SessionId>,
                         active: Option<bool>)

  datatype Phase =
    | Begun
    | Decoding(decode: int)
    | Waiting(user: UserId, decode: int, again: int)
    | Holding(user: UserId, active: bool, decode: int, again: int)
    | Loaded(held: Held)
    | Staged(held: Held, issue: int, event: Event, delta: Delta, outcome: Outcome)
    | Done(index: nat)

  datatype Txn = Txn(req: Request, phase: Phase)

  /** The committed tables, the clock, the user locks, the transactions, every identifier handed
      out so far, and the log of committed events with their outcomes. */
  datatype System = System(db: State, now: int, locks: map<UserId, TxnId>, txns: map<TxnId, Txn>,
                           reserved: set<SessionId>, events: seq<Event>, outcomes: seq<Outcome>)

  datatype Micro =
    | Begin(x: TxnId, req: Request)
    | Decode(x: TxnId, decode: int)
    | Find(x: TxnId, again: int)
    | Lock(x: TxnId)
    | Load(x: TxnId, check: int)
    | Stage(x: TxnId, issue: int)
    | Commit(x: TxnId)
    | PurgeBatch(chosen: set<SessionId>, at: int)

  // ---- Statements ----

  predicate HasId(req: Request) {
    req.LoginReq? || req.RotateReq?
  }

  predicate HasToken(req: Request) {
    req.RotateReq? || req.LogoutReq?
  }

  /** The user a request goes on to lock; None when it is refused before the lock. */
  function Target(db: State, cfg: Settings, req: Request, decode: int, again: int): Option<UserId> {
    if HasToken(req) then
      var claims := DecodeRefreshClaims(req.token, decode, again, cfg);
      if claims.Bad? || claims.claims.sub.None? || claims.claims.sub.value !in db.users then None
      else claims.claims.sub
    else if req.user in db.users then Some(req.user) else None
  }

  function EventOf(req: Request, t: Reads): Event {
    match req
    case LoginReq(user, id) => Login(user, id, t.issue)
    case RotateReq(token, id) => Rotate(token, id, t)
    case LogoutReq(token) => Logout(token, t)
    case SetActiveReq(user, active) => SetActive(user, active)
  }

  function EarlyOutcome(req: Request): Outcome {
    match req
    case LoginReq(_, _) => Refused(InvalidCredentials)
    case SetActiveReq(_, _) => Quiet
    case _ => Refused(InvalidToken)
  }

  function ReadsOf(h: Held, issue: int): Reads {
    Reads(h.decode, h.again, h.check, issue)
  }

  function Nothing(): Delta {
    Delta(map[], None, None, None)
  }

  function WriteRow(id: SessionId, row: Session): Delta {
    Delta(map[id := row], None, None, None)
  }

  /** The bulk UPDATE of reuse detection: the user's committed rows that are not revoked. */
  function WriteAllOpen(db: State, user: UserId, at: int): Delta {
    Delta(map id | id in db.sessions && db.sessions[id].user == user && Open(db, id) :: Revoke(db.sessions[id], at),
          None, None, None)
  }

  function NewRow(cfg: Settings, user: UserId, id: SessionId, at: int): Session {
    Session(user, CreateRefresh(user, id, at, cfg), ExpiresAt(at, cfg), None, None)
  }

  /** The writes and the answer, from what was read under the lock. */
  function StageOf(db: State, cfg: Settings, req: Request, h: Held, issue: int): (Delta, Outcome) {
    match req
    case LoginReq(user, id) =>
      if !h.active then (Nothing(), Refused(UserInactive))
      else (Delta(map[id := NewRow(cfg, user, id, issue)], Some(id), None, None),
            Issued(id, CreateRefresh(user, id, issue, cfg)))
    case SetActiveReq(user, active) => (Delta(map[], None, None, Some(active)), Quiet)
    case LogoutReq(token) =>
      if h.v.Unknown? || h.row.None? then (Nothing(), Refused(InvalidToken))
      else (WriteRow(h.v.id, Revoke(h.row.value, h.check)), if h.v.Stale? then Refused(TokenExpired) else LoggedOut)
    case RotateReq(token, id) =>
      if h.v.Unknown? || h.row.None? then (Nothing(), Refused(InvalidToken))
      else if h.v.Stale? then (WriteRow(h.v.id, Revoke(h.row.value, h.check)), Refused(TokenExpired))
      else if h.row.value.revokedAt.Some? then (WriteAllOpen(db, h.user, h.check), Refused(TokenRevoked))
      else if !h.active then (WriteRow(h.v.id, Revoke(h.row.value, h.check)), Refused(UserInactive))
      else
        (Delta(map[id := NewRow(cfg, h.user, id, issue),
                   h.v.id := Revoke(h.row.value, h.check).(replacedBy := Some(id))], Some(id), Some(h.v.id), None),
         Issued(id, CreateRefresh(h.user, id, issue, cfg)))
  }

  /** COMMIT: the staged versions become the committed rows. */
  function Apply(db: State, user: UserId, d: Delta): State {
    State(if d.active.Some? then db.users[user := d.active.value] else db.users,
          db.sessions + d.writes,
          if d.added.Some? then
            db.issued[d.added.value := Issue(db.next, user,
                                             if d.from.Some? then Family(db, d.from.value) else d.added.value)]
          else db.issued,
          if d.added.Some? then db.next + 1 else db.next)
  }

  // ---- One micro-step ----

  function SetPhase(sys: System, x: TxnId, phase: Phase, now: int): System
    requires x in sys.txns
  {
    sys.(txns := sys.txns[x := sys.txns[x].(phase := phase)], now := now)
  }

  /** The row locks held on sessions: the row a transaction read FOR UPDATE and the rows it wrote. */
  predicate RowLocked(sys: System, id: SessionId) {
    exists x :: x in sys.txns && LocksRow(sys.txns[x].phase, id)
  }

  predicate LocksRow(phase: Phase, id: SessionId) {
    match phase
    case Loaded(h) => !h.v.Unknown? && h.v.id == id
    case Staged(h, _, _, delta, _) => (!h.v.Unknown? && h.v.id == id) || id in delta.writes
    case _ => false
  }

  /** ON DELETE SET NULL would have to update this row. */
  predicate PointsInto(row: Session, gone: set<SessionId>) {
    row.replacedBy.Some? && row.replacedBy.value in gone
  }

  /** When a micro-step is possible: statements run in program order, the user lock is exclusive, the
      clock does not run backwards, and a purge batch neither deletes nor updates a locked row. */
  ghost predicate Can(cfg: Settings, sys: System, m: Micro) {
    match m
    case Begin(x, req) => x !in sys.txns && (HasId(req) ==> req.id !in sys.reserved)
    case Decode(x, decode) => x in sys.txns && sys.txns[x].phase.Begun? && sys.now <= decode
    case Find(x, again) => x in sys.txns && sys.txns[x].phase.Decoding? && sys.now <= again
    case Lock(x) => x in sys.txns && sys.txns[x].phase.Waiting? && sys.txns[x].phase.user !in sys.locks
                    && sys.txns[x].phase.user in sys.db.users
    case Load(x, check) => x in sys.txns && sys.txns[x].phase.Holding? && sys.now <= check
    case Stage(x, issue) => x in sys.txns && sys.txns[x].phase.Loaded? && sys.now <= issue
    case Commit(x) => x in sys.txns && sys.txns[x].phase.Staged?
    case PurgeBatch(chosen, at) =>
      && sys.now <= at
      && (forall id :: id in chosen ==> Purgeable(sys.db, cfg, id, at) && !RowLocked(sys, id))
      && (forall id :: id in sys.db.sessions && PointsInto(sys.db.sessions[id], chosen) ==> !RowLocked(sys, id))
  }

  ghost function Do(cfg: Settings, sys: System, m: Micro): System
    requires Can(cfg, sys, m)
  {
    match m
    case Begin(x, req) =>
      sys.(txns := sys.txns[x := Txn(req, Begun)],
           reserved := if HasId(req) then sys.reserved + {req.id} else sys.reserved)
    case Decode(x, decode) => SetPhase(sys, x, Decoding(decode), decode)
    case Find(x, again) =>
      var req, decode := sys.txns[x].req, sys.txns[x].phase.decode;
      var target := Target(sys.db, cfg, req, decode, again);
      if target.Some? then SetPhase(sys, x, Waiting(target.value, decode, again), again)
      else
        SetPhase(sys, x, Done(|sys.events|), again)
          .(events := sys.events + [EventOf(req, Reads(decode, again, again, again))],
            outcomes := sys.outcomes + [EarlyOutcome(req)])
    case Lock(x) =>
      var p := sys.txns[x].phase;
      SetPhase(sys, x, Holding(p.user, sys.db.users[p.user], p.decode, p.again), sys.now)
        .(locks := sys.locks[p.user := x])
    case Load(x, check) =>
      var p, req := sys.txns[x].phase, sys.txns[x].req;
      var v := if HasToken(req) then Verify(sys.db, cfg, req.token, Reads(p.decode, p.again, check, check))
               else Unknown;
      var row := if v.Unknown? then None else Some(sys.db.sessions[v.id]);
      SetPhase(sys, x, Loaded(Held(p.user, p.active, p.decode, p.again, check, v, row)), check)
    case Stage(x, issue) =>
      var h, req := sys.txns[x].phase.held, sys.txns[x].req;
      var (delta, outcome) := StageOf(sys.db, cfg, req, h, issue);
      SetPhase(sys, x, Staged(h, issue, EventOf(req, ReadsOf(h, issue)), delta, outcome), issue)
    case Commit(x) =>
      var p := sys.txns[x].phase;
      SetPhase(sys, x, Done(|sys.events|), sys.now)
        .(db := Apply(sys.db, p.held.user, p.delta), locks := sys.locks - {p.held.user},
          events := sys.events + [p.event], outcomes := sys.outcomes + [p.outcome])
    case PurgeBatch(chosen, at) =>
      sys.(db := sys.db.(sessions := Delete(sys.db.sessions, chosen)), now := at,
           events := sys.events + [Purge(chosen, at)], outcomes := sys.outcomes + [Quiet])
  }

  // ---- A staged delta is the atomic step ----

  /** What was read under the lock still describes the committed tables. */
  ghost predicate HeldOk(db: State, cfg: Settings, req: Request, h: Held) {
    && h.user in db.users && db.users[h.user] == h.active
    && (!HasToken(req) ==> req.user == h.user)
    && h.decode <= h.again <= h.check
    && (HasToken(req) ==>
          && Target(db, cfg, req, h.decode, h.again) == Some(h.user)
          && h.v == Verify(db, cfg, req.token, Reads(h.decode, h.again, h.check, h.check))
          && h.row == if h.v.Unknown? then None else Some(db.sessions[h.v.id]))
  }

  lemma VerifyIgnoresIssue(db: State, cfg: Settings, token: RawToken, h: Held, issue: int)
    ensures Verify(db, cfg, token, Reads(h.decode, h.again, h.check, h.check))
            == Verify(db, cfg, token, Reads(h.decode, h.again, h.check, issue))
  {}

  lemma HeldUser(db: State, cfg: Settings, req: Request, h: Held)
    requires HeldOk(db, cfg, req, h) && HasToken(req) && !h.v.Unknown?
    ensures h.v.id in db.sessions && db.sessions[h.v.id].user == h.user
  {}

  /** Committing what was staged is performing the request atomically now. */
  lemma StageIsStep(db: State, cfg: Settings, req: Request, h: Held, issue: int)
    requires Inv(db) && HeldOk(db, cfg, req, h) && h.check <= issue
    requires HasId(req) ==> req.id !in db.issued
    ensures var (delta, outcome) := StageOf(db, cfg, req, h, issue);
            && Step(db, cfg, EventOf(req, ReadsOf(h, issue))) == (Apply(db, h.user, delta), outcome)
            && Enabled(db, cfg, EventOf(req, ReadsOf(h, issue)))
  {
    match req
    case LoginReq(user, id) => StageLogin(db, cfg, req, h, issue);
    case RotateReq(token, id) => StageRotate(db, cfg, req, h, issue);
    case LogoutReq(token) => StageLogout(db, cfg, req, h, issue);
    case SetActiveReq(user, active) => assert db.sessions + map[] == db.sessions;
  }

  lemma ApplyNothing(db: State, user: UserId)
    ensures Apply(db, user, Nothing()) == db
  {
    assert db.sessions + map[] == db.sessions;
  }

  lemma ApplyWriteRow(db: State, user: UserId, id: SessionId, at: int)
    requires id in db.sessions
    ensures Apply(db, user, WriteRow(id, Revoke(db.sessions[id], at))) == Close(db, id, at)
  {
    assert db.sessions + map[id := Revoke(db.sessions[id], at)] == db.sessions[id := Revoke(db.sessions[id], at)];
  }

  lemma ApplyWriteAllOpen(db: State, user: UserId, at: int)
    ensures Apply(db, user, WriteAllOpen(db, user, at)) == db.(sessions := RevokeAll(db.sessions, user, at))
  {
    assert db.sessions + WriteAllOpen(db, user, at).writes == RevokeAll(db.sessions, user, at);
  }

  lemma StageLogin(db: State, cfg: Settings, req: Request, h: Held, issue: int)
    requires req.LoginReq? && HeldOk(db, cfg, req, h) && req.id !in db.issued
    ensures var (delta, outcome) := StageOf(db, cfg, req, h, issue);
            LoginStep(db, cfg, req.user, req.id, issue) == (Apply(db, h.user, delta), outcome)
  {
    ApplyNothing(db, h.user);
    var row := NewRow(cfg, req.user, req.id, issue);
    assert db.sessions + map[req.id := row] == db.sessions[req.id := row];
  }

  lemma StageLogout(db: State, cfg: Settings, req: Request, h: Held, issue: int)
    requires req.LogoutReq? && HeldOk(db, cfg, req, h)
    ensures var (delta, outcome) := StageOf(db, cfg, req, h, issue);
            LogoutStep(db, cfg, req.token, ReadsOf(h, issue)) == (Apply(db, h.user, delta), outcome)
  {
    hide Apply;
    VerifyIgnoresIssue(db, cfg, req.token, h, issue);
    ApplyNothing(db, h.user);
    if !h.v.Unknown? { ApplyWriteRow(db, h.user, h.v.id, h.check); }
  }

  lemma StageRotate(db: State, cfg: Settings, req: Request, h: Held, issue: int)
    requires req.RotateReq? && Inv(db) && HeldOk(db, cfg, req, h) && req.id !in db.issued
    ensures var (delta, outcome) := StageOf(db, cfg, req, h, issue);
            RotateStep(db, cfg, req.token, req.id, ReadsOf(h, issue)) == (Apply(db, h.user, delta), outcome)
  {
    hide Apply, Inv, Close, Replace, RevokeAll;
    VerifyIgnoresIssue(db, cfg, req.token, h, issue);
    ApplyNothing(db, h.user);
    if !h.v.Unknown? {
      HeldUser(db, cfg, req, h);
      ApplyWriteRow(db, h.user, h.v.id, h.check);
      ApplyWriteAllOpen(db, h.user, h.check);
      if h.v.Live? && Open(db, h.v.id) { ApplyReplace(db, cfg, h.v.id, req.id, ReadsOf(h, issue)); }
    }
  }

  lemma ApplyReplace(db: State, cfg: Settings, jti: SessionId, id: SessionId, t: Reads)
    requires Inv(db) && jti in db.sessions && id !in db.issued
    ensures var user := db.sessions[jti].user;
            Apply(db, user, Delta(map[id := NewRow(cfg, user, id, t.issue),
                                      jti := Revoke(db.sessions[jti], t.check).(replacedBy := Some(id))],
                                  Some(id), Some(jti), None))
            == Replace(db, cfg, jti, id, t)
  {
    var user := db.sessions[jti].user;
    assert RowOk(db, jti);
    assert id != jti;
    var writes := map[id := NewRow(cfg, user, id, t.issue),
                      jti := Revoke(db.sessions[jti], t.check).(replacedBy := Some(id))];
    assert db.sessions + writes == Replace(db, cfg, jti, id, t).sessions;
  }

  // ---- What every execution maintains ----

  predicate Answers(req: Request, e: Event) {
    match req
    case LoginReq(user, id) => e.Login? && e.user == user && e.id == id
    case RotateReq(token, id) => e.Rotate? && e.token == token && e.id == id
    case LogoutReq(token) => e.Logout? && e.token == token
    case SetActiveReq(user, active) => e == SetActive(user, active)
  }

  predicate HoldsLock(sys: System, x: TxnId, user: UserId) {
    user in sys.locks && sys.locks[user] == x
  }

  ghost predicate PhaseOk(cfg: Settings, sys: System, x: TxnId, txn: Txn) {
    match txn.phase
    case Begun => true
    case Decoding(decode) => decode <= sys.now
    case Waiting(user, decode, again) =>
      decode <= again <= sys.now && Target(sys.db, cfg, txn.req, decode, again) == Some(user)
    case Holding(user, active, decode, again) =>
      && decode <= again <= sys.now && Target(sys.db, cfg, txn.req, decode, again) == Some(user)
      && HoldsLock(sys, x, user) && user in sys.db.users && sys.db.users[user] == active
    case Loaded(h) => HoldsLock(sys, x, h.user) && HeldOk(sys.db, cfg, txn.req, h) && h.check <= sys.now
    case Staged(h, issue, e, delta, outcome) =>
      && HoldsLock(sys, x, h.user) && HeldOk(sys.db, cfg, txn.req, h) && h.check <= issue
      && e == EventOf(txn.req, ReadsOf(h, issue))
      && (delta, outcome) == StageOf(sys.db, cfg, txn.req, h, issue)
    case Done(index) => index < |sys.events| && Answers(txn.req, sys.events[index])
  }

  /** An identifier is used for one issuance, by the transaction it was generated for. */
  predicate IdOk(sys: System, txn: Txn) {
    HasId(txn.req) ==> txn.req.id in sys.reserved && (!txn.phase.Done? ==> txn.req.id !in sys.db.issued)
  }

  predicate UsesId(sys: System, x: TxnId) {
    x in sys.txns && HasId(sys.txns[x].req)
  }

  ghost predicate TxnsOk(cfg: Settings, sys: System) {
    && (forall x :: x in sys.txns ==> PhaseOk(cfg, sys, x, sys.txns[x]) && IdOk(sys, sys.txns[x]))
    && (forall x, y :: UsesId(sys, x) && UsesId(sys, y) && sys.txns[x].req.id == sys.txns[y].req.id ==> x == y)
    && (forall id :: id in sys.db.issued ==> id in sys.reserved)
  }

  /** The committed tables and all answers given are those of the log, run one event at a time. */
  ghost predicate Serial(cfg: Settings, start: State, sys: System) {
    && Runs(start, cfg, sys.events)
    && After(start, cfg, sys.events) == sys.db
    && Outcomes(start, cfg, sys.events) == sys.outcomes
  }

  ghost predicate SysInv(cfg: Settings, start: State, sys: System) {
    Inv(sys.db) && Serial(cfg, start, sys) && TxnsOk(cfg, sys)
  }

  lemma {:induction false} SerialSnoc(s: State, cfg: Settings, es: seq<Event>, e: Event)
    requires Runs(s, cfg, es) && Enabled(After(s, cfg, es), cfg, e)
    ensures Runs(s, cfg, es + [e])
    ensures After(s, cfg, es + [e]) == Step(After(s, cfg, es), cfg, e).0
    ensures Outcomes(s, cfg, es + [e]) == Outcomes(s, cfg, es) + [Step(After(s, cfg, es), cfg, e).1]
    decreases |es|
  {
    if es == [] {
      assert ([] + [e])[1..] == [];
    } else {
      SerialSnoc(Step(s, cfg, es[0]).0, cfg, es[1..], e);
      assert (es + [e])[1..] == es[1..] + [e];
    }
  }

  /** Logging an event the committed tables perform keeps the log serial. */
  lemma LogEvent(cfg: Settings, start: State, sys: System, sys': System, e: Event, o: Outcome)
    requires Inv(sys.db) && Serial(cfg, start, sys) && Enabled(sys.db, cfg, e)
    requires Step(sys.db, cfg, e) == (sys'.db, o)
    requires sys'.events == sys.events + [e] && sys'.outcomes == sys.outcomes + [o]
    ensures Inv(sys'.db) && Serial(cfg, start, sys')
  {
    SerialSnoc(start, cfg, sys.events, e);
    StepInv(sys.db, cfg, e);
  }

  // ---- Transactions that do not move ----

  /** Another transaction's step that leaves the tables alone. */
  lemma Bystander(cfg: Settings, sys: System, sys': System, y: TxnId, txn: Txn)
    requires PhaseOk(cfg, sys, y, txn) && IdOk(sys, txn)
    requires sys'.db == sys.db && sys.now <= sys'.now && sys.reserved <= sys'.reserved
    requires forall u :: HoldsLock(sys, y, u) ==> HoldsLock(sys', y, u)
    requires sys.events <= sys'.events
    ensures PhaseOk(cfg, sys', y, txn) && IdOk(sys', txn)
  {}

  /** The two tables hold the same rows of one user. */
  ghost predicate SameRows(db: State, db': State, user: UserId) {
    && (forall id :: id in db.sessions && db.sessions[id].user == user ==>
          id in db'.sessions && db'.sessions[id] == db.sessions[id])
    && (forall id ::
          id in db'.sessions && db'.sessions[id].user == user ==> id in db.sessions && db.sessions[id].user == user)
    && db'.users.Keys == db.users.Keys
    && (user in db.users ==> db'.users[user] == db.users[user])
  }

  lemma HeldFrame(db: State, db': State, cfg: Settings, req: Request, h: Held)
    requires HeldOk(db, cfg, req, h) && SameRows(db, db', h.user)
    ensures HeldOk(db', cfg, req, h)
  {}

  lemma StageFrame(db: State, db': State, cfg: Settings, req: Request, h: Held, issue: int)
    requires HeldOk(db, cfg, req, h) && SameRows(db, db', h.user)
    ensures StageOf(db', cfg, req, h, issue) == StageOf(db, cfg, req, h, issue)
  {
    assert WriteAllOpen(db', h.user, h.check) == WriteAllOpen(db, h.user, h.check) by {
      assert WriteAllOpen(db', h.user, h.check).writes == WriteAllOpen(db, h.user, h.check).writes;
    }
  }

  /** A commit changes rows of the committing user only. */
  lemma ApplyFrame(db: State, cfg: Settings, req: Request, h: Held, issue: int, user: UserId)
    requires Inv(db) && HeldOk(db, cfg, req, h) && user != h.user
    requires HasId(req) ==> req.id !in db.issued
    ensures SameRows(db, Apply(db, h.user, StageOf(db, cfg, req, h, issue).0), user)
  {
    hide StageOf, Inv;
    var d := StageOf(db, cfg, req, h, issue).0;
    WritesOwnRows(db, cfg, req, h, issue);
  }

  lemma WritesOwnRows(db: State, cfg: Settings, req: Request, h: Held, issue: int)
    requires Inv(db) && HeldOk(db, cfg, req, h)
    requires HasId(req) ==> req.id !in db.issued
    ensures var d := StageOf(db, cfg, req, h, issue).0;
            && (forall id :: id in d.writes ==>
                  d.writes[id].user == h.user && (id in db.sessions ==> db.sessions[id].user == h.user))
            && (d.active.Some? ==> h.user in db.users)
  {
    if HasId(req) { assert req.id in db.sessions ==> RowOk(db, req.id); }
  }

  lemma CommitBystander(cfg: Settings, sys: System, sys': System, y: TxnId, txn: Txn, user: UserId)
    requires PhaseOk(cfg, sys, y, txn)
    requires forall u :: u != user ==> SameRows(sys.db, sys'.db, u)
    requires !HoldsLock(sys, y, user)
    requires sys'.now == sys.now && sys'.locks == sys.locks - {user} && sys.events <= sys'.events
    requires sys'.db.users.Keys == sys.db.users.Keys
    ensures PhaseOk(cfg, sys', y, txn)
  {
    match txn.phase
    case Loaded(h) => HeldFrame(sys.db, sys'.db, cfg, txn.req, h);
    case Staged(h, issue, _, _, _) =>
      HeldFrame(sys.db, sys'.db, cfg, txn.req, h);
      StageFrame(sys.db, sys'.db, cfg, txn.req, h, issue);
    case Holding(u, _, _, _) => assert SameRows(sys.db, sys'.db, u);
    case _ =>
  }

  // ---- Purge batches against transactions ----

  /** Deleting rows a transaction has not locked leaves what it read in force. */
  lemma HeldPurge(db: State, cfg: Settings, req: Request, h: Held, gone: set<SessionId>)
    requires HeldOk(db, cfg, req, h)
    requires !h.v.Unknown? ==> h.v.id !in gone && (h.v.id in db.sessions ==> !PointsInto(db.sessions[h.v.id], gone))
    ensures HeldOk(db.(sessions := Delete(db.sessions, gone)), cfg, req, h)
  {}

  /** ...and what it wrote, when its written rows are locked too. */
  lemma StagePurge(db: State, cfg: Settings, req: Request, h: Held, issue: int, gone: set<SessionId>)
    requires HeldOk(db, cfg, req, h)
    requires forall id :: id in StageOf(db, cfg, req, h, issue).0.writes ==>
      id !in gone && (id in db.sessions ==> !PointsInto(db.sessions[id], gone))
    ensures StageOf(db.(sessions := Delete(db.sessions, gone)), cfg, req, h, issue) == StageOf(db, cfg, req, h, issue)
  {
    var db' := db.(sessions := Delete(db.sessions, gone));
    if StageOf(db, cfg, req, h, issue).0 == WriteAllOpen(db, h.user, h.check) {
      assert WriteAllOpen(db', h.user, h.check).writes == WriteAllOpen(db, h.user, h.check).writes;
    }
  }

  lemma PurgeBystander(cfg: Settings, sys: System, sys': System, y: TxnId, txn: Txn, gone: set<SessionId>)
    requires PhaseOk(cfg, sys, y, txn)
    requires forall id :: LocksRow(txn.phase, id) ==> id !in gone
    requires forall id :: LocksRow(txn.phase, id) && id in sys.db.sessions ==> !PointsInto(sys.db.sessions[id], gone)
    requires sys'.db == sys.db.(sessions := Delete(sys.db.sessions, gone))
    requires sys.now <= sys'.now && sys'.locks == sys.locks && sys.events <= sys'.events
    ensures PhaseOk(cfg, sys', y, txn)
  {
    match txn.phase
    case Loaded(h) => HeldPurge(sys.db, cfg, txn.req, h, gone);
    case Staged(h, issue, _, _, _) =>
      HeldPurge(sys.db, cfg, txn.req, h, gone);
      StagePurge(sys.db, cfg, txn.req, h, issue, gone);
    case _ =>
  }

  // ---- Micro-steps keep the invariant ----

  lemma BeginOk(cfg: Settings, start: State, sys: System, x: TxnId, req: Request)
    requires SysInv(cfg, start, sys) && Can(cfg, sys, Begin(x, req))
    ensures SysInv(cfg, start, Do(cfg, sys, Begin(x, req)))
  {
    var sys' := Do(cfg, sys, Begin(x, req));
    forall y | y in sys'.txns ensures PhaseOk(cfg, sys', y, sys'.txns[y]) && IdOk(sys', sys'.txns[y]) {
      if y != x { Bystander(cfg, sys, sys', y, sys.txns[y]); }
    }
    forall y | UsesId(sys', y) && y != x ensures sys'.txns[y].req.id in sys.reserved {
      assert IdOk(sys, sys.txns[y]);
    }
  }

  /** A step of transaction x that commits nothing. */
  lemma QuietOk(cfg: Settings, start: State, sys: System, sys': System, x: TxnId, phase: Phase)
    requires SysInv(cfg, start, sys) && x in sys.txns && !sys.txns[x].phase.Done?
    requires sys'.txns == sys.txns[x := sys.txns[x].(phase := phase)]
    requires sys'.db == sys.db && sys.now <= sys'.now && sys'.reserved == sys.reserved
    requires sys'.events == sys.events && sys'.outcomes == sys.outcomes
    requires forall y, u :: y != x && HoldsLock(sys, y, u) ==> HoldsLock(sys', y, u)
    requires PhaseOk(cfg, sys', x, sys'.txns[x])
    ensures SysInv(cfg, start, sys')
  {
    forall y | y in sys'.txns ensures PhaseOk(cfg, sys', y, sys'.txns[y]) && IdOk(sys', sys'.txns[y]) {
      if y != x { Bystander(cfg, sys, sys', y, sys.txns[y]); } else { assert IdOk(sys, sys.txns[x]); }
    }
    assert forall y :: UsesId(sys', y) ==> UsesId(sys, y) && sys'.txns[y].req == sys.txns[y].req;
  }

  lemma LockOk(cfg: Settings, start: State, sys: System, x: TxnId)
    requires SysInv(cfg, start, sys) && Can(cfg, sys, Lock(x))
    ensures SysInv(cfg, start, Do(cfg, sys, Lock(x)))
  {
    var sys' := Do(cfg, sys, Lock(x));
    assert PhaseOk(cfg, sys, x, sys.txns[x]);
    QuietOk(cfg, start, sys, sys', x, sys'.txns[x].phase);
  }

  lemma LoadOk(cfg: Settings, start: State, sys: System, x: TxnId, check: int)
    requires SysInv(cfg, start, sys) && Can(cfg, sys, Load(x, check))
    ensures SysInv(cfg, start, Do(cfg, sys, Load(x, check)))
  {
    var sys' := Do(cfg, sys, Load(x, check));
    assert PhaseOk(cfg, sys, x, sys.txns[x]);
    var h := sys'.txns[x].phase.held;
    assert HeldOk(sys.db, cfg, sys.txns[x].req, h);
    QuietOk(cfg, start, sys, sys', x, sys'.txns[x].phase);
  }

  lemma StageOk(cfg: Settings, start: State, sys: System, x: TxnId, issue: int)
    requires SysInv(cfg, start, sys) && Can(cfg, sys, Stage(x, issue))
    ensures SysInv(cfg, start, Do(cfg, sys, Stage(x, issue)))
  {
    var sys' := Do(cfg, sys, Stage(x, issue));
    assert PhaseOk(cfg, sys, x, sys.txns[x]);
    QuietOk(cfg, start, sys, sys', x, sys'.txns[x].phase);
  }

  /** A request refused before the lock is refused by the committed tables too. */
  lemma EarlyStep(db: State, cfg: Settings, req: Request, decode: int, again: int)
    requires Target(db, cfg, req, decode, again).None? && decode <= again
    requires HasId(req) ==> req.id !in db.issued
    ensures var e := EventOf(req, Reads(decode, again, again, again));
            Enabled(db, cfg, e) && Step(db, cfg, e) == (db, EarlyOutcome(req))
  {}

  lemma DecodeOk(cfg: Settings, start: State, sys: System, x: TxnId, decode: int)
    requires SysInv(cfg, start, sys) && Can(cfg, sys, Decode(x, decode))
    ensures SysInv(cfg, start, Do(cfg, sys, Decode(x, decode)))
  {
    var sys' := Do(cfg, sys, Decode(x, decode));
    QuietOk(cfg, start, sys, sys', x, sys'.txns[x].phase);
  }

  lemma FindOk(cfg: Settings, start: State, sys: System, x: TxnId, again: int)
    requires SysInv(cfg, start, sys) && Can(cfg, sys, Find(x, again))
    ensures SysInv(cfg, start, Do(cfg, sys, Find(x, again)))
  {
    var sys' := Do(cfg, sys, Find(x, again));
    var req, decode := sys.txns[x].req, sys.txns[x].phase.decode;
    assert PhaseOk(cfg, sys, x, sys.txns[x]) && IdOk(sys, sys.txns[x]);
    if Target(sys.db, cfg, req, decode, again).Some? {
      QuietOk(cfg, start, sys, sys', x, sys'.txns[x].phase);
    } else {
      EarlyStep(sys.db, cfg, req, decode, again);
      LogEvent(cfg, start, sys, sys', EventOf(req, Reads(decode, again, again, again)), EarlyOutcome(req));
      forall y | y in sys'.txns ensures PhaseOk(cfg, sys', y, sys'.txns[y]) && IdOk(sys', sys'.txns[y]) {
        if y != x { Bystander(cfg, sys, sys', y, sys.txns[y]); }
      }
      assert forall y :: UsesId(sys', y) ==> UsesId(sys, y) && sys'.txns[y].req == sys.txns[y].req;
    }
  }

  lemma CommitLogged(cfg: Settings, start: State, sys: System, x: TxnId)
    requires SysInv(cfg, start, sys) && Can(cfg, sys, Commit(x))
    ensures Inv(Do(cfg, sys, Commit(x)).db) && Serial(cfg, start, Do(cfg, sys, Commit(x)))
    ensures forall u :: u != sys.txns[x].phase.held.user ==> SameRows(sys.db, Do(cfg, sys, Commit(x)).db, u)
    ensures Do(cfg, sys, Commit(x)).db.users.Keys == sys.db.users.Keys
    ensures Answers(sys.txns[x].req, sys.txns[x].phase.event)
  {
    hide Serial, Inv, Runs;
    var sys' := Do(cfg, sys, Commit(x));
    var p, h, req := sys.txns[x].phase, sys.txns[x].phase.held, sys.txns[x].req;
    assert PhaseOk(cfg, sys, x, sys.txns[x]) && IdOk(sys, sys.txns[x]);
    StageIsStep(sys.db, cfg, req, h, p.issue);
    LogEvent(cfg, start, sys, sys', p.event, p.outcome);
    forall u | u != h.user ensures SameRows(sys.db, sys'.db, u) {
      ApplyFrame(sys.db, cfg, req, h, p.issue, u);
    }
  }

  lemma CommitOk(cfg: Settings, start: State, sys: System, x: TxnId)
    requires SysInv(cfg, start, sys) && Can(cfg, sys, Commit(x))
    ensures SysInv(cfg, start, Do(cfg, sys, Commit(x)))
  {
    hide Serial, Inv, SameRows, Apply, StageOf;
    var sys' := Do(cfg, sys, Commit(x));
    var h := sys.txns[x].phase.held;
    CommitLogged(cfg, start, sys, x);
    assert PhaseOk(cfg, sys, x, sys.txns[x]);
    forall y | y in sys'.txns ensures PhaseOk(cfg, sys', y, sys'.txns[y]) && IdOk(sys', sys'.txns[y]) {
      if y != x {
        CommitBystander(cfg, sys, sys', y, sys.txns[y], h.user);
        CommitIds(cfg, sys, sys', x, y);
      } else {
        assert IdOk(sys, sys.txns[x]);
      }
    }
    assert forall y :: UsesId(sys', y) ==> UsesId(sys, y) && sys'.txns[y].req == sys.txns[y].req;
    CommitReserved(cfg, sys, sys', x);
  }

  lemma CommitReserved(cfg: Settings, sys: System, sys': System, x: TxnId)
    requires TxnsOk(cfg, sys) && Can(cfg, sys, Commit(x)) && sys' == Do(cfg, sys, Commit(x))
    ensures forall id :: id in sys'.db.issued ==> id in sys'.reserved
  {
    assert PhaseOk(cfg, sys, x, sys.txns[x]) && IdOk(sys, sys.txns[x]);
  }

  /** The committed issuance took only the committing transaction's own identifier. */
  lemma CommitIds(cfg: Settings, sys: System, sys': System, x: TxnId, y: TxnId)
    requires TxnsOk(cfg, sys) && Can(cfg, sys, Commit(x)) && sys' == Do(cfg, sys, Commit(x))
    requires y in sys.txns && y != x
    ensures IdOk(sys', sys.txns[y])
  {
    hide HeldOk, Inv;
    assert PhaseOk(cfg, sys, x, sys.txns[x]) && IdOk(sys, sys.txns[x]) && IdOk(sys, sys.txns[y]);
    assert UsesId(sys, x) && UsesId(sys, y) ==> sys.txns[x].req.id != sys.txns[y].req.id;
  }

  lemma PurgeOk(cfg: Settings, start: State, sys: System, chosen: set<SessionId>, at: int)
    requires SysInv(cfg, start, sys) && Can(cfg, sys, PurgeBatch(chosen, at))
    ensures SysInv(cfg, start, Do(cfg, sys, PurgeBatch(chosen, at)))
  {
    var sys' := Do(cfg, sys, PurgeBatch(chosen, at));
    LogEvent(cfg, start, sys, sys', Purge(chosen, at), Quiet);
    forall y | y in sys'.txns ensures PhaseOk(cfg, sys', y, sys'.txns[y]) && IdOk(sys', sys'.txns[y]) {
      forall id | LocksRow(sys.txns[y].phase, id) ensures RowLocked(sys, id) {}
      PurgeBystander(cfg, sys, sys', y, sys.txns[y], chosen);
      assert IdOk(sys, sys.txns[y]);
    }
  }

  lemma MicroOk(cfg: Settings, start: State, sys: System, m: Micro)
    requires SysInv(cfg, start, sys) && Can(cfg, sys, m)
    ensures SysInv(cfg, start, Do(cfg, sys, m))
  {
    match m
    case Begin(x, req) => BeginOk(cfg, start, sys, x, req);
    case Decode(x, decode) => DecodeOk(cfg, start, sys, x, decode);
    case Find(x, again) => FindOk(cfg, start, sys, x, again);
    case Lock(x) => LockOk(cfg, start, sys, x);
    case Load(x, check) => LoadOk(cfg, start, sys, x, check);
    case Stage(x, issue) => StageOk(cfg, start, sys, x, issue);
    case Commit(x) => CommitOk(cfg, start, sys, x);
    case PurgeBatch(chosen, at) => PurgeOk(cfg, start, sys, chosen, at);
  }

  // ---- Executions ----

  ghost predicate Executes(cfg: Settings, sys: System, ms: seq<Micro>)
    decreases |ms|
  {
    ms == [] || (Can(cfg, sys, ms[0]) && Executes(cfg, Do(cfg, sys, ms[0]), ms[1..]))
  }

  ghost function Final(cfg: Settings, sys: System, ms: seq<Micro>): System
    requires Executes(cfg, sys, ms)
    decreases |ms|
  {
    if ms == [] then sys else Final(cfg, Do(cfg, sys, ms[0]), ms[1..])
  }

  /** No transaction yet, nothing logged. */
  function Idle(db: State, now: int): System {
    System(db, now, map[], map[], db.issued.Keys, [], [])
  }

  lemma {:induction false} ExecutionOk(cfg: Settings, start: State, sys: System, ms: seq<Micro>)
    requires SysInv(cfg, start, sys) && Executes(cfg, sys, ms)
    ensures SysInv(cfg, start, Final(cfg, sys, ms))
    decreases |ms|
  {
    if ms != [] {
      MicroOk(cfg, start, sys, ms[0]);
      ExecutionOk(cfg, start, Do(cfg, sys, ms[0]), ms[1..]);
    }
  }

  /** Every interleaving is serial: the committed tables and the answers are those of running the
      committed requests one at a time, and each finished request received the answer of its own
      event in that serial run. */
  lemma EveryExecutionIsSerial(cfg: Settings, start: State, now: int, ms: seq<Micro>)
    requires Inv(start) && Executes(cfg, Idle(start, now), ms)
    ensures var end := Final(cfg, Idle(start, now), ms);
            && Runs(start, cfg, end.events)
            && After(start, cfg, end.events) == end.db
            && Outcomes(start, cfg, end.events) == end.outcomes
            && Inv(end.db)
            && forall x :: x in end.txns && end.txns[x].phase.Done? ==>
                 var k := end.txns[x].phase.index;
                 k < |end.events| && Answers(end.txns[x].req, end.events[k])
  {
    ExecutionOk(cfg, start, Idle(start, now), ms);
    var end := Final(cfg, Idle(start, now), ms);
    forall x | x in end.txns && end.txns[x].phase.Done?
      ensures end.txns[x].phase.index < |end.events|
              && Answers(end.txns[x].req, end.events[end.txns[x].phase.index])
    {
      assert PhaseOk(cfg, end, x, end.txns[x]);
    }
  }
}
