/** Refresh sessions: every operation as one atomic step on the tables. */
module Sessions {
  import opened Wrappers
  import opened Tokens

  /** The stored digest is modelled by the token itself: the hash is injective. */
  datatype Session = Session(user: UserId, hash: RawToken, expiresAt: int, revokedAt: Option<int>,
                             replacedBy: Option<SessionId>)

  /** Bookkeeping the tables do not hold: the position of an issuance among all issuances, and the
      login its rotation chain started from. */
  datatype Issue = Issue(no: nat, user: UserId, family: SessionId)

  datatype State = State(users: map<UserId, bool>, sessions: map<SessionId, Session>,
                         issued: map<SessionId, Issue>, next: nat)

  /** The clock readings of one request, in program order. */
  datatype Reads = Reads(decode: int, again: int, check: int, issue: int)

  datatype Code = InvalidToken | TokenExpired | TokenRevoked | UserInactive | InvalidCredentials

  datatype Outcome = Issued(id: SessionId, token: RawToken) | LoggedOut | Refused(code: Code) | Quiet

  datatype Event =
    | Login(user: UserId, id: SessionId, at: int)
    | Rotate(token: RawToken, id: SessionId, t: Reads)
    | Logout(token: RawToken, t: Reads)
    | SetActive(user: UserId, active: bool)
    | Purge(chosen: set<SessionId>, now: int)

  // ---- The steps ----

  function Revoke(row: Session, at: int): Session {
    if row.revokedAt.Some? then row else row.(revokedAt := Some(at))
  }

  /** UPDATE ... SET revoked_at WHERE user_id = user AND revoked_at IS NULL */
  function RevokeAll(sessions: map<SessionId, Session>, user: UserId, at: int): map<SessionId, Session> {
    map id | id in sessions :: if sessions[id].user == user then Revoke(sessions[id], at) else sessions[id]
  }

  function Unlink(row: Session, gone: set<SessionId>): Session {
    if row.replacedBy.Some? && row.replacedBy.value in gone then row.(replacedBy := None) else row
  }

  /** DELETE with the self-reference's ON DELETE SET NULL */
  function Delete(sessions: map<SessionId, Session>, gone: set<SessionId>): map<SessionId, Session> {
    map id | id in sessions && id !in gone :: Unlink(sessions[id], gone)
  }

  datatype Verification = Unknown | Stale(id: SessionId) | Live(id: SessionId)

  /** Decode, look the user and the session up, compare the digest, check expiry. */
  function Verify(s: State, cfg: Settings, token: RawToken, t: Reads): (v: Verification)
    ensures !v.Unknown? ==> v.id in s.sessions && s.sessions[v.id].user in s.users && s.sessions[v.id].hash == token
  {
    match DecodeRefreshClaims(token, t.decode, t.again, cfg)
    case Bad => Unknown
    case Good(claims, wasExpired) =>
      if claims.sub.None? || claims.sub.value !in s.users then Unknown
      else if claims.jti !in s.sessions then Unknown
      else
        var row := s.sessions[claims.jti];
        if row.user != claims.sub.value || row.hash != token then Unknown
        else if wasExpired || row.expiresAt <= t.check then Stale(claims.jti)
        else Live(claims.jti)
  }

  function Stage(s: State, cfg: Settings, user: UserId, id: SessionId, at: int, family: SessionId): State {
    s.(sessions := s.sessions[id := Session(user, CreateRefresh(user, id, at, cfg), ExpiresAt(at, cfg), None, None)],
       issued := s.issued[id := Issue(s.next, user, family)],
       next := s.next + 1)
  }

  /** The login a session's chain started from. */
  function Family(s: State, id: SessionId): SessionId {
    if id in s.issued then s.issued[id].family else id
  }

  function LoginStep(s: State, cfg: Settings, user: UserId, id: SessionId, at: int): (State, Outcome) {
    if user !in s.users then (s, Refused(InvalidCredentials))
    else if !s.users[user] then (s, Refused(UserInactive))
    else (Stage(s, cfg, user, id, at, id), Issued(id, CreateRefresh(user, id, at, cfg)))
  }

  /** The state after revoking one row. */
  function Close(s: State, jti: SessionId, at: int): State
    requires jti in s.sessions
  {
    s.(sessions := s.sessions[jti := Revoke(s.sessions[jti], at)])
  }

  /** The three writes of a rotation: revoke, issue, link. */
  function Replace(s: State, cfg: Settings, jti: SessionId, id: SessionId, t: Reads): State
    requires jti in s.sessions
  {
    var staged := Stage(s, cfg, s.sessions[jti].user, id, t.issue, Family(s, jti));
    staged.(sessions := staged.sessions[jti := Revoke(s.sessions[jti], t.check).(replacedBy := Some(id))])
  }

  function RotateStep(s: State, cfg: Settings, token: RawToken, id: SessionId, t: Reads): (State, Outcome) {
    match Verify(s, cfg, token, t)
    case Unknown => (s, Refused(InvalidToken))
    case Stale(jti) => (Close(s, jti, t.check), Refused(TokenExpired))
    case Live(jti) =>
      var row := s.sessions[jti];
      if row.revokedAt.Some? then
        (s.(sessions := RevokeAll(s.sessions, row.user, t.check)), Refused(TokenRevoked))
      else if !s.users[row.user] then
        (Close(s, jti, t.check), Refused(UserInactive))
      else
        (Replace(s, cfg, jti, id, t), Issued(id, CreateRefresh(row.user, id, t.issue, cfg)))
  }

  function LogoutStep(s: State, cfg: Settings, token: RawToken, t: Reads): (State, Outcome) {
    match Verify(s, cfg, token, t)
    case Unknown => (s, Refused(InvalidToken))
    case Stale(jti) => (Close(s, jti, t.check), Refused(TokenExpired))
    case Live(jti) => (Close(s, jti, t.check), LoggedOut)
  }

  function Step(s: State, cfg: Settings, e: Event): (State, Outcome) {
    match e
    case Login(user, id, at) => LoginStep(s, cfg, user, id, at)
    case Rotate(token, id, t) => RotateStep(s, cfg, token, id, t)
    case Logout(token, t) => LogoutStep(s, cfg, token, t)
    case SetActive(user, active) =>
      (if user in s.users then s.(users := s.users[user := active]) else s, Quiet)
    case Purge(chosen, _) => (s.(sessions := Delete(s.sessions, chosen)), Quiet)
  }

  /** The clock does not run backwards while a request is served. */
  predicate InOrder(t: Reads) {
    t.decode <= t.again <= t.check <= t.issue
  }

  /** Rows a purge at `now` may select: past expiry by more than the retention window. */
  predicate Purgeable(s: State, cfg: Settings, id: SessionId, now: int) {
    id in s.sessions && s.sessions[id].expiresAt < now - cfg.retentionSeconds * SECOND
  }

  /** Fresh identifiers, and a purge that selects by expiry only. It may select any such rows:
      locked ones are skipped. */
  predicate Enabled(s: State, cfg: Settings, e: Event) {
    match e
    case Login(_, id, _) => id !in s.issued
    case Rotate(_, id, t) => id !in s.issued && InOrder(t)
    case Logout(_, t) => InOrder(t)
    case SetActive(_, _) => true
    case Purge(chosen, now) => forall id :: id in chosen ==> Purgeable(s, cfg, id, now)
  }

  // ---- Runs ----

  predicate Runs(s: State, cfg: Settings, es: seq<Event>)
    decreases |es|
  {
    es == [] || (Enabled(s, cfg, es[0]) && Runs(Step(s, cfg, es[0]).0, cfg, es[1..]))
  }

  function After(s: State, cfg: Settings, es: seq<Event>): State
    decreases |es|
  {
    if es == [] then s else After(Step(s, cfg, es[0]).0, cfg, es[1..])
  }

  function Outcomes(s: State, cfg: Settings, es: seq<Event>): (r: seq<Outcome>)
    ensures |r| == |es|
    decreases |es|
  {
    if es == [] then [] else
      var (s', o) := Step(s, cfg, es[0]);
      [o] + Outcomes(s', cfg, es[1..])
  }

  // ---- What every reachable state satisfies ----

  /** The stored digest is that of the token this row was created with. */
  predicate OwnToken(id: SessionId, row: Session) {
    && row.hash.Verified?
    && row.hash.claims.sub == Some(row.user) && row.hash.claims.jti == id && row.hash.claims.typ == Refresh
    && row.hash.claims.exp * SECOND == row.expiresAt
  }

  predicate IssueOk(s: State, id: SessionId)
    requires id in s.issued
  {
    var issue := s.issued[id];
    && issue.no < s.next
    && issue.user in s.users
    && issue.family in s.issued
    && s.issued[issue.family].family == issue.family
    && s.issued[issue.family].user == issue.user
    && s.issued[issue.family].no <= issue.no
  }

  predicate RowOk(s: State, id: SessionId)
    requires id in s.sessions
  {
    id in s.issued && s.issued[id].user == s.sessions[id].user && OwnToken(id, s.sessions[id])
  }

  ghost predicate Logged(s: State) {
    && (forall id :: id in s.issued ==> IssueOk(s, id))
    && (forall id :: id in s.sessions ==> RowOk(s, id))
  }

  /** A link belongs to a revoked row and leads to a later row of the same chain. */
  predicate Linked(s: State, id: SessionId, target: SessionId)
    requires id in s.sessions
  {
    && s.sessions[id].revokedAt.Some?
    && target in s.sessions && target in s.issued && id in s.issued
    && s.issued[id].no < s.issued[target].no
    && s.issued[id].family == s.issued[target].family
    && s.sessions[target].user == s.sessions[id].user
  }

  predicate LinkOk(s: State, id: SessionId)
    requires id in s.sessions
  {
    s.sessions[id].replacedBy.Some? ==> Linked(s, id, s.sessions[id].replacedBy.value)
  }

  predicate LinksTo(s: State, id: SessionId, target: SessionId) {
    id in s.sessions && s.sessions[id].replacedBy == Some(target)
  }

  ghost predicate Chains(s: State) {
    && (forall id :: id in s.sessions ==> LinkOk(s, id))
    && (forall a, b, target :: LinksTo(s, a, target) && LinksTo(s, b, target) ==> a == b)
  }

  predicate Open(s: State, id: SessionId) {
    id in s.sessions && s.sessions[id].revokedAt.None?
  }

  /** Each login has at most one session that is not revoked. */
  ghost predicate OneOpenPerLogin(s: State) {
    forall a, b :: Open(s, a) && Open(s, b) && Family(s, a) == Family(s, b) ==> a == b
  }

  ghost predicate Inv(s: State) {
    Logged(s) && Chains(s) && OneOpenPerLogin(s)
  }

  /** Tables that have never issued a session. */
  predicate Initial(s: State) {
    s.sessions == map[] && s.issued == map[] && s.next == 0
  }

  lemma InitialInv(s: State)
    requires Initial(s)
    ensures Inv(s)
  {}

  // ---- Issuing ----

  lemma StageLogged(s: State, cfg: Settings, user: UserId, id: SessionId, at: int, family: SessionId)
    requires Logged(s) && id !in s.issued && user in s.users
    requires family == id || (family in s.issued && s.issued[family].family == family && s.issued[family].user == user)
    ensures Logged(Stage(s, cfg, user, id, at, family))
  {
    var s' := Stage(s, cfg, user, id, at, family);
    ExpiryMatchesToken(user, id, at, cfg);
    forall x | x in s'.issued ensures IssueOk(s', x) {
      assert x != id ==> IssueOk(s, x);
    }
    forall x | x in s'.sessions ensures RowOk(s', x) {
      assert x != id ==> RowOk(s, x);
    }
  }

  lemma StageChains(s: State, cfg: Settings, user: UserId, id: SessionId, at: int, family: SessionId)
    requires Logged(s) && Chains(s) && id !in s.issued
    ensures Chains(Stage(s, cfg, user, id, at, family))
    ensures forall a :: !LinksTo(Stage(s, cfg, user, id, at, family), a, id)
  {
    var s' := Stage(s, cfg, user, id, at, family);
    forall x | x in s'.sessions ensures LinkOk(s', x) {
      assert x != id ==> LinkOk(s, x) && RowOk(s, x);
    }
    forall a, target | LinksTo(s', a, target) ensures LinksTo(s, a, target) && target != id {
      assert LinkOk(s, a);
    }
  }

  lemma StageOpen(s: State, cfg: Settings, user: UserId, id: SessionId, at: int, family: SessionId)
    requires Logged(s) && OneOpenPerLogin(s) && id !in s.issued
    requires forall a :: Open(s, a) ==> Family(s, a) != family
    ensures OneOpenPerLogin(Stage(s, cfg, user, id, at, family))
  {
    var s' := Stage(s, cfg, user, id, at, family);
    forall a | Open(s', a) && a != id ensures Open(s, a) && Family(s', a) == Family(s, a) {
      assert RowOk(s, a);
    }
  }

  // ---- Rewriting rows in place ----

  /** Same rows, same owners and digests; nothing becomes unrevoked. */
  ghost predicate Tightens(s: State, s': State) {
    && s'.sessions.Keys <= s.sessions.Keys && s'.issued == s.issued && s'.next == s.next && s'.users == s.users
    && forall id :: id in s'.sessions ==>
         && s'.sessions[id].user == s.sessions[id].user
         && s'.sessions[id].hash == s.sessions[id].hash
         && s'.sessions[id].expiresAt == s.sessions[id].expiresAt
         && (s.sessions[id].revokedAt.Some? ==> s'.sessions[id].revokedAt == s.sessions[id].revokedAt)
  }

  lemma TightenLogged(s: State, s': State)
    requires Logged(s) && Tightens(s, s')
    ensures Logged(s')
  {
    forall x | x in s'.issued ensures IssueOk(s', x) { assert IssueOk(s, x); }
    forall x | x in s'.sessions ensures RowOk(s', x) { assert RowOk(s, x); }
  }

  lemma TightenOpen(s: State, s': State)
    requires OneOpenPerLogin(s) && Tightens(s, s')
    ensures OneOpenPerLogin(s')
  {
    forall a | Open(s', a) ensures Open(s, a) && Family(s', a) == Family(s, a) {}
  }

  /** Links may disappear, and must when their target does. */
  lemma UnlinkChains(s: State, s': State)
    requires Chains(s) && Tightens(s, s')
    requires forall id :: id in s'.sessions ==>
      s'.sessions[id].replacedBy == s.sessions[id].replacedBy || s'.sessions[id].replacedBy.None?
    requires forall id :: id in s'.sessions && s'.sessions[id].replacedBy.Some? ==>
      s'.sessions[id].replacedBy.value in s'.sessions
    ensures Chains(s')
  {
    forall x | x in s'.sessions ensures LinkOk(s', x) { assert LinkOk(s, x); }
    forall a, target | LinksTo(s', a, target) ensures LinksTo(s, a, target) {}
  }

  /** Revoking rows, and nothing else, keeps the invariant. */
  lemma RevokingInv(s: State, s': State)
    requires Inv(s) && Tightens(s, s') && s'.sessions.Keys == s.sessions.Keys
    requires forall id :: id in s'.sessions ==> s'.sessions[id].replacedBy == s.sessions[id].replacedBy
    ensures Inv(s')
  {
    TightenLogged(s, s');
    TightenOpen(s, s');
    forall id | id in s'.sessions && s'.sessions[id].replacedBy.Some?
      ensures s'.sessions[id].replacedBy.value in s'.sessions
    {
      assert LinkOk(s, id);
    }
    UnlinkChains(s, s');
  }

  lemma DeleteInv(s: State, gone: set<SessionId>)
    requires Inv(s)
    ensures Inv(s.(sessions := Delete(s.sessions, gone)))
  {
    var s' := s.(sessions := Delete(s.sessions, gone));
    TightenLogged(s, s');
    TightenOpen(s, s');
    forall id | id in s'.sessions && s'.sessions[id].replacedBy.Some?
      ensures s'.sessions[id].replacedBy.value in s'.sessions
    {
      assert LinkOk(s, id);
    }
    UnlinkChains(s, s');
  }

  lemma LinkInv(s: State, s': State, jti: SessionId, id: SessionId)
    requires Inv(s) && jti in s.sessions && Linked(s, jti, id)
    requires forall a :: !LinksTo(s, a, id)
    requires s' == s.(sessions := s.sessions[jti := s.sessions[jti].(replacedBy := Some(id))])
    ensures Inv(s')
  {
    TightenLogged(s, s');
    TightenOpen(s, s');
    forall x | x in s'.sessions ensures LinkOk(s', x) { assert LinkOk(s, x); }
    forall a, target | LinksTo(s', a, target) ensures if a == jti then target == id else LinksTo(s, a, target) {}
  }

  lemma CloseInv(s: State, jti: SessionId, at: int)
    requires Inv(s) && jti in s.sessions
    ensures Inv(Close(s, jti, at))
    ensures Open(s, jti) ==> forall a :: Open(Close(s, jti, at), a) ==> Family(Close(s, jti, at), a) != Family(s, jti)
  {
    RevokingInv(s, Close(s, jti, at));
    if Open(s, jti) {
      forall a | Open(Close(s, jti, at), a) ensures Family(Close(s, jti, at), a) != Family(s, jti) {
        assert Open(s, a) && a != jti;
      }
    }
  }

  lemma ReplaceIs(s: State, cfg: Settings, jti: SessionId, id: SessionId, t: Reads)
    requires jti in s.sessions && id != jti
    ensures var staged := Stage(Close(s, jti, t.check), cfg, s.sessions[jti].user, id, t.issue, Family(s, jti));
            Replace(s, cfg, jti, id, t)
            == staged.(sessions := staged.sessions[jti := staged.sessions[jti].(replacedBy := Some(id))])
  {
    var staged := Stage(Close(s, jti, t.check), cfg, s.sessions[jti].user, id, t.issue, Family(s, jti));
    assert Replace(s, cfg, jti, id, t).sessions
        == staged.sessions[jti := staged.sessions[jti].(replacedBy := Some(id))];
  }

  lemma ReplaceInv(s: State, cfg: Settings, jti: SessionId, id: SessionId, t: Reads)
    requires Inv(s) && Open(s, jti) && id !in s.issued
    ensures Inv(Replace(s, cfg, jti, id, t))
  {
    var user, family := s.sessions[jti].user, Family(s, jti);
    assert RowOk(s, jti) && IssueOk(s, jti);
    CloseInv(s, jti, t.check);
    var closed := Close(s, jti, t.check);
    StageLogged(closed, cfg, user, id, t.issue, family);
    StageChains(closed, cfg, user, id, t.issue, family);
    StageOpen(closed, cfg, user, id, t.issue, family);
    ReplaceIs(s, cfg, jti, id, t);
    LinkInv(Stage(closed, cfg, user, id, t.issue, family), Replace(s, cfg, jti, id, t), jti, id);
  }

  lemma LoginInv(s: State, cfg: Settings, user: UserId, id: SessionId, at: int)
    requires Inv(s) && id !in s.issued
    ensures Inv(LoginStep(s, cfg, user, id, at).0)
  {
    if user in s.users && s.users[user] {
      StageLogged(s, cfg, user, id, at, id);
      StageChains(s, cfg, user, id, at, id);
      forall a | Open(s, a) ensures Family(s, a) != id { assert RowOk(s, a) && IssueOk(s, a); }
      StageOpen(s, cfg, user, id, at, id);
    }
  }

  lemma RevokeAllInv(s: State, user: UserId, at: int)
    requires Inv(s)
    ensures Inv(s.(sessions := RevokeAll(s.sessions, user, at)))
  {
    RevokingInv(s, s.(sessions := RevokeAll(s.sessions, user, at)));
  }

  lemma RotateInv(s: State, cfg: Settings, token: RawToken, id: SessionId, t: Reads)
    requires Inv(s) && id !in s.issued
    ensures Inv(RotateStep(s, cfg, token, id, t).0)
  {
    hide Inv, Revoke, RevokeAll, Replace, Close;
    match Verify(s, cfg, token, t)
    case Unknown =>
    case Stale(jti) =>
      CloseInv(s, jti, t.check);
    case Live(jti) =>
      var row := s.sessions[jti];
      if row.revokedAt.Some? {
        RevokeAllInv(s, row.user, t.check);
      } else if !s.users[row.user] {
        CloseInv(s, jti, t.check);
      } else {
        ReplaceInv(s, cfg, jti, id, t);
      }
  }

  lemma LogoutInv(s: State, cfg: Settings, token: RawToken, t: Reads)
    requires Inv(s)
    ensures Inv(LogoutStep(s, cfg, token, t).0)
  {
    hide Inv, Close;
    var v := Verify(s, cfg, token, t);
    if !v.Unknown? {
      CloseInv(s, v.id, t.check);
    }
  }

  lemma UsersInv(s: State, s': State)
    requires Inv(s) && s'.sessions == s.sessions && s'.issued == s.issued && s'.next == s.next
    requires s'.users.Keys == s.users.Keys
    ensures Inv(s')
  {
    forall x | x in s'.issued ensures IssueOk(s', x) { assert IssueOk(s, x); }
    forall x | x in s'.sessions ensures RowOk(s', x) && LinkOk(s', x) { assert RowOk(s, x) && LinkOk(s, x); }
    forall a, target | LinksTo(s', a, target) ensures LinksTo(s, a, target) {}
    forall a | Open(s', a) ensures Open(s, a) && Family(s', a) == Family(s, a) {}
  }

  /** Every step keeps the invariant. */
  lemma StepInv(s: State, cfg: Settings, e: Event)
    requires Inv(s) && Enabled(s, cfg, e)
    ensures Inv(Step(s, cfg, e).0)
  {
    hide Inv;
    match e
    case Login(user, id, at) => LoginInv(s, cfg, user, id, at);
    case Rotate(token, id, t) => RotateInv(s, cfg, token, id, t);
    case Logout(token, t) => LogoutInv(s, cfg, token, t);
    case SetActive(user, active) => UsersInv(s, Step(s, cfg, e).0);
    case Purge(chosen, _) => DeleteInv(s, chosen);
  }

  /** ...and so does every run, from any state that satisfies it. */
  lemma {:induction false} RunInv(s: State, cfg: Settings, es: seq<Event>)
    requires Inv(s) && Runs(s, cfg, es)
    ensures Inv(After(s, cfg, es))
    decreases |es|
  {
    if es != [] {
      StepInv(s, cfg, es[0]);
      RunInv(Step(s, cfg, es[0]).0, cfg, es[1..]);
    }
  }

  /** Every state reachable from empty tables satisfies the invariant. */
  lemma ReachableInv(s: State, cfg: Settings, es: seq<Event>)
    requires Initial(s) && Runs(s, cfg, es)
    ensures Inv(After(s, cfg, es))
  {
    InitialInv(s);
    RunInv(s, cfg, es);
  }
}
