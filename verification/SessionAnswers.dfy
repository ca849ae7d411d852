/** Who is answered what: the outcome of every request in terms of the rows, the users and the clock
    alone, what it writes, and what follows for runs. */
module SessionAnswers {
  import opened Wrappers
  import opened Tokens
  import opened Sessions
  import opened SessionRuns

  // ---- The conditions ----

  /** Issued no later than now, give or take the leeway, and valid by now. */
  predicate Current(claims: Claims, cfg: Settings, now: int) {
    && claims.iat * 1_000_000 <= now + cfg.leewaySeconds * 1_000_000
    && (claims.nbf.Some? ==> claims.nbf.value * 1_000_000 <= now + cfg.leewaySeconds * 1_000_000)
  }

  /** The token is one that this table holds a row for. */
  predicate Recognised(s: State, cfg: Settings, token: RawToken, now: int) {
    && token.Verified? && Current(token.claims, cfg, now)
    && token.claims.jti in s.sessions && s.sessions[token.claims.jti].hash == token
  }

  function RowOf(s: State, token: RawToken): Session
    requires token.Verified? && token.claims.jti in s.sessions
  {
    s.sessions[token.claims.jti]
  }

  predicate ActiveUser(s: State, user: UserId) {
    user in s.users && s.users[user]
  }

  // ---- Rotation ----

  lemma VerifyIs(s: State, cfg: Settings, token: RawToken, t: Reads)
    requires Inv(s) && InOrder(t)
    ensures Verify(s, cfg, token, t)
            == if !Recognised(s, cfg, token, t.decode) then Unknown
               else if RowOf(s, token).expiresAt <= t.check then Stale(token.claims.jti) else Live(token.claims.jti)
  {
    SecondAttemptSucceeds(token, t.decode, t.again, cfg);
    if token.Verified? && token.claims.jti in s.sessions {
      assert RowOk(s, token.claims.jti) && IssueOk(s, token.claims.jti);
    }
  }

  lemma RowOfUser(s: State, cfg: Settings, token: RawToken, now: int)
    requires Inv(s) && Recognised(s, cfg, token, now)
    ensures RowOf(s, token).user in s.users && token.claims.sub == Some(RowOf(s, token).user)
  {
    assert RowOk(s, token.claims.jti) && IssueOk(s, token.claims.jti);
  }

  /** What a rotation answers. A new pair is issued if and only if the token belongs to a row that is
      neither expired nor revoked and whose user is active. */
  lemma RotateAnswers(s: State, cfg: Settings, token: RawToken, id: SessionId, t: Reads)
    requires Inv(s) && InOrder(t)
    ensures
      var answer := RotateStep(s, cfg, token, id, t).1;
      var known := Recognised(s, cfg, token, t.decode);
      && (answer == Refused(InvalidToken) <==> !known)
      && (answer == Refused(TokenExpired) <==> known && RowOf(s, token).expiresAt <= t.check)
      && (answer == Refused(TokenRevoked) <==>
            known && RowOf(s, token).expiresAt > t.check && RowOf(s, token).revokedAt.Some?)
      && (answer == Refused(UserInactive) <==>
            && known && RowOf(s, token).expiresAt > t.check && RowOf(s, token).revokedAt.None?
            && !ActiveUser(s, RowOf(s, token).user))
      && (answer.Issued? <==>
            && known && RowOf(s, token).expiresAt > t.check && RowOf(s, token).revokedAt.None?
            && ActiveUser(s, RowOf(s, token).user))
  {
    VerifyIs(s, cfg, token, t);
    if Recognised(s, cfg, token, t.decode) { RowOfUser(s, cfg, token, t.decode); }
    hide Verify, Inv, Recognised, Replace;
  }

  /** The token of a session issued at `at`: for whole seconds, until a lifetime later. */
  function TokenOf(cfg: Settings, user: UserId, id: SessionId, at: int): RawToken {
    Verified(Claims(Some(user), id, Refresh, at / 1_000_000, at / 1_000_000 + cfg.refreshSeconds, None), 0)
  }

  /** Its row. */
  function RowAt(cfg: Settings, user: UserId, id: SessionId, at: int): Session {
    Session(user, TokenOf(cfg, user, id, at), (at / 1_000_000 + cfg.refreshSeconds) * 1_000_000, None, None)
  }

  lemma IssuedRow(cfg: Settings, user: UserId, id: SessionId, at: int)
    ensures CreateRefresh(user, id, at, cfg) == TokenOf(cfg, user, id, at)
    ensures ExpiresAt(at, cfg) == RowAt(cfg, user, id, at).expiresAt
  {
    assert WholeSeconds(at) == 1_000_000 * (at / 1_000_000);
  }

  /** The given rows are revoked, those that already were keep their time, and nothing else changes. */
  ghost predicate OnlyRevokes(s: State, s': State, which: set<SessionId>, at: int) {
    && s' == s.(sessions := s'.sessions) && s'.sessions.Keys == s.sessions.Keys
    && forall x :: x in s.sessions ==>
         s'.sessions[x] == if x in which && s.sessions[x].revokedAt.None? then s.sessions[x].(revokedAt := Some(at))
                           else s.sessions[x]
  }

  function RowsOf(s: State, user: UserId): set<SessionId> {
    set x | x in s.sessions && s.sessions[x].user == user
  }

  /** What a rotation writes: nothing, the presented row's revocation, the revocation of all of the user's
      rows, or the replacement of the presented row by a new one. */
  lemma RotateWrites(s: State, cfg: Settings, token: RawToken, id: SessionId, t: Reads)
    requires Inv(s) && InOrder(t) && id !in s.issued
    ensures
      var (s', answer) := RotateStep(s, cfg, token, id, t);
      && (answer == Refused(InvalidToken) ==> s' == s)
      && (answer == Refused(TokenExpired) || answer == Refused(UserInactive) ==>
            OnlyRevokes(s, s', {token.claims.jti}, t.check))
      && (answer == Refused(TokenRevoked) ==> OnlyRevokes(s, s', RowsOf(s, RowOf(s, token).user), t.check))
      && (answer.Issued? ==>
            var user := RowOf(s, token).user;
            && answer == Issued(id, TokenOf(cfg, user, id, t.issue)) && id !in s.sessions && s'.users == s.users
            && s'.sessions == s.sessions[token.claims.jti := RowOf(s, token).(revokedAt := Some(t.check),
                                                                              replacedBy := Some(id))]
                                        [id := RowAt(cfg, user, id, t.issue)])
  {
    RotateAnswers(s, cfg, token, id, t);
    VerifyIs(s, cfg, token, t);
    if RotateStep(s, cfg, token, id, t).1.Issued? {
      var user := RowOf(s, token).user;
      IssuedRow(cfg, user, id, t.issue);
      assert id in s.sessions ==> RowOk(s, id);
      assert id != token.claims.jti;
    }
    hide Verify, Inv, CreateRefresh, ExpiresAt;
  }

  // ---- Login and logout ----

  lemma LoginAnswers(s: State, cfg: Settings, user: UserId, id: SessionId, at: int)
    requires Inv(s) && id !in s.issued
    ensures
      var (s', answer) := LoginStep(s, cfg, user, id, at);
      && (answer == Refused(InvalidCredentials) <==> user !in s.users)
      && (answer == Refused(UserInactive) <==> user in s.users && !s.users[user])
      && (answer == Issued(id, TokenOf(cfg, user, id, at)) <==> ActiveUser(s, user))
      && (!answer.Issued? ==> s' == s)
      && (answer.Issued? ==> id !in s.sessions && s'.users == s.users
                             && s'.sessions == s.sessions[id := RowAt(cfg, user, id, at)])
  {
    IssuedRow(cfg, user, id, at);
    assert id in s.sessions ==> RowOk(s, id);
    hide CreateRefresh, ExpiresAt, Inv;
  }

  lemma LogoutAnswers(s: State, cfg: Settings, token: RawToken, t: Reads)
    requires Inv(s) && InOrder(t)
    ensures
      var (s', answer) := LogoutStep(s, cfg, token, t);
      var known := Recognised(s, cfg, token, t.decode);
      && (answer == Refused(InvalidToken) <==> !known)
      && (answer == Refused(TokenExpired) <==> known && RowOf(s, token).expiresAt <= t.check)
      && (answer == LoggedOut <==> known && RowOf(s, token).expiresAt > t.check)
      && (if known then OnlyRevokes(s, s', {token.claims.jti}, t.check) else s' == s)
  {
    VerifyIs(s, cfg, token, t);
    hide Verify, Inv, Recognised;
  }

  /** Deactivation touches no session; a purge removes exactly the chosen rows and the links to them. */
  lemma OthersWrite(s: State, cfg: Settings, e: Event)
    ensures e.SetActive? ==>
              Step(s, cfg, e).0 == s.(users := if e.user in s.users then s.users[e.user := e.active] else s.users)
    ensures e.Purge? ==>
              var s' := Step(s, cfg, e).0;
              && s' == s.(sessions := s'.sessions) && s'.sessions.Keys == s.sessions.Keys - e.chosen
              && forall x :: x in s'.sessions ==>
                   var link := s.sessions[x].replacedBy;
                   s'.sessions[x]
                   == s.sessions[x].(replacedBy := if link.Some? && link.value in e.chosen then None else link)
  {}

  // ---- How long rows stay ----

  /** The event removes the row: a purge, after the row expired and the retention passed on top. */
  predicate Removes(s: State, cfg: Settings, e: Event, id: SessionId)
    requires id in s.sessions
  {
    e.Purge? && id in e.chosen && s.sessions[id].expiresAt + cfg.retentionSeconds * 1_000_000 < e.now
  }

  lemma RemovedByPurge(s: State, cfg: Settings, e: Event, id: SessionId)
    requires Inv(s) && Enabled(s, cfg, e) && id in s.sessions
    ensures id !in Step(s, cfg, e).0.sessions <==> Removes(s, cfg, e, id)
    ensures id in Step(s, cfg, e).0.sessions ==> Step(s, cfg, e).0.sessions[id].expiresAt == s.sessions[id].expiresAt
  {
    StepKeeps(s, cfg, e);
    assert RowOk(s, id);
    match e
    case Rotate(token, next, t) => RotateWrites(s, cfg, token, next, t);
    case Login(user, next, at) => LoginAnswers(s, cfg, user, next, at);
    case Logout(token, t) => LogoutAnswers(s, cfg, token, t);
    case SetActive(_, _) =>
    case Purge(_, _) =>
  }

  /** Some purge of the run takes the row, after its expiry and the retention. */
  ghost predicate PurgedLate(cfg: Settings, es: seq<Event>, id: SessionId, expiresAt: int) {
    exists i :: 0 <= i < |es| && es[i].Purge? && id in es[i].chosen
                && expiresAt + cfg.retentionSeconds * 1_000_000 < es[i].now
  }

  lemma PurgedLateNext(cfg: Settings, es: seq<Event>, id: SessionId, expiresAt: int)
    requires es != []
    ensures PurgedLate(cfg, es, id, expiresAt)
            <==> PurgedLate(cfg, [es[0]], id, expiresAt) || PurgedLate(cfg, es[1..], id, expiresAt)
  {
    if PurgedLate(cfg, [es[0]], id, expiresAt) { assert es[0] == [es[0]][0]; }
    if i :| 0 <= i < |es[1..]| && es[1..][i].Purge? && id in es[1..][i].chosen
            && expiresAt + cfg.retentionSeconds * 1_000_000 < es[1..][i].now {
      assert es[i + 1] == es[1..][i];
    }
    assert forall i :: 0 < i < |es| ==> es[i] == es[1..][i - 1];
    assert es[0] == [es[0]][0];
  }

  /** In any run a row stays if and only if no purge takes it that late. */
  lemma {:induction false} RowsAreRetained(s: State, cfg: Settings, es: seq<Event>, id: SessionId)
    requires Inv(s) && Runs(s, cfg, es) && id in s.sessions
    ensures id in After(s, cfg, es).sessions <==> !PurgedLate(cfg, es, id, s.sessions[id].expiresAt)
    decreases |es|
  {
    if es != [] {
      var s1 := Step(s, cfg, es[0]).0;
      assert id in s.issued by { assert RowOk(s, id); }
      RemovedByPurge(s, cfg, es[0], id);
      StepInv(s, cfg, es[0]);
      StepKeeps(s, cfg, es[0]);
      PurgedLateNext(cfg, es, id, s.sessions[id].expiresAt);
      RemovesIsLate(s, cfg, es[0], id);
      hide Step, Inv, Enabled, PurgedLate, Removes;
      if id in s1.sessions {
        RowsAreRetained(s1, cfg, es[1..], id);
      } else {
        RunKeeps(s1, cfg, es[1..]);
      }
    }
  }

  lemma RemovesIsLate(s: State, cfg: Settings, e: Event, id: SessionId)
    requires id in s.sessions
    ensures Removes(s, cfg, e, id) <==> PurgedLate(cfg, [e], id, s.sessions[id].expiresAt)
  {
    assert [e][0] == e;
  }

  // ---- A token nobody has touched rotates ----

  /** The event neither presents the token nor detects reuse by its user, removes its row or deactivates
      its user. */
  predicate Spares(s: State, cfg: Settings, e: Event, user: UserId, token: RawToken)
    requires token.Verified?
  {
    && Presented(e) != Some(token)
    && !(Step(s, cfg, e).1 == Refused(TokenRevoked) && Presented(e).value.claims.sub == Some(user))
    && (e.Purge? ==> token.claims.jti !in e.chosen)
    && e != SetActive(user, false)
  }

  predicate AllSpare(s: State, cfg: Settings, es: seq<Event>, user: UserId, token: RawToken)
    requires token.Verified?
    decreases |es|
  {
    es == [] || (Spares(s, cfg, es[0], user, token) && AllSpare(Step(s, cfg, es[0]).0, cfg, es[1..], user, token))
  }

  /** The token's row is there, not revoked, and its user active. */
  predicate Usable(s: State, user: UserId, token: RawToken) {
    && token.Verified? && token.claims.jti in s.sessions && RowOf(s, token).hash == token
    && RowOf(s, token).revokedAt.None? && RowOf(s, token).user == user && ActiveUser(s, user)
  }

  lemma OtherRotationSpares(s: State, cfg: Settings, e: Event, user: UserId, token: RawToken)
    requires Inv(s) && Enabled(s, cfg, e) && e.Rotate? && Usable(s, user, token) && Spares(s, cfg, e, user, token)
    ensures Usable(Step(s, cfg, e).0, user, token)
  {
    RotateAnswers(s, cfg, e.token, e.id, e.t);
    RotateWrites(s, cfg, e.token, e.id, e.t);
    OtherRow(s, cfg, e.token, e.t.decode, token);
    hide RotateStep, Inv;
  }

  /** Another recognised token is another row's, of the user it names. */
  lemma OtherRow(s: State, cfg: Settings, other: RawToken, now: int, token: RawToken)
    requires Inv(s) && token.Verified? && token.claims.jti in s.sessions && RowOf(s, token).hash == token
    requires other != token
    ensures Recognised(s, cfg, other, now) ==>
              other.claims.jti != token.claims.jti && other.claims.sub == Some(RowOf(s, other).user)
  {
    if Recognised(s, cfg, other, now) { RowOfUser(s, cfg, other, now); }
  }

  lemma StepSpares(s: State, cfg: Settings, e: Event, user: UserId, token: RawToken)
    requires Inv(s) && Enabled(s, cfg, e) && Usable(s, user, token) && Spares(s, cfg, e, user, token)
    ensures Usable(Step(s, cfg, e).0, user, token)
  {
    match e
    case Rotate(_, _, _) => OtherRotationSpares(s, cfg, e, user, token);
    case Login(other, id, at) => LoginAnswers(s, cfg, other, id, at);
    case Logout(other, t) =>
      LogoutAnswers(s, cfg, other, t);
      OtherRow(s, cfg, other, t.decode, token);
    case SetActive(_, _) =>
    case Purge(_, _) =>
  }

  lemma {:induction false} RunSpares(s: State, cfg: Settings, es: seq<Event>, user: UserId, token: RawToken)
    requires Inv(s) && Runs(s, cfg, es) && Usable(s, user, token) && AllSpare(s, cfg, es, user, token)
    ensures Usable(After(s, cfg, es), user, token) && Inv(After(s, cfg, es))
    decreases |es|
  {
    hide Step, Inv, Usable, Spares, Enabled;
    if es != [] {
      StepInv(s, cfg, es[0]);
      StepSpares(s, cfg, es[0], user, token);
      RunSpares(Step(s, cfg, es[0]).0, cfg, es[1..], user, token);
    }
  }

  /** A token from a login rotates at any time before its expiry, whatever else happens meanwhile, as long
      as it is not presented, its user not deactivated and no reuse detected. */
  lemma LoginTokenRotates(s: State, cfg: Settings, user: UserId, id: SessionId, at: int, es: seq<Event>,
                          next: SessionId, t: Reads)
    requires Inv(s) && Enabled(s, cfg, Login(user, id, at)) && ActiveUser(s, user)
    requires Runs(LoginStep(s, cfg, user, id, at).0, cfg, es)
    requires AllSpare(LoginStep(s, cfg, user, id, at).0, cfg, es, user, TokenOf(cfg, user, id, at))
    requires InOrder(t) && at <= t.decode && t.check < (at / 1_000_000 + cfg.refreshSeconds) * 1_000_000
    ensures var later := After(LoginStep(s, cfg, user, id, at).0, cfg, es);
            RotateStep(later, cfg, TokenOf(cfg, user, id, at), next, t).1.Issued?
  {
    var token, s1 := TokenOf(cfg, user, id, at), LoginStep(s, cfg, user, id, at).0;
    LoginAnswers(s, cfg, user, id, at);
    StepInv(s, cfg, Login(user, id, at));
    RunSpares(s1, cfg, es, user, token);
    var s2 := After(s1, cfg, es);
    assert at / 1_000_000 * 1_000_000 <= at;
    RotateAnswers(s2, cfg, token, next, t);
    assert RowOk(s2, id);
    hide Inv, LoginStep, RotateStep, After, Runs, AllSpare;
  }

  // ---- Sessions are bounded by logins ----

  predicate LogsIn(e: Event, answer: Outcome, user: UserId) {
    e.Login? && e.user == user && answer.Issued?
  }

  function LoginCount(es: seq<Event>, answers: seq<Outcome>, user: UserId): nat
    requires |es| == |answers|
  {
    if es == [] then 0
    else LoginCount(es[1..], answers[1..], user) + if LogsIn(es[0], answers[0], user) then 1 else 0
  }

  lemma StepLogins(s: State, cfg: Settings, e: Event, user: UserId)
    requires Inv(s) && Enabled(s, cfg, e)
    ensures LoginsOf(Step(s, cfg, e).0, user)
            == LoginsOf(s, user) + if LogsIn(e, Step(s, cfg, e).1, user) then {e.id} else {}
    ensures LogsIn(e, Step(s, cfg, e).1, user) ==> e.id !in LoginsOf(s, user)
  {
    if e.Rotate? { RotationIsNoLogin(s, cfg, e.token, e.id, e.t, user); }
    hide Inv, Verify, CreateRefresh, RotateStep;
  }

  lemma RotationIsNoLogin(s: State, cfg: Settings, token: RawToken, id: SessionId, t: Reads, user: UserId)
    requires Inv(s) && id !in s.issued
    ensures LoginsOf(RotateStep(s, cfg, token, id, t).0, user) == LoginsOf(s, user)
  {
    var v := Verify(s, cfg, token, t);
    if v.Live? { assert RowOk(s, v.id) && IssueOk(s, v.id); }
    hide Verify, CreateRefresh, Inv;
  }

  lemma {:induction false} RunLogins(s: State, cfg: Settings, es: seq<Event>, user: UserId)
    requires Inv(s) && Runs(s, cfg, es)
    ensures |LoginsOf(After(s, cfg, es), user)| == |LoginsOf(s, user)| + LoginCount(es, Outcomes(s, cfg, es), user)
    decreases |es|
  {
    hide Inv, Step, Enabled, LoginsOf, LogsIn;
    if es != [] {
      StepInv(s, cfg, es[0]);
      StepLogins(s, cfg, es[0], user);
      RunLogins(Step(s, cfg, es[0]).0, cfg, es[1..], user);
    }
  }

  /** In any run from empty tables a user never has more open sessions than logins that were granted. */
  lemma OpenBoundedByRun(s: State, cfg: Settings, es: seq<Event>, user: UserId)
    requires Initial(s) && Runs(s, cfg, es)
    ensures |OpenOf(After(s, cfg, es), user)| <= LoginCount(es, Outcomes(s, cfg, es), user)
  {
    InitialInv(s);
    RunInv(s, cfg, es);
    RunLogins(s, cfg, es, user);
    OpenBoundedByLogins(After(s, cfg, es), user);
    assert LoginsOf(s, user) == {};
  }

  // ---- A deactivated user gets nothing ----

  /** The user an event would issue a session to. */
  predicate AsksFor(e: Event, user: UserId) {
    || (e.Login? && e.user == user)
    || (e.Rotate? && e.token.Verified? && e.token.claims.sub == Some(user))
  }

  lemma StepUsers(s: State, cfg: Settings, e: Event)
    ensures Step(s, cfg, e).0.users
            == if e.SetActive? && e.user in s.users then s.users[e.user := e.active] else s.users
  {
    hide Verify, CreateRefresh;
  }

  lemma InactiveIsRefused(s: State, cfg: Settings, e: Event, user: UserId)
    requires Inv(s) && Enabled(s, cfg, e) && !ActiveUser(s, user) && AsksFor(e, user)
    ensures !Step(s, cfg, e).1.Issued?
  {
    if e.Rotate? {
      RotateAnswers(s, cfg, e.token, e.id, e.t);
      if Recognised(s, cfg, e.token, e.t.decode) { RowOfUser(s, cfg, e.token, e.t.decode); }
      hide RotateStep, Inv;
    }
  }

  /** From the moment a user is deactivated until somebody activates them again, no login and no rotation
      issues anything for them. */
  lemma {:induction false} DeactivatedGetNothing(s: State, cfg: Settings, es: seq<Event>, user: UserId, i: nat)
    requires Inv(s) && Runs(s, cfg, es) && !ActiveUser(s, user)
    requires i < |es| && AsksFor(es[i], user)
    requires forall k :: 0 <= k < i ==> es[k] != SetActive(user, true)
    ensures !Outcomes(s, cfg, es)[i].Issued?
    decreases |es|
  {
    hide Step, Inv, Enabled;
    if i == 0 {
      InactiveIsRefused(s, cfg, es[0], user);
    } else {
      StepInv(s, cfg, es[0]);
      StepUsers(s, cfg, es[0]);
      assert es[0] != SetActive(user, true);
      DeactivatedGetNothing(Step(s, cfg, es[0]).0, cfg, es[1..], user, i - 1);
    }
  }

  // ---- A well-behaved client stays logged in ----

  /** Each rotation presents the token the one before gave, while it is current and before it expires. */
  predicate Relay(cfg: Settings, user: UserId, id: SessionId, at: int, es: seq<Event>)
    decreases |es|
  {
    es == []
    || (&& es[0].Rotate? && es[0].token == TokenOf(cfg, user, id, at) && InOrder(es[0].t)
        && at <= es[0].t.decode && es[0].t.check < (at / 1_000_000 + cfg.refreshSeconds) * 1_000_000
        && Relay(cfg, user, es[0].id, es[0].t.issue, es[1..]))
  }

  /** A client that always presents the latest token in time is never refused. */
  lemma {:induction false} RelaySucceeds(s: State, cfg: Settings, user: UserId, id: SessionId, at: int, es: seq<Event>)
    requires Inv(s) && Runs(s, cfg, es) && Relay(cfg, user, id, at, es)
    requires Usable(s, user, TokenOf(cfg, user, id, at))
    ensures forall i :: 0 <= i < |es| ==> Outcomes(s, cfg, es)[i].Issued?
    decreases |es|
  {
    if es != [] {
      var s1 := Step(s, cfg, es[0]).0;
      RelayStep(s, cfg, user, id, at, es[0]);
      StepInv(s, cfg, es[0]);
      hide Step, Inv, Usable;
      RelaySucceeds(s1, cfg, user, es[0].id, es[0].t.issue, es[1..]);
    }
  }

  lemma RelayStep(s: State, cfg: Settings, user: UserId, id: SessionId, at: int, e: Event)
    requires Inv(s) && Enabled(s, cfg, e) && Relay(cfg, user, id, at, [e])
    requires Usable(s, user, TokenOf(cfg, user, id, at))
    ensures Step(s, cfg, e).1.Issued? && Usable(Step(s, cfg, e).0, user, TokenOf(cfg, user, e.id, e.t.issue))
  {
    assert at / 1_000_000 * 1_000_000 <= at;
    RotateAnswers(s, cfg, e.token, e.id, e.t);
    RotateWrites(s, cfg, e.token, e.id, e.t);
    assert RowOk(s, id);
    hide Inv, RotateStep;
  }
}
