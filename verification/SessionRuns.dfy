/** What the rotation protocol guarantees over whole runs. */
module SessionRuns {
  import opened Wrappers
  import opened Tokens
  import opened Sessions

  // ---- Write-once revocation and one-shot rotation ----

  /** What no step may do to a row that stays in the table. */
  ghost predicate Keeps(s: State, s': State) {
    && (forall id :: id in s.issued ==> id in s'.issued && s'.issued[id] == s.issued[id])
    && s.next <= s'.next
    && (forall id :: id in s'.sessions && id in s.issued ==>
          && id in s.sessions
          && s'.sessions[id].user == s.sessions[id].user
          && s'.sessions[id].hash == s.sessions[id].hash
          && s'.sessions[id].expiresAt == s.sessions[id].expiresAt
          && (s.sessions[id].revokedAt.Some? ==> s'.sessions[id].revokedAt == s.sessions[id].revokedAt))
  }

  /** A session that did not exist before is a new login's, or continues an open one. */
  ghost predicate Newcomers(s: State, s': State) {
    forall id :: id in s'.sessions && id !in s.issued ==>
      && id in s'.issued
      && ((Family(s', id) == id && s'.issued[id].no >= s.next)
          || exists j :: Open(s, j) && s.sessions[j].user == s'.sessions[id].user && Family(s, j) == Family(s', id))
  }

  lemma SameLog(s: State, s': State)
    requires Inv(s) && s'.issued == s.issued && s'.next == s.next && Tightens(s, s')
    ensures Keeps(s, s') && Newcomers(s, s')
  {
    forall id | id in s.sessions ensures id in s.issued { assert RowOk(s, id); }
  }

  lemma StageKeeps(s: State, cfg: Settings, user: UserId, id: SessionId, at: int)
    requires Inv(s) && id !in s.issued
    ensures Keeps(s, Stage(s, cfg, user, id, at, id)) && Newcomers(s, Stage(s, cfg, user, id, at, id))
  {
    forall x | x in s.sessions ensures x in s.issued { assert RowOk(s, x); }
  }

  lemma ReplaceKeeps(s: State, cfg: Settings, jti: SessionId, id: SessionId, t: Reads)
    requires Inv(s) && id !in s.issued && Open(s, jti)
    ensures Keeps(s, Replace(s, cfg, jti, id, t)) && Newcomers(s, Replace(s, cfg, jti, id, t))
  {
    forall x | x in s.sessions ensures x in s.issued { assert RowOk(s, x); }
    assert Family(Replace(s, cfg, jti, id, t), id) == Family(s, jti);
  }

  lemma RotateKeeps(s: State, cfg: Settings, token: RawToken, id: SessionId, t: Reads)
    requires Inv(s) && id !in s.issued
    ensures Keeps(s, RotateStep(s, cfg, token, id, t).0) && Newcomers(s, RotateStep(s, cfg, token, id, t).0)
  {
    hide Keeps, Newcomers, Inv, Replace;
    var v := Verify(s, cfg, token, t);
    if v.Live? && Open(s, v.id) && s.users[s.sessions[v.id].user] {
      ReplaceKeeps(s, cfg, v.id, id, t);
    } else {
      SameLog(s, RotateStep(s, cfg, token, id, t).0);
    }
  }

  lemma StepKeeps(s: State, cfg: Settings, e: Event)
    requires Inv(s) && Enabled(s, cfg, e)
    ensures Keeps(s, Step(s, cfg, e).0) && Newcomers(s, Step(s, cfg, e).0)
  {
    hide Keeps, Newcomers, Inv;
    match e
    case Login(user, id, at) =>
      if user in s.users && s.users[user] { StageKeeps(s, cfg, user, id, at); } else { SameLog(s, s); }
    case Rotate(token, id, t) => RotateKeeps(s, cfg, token, id, t);
    case Logout(token, t) => SameLog(s, LogoutStep(s, cfg, token, t).0);
    case SetActive(user, active) => UserKeeps(s, Step(s, cfg, e).0);
    case Purge(_, _) => SameLog(s, Step(s, cfg, e).0);
  }

  lemma UserKeeps(s: State, s': State)
    requires Inv(s) && s' == s.(users := s'.users)
    ensures Keeps(s, s') && Newcomers(s, s')
  {
    forall id | id in s.sessions ensures id in s.issued { assert RowOk(s, id); }
  }

  /** `revoked_at` is written once: over any run, a row that is still there keeps the value. A row
      that was removed never comes back. */
  lemma {:induction false} RunKeeps(s: State, cfg: Settings, es: seq<Event>)
    requires Inv(s) && Runs(s, cfg, es)
    ensures Keeps(s, After(s, cfg, es))
    decreases |es|
  {
    if es != [] {
      var s1 := Step(s, cfg, es[0]).0;
      StepKeeps(s, cfg, es[0]);
      StepInv(s, cfg, es[0]);
      RunKeeps(s1, cfg, es[1..]);
    }
  }

  /** The token's session was issued and is revoked or gone. */
  predicate Spent(s: State, token: RawToken) {
    token.Verified? && token.claims.jti in s.issued && !Open(s, token.claims.jti)
  }

  lemma SpentStays(s: State, s': State, token: RawToken)
    requires Keeps(s, s') && Spent(s, token)
    ensures Spent(s', token)
  {}

  lemma SpentIsRefused(s: State, cfg: Settings, token: RawToken, id: SessionId, t: Reads)
    requires Spent(s, token)
    ensures !RotateStep(s, cfg, token, id, t).1.Issued?
  {}

  /** The token an event presents. */
  function Presented(e: Event): Option<RawToken> {
    match e
    case Rotate(token, _, _) => Some(token)
    case Logout(token, _) => Some(token)
    case _ => None
  }

  /** Whatever the answer to a presented token, except INVALID_TOKEN, the token is spent: success,
      expiry, reuse, an inactive user and logout all leave its session revoked. */
  lemma PresentingSpends(s: State, cfg: Settings, e: Event)
    requires Inv(s) && Enabled(s, cfg, e) && Presented(e).Some?
    requires Step(s, cfg, e).1 != Refused(InvalidToken)
    ensures Spent(Step(s, cfg, e).0, Presented(e).value)
    ensures Presented(e).value.claims.jti in s.issued
  {
    var jti := Verify(s, cfg, Presented(e).value, e.t).id;
    assert RowOk(s, jti);
  }

  /** A spent token never rotates again. */
  lemma {:induction false} SpentForever(s: State, cfg: Settings, es: seq<Event>, token: RawToken, j: nat)
    requires Inv(s) && Runs(s, cfg, es) && Spent(s, token)
    requires j < |es| && es[j].Rotate? && es[j].token == token
    ensures !Outcomes(s, cfg, es)[j].Issued?
    decreases |es|
  {
    if j == 0 {
      SpentIsRefused(s, cfg, token, es[0].id, es[0].t);
    } else {
      var s1 := Step(s, cfg, es[0]).0;
      StepKeeps(s, cfg, es[0]);
      SpentStays(s, s1, token);
      StepInv(s, cfg, es[0]);
      SpentForever(s1, cfg, es[1..], token, j - 1);
    }
  }

  /** In any run, a token that was answered with anything but INVALID_TOKEN, by a rotation or by a
      logout, never rotates afterwards. */
  lemma {:induction false} AnsweredNeverRotates(s: State, cfg: Settings, es: seq<Event>, i: nat, j: nat)
    requires Inv(s) && Runs(s, cfg, es)
    requires i < j < |es| && Presented(es[i]).Some? && es[j].Rotate? && Presented(es[i]) == Some(es[j].token)
    requires Outcomes(s, cfg, es)[i] != Refused(InvalidToken)
    ensures !Outcomes(s, cfg, es)[j].Issued?
    decreases |es|
  {
    var s1 := Step(s, cfg, es[0]).0;
    StepInv(s, cfg, es[0]);
    if i == 0 {
      PresentingSpends(s, cfg, es[0]);
      SpentForever(s1, cfg, es[1..], es[j].token, j - 1);
    } else {
      AnsweredNeverRotates(s1, cfg, es[1..], i - 1, j - 1);
    }
  }

  /** Each token rotates successfully at most once in any run. */
  lemma RotatesAtMostOnce(s: State, cfg: Settings, es: seq<Event>, i: nat, j: nat)
    requires Inv(s) && Runs(s, cfg, es)
    requires i < j < |es| && es[i].Rotate? && es[j].Rotate? && es[i].token == es[j].token
    requires Outcomes(s, cfg, es)[i].Issued?
    ensures !Outcomes(s, cfg, es)[j].Issued?
  {
    AnsweredNeverRotates(s, cfg, es, i, j);
  }

  // ---- Reuse detection ----

  /** Every open session of the user belongs to a login numbered `cut` or later. */
  ghost predicate Barred(s: State, user: UserId, cut: nat) {
    forall id :: Open(s, id) && s.sessions[id].user == user ==> id in s.issued && Family(s, id) in s.issued
                                                                && s.issued[Family(s, id)].no >= cut
  }

  lemma StepBars(s: State, s': State, user: UserId, cut: nat)
    requires Logged(s') && Keeps(s, s') && Newcomers(s, s') && Barred(s, user, cut) && cut <= s.next
    ensures Barred(s', user, cut)
  {
    forall id | Open(s', id) && s'.sessions[id].user == user
      ensures id in s'.issued && Family(s', id) in s'.issued && s'.issued[Family(s', id)].no >= cut
    {
      assert RowOk(s', id) && IssueOk(s', id);
      hide Logged;
      if id in s.issued {
        assert Open(s, id) && Family(s', id) == Family(s, id);
      } else if !(Family(s', id) == id && s'.issued[id].no >= s.next) {
        var j :| Open(s, j) && s.sessions[j].user == user && Family(s, j) == Family(s', id);
        assert s.issued[Family(s, j)].no >= cut;
      }
    }
  }

  lemma {:induction false} RunBars(s: State, cfg: Settings, es: seq<Event>, user: UserId, cut: nat)
    requires Inv(s) && Runs(s, cfg, es) && Barred(s, user, cut) && cut <= s.next
    ensures Barred(After(s, cfg, es), user, cut)
    decreases |es|
  {
    if es != [] {
      var s1 := Step(s, cfg, es[0]).0;
      StepInv(s, cfg, es[0]);
      StepKeeps(s, cfg, es[0]);
      StepBars(s, s1, user, cut);
      RunBars(s1, cfg, es[1..], user, cut);
    }
  }

  /** The token belongs to an issuance of the user numbered below `cut`. */
  predicate IssuedBefore(s: State, user: UserId, cut: nat, token: RawToken) {
    && token.Verified? && token.claims.jti in s.issued
    && s.issued[token.claims.jti].user == user && s.issued[token.claims.jti].no < cut
  }

  lemma BarredIsSpent(s: State, user: UserId, cut: nat, token: RawToken)
    requires Inv(s) && Barred(s, user, cut) && IssuedBefore(s, user, cut, token)
    ensures Spent(s, token)
  {
    var jti := token.claims.jti;
    assert IssueOk(s, jti);
    assert jti in s.sessions ==> RowOk(s, jti);
  }

  lemma {:induction false} BarredForever(s: State, cfg: Settings, es: seq<Event>, user: UserId, cut: nat, j: nat)
    requires Inv(s) && Runs(s, cfg, es) && Barred(s, user, cut) && cut <= s.next
    requires j < |es| && es[j].Rotate? && IssuedBefore(s, user, cut, es[j].token)
    ensures !Outcomes(s, cfg, es)[j].Issued?
    decreases |es|
  {
    if j == 0 {
      BarredIsSpent(s, user, cut, es[0].token);
      SpentIsRefused(s, cfg, es[0].token, es[0].id, es[0].t);
    } else {
      var s1 := Step(s, cfg, es[0]).0;
      StepInv(s, cfg, es[0]);
      StepKeeps(s, cfg, es[0]);
      StepBars(s, s1, user, cut);
      BarredForever(s1, cfg, es[1..], user, cut, j - 1);
    }
  }

  /** Reuse detection is permanent. Once a rotation answers TOKEN_REVOKED: the user has no open
      session; no token of that user issued so far rotates in any continuation; and any session
      that is open later descends from a login made after the detection. */
  lemma ReuseIsPermanent(s: State, cfg: Settings, token: RawToken, id: SessionId, t: Reads, es: seq<Event>)
    requires Inv(s) && Enabled(s, cfg, Rotate(token, id, t))
    requires RotateStep(s, cfg, token, id, t).1 == Refused(TokenRevoked)
    requires Runs(RotateStep(s, cfg, token, id, t).0, cfg, es)
    ensures var user := s.sessions[Verify(s, cfg, token, t).id].user;
            var s' := RotateStep(s, cfg, token, id, t).0;
            && (forall x :: Open(s', x) ==> s'.sessions[x].user != user)
            && (forall j :: 0 <= j < |es| && es[j].Rotate? && IssuedBefore(s', user, s'.next, es[j].token) ==>
                  !Outcomes(s', cfg, es)[j].Issued?)
            && Barred(After(s', cfg, es), user, s'.next)
  {
    var user := s.sessions[Verify(s, cfg, token, t).id].user;
    var s' := RotateStep(s, cfg, token, id, t).0;
    StepInv(s, cfg, Rotate(token, id, t));
    assert forall x :: Open(s', x) ==> s'.sessions[x].user != user;
    RunBars(s', cfg, es, user, s'.next);
    forall j | 0 <= j < |es| && es[j].Rotate? && IssuedBefore(s', user, s'.next, es[j].token)
      ensures !Outcomes(s', cfg, es)[j].Issued?
    {
      BarredForever(s', cfg, es, user, s'.next, j);
    }
  }

  // ---- Chains ----

  /** The session reached by following `replaced_by` n times. */
  function Follow(s: State, id: SessionId, n: nat): Option<SessionId> {
    if n == 0 then Some(id)
    else
      var previous := Follow(s, id, n - 1);
      if previous.None? || previous.value !in s.sessions then None
      else s.sessions[previous.value].replacedBy
  }

  /** In every reachable state links lead strictly forward along one login's chain, so they form no
      cycle; every session with a successor is revoked, so only the end of a chain can be open. */
  lemma {:induction false} ChainsAscend(s: State, id: SessionId, n: nat)
    requires Inv(s) && id in s.sessions && n > 0 && Follow(s, id, n).Some?
    ensures var target := Follow(s, id, n).value;
            && target in s.sessions && s.issued[id].no < s.issued[target].no && target != id
            && Family(s, target) == Family(s, id) && s.sessions[target].user == s.sessions[id].user
            && !Open(s, id)
  {
    var previous := Follow(s, id, n - 1).value;
    if n > 1 { ChainsAscend(s, id, n - 1); }
    assert LinkOk(s, previous) && RowOk(s, id);
  }

  /** No two sessions share a successor. */
  lemma {:induction false} ChainsDisjoint(s: State, a: SessionId, b: SessionId, m: nat, n: nat)
    requires Inv(s) && a in s.sessions && b in s.sessions && m <= n
    requires Follow(s, a, m).Some? && Follow(s, a, m) == Follow(s, b, n)
    ensures Follow(s, b, n - m) == Some(a)
  {
    if m > 0 {
      var x, y := Follow(s, a, m - 1).value, Follow(s, b, n - 1).value;
      assert LinksTo(s, x, Follow(s, a, m).value) && LinksTo(s, y, Follow(s, a, m).value);
      ChainsDisjoint(s, a, b, m - 1, n - 1);
    }
  }

  // ---- Counting ----

  function OpenOf(s: State, user: UserId): set<SessionId> {
    set id | id in s.sessions && Open(s, id) && s.sessions[id].user == user
  }

  function LoginsOf(s: State, user: UserId): set<SessionId> {
    set id | id in s.issued && s.issued[id].user == user && s.issued[id].family == id
  }

  lemma {:induction false} InjectionBounds(s: State, from: set<SessionId>, into: set<SessionId>)
    requires forall a :: a in from ==> Family(s, a) in into
    requires forall a, b :: a in from && b in from && Family(s, a) == Family(s, b) ==> a == b
    ensures |from| <= |into|
    decreases |from|
  {
    if from != {} {
      var a :| a in from;
      InjectionBounds(s, from - {a}, into - {Family(s, a)});
    }
  }

  /** A user never has more open sessions than logins. */
  lemma OpenBoundedByLogins(s: State, user: UserId)
    requires Inv(s)
    ensures |OpenOf(s, user)| <= |LoginsOf(s, user)|
  {
    forall a | a in OpenOf(s, user) ensures Family(s, a) in LoginsOf(s, user) {
      assert RowOk(s, a) && IssueOk(s, a);
    }
    forall a, b | a in OpenOf(s, user) && b in OpenOf(s, user) && Family(s, a) == Family(s, b) ensures a == b {
      assert Open(s, a) && Open(s, b);
    }
    InjectionBounds(s, OpenOf(s, user), LoginsOf(s, user));
  }

  // ---- Expiry ----

  /** The expiry test made while decoding, before any lock, never disagrees with the one made on the
      row: whatever the first calls expired is expired when the row is checked. */
  lemma EarlyExpiryAgrees(s: State, cfg: Settings, token: RawToken, t: Reads)
    requires Inv(s) && InOrder(t)
    ensures var v := Verify(s, cfg, token, t);
            !v.Unknown? ==> (v.Stale? <==> s.sessions[v.id].expiresAt <= t.check)
  {
    SecondAttemptSucceeds(token, t.decode, t.again, cfg);
    var v := Verify(s, cfg, token, t);
    if !v.Unknown? { assert RowOk(s, v.id); }
  }

  // ---- Other users ----

  /** The user whose row a request locks; None when it stops before the lock. */
  function Actor(s: State, cfg: Settings, e: Event): Option<UserId> {
    match e
    case Login(user, _, _) => Some(user)
    case Rotate(token, _, t) =>
      var v := Verify(s, cfg, token, t);
      if v.Unknown? then None else Some(s.sessions[v.id].user)
    case Logout(token, t) =>
      var v := Verify(s, cfg, token, t);
      if v.Unknown? then None else Some(s.sessions[v.id].user)
    case _ => None
  }

  /** A request changes rows of the locked user only, and adds only rows of that user. */
  ghost predicate OnlyRowsOf(s: State, s': State, actor: Option<UserId>) {
    && (forall id :: id in s.sessions && Some(s.sessions[id].user) != actor ==>
          id in s'.sessions && s'.sessions[id] == s.sessions[id])
    && (forall id :: id in s'.sessions && Some(s'.sessions[id].user) != actor ==> id in s.sessions)
  }

  lemma RotateTouchesOwn(s: State, cfg: Settings, token: RawToken, id: SessionId, t: Reads)
    requires Inv(s) && id !in s.issued
    ensures OnlyRowsOf(s, RotateStep(s, cfg, token, id, t).0, Actor(s, cfg, Rotate(token, id, t)))
  {
    assert id in s.sessions ==> RowOk(s, id);
  }

  lemma OthersUntouched(s: State, cfg: Settings, e: Event)
    requires Inv(s) && Enabled(s, cfg, e) && !e.Purge?
    ensures OnlyRowsOf(s, Step(s, cfg, e).0, Actor(s, cfg, e))
  {
    match e
    case Rotate(token, id, t) =>
      hide Inv, Enabled, OnlyRowsOf;
      RotateTouchesOwn(s, cfg, token, id, t);
    case Login(user, id, at) => assert id in s.sessions ==> RowOk(s, id);
    case Logout(token, t) =>
    case _ =>
  }
}
