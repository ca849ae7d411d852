/** The refresh-session functions as they run: statement by statement on the tables of one
    transaction. Each method is proved to perform the atomic step of the same name. */
module RefreshStore {
  import opened Wrappers
  import opened Tokens
  import opened Sessions

  class Store {
    const cfg: Settings
    var users: map<UserId, bool>
    var sessions: map<SessionId, Session>
    var issued: map<SessionId, Issue>
    var next: nat

    constructor (cfg: Settings, users: map<UserId, bool>)
      ensures this.cfg == cfg && Tables() == State(users, map[], map[], 0)
      ensures Initial(Tables()) && Inv(Tables())
    {
      this.cfg := cfg;
      this.users, sessions, issued, next := users, map[], map[], 0;
    }

    ghost function Tables(): State
      reads this
    {
      State(users, sessions, issued, next)
    }

    /** Stages a row whose digest and expiry belong to the token it returns. */
    method IssueTokenPairForLockedUser(user: UserId, id: SessionId, now: int, family: SessionId)
      returns (token: RawToken)
      modifies this`sessions, this`issued, this`next
      ensures Tables() == Stage(old(Tables()), cfg, user, id, now, family)
      ensures token == CreateRefresh(user, id, now, cfg) && sessions[id].hash == token
    {
      token := CreateRefresh(user, id, now, cfg);
      sessions := sessions[id := Session(user, token, ExpiresAt(now, cfg), None, None)];
      issued := issued[id := Issue(next, user, family)];
      next := next + 1;
    }

    /** Decode, lock, compare and check expiry; an expired session is revoked on the way out. */
    method LoadVerifiedRefreshSession(token: RawToken, t: Reads) returns (error: Option<Code>, jti: SessionId)
      modifies this`sessions
      ensures match Verify(old(Tables()), cfg, token, t)
        case Unknown => error == Some(InvalidToken) && Tables() == old(Tables())
        case Stale(id) => error == Some(TokenExpired) && Tables() == Close(old(Tables()), id, t.check)
        case Live(id) => error == None && jti == id && Tables() == old(Tables())
    {
      jti := 0;
      var decoded := DecodeRefreshClaims(token, t.decode, t.again, cfg);
      if decoded.Bad? {
        return Some(InvalidToken), jti;
      }
      var claims := decoded.claims;
      if claims.sub.None? || claims.sub.value !in users {
        return Some(InvalidToken), jti;
      }
      jti := claims.jti;
      if jti !in sessions || sessions[jti].user != claims.sub.value || sessions[jti].hash != token {
        return Some(InvalidToken), jti;
      }
      if decoded.wasExpired || sessions[jti].expiresAt <= t.check {
        if sessions[jti].revokedAt.None? {
          sessions := sessions[jti := sessions[jti].(revokedAt := Some(t.check))];
        }
        assert Tables() == Close(old(Tables()), jti, t.check);
        return Some(TokenExpired), jti;
      }
      return None, jti;
    }

    method RotateRefreshSession(token: RawToken, id: SessionId, t: Reads) returns (outcome: Outcome)
      requires id !in issued && id !in sessions
      modifies this`sessions, this`issued, this`next
      ensures (Tables(), outcome) == RotateStep(old(Tables()), cfg, token, id, t)
    {
      var error, jti := LoadVerifiedRefreshSession(token, t);
      if error.Some? {
        return Refused(error.value);
      }
      var user := sessions[jti].user;
      if sessions[jti].revokedAt.Some? {
        sessions := RevokeAll(sessions, user, t.check);
        return Refused(TokenRevoked);
      }
      sessions := sessions[jti := sessions[jti].(revokedAt := Some(t.check))];
      if !users[user] {
        return Refused(UserInactive);
      }
      var family := if jti in issued then issued[jti].family else jti;
      var replacement := IssueTokenPairForLockedUser(user, id, t.issue, family);
      sessions := sessions[jti := sessions[jti].(replacedBy := Some(id))];
      assert sessions == Replace(old(Tables()), cfg, jti, id, t).sessions;
      return Issued(id, replacement);
    }

    method LogoutRefreshSession(token: RawToken, t: Reads) returns (outcome: Outcome)
      modifies this`sessions
      ensures (Tables(), outcome) == LogoutStep(old(Tables()), cfg, token, t)
    {
      var error, jti := LoadVerifiedRefreshSession(token, t);
      if error.Some? {
        return Refused(error.value);
      }
      if sessions[jti].revokedAt.None? {
        sessions := sessions[jti := sessions[jti].(revokedAt := Some(t.check))];
      }
      assert sessions == Close(old(Tables()), jti, t.check).sessions;
      return LoggedOut;
    }

    /** SELECT ... FOR UPDATE on the user row: by the time the lock is granted, other transactions have
        committed `granted`, and the user is read again from it. */
    method LockUser(user: UserId, granted: State) returns (locked: Option<bool>)
      modifies this`users, this`sessions, this`issued, this`next
      ensures Tables() == granted
      ensures locked == if user in granted.users then Some(granted.users[user]) else None
    {
      users, sessions, issued, next := granted.users, granted.sessions, granted.issued, granted.next;
      locked := if user in users then Some(users[user]) else None;
    }

    /** Credentials are checked on an unlocked read, whether the user exists and is active on the locked
        one. Whatever happens in between, this is the atomic login on the tables under the lock, or a
        refusal before it. */
    method Login(user: UserId, passwordMatches: bool, id: SessionId, now: int, granted: State)
      returns (outcome: Outcome)
      modifies this`users, this`sessions, this`issued, this`next
      ensures user in old(users) && passwordMatches ==> (Tables(), outcome) == LoginStep(granted, cfg, user, id, now)
      ensures !(user in old(users) && passwordMatches) ==>
                Tables() == old(Tables()) && outcome == Refused(InvalidCredentials)
    {
      var found := user in users;
      if !found || !passwordMatches {
        return Refused(InvalidCredentials);
      }
      var locked := LockUser(user, granted);
      if locked.None? {
        return Refused(InvalidCredentials);
      }
      if !locked.value {
        return Refused(UserInactive);
      }
      var token := IssueTokenPairForLockedUser(user, id, now, id);
      return Issued(id, token);
    }
  }
}
