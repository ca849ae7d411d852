/** The retention purge cannot be observed, except that a token past retention is called invalid
    instead of expired. */
module PurgeInvisible {
  import opened Wrappers
  import opened Tokens
  import opened Sessions

  function Start(e: Event): int {
    match e
    case Login(_, _, at) => at
    case Rotate(_, _, t) => t.check
    case Logout(_, t) => t.check
    case Purge(_, now) => now
    case SetActive(_, _) => 0
  }

  /** Requests are served in the order of their clock readings. */
  predicate Timely(now: int, es: seq<Event>)
    decreases |es|
  {
    es == []
    || (if es[0].SetActive? then Timely(now, es[1..])
        else now <= Start(es[0]) && Timely(Start(es[0]), es[1..]))
  }

  function Erase(es: seq<Event>): seq<Event>
    decreases |es|
  {
    if es == [] then []
    else if es[0].Purge? then Erase(es[1..])
    else [es[0]] + Erase(es[1..])
  }

  /** What the clients saw: the outcomes of everything but the purges. */
  function Seen(s: State, cfg: Settings, es: seq<Event>): seq<Outcome>
    decreases |es|
  {
    if es == [] then []
    else
      var (s', o) := Step(s, cfg, es[0]);
      if es[0].Purge? then Seen(s', cfg, es[1..]) else [o] + Seen(s', cfg, es[1..])
  }

  /** The same answer, or INVALID_TOKEN where the full table says TOKEN_EXPIRED. */
  predicate SameAnswer(full: Outcome, purged: Outcome) {
    full == purged || (full == Refused(TokenExpired) && purged == Refused(InvalidToken))
  }

  predicate SameAnswers(full: seq<Outcome>, purged: seq<Outcome>) {
    |full| == |purged| && forall i :: 0 <= i < |full| ==> SameAnswer(full[i], purged[i])
  }

  /** A surviving row differs from the full table's at most by a link to a removed row. */
  predicate SameRow(full: Session, purged: Session, kept: set<SessionId>) {
    && purged == full.(replacedBy := purged.replacedBy)
    && purged.replacedBy == if full.replacedBy.Some? && full.replacedBy.value in kept then full.replacedBy else None
  }

  /** The purged table lacks only rows past retention. */
  ghost predicate Matches(full: State, purged: State, cfg: Settings, now: int) {
    && purged == full.(sessions := purged.sessions)
    && (forall id :: id in purged.sessions ==>
          id in full.sessions && SameRow(full.sessions[id], purged.sessions[id], purged.sessions.Keys))
    && (forall id :: id in full.sessions && id !in purged.sessions ==> Purgeable(full, cfg, id, now))
  }

  lemma MatchesSelf(s: State, cfg: Settings, now: int)
    requires Inv(s)
    ensures Matches(s, s, cfg, now)
  {
    forall id | id in s.sessions ensures SameRow(s.sessions[id], s.sessions[id], s.sessions.Keys) {
      assert LinkOk(s, id);
    }
  }

  lemma MatchesLater(full: State, purged: State, cfg: Settings, now: int, later: int)
    requires Matches(full, purged, cfg, now) && now <= later
    ensures Matches(full, purged, cfg, later)
  {}

  /** One more purge batch. */
  lemma MatchesPurge(full: State, purged: State, cfg: Settings, now: int, chosen: set<SessionId>)
    requires Matches(full, purged, cfg, now)
    requires forall id :: id in chosen ==> Purgeable(purged, cfg, id, now)
    ensures Matches(full, purged.(sessions := Delete(purged.sessions, chosen)), cfg, now)
  {}

  /** The removed rows of a presented token have expired at the time of the check. */
  ghost predicate Ripe(full: State, purged: State, token: RawToken, check: int) {
    forall id :: id in full.sessions && id !in purged.sessions && full.sessions[id].hash == token ==>
      full.sessions[id].expiresAt <= check
  }

  /** A check made after the purges. */
  lemma LaterIsRipe(full: State, purged: State, cfg: Settings, now: int, token: RawToken, check: int)
    requires Matches(full, purged, cfg, now) && now <= check
    ensures Ripe(full, purged, token, check)
  {}

  /** Both tables recognise the same presented tokens, except those of removed rows: these the full
      table finds expired. */
  lemma VerifyMatches(full: State, purged: State, cfg: Settings, now: int, token: RawToken, t: Reads)
    requires Matches(full, purged, cfg, now) && Ripe(full, purged, token, t.check)
    ensures var f, p := Verify(full, cfg, token, t), Verify(purged, cfg, token, t);
            if f.Unknown? || f.id in purged.sessions then p == f else p.Unknown? && f.Stale?
  {}

  lemma CloseMatches(full: State, purged: State, cfg: Settings, now: int, jti: SessionId, at: int)
    requires Matches(full, purged, cfg, now) && jti in full.sessions
    ensures Matches(Close(full, jti, at), if jti in purged.sessions then Close(purged, jti, at) else purged, cfg, now)
  {}

  lemma RevokeAllMatches(full: State, purged: State, cfg: Settings, now: int, user: UserId, at: int)
    requires Matches(full, purged, cfg, now)
    ensures Matches(full.(sessions := RevokeAll(full.sessions, user, at)),
                    purged.(sessions := RevokeAll(purged.sessions, user, at)), cfg, now)
  {}

  lemma StageMatches(full: State, purged: State, cfg: Settings, now: int, user: UserId, id: SessionId, at: int,
                     family: SessionId)
    requires Matches(full, purged, cfg, now) && Inv(full) && id !in full.issued
    ensures Matches(Stage(full, cfg, user, id, at, family), Stage(purged, cfg, user, id, at, family), cfg, now)
  {
    assert id in full.sessions ==> RowOk(full, id);
    forall x | x in purged.sessions
      ensures SameRow(full.sessions[x], purged.sessions[x], purged.sessions.Keys + {id})
    {
      assert LinkOk(full, x);
    }
    assert Stage(purged, cfg, user, id, at, family).sessions.Keys == purged.sessions.Keys + {id};
  }

  lemma ReplaceMatches(full: State, purged: State, cfg: Settings, now: int, jti: SessionId, id: SessionId, t: Reads)
    requires Matches(full, purged, cfg, now) && Inv(full) && id !in full.issued && Open(full, jti)
             && jti in purged.sessions
    ensures Matches(Replace(full, cfg, jti, id, t), Replace(purged, cfg, jti, id, t), cfg, now)
  {
    assert RowOk(full, jti);
    var user, family := full.sessions[jti].user, Family(full, jti);
    CloseInv(full, jti, t.check);
    CloseMatches(full, purged, cfg, now, jti, t.check);
    var f, p := Close(full, jti, t.check), Close(purged, jti, t.check);
    StageMatches(f, p, cfg, now, user, id, t.issue, family);
    ReplaceIs(full, cfg, jti, id, t);
    ReplaceIs(purged, cfg, jti, id, t);
    LinkMatches(Stage(f, cfg, user, id, t.issue, family), Stage(p, cfg, user, id, t.issue, family), cfg, now, jti, id);
  }

  lemma LinkMatches(full: State, purged: State, cfg: Settings, now: int, jti: SessionId, id: SessionId)
    requires Matches(full, purged, cfg, now) && jti in purged.sessions && id in purged.sessions
    ensures Matches(full.(sessions := full.sessions[jti := full.sessions[jti].(replacedBy := Some(id))]),
                    purged.(sessions := purged.sessions[jti := purged.sessions[jti].(replacedBy := Some(id))]),
                    cfg, now)
  {
    var p := purged.sessions[jti := purged.sessions[jti].(replacedBy := Some(id))];
    assert p.Keys == purged.sessions.Keys;
  }

  lemma RotateMatches(full: State, purged: State, cfg: Settings, now: int, token: RawToken, id: SessionId, t: Reads)
    requires Matches(full, purged, cfg, now) && Inv(full) && id !in full.issued && Ripe(full, purged, token, t.check)
    ensures Matches(RotateStep(full, cfg, token, id, t).0, RotateStep(purged, cfg, token, id, t).0, cfg, now)
    ensures SameAnswer(RotateStep(full, cfg, token, id, t).1, RotateStep(purged, cfg, token, id, t).1)
  {
    VerifyMatches(full, purged, cfg, now, token, t);
    var v := Verify(full, cfg, token, t);
    if !v.Unknown? {
      CloseMatches(full, purged, cfg, now, v.id, t.check);
      if v.Live? {
        RevokeAllMatches(full, purged, cfg, now, full.sessions[v.id].user, t.check);
        if Open(full, v.id) { ReplaceMatches(full, purged, cfg, now, v.id, id, t); }
      }
    }
  }

  lemma LogoutMatches(full: State, purged: State, cfg: Settings, now: int, token: RawToken, t: Reads)
    requires Matches(full, purged, cfg, now) && Ripe(full, purged, token, t.check)
    ensures Matches(LogoutStep(full, cfg, token, t).0, LogoutStep(purged, cfg, token, t).0, cfg, now)
    ensures SameAnswer(LogoutStep(full, cfg, token, t).1, LogoutStep(purged, cfg, token, t).1)
  {
    VerifyMatches(full, purged, cfg, now, token, t);
    var v := Verify(full, cfg, token, t);
    if !v.Unknown? { CloseMatches(full, purged, cfg, now, v.id, t.check); }
  }

  /** The removed rows of the token an event presents, if any, have expired at its check. */
  ghost predicate RipeFor(full: State, purged: State, e: Event) {
    e.Rotate? || e.Logout? ==> Ripe(full, purged, e.token, e.t.check)
  }

  lemma StepMatches(full: State, purged: State, cfg: Settings, now: int, e: Event)
    requires Matches(full, purged, cfg, now) && Inv(full) && Enabled(purged, cfg, e) && !e.Purge?
    requires RipeFor(full, purged, e)
    ensures Enabled(full, cfg, e)
    ensures Matches(Step(full, cfg, e).0, Step(purged, cfg, e).0, cfg, now)
    ensures SameAnswer(Step(full, cfg, e).1, Step(purged, cfg, e).1)
  {
    match e
    case Login(user, id, at) =>
      if user in full.users && full.users[user] { StageMatches(full, purged, cfg, now, user, id, at, id); }
    case Rotate(token, id, t) => RotateMatches(full, purged, cfg, now, token, id, t);
    case Logout(token, t) => LogoutMatches(full, purged, cfg, now, token, t);
    case SetActive(user, active) =>
  }

  lemma {:induction false} RunMatches(full: State, purged: State, cfg: Settings, now: int, es: seq<Event>)
    requires Inv(full) && Matches(full, purged, cfg, now) && Runs(purged, cfg, es) && Timely(now, es)
    ensures Runs(full, cfg, Erase(es))
    ensures SameAnswers(Outcomes(full, cfg, Erase(es)), Seen(purged, cfg, es))
    decreases |es|
  {
    if es != [] {
      var e, rest := es[0], es[1..];
      var later := if e.SetActive? then now else Start(e);
      MatchesLater(full, purged, cfg, now, later);
      if e.Purge? {
        MatchesPurge(full, purged, cfg, later, e.chosen);
        RunMatches(full, Step(purged, cfg, e).0, cfg, later, rest);
      } else {
        if e.Rotate? || e.Logout? { LaterIsRipe(full, purged, cfg, now, e.token, e.t.check); }
        StepMatches(full, purged, cfg, now, e);
        StepInv(full, cfg, e);
        MatchesLater(Step(full, cfg, e).0, Step(purged, cfg, e).0, cfg, now, later);
        RunMatches(Step(full, cfg, e).0, Step(purged, cfg, e).0, cfg, later, rest);
        assert Erase(es)[0] == e && Erase(es)[1..] == Erase(rest);
      }
    }
  }

  /** Inserting purge batches anywhere in a run changes no success and no failure, except that
      TOKEN_EXPIRED may become INVALID_TOKEN; the run without them is a run too. */
  lemma PurgeChangesNoAnswer(s: State, cfg: Settings, now: int, es: seq<Event>)
    requires Inv(s) && Runs(s, cfg, es) && Timely(now, es)
    ensures Runs(s, cfg, Erase(es))
    ensures SameAnswers(Outcomes(s, cfg, Erase(es)), Seen(s, cfg, es))
  {
    MatchesSelf(s, cfg, now);
    RunMatches(s, s, cfg, now, es);
  }
}
