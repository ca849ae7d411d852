/** JWT decoding: which refresh tokens the server accepts, and when it calls one expired.

    Clock readings are microseconds and NumericDate claims are whole seconds. `Unverifiable`
    stands for every text that fails the signature, the required claims, the issuer, the audience
    or the shape and range checks that precede any temporal classification. */
module Tokens {
  import opened Wrappers

  type UserId = nat
  type SessionId = nat

  const SECOND: int := 1_000_000

  datatype TokenType = Access | Refresh

  /** `sub` is None when the subject is not a UUID. */
  datatype Claims = Claims(sub: Option<UserId>, jti: SessionId, typ: TokenType, iat: int, exp: int, nbf: Option<int>)

  /** A presented text; `encoding` tells apart texts that carry equal claims. */
  datatype RawToken = Unverifiable(text: nat) | Verified(claims: Claims, encoding: nat)

  datatype Settings = Settings(refreshSeconds: nat, leewaySeconds: nat, retentionSeconds: nat)

  datatype Decoded = Invalid | Expired | Valid(claims: Claims)

  predicate NotYet(claims: Claims, now: int, cfg: Settings) {
    || claims.iat * SECOND > now + cfg.leewaySeconds * SECOND
    || (claims.nbf.Some? && claims.nbf.value * SECOND > now + cfg.leewaySeconds * SECOND)
  }

  predicate PastExpiry(claims: Claims, now: int, cfg: Settings) {
    claims.exp * SECOND <= now - cfg.leewaySeconds * SECOND
  }

  function DecodeToken(token: RawToken, expected: TokenType, now: int, cfg: Settings): Decoded {
    match token
    case Unverifiable(_) => Invalid
    case Verified(claims, _) =>
      if claims.typ != expected then Invalid
      else if NotYet(claims, now, cfg) then Invalid
      else if PastExpiry(claims, now, cfg) then Expired
      else Valid(claims)
  }

  /** Ignores expiry and nothing else. */
  function DecodeExpiredRefresh(token: RawToken, now: int, cfg: Settings): Decoded {
    match token
    case Unverifiable(_) => Invalid
    case Verified(claims, _) =>
      if claims.typ != Refresh || NotYet(claims, now, cfg) then Invalid else Valid(claims)
  }

  datatype RefreshClaims = Bad | Good(claims: Claims, wasExpired: bool)

  /** Two attempts, each with its own reading of the clock. */
  function DecodeRefreshClaims(token: RawToken, now: int, again: int, cfg: Settings): RefreshClaims {
    match DecodeToken(token, Refresh, now, cfg)
    case Valid(claims) => Good(claims, false)
    case Invalid => Bad
    case Expired =>
      match DecodeExpiredRefresh(token, again, cfg)
      case Valid(claims) => Good(claims, true)
      case _ => Bad
  }

  function WholeSeconds(now: int): int {
    now - now % SECOND
  }

  /** The refresh token of one issuance: issued at a whole second, expiring a lifetime later. */
  function CreateRefresh(user: UserId, jti: SessionId, now: int, cfg: Settings): RawToken {
    var iat := WholeSeconds(now) / SECOND;
    Verified(Claims(Some(user), jti, Refresh, iat, iat + cfg.refreshSeconds, None), 0)
  }

  function ExpiresAt(now: int, cfg: Settings): int {
    WholeSeconds(now) + cfg.refreshSeconds * SECOND
  }

  /** The row's expiry is the token's `exp`, to the microsecond. */
  lemma ExpiryMatchesToken(user: UserId, jti: SessionId, now: int, cfg: Settings)
    ensures CreateRefresh(user, jti, now, cfg).claims.exp * SECOND == ExpiresAt(now, cfg)
  {
    assert WholeSeconds(now) == SECOND * (now / SECOND);
  }

  /** With a clock that does not run backwards the second attempt never fails: a token is either
      refused at once or its claims are known. */
  lemma SecondAttemptSucceeds(token: RawToken, now: int, again: int, cfg: Settings)
    requires now <= again
    ensures DecodeRefreshClaims(token, now, again, cfg).Bad? <==> DecodeToken(token, Refresh, now, cfg).Invalid?
    ensures DecodeRefreshClaims(token, now, again, cfg).Good? ==>
              && token.Verified? && token.claims.typ == Refresh
              && DecodeRefreshClaims(token, now, again, cfg)
                 == Good(token.claims, PastExpiry(token.claims, now, cfg))
  {}

  /** An issued refresh token is accepted from its issuance until its lifetime and the leeway have
      passed, is called expired from then on, and never passes for an access token. */
  lemma IssuedTokenLives(user: UserId, jti: SessionId, at: int, now: int, cfg: Settings)
    requires at <= now
    ensures var token := CreateRefresh(user, jti, at, cfg);
            && (DecodeToken(token, Refresh, now, cfg) == Valid(token.claims)
                <==> now < ExpiresAt(at, cfg) + cfg.leewaySeconds * SECOND)
            && (DecodeToken(token, Refresh, now, cfg) == Expired
                <==> ExpiresAt(at, cfg) + cfg.leewaySeconds * SECOND <= now)
            && DecodeToken(token, Access, now, cfg) == Invalid
  {
    ExpiryMatchesToken(user, jti, at, cfg);
    assert WholeSeconds(at) == SECOND * (at / SECOND);
    assert WholeSeconds(at) <= at;
  }
}
