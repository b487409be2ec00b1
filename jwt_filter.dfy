/**
 * JwtFilter: the per-request gate. It takes the bearer token (section 2.1 of
 * RFC 6750) from the Authorization header, and when the token validates it puts
 * the Authentication rebuilt from the token into the request's security context.
 */
module JwtFilter {
  import opened Wrappers
  import opened JavaText
  import opened Jws
  import opened Security
  import opened TokenProvider

  /** The scheme prefix, matched literally and case-sensitively. */
  const BEARER_PREFIX: string := "Bearer "

  /** resolveToken: the Authorization header without its "Bearer " prefix, or
      null when the header is absent, blank or carries another prefix. */
  function ResolveToken(authorization: Option<string>): (r: Option<string>)
    ensures r.Some? <==>
      authorization.Some? && HasText(authorization.value) && StartsWith(authorization.value, "Bearer ")
    ensures r.Some? ==> authorization.value == "Bearer " + r.value
  {
    if authorization.Some? && HasText(authorization.value) && StartsWith(authorization.value, BEARER_PREFIX)
    then Some(authorization.value[|BEARER_PREFIX|..])
    else None
  }

  /** The prefix round trip: any token behind "Bearer " comes back unchanged. */
  lemma ResolveBearer(t: string)
    ensures ResolveToken(Some("Bearer " + t)) == Some(t)
  {
    var h := "Bearer " + t;
    assert h[0] == 'B' && !IsWhitespace(h[0]);
    assert h[..7] == "Bearer ";
  }

  /** Other schemes, including the lower-case spelling, give no token. */
  lemma OtherSchemesResolveToNothing(t: string)
    ensures ResolveToken(Some("bearer " + t)) == None
    ensures ResolveToken(Some("Token " + t)) == None
    ensures ResolveToken(None) == None
  {
    assert ("bearer " + t)[0] == 'b';
    assert ("Token " + t)[0] == 'T';
  }

  /** What doFilter does with the security context, as written. */
  datatype Decision =
    | Authenticate(authentication: Authentication)  // the context is set, the chain runs
    | Skip                                          // the context is left alone, the chain runs
    | Abort(error: AuthenticationError)             // getAuthentication throws: the chain never runs

  /** The decision in doFilter: a token with text that validateToken accepts is
      turned into an Authentication by getAuthentication, which may throw. */
  function Decide(p: Provider, authorization: Option<string>, now: nat): (d: Decision)
    ensures d.Authenticate? || d.Abort? <==>
      var jwt := ResolveToken(authorization);
      jwt.Some? && HasText(jwt.value) && ValidateToken(p, jwt.value, now)
    ensures d.Authenticate? ==> GetAuthentication(p, ResolveToken(authorization).value, now) == Success(d.authentication)
    ensures d.Abort? ==> GetAuthentication(p, ResolveToken(authorization).value, now) == Failure(d.error)
  {
    var jwt := ResolveToken(authorization);
    if jwt.Some? && HasText(jwt.value) && ValidateToken(p, jwt.value, now) then
      match GetAuthentication(p, jwt.value, now)
      case Success(a) => Authenticate(a)
      case Failure(e) => Abort(e)
    else Skip
  }

  /** The corrected gate: a token that validates but cannot be turned into an
      Authentication leaves the request unauthenticated instead of failing it. */
  function GuardedDecide(p: Provider, authorization: Option<string>, now: nat): (d: Decision)
    ensures !d.Abort?
    ensures d.Authenticate? <==> Decide(p, authorization, now).Authenticate?
    ensures d.Authenticate? ==> d == Decide(p, authorization, now)
  {
    match Decide(p, authorization, now)
    case Abort(_) => Skip
    case other => other
  }

  /** No header, or a header with another scheme, never authenticates, whatever
      token follows the scheme. */
  lemma SchemeEnforced(p: Provider, authorization: Option<string>, now: nat)
    requires authorization.None? || !StartsWith(authorization.value, "Bearer ")
    ensures Decide(p, authorization, now) == Skip
  {
  }

  /** A request is authenticated only by a "Bearer " header whose token the
      parser verifies, whose claims have not expired and carry `auth`, and whose
      subject is the Authentication's name. */
  lemma OnlyLiveTokensAuthenticate(p: Provider, authorization: Option<string>, now: nat)
    requires ExpiryByClock(p.codec)
    requires Decide(p, authorization, now).Authenticate?
    ensures var jwt := ResolveToken(authorization).value;
      && authorization == Some("Bearer " + jwt)
      && p.codec.parse(p.key, jwt, now).Verified?
      && var c := p.codec.parse(p.key, jwt, now).claims;
         Live(c, now) && c.auth.Some? && c.sub == Some(Decide(p, authorization, now).authentication.name)
  {
  }

  /** An access token issued at `now`, presented as a bearer token before it
      expires, authenticates the request as the Authentication it was issued for. */
  lemma IssuedAccessTokenAuthenticates(p: Provider, a: Authentication, now: nat, t: nat)
    requires RoundTrips(p.codec) && RefusesBlank(p.codec)
    requires HasText(a.name) && JoinableAuthorities(a.authorities)
    requires t <= WireInstant(now + ACCESS_TOKEN_EXPIRE_TIME)
    ensures var r := GenerateTokenDtoFor(p, a, now);
      r.Success? ==>
      var token := r.value.accessToken;
      && Decide(p, Some("Bearer " + token), t) == Authenticate(Authentication(a.name, Some(token), a.authorities))
      && GuardedDecide(p, Some("Bearer " + token), t) == Decide(p, Some("Bearer " + token), t)
  {
    var r := GenerateTokenDtoFor(p, a, now);
    if r.Failure? {
      return;
    }
    var token := r.value.accessToken;
    var signed := Claims(Some(a.name), Some(Join(a.authorities)), Some(now + ACCESS_TOKEN_EXPIRE_TIME));
    assert token == p.codec.compact(p.key, signed);
    assert p.codec.parse(p.key, token, t) == SignedOutcome(signed, t);
    assert ValidateToken(p, token, t);
    SignedTokensHaveText(p.codec, p.key, signed);
    ResolveBearer(token);
    AuthenticationRoundTrip(p, a, now, t);
    var auth := Authentication(a.name, Some(token), a.authorities);
    assert GetAuthentication(p, token, t) == Success(auth);
    assert Decide(p, Some("Bearer " + token), t) == Authenticate(auth);
  }

  /** The same access token presented after its expiry leaves the request
      unauthenticated. */
  lemma ExpiredAccessTokenSkipped(p: Provider, a: Authentication, now: nat, t: nat)
    requires RoundTrips(p.codec)
    requires t > WireInstant(now + ACCESS_TOKEN_EXPIRE_TIME)
    ensures var r := GenerateTokenDtoFor(p, a, now);
      r.Success? ==> Decide(p, Some("Bearer " + r.value.accessToken), t) == Skip
  {
    var r := GenerateTokenDtoFor(p, a, now);
    if r.Failure? {
      return;
    }
    var token := r.value.accessToken;
    ResolveBearer(token);
    Lifetimes(p, a.name, Join(a.authorities), now, t);
  }

  /** As written, the refresh token from the same login, presented as a bearer
      token while it is live, passes validateToken and then makes
      getAuthentication throw, so the request is never forwarded. */
  lemma RefreshTokenAbortsRequest(p: Provider, userId: string, authorities: string, now: nat, t: nat)
    requires RoundTrips(p.codec) && RefusesBlank(p.codec)
    requires t <= WireInstant(now + REFRESH_TOKEN_EXPIRE_TIME)
    ensures var r := GenerateTokenDto(p, userId, authorities, now);
      r.Success? ==>
      var refresh := r.value.refreshToken;
      && Decide(p, Some("Bearer " + refresh), t) == Abort(MissingAuthorities)
      && GuardedDecide(p, Some("Bearer " + refresh), t) == Skip
  {
    var r := GenerateTokenDto(p, userId, authorities, now);
    if r.Failure? {
      return;
    }
    var refresh := r.value.refreshToken;
    ResolveBearer(refresh);
    IssuedTokensParse(p, userId, authorities, now, t);
    RefreshTokenHasNoAuthorities(p, userId, authorities, now, t);
    assert ValidateToken(p, refresh, t);
    SignedTokensHaveText(p.codec, p.key, Claims(None, None, Some(now + REFRESH_TOKEN_EXPIRE_TIME)));
  }

  /** The rest of the filter chain; `invocations` counts chain.doFilter calls. */
  class FilterChain {
    var invocations: nat

    constructor ()
      ensures invocations == 0
    {
      invocations := 0;
    }

    method DoFilter()
      modifies this
      ensures invocations == old(invocations) + 1
    {
      invocations := invocations + 1;
    }
  }

  class JwtFilter {
    const tokenProvider: Provider

    constructor (tokenProvider: Provider)
      ensures this.tokenProvider == tokenProvider
    {
      this.tokenProvider := tokenProvider;
    }

    /** doFilter as written: the exception from getAuthentication escapes, with
        the context untouched and the chain not run. */
    method DoFilter(authorization: Option<string>, now: nat, context: SecurityContext, chain: FilterChain)
      returns (thrown: Option<AuthenticationError>)
      modifies context, chain
      ensures var d := Decide(tokenProvider, authorization, now);
        && context.authentication == (if d.Authenticate? then Some(d.authentication) else old(context.authentication))
        && chain.invocations == old(chain.invocations) + (if d.Abort? then 0 else 1)
        && thrown == (if d.Abort? then Some(d.error) else None)
    {
      var jwt := ResolveToken(authorization);
      if jwt.Some? && HasText(jwt.value) && ValidateToken(tokenProvider, jwt.value, now) {
        var authentication := GetAuthentication(tokenProvider, jwt.value, now);
        if authentication.Failure? {
          return Some(authentication.error);
        }
        context.SetAuthentication(authentication.value);
      }
      chain.DoFilter();
      return None;
    }

    /** The corrected doFilter: the chain runs exactly once on every path, and
        the context is set only for a token that yields an Authentication. */
    method GuardedDoFilter(authorization: Option<string>, now: nat, context: SecurityContext, chain: FilterChain)
      modifies context, chain
      ensures var d := GuardedDecide(tokenProvider, authorization, now);
        && context.authentication == (if d.Authenticate? then Some(d.authentication) else old(context.authentication))
      ensures chain.invocations == old(chain.invocations) + 1
    {
      var jwt := ResolveToken(authorization);
      if jwt.Some? && HasText(jwt.value) && ValidateToken(tokenProvider, jwt.value, now) {
        var authentication := GetAuthentication(tokenProvider, jwt.value, now);
        if authentication.Success? {
          context.SetAuthentication(authentication.value);
        }
      }
      chain.DoFilter();
    }
  }
}
