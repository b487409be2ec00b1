/**
 * TokenProvider: issues the access/refresh token pair, checks a token and
 * rebuilds the caller's Authentication from a token's claims.
 */
module TokenProvider {
  import opened Wrappers
  import opened JavaText
  import opened Jws
  import opened Security

  const BEARER_TYPE: string := "bearer"
  /** One hour and seven days, in milliseconds (both fit in a Java int). */
  const ACCESS_TOKEN_EXPIRE_TIME: nat := 1000 * 60 * 60
  const REFRESH_TOKEN_EXPIRE_TIME: nat := 1000 * 60 * 60 * 24 * 7

  /** The login response body. */
  datatype TokenDto = TokenDto(grantType: string, accessToken: string, refreshToken: string, accessTokenExpiresIn: nat)

  /** A TokenProvider after afterPropertiesSet: its signing key and the JJWT library. */
  datatype Provider = Provider(key: Key, codec: Codec)

  /** io.jsonwebtoken.security.WeakKeyException, with the key's length in bits. */
  datatype KeyError = WeakKey(keyBits: nat)

  /** afterPropertiesSet, given the bytes the configured secret decodes to:
      `Keys.hmacShaKeyFor` refuses fewer than 256 bits, and the bean then fails
      to initialize. */
  function AfterPropertiesSet(keyBytes: Key, codec: Codec): (r: Result<Provider, KeyError>)
    ensures r.Success? <==> |keyBytes| >= HMAC_MIN_KEY_BYTES
    ensures r.Success? ==> r.value.key == keyBytes && r.value.codec == codec
    ensures r.Failure? ==> r.error.keyBits < 8 * HMAC_MIN_KEY_BYTES
  {
    if |keyBytes| < HMAC_MIN_KEY_BYTES then Failure(WeakKey(8 * |keyBytes|))
    else Success(Provider(keyBytes, codec))
  }

  /** Why getAuthentication threw. */
  datatype AuthenticationError =
    | ParseError(cause: Parsed)   // an exception from parseClaimsJws other than expiry
    | MissingAuthorities          // the RuntimeException for a token without `auth`
    | BlankAuthority              // SimpleGrantedAuthority refuses a name without text
    | BlankUsername               // Spring's User refuses a null or empty username

  /** generateTokenDto(userId, authorities) at clock reading `now`: HS512
      signing throws WeakKeyException for a key under 512 bits, before any token
      is produced. */
  function GenerateTokenDto(p: Provider, userId: string, authorities: string, now: nat): (r: Result<TokenDto, KeyError>)
    ensures r.Failure? <==> |p.key| < HS512_KEY_BYTES
    ensures r.Failure? ==> r.error == WeakKey(8 * |p.key|)
    ensures r.Success? ==>
      && r.value.grantType == "bearer"
      && r.value.accessTokenExpiresIn == now + 3_600_000
      && r.value.accessToken == p.codec.compact(p.key, Claims(Some(userId), Some(authorities), Some(r.value.accessTokenExpiresIn)))
      && r.value.refreshToken == p.codec.compact(p.key, Claims(None, None, Some(now + 604_800_000)))
  {
    if |p.key| < HS512_KEY_BYTES then Failure(WeakKey(8 * |p.key|))
    else
      var accessTokenExpiresIn := now + ACCESS_TOKEN_EXPIRE_TIME;
      var accessToken := p.codec.compact(p.key, Claims(Some(userId), Some(authorities), Some(accessTokenExpiresIn)));
      var refreshToken := p.codec.compact(p.key, Claims(None, None, Some(now + REFRESH_TOKEN_EXPIRE_TIME)));
      Success(TokenDto(BEARER_TYPE, accessToken, refreshToken, accessTokenExpiresIn))
  }

  /** A provider whose key hmacShaKeyFor accepts (256 bits or more) but HS512
      does not (under 512 bits) starts up, and then every token request fails. */
  lemma ShortKeyIssuesNothing(keyBytes: Key, codec: Codec, userId: string, authorities: string, now: nat)
    requires HMAC_MIN_KEY_BYTES <= |keyBytes| < HS512_KEY_BYTES
    ensures AfterPropertiesSet(keyBytes, codec).Success?
    ensures GenerateTokenDto(AfterPropertiesSet(keyBytes, codec).value, userId, authorities, now)
      == Failure(WeakKey(8 * |keyBytes|))
  {
  }

  /** generateTokenDto(authentication): the authority names joined with ","
      in iteration order, and the name as subject. */
  function GenerateTokenDtoFor(p: Provider, authentication: Authentication, now: nat): (r: Result<TokenDto, KeyError>)
    ensures r == GenerateTokenDto(p, authentication.name, Join(authentication.authorities), now)
  {
    GenerateTokenDto(p, authentication.name, Join(authentication.authorities), now)
  }

  /** paresClaims: the claims of a correctly signed token, expired or not;
      every other parse outcome propagates as an exception. */
  function ParseClaims(p: Provider, token: string, now: nat): (r: Result<Claims, Parsed>)
    ensures r.Success? <==> (p.codec.parse(p.key, token, now).Verified? || p.codec.parse(p.key, token, now).Expired?)
    ensures r.Success? ==> r.value == p.codec.parse(p.key, token, now).claims
    ensures r.Failure? ==> r.error == p.codec.parse(p.key, token, now)
  {
    match p.codec.parse(p.key, token, now)
    case Verified(c) => Success(c)
    case Expired(c) => Success(c)
    case other => Failure(other)
  }

  /** getAuthentication: split the `auth` claim on "," into authorities and
      take `sub` as the principal's name; the token is the credential. */
  function GetAuthentication(p: Provider, token: string, now: nat): (r: Result<Authentication, AuthenticationError>)
    ensures ParseClaims(p, token, now).Failure? ==> r == Failure(ParseError(ParseClaims(p, token, now).error))
    ensures ParseClaims(p, token, now).Success? && ParseClaims(p, token, now).value.auth.None? ==> r == Failure(MissingAuthorities)
    ensures r.Success? ==>
      && ParseClaims(p, token, now).Success?
      && ParseClaims(p, token, now).value.sub == Some(r.value.name) && r.value.name != ""
      && r.value.credentials == Some(token)
      && r.value.authorities == Split(ParseClaims(p, token, now).value.auth.value)
      && (forall j :: 0 <= j < |r.value.authorities| ==>
            HasText(r.value.authorities[j]) && ',' !in r.value.authorities[j])
  {
    match ParseClaims(p, token, now)
    case Failure(e) => Failure(ParseError(e))
    case Success(claims) =>
      if claims.auth.None? then Failure(MissingAuthorities)
      else
        var authorities := Split(claims.auth.value);
        if exists j :: 0 <= j < |authorities| && !HasText(authorities[j]) then Failure(BlankAuthority)
        else if claims.sub.None? || claims.sub.value == "" then Failure(BlankUsername)
        else Success(Authentication(claims.sub.value, Some(token), authorities))
  }

  /** validateToken: true exactly when parsing succeeds; expiry and every
      parse exception become false. */
  function ValidateToken(p: Provider, token: string, now: nat): (r: bool)
    ensures r ==> ParseClaims(p, token, now).Success?
    ensures p.codec.parse(p.key, token, now).Expired? ==> !r
  {
    p.codec.parse(p.key, token, now).Verified?
  }

  // ---------------------------------------------------------------------------
  // Properties of the issued pair

  /** Both issued tokens parse back to exactly what was put in them, with
      `exp` on whole seconds and a subject without text dropped; the refresh
      token carries no identity. */
  lemma IssuedTokensParse(p: Provider, userId: string, authorities: string, now: nat, t: nat)
    requires RoundTrips(p.codec)
    ensures var r := GenerateTokenDto(p, userId, authorities, now);
      r.Success? ==>
      && ParseClaims(p, r.value.accessToken, t)
           == Success(Claims(if HasText(userId) then Some(userId) else None, Some(authorities),
                             Some(WireInstant(r.value.accessTokenExpiresIn))))
      && ParseClaims(p, r.value.refreshToken, t)
           == Success(Claims(None, None, Some(WireInstant(now + REFRESH_TOKEN_EXPIRE_TIME))))
  {
    var r := GenerateTokenDto(p, userId, authorities, now);
    if r.Failure? {
      return;
    }
    var dto := r.value;
    assert p.codec.parse(p.key, dto.accessToken, t)
        == SignedOutcome(Claims(Some(userId), Some(authorities), Some(dto.accessTokenExpiresIn)), t);
    assert p.codec.parse(p.key, dto.refreshToken, t)
        == SignedOutcome(Claims(None, None, Some(now + REFRESH_TOKEN_EXPIRE_TIME)), t);
  }

  /** Each token is accepted exactly up to its expiry rounded down to a whole
      second: the access token up to the last whole second of its hour, the
      refresh token likewise for its seven days, and the refresh token whenever
      the access token is. */
  lemma {:induction false} Lifetimes(p: Provider, userId: string, authorities: string, now: nat, t: nat)
    requires RoundTrips(p.codec)
    ensures var r := GenerateTokenDto(p, userId, authorities, now);
      r.Success? ==>
      var dto := r.value;
      && (ValidateToken(p, dto.accessToken, t) <==> t <= WireInstant(now + ACCESS_TOKEN_EXPIRE_TIME))
      && (ValidateToken(p, dto.refreshToken, t) <==> t <= WireInstant(now + REFRESH_TOKEN_EXPIRE_TIME))
      && (t <= now + ACCESS_TOKEN_EXPIRE_TIME - 1000 ==> ValidateToken(p, dto.accessToken, t))
      && (t > now + ACCESS_TOKEN_EXPIRE_TIME ==> !ValidateToken(p, dto.accessToken, t))
      && (ValidateToken(p, dto.accessToken, t) ==> ValidateToken(p, dto.refreshToken, t))
      && (t <= now + REFRESH_TOKEN_EXPIRE_TIME - 1000 ==> ValidateToken(p, dto.refreshToken, t))
      && (t > now + REFRESH_TOKEN_EXPIRE_TIME ==> !ValidateToken(p, dto.refreshToken, t))
  {
    var r := GenerateTokenDto(p, userId, authorities, now);
    if r.Failure? {
      return;
    }
    var dto := r.value;
    var access := Claims(Some(userId), Some(authorities), Some(now + ACCESS_TOKEN_EXPIRE_TIME));
    var refresh := Claims(None, None, Some(now + REFRESH_TOKEN_EXPIRE_TIME));
    assert p.codec.parse(p.key, dto.accessToken, t) == SignedOutcome(access, t);
    assert p.codec.parse(p.key, dto.refreshToken, t) == SignedOutcome(refresh, t);
    var a := WireInstant(now + ACCESS_TOKEN_EXPIRE_TIME);
    var b := WireInstant(now + REFRESH_TOKEN_EXPIRE_TIME);
    assert a <= b;
  }

  /** validateToken accepts a token exactly when the parser recovers claims
      from it and they have not expired; an expired token is refused even though
      its claims are recovered. */
  lemma ValidIffLive(p: Provider, token: string, now: nat)
    requires ExpiryByClock(p.codec)
    ensures ValidateToken(p, token, now) <==>
      ParseClaims(p, token, now).Success? && Live(ParseClaims(p, token, now).value, now)
  {
  }

  /** An expired but correctly signed token still yields its claims, while
      validateToken refuses it. */
  lemma ExpiredStillYieldsClaims(p: Provider, token: string, now: nat)
    requires p.codec.parse(p.key, token, now).Expired?
    ensures ParseClaims(p, token, now) == Success(p.codec.parse(p.key, token, now).claims)
    ensures !ValidateToken(p, token, now)
  {
  }

  // ---------------------------------------------------------------------------
  // Round trip through getAuthentication

  /** The authority names that survive a comma join and split and that
      SimpleGrantedAuthority accepts. */
  predicate JoinableAuthorities(names: seq<string>) {
    && |names| > 0
    && forall j :: 0 <= j < |names| ==> HasText(names[j]) && ',' !in names[j]
  }

  lemma HasTextIsNonEmpty(s: string)
    requires HasText(s)
    ensures s != ""
  {
  }

  /** An access token issued for an Authentication gives that Authentication
      back (with the token as credentials), at any later time: even after
      expiry, because paresClaims recovers the expired claims. */
  lemma {:induction false} AuthenticationRoundTrip(p: Provider, a: Authentication, now: nat, t: nat)
    requires RoundTrips(p.codec)
    requires HasText(a.name)
    requires JoinableAuthorities(a.authorities)
    ensures var r := GenerateTokenDtoFor(p, a, now);
      r.Success? ==>
      GetAuthentication(p, r.value.accessToken, t) == Success(Authentication(a.name, Some(r.value.accessToken), a.authorities))
  {
    IssuedTokensParse(p, a.name, Join(a.authorities), now, t);
    forall j | 0 <= j < |a.authorities| ensures a.authorities[j] != "" && ',' !in a.authorities[j] {
      HasTextIsNonEmpty(a.authorities[j]);
    }
    SplitJoin(a.authorities);
    HasTextIsNonEmpty(a.name);
  }

  /** A name without text (say U+3000, which @NotBlank lets through) is dropped
      from the token as a subject, so its access token yields no Authentication. */
  lemma BlankSubjectNoAuthentication(p: Provider, a: Authentication, now: nat, t: nat)
    requires RoundTrips(p.codec)
    requires !HasText(a.name)
    requires JoinableAuthorities(a.authorities)
    ensures var r := GenerateTokenDtoFor(p, a, now);
      r.Success? ==> GetAuthentication(p, r.value.accessToken, t) == Failure(BlankUsername)
  {
    IssuedTokensParse(p, a.name, Join(a.authorities), now, t);
    forall j | 0 <= j < |a.authorities| ensures a.authorities[j] != "" && ',' !in a.authorities[j] {
      HasTextIsNonEmpty(a.authorities[j]);
    }
    SplitJoin(a.authorities);
  }

  /** The refresh token does not depend on who logs in: two logins at the same
      instant get the same refresh token. */
  lemma RefreshTokenIsAnonymous(p: Provider, a: Authentication, b: Authentication, now: nat)
    ensures GenerateTokenDtoFor(p, a, now).Success? <==> GenerateTokenDtoFor(p, b, now).Success?
    ensures GenerateTokenDtoFor(p, a, now).Success? ==>
      GenerateTokenDtoFor(p, a, now).value.refreshToken == GenerateTokenDtoFor(p, b, now).value.refreshToken
  {
  }

  /** The refresh token never yields an Authentication: it has no `auth` claim. */
  lemma RefreshTokenHasNoAuthorities(p: Provider, userId: string, authorities: string, now: nat, t: nat)
    requires RoundTrips(p.codec)
    ensures var r := GenerateTokenDto(p, userId, authorities, now);
      r.Success? ==> GetAuthentication(p, r.value.refreshToken, t) == Failure(MissingAuthorities)
  {
    IssuedTokensParse(p, userId, authorities, now, t);
  }

  /** An Authentication with no authorities is issued a token with `auth` = "",
      which splits into one empty name, so getAuthentication throws on it. */
  lemma NoAuthoritiesNoAuthentication(p: Provider, a: Authentication, now: nat, t: nat)
    requires RoundTrips(p.codec)
    requires a.authorities == []
    ensures var r := GenerateTokenDtoFor(p, a, now);
      r.Success? ==> GetAuthentication(p, r.value.accessToken, t) == Failure(BlankAuthority)
  {
    IssuedTokensParse(p, a.name, Join(a.authorities), now, t);
    JoinNothingSplitsToEmptyPiece();
    var names := Split(Join(a.authorities));
    assert names == [""] && !HasText(names[0]);
  }
}
