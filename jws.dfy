/**
 * The JJWT library as the token provider sees it: a compact serializer that signs
 * a claims set with HS512 (section 3.2 of RFC 7518) into a JWS compact string
 * (RFC 7515), and a parser that verifies such a string and classifies what went
 * wrong. The cryptography, JSON and base64url are not modelled; instead the two
 * operations are function values and `RoundTrips`, `ExpiryByClock` and
 * `RefusesBlank` state what the library guarantees of them.
 */
module Jws {
  import opened Wrappers
  import opened JavaText

  /** The HMAC-SHA key bytes derived once from the configured secret. */
  type Key = seq<bv8>

  /** `Keys.hmacShaKeyFor` refuses a key shorter than 256 bits with a
      WeakKeyException (section 3.2 of RFC 7518: the key must be at least as
      long as the hash output). */
  const HMAC_MIN_KEY_BYTES: nat := 32
  /** `signWith(key, HS512)` refuses a key shorter than 512 bits likewise. */
  const HS512_KEY_BYTES: nat := 64

  /** The claims this system writes: `sub`, the custom `auth` claim (a
      comma-joined authority list) and `exp`, as epoch milliseconds. */
  datatype Claims = Claims(sub: Option<string>, auth: Option<string>, exp: Option<nat>)

  /** What `parseClaimsJws` does with a string: return the claims, or throw one
      of the exceptions the token provider distinguishes. An expired token's
      exception still carries its claims. */
  datatype Parsed =
    | Verified(claims: Claims)
    | Expired(claims: Claims)
    | BadSignature        // io.jsonwebtoken.security.SecurityException
    | Malformed           // MalformedJwtException
    | Unsupported         // UnsupportedJwtException
    | IllegalArgument     // IllegalArgumentException

  /** `compact(key, claims)` is the builder's `signWith(key, HS512).compact()`;
      `parse(key, token, now)` is `parserBuilder().setSigningKey(key).build()
      .parseClaimsJws(token)` evaluated at clock reading `now`. */
  datatype Codec = Codec(compact: (Key, Claims) -> string, parse: (Key, string, nat) -> Parsed)

  /** `exp` is a NumericDate (section 4.1.4 of RFC 7519): whole seconds, so an
      instant in milliseconds reaches the wire rounded down to a full second. */
  function WireInstant(ms: nat): (r: nat)
    ensures r <= ms < r + 1000
    ensures r % 1000 == 0
  {
    ms / 1000 * 1000
  }

  /** The claims as they come back from the wire: `setSubject` drops a subject
      without text, and `exp` is rounded down to a whole second. */
  function OnWire(c: Claims): (r: Claims)
    ensures r.sub == (if c.sub.Some? && HasText(c.sub.value) then c.sub else None)
    ensures r.auth == c.auth && r.exp.Some? == c.exp.Some?
    ensures c.exp.Some? ==> r.exp.value == WireInstant(c.exp.value)
  {
    Claims(if c.sub.Some? && HasText(c.sub.value) then c.sub else None,
           c.auth,
           if c.exp.Some? then Some(WireInstant(c.exp.value)) else None)
  }

  /** Claims come back from the wire unchanged by a second trip. */
  lemma OnWireIdempotent(c: Claims)
    ensures OnWire(OnWire(c)) == OnWire(c)
  {
    if c.exp.Some? {
      var w := WireInstant(c.exp.value);
      assert WireInstant(w) == w;
    }
  }

  /** JJWT with no clock skew: a token expires once the clock is strictly
      after its `exp`; a token without `exp` never expires. */
  predicate Live(c: Claims, now: nat) {
    c.exp.None? || now <= c.exp.value
  }

  /** The parse outcome for a correctly signed token carrying `c`. */
  function SignedOutcome(c: Claims, now: nat): (r: Parsed)
    ensures r.Verified? || r.Expired?
    ensures r.claims == OnWire(c)
    ensures r.Verified? <==> Live(OnWire(c), now)
  {
    if Live(OnWire(c), now) then Verified(OnWire(c)) else Expired(OnWire(c))
  }

  /** A token compacted under a key that HS512 accepts parses under that key to
      its claims as they are on the wire, expired or not depending on the clock.
      Only claims with an `exp` are covered, as every token this system issues
      has one: a claims set that is empty on the wire is outside the law. */
  ghost predicate RoundTrips(codec: Codec) {
    forall k: Key, c: Claims, now: nat ::
      |k| >= HS512_KEY_BYTES && c.exp.Some? ==>
        codec.parse(k, codec.compact(k, c), now) == SignedOutcome(c, now)
  }

  /** Whatever string the parser accepts (a token compacted under the key, a
      token some other key holder signed with arbitrary claims, or another
      spelling of either) is classified as expired by its `exp` and the clock
      alone, with no clock skew. */
  ghost predicate ExpiryByClock(codec: Codec) {
    forall k: Key, t: string, now: nat ::
      (codec.parse(k, t, now).Verified? || codec.parse(k, t, now).Expired?) ==>
        (codec.parse(k, t, now).Verified? <==> Live(codec.parse(k, t, now).claims, now))
  }

  /** A null, empty or whitespace-only string is an IllegalArgumentException. */
  ghost predicate RefusesBlank(codec: Codec) {
    forall k: Key, t: string, now: nat ::
      !HasText(t) ==> codec.parse(k, t, now) == IllegalArgument
  }

  /** Everything the model takes from the library. */
  ghost predicate Lawful(codec: Codec) {
    RoundTrips(codec) && ExpiryByClock(codec) && RefusesBlank(codec)
  }

  /** A signed token is never blank: the parser would refuse a blank string
      before looking at any signature. */
  lemma SignedTokensHaveText(codec: Codec, k: Key, c: Claims)
    requires RoundTrips(codec) && RefusesBlank(codec)
    requires |k| >= HS512_KEY_BYTES && c.exp.Some?
    ensures HasText(codec.compact(k, c))
  {
    assert codec.parse(k, codec.compact(k, c), 0) == SignedOutcome(c, 0);
    assert codec.parse(k, codec.compact(k, c), 0) != IllegalArgument;
  }
}
