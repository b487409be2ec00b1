/**
 * The laws in `Jws.Lawful` can be met: a symbolic codec that writes the claims
 * with a self-delimiting encoding (and signs nothing) satisfies all three, so
 * the lemmas that assume them are not vacuous. Like the real parser, it also
 * accepts spellings of a token that `compact` never writes (here: anything
 * after the claims is ignored), which the laws allow.
 */
module JwsWitness {
  import opened Wrappers
  import opened JavaText
  import opened Jws

  /** Every character behind a '1', the end marked by a '0'. */
  function Escape(s: string): (r: string)
    ensures |r| == 2 * |s| + 1
  {
    if |s| == 0 then "0" else ['1', s[0]] + Escape(s[1..])
  }

  /** Reads one escaped string off the front; returns it and what follows. */
  function Unescape(s: string): Option<(string, string)>
    decreases |s|
  {
    if |s| == 0 then None
    else if s[0] == '0' then Some(("", s[1..]))
    else if s[0] == '1' && |s| >= 2 then
      match Unescape(s[2..])
      case Some((a, rest)) => Some(([s[1]] + a, rest))
      case None => None
    else None
  }

  lemma {:induction false} UnescapeEscape(a: string, x: string)
    ensures Unescape(Escape(a) + x) == Some((a, x))
  {
    if |a| == 0 {
      assert (Escape(a) + x)[1..] == x;
    } else {
      var s := Escape(a) + x;
      assert s == ['1', a[0]] + (Escape(a[1..]) + x);
      assert s[2..] == Escape(a[1..]) + x;
      UnescapeEscape(a[1..], x);
      assert [a[0]] + a[1..] == a;
    }
  }

  function Tally(n: nat): (r: string)
    ensures |r| == n
  {
    if n == 0 then "" else "x" + Tally(n - 1)
  }

  function EncodeText(s: Option<string>): string {
    if s.None? then "0" else "1" + Escape(s.value)
  }

  function DecodeText(s: string): Option<(Option<string>, string)> {
    if |s| == 0 then None
    else if s[0] == '0' then Some((None, s[1..]))
    else if s[0] == '1' then
      match Unescape(s[1..])
      case Some((a, rest)) => Some((Some(a), rest))
      case None => None
    else None
  }

  lemma DecodeEncodeText(v: Option<string>, x: string)
    ensures DecodeText(EncodeText(v) + x) == Some((v, x))
  {
    var s := EncodeText(v) + x;
    if v.Some? {
      assert s[1..] == Escape(v.value) + x;
      UnescapeEscape(v.value, x);
    } else {
      assert s[1..] == x;
    }
  }

  /** An instant in unary, so that decoding needs no arithmetic. */
  function EncodeInstant(n: Option<nat>): string {
    if n.None? then "0" else "1" + Escape(Tally(n.value))
  }

  function DecodeInstant(s: string): Option<(Option<nat>, string)> {
    if |s| == 0 then None
    else if s[0] == '0' then Some((None, s[1..]))
    else if s[0] == '1' then
      match Unescape(s[1..])
      case Some((a, rest)) => Some((Some(|a|), rest))
      case None => None
    else None
  }

  lemma DecodeEncodeInstant(v: Option<nat>, x: string)
    ensures DecodeInstant(EncodeInstant(v) + x) == Some((v, x))
  {
    var s := EncodeInstant(v) + x;
    if v.Some? {
      assert s[1..] == Escape(Tally(v.value)) + x;
      UnescapeEscape(Tally(v.value), x);
    } else {
      assert s[1..] == x;
    }
  }

  /** The claims behind a leading 'J', so that every encoding has text. */
  function EncodeClaims(c: Claims): string {
    "J" + EncodeText(c.sub) + EncodeText(c.auth) + EncodeInstant(c.exp)
  }

  function DecodeClaims(t: string): Option<Claims> {
    if |t| == 0 || t[0] != 'J' then None
    else match DecodeText(t[1..])
      case None => None
      case Some((sub, r1)) =>
        match DecodeText(r1)
        case None => None
        case Some((auth, r2)) =>
          match DecodeInstant(r2)
          case None => None
          case Some((exp, _)) => Some(Claims(sub, auth, exp))
  }

  lemma DecodeEncodeClaims(c: Claims, x: string)
    ensures DecodeClaims(EncodeClaims(c) + x) == Some(c)
  {
    var t := EncodeClaims(c) + x;
    assert t[1..] == EncodeText(c.sub) + (EncodeText(c.auth) + (EncodeInstant(c.exp) + x));
    DecodeEncodeText(c.sub, EncodeText(c.auth) + (EncodeInstant(c.exp) + x));
    DecodeEncodeText(c.auth, EncodeInstant(c.exp) + x);
    DecodeEncodeInstant(c.exp, x);
  }

  /** "Signing" writes the claims as they go on the wire; the key plays no part. */
  function WitnessCompact(k: Key, c: Claims): string {
    EncodeClaims(OnWire(c))
  }

  /** Accepts any string that starts with the encoding of some claims, and
      returns those claims as they are (a subject without text included). */
  function WitnessParse(k: Key, t: string, now: nat): Parsed {
    if !HasText(t) then IllegalArgument
    else match DecodeClaims(t)
      case Some(c) => if Live(c, now) then Verified(c) else Expired(c)
      case None => BadSignature
  }

  lemma WitnessIsLawful()
    ensures Lawful(Codec(WitnessCompact, WitnessParse))
  {
    var codec := Codec(WitnessCompact, WitnessParse);
    forall k: Key, c: Claims, now: nat
      ensures codec.parse(k, codec.compact(k, c), now) == SignedOutcome(c, now)
    {
      var t := EncodeClaims(OnWire(c));
      assert t[0] == 'J' && !IsWhitespace(t[0]);
      DecodeEncodeClaims(OnWire(c), []);
      assert t + [] == t;
      OnWireIdempotent(c);
    }
  }

  /** A token with a character appended is a different string that the lawful
      witness still accepts, with the token's claims. */
  lemma WitnessAcceptsOtherSpellings(k: Key, c: Claims, now: nat)
    ensures var t := WitnessCompact(k, c);
      && t + "!" != t
      && WitnessParse(k, t + "!", now) == WitnessParse(k, t, now) == SignedOutcome(c, now)
  {
    var t := WitnessCompact(k, c);
    assert (t + "!")[0] == 'J' && !IsWhitespace((t + "!")[0]);
    assert t[0] == 'J' && !IsWhitespace(t[0]);
    DecodeEncodeClaims(OnWire(c), "!");
    DecodeEncodeClaims(OnWire(c), []);
    assert t + [] == t;
    OnWireIdempotent(c);
  }

  /** Claims that `compact` never writes (a subject without text), encoded by
      some other key holder, come back unchanged, as JJWT returns them. */
  lemma WitnessKeepsBlankSubject(k: Key, now: nat)
    ensures WitnessParse(k, EncodeClaims(Claims(Some(" "), Some("USER"), None)), now)
         == Verified(Claims(Some(" "), Some("USER"), None))
  {
    var c := Claims(Some(" "), Some("USER"), None);
    var t := EncodeClaims(c);
    assert t[0] == 'J' && !IsWhitespace(t[0]);
    DecodeEncodeClaims(c, []);
    assert t + [] == t;
  }
}
