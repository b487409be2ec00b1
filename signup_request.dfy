/**
 * The request bodies of signup and login and the Bean Validation constraints
 * declared on them, as predicates. @Email is left to a predicate supplied by
 * the caller.
 */
module SignUpRequest {
  import opened Wrappers
  import opened JavaText

  datatype SignUpRequestDto = SignUpRequestDto(
    id: Option<string>, pw: Option<string>, email: Option<string>, nickname: Option<string>, phone: Option<string>)

  datatype LoginRequestDto = LoginRequestDto(username: Option<string>, pw: Option<string>)

  /** @NotBlank: not null, and not empty after trim(). */
  predicate NotBlank(s: Option<string>) {
    s.Some? && SurvivesTrim(s.value)
  }

  /** @Pattern: null is valid; otherwise the whole string must match. */
  predicate PatternHolds(s: Option<string>, matches: string -> bool) {
    s.None? || matches(s.value)
  }

  predicate IsAsciiDigit(c: char) { '0' <= c <= '9' }
  predicate IsAsciiLetter(c: char) { ('a' <= c <= 'z') || ('A' <= c <= 'Z') }

  /** The characters `.` does not match: \n, \r, U+0085, U+2028, U+2029. */
  predicate IsLineTerminator(c: char) {
    c == '\n' || c == '\r' || c as int == 0x85 || c as int == 0x2028 || c as int == 0x2029
  }

  /** `(?=.*X)` at the start: some position holds an X with only non-terminators before it. */
  predicate LookaheadFinds(s: string, digit: bool) {
    exists i :: 0 <= i < |s| && (if digit then IsAsciiDigit(s[i]) else IsAsciiLetter(s[i]))
      && forall j :: 0 <= j < i ==> !IsLineTerminator(s[j])
  }

  /** `(?=.*\d)(?=.*[a-zA-Z])[0-9a-zA-Z]{4,16}`, matched against the whole string. */
  predicate PwPattern(s: string) {
    && LookaheadFinds(s, true)
    && LookaheadFinds(s, false)
    && 4 <= |s| <= 16
    && forall i :: 0 <= i < |s| ==> IsAsciiDigit(s[i]) || IsAsciiLetter(s[i])
  }

  /** The first character class of the nickname pattern: ASCII letters and
      digits, the Hangul compatibility jamo ㄱ-ㅎ and ㅏ-ㅣ, the syllables
      가-힣, and `|`, which inside brackets is an ordinary character. */
  predicate NicknameLead(c: char) {
    var n := c as int;
    IsAsciiDigit(c) || IsAsciiLetter(c) || c == '|'
    || (0x3131 <= n <= 0x314E) || (0x314F <= n <= 0x3163) || (0xAC00 <= n <= 0xD7A3)
  }

  /** `([a-zA-Z0-9ㄱ-ㅎ|ㅏ-ㅣ|가-힣]).{1,10}`, matched against the whole string. */
  predicate NicknamePattern(s: string) {
    && |s| >= 1
    && NicknameLead(s[0])
    && 1 <= |s| - 1 <= 10
    && forall i :: 1 <= i < |s| ==> !IsLineTerminator(s[i])
  }

  /** BindingResult.hasErrors() for a signup body. */
  predicate SignUpHasErrors(dto: SignUpRequestDto, isEmail: string -> bool) {
    || !NotBlank(dto.id)
    || !NotBlank(dto.pw) || !PatternHolds(dto.pw, PwPattern)
    || !NotBlank(dto.email) || !PatternHolds(dto.email, isEmail)
    || !NotBlank(dto.nickname) || !PatternHolds(dto.nickname, NicknamePattern)
    || !NotBlank(dto.phone)
  }

  /** BindingResult.hasErrors() for a login body. */
  predicate LoginHasErrors(dto: LoginRequestDto) {
    !NotBlank(dto.username) || !NotBlank(dto.pw)
  }

  /** A signup body that binds without errors has all five fields present and
      with a character above U+0020, a 4 to 16 character ASCII password with a
      digit and a letter, and a 2 to 11 character nickname. */
  lemma {:induction false} AcceptedSignUp(dto: SignUpRequestDto, isEmail: string -> bool)
    requires !SignUpHasErrors(dto, isEmail)
    ensures dto.id.Some? && dto.pw.Some? && dto.email.Some? && dto.nickname.Some? && dto.phone.Some?
    ensures SurvivesTrim(dto.id.value) && SurvivesTrim(dto.phone.value) && isEmail(dto.email.value)
    ensures 4 <= |dto.pw.value| <= 16
    ensures forall i :: 0 <= i < |dto.pw.value| ==> IsAsciiDigit(dto.pw.value[i]) || IsAsciiLetter(dto.pw.value[i])
    ensures exists i :: 0 <= i < |dto.pw.value| && IsAsciiDigit(dto.pw.value[i])
    ensures exists i :: 0 <= i < |dto.pw.value| && IsAsciiLetter(dto.pw.value[i])
    ensures 2 <= |dto.nickname.value| <= 11
  {
  }

  /** The lookaheads add only "contains a digit" and "contains a letter" to the
      character class: the password pattern is exactly these four conditions. */
  lemma PwPatternMeaning(s: string)
    ensures PwPattern(s) <==>
      && 4 <= |s| <= 16
      && (forall i :: 0 <= i < |s| ==> IsAsciiDigit(s[i]) || IsAsciiLetter(s[i]))
      && (exists i :: 0 <= i < |s| && IsAsciiDigit(s[i]))
      && (exists i :: 0 <= i < |s| && IsAsciiLetter(s[i]))
  {
    if && 4 <= |s| <= 16
       && (forall i :: 0 <= i < |s| ==> IsAsciiDigit(s[i]) || IsAsciiLetter(s[i]))
       && (exists i :: 0 <= i < |s| && IsAsciiDigit(s[i]))
       && (exists i :: 0 <= i < |s| && IsAsciiLetter(s[i]))
    {
      var d :| 0 <= d < |s| && IsAsciiDigit(s[d]);
      var l :| 0 <= l < |s| && IsAsciiLetter(s[l]);
      assert forall j :: 0 <= j < |s| ==> !IsLineTerminator(s[j]);
      assert LookaheadFinds(s, true);
      assert LookaheadFinds(s, false);
    }
  }

  /** Passwords made only of digits or only of letters are refused, whatever their length. */
  lemma {:induction false} SingleClassPasswordsRefused(s: string)
    requires (forall i :: 0 <= i < |s| ==> IsAsciiDigit(s[i])) || (forall i :: 0 <= i < |s| ==> IsAsciiLetter(s[i]))
    ensures !PwPattern(s)
  {
    PwPatternMeaning(s);
  }

  /** Accepted nicknames have 2 to 11 characters although the message says 1~10;
      `|` may lead; the tail may hold any characters except line terminators. */
  lemma NicknamePatternExamples()
    ensures !NicknamePattern("a")
    ensures NicknamePattern("|a")
    ensures NicknamePattern("a !?")
    ensures NicknamePattern("abcdefghijk")
    ensures !NicknamePattern("abcdefghijkl")
    ensures !NicknamePattern("a\nb")
    ensures !NicknamePattern(" ab")
  {
    assert !IsLineTerminator("a !?"[1]) && !IsLineTerminator("a !?"[2]) && !IsLineTerminator("a !?"[3]);
    assert IsLineTerminator("a\nb"[1]);
  }

  /** Examples of the password pattern. */
  lemma PwPatternExamples()
    ensures PwPattern("abc1")
    ensures !PwPattern("abcd") && !PwPattern("1234")
    ensures !PwPattern("ab1") && !PwPattern("abcdefghijklmno12")
    ensures !PwPattern("abc 1")
  {
    assert LookaheadFinds("abc1", true) by { assert IsAsciiDigit("abc1"[3]); }
    assert LookaheadFinds("abc1", false) by { assert IsAsciiLetter("abc1"[0]); }
    SingleClassPasswordsRefused("abcd");
    SingleClassPasswordsRefused("1234");
    assert !IsAsciiDigit("abc 1"[3]) && !IsAsciiLetter("abc 1"[3]);
  }
}
