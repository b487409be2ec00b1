/**
 * The pieces of java.lang.String, Spring's StringUtils and Hibernate Validator's
 * @NotBlank that the authentication pipeline relies on. Strings are sequences of
 * Unicode code points.
 */
module JavaText {

  /** Character.isWhitespace: the Unicode space separators other than the
      no-break spaces, the line and paragraph separators, and the ASCII
      controls TAB, LF, VT, FF, CR and FS, GS, RS, US. */
  predicate IsWhitespace(c: char) {
    var n := c as int;
    (9 <= n <= 13) || (28 <= n <= 32) || n == 0x1680
    || (0x2000 <= n <= 0x2006) || (0x2008 <= n <= 0x200A)
    || n == 0x2028 || n == 0x2029 || n == 0x205F || n == 0x3000
  }

  /** StringUtils.hasText on a non-null string: some character is not whitespace. */
  predicate HasText(s: string) {
    exists i :: 0 <= i < |s| && !IsWhitespace(s[i])
  }

  /** @NotBlank on a non-null string: `s.trim().length() > 0`, i.e. some
      character lies above U+0020 (trim strips everything up to the space). */
  predicate SurvivesTrim(s: string) {
    exists i :: 0 <= i < |s| && s[i] as int > 32
  }

  /** String.startsWith. */
  predicate StartsWith(s: string, prefix: string) {
    |prefix| <= |s| && s[..|prefix|] == prefix
  }

  /** Collectors.joining(","): the parts separated by single commas, "" for no parts. */
  function Join(parts: seq<string>): (r: string)
    ensures |parts| == 1 ==> r == parts[0]
  {
    if |parts| == 0 then ""
    else if |parts| == 1 then parts[0]
    else parts[0] + "," + Join(parts[1..])
  }

  /** The pieces between commas, every one of them, empty ones included. */
  function Segments(s: string): (r: seq<string>)
    ensures |r| >= 1
    ensures forall j :: 0 <= j < |r| ==> ',' !in r[j]
  {
    if |s| == 0 then [""]
    else if s[0] == ',' then [""] + Segments(s[1..])
    else
      var rest := Segments(s[1..]);
      [[s[0]] + rest[0]] + rest[1..]
  }

  /** The list with its trailing empty strings removed. */
  function DropTrailingEmpty(parts: seq<string>): (r: seq<string>)
    ensures |r| <= |parts| && r == parts[..|r|]
    ensures r != [] ==> r[|r| - 1] != ""
    ensures forall j :: |r| <= j < |parts| ==> parts[j] == ""
  {
    if |parts| > 0 && parts[|parts| - 1] == "" then DropTrailingEmpty(parts[..|parts| - 1])
    else parts
  }

  /** String.split(","): when no comma occurs the result is the string itself
      (so "" splits into [""]); otherwise the comma-separated pieces with the
      trailing empty ones removed (so "," splits into []). */
  function Split(s: string): (r: seq<string>)
    ensures forall j :: 0 <= j < |r| ==> ',' !in r[j]
  {
    if ',' !in s then [s] else DropTrailingEmpty(Segments(s))
  }

  lemma {:induction false} SegmentsOfPlain(a: string)
    requires ',' !in a
    ensures Segments(a) == [a]
  {
    if |a| > 0 {
      assert ',' !in a[1..];
      SegmentsOfPlain(a[1..]);
      assert [a[0]] + a[1..] == a;
    }
  }

  lemma {:induction false} SegmentsAfterComma(a: string, b: string)
    requires ',' !in a
    ensures Segments(a + "," + b) == [a] + Segments(b)
  {
    if |a| == 0 {
      assert a + "," + b == [','] + b;
      assert (a + "," + b)[1..] == b;
    } else {
      assert ',' !in a[1..];
      SegmentsAfterComma(a[1..], b);
      assert (a + "," + b)[1..] == a[1..] + "," + b;
      assert [a[0]] + a[1..] == a;
    }
  }

  lemma {:induction false} SegmentsOfJoin(parts: seq<string>)
    requires |parts| > 0
    requires forall j :: 0 <= j < |parts| ==> ',' !in parts[j]
    ensures Segments(Join(parts)) == parts
  {
    if |parts| == 1 {
      SegmentsOfPlain(parts[0]);
    } else {
      SegmentsOfJoin(parts[1..]);
      SegmentsAfterComma(parts[0], Join(parts[1..]));
      assert [parts[0]] + parts[1..] == parts;
    }
  }

  /** Splitting a joined list gives the list back, as long as there is at least
      one part and every part is non-empty and free of commas. */
  lemma {:induction false} SplitJoin(parts: seq<string>)
    requires |parts| > 0
    requires forall j :: 0 <= j < |parts| ==> parts[j] != "" && ',' !in parts[j]
    ensures Split(Join(parts)) == parts
  {
    if |parts| == 1 {
    } else {
      var s := Join(parts);
      assert s == parts[0] + "," + Join(parts[1..]);
      assert s[|parts[0]|] == ',';
      SegmentsOfJoin(parts);
      assert parts[|parts| - 1] != "";
    }
  }

  /** Joining no parts gives "", which splits into one empty piece, not into no pieces. */
  lemma JoinNothingSplitsToEmptyPiece()
    ensures Split(Join([])) == [""]
  {
  }
}
