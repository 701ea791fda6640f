/** The string builtins of Python 3 that the curation scripts use:
    str.strip, str.lower, str.isupper, str.isalpha, str.endswith,
    str.split('/')[0] and int() on a decimal literal.
    Character classes are stated for the Latin script only (see README). */
module Text {

  /** str.isspace() for one character: every character Python strips. */
  predicate IsSpace(c: char) {
    || c == ' '
    || '\t' <= c <= '\r'
    || '\U{1C}' <= c <= '\U{1F}'
    || c == '\U{85}' || c == '\U{A0}' || c == '\U{1680}'
    || '\U{2000}' <= c <= '\U{200A}'
    || c == '\U{2028}' || c == '\U{2029}' || c == '\U{202F}'
    || c == '\U{205F}' || c == '\U{3000}'
  }

  /** str.lower() for one character: ASCII and Latin-1 capitals, plus Œ and Ÿ. */
  function LowerChar(c: char): (r: char)
    ensures r == c || (!IsSpace(c) && !IsSpace(r) && r != c)
  {
    if 'A' <= c <= 'Z' || ('\U{C0}' <= c <= '\U{DE}' && c != '\U{D7}') then
      (c as int + 32) as char
    else if c == '\U{152}' then '\U{153}'
    else if c == '\U{178}' then '\U{FF}'
    else c
  }

  /** str.isupper() for one character: exactly the characters lower() changes. */
  predicate IsUpper(c: char) {
    LowerChar(c) != c
  }

  lemma LowerCharIdempotent(c: char)
    ensures LowerChar(LowerChar(c)) == LowerChar(c)
    ensures !IsUpper(LowerChar(c))
  {
  }

  /** str.isalpha() for one character, restricted to the Latin script:
      ASCII letters, the Latin-1 letters, Latin Extended-A and -B, and the
      Latin ligatures U+FB00 to U+FB06 (among them ﬁ and ﬂ). */
  predicate IsAlpha(c: char) {
    || 'a' <= c <= 'z' || 'A' <= c <= 'Z'
    || c == '\U{AA}' || c == '\U{B5}' || c == '\U{BA}'
    || ('\U{C0}' <= c <= '\U{24F}' && c != '\U{D7}' && c != '\U{F7}')
    || '\U{FB00}' <= c <= '\U{FB06}'
  }

  /** str.lower() on a whole string: a character-by-character map. */
  function Lower(s: string): (r: string)
    ensures |r| == |s|
    ensures forall i :: 0 <= i < |s| ==> r[i] == LowerChar(s[i])
  {
    seq(|s|, i requires 0 <= i < |s| => LowerChar(s[i]))
  }

  lemma {:induction false} LowerIdempotent(s: string)
    ensures Lower(Lower(s)) == Lower(s)
    ensures forall i :: 0 <= i < |s| ==> !IsUpper(Lower(s)[i])
  {
    forall i | 0 <= i < |s|
      ensures Lower(Lower(s))[i] == Lower(s)[i] && !IsUpper(Lower(s)[i])
    {
      LowerCharIdempotent(s[i]);
    }
  }

  /** The part of s left after str.lstrip(). */
  function TrimStart(s: string): string {
    if |s| > 0 && IsSpace(s[0]) then TrimStart(s[1..]) else s
  }

  /** The part of s left after str.rstrip(). */
  function TrimEnd(s: string): string {
    if |s| > 0 && IsSpace(s[|s| - 1]) then TrimEnd(s[..|s| - 1]) else s
  }

  /** str.strip(). */
  function Strip(s: string): string {
    TrimEnd(TrimStart(s))
  }

  /** lstrip() drops a run of white space at the front and nothing else. */
  lemma {:induction false} TrimStartSpec(s: string)
    ensures |TrimStart(s)| <= |s| && TrimStart(s) == s[|s| - |TrimStart(s)|..]
    ensures forall k :: 0 <= k < |s| - |TrimStart(s)| ==> IsSpace(s[k])
    ensures TrimStart(s) == [] || !IsSpace(TrimStart(s)[0])
    decreases |s|
  {
    if |s| > 0 && IsSpace(s[0]) {
      TrimStartSpec(s[1..]);
    }
  }

  /** rstrip() drops a run of white space at the back and nothing else. */
  lemma {:induction false} TrimEndSpec(s: string)
    ensures |TrimEnd(s)| <= |s| && TrimEnd(s) == s[..|TrimEnd(s)|]
    ensures forall k :: |TrimEnd(s)| <= k < |s| ==> IsSpace(s[k])
    ensures TrimEnd(s) == [] || !IsSpace(TrimEnd(s)[|TrimEnd(s)| - 1])
    decreases |s|
  {
    if |s| > 0 && IsSpace(s[|s| - 1]) {
      TrimEndSpec(s[..|s| - 1]);
    }
  }

  /** Where the slice strip() keeps begins. */
  function StripStart(s: string): int {
    |s| - |TrimStart(s)|
  }

  /** strip() keeps a slice of s that neither starts nor ends with white
      space, and drops only white space around it. It is empty exactly when
      s is all white space. */
  lemma StripSpec(s: string)
    ensures |Strip(s)| <= |s|
    ensures Strip(s) == [] || (!IsSpace(Strip(s)[0]) && !IsSpace(Strip(s)[|Strip(s)| - 1]))
    ensures Strip(s) == [] <==> forall k :: 0 <= k < |s| ==> IsSpace(s[k])
    ensures 0 <= StripStart(s) <= |s| - |Strip(s)|
    ensures Strip(s) == s[StripStart(s)..StripStart(s) + |Strip(s)|]
    ensures forall k :: 0 <= k < StripStart(s) ==> IsSpace(s[k])
    ensures forall k :: StripStart(s) + |Strip(s)| <= k < |s| ==> IsSpace(s[k])
  {
    var t := TrimStart(s);
    TrimStartSpec(s);
    TrimEndSpec(t);
    var i := |s| - |t|;
    assert Strip(s) == s[i..i + |Strip(s)|];
    forall k | i + |Strip(s)| <= k < |s| ensures IsSpace(s[k]) {
      assert s[k] == t[k - i];
    }
    if Strip(s) != [] {
      assert Strip(s)[0] == t[0];
    }
  }

  /** A string without white space at its ends is its own strip(). */
  lemma {:induction false} StripOfStripped(s: string)
    requires s == [] || (!IsSpace(s[0]) && !IsSpace(s[|s| - 1]))
    ensures Strip(s) == s
  {
    assert TrimStart(s) == s;
    assert TrimEnd(s) == s;
  }

  lemma StripIdempotent(s: string)
    ensures Strip(Strip(s)) == Strip(s)
  {
    StripSpec(s);
    StripOfStripped(Strip(s));
  }

  /** str.endswith(suffix). */
  predicate EndsWith(s: string, suffix: string) {
    |suffix| <= |s| && s[|s| - |suffix|..] == suffix
  }

  /** s.split('/')[0]: everything before the first '/', or all of s. */
  function BeforeSlash(s: string): (r: string)
    ensures |r| <= |s| && r == s[..|r|]
    ensures '/' !in r
    ensures |r| < |s| ==> s[|r|] == '/'
  {
    if s == [] || s[0] == '/' then [] else [s[0]] + BeforeSlash(s[1..])
  }

  predicate IsDigit(c: char) {
    '0' <= c <= '9'
  }

  /** What may follow the first digit of an integer literal: digits, each
      possibly preceded by one underscore. */
  predicate DigitTail(s: string)
    decreases |s|
  {
    || s == []
    || (IsDigit(s[0]) && DigitTail(s[1..]))
    || (|s| >= 2 && s[0] == '_' && IsDigit(s[1]) && DigitTail(s[2..]))
  }

  /** CPython's default limit on the number of digits int() converts from a
      decimal string (sys.int_info.default_max_str_digits, from Python 3.11). */
  const INT_MAX_STR_DIGITS: nat := 4300

  /** How many characters of s are digits; underscores do not count. */
  function DigitCount(s: string): nat {
    if s == [] then 0 else (if IsDigit(s[0]) then 1 else 0) + DigitCount(s[1..])
  }

  /** The stripped strings that int() converts without raising ValueError:
      an optional sign, then ASCII digits with single underscores between
      them, and no more than INT_MAX_STR_DIGITS digits, leading zeros
      included. */
  predicate IsIntLiteral(s: string) {
    var digits := if |s| > 0 && (s[0] == '+' || s[0] == '-') then s[1..] else s;
    && |digits| > 0 && IsDigit(digits[0]) && DigitTail(digits[1..])
    && DigitCount(digits) <= INT_MAX_STR_DIGITS
  }

  /** A string of digits counts every character. */
  lemma {:induction false} DigitCountOfDigits(s: string)
    requires forall i :: 0 <= i < |s| ==> IsDigit(s[i])
    ensures DigitCount(s) == |s|
    decreases |s|
  {
    if s != [] {
      DigitCountOfDigits(s[1..]);
    }
  }

  /** A plain run of digits is an int() literal exactly when it is non-empty
      and no longer than the digit limit: 4300 ones parse, 4301 do not. */
  lemma {:induction false} DigitRunLiteral(s: string)
    requires forall i :: 0 <= i < |s| ==> IsDigit(s[i])
    ensures IsIntLiteral(s) <==> 0 < |s| <= INT_MAX_STR_DIGITS
    decreases |s|
  {
    DigitCountOfDigits(s);
    if s != [] {
      DigitRunTail(s[1..]);
    }
  }

  lemma {:induction false} DigitRunTail(s: string)
    requires forall i :: 0 <= i < |s| ==> IsDigit(s[i])
    ensures DigitTail(s)
    decreases |s|
  {
    if s != [] {
      DigitRunTail(s[1..]);
    }
  }

  lemma IntLiteralExamples()
    ensures IsIntLiteral("73254") && IsIntLiteral("+1_000")
    ensures !IsIntLiteral("") && !IsIntLiteral("abc") && !IsIntLiteral("1__0") && !IsIntLiteral("12_")
  {
    assert DigitTail("3254");
    assert DigitTail("_000") by { assert DigitTail("000"); }
    assert !DigitTail("__0");
    assert !DigitTail("2_") by { assert !DigitTail("_"); }
  }
}
