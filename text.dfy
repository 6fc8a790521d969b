/**
 * Character classes, ASCII lower-casing, prefix spans and decimal digit
 * strings: the text primitives the header normaliser and the two cell
 * parsers are built from.
 */
module Text {

  predicate IsDigit(c: char) {
    '0' <= c <= '9'
  }

  predicate IsUpper(c: char) {
    'A' <= c <= 'Z'
  }

  predicate IsAsciiLetter(c: char) {
    IsUpper(c) || 'a' <= c <= 'z'
  }

  /**
   * The characters that Python's `str.isspace` (and so the `\s` of the
   * date pattern) accepts.
   */
  predicate IsSpace(c: char) {
    var n := c as int;
    (9 <= n <= 13) || (28 <= n <= 32) || n == 0x85 || n == 0xA0 || n == 0x1680
    || (0x2000 <= n <= 0x200A) || n == 0x2028 || n == 0x2029 || n == 0x202F
    || n == 0x205F || n == 0x3000
  }

  predicate AllDigits(s: string) {
    forall i :: 0 <= i < |s| ==> IsDigit(s[i])
  }

  predicate HasNoUpper(s: string) {
    forall i :: 0 <= i < |s| ==> !IsUpper(s[i])
  }

  function LowerChar(c: char): char {
    if IsUpper(c) then (c as int + 32) as char else c
  }

  function UpperChar(c: char): char {
    if 'a' <= c <= 'z' then (c as int - 32) as char else c
  }

  /**
   * `str.lower()` restricted to ASCII letters: the same length, no capital
   * left, each capital replaced by its own small letter and every other
   * character kept.
   */
  function Lower(s: string): (r: string)
    ensures |r| == |s| && HasNoUpper(r)
    ensures forall i :: 0 <= i < |s| ==> if IsUpper(s[i]) then UpperChar(r[i]) == s[i] else r[i] == s[i]
  {
    seq(|s|, i requires 0 <= i < |s| => LowerChar(s[i]))
  }

  /**
   * Lower-casing yields text without capitals, only changes capitals, and
   * turns each capital into its own small letter.
   */
  lemma LowerProperties(s: string)
    ensures |Lower(s)| == |s| && HasNoUpper(Lower(s))
    ensures forall i :: 0 <= i < |s| && !IsUpper(s[i]) ==> Lower(s)[i] == s[i]
    ensures forall i :: 0 <= i < |s| ==> UpperChar(Lower(s)[i]) == UpperChar(s[i])
    ensures Lower(Lower(s)) == Lower(s)
  {
  }

  /** "Reign" and "REIGN" both become "reign". */
  lemma LowerExample()
    ensures Lower("Reign") == "reign" && Lower("REIGN") == "reign"
  {
  }

  /** Text without capitals is left as it is. */
  lemma LowerOfLowerCase(s: string)
    requires HasNoUpper(s)
    ensures Lower(s) == s
  {
  }

  datatype CharClass = Letters | Spaces | Digits

  predicate InClass(c: char, k: CharClass) {
    match k
    case Letters => IsAsciiLetter(c)
    case Spaces => IsSpace(c)
    case Digits => IsDigit(c)
  }

  /** The length of the longest prefix of `s` made of characters of class `k`. */
  function Span(s: string, k: CharClass): (n: nat)
    ensures n <= |s|
    ensures forall i :: 0 <= i < n ==> InClass(s[i], k)
    ensures n < |s| ==> !InClass(s[n], k)
  {
    if s == [] || !InClass(s[0], k) then 0 else 1 + Span(s[1..], k)
  }

  /** A prefix of class `k` followed by a character outside it is exactly the span. */
  lemma SpanOfPrefix(a: string, b: string, k: CharClass)
    requires forall i :: 0 <= i < |a| ==> InClass(a[i], k)
    requires b == [] || !InClass(b[0], k)
    ensures Span(a + b, k) == |a|
  {
    var s := a + b;
    assert forall i :: 0 <= i < |a| ==> s[i] == a[i];
    assert |a| < |s| ==> s[|a|] == b[0];
  }

  function DigitValue(c: char): nat
    requires IsDigit(c)
  {
    c as int - '0' as int
  }

  function DigitChar(d: nat): (c: char)
    requires d < 10
    ensures IsDigit(c) && DigitValue(c) == d
  {
    ('0' as int + d) as char
  }

  /** The value of a string of decimal digits, most significant first. */
  function Value(s: string): nat
    requires AllDigits(s)
  {
    if s == [] then 0 else Value(s[..|s| - 1]) * 10 + DigitValue(s[|s| - 1])
  }

  /** The shortest decimal text of `n`; reading it back gives `n`. */
  function ShowNat(n: nat): (s: string)
    ensures |s| > 0 && AllDigits(s)
    ensures Value(s) == n
    ensures n < 10 ==> |s| == 1
    ensures 10 <= n < 100 ==> |s| == 2
  {
    if n < 10 then [DigitChar(n)]
    else
      var s := ShowNat(n / 10) + [DigitChar(n % 10)];
      assert s[..|s| - 1] == ShowNat(n / 10);
      s
  }
}
