/**
 * Character classes of JavaScript regular expressions (without the `u` flag)
 * and the scanning primitives the patterns of the extractor and the
 * codepoints parser are built from.
 */
module Text {

  /** `\w`: ASCII letters, digits and underscore. */
  predicate IsWordChar(c: char) {
    ('a' <= c <= 'z') || ('A' <= c <= 'Z') || ('0' <= c <= '9') || c == '_'
  }

  /** `\d` */
  predicate IsDigit(c: char) {
    '0' <= c <= '9'
  }

  /** `[0-9a-f]` under the `i` flag. */
  predicate IsHexDigit(c: char) {
    IsDigit(c) || ('a' <= c <= 'f') || ('A' <= c <= 'F')
  }

  /** `\s`: the WhiteSpace and LineTerminator code points of ECMAScript. */
  predicate IsSpace(c: char) {
    c == '\t' || c == '\n' || c == '\U{000B}' || c == '\U{000C}' || c == '\r' || c == ' '
    || c == '\U{00A0}' || c == '\U{1680}' || ('\U{2000}' <= c <= '\U{200A}')
    || c == '\U{2028}' || c == '\U{2029}' || c == '\U{202F}' || c == '\U{205F}'
    || c == '\U{3000}' || c == '\U{FEFF}'
  }

  /**
   * End of the longest run of characters satisfying `p` that starts at `i`:
   * what a greedy `[...]*` consumes from `i`.
   */
  function RunEnd(s: seq<char>, i: nat, p: char -> bool): (j: nat)
    requires i <= |s|
    ensures i <= j <= |s|
    ensures j == |s| || !p(s[j])
    decreases |s| - i
  {
    if i == |s| || !p(s[i]) then i else RunEnd(s, i + 1, p)
  }

  /** Every character of the run satisfies `p`. */
  lemma {:induction false} RunEndAll(s: seq<char>, i: nat, p: char -> bool)
    requires i <= |s|
    ensures forall k :: i <= k < RunEnd(s, i, p) ==> p(s[k])
    decreases |s| - i
  {
    if i < |s| && p(s[i]) {
      RunEndAll(s, i + 1, p);
    }
  }

  /** The literal `lit` occurs in `s` at position `i`. */
  predicate HasPrefixAt(s: seq<char>, i: nat, lit: seq<char>) {
    i + |lit| <= |s| && s[i..i + |lit|] == lit
  }

  /** `\d+` as a whole string. */
  predicate IsDigits(ds: seq<char>) {
    |ds| > 0 && forall k :: 0 <= k < |ds| ==> IsDigit(ds[k])
  }

  /** `-?\d+` as a whole string: the shape of every numeric capture. */
  predicate IsIntegerLiteral(v: seq<char>) {
    if |v| > 0 && v[0] == '-' then IsDigits(v[1..]) else IsDigits(v)
  }

  function DigitValue(c: char): (d: nat)
    requires IsDigit(c)
    ensures d < 10
  {
    c as int - '0' as int
  }

  /** Value of a string of decimal digits, most significant first. */
  function DigitsValue(ds: seq<char>): nat
    requires forall k :: 0 <= k < |ds| ==> IsDigit(ds[k])
  {
    if ds == [] then 0 else DigitsValue(ds[..|ds| - 1]) * 10 + DigitValue(ds[|ds| - 1])
  }

  /** `Number(v)` for a capture of `-?\d+`, as an unbounded integer. */
  function NumberOf(v: seq<char>): int
    requires IsIntegerLiteral(v)
  {
    if v[0] == '-' then -(DigitsValue(v[1..]) as int) else DigitsValue(v)
  }

  function DigitChar(d: nat): (c: char)
    requires d < 10
    ensures IsDigit(c) && DigitValue(c) == d
  {
    ('0' as int + d) as char
  }

  /** Canonical decimal numeral of a natural number (no leading zeros). */
  function NaturalNumeral(n: nat): (ds: seq<char>)
    ensures IsDigits(ds)
    decreases n
  {
    if n < 10 then [DigitChar(n)] else NaturalNumeral(n / 10) + [DigitChar(n % 10)]
  }

  /** Canonical numeral of an integer, as a theme value such as `-25` or `700` is written. */
  function Numeral(n: int): (v: seq<char>)
    ensures IsIntegerLiteral(v)
  {
    if n < 0 then ['-'] + NaturalNumeral(-n) else NaturalNumeral(n)
  }

  lemma {:induction false} NaturalNumeralValue(n: nat)
    ensures DigitsValue(NaturalNumeral(n)) == n
    decreases n
  {
    if n >= 10 {
      NaturalNumeralValue(n / 10);
      var ds := NaturalNumeral(n);
      assert ds[..|ds| - 1] == NaturalNumeral(n / 10);
    }
  }

  /** Parsing a canonical numeral gives back the number: `Number(String(n)) == n`. */
  lemma {:induction false} NumberOfNumeral(n: int)
    ensures NumberOf(Numeral(n)) == n
  {
    if n < 0 {
      NaturalNumeralValue(-n);
      assert Numeral(n)[1..] == NaturalNumeral(-n);
    } else {
      NaturalNumeralValue(n);
    }
  }

  /** The last character of a non-empty run satisfies `p`. */
  lemma RunEndLast(s: seq<char>, i: nat, p: char -> bool)
    requires i <= |s| && i < RunEnd(s, i, p)
    ensures p(s[RunEnd(s, i, p) - 1])
  {
    RunEndAll(s, i, p);
  }

  /** A run of `p` from i up to a character that fails `p` (or the end) is the run RunEnd finds. */
  lemma {:induction false} RunEndIs(s: seq<char>, i: nat, j: nat, p: char -> bool)
    requires i <= j <= |s| && (j == |s| || !p(s[j]))
    requires forall k :: i <= k < j ==> p(s[k])
    ensures RunEnd(s, i, p) == j
    decreases j - i
  {
    if i < j {
      RunEndIs(s, i + 1, j, p);
    }
  }

  /** The characters of a literal standing at i. */
  lemma PrefixAtChars(s: seq<char>, i: nat, lit: seq<char>)
    requires HasPrefixAt(s, i, lit)
    ensures forall k :: 0 <= k < |lit| ==> s[i + k] == lit[k]
  {
    forall k | 0 <= k < |lit| ensures s[i + k] == lit[k] {
      assert s[i..i + |lit|][k] == s[i + k];
    }
  }
}
