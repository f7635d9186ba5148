/**
 * What the scanner reads from declarations written the way the two
 * generations of generated stylesheets write them: each fragment, tried at
 * the start of such a declaration, matches it and captures the value
 * written in it. These are the converses of the shape guarantees of the
 * fragments in Scanner.
 */
module Completeness {
  import opened Wrappers
  import opened Text
  import opened Scanner

  /** Every character is whitespace. */
  ghost predicate AllSpaces(t: string) {
    forall k :: 0 <= k < |t| ==> IsSpace(t[k])
  }

  /** The characters in [q, w) are all whitespace. */
  ghost predicate Spaces(s: string, q: nat, w: nat) {
    q <= w <= |s| && AllSpaces(s[q..w])
  }

  /** `\s*` from q stops at w when w is not whitespace. */
  lemma SpacesEnd(s: string, q: nat, w: nat)
    requires Spaces(s, q, w) && w < |s| && !IsSpace(s[w])
    ensures RunEnd(s, q, IsSpace) == w
  {
    forall k | q <= k < w ensures IsSpace(s[k]) {
      assert s[k] == s[q..w][k - q];
    }
    RunEndIs(s, q, w, IsSpace);
  }

  /**
   * An integer written after some whitespace: `\s*` then the literal v
   * (`-?\d+`), not followed by a further digit.
   */
  ghost predicate IntegerLaidOut(s: string, q: nat, w: nat, v: string) {
    && Spaces(s, q, w) && IsIntegerLiteral(v) && HasPrefixAt(s, w, v)
    && (w + |v| == |s| || !IsDigit(s[w + |v|]))
  }

  /** `-?\d+` at w reads the integer literal standing there. */
  lemma SignedDigitsReads(s: string, w: nat, v: string)
    requires IsIntegerLiteral(v) && HasPrefixAt(s, w, v)
    requires w + |v| == |s| || !IsDigit(s[w + |v|])
    ensures SignedDigitsAt(s, w) == Some(Capture(v, w + |v|))
  {
    var e := w + |v|;
    PrefixAtChars(s, w, v);
    assert s[w..e] == v;
    if v[0] == '-' {
      assert IsDigits(v[1..]);
      forall k | w + 1 <= k < e ensures IsDigit(s[k]) {
        assert s[k] == v[k - w] == v[1..][k - w - 1];
      }
      RunEndIs(s, w + 1, e, IsDigit);
      assert IsDigit(v[1..][0]);
    } else {
      assert IsDigits(v);
      forall k | w <= k < e ensures IsDigit(s[k]) {
        assert s[k] == v[k - w];
      }
      RunEndIs(s, w, e, IsDigit);
    }
  }

  /** `\s*(?<value>-?\d+)` reads the integer literal written after whitespace. */
  lemma IntegerReads(s: string, q: nat, w: nat, v: string)
    requires IntegerLaidOut(s, q, w, v)
    ensures IntegerAt(s, q) == Some(Capture(v, w + |v|))
  {
    PrefixAtChars(s, w, v);
    assert s[w] == v[0];
    assert v[0] == '-' || IsDigit(v[0]) by {
      if v[0] != '-' {
        assert IsDigits(v);
      }
    }
    SpacesEnd(s, q, w);
    SignedDigitsReads(s, w, v);
  }

  /** `Number` of the capture of an integer written as the numeral of n is n. */
  lemma NumeralReads(s: string, q: nat, w: nat, n: int)
    requires IntegerLaidOut(s, q, w, Numeral(n))
    ensures IntegerAt(s, q).Some? && NumberOf(IntegerAt(s, q).value.value) == n
  {
    IntegerReads(s, q, w, Numeral(n));
    NumberOfNumeral(n);
  }

  /** Where a value written at w, after its optional opening quote, ends. */
  function QuotedEnd(w: nat, quoted: bool, v: string): nat {
    w + (if quoted then 1 else 0) + |v|
  }

  /**
   * A value written after some whitespace: `\s*`, an opening quote when
   * `quoted`, then the value, which does not start with whitespace, and
   * then a quote, `;`, `}` or the end of the text.
   */
  ghost predicate QuotedLaidOut(s: string, q: nat, w: nat, quoted: bool, v: string) {
    && Spaces(s, q, w) && IsValueText(v)
    && (if quoted then w < |s| && IsQuote(s[w]) && HasPrefixAt(s, w + 1, v)
        else HasPrefixAt(s, w, v) && !IsSpace(v[0]))
    && (QuotedEnd(w, quoted, v) == |s| || !IsValueChar(s[QuotedEnd(w, quoted, v)]))
  }

  /** `['"]?(?<value>[^'";}]+)` at w reads the value written there. */
  lemma QuotedAtReads(s: string, q: nat, w: nat, quoted: bool, v: string)
    requires QuotedLaidOut(s, q, w, quoted, v)
    ensures QuotedAt(s, w) == Some(Capture(v, QuotedEnd(w, quoted, v)))
  {
    var b := if quoted then w + 1 else w;
    var e := QuotedEnd(w, quoted, v);
    PrefixAtChars(s, b, v);
    forall k | b <= k < e ensures IsValueChar(s[k]) {
      assert s[k] == v[k - b];
    }
    RunEndIs(s, b, e, IsValueChar);
    assert s[b] == v[0];
    assert s[b..e] == v;
  }

  /** The character where the whitespace of a laid-out value stops. */
  lemma QuotedStart(s: string, q: nat, w: nat, quoted: bool, v: string)
    requires QuotedLaidOut(s, q, w, quoted, v)
    ensures w < |s| && !IsSpace(s[w]) && RunEnd(s, q, IsSpace) == w
  {
    if !quoted {
      PrefixAtChars(s, w, v);
      assert s[w] == v[0];
    }
    SpacesEnd(s, q, w);
  }

  /** The v4 value part reads the value written after the whitespace. */
  lemma QuotedReads(s: string, q: nat, w: nat, quoted: bool, v: string)
    requires QuotedLaidOut(s, q, w, quoted, v)
    ensures QuotedValue(s, q) == Some(Capture(v, QuotedEnd(w, quoted, v)))
  {
    QuotedStart(s, q, w, quoted, v);
    QuotedAtReads(s, q, w, quoted, v);
    QuotedValueReads(s, q);
  }

  /**
   * The v3 value part, as written and corrected, reads the value written
   * after the whitespace when that value is quoted or is not `var(...)`.
   */
  lemma V3ValueReads(s: string, q: nat, w: nat, quoted: bool, v: string, corrected: bool)
    requires QuotedLaidOut(s, q, w, quoted, v) && (quoted || !HasPrefixAt(s, w, "var("))
    ensures V3Value(s, q, corrected) == Some(Capture(v, QuotedEnd(w, quoted, v)))
  {
    QuotedStart(s, q, w, quoted, v);
    if HasPrefixAt(s, w, "var(") {
      VarAt(s, w);
    }
    QuotedReads(s, q, w, quoted, v);
  }

  /** Where the v3 fragment matches, the pattern reports its match. */
  lemma V3First(c: Category, s: string, p: nat, m: Match, corrected: bool)
    requires p <= |s| && MatchV3(c, s, p, corrected) == Some(m)
    ensures MatchAt(c, s, p, corrected) == Some(m)
  {
  }

  /** The v3 fragment of an axis is the axis fragment. */
  lemma AxisIsV3(c: Category, s: string, p: nat, corrected: bool)
    requires c.IsAxis() && p <= |s|
    ensures MatchV3(c, s, p, corrected) == AxisV3(c, s, p)
  {
  }

  /** The v3 axis fragment reports the integer read after the property. */
  lemma AxisV3Step(c: Category, s: string, p: nat, w: nat, v: string)
    requires c.IsAxis() && p <= |s| && NotAfterWordOrDash(s, p) && HasPrefixAt(s, p, V3Lead(c))
    requires IntegerAt(s, p + |V3Lead(c)|) == Some(Capture(v, w + |v|))
    ensures AxisV3(c, s, p) == Some(Match(p, w + |v|, Groups(None, Some(v), None, None)))
  {
  }

  /** The v3 axis fragment alone reads the integer after the property. */
  lemma AxisV3Value(c: Category, s: string, p: nat, w: nat, v: string)
    requires c.IsAxis() && p <= |s| && NotAfterWordOrDash(s, p) && HasPrefixAt(s, p, V3Lead(c))
    requires IntegerLaidOut(s, p + |V3Lead(c)|, w, v)
    ensures AxisV3(c, s, p) == Some(Match(p, w + |v|, Groups(None, Some(v), None, None)))
  {
    IntegerReads(s, p + |V3Lead(c)|, w, v);
    AxisV3Step(c, s, p, w, v);
  }

  /** `--icon-<axis>: <v>`: the v3 axis fragment reads the integer v. */
  lemma AxisV3Reads(c: Category, s: string, p: nat, w: nat, v: string, corrected: bool)
    requires c.IsAxis() && p <= |s| && NotAfterWordOrDash(s, p) && HasPrefixAt(s, p, V3Lead(c))
    requires IntegerLaidOut(s, p + |V3Lead(c)|, w, v)
    ensures MatchAt(c, s, p, corrected) == Some(Match(p, w + |v|, Groups(None, Some(v), None, None)))
  {
    var m := Match(p, w + |v|, Groups(None, Some(v), None, None));
    AxisV3Value(c, s, p, w, v);
    AxisIsV3(c, s, p, corrected);
    SameMatch(MatchV3(c, s, p, corrected), AxisV3(c, s, p), Some(m));
    V3First(c, s, p, m, corrected);
  }

  /** `--icon-<axis>-<suffix>: <v>` with a listed suffix: the v4 axis fragment reads the integer v. */
  lemma AxisV4Reads(c: Category, s: string, p: nat, i: nat, w: nat, v: string, corrected: bool)
    requires c.IsAxis() && i < |c.Suffixes()| && p <= |s| && NotAfterWordOrDash(s, p)
    requires HasPrefixAt(s, p, V4Lead(c)) && HasPrefixAt(s, p + |V4Lead(c)|, c.Suffixes()[i] + ":")
    requires IntegerLaidOut(s, p + |V4Lead(c)| + |c.Suffixes()[i]| + 1, w, v)
    ensures MatchAt(c, s, p, corrected) == Some(Match(p, w + |v|, Groups(None, None, None, Some(v))))
  {
    var q := p + |V4Lead(c)| + |c.Suffixes()[i]| + 1;
    SuffixedV4Reads(c, s, p, i, q, corrected);
    AxisV4Value(c, s, p, q, w, v);
    SameMatch(MatchAt(c, s, p, corrected), V4(p, None, SuffixedValue(c, s, q)), Some(Match(p, w + |v|, Groups(None, None, None, Some(v)))));
  }

  /** The match the v4 fragment reports for the integer written in the value part of an axis declaration. */
  lemma AxisV4Value(c: Category, s: string, p: nat, q: nat, w: nat, v: string)
    requires c.IsAxis() && IntegerLaidOut(s, q, w, v)
    ensures V4(p, None, SuffixedValue(c, s, q)) == Some(Match(p, w + |v|, Groups(None, None, None, Some(v))))
  {
    IntegerReads(s, q, w, v);
  }

  /** `--icon-font-<variant>: '<family>'`: the v4 font fragment reads the family. */
  lemma FontV4Reads(s: string, p: nat, i: nat, w: nat, quoted: bool, v: string, corrected: bool)
    requires i < |FontVariants| && p <= |s| && NotAfterWordOrDash(s, p)
    requires HasPrefixAt(s, p, V4Lead(Font)) && HasPrefixAt(s, p + |V4Lead(Font)|, FontVariants[i] + ":")
    requires QuotedLaidOut(s, p + |V4Lead(Font)| + |FontVariants[i]| + 1, w, quoted, v)
    ensures MatchAt(Font, s, p, corrected) == Some(Match(p, QuotedEnd(w, quoted, v), Groups(None, None, None, Some(v))))
  {
    assert Font.Suffixes() == FontVariants;
    SuffixedFontReads(s, p, i, w, quoted, v, corrected);
  }

  /** FontV4Reads, with the variant named through the category's own list of suffixes. */
  lemma SuffixedFontReads(s: string, p: nat, i: nat, w: nat, quoted: bool, v: string, corrected: bool)
    requires i < |Font.Suffixes()| && p <= |s| && NotAfterWordOrDash(s, p)
    requires HasPrefixAt(s, p, V4Lead(Font)) && HasPrefixAt(s, p + |V4Lead(Font)|, Font.Suffixes()[i] + ":")
    requires QuotedLaidOut(s, p + |V4Lead(Font)| + |Font.Suffixes()[i]| + 1, w, quoted, v)
    ensures MatchAt(Font, s, p, corrected) == Some(Match(p, QuotedEnd(w, quoted, v), Groups(None, None, None, Some(v))))
  {
    var q := p + |V4Lead(Font)| + |Font.Suffixes()[i]| + 1;
    SuffixedV4Reads(Font, s, p, i, q, corrected);
    FontV4Value(s, p, q, w, quoted, v);
    SameMatch(MatchAt(Font, s, p, corrected), V4(p, None, SuffixedValue(Font, s, q)),
              Some(Match(p, QuotedEnd(w, quoted, v), Groups(None, None, None, Some(v)))));
  }

  /** The match the v4 fragment reports for the family written in the value part of a font declaration. */
  lemma FontV4Value(s: string, p: nat, q: nat, w: nat, quoted: bool, v: string)
    requires QuotedLaidOut(s, q, w, quoted, v)
    ensures V4(p, None, SuffixedValue(Font, s, q)) == Some(Match(p, QuotedEnd(w, quoted, v), Groups(None, None, None, Some(v))))
  {
    QuotedReads(s, q, w, quoted, v);
  }

  /** `\w+` at k, given back to where no word character follows, reads the word standing there. */
  lemma WordReads(s: string, k: nat, key: string)
    requires |key| > 0 && (forall j :: 0 <= j < |key| ==> IsWordChar(key[j])) && HasPrefixAt(s, k, key)
    requires k + |key| == |s| || !IsWordChar(s[k + |key|])
    ensures RunEnd(s, k, IsWordChar) == k + |key| && s[k..k + |key|] == key
  {
    PrefixAtChars(s, k, key);
    forall j | k <= j < k + |key| ensures IsWordChar(s[j]) {
      assert s[j] == key[j - k];
    }
    RunEndIs(s, k, k + |key|, IsWordChar);
  }

  /** `\w+:` at k reads the key standing there. */
  lemma KeyReads(s: string, k: nat, key: string)
    requires |key| > 0 && (forall j :: 0 <= j < |key| ==> IsWordChar(key[j])) && HasPrefixAt(s, k, key + ":")
    ensures RunEnd(s, k, IsWordChar) == k + |key| < |s| && s[k + |key|] == ':' && s[k..k + |key|] == key
  {
    var e := k + |key|;
    PrefixAtChars(s, k, key + ":");
    forall j | k <= j < e ensures IsWordChar(s[j]) {
      assert s[j] == (key + ":")[j - k] == key[j - k];
    }
    assert s[e] == s[k..e + 1][|key|] == (key + ":")[|key|];
    RunEndIs(s, k, e, IsWordChar);
    assert s[k..e] == s[k..e + 1][..|key|] == (key + ":")[..|key|] == key;
  }

  /** The v4 symbol fragment alone reads the key and the value. */
  lemma SymbolV4Value(s: string, p: nat, key: string, w: nat, quoted: bool, v: string)
    requires p <= |s| && NotAfterWordOrDash(s, p) && HasPrefixAt(s, p, V4Lead(Symbol))
    requires |key| > 0 && (forall k :: 0 <= k < |key| ==> IsWordChar(key[k]))
    requires HasPrefixAt(s, p + |V4Lead(Symbol)|, key + ":")
    requires QuotedLaidOut(s, p + |V4Lead(Symbol)| + |key| + 1, w, quoted, v)
    ensures SymbolV4(s, p) == Some(Match(p, QuotedEnd(w, quoted, v), Groups(None, None, Some(key), Some(v))))
  {
    var k := p + |V4Lead(Symbol)|;
    var e := k + |key|;
    KeyReads(s, k, key);
    QuotedReads(s, e + 1, w, quoted, v);
    SymbolV4Step(s, p, key, e, w, quoted, v);
  }

  /** The v4 symbol fragment reports the key read before the `:` and the value read after it. */
  lemma SymbolV4Step(s: string, p: nat, key: string, e: nat, w: nat, quoted: bool, v: string)
    requires p <= |s| && NotAfterWordOrDash(s, p) && HasPrefixAt(s, p, V4Lead(Symbol))
    requires RunEnd(s, p + |V4Lead(Symbol)|, IsWordChar) == e && p + |V4Lead(Symbol)| < e < |s|
    requires s[e] == ':' && s[p + |V4Lead(Symbol)|..e] == key
    requires QuotedValue(s, e + 1) == Some(Capture(v, QuotedEnd(w, quoted, v)))
    ensures SymbolV4(s, p) == Some(Match(p, QuotedEnd(w, quoted, v), Groups(None, None, Some(key), Some(v))))
  {
    SymbolV4At(s, p, e);
    SameMatch(SymbolV4(s, p), V4(p, Some(s[p + |V4Lead(Symbol)|..e]), QuotedValue(s, e + 1)),
              Some(Match(p, QuotedEnd(w, quoted, v), Groups(None, None, Some(key), Some(v)))));
  }

  /** Where `--icon-symbol-` is followed by a word and `:`, the v4 symbol fragment reports the word and the value part after the `:`. */
  lemma SymbolV4At(s: string, p: nat, e: nat)
    requires p <= |s| && NotAfterWordOrDash(s, p) && HasPrefixAt(s, p, V4Lead(Symbol))
    requires RunEnd(s, p + |V4Lead(Symbol)|, IsWordChar) == e && p + |V4Lead(Symbol)| < e < |s| && s[e] == ':'
    ensures SymbolV4(s, p) == V4(p, Some(s[p + |V4Lead(Symbol)|..e]), QuotedValue(s, e + 1))
  {
  }

  /** The v4 fragment of the symbol category is the symbol fragment. */
  lemma SymbolIsV4(s: string, p: nat)
    requires p <= |s|
    ensures MatchV4(Symbol, s, p) == SymbolV4(s, p)
  {
  }

  /** `--icon-symbol-<key>: '<codepoint>'`: the v4 symbol fragment reads the key and the value. */
  lemma SymbolV4Reads(s: string, p: nat, key: string, w: nat, quoted: bool, v: string, corrected: bool)
    requires p <= |s| && NotAfterWordOrDash(s, p) && HasPrefixAt(s, p, V4Lead(Symbol))
    requires |key| > 0 && (forall k :: 0 <= k < |key| ==> IsWordChar(key[k]))
    requires HasPrefixAt(s, p + |V4Lead(Symbol)|, key + ":")
    requires QuotedLaidOut(s, p + |V4Lead(Symbol)| + |key| + 1, w, quoted, v)
    ensures MatchAt(Symbol, s, p, corrected) == Some(Match(p, QuotedEnd(w, quoted, v), Groups(None, None, Some(key), Some(v))))
  {
    var m := Some(Match(p, QuotedEnd(w, quoted, v), Groups(None, None, Some(key), Some(v))));
    V4LeadIsV4(Symbol, s, p, corrected);
    SymbolV4Value(s, p, key, w, quoted, v);
    SymbolIsV4(s, p);
    SameMatch(MatchV4(Symbol, s, p), SymbolV4(s, p), m);
    SameMatch(MatchAt(Symbol, s, p, corrected), MatchV4(Symbol, s, p), m);
  }

  /** `[^{]*\{` from j stops at the `{` at brace. */
  ghost predicate Opens(s: string, j: nat, brace: nat) {
    j <= brace < |s| && s[brace] == '{' && forall k :: j <= k < brace ==> s[k] != '{'
  }

  /**
   * A rule whose body starts, after whitespace, with a declaration of the
   * property reads the value part of that declaration.
   */
  lemma RuleBodyFirst(s: string, j: nat, brace: nat, d: nat, property: string, corrected: bool)
    requires Opens(s, j, brace) && Spaces(s, brace + 1, d)
    requires |property| > 0 && !IsSpace(property[0]) && HasPrefixAt(s, d, property)
    requires V3Value(s, d + |property|, corrected).Some?
    ensures RuleBody(s, j, property, corrected) == V3Value(s, d + |property|, corrected)
  {
    RunEndIs(s, j, brace, NotOpenBrace);
    PrefixAtChars(s, d, property);
    assert s[d] == property[0];
    SpacesEnd(s, brace + 1, d);
    RuleBodyAt(s, j, brace, property, corrected);
    RuleBlockFirst(s, brace + 1, d, property, corrected);
    SameCapture(RuleBody(s, j, property, corrected), RuleBlock(s, brace + 1, property, corrected),
                V3Value(s, d + |property|, corrected));
  }

  /** The rule body from j is the block of the first `{` after j. */
  lemma RuleBodyAt(s: string, j: nat, brace: nat, property: string, corrected: bool)
    requires j <= brace < |s| && RunEnd(s, j, NotOpenBrace) == brace
    ensures RuleBody(s, j, property, corrected) == RuleBlock(s, brace + 1, property, corrected)
  {
  }

  /** A block whose first declaration, after whitespace, is of the property reads its value part. */
  lemma RuleBlockFirst(s: string, b: nat, d: nat, property: string, corrected: bool)
    requires b <= d <= |s| && RunEnd(s, b, IsSpace) == d && HasPrefixAt(s, d, property)
    requires V3Value(s, d + |property|, corrected).Some?
    ensures RuleBlock(s, b, property, corrected) == V3Value(s, d + |property|, corrected)
  {
  }

  /**
   * A rule whose body starts, after whitespace, with a declaration of the
   * property: the rule body reads the value written in that declaration.
   */
  lemma FirstDeclarationReads(s: string, j: nat, brace: nat, d: nat, property: string,
                              w: nat, quoted: bool, v: string, corrected: bool)
    requires Opens(s, j, brace) && Spaces(s, brace + 1, d)
    requires |property| > 0 && !IsSpace(property[0]) && HasPrefixAt(s, d, property)
    requires QuotedLaidOut(s, d + |property|, w, quoted, v) && (quoted || !HasPrefixAt(s, w, "var("))
    ensures RuleBody(s, j, property, corrected) == Some(Capture(v, QuotedEnd(w, quoted, v)))
  {
    V3ValueReads(s, d + |property|, w, quoted, v, corrected);
    RuleBodyFirst(s, j, brace, d, property, corrected);
  }

  /** A font variant name at j is the alternative `(outlined|rounded|sharp)` takes. */
  lemma VariantStands(s: string, j: nat, i: nat, e: nat)
    requires i < |FontVariants| && HasPrefixAt(s, j, FontVariants[i]) && e == j + |FontVariants[i]|
    ensures AfterAlternative(s, j, FontVariants, "") == Some(e) && e <= |s|
  {
    FontVariantsExclusive();
    assert FontVariants[i] + "" == FontVariants[i];
    StandingIsUnique(s, j, FontVariants, "", i);
  }

  /** The v3 font fragment alone reads the family declared in the rule. */
  lemma FontV3Value(s: string, p: nat, i: nat, e: nat, brace: nat, d: nat, w: nat, quoted: bool, v: string, corrected: bool)
    requires p <= |s| && SelectorAt(s, p, "icon-") && i < |FontVariants| && HasPrefixAt(s, p + 1 + |"icon-"|, FontVariants[i])
    requires e == p + 1 + |"icon-"| + |FontVariants[i]| && Opens(s, e, brace) && Spaces(s, brace + 1, d)
    requires HasPrefixAt(s, d, V3Property(Font))
    requires QuotedLaidOut(s, d + |V3Property(Font)|, w, quoted, v) && (quoted || !HasPrefixAt(s, w, "var("))
    ensures FontV3(s, p, corrected) == Some(Match(p, QuotedEnd(w, quoted, v), Groups(None, Some(v), None, None)))
  {
    VariantStands(s, p + 1 + |"icon-"|, i, e);
    FirstDeclarationReads(s, e, brace, d, V3Property(Font), w, quoted, v, corrected);
    FontV3Step(s, p, e, w, quoted, v, corrected);
  }

  /** The v3 font fragment reports the value the rule body reads after the variant name. */
  lemma FontV3Step(s: string, p: nat, e: nat, w: nat, quoted: bool, v: string, corrected: bool)
    requires p <= |s| && SelectorAt(s, p, "icon-") && AfterAlternative(s, p + 1 + |"icon-"|, FontVariants, "") == Some(e)
    requires e <= |s| && RuleBody(s, e, V3Property(Font), corrected) == Some(Capture(v, QuotedEnd(w, quoted, v)))
    ensures FontV3(s, p, corrected) == Some(Match(p, QuotedEnd(w, quoted, v), Groups(None, Some(v), None, None)))
  {
  }

  /** The v3 fragment of the font category is the font fragment. */
  lemma FontIsV3(s: string, p: nat, corrected: bool)
    requires p <= |s|
    ensures MatchV3(Font, s, p, corrected) == FontV3(s, p, corrected)
  {
  }

  /**
   * `.icon-<variant> { font-family: '<family>' }`: the v3 font fragment
   * reads the family declared first in the rule.
   */
  lemma FontV3Reads(s: string, p: nat, i: nat, brace: nat, d: nat, w: nat, quoted: bool, v: string, corrected: bool)
    requires p <= |s| && SelectorAt(s, p, "icon-") && i < |FontVariants| && HasPrefixAt(s, p + 1 + |"icon-"|, FontVariants[i])
    requires Opens(s, p + 1 + |"icon-"| + |FontVariants[i]|, brace) && Spaces(s, brace + 1, d)
    requires HasPrefixAt(s, d, V3Property(Font))
    requires QuotedLaidOut(s, d + |V3Property(Font)|, w, quoted, v) && (quoted || !HasPrefixAt(s, w, "var("))
    ensures MatchAt(Font, s, p, corrected) == Some(Match(p, QuotedEnd(w, quoted, v), Groups(None, Some(v), None, None)))
  {
    var m := Match(p, QuotedEnd(w, quoted, v), Groups(None, Some(v), None, None));
    FontV3Value(s, p, i, p + 1 + |"icon-"| + |FontVariants[i]|, brace, d, w, quoted, v, corrected);
    FontIsV3(s, p, corrected);
    SameMatch(MatchV3(Font, s, p, corrected), FontV3(s, p, corrected), Some(m));
    V3First(Font, s, p, m, corrected);
  }

  /** The v3 symbol fragment alone reads the key of the selector and the value declared in the rule. */
  lemma SymbolV3Value(s: string, p: nat, key: string, brace: nat, d: nat, w: nat, quoted: bool, v: string, corrected: bool)
    requires p <= |s| && SelectorAt(s, p, "icon-symbol-")
    requires |key| > 0 && (forall k :: 0 <= k < |key| ==> IsWordChar(key[k]))
    requires HasPrefixAt(s, p + 1 + |"icon-symbol-"|, key)
    requires Opens(s, p + 1 + |"icon-symbol-"| + |key|, brace) && !IsWordChar(s[p + 1 + |"icon-symbol-"| + |key|])
    requires Spaces(s, brace + 1, d) && HasPrefixAt(s, d, V3Property(Symbol))
    requires QuotedLaidOut(s, d + |V3Property(Symbol)|, w, quoted, v) && (quoted || !HasPrefixAt(s, w, "var("))
    ensures SymbolV3(s, p, corrected) == Some(Match(p, QuotedEnd(w, quoted, v), Groups(Some(key), Some(v), None, None)))
  {
    var k := p + 1 + |"icon-symbol-"|;
    var e := k + |key|;
    WordReads(s, k, key);
    FirstDeclarationReads(s, e, brace, d, V3Property(Symbol), w, quoted, v, corrected);
    SymbolV3Step(s, p, key, e, w, quoted, v, corrected);
  }

  /** The v3 symbol fragment reports the key of the selector and the value the rule body reads after it. */
  lemma SymbolV3Step(s: string, p: nat, key: string, e: nat, w: nat, quoted: bool, v: string, corrected: bool)
    requires p <= |s| && SelectorAt(s, p, "icon-symbol-") && |key| > 0
    requires RunEnd(s, p + 1 + |"icon-symbol-"|, IsWordChar) == e && s[p + 1 + |"icon-symbol-"|..e] == key
    requires e > p + 1 + |"icon-symbol-"| && RuleBody(s, e, V3Property(Symbol), corrected) == Some(Capture(v, QuotedEnd(w, quoted, v)))
    ensures SymbolV3(s, p, corrected) == Some(Match(p, QuotedEnd(w, quoted, v), Groups(Some(key), Some(v), None, None)))
  {
  }

  /** The v3 fragment of the symbol category is the symbol fragment. */
  lemma SymbolIsV3(s: string, p: nat, corrected: bool)
    requires p <= |s|
    ensures MatchV3(Symbol, s, p, corrected) == SymbolV3(s, p, corrected)
  {
  }

  /**
   * `.icon-symbol-<key> { --icon-symbol: '<codepoint>' }`: the v3 symbol
   * fragment reads the key and the value declared first in the rule.
   */
  lemma SymbolV3Reads(s: string, p: nat, key: string, brace: nat, d: nat, w: nat, quoted: bool, v: string, corrected: bool)
    requires p <= |s| && SelectorAt(s, p, "icon-symbol-")
    requires |key| > 0 && (forall k :: 0 <= k < |key| ==> IsWordChar(key[k]))
    requires HasPrefixAt(s, p + 1 + |"icon-symbol-"|, key)
    requires Opens(s, p + 1 + |"icon-symbol-"| + |key|, brace) && !IsWordChar(s[p + 1 + |"icon-symbol-"| + |key|])
    requires Spaces(s, brace + 1, d) && HasPrefixAt(s, d, V3Property(Symbol))
    requires QuotedLaidOut(s, d + |V3Property(Symbol)|, w, quoted, v) && (quoted || !HasPrefixAt(s, w, "var("))
    ensures MatchAt(Symbol, s, p, corrected) == Some(Match(p, QuotedEnd(w, quoted, v), Groups(Some(key), Some(v), None, None)))
  {
    var m := Match(p, QuotedEnd(w, quoted, v), Groups(Some(key), Some(v), None, None));
    SymbolV3Value(s, p, key, brace, d, w, quoted, v, corrected);
    SymbolIsV3(s, p, corrected);
    SameMatch(MatchV3(Symbol, s, p, corrected), SymbolV3(s, p, corrected), Some(m));
    V3First(Symbol, s, p, m, corrected);
  }
}
