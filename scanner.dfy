/**
 * The dialect scanner: for each of six usage categories, the pattern
 * fragment of the older (Tailwind v3) output and the one of the newer
 * (Tailwind v4) output, alternated in one global pattern (subset.ts,
 * `*_REGEX_V3`, `*_REGEX_V4`, `*_REGEX`).
 *
 * Each fragment is an explicit matcher over the text that returns what the
 * regular expression engine returns at a given start position, including
 * the places where a greedy part gives characters back.
 */
module Scanner {
  import opened Wrappers
  import opened Text

  /** `FONT_VARIANTS` */
  const FontVariants: seq<string> := ["outlined", "rounded", "sharp"]
  /** `OPSZ_VARIANTS` */
  const OpszVariants: seq<string> := ["sm", "md", "lg", "xl"]
  /** `WGHT_VARIANTS` */
  const WghtVariants: seq<string> := ["thin", "extralight", "light", "normal", "medium", "semibold", "bold"]
  /** `GRAD_VARIANTS` */
  const GradVariants: seq<string> := ["on-dark", "on-light", "high"]
  /** `FILL_VARIANTS` */
  const FillVariants: seq<string> := ["no-fill", "fill"]

  datatype Category = Font | Opsz | Wght | Grad | Fill | Symbol {
    /** The four variable-font axes, whose captures are integers. */
    predicate IsAxis() {
      !Font? && !Symbol?
    }

    /** The `<name>` in the custom property `--icon-<name>`. */
    function Name(): string {
      match this
      case Font => "font"
      case Opsz => "opsz"
      case Wght => "wght"
      case Grad => "grad"
      case Fill => "fill"
      case Symbol => "symbol"
    }

    /** The suffixes the v4 fragment accepts after `--icon-<name>-`. */
    function Suffixes(): seq<string> {
      match this
      case Font => FontVariants
      case Opsz => OpszVariants
      case Wght => WghtVariants
      case Grad => GradVariants
      case Fill => FillVariants
      case Symbol => []
    }
  }

  /** The named groups of a match: the v3 fragment sets key3/value3, the v4 fragment key4/value4. */
  datatype Groups = Groups(key3: Option<string>, value3: Option<string>, key4: Option<string>, value4: Option<string>) {
    predicate FromV3() {
      value3.Some? && key4.None? && value4.None?
    }

    predicate FromV4() {
      value4.Some? && key3.None? && value3.None?
    }

    /** `m.groups.value4 ?? m.groups.value3`: the v4 value when the v4 fragment matched. */
    function Value(): (v: string)
      requires FromV3() || FromV4()
      ensures FromV4() ==> v == value4.value
      ensures FromV3() ==> v == value3.value
    {
      if value4.Some? then value4.value else value3.value
    }

    /** `m.groups.key4 ?? m.groups.key3`: the v4 key when there is one. */
    function Key(): (k: Option<string>)
      ensures key4.Some? ==> k == key4
      ensures key4.None? ==> k == key3
    {
      if key4.Some? then key4 else key3
    }
  }

  /** One match of a global pattern: where it starts, where it ends, what it captured. */
  datatype Match = Match(start: nat, end: nat, groups: Groups)

  /** A captured value and the position just past it. */
  datatype Capture = Capture(value: string, end: nat)

  /** The two kinds of captured value. */
  datatype Tail =
    | IntegerTail  // `-?\d+`
    | QuotedTail   // `[^'";}]+`

  predicate IsQuote(c: char) {
    c == '\'' || c == '"'
  }

  /** `[^'";}]` */
  predicate IsValueChar(c: char) {
    !IsQuote(c) && c != ';' && c != '}'
  }

  /** `[^{]` */
  predicate NotOpenBrace(c: char) {
    c != '{'
  }

  /** `[^}]` */
  predicate NotCloseBrace(c: char) {
    c != '}'
  }

  /** `[^'";}]+` as a whole string. */
  predicate IsValueText(v: string) {
    |v| > 0 && forall k :: 0 <= k < |v| ==> IsValueChar(v[k])
  }

  /** `(?<!\w|-)` at position p. */
  predicate NotAfterWordOrDash(s: string, p: nat)
    requires p <= |s|
  {
    p == 0 || !(IsWordChar(s[p - 1]) || s[p - 1] == '-')
  }

  /**
   * A capture of a tail started at q: a piece of the text at or after q,
   * of the tail's shape, that the greedy value part could not extend.
   */
  predicate Shaped(s: string, q: nat, tail: Tail, c: Capture) {
    && q + |c.value| <= c.end <= |s|
    && c.value == s[c.end - |c.value|..c.end]
    && if tail.IntegerTail? then
         IsIntegerLiteral(c.value) && (c.end == |s| || !IsDigit(s[c.end]))
       else
         IsValueText(c.value) && (c.end == |s| || !IsValueChar(s[c.end]))
  }

  /** `-?\d+` at exactly q. */
  function SignedDigitsAt(s: string, q: nat): (r: Option<Capture>)
    requires q <= |s|
    ensures r.Some? ==> Shaped(s, q, IntegerTail, r.value) && r.value.end - |r.value.value| == q
    ensures r.None? <==> !(q < |s| && IsDigit(s[q])) && !(q + 1 < |s| && s[q] == '-' && IsDigit(s[q + 1]))
  {
    RunEndAll(s, q, IsDigit);
    if q < |s| && s[q] == '-' && RunEnd(s, q + 1, IsDigit) > q + 1 then
      RunEndAll(s, q + 1, IsDigit);
      var e := RunEnd(s, q + 1, IsDigit);
      assert s[q..e][1..] == s[q + 1..e];
      Some(Capture(s[q..e], e))
    else
      var e := RunEnd(s, q, IsDigit);
      if e > q then Some(Capture(s[q..e], e)) else None
  }

  /**
   * `\s*(?<value>-?\d+)` at q: the integer right after the whitespace run.
   * Giving whitespace back cannot help: the character after a shorter run is
   * whitespace, neither `-` nor a digit.
   */
  function IntegerAt(s: string, q: nat): (r: Option<Capture>)
    requires q <= |s|
    ensures var w := RunEnd(s, q, IsSpace);
            && (r.Some? ==> Shaped(s, q, IntegerTail, r.value) && r.value.end - |r.value.value| == w)
            && (r.None? <==> !(w < |s| && IsDigit(s[w])) && !(w + 1 < |s| && s[w] == '-' && IsDigit(s[w + 1])))
  {
    SignedDigitsAt(s, RunEnd(s, q, IsSpace))
  }

  /** `['"]?(?<value>[^'";}]+)` at exactly k. */
  function QuotedAt(s: string, k: nat): (r: Option<Capture>)
    requires k <= |s|
    ensures r.Some? ==> Shaped(s, k, QuotedTail, r.value)
    ensures r.None? <==> k == |s| || (!IsValueChar(s[k]) && !(IsQuote(s[k]) && k + 1 < |s| && IsValueChar(s[k + 1])))
    ensures r.Some? && IsQuote(s[k]) ==> r.value.end - |r.value.value| == k + 1
    ensures r.Some? && !IsQuote(s[k]) ==> r.value.end - |r.value.value| == k
  {
    RunEndAll(s, k, IsValueChar);
    if k < |s| && IsQuote(s[k]) && RunEnd(s, k + 1, IsValueChar) > k + 1 then
      RunEndAll(s, k + 1, IsValueChar);
      var e := RunEnd(s, k + 1, IsValueChar);
      Some(Capture(s[k + 1..e], e))
    else
      var e := RunEnd(s, k, IsValueChar);
      if e > k then Some(Capture(s[k..e], e)) else None
  }

  /** One try of the value part at k, with the lookahead `(?!var\()` checked first when guarded. */
  function TryQuoted(s: string, k: nat, guarded: bool): (r: Option<Capture>)
    requires k <= |s|
    ensures r.Some? ==> Shaped(s, k, QuotedTail, r.value)
    ensures !HasPrefixAt(s, k, "var(") ==> r == QuotedAt(s, k)
    ensures guarded && HasPrefixAt(s, k, "var(") ==> r == None
  {
    if guarded && HasPrefixAt(s, k, "var(") then None else QuotedAt(s, k)
  }

  /**
   * A greedy run giving characters back: the rest of the pattern is tried
   * at hi, and on failure at hi - 1, hi - 2, ..., lo, one position per
   * character given back. The match is the first try that succeeds.
   */
  function GiveBack(rest: nat -> Option<Capture>, lo: nat, hi: nat): Option<Capture>
    requires lo <= hi
    decreases hi
  {
    if rest(hi).Some? || hi == lo then rest(hi) else GiveBack(rest, lo, hi - 1)
  }

  /** Giving back fails exactly when every try fails. */
  lemma {:induction false} GiveBackFails(rest: nat -> Option<Capture>, lo: nat, hi: nat)
    requires lo <= hi
    ensures GiveBack(rest, lo, hi).None? <==> forall i :: lo <= i <= hi ==> rest(i).None?
    decreases hi
  {
    if rest(hi).None? && hi > lo {
      GiveBackFails(rest, lo, hi - 1);
    }
  }

  /** Giving back reads the try at the last position where one succeeds. */
  lemma {:induction false} GiveBackLast(rest: nat -> Option<Capture>, lo: nat, hi: nat) returns (i: nat)
    requires lo <= hi && GiveBack(rest, lo, hi).Some?
    ensures lo <= i <= hi && GiveBack(rest, lo, hi) == rest(i)
    ensures forall j :: i < j <= hi ==> rest(j).None?
    decreases hi
  {
    if rest(hi).Some? {
      i := hi;
    } else {
      i := GiveBackLast(rest, lo, hi - 1);
    }
  }

  /** What giving back reads is one of the tries. */
  lemma GiveBackTry(rest: nat -> Option<Capture>, lo: nat, hi: nat)
    requires lo <= hi
    ensures GiveBack(rest, lo, hi).Some? ==> exists i :: lo <= i <= hi && GiveBack(rest, lo, hi) == rest(i)
  {
    if GiveBack(rest, lo, hi).Some? {
      var i := GiveBackLast(rest, lo, hi);
    }
  }

  /** Two patterns whose tries agree on [lo, hi] give back alike. */
  lemma {:induction false} GiveBackAgree(f: nat -> Option<Capture>, g: nat -> Option<Capture>, lo: nat, hi: nat)
    requires lo <= hi && forall i :: lo <= i <= hi ==> f(i) == g(i)
    ensures GiveBack(f, lo, hi) == GiveBack(g, lo, hi)
    decreases hi
  {
    if f(hi).None? && hi > lo {
      GiveBackAgree(f, g, lo, hi - 1);
    }
  }

  /** The tries of the value part at each position of the text. */
  function Tries(s: string, guarded: bool): nat -> Option<Capture> {
    (k: nat) => if k <= |s| then TryQuoted(s, k, guarded) else None
  }

  /**
   * The value part after a greedy `\s*` that ran from q to k: tried at k, and
   * on failure at k - 1, k - 2, ..., q as `\s*` gives characters back.
   */
  function BacktrackQuoted(s: string, q: nat, k: nat, guarded: bool): (r: Option<Capture>)
    requires q <= k <= |s|
    ensures r.Some? ==> Shaped(s, q, QuotedTail, r.value)
  {
    GiveBackTry(Tries(s, guarded), q, k);
    GiveBack(Tries(s, guarded), q, k)
  }

  /** The backtracking fails only when every try fails. */
  lemma BacktrackQuotedFails(s: string, q: nat, k: nat, guarded: bool)
    requires q <= k <= |s|
    ensures BacktrackQuoted(s, q, k, guarded).None? ==> forall i :: q <= i <= k ==> TryQuoted(s, i, guarded).None?
  {
    GiveBackFails(Tries(s, guarded), q, k);
    forall i | q <= i <= k
      ensures Tries(s, guarded)(i) == TryQuoted(s, i, guarded)
    {
    }
  }

  /** The backtracking reads the try at the last position where one succeeds. */
  lemma BacktrackQuotedLast(s: string, q: nat, k: nat, guarded: bool) returns (i: nat)
    requires q <= k <= |s| && BacktrackQuoted(s, q, k, guarded).Some?
    ensures q <= i <= k && BacktrackQuoted(s, q, k, guarded) == TryQuoted(s, i, guarded)
    ensures forall j :: i < j <= k ==> TryQuoted(s, j, guarded).None?
  {
    i := GiveBackLast(Tries(s, guarded), q, k);
    forall j | i < j <= k
      ensures TryQuoted(s, j, guarded).None?
    {
      assert Tries(s, guarded)(j).None?;
    }
  }

  /** A failed try at k hands the value part over to the try at k - 1. */
  lemma BacktrackStep(s: string, q: nat, k: nat, guarded: bool)
    requires q < k <= |s| && TryQuoted(s, k, guarded).None?
    ensures BacktrackQuoted(s, q, k, guarded) == BacktrackQuoted(s, q, k - 1, guarded)
  {
    assert Tries(s, guarded)(k).None?;
  }

  /** A successful try at k is what the value part reads. */
  lemma BacktrackHere(s: string, q: nat, k: nat, guarded: bool)
    requires q <= k <= |s| && (TryQuoted(s, k, guarded).Some? || q == k)
    ensures BacktrackQuoted(s, q, k, guarded) == TryQuoted(s, k, guarded)
  {
    assert Tries(s, guarded)(k) == TryQuoted(s, k, guarded);
  }

  /** A whitespace character is a value character, and neither a quote nor the `v` of `var(`. */
  lemma SpaceIsValueChar(c: char)
    requires IsSpace(c)
    ensures IsValueChar(c) && !IsQuote(c) && c != 'v'
  {
  }

  /** Where the value part fails after the whitespace, the last whitespace character is read alone. */
  lemma LastSpaceRead(s: string, q: nat, guarded: bool)
    requires q <= |s|
    requires var w := RunEnd(s, q, IsSpace); q < w && QuotedAt(s, w).None?
    ensures var w := RunEnd(s, q, IsSpace); TryQuoted(s, w - 1, guarded) == Some(Capture(s[w - 1..w], w))
  {
    var w := RunEnd(s, q, IsSpace);
    RunEndLast(s, q, IsSpace);
    SpaceIsValueChar(s[w - 1]);
    assert RunEnd(s, w - 1, IsValueChar) == w;
  }

  /**
   * `\s*['"]?(?<value>[^'";}]+)`, the value part of the v4 font and symbol
   * fragments: the (optionally quoted) value right after the whitespace run;
   * when none stands there, the last whitespace character on its own, which
   * is what `\s*` giving back one character leaves to the value.
   */
  function QuotedValue(s: string, q: nat): (r: Option<Capture>)
    requires q <= |s|
    ensures r.Some? ==> Shaped(s, q, QuotedTail, r.value)
  {
    BacktrackQuoted(s, q, RunEnd(s, q, IsSpace), false)
  }

  /** What the v4 value part reads, case by case. */
  lemma QuotedValueReads(s: string, q: nat)
    requires q <= |s|
    ensures var w := RunEnd(s, q, IsSpace);
            QuotedAt(s, w).Some? ==> QuotedValue(s, q) == QuotedAt(s, w)
    ensures var w := RunEnd(s, q, IsSpace);
            QuotedAt(s, w).None? && q < w ==> QuotedValue(s, q) == Some(Capture(s[w - 1..w], w))
    ensures var w := RunEnd(s, q, IsSpace);
            QuotedAt(s, w).None? && q == w ==> QuotedValue(s, q).None?
  {
    var w := RunEnd(s, q, IsSpace);
    if QuotedAt(s, w).None? && q < w {
      LastSpaceRead(s, q, false);
      BacktrackStep(s, q, w, false);
      BacktrackHere(s, q, w - 1, false);
    } else {
      BacktrackHere(s, q, w, false);
    }
  }

  /** While no try position starts with `var(`, the lookahead never fires. */
  lemma GuardIdle(s: string, q: nat, k: nat)
    requires q <= k <= |s|
    requires forall i :: q <= i <= k ==> !HasPrefixAt(s, i, "var(")
    ensures BacktrackQuoted(s, q, k, true) == BacktrackQuoted(s, q, k, false)
  {
    forall i | q <= i <= k
      ensures Tries(s, true)(i) == Tries(s, false)(i)
    {
      assert TryQuoted(s, i, true) == TryQuoted(s, i, false);
    }
    GiveBackAgree(Tries(s, true), Tries(s, false), q, k);
  }

  /** Inside the whitespace run no position starts with `var(`. */
  lemma NoVarInSpaces(s: string, q: nat)
    requires q <= |s|
    ensures forall i :: q <= i < RunEnd(s, q, IsSpace) ==> !HasPrefixAt(s, i, "var(")
  {
    var w := RunEnd(s, q, IsSpace);
    RunEndAll(s, q, IsSpace);
    forall i | q <= i < w ensures !HasPrefixAt(s, i, "var(") {
      assert IsSpace(s[i]);
    }
  }

  /** The characters of `var(` standing at w. */
  lemma VarAt(s: string, w: nat)
    requires HasPrefixAt(s, w, "var(")
    ensures s[w] == 'v' && s[w + 1] == 'a' && s[w + 2] == 'r' && s[w + 3] == '('
  {
    assert s[w] == s[w..w + 4][0];
    assert s[w + 1] == s[w..w + 4][1];
    assert s[w + 2] == s[w..w + 4][2];
    assert s[w + 3] == s[w..w + 4][3];
  }

  /** An unquoted try at i over value characters up to k reads at least up to k. */
  lemma UnquotedRun(s: string, i: nat, k: nat)
    requires i < k <= |s| && !IsQuote(s[i])
    requires forall j :: i <= j < k ==> IsValueChar(s[j])
    ensures QuotedAt(s, i) == Some(Capture(s[i..RunEnd(s, i, IsValueChar)], RunEnd(s, i, IsValueChar)))
    ensures RunEnd(s, i, IsValueChar) >= k
  {
  }

  /** A try one whitespace character before `var(` passes the lookahead and reads the whitespace and `var(`. */
  lemma SpaceThenVar(s: string, w: nat)
    requires 0 < w <= |s| && IsSpace(s[w - 1]) && HasPrefixAt(s, w, "var(")
    ensures var e := RunEnd(s, w - 1, IsValueChar);
            && w + 4 <= e
            && TryQuoted(s, w - 1, true) == Some(Capture(s[w - 1..e], e))
            && IsSpace(s[w - 1..e][0]) && s[w - 1..e][1..5] == "var("
  {
    VarAt(s, w);
    SpaceIsValueChar(s[w - 1]);
    assert !HasPrefixAt(s, w - 1, "var(") by {
      if HasPrefixAt(s, w - 1, "var(") {
        VarAt(s, w - 1);
      }
    }
    UnquotedRun(s, w - 1, w + 4);
    var e := RunEnd(s, w - 1, IsValueChar);
    var v := s[w - 1..e];
    assert v[0] == s[w - 1];
    assert v[1..5] == s[w..w + 4] by {
      forall k | 0 <= k < 4
        ensures v[1..5][k] == s[w..w + 4][k]
      {
        assert v[1..5][k] == v[k + 1] == s[w + k];
      }
    }
  }

  /**
   * `\s*(?!var\()['"]?(?<value3>[^'";}]+)`, the value part of the v3 font and
   * symbol fragments, as written. Where `var(` does not follow the whitespace
   * it reads what the v4 value part reads. Where it does, `\s*` gives back
   * one character, the lookahead then sees whitespace and passes, and the
   * value read is that whitespace character, `var(` and what follows.
   */
  function GuardedValueAsWritten(s: string, q: nat): (r: Option<Capture>)
    requires q <= |s|
    ensures r.Some? ==> Shaped(s, q, QuotedTail, r.value)
  {
    BacktrackQuoted(s, q, RunEnd(s, q, IsSpace), true)
  }

  /** What the v3 value part as written reads, in the three cases the whitespace run leaves. */
  lemma GuardedValueAsWrittenReads(s: string, q: nat)
    requires q <= |s|
    ensures var w := RunEnd(s, q, IsSpace);
            !HasPrefixAt(s, w, "var(") ==> GuardedValueAsWritten(s, q) == QuotedValue(s, q)
    ensures var w := RunEnd(s, q, IsSpace);
            HasPrefixAt(s, w, "var(") && q < w ==> var e := RunEnd(s, w - 1, IsValueChar);
            GuardedValueAsWritten(s, q) == Some(Capture(s[w - 1..e], e))
    ensures var w := RunEnd(s, q, IsSpace);
            HasPrefixAt(s, w, "var(") && q == w ==> GuardedValueAsWritten(s, q).None?
  {
    var w := RunEnd(s, q, IsSpace);
    if !HasPrefixAt(s, w, "var(") {
      NoVarInSpaces(s, q);
      GuardIdle(s, q, w);
    } else if q < w {
      SpaceBeforeVarRead(s, q);
    }
  }

  /**
   * Two equalities between matches give a third. Proofs about large matches
   * end with it, so that their last step needs no unfolding of the
   * matches.
   */
  lemma SameMatch(a: Option<Match>, b: Option<Match>, c: Option<Match>)
    requires a == b && b == c
    ensures a == c
  {
  }

  /** The same, for what a value part reads. */
  lemma SameCapture(a: Option<Capture>, b: Option<Capture>, c: Option<Capture>)
    requires a == b && b == c
    ensures a == c
  {
  }

  /** Where whitespace precedes `var(`, the try at the last whitespace character is the one that succeeds. */
  lemma SpaceBeforeVarRead(s: string, q: nat)
    requires q <= |s|
    requires var w := RunEnd(s, q, IsSpace); HasPrefixAt(s, w, "var(") && q < w
    ensures var w := RunEnd(s, q, IsSpace); var e := RunEnd(s, w - 1, IsValueChar);
            GuardedValueAsWritten(s, q) == Some(Capture(s[w - 1..e], e))
  {
    var w := RunEnd(s, q, IsSpace);
    RunEndLast(s, q, IsSpace);
    SpaceThenVar(s, w);
    FallBackOne(s, q, w);
    var e := RunEnd(s, w - 1, IsValueChar);
    SameCapture(GuardedValueAsWritten(s, q), TryQuoted(s, w - 1, true), Some(Capture(s[w - 1..e], e)));
  }

  /** Where the try after the whitespace run fails and the one before it succeeds, the latter is what is read. */
  lemma FallBackOne(s: string, q: nat, w: nat)
    requires q < w <= |s| && RunEnd(s, q, IsSpace) == w
    requires TryQuoted(s, w, true).None? && TryQuoted(s, w - 1, true).Some?
    ensures GuardedValueAsWritten(s, q) == TryQuoted(s, w - 1, true)
  {
    BacktrackStep(s, q, w, true);
    BacktrackHere(s, q, w - 1, true);
  }

  /**
   * The v3 value part with its guard checked after the whole whitespace run,
   * `(?!\s*var\()\s*['"]?(?<value3>[^'";}]+)`: a declaration whose value is
   * `var(...)` is not a literal usage, whatever whitespace precedes it; every
   * other declaration is read as the unguarded v4 value part reads it.
   */
  function GuardedValue(s: string, q: nat): (r: Option<Capture>)
    requires q <= |s|
    ensures r.Some? ==> Shaped(s, q, QuotedTail, r.value)
    ensures HasPrefixAt(s, RunEnd(s, q, IsSpace), "var(") ==> r == None
    ensures !HasPrefixAt(s, RunEnd(s, q, IsSpace), "var(") ==> r == QuotedValue(s, q)
  {
    GuardedValueAsWrittenReads(s, q);
    if HasPrefixAt(s, RunEnd(s, q, IsSpace), "var(") then None else GuardedValueAsWritten(s, q)
  }

  /**
   * The guard as written is bypassed: it differs from the corrected guard
   * exactly when whitespace precedes `var(`, and then it captures that
   * whitespace character followed by `var(`.
   */
  lemma VarGuardBypassed(s: string, q: nat)
    requires q <= |s|
    ensures GuardedValueAsWritten(s, q) != GuardedValue(s, q)
            <==> q < RunEnd(s, q, IsSpace) && HasPrefixAt(s, RunEnd(s, q, IsSpace), "var(")
    ensures q < RunEnd(s, q, IsSpace) && HasPrefixAt(s, RunEnd(s, q, IsSpace), "var(") ==>
              var r := GuardedValueAsWritten(s, q);
              r.Some? && |r.value.value| >= 5 && IsSpace(r.value.value[0]) && r.value.value[1..5] == "var("
  {
    GuardedValueAsWrittenReads(s, q);
    var w := RunEnd(s, q, IsSpace);
    if HasPrefixAt(s, w, "var(") && q < w {
      RunEndLast(s, q, IsSpace);
      SpaceThenVar(s, w);
    }
  }

  /**
   * The v3 value part of the pipeline: the program's when `corrected` is
   * false, the corrected one when it is true. Both read what the v4 value
   * part reads unless `var(` follows the whitespace.
   */
  function V3Value(s: string, q: nat, corrected: bool): (r: Option<Capture>)
    requires q <= |s|
    ensures r.Some? ==> Shaped(s, q, QuotedTail, r.value)
    ensures !HasPrefixAt(s, RunEnd(s, q, IsSpace), "var(") ==> r == QuotedValue(s, q)
    ensures corrected && HasPrefixAt(s, RunEnd(s, q, IsSpace), "var(") ==> r == None
    ensures !corrected ==> r == GuardedValueAsWritten(s, q)
  {
    GuardedValueAsWrittenReads(s, q);
    if corrected then GuardedValue(s, q) else GuardedValueAsWritten(s, q)
  }

  /** `<property>` at exactly q followed by the v3 value part. */
  function DeclarationAt(s: string, q: nat, property: string, corrected: bool): (r: Option<Capture>)
    requires q <= |s|
    ensures HasPrefixAt(s, q, property) ==> r == V3Value(s, q + |property|, corrected)
    ensures !HasPrefixAt(s, q, property) ==> r == None
  {
    if HasPrefixAt(s, q, property) then V3Value(s, q + |property|, corrected) else None
  }

  /** A `;` at k, then whitespace and a declaration of the property whose value part reads a value. */
  ghost predicate DeclaredAfter(s: string, k: nat, property: string, corrected: bool) {
    DeclarationAfter(s, k, property, corrected).Some?
  }

  /** `;\s*<property>` and the value part at k. */
  function DeclarationAfter(s: string, k: nat, property: string, corrected: bool): Option<Capture> {
    if k < |s| && s[k] == ';' then DeclarationAt(s, RunEnd(s, k + 1, IsSpace), property, corrected) else None
  }

  /** The declarations after each `;` of the text. */
  function Declarations(s: string, property: string, corrected: bool): nat -> Option<Capture> {
    (k: nat) => DeclarationAfter(s, k, property, corrected)
  }

  /**
   * The second alternative `[^}]+;\s*<property>...` of a rule block opened
   * just before b: the greedy `[^}]+` gives characters back one at a time,
   * so the semicolon is tried at j, j - 1, ..., b + 1, and the declaration
   * read is the one after the last of these semicolons that has one.
   */
  function LaterDeclaration(s: string, b: nat, j: nat, property: string, corrected: bool): Option<Capture>
    requires b < j < |s|
  {
    GiveBack(Declarations(s, property, corrected), b + 1, j)
  }

  /** The second alternative reads nothing exactly when no `;` in (b, j] is followed by a declaration of the property. */
  lemma LaterDeclarationFails(s: string, b: nat, j: nat, property: string, corrected: bool)
    requires b < j < |s|
    ensures LaterDeclaration(s, b, j, property, corrected).None?
            <==> forall k :: b < k <= j ==> !DeclaredAfter(s, k, property, corrected)
  {
    if LaterDeclaration(s, b, j, property, corrected).None? {
      GiveBackFails(Declarations(s, property, corrected), b + 1, j);
      forall k | b < k <= j
        ensures !DeclaredAfter(s, k, property, corrected)
      {
        assert Declarations(s, property, corrected)(k).None?;
      }
    } else {
      var k := LaterDeclarationLast(s, b, j, property, corrected);
    }
  }

  /** When the second alternative reads a value, it is the declaration after the last such `;`. */
  lemma LaterDeclarationLast(s: string, b: nat, j: nat, property: string, corrected: bool) returns (k: nat)
    requires b < j < |s| && LaterDeclaration(s, b, j, property, corrected).Some?
    ensures b < k <= j && DeclaredAfter(s, k, property, corrected)
    ensures LaterDeclaration(s, b, j, property, corrected) == DeclarationAfter(s, k, property, corrected)
    ensures forall k' :: k < k' <= j ==> !DeclaredAfter(s, k', property, corrected)
  {
    k := GiveBackLast(Declarations(s, property, corrected), b + 1, j);
    forall k' | k < k' <= j
      ensures !DeclaredAfter(s, k', property, corrected)
    {
      assert Declarations(s, property, corrected)(k').None?;
    }
  }

  /**
   * The block opened just before b declares the property with a readable
   * value: right after the opening whitespace, or after a `;` that comes
   * before the block's `}`.
   */
  ghost predicate BlockDeclares(s: string, b: nat, property: string, corrected: bool)
    requires b <= |s|
  {
    || DeclarationAt(s, RunEnd(s, b, IsSpace), property, corrected).Some?
    || exists k :: b < k < RunEnd(s, b, NotCloseBrace) && DeclaredAfter(s, k, property, corrected)
  }

  /** A `;` followed by a declaration: where the declaration starts. */
  lemma DeclarationAfterRead(s: string, k: nat, property: string, corrected: bool) returns (d: nat)
    requires DeclaredAfter(s, k, property, corrected)
    ensures k < d <= |s| && HasPrefixAt(s, d, property)
    ensures DeclarationAfter(s, k, property, corrected) == V3Value(s, d + |property|, corrected)
  {
    d := RunEnd(s, k + 1, IsSpace);
  }

  /** What the second alternative reads is a declaration of the property followed by the value part. */
  lemma LaterDeclarationRead(s: string, b: nat, j: nat, property: string, corrected: bool) returns (d: nat)
    requires b < j < |s| && LaterDeclaration(s, b, j, property, corrected).Some?
    ensures b < d <= |s| && HasPrefixAt(s, d, property)
    ensures LaterDeclaration(s, b, j, property, corrected) == V3Value(s, d + |property|, corrected)
  {
    var k := LaterDeclarationLast(s, b, j, property, corrected);
    d := DeclarationAfterRead(s, k, property, corrected);
  }

  /** The second alternative reads a value part that starts after b. */
  lemma LaterDeclarationShaped(s: string, b: nat, j: nat, property: string, corrected: bool)
    requires b < j < |s|
    ensures var r := LaterDeclaration(s, b, j, property, corrected);
            r.Some? ==> Shaped(s, b, QuotedTail, r.value)
  {
    if LaterDeclaration(s, b, j, property, corrected).Some? {
      var d := LaterDeclarationRead(s, b, j, property, corrected);
    }
  }

  /** `(\s*|[^}]+;\s*)<property>` and the value part, for a block whose `{` is just before b. */
  function RuleBlock(s: string, b: nat, property: string, corrected: bool): (r: Option<Capture>)
    requires b <= |s|
    ensures r.Some? ==> Shaped(s, b, QuotedTail, r.value)
  {
    var first := DeclarationAt(s, RunEnd(s, b, IsSpace), property, corrected);
    if first.Some? then first
    else
      var close := RunEnd(s, b, NotCloseBrace);
      if close < b + 2 then None
      else
        LaterDeclarationShaped(s, b, close - 1, property, corrected);
        LaterDeclaration(s, b, close - 1, property, corrected)
  }

  /**
   * A rule block reads a value exactly when it declares the property, and
   * what it reads is the value part after a declaration of the property.
   */
  lemma RuleBlockDeclared(s: string, b: nat, property: string, corrected: bool)
    requires b <= |s|
    ensures RuleBlock(s, b, property, corrected).Some? <==> BlockDeclares(s, b, property, corrected)
  {
    var close := RunEnd(s, b, NotCloseBrace);
    if DeclarationAt(s, RunEnd(s, b, IsSpace), property, corrected).None? && close >= b + 2 {
      RuleBlockLater(s, b, close, property, corrected);
      LaterDeclarationFails(s, b, close - 1, property, corrected);
    }
  }

  /** A block whose first declaration is not of the property reads what the later ones read. */
  lemma RuleBlockLater(s: string, b: nat, close: nat, property: string, corrected: bool)
    requires b + 2 <= close <= |s| && RunEnd(s, b, NotCloseBrace) == close
    requires DeclarationAt(s, RunEnd(s, b, IsSpace), property, corrected).None?
    ensures RuleBlock(s, b, property, corrected) == LaterDeclaration(s, b, close - 1, property, corrected)
  {
  }

  /** A value read from the block comes from a declaration of the property in it. */
  lemma RuleBlockRead(s: string, b: nat, property: string, corrected: bool) returns (d: nat)
    requires b <= |s| && RuleBlock(s, b, property, corrected).Some?
    ensures b <= d <= |s| && HasPrefixAt(s, d, property)
    ensures RuleBlock(s, b, property, corrected) == V3Value(s, d + |property|, corrected)
  {
    var w := RunEnd(s, b, IsSpace);
    if DeclarationAt(s, w, property, corrected).Some? {
      d := w;
    } else {
      d := RuleBlockLaterRead(s, b, property, corrected);
    }
  }

  /** RuleBlockRead where the block's first declaration is not of the property. */
  lemma RuleBlockLaterRead(s: string, b: nat, property: string, corrected: bool) returns (d: nat)
    requires b <= |s| && DeclarationAt(s, RunEnd(s, b, IsSpace), property, corrected).None?
    requires RuleBlock(s, b, property, corrected).Some?
    ensures b <= d <= |s| && HasPrefixAt(s, d, property)
    ensures RuleBlock(s, b, property, corrected) == V3Value(s, d + |property|, corrected)
  {
    var close := RunEnd(s, b, NotCloseBrace);
    RuleBlockLater(s, b, close, property, corrected);
    d := LaterDeclarationRead(s, b, close - 1, property, corrected);
    SameCapture(RuleBlock(s, b, property, corrected), LaterDeclaration(s, b, close - 1, property, corrected),
                V3Value(s, d + |property|, corrected));
  }

  /** `[^{]*\{` and the block after it: the rule body of the first `{` at or after q. */
  function RuleBody(s: string, q: nat, property: string, corrected: bool): (r: Option<Capture>)
    requires q <= |s|
    ensures r.Some? ==> Shaped(s, q, QuotedTail, r.value)
  {
    var brace := RunEnd(s, q, NotOpenBrace);
    if brace == |s| then None else RuleBlock(s, brace + 1, property, corrected)
  }

  /**
   * The rule body after q reads a value exactly when there is a `{` after q
   * and the block it opens declares the property.
   */
  lemma RuleBodyDeclared(s: string, q: nat, property: string, corrected: bool)
    requires q <= |s|
    ensures RuleBody(s, q, property, corrected).Some?
            <==> RunEnd(s, q, NotOpenBrace) < |s| && BlockDeclares(s, RunEnd(s, q, NotOpenBrace) + 1, property, corrected)
  {
    var brace := RunEnd(s, q, NotOpenBrace);
    if brace < |s| {
      RuleBlockDeclared(s, brace + 1, property, corrected);
    }
  }

  /** The first alternative, from index i on, that stands at j followed by the separator. */
  function StandingAlternative(s: string, j: nat, alts: seq<string>, sep: string, i: nat): (r: Option<nat>)
    requires i <= |alts|
    ensures r.Some? ==> i <= r.value < |alts| && HasPrefixAt(s, j, alts[r.value] + sep)
    ensures r.None? ==> forall k :: i <= k < |alts| ==> !HasPrefixAt(s, j, alts[k] + sep)
    decreases |alts| - i
  {
    if i == |alts| then None
    else if HasPrefixAt(s, j, alts[i] + sep) then Some(i)
    else StandingAlternative(s, j, alts, sep, i + 1)
  }

  /**
   * `(a|b|...)<sep>` at j: the position after the alternative that stands
   * there. The engine tries the alternatives in order and backtracks into the
   * next one when the rest of the pattern fails; for the lists used here at
   * most one alternative can stand at a position (AlternativesExclusive), so
   * taking the one that stands is the same.
   */
  function AfterAlternative(s: string, j: nat, alts: seq<string>, sep: string): (r: Option<nat>)
    ensures r.Some? ==> j <= r.value <= |s|
  {
    match StandingAlternative(s, j, alts, sep, 0)
    case Some(i) => Some(j + |alts[i]| + |sep|)
    case None => None
  }

  /** No entry followed by the separator is a prefix of another entry followed by it. */
  ghost predicate PrefixFree(alts: seq<string>, sep: string) {
    forall a, b :: 0 <= a < |alts| && 0 <= b < |alts| && a != b ==> !(alts[a] + sep <= alts[b] + sep)
  }

  /** Two literals standing at the same position: one is a prefix of the other. */
  lemma BothStanding(s: string, j: nat, x: string, y: string)
    requires HasPrefixAt(s, j, x) && HasPrefixAt(s, j, y) && |x| <= |y|
    ensures x <= y
  {
    assert y[..|x|] == s[j..j + |y|][..|x|] == s[j..j + |x|];
  }

  /** In a prefix-free list, an alternative that stands at j is the one StandingAlternative picks. */
  lemma StandingIsUnique(s: string, j: nat, alts: seq<string>, sep: string, k: nat)
    requires PrefixFree(alts, sep) && k < |alts| && HasPrefixAt(s, j, alts[k] + sep)
    ensures StandingAlternative(s, j, alts, sep, 0) == Some(k)
  {
    var r := StandingAlternative(s, j, alts, sep, 0);
    if r != Some(k) {
      var a := r.value;
      if |alts[a] + sep| <= |alts[k] + sep| {
        BothStanding(s, j, alts[a] + sep, alts[k] + sep);
      } else {
        BothStanding(s, j, alts[k] + sep, alts[a] + sep);
      }
    }
  }

  /** Entries that differ at index k, with k inside both, are not prefixes of each other. */
  lemma DifferAt(alts: seq<string>, sep: string, a: nat, b: nat, k: nat)
    requires a < |alts| && b < |alts| && k < |alts[a]| && k < |alts[b]| && alts[a][k] != alts[b][k]
    ensures !(alts[a] + sep <= alts[b] + sep)
  {
    assert (alts[a] + sep)[k] == alts[a][k];
    assert (alts[b] + sep)[k] == alts[b][k];
  }

  /** A list whose entries differ pairwise at some index inside both is prefix-free. */
  lemma HeadsDiffer(alts: seq<string>, sep: string, k: nat -> nat -> nat)
    requires forall a, b :: 0 <= a < |alts| && 0 <= b < |alts| && a != b ==>
               k(a)(b) < |alts[a]| && k(a)(b) < |alts[b]| && alts[a][k(a)(b)] != alts[b][k(a)(b)]
    ensures PrefixFree(alts, sep)
  {
    forall a, b | 0 <= a < |alts| && 0 <= b < |alts| && a != b
      ensures !(alts[a] + sep <= alts[b] + sep)
    {
      var i := k(a)(b);
      assert i < |alts[a]| && i < |alts[b]| && alts[a][i] != alts[b][i];
      DifferAt(alts, sep, a, b, i);
    }
  }

  /** Every alternative list of the patterns is prefix-free after its separator. */
  lemma AlternativesExclusive(c: Category)
    ensures PrefixFree(c.Suffixes(), ":")
  {
    var first := a => b => 0;
    match c
    case Font => HeadsDiffer(FontVariants, ":", first);
    case Opsz => HeadsDiffer(OpszVariants, ":", first);
    case Wght => HeadsDiffer(WghtVariants, ":", first);
    case Fill => HeadsDiffer(FillVariants, ":", first);
    case Grad => HeadsDiffer(GradVariants, ":", a => b => if a < 2 && b < 2 then 3 else 0);
    case Symbol => HeadsDiffer([], ":", first);
  }

  /** No font variant name is a prefix of another. */
  lemma FontVariantsExclusive()
    ensures PrefixFree(FontVariants, "")
  {
    HeadsDiffer(FontVariants, "", a => b => 0);
  }

  /** `[\.:]<name>` at p: a class or variant selector starting with the given name. */
  predicate SelectorAt(s: string, p: nat, name: string) {
    p < |s| && (s[p] == '.' || s[p] == ':') && HasPrefixAt(s, p + 1, name)
  }

  /** The match a v3 fragment reports for a capture of its value. */
  function V3(p: nat, key: Option<string>, c: Option<Capture>): Option<Match> {
    match c
    case Some(cap) => Some(Match(p, cap.end, Groups(key, Some(cap.value), None, None)))
    case None => None
  }

  /** The match a v4 fragment reports for a capture of its value. */
  function V4(p: nat, key: Option<string>, c: Option<Capture>): Option<Match> {
    match c
    case Some(cap) => Some(Match(p, cap.end, Groups(None, None, key, Some(cap.value))))
    case None => None
  }

  /** What a match of a category captures. */
  predicate WellShaped(c: Category, g: Groups) {
    && (g.FromV3() || g.FromV4())
    && (c == Symbol <==> g.Key().Some?)
    && (c.IsAxis() ==> IsIntegerLiteral(g.Value()))
    && (!c.IsAxis() ==> IsValueText(g.Value()))
  }

  /** A match reported at p: it starts at p, is not empty, and captures what the category captures. */
  predicate Reports(c: Category, s: string, p: nat, r: Option<Match>) {
    r.Some? ==> r.value.start == p < r.value.end <= |s| && WellShaped(c, r.value.groups)
  }

  /** `--icon-<name>:`, the property of a v3 axis declaration. */
  function V3Lead(c: Category): string {
    "--icon-" + c.Name() + ":"
  }

  /** `--icon-<name>-`, the start of every v4 declaration. */
  function V4Lead(c: Category): string {
    "--icon-" + c.Name() + "-"
  }

  /** The property a v3 font or symbol rule must declare. */
  function V3Property(c: Category): string {
    if c == Symbol then "--icon-symbol:" else "font-family:"
  }

  /** `[\.:]icon-(outlined|rounded|sharp)[^{]*\{(\s*|[^}]+;\s*)font-family:` and the v3 value part */
  function FontV3(s: string, p: nat, corrected: bool): (r: Option<Match>)
    requires p <= |s|
    ensures Reports(Font, s, p, r) && (r.Some? ==> r.value.groups.FromV3())
  {
    if !SelectorAt(s, p, "icon-") then None
    else
      match AfterAlternative(s, p + 1 + |"icon-"|, FontVariants, "")
      case Some(q) => V3(p, None, RuleBody(s, q, V3Property(Font), corrected))
      case None => None
  }

  /** `[\.:]icon-symbol-(?<key3>\w+)[^{]*\{(\s*|[^}]+;\s*)--icon-symbol:` and the v3 value part */
  function SymbolV3(s: string, p: nat, corrected: bool): (r: Option<Match>)
    requires p <= |s|
    ensures Reports(Symbol, s, p, r) && (r.Some? ==> r.value.groups.FromV3())
  {
    if SelectorAt(s, p, "icon-symbol-") then
      // `\w+` gives back characters in vain: `[^{]*` then reaches the same `{`
      var k := p + 1 + |"icon-symbol-"|;
      var e := RunEnd(s, k, IsWordChar);
      if e == k then None else V3(p, Some(s[k..e]), RuleBody(s, e, V3Property(Symbol), corrected))
    else None
  }

  /** `(?<!\w|-)--icon-<axis>:\s*(?<value3>-?\d+)` */
  function AxisV3(c: Category, s: string, p: nat): (r: Option<Match>)
    requires c.IsAxis() && p <= |s|
    ensures Reports(c, s, p, r) && (r.Some? ==> r.value.groups.FromV3())
  {
    if NotAfterWordOrDash(s, p) && HasPrefixAt(s, p, V3Lead(c)) then V3(p, None, IntegerAt(s, p + |V3Lead(c)|)) else None
  }

  /** The v3 fragment of a category at p. */
  function MatchV3(c: Category, s: string, p: nat, corrected: bool): (r: Option<Match>)
    requires p <= |s|
    ensures Reports(c, s, p, r) && (r.Some? ==> r.value.groups.FromV3())
  {
    match c
    case Font => FontV3(s, p, corrected)
    case Symbol => SymbolV3(s, p, corrected)
    case _ => AxisV3(c, s, p)
  }

  /** `(?<!\w|-)--icon-symbol-(?<key4>\w+):\s*['"]?(?<value4>[^'";}]+)` */
  function SymbolV4(s: string, p: nat): (r: Option<Match>)
    requires p <= |s|
    ensures Reports(Symbol, s, p, r) && (r.Some? ==> r.value.groups.FromV4())
  {
    if !(NotAfterWordOrDash(s, p) && HasPrefixAt(s, p, V4Lead(Symbol))) then None
    else
      // a shorter `\w+` is followed by a word character, not by `:`
      var k := p + |V4Lead(Symbol)|;
      var e := RunEnd(s, k, IsWordChar);
      if e == k || e == |s| || s[e] != ':' then None else V4(p, Some(s[k..e]), QuotedValue(s, e + 1))
  }

  /** The value part of a suffixed v4 declaration: quoted for the font, an integer for an axis. */
  function SuffixedValue(c: Category, s: string, q: nat): (r: Option<Capture>)
    requires c != Symbol && q <= |s|
    ensures r.Some? ==> Shaped(s, q, if c == Font then QuotedTail else IntegerTail, r.value)
  {
    if c == Font then QuotedValue(s, q) else IntegerAt(s, q)
  }

  /**
   * `(?<!\w|-)--icon-font-(outlined|rounded|sharp):\s*['"]?(?<value4>[^'";}]+)` and
   * `(?<!\w|-)--icon-<axis>-(<suffix>|...):\s*(?<value4>-?\d+)`
   */
  function SuffixedV4(c: Category, s: string, p: nat): (r: Option<Match>)
    requires c != Symbol && p <= |s|
    ensures Reports(c, s, p, r) && (r.Some? ==> r.value.groups.FromV4())
  {
    if !(NotAfterWordOrDash(s, p) && HasPrefixAt(s, p, V4Lead(c))) then None
    else
      match AfterAlternative(s, p + |V4Lead(c)|, c.Suffixes(), ":")
      case Some(q) => V4(p, None, SuffixedValue(c, s, q))
      case None => None
  }

  /** The v4 fragment of a category at p. */
  function MatchV4(c: Category, s: string, p: nat): (r: Option<Match>)
    requires p <= |s|
    ensures Reports(c, s, p, r) && (r.Some? ==> r.value.groups.FromV4())
  {
    if c == Symbol then SymbolV4(s, p) else SuffixedV4(c, s, p)
  }

  /** `${V3}|${V4}` at p: the v3 fragment first, the v4 fragment if it fails. */
  function MatchAt(c: Category, s: string, p: nat, corrected: bool): (r: Option<Match>)
    requires p <= |s|
    ensures Reports(c, s, p, r)
  {
    var v3 := MatchV3(c, s, p, corrected);
    if v3.Some? then v3 else MatchV4(c, s, p)
  }

  /** What a pattern matches at each start position. */
  type Matcher = nat -> Option<Match>

  /** Every match of the matcher starts where it was tried and ends after it, inside a text of length n. */
  ghost predicate Advances(at: Matcher, n: nat) {
    forall p: nat :: p < n && at(p).Some? ==> at(p).value.start == p < at(p).value.end <= n
  }

  /**
   * Global matching from position i, as `matchAll` does it: after a match
   * the search resumes where the match ended, otherwise one position later.
   */
  function MatchAllFrom(at: Matcher, n: nat, i: nat): (ms: seq<Match>)
    requires i <= n && Advances(at, n)
    ensures forall k :: 0 <= k < |ms| ==> i <= ms[k].start < ms[k].end <= n
    ensures forall k :: 0 <= k < |ms| - 1 ==> ms[k].end <= ms[k + 1].start
    decreases n - i
  {
    if i == n then []
    else
      match at(i)
      case Some(m) => [m] + MatchAllFrom(at, n, m.end)
      case None => MatchAllFrom(at, n, i + 1)
  }

  /** Every reported match is what the pattern matches at its start. */
  lemma {:induction false} MatchAllFromSound(at: Matcher, n: nat, i: nat)
    requires i <= n && Advances(at, n)
    ensures forall m :: m in MatchAllFrom(at, n, i) ==> at(m.start) == Some(m)
    decreases n - i
  {
    if i < n {
      var r := at(i);
      if r.Some? {
        MatchAllFromSound(at, n, r.value.end);
        assert MatchAllFrom(at, n, i) == [r.value] + MatchAllFrom(at, n, r.value.end);
      } else {
        MatchAllFromSound(at, n, i + 1);
        assert MatchAllFrom(at, n, i) == MatchAllFrom(at, n, i + 1);
      }
    }
  }

  /**
   * Global matching misses nothing: wherever the pattern matches at a
   * position p that no reported match strictly straddles, the match at p
   * is reported.
   */
  lemma {:induction false} MatchAllFromComplete(at: Matcher, n: nat, i: nat, p: nat)
    requires i <= p < n && Advances(at, n) && at(p).Some?
    requires forall m :: m in MatchAllFrom(at, n, i) ==> !(m.start < p < m.end)
    ensures at(p).value in MatchAllFrom(at, n, i)
    decreases n - i
  {
    var r := at(i);
    if i == p {
      assert MatchAllFrom(at, n, i) == [r.value] + MatchAllFrom(at, n, r.value.end);
    } else if r.Some? {
      var m := r.value;
      assert MatchAllFrom(at, n, i) == [m] + MatchAllFrom(at, n, m.end);
      assert m in MatchAllFrom(at, n, i);
      MatchAllFromComplete(at, n, m.end, p);
    } else {
      assert MatchAllFrom(at, n, i) == MatchAllFrom(at, n, i + 1);
      MatchAllFromComplete(at, n, i + 1, p);
    }
  }

  /** `<CATEGORY>_REGEX` over one stylesheet: the pattern tried at each position of the text. */
  function MatcherOf(c: Category, s: string, corrected: bool): (at: Matcher)
    ensures Advances(at, |s|)
    ensures forall p: nat :: p <= |s| ==> at(p) == MatchAt(c, s, p, corrected)
  {
    (p: nat) => if p <= |s| then MatchAt(c, s, p, corrected) else None
  }

  /** `css.matchAll(<CATEGORY>_REGEX)` */
  function Scan(c: Category, s: string, corrected: bool): (ms: seq<Match>)
    ensures forall m :: m in ms ==> WellShaped(c, m.groups)
    ensures forall k :: 0 <= k < |ms| ==> ms[k].start < ms[k].end <= |s|
    ensures forall k :: 0 <= k < |ms| - 1 ==> ms[k].end <= ms[k + 1].start
  {
    MatchAllFromSound(MatcherOf(c, s, corrected), |s|, 0);
    MatchAllFrom(MatcherOf(c, s, corrected), |s|, 0)
  }

  /** Every match the scan reports is what the category's pattern matches at its start. */
  lemma ScanSound(c: Category, s: string, corrected: bool)
    ensures forall m :: m in Scan(c, s, corrected) ==> m.start <= |s| && MatchAt(c, s, m.start, corrected) == Some(m)
  {
    var at := MatcherOf(c, s, corrected);
    MatchAllFromSound(at, |s|, 0);
    forall m | m in Scan(c, s, corrected) ensures m.start <= |s| && MatchAt(c, s, m.start, corrected) == Some(m) {
      assert at(m.start) == Some(m);
    }
  }

  /** Two literals that differ at index k cannot both stand at p. */
  lemma PrefixesClash(s: string, p: nat, a: string, b: string, k: nat)
    requires k < |a| && k < |b| && a[k] != b[k]
    ensures !(HasPrefixAt(s, p, a) && HasPrefixAt(s, p, b))
  {
    if HasPrefixAt(s, p, a) {
      assert s[p + k] == s[p..p + |a|][k] == a[k];
    }
  }

  /** What the v3 fragment needs at its start: a selector character, or the axis property. */
  lemma V3Start(c: Category, s: string, p: nat, corrected: bool)
    requires p <= |s| && MatchV3(c, s, p, corrected).Some?
    ensures c.IsAxis() ==> HasPrefixAt(s, p, V3Lead(c))
    ensures !c.IsAxis() ==> p < |s| && (s[p] == '.' || s[p] == ':')
  {
  }

  /** What the v4 fragment needs at its start: the property `--icon-<name>-`. */
  lemma V4Start(c: Category, s: string, p: nat)
    requires p <= |s| && MatchV4(c, s, p).Some?
    ensures HasPrefixAt(s, p, V4Lead(c))
  {
    if c == Symbol {
      assert SymbolV4(s, p).Some?;
    } else {
      assert SuffixedV4(c, s, p).Some?;
    }
  }

  /** Starting with `--icon-<name>-` rules out the v3 fragment. */
  lemma V3NotAtV4Lead(c: Category, s: string, p: nat, corrected: bool)
    requires p <= |s| && HasPrefixAt(s, p, V4Lead(c))
    ensures MatchV3(c, s, p, corrected).None?
  {
    var lead4 := V4Lead(c);
    assert s[p] == s[p..p + |lead4|][0] == '-';
    if MatchV3(c, s, p, corrected).Some? {
      V3Start(c, s, p, corrected);
      if c.IsAxis() {
        PrefixesClash(s, p, V3Lead(c), lead4, |lead4| - 1);
      }
    }
  }

  /** The v3 and v4 fragments of a category never both match at one position. */
  lemma DialectsExclusive(c: Category, s: string, p: nat, corrected: bool)
    requires p <= |s|
    ensures !(MatchV3(c, s, p, corrected).Some? && MatchV4(c, s, p).Some?)
  {
    if MatchV4(c, s, p).Some? {
      V4Start(c, s, p);
      V3NotAtV4Lead(c, s, p, corrected);
    }
  }

  /**
   * One pass reads both dialects: a v3 declaration and a v4 declaration that
   * no earlier match covers are both reported, each with its own groups, so
   * a stylesheet mixing the two dialects yields the usages of both.
   */
  lemma ScanSeesBothDialects(c: Category, s: string, p: nat, corrected: bool)
    requires p < |s|
    requires forall m :: m in Scan(c, s, corrected) ==> !(m.start < p < m.end)
    ensures MatchV3(c, s, p, corrected).Some? ==> MatchV3(c, s, p, corrected).value in Scan(c, s, corrected)
    ensures MatchV4(c, s, p).Some? ==> MatchV4(c, s, p).value in Scan(c, s, corrected)
  {
    DialectsExclusive(c, s, p, corrected);
    if MatchAt(c, s, p, corrected).Some? {
      MatchAllFromComplete(MatcherOf(c, s, corrected), |s|, 0, p);
    }
  }

  /** The first match of a stylesheet is always reported. */
  lemma ScanFindsFirst(c: Category, s: string, p: nat, corrected: bool)
    requires p < |s| && MatchAt(c, s, p, corrected).Some?
    requires forall i :: 0 <= i < p ==> MatchAt(c, s, i, corrected).None?
    ensures MatchAt(c, s, p, corrected).value in Scan(c, s, corrected)
  {
    ScanSound(c, s, corrected);
    MatchAllFromComplete(MatcherOf(c, s, corrected), |s|, 0, p);
  }

  /**
   * `(?<!\w|-)`: a custom property glued to a preceding word character or
   * dash (as in `x--icon-wght: 700` or `---icon-wght: 700`) is not matched.
   */
  lemma LookbehindRejects(c: Category, s: string, p: nat, corrected: bool)
    requires 0 < p < |s| && (IsWordChar(s[p - 1]) || s[p - 1] == '-') && s[p] == '-'
    ensures MatchAt(c, s, p, corrected) == None
  {
  }

  /**
   * A suffixed declaration `--icon-<name>-<suffix>: v` is never read by the
   * v3 fragment, whose property must be followed by `:`; what matches there
   * is the v4 fragment, and only for one of the category's listed suffixes.
   */
  lemma SuffixedPropertyIsV4(c: Category, s: string, p: nat, corrected: bool)
    requires c != Symbol && p <= |s| && HasPrefixAt(s, p, V4Lead(c))
    ensures MatchAt(c, s, p, corrected).Some? ==>
              && MatchAt(c, s, p, corrected).value.groups.FromV4()
              && exists i :: 0 <= i < |c.Suffixes()| && HasPrefixAt(s, p + |V4Lead(c)|, c.Suffixes()[i] + ":")
  {
    V3NotAtV4Lead(c, s, p, corrected);
    assert MatchAt(c, s, p, corrected) == SuffixedV4(c, s, p);
    var alt := StandingAlternative(s, p + |V4Lead(c)|, c.Suffixes(), ":", 0);
    if alt.Some? {
      assert HasPrefixAt(s, p + |V4Lead(c)|, c.Suffixes()[alt.value] + ":");
    }
  }

  /**
   * Conversely, a declaration of one of the listed suffixes, not glued to a
   * preceding word character or dash, is matched by the v4 fragment, which
   * reads the value part after the `:`.
   */
  lemma SuffixedV4Reads(c: Category, s: string, p: nat, i: nat, q: nat, corrected: bool)
    requires c != Symbol && i < |c.Suffixes()| && p <= |s| && NotAfterWordOrDash(s, p)
    requires HasPrefixAt(s, p, V4Lead(c)) && HasPrefixAt(s, p + |V4Lead(c)|, c.Suffixes()[i] + ":")
    requires q == p + |V4Lead(c)| + |c.Suffixes()[i]| + 1
    ensures MatchAt(c, s, p, corrected) == V4(p, None, SuffixedValue(c, s, q))
  {
    SuffixedV4Matches(c, s, p, i, q);
    assert MatchV4(c, s, p) == SuffixedV4(c, s, p);
    V4LeadIsV4(c, s, p, corrected);
  }

  /** The v4 fragment alone, under the same layout. */
  lemma SuffixedV4Matches(c: Category, s: string, p: nat, i: nat, q: nat)
    requires c != Symbol && i < |c.Suffixes()| && p <= |s| && NotAfterWordOrDash(s, p)
    requires HasPrefixAt(s, p, V4Lead(c)) && HasPrefixAt(s, p + |V4Lead(c)|, c.Suffixes()[i] + ":")
    requires q == p + |V4Lead(c)| + |c.Suffixes()[i]| + 1
    ensures SuffixedV4(c, s, p) == V4(p, None, SuffixedValue(c, s, q))
  {
    SuffixStands(c, s, p + |V4Lead(c)|, i, q);
    SuffixedV4Value(c, s, p, q);
  }

  /** Where `--icon-<name>-` stands, the global pattern matches what the v4 fragment matches. */
  lemma V4LeadIsV4(c: Category, s: string, p: nat, corrected: bool)
    requires p <= |s| && HasPrefixAt(s, p, V4Lead(c))
    ensures MatchAt(c, s, p, corrected) == MatchV4(c, s, p)
  {
    V3NotAtV4Lead(c, s, p, corrected);
  }

  /** The v4 fragment at an alternative that stands reads the value part after its `:`. */
  lemma SuffixedV4Value(c: Category, s: string, p: nat, q: nat)
    requires c != Symbol && p <= |s| && NotAfterWordOrDash(s, p) && HasPrefixAt(s, p, V4Lead(c))
    requires AfterAlternative(s, p + |V4Lead(c)|, c.Suffixes(), ":") == Some(q)
    ensures q <= |s| && SuffixedV4(c, s, p) == V4(p, None, SuffixedValue(c, s, q))
  {
  }

  /** An entry of a prefix-free list followed by `:` at j is the alternative taken there, ending at e. */
  lemma StandsIn(s: string, j: nat, alts: seq<string>, i: nat, e: nat)
    requires PrefixFree(alts, ":") && i < |alts| && HasPrefixAt(s, j, alts[i] + ":")
    requires e == j + |alts[i]| + 1
    ensures AfterAlternative(s, j, alts, ":") == Some(e)
  {
    StandingIsUnique(s, j, alts, ":", i);
  }

  /** A listed suffix followed by `:` at j is the alternative the v4 fragment takes, ending at e. */
  lemma SuffixStands(c: Category, s: string, j: nat, i: nat, e: nat)
    requires i < |c.Suffixes()| && HasPrefixAt(s, j, c.Suffixes()[i] + ":")
    requires e == j + |c.Suffixes()[i]| + 1
    ensures AfterAlternative(s, j, c.Suffixes(), ":") == Some(e)
  {
    AlternativesExclusive(c);
    StandsIn(s, j, c.Suffixes(), i, e);
  }

  /** The declaration a rule-body match read its value from. */
  lemma RuleBodyDeclaration(s: string, q: nat, property: string, corrected: bool) returns (d: nat)
    requires q <= |s| && RuleBody(s, q, property, corrected).Some?
    ensures q < d <= |s| && HasPrefixAt(s, d, property) && V3Value(s, d + |property|, corrected) == RuleBody(s, q, property, corrected)
    ensures corrected ==> !HasPrefixAt(s, RunEnd(s, d + |property|, IsSpace), "var(")
  {
    d := RuleBlockRead(s, RunEnd(s, q, NotOpenBrace) + 1, property, corrected);
  }

  /**
   * What the v3 font and symbol fragments promise about the declaration they
   * read: the value part after a declaration of the property, which with the
   * correction is never `var(...)`.
   */
  ghost predicate ReadsDeclaration(s: string, p: nat, property: string, value3: Option<string>, corrected: bool) {
    exists d :: p < d <= |s| && HasPrefixAt(s, d, property)
                && (corrected ==> !HasPrefixAt(s, RunEnd(s, d + |property|, IsSpace), "var("))
                && V3Value(s, d + |property|, corrected).Some?
                && value3 == Some(V3Value(s, d + |property|, corrected).value.value)
  }

  /** A rule body after q reads a declaration of the property. */
  lemma RuleBodyReads(s: string, p: nat, q: nat, property: string, corrected: bool)
    requires p < q <= |s| && RuleBody(s, q, property, corrected).Some?
    ensures ReadsDeclaration(s, p, property, Some(RuleBody(s, q, property, corrected).value.value), corrected)
  {
    var d := RuleBodyDeclaration(s, q, property, corrected);
  }

  /** A v3 font match reads the rule body after one of the variant names. */
  lemma V3FontGuarded(s: string, p: nat, corrected: bool)
    requires p <= |s| && MatchV3(Font, s, p, corrected).Some?
    ensures ReadsDeclaration(s, p, V3Property(Font), MatchV3(Font, s, p, corrected).value.groups.value3, corrected)
  {
    var q := AfterAlternative(s, p + 1 + |"icon-"|, FontVariants, "").value;
    assert MatchV3(Font, s, p, corrected) == FontV3(s, p, corrected) == V3(p, None, RuleBody(s, q, V3Property(Font), corrected));
    RuleBodyReads(s, p, q, V3Property(Font), corrected);
  }

  /** A v3 symbol match reads the rule body after the symbol name. */
  lemma V3SymbolGuarded(s: string, p: nat, corrected: bool)
    requires p <= |s| && MatchV3(Symbol, s, p, corrected).Some?
    ensures ReadsDeclaration(s, p, V3Property(Symbol), MatchV3(Symbol, s, p, corrected).value.groups.value3, corrected)
  {
    var q := RunEnd(s, p + 1 + |"icon-symbol-"|, IsWordChar);
    RuleBodyReads(s, p, q, V3Property(Symbol), corrected);
  }

  /**
   * A v3 font or symbol match always comes from a declaration of the rule's
   * property; with the correction, never from one whose value, after
   * whitespace, starts with `var(`.
   */
  lemma V3RejectsVar(c: Category, s: string, p: nat, corrected: bool)
    requires (c == Font || c == Symbol) && p <= |s| && MatchV3(c, s, p, corrected).Some?
    ensures ReadsDeclaration(s, p, V3Property(c), MatchV3(c, s, p, corrected).value.groups.value3, corrected)
  {
    if c == Font {
      V3FontGuarded(s, p, corrected);
    } else {
      V3SymbolGuarded(s, p, corrected);
    }
  }
}
