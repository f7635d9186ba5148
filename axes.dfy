/**
 * The variation axes handed to the font subsetter (subset.ts:87-92): the
 * weight and optical-size axes are kept over the span of the values used,
 * the fill and grade axes over their span when more than one value is used
 * and pinned otherwise.
 */
module Axes {
  import opened Collections

  /** `{ min, max }` */
  datatype Range = Range(min: int, max: int)

  /** An axis either pinned to one value or kept over a range of values. */
  datatype AxisSetting = Pinned(value: int) | Ranged(range: Range)

  datatype VariationAxes = VariationAxes(wght: Range, opsz: Range, fill: AxisSetting, grad: AxisSetting)

  /** Whether a subset font made with this setting can still show `x`. */
  predicate Covers(s: AxisSetting, x: int) {
    match s
    case Pinned(v) => v == x
    case Ranged(r) => r.min <= x <= r.max
  }

  /** `Math.min(...xs)` */
  function Min(xs: seq<int>): (m: int)
    requires xs != []
    ensures m in xs && forall x :: x in xs ==> m <= x
  {
    if |xs| == 1 then xs[0]
    else
      var rest := Min(xs[1..]);
      assert forall x :: x in xs ==> x == xs[0] || x in xs[1..];
      if xs[0] <= rest then xs[0] else rest
  }

  /** `Math.max(...xs)` */
  function Max(xs: seq<int>): (m: int)
    requires xs != []
    ensures m in xs && forall x :: x in xs ==> x <= m
  {
    if |xs| == 1 then xs[0]
    else
      var rest := Max(xs[1..]);
      assert forall x :: x in xs ==> x == xs[0] || x in xs[1..];
      if rest <= xs[0] then xs[0] else rest
  }

  /** `{ min: Math.min(...xs), max: Math.max(...xs) }`: the tightest range holding every value. */
  function Span(xs: seq<int>): (r: Range)
    requires xs != []
    ensures r.min in xs && r.max in xs
    ensures forall x :: x in xs ==> r.min <= x <= r.max
  {
    Range(Min(xs), Max(xs))
  }

  /** A one-value set spans exactly that value. */
  lemma SpanOfOne(x: int)
    ensures Span([x]) == Range(x, x)
  {
  }

  /**
   * The fill and grade axes as written: the span when the set holds more
   * than one value, otherwise the literal 0, whatever the one value is.
   */
  function ToggleAsWritten(used: seq<int>): (s: AxisSetting)
    requires used != []
    ensures s.Ranged? <==> |used| > 1
    ensures s.Pinned? ==> s.value == 0
  {
    if |used| > 1 then Ranged(Span(used)) else Pinned(0)
  }

  /**
   * The fill and grade axes as intended: the span when the set holds more
   * than one value, otherwise pinned at the one value used.
   */
  function Toggle(used: seq<int>): (s: AxisSetting)
    requires used != []
    ensures s.Ranged? <==> |used| > 1
    ensures forall x :: x in used ==> Covers(s, x)
    ensures s.Pinned? ==> s.value in used
    ensures s.Ranged? ==> s.range.min in used && s.range.max in used
  {
    if |used| > 1 then Ranged(Span(used)) else Pinned(used[0])
  }

  /**
   * On a set (no value twice) the axis is kept over a range exactly when
   * two different values are used.
   */
  lemma ToggleRangesIffVaries(used: seq<int>)
    requires used != [] && Distinct(used)
    ensures Toggle(used).Ranged? <==> exists i, j :: 0 <= i < |used| && 0 <= j < |used| && used[i] != used[j]
  {
    if |used| > 1 {
      assert used[0] != used[1];
    }
  }

  /**
   * With one value used, the axis as written keeps that value exactly when
   * it is 0; otherwise it agrees with the intended setting.
   */
  lemma AsWrittenKeepsOnlyZero(used: seq<int>)
    requires used != []
    ensures |used| == 1 ==> (Covers(ToggleAsWritten(used), used[0]) <==> used[0] == 0)
    ensures |used| > 1 ==> ToggleAsWritten(used) == Toggle(used)
  {
  }

  /** `defaults: { fill: 1 }` and no fill utility: the one fill value used, 1, is cut from the font. */
  lemma AsWrittenDropsFillOne()
    ensures !Covers(ToggleAsWritten([1]), 1)
    ensures Covers(Toggle([1]), 1)
  {
  }

  /**
   * The fill or grade setting of subset.ts:90-91 (`corrected` false) or of
   * its intended reading (`corrected` true): a used value is kept exactly
   * when more than one value is used, or it is 0, or the setting is the
   * corrected one.
   */
  function Setting(used: seq<int>, corrected: bool): (s: AxisSetting)
    requires used != []
    ensures s.Ranged? <==> |used| > 1
    ensures s.Ranged? ==> s.range == Span(used)
    ensures s.Pinned? ==> s.value == (if corrected then used[0] else 0)
    ensures forall x :: x in used ==> (Covers(s, x) <==> corrected || |used| > 1 || x == 0)
  {
    if corrected then Toggle(used) else ToggleAsWritten(used)
  }

  /** The `variationAxes` option for the four value sets. */
  function AxesFor(wght: seq<int>, opsz: seq<int>, fill: seq<int>, grad: seq<int>, corrected: bool): (a: VariationAxes)
    requires wght != [] && opsz != [] && fill != [] && grad != []
    ensures forall x :: x in wght ==> Covers(Ranged(a.wght), x)
    ensures forall x :: x in opsz ==> Covers(Ranged(a.opsz), x)
    ensures a.wght.min in wght && a.wght.max in wght && a.opsz.min in opsz && a.opsz.max in opsz
    ensures forall x :: x in fill ==> (Covers(a.fill, x) <==> corrected || |fill| > 1 || x == 0)
    ensures forall x :: x in grad ==> (Covers(a.grad, x) <==> corrected || |grad| > 1 || x == 0)
    ensures a.wght == Span(wght) && a.opsz == Span(opsz)
    ensures a.fill == Setting(fill, corrected) && a.grad == Setting(grad, corrected)
  {
    VariationAxes(Span(wght), Span(opsz), Setting(fill, corrected), Setting(grad, corrected))
  }
}
