/**
 * `subsetMaterialSymbols` (subset.ts:32-99): the usage of a stylesheet
 * turned into one subset font per used variant. Reading the source font
 * and the subsetter are parameters; either may fail, and the first failure
 * in font order is the call's failure.
 */
module Subset {
  import opened Wrappers
  import opened Collections
  import opened Config
  import opened Usage
  import opened Axes

  type Bytes = seq<bv8>

  /** The options object passed to the subsetter next to the glyph string. */
  datatype SubsetRequest = SubsetRequest(targetFormat: string, variationAxes: VariationAxes)

  /** Reads a file named relative to the module. */
  type FileReader = string -> Result<Bytes, string>

  /** Subsets a font to the glyphs of a string. */
  type Subsetter = (Bytes, string, SubsetRequest) -> Result<Bytes, string>

  const FontFilePrefix: string := "material-symbols-"
  const FontFileSuffix: string := ".woff2"

  /** The source font file of a variant, `material-symbols-<key>.woff2`. */
  function FontFile(v: Variant): (name: string)
    ensures |name| == |FontFilePrefix| + |v.Key()| + |FontFileSuffix|
    ensures name[..|FontFilePrefix|] == FontFilePrefix
    ensures name[|FontFilePrefix|..|FontFilePrefix| + |v.Key()|] == v.Key()
    ensures name[|FontFilePrefix| + |v.Key()|..] == FontFileSuffix
  {
    FontFilePrefix + v.Key() + FontFileSuffix
  }

  /** Each variant reads its own file. */
  lemma FontFileInjective(v: Variant, w: Variant)
    requires FontFile(v) == FontFile(w)
    ensures v == w
  {
    var n := |FontFilePrefix|;
    assert FontFile(v)[n] == v.Key()[0] && FontFile(w)[n] == w.Key()[0];
  }

  /** The axes of every subset font made from a usage. */
  function AxesOf(u: Usage, corrected: bool): (a: VariationAxes)
    requires u.wght != [] && u.opsz != [] && u.fill != [] && u.grad != []
    ensures forall x :: x in u.wght ==> a.wght.min <= x <= a.wght.max
    ensures forall x :: x in u.opsz ==> a.opsz.min <= x <= a.opsz.max
    ensures a.wght.min in u.wght && a.wght.max in u.wght && a.opsz.min in u.opsz && a.opsz.max in u.opsz
    ensures forall x :: x in u.fill ==> (Covers(a.fill, x) <==> corrected || |u.fill| > 1 || x == 0)
    ensures forall x :: x in u.grad ==> (Covers(a.grad, x) <==> corrected || |u.grad| > 1 || x == 0)
    ensures a.wght == Span(u.wght) && a.opsz == Span(u.opsz)
    ensures a.fill == Setting(u.fill, corrected) && a.grad == Setting(u.grad, corrected)
  {
    AxesFor(u.wght, u.opsz, u.fill, u.grad, corrected)
  }

  /**
   * The weight and optical-size ranges always reach from at most to at
   * least the default; the fill and grade settings keep their default
   * exactly when another value is used too, or the default is 0, or the
   * setting is the corrected one.
   */
  lemma AxesKeepDefaults(css: string, options: SubsetOptions, codepoints: Codepoints, corrected: bool)
    ensures var u := Extract(css, options, codepoints, corrected);
            var a := AxesOf(u, corrected);
            var d := MergeDefaults(options);
            && a.wght.min <= d.wght <= a.wght.max
            && a.opsz.min <= d.opsz <= a.opsz.max
            && (Covers(a.fill, d.fill) <==> corrected || |u.fill| > 1 || d.fill == 0)
            && (Covers(a.grad, d.grad) <==> corrected || |u.grad| > 1 || d.grad == 0)
  {
  }

  /**
   * With only the defaults used, the weight and optical-size axes are
   * reduced to their defaults and the fill and grade axes are pinned: at 0
   * as written, at their defaults when corrected.
   */
  lemma AxesOfEmptyStylesheet(options: SubsetOptions, codepoints: Codepoints, corrected: bool)
    ensures var d := MergeDefaults(options);
            AxesOf(Extract("", options, codepoints, corrected), corrected)
              == VariationAxes(Range(d.wght, d.wght), Range(d.opsz, d.opsz),
                               Pinned(if corrected then d.fill else 0), Pinned(if corrected then d.grad else 0))
  {
    ExtractEmpty(options, codepoints, corrected);
  }

  /** The output for one variant: its file read, then subset to the glyph string. */
  function FontOutput(v: Variant, content: string, axes: VariationAxes,
                      readFile: FileReader, subsetFont: Subsetter): (r: Result<Bytes, string>)
    ensures readFile(FontFile(v)).Failure? ==> r == Failure(readFile(FontFile(v)).error)
    ensures readFile(FontFile(v)).Success? ==>
              r == subsetFont(readFile(FontFile(v)).value, content, SubsetRequest("woff2", axes))
  {
    match readFile(FontFile(v))
    case Failure(e) => Failure(e)
    case Success(input) => subsetFont(input, content, SubsetRequest("woff2", axes))
  }

  /**
   * What the output loop promises for the used variants `fonts`, in set
   * order: on success one output per variant and nothing else, each the
   * subset of that variant's file; on failure the error of the first
   * variant whose read or subset failed.
   */
  predicate IsOutcome(fonts: seq<Variant>, content: string, axes: VariationAxes,
                      readFile: FileReader, subsetFont: Subsetter, r: Result<map<Variant, Bytes>, string>)
  {
    && (r.Success? <==> forall v :: v in fonts ==> FontOutput(v, content, axes, readFile, subsetFont).Success?)
    && (r.Success? ==> forall v :: v in r.value <==> v in fonts)
    && (r.Success? ==> forall v :: v in r.value ==> FontOutput(v, content, axes, readFile, subsetFont) == Success(r.value[v]))
    && (r.Failure? ==>
          exists i :: 0 <= i < |fonts|
                      && FontOutput(fonts[i], content, axes, readFile, subsetFont) == Failure(r.error)
                      && forall k :: 0 <= k < i ==> FontOutput(fonts[k], content, axes, readFile, subsetFont).Success?)
  }

  /** The output loop (subset.ts:76-98): the variants tried in order until one fails. */
  method SubsetEach(fonts: seq<Variant>, content: string, axes: VariationAxes,
                    readFile: FileReader, subsetFont: Subsetter)
    returns (r: Result<map<Variant, Bytes>, string>)
    ensures IsOutcome(fonts, content, axes, readFile, subsetFont, r)
  {
    var output: map<Variant, Bytes> := map[];
    for i := 0 to |fonts|
      invariant forall v :: v in output <==> v in fonts[..i]
      invariant forall v :: v in output ==> FontOutput(v, content, axes, readFile, subsetFont) == Success(output[v])
      invariant forall k :: 0 <= k < i ==> FontOutput(fonts[k], content, axes, readFile, subsetFont).Success?
    {
      var font := fonts[i];
      var fontInput := readFile(FontFile(font));
      if fontInput.Failure? {
        assert font in fonts && !FontOutput(font, content, axes, readFile, subsetFont).Success?;
        return Failure(fontInput.error);
      }
      var fontOutput := subsetFont(fontInput.value, content, SubsetRequest("woff2", axes));
      if fontOutput.Failure? {
        assert font in fonts && !FontOutput(font, content, axes, readFile, subsetFont).Success?;
        return Failure(fontOutput.error);
      }
      output := output[font := fontOutput.value];
    }
    assert fonts[..|fonts|] == fonts;
    return Success(output);
  }

  /**
   * The subset fonts of a stylesheet: its usage, the axes of that usage,
   * and one subset font per used variant, the default variant always among
   * them when the call succeeds.
   */
  method SubsetMaterialSymbols(css: string, options: SubsetOptions, codepoints: Codepoints, corrected: bool,
                               readFile: FileReader, subsetFont: Subsetter)
    returns (r: Result<map<Variant, Bytes>, string>)
    ensures var u := Extract(css, options, codepoints, corrected);
            IsOutcome(u.fonts, u.content, AxesOf(u, corrected), readFile, subsetFont, r)
    ensures r.Success? ==> MergeDefaults(options).font in r.value
  {
    var u := Extract(css, options, codepoints, corrected);
    r := SubsetEach(u.fonts, u.content, AxesOf(u, corrected), readFile, subsetFont);
    assert MergeDefaults(options).font in u.fonts;
  }
}
