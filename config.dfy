/**
 * Options of the subsetter: the family name of each font variant and the
 * default variant and axis values, each optionally overridden by the caller
 * (`SubsetOptions` and `DEFAULT_OPTIONS` in subset.ts).
 */
module Config {
  import opened Wrappers

  /** The three font variants; each names a family in CSS and a source font file. */
  datatype Variant = Outlined | Rounded | Sharp {
    /** The variant's key: `"outlined"`, `"rounded"` or `"sharp"`. */
    function Key(): string {
      match this
      case Outlined => "outlined"
      case Rounded => "rounded"
      case Sharp => "sharp"
    }

    /** Position of the variant among the keys of the built-in family table. */
    function Position(): nat {
      match this
      case Outlined => 0
      case Rounded => 1
      case Sharp => 2
    }
  }

  /** The CSS family name of each variant. */
  datatype FontFamily = FontFamily(outlined: string, rounded: string, sharp: string) {
    function Of(v: Variant): string {
      match v
      case Outlined => outlined
      case Rounded => rounded
      case Sharp => sharp
    }
  }

  /** The merged defaults: the variant always subset and each axis's seed value. */
  datatype Defaults = Defaults(font: Variant, opsz: int, wght: int, grad: int, fill: int)

  /** `options.fontFamily`: any of the three names may be given. */
  datatype FontFamilyOptions = FontFamilyOptions(outlined: Option<string>, rounded: Option<string>, sharp: Option<string>) {
    function Of(v: Variant): Option<string> {
      match v
      case Outlined => outlined
      case Rounded => rounded
      case Sharp => sharp
    }
  }

  /** `options.defaults`: any of the five fields may be given. */
  datatype DefaultsOptions = DefaultsOptions(
    font: Option<Variant>, opsz: Option<int>, wght: Option<int>, grad: Option<int>, fill: Option<int>)

  /** `SubsetOptions`; calling without options is calling with `NoOptions`. */
  datatype SubsetOptions = SubsetOptions(fontFamily: Option<FontFamilyOptions>, defaults: Option<DefaultsOptions>)

  const NoOptions: SubsetOptions := SubsetOptions(None, None)

  /** `DEFAULT_OPTIONS.fontFamily` */
  const BuiltInFontFamily: FontFamily :=
    FontFamily("Material Symbols Outlined", "Material Symbols Rounded", "Material Symbols Sharp")

  /** `DEFAULT_OPTIONS.defaults` */
  const BuiltInDefaults: Defaults := Defaults(Outlined, 24, 400, 0, 0)

  /** One key of an object spread `{ ...builtIn, ...given }`. */
  function Override<T>(given: Option<T>, builtIn: T): T {
    match given
    case Some(v) => v
    case None => builtIn
  }

  /** `{ ...DEFAULT_OPTIONS.fontFamily, ...options?.fontFamily }` */
  function MergeFontFamily(options: SubsetOptions): (ff: FontFamily)
    ensures forall v: Variant :: options.fontFamily.Some? && options.fontFamily.value.Of(v).Some?
              ==> ff.Of(v) == options.fontFamily.value.Of(v).value
    ensures forall v: Variant :: (options.fontFamily.None? || options.fontFamily.value.Of(v).None?)
              ==> ff.Of(v) == BuiltInFontFamily.Of(v)
  {
    match options.fontFamily
    case None => BuiltInFontFamily
    case Some(given) =>
      FontFamily(
        Override(given.outlined, BuiltInFontFamily.outlined),
        Override(given.rounded, BuiltInFontFamily.rounded),
        Override(given.sharp, BuiltInFontFamily.sharp))
  }

  /** `{ ...DEFAULT_OPTIONS.defaults, ...options?.defaults }` */
  function MergeDefaults(options: SubsetOptions): (d: Defaults)
    ensures options.defaults.None? ==> d == BuiltInDefaults
    ensures options.defaults.Some? ==>
      var given := options.defaults.value;
      && (given.font.Some? ==> d.font == given.font.value)
      && (given.font.None? ==> d.font == Outlined)
      && (given.opsz.Some? ==> d.opsz == given.opsz.value)
      && (given.opsz.None? ==> d.opsz == 24)
      && (given.wght.Some? ==> d.wght == given.wght.value)
      && (given.wght.None? ==> d.wght == 400)
      && (given.grad.Some? ==> d.grad == given.grad.value)
      && (given.grad.None? ==> d.grad == 0)
      && (given.fill.Some? ==> d.fill == given.fill.value)
      && (given.fill.None? ==> d.fill == 0)
  {
    match options.defaults
    case None => BuiltInDefaults
    case Some(given) =>
      Defaults(
        Override(given.font, BuiltInDefaults.font),
        Override(given.opsz, BuiltInDefaults.opsz),
        Override(given.wght, BuiltInDefaults.wght),
        Override(given.grad, BuiltInDefaults.grad),
        Override(given.fill, BuiltInDefaults.fill))
  }

  /** Every configuration can be reached: giving all its fields as options yields it back. */
  function OptionsFor(ff: FontFamily, d: Defaults): SubsetOptions {
    SubsetOptions(
      Some(FontFamilyOptions(Some(ff.outlined), Some(ff.rounded), Some(ff.sharp))),
      Some(DefaultsOptions(Some(d.font), Some(d.opsz), Some(d.wght), Some(d.grad), Some(d.fill))))
  }

  lemma MergeOptionsFor(ff: FontFamily, d: Defaults)
    ensures MergeFontFamily(OptionsFor(ff, d)) == ff
    ensures MergeDefaults(OptionsFor(ff, d)) == d
  {
  }

  /**
   * `fontNames`, from the entries of the merged family table in key order:
   * every name maps back to a variant carrying it, and when several variants
   * carry the same name the last of them in key order wins.
   */
  function FontNames(ff: FontFamily): (names: map<string, Variant>)
    ensures names.Keys == {ff.outlined, ff.rounded, ff.sharp}
    ensures forall n :: n in names ==> ff.Of(names[n]) == n
    ensures forall n, v: Variant :: n in names && ff.Of(v) == n ==> v.Position() <= names[n].Position()
  {
    map[ff.outlined := Outlined][ff.rounded := Rounded][ff.sharp := Sharp]
  }

  /** When the family names are distinct, `fontNames` is the inverse of the family table. */
  lemma FontNamesInverse(ff: FontFamily)
    requires ff.outlined != ff.rounded && ff.outlined != ff.sharp && ff.rounded != ff.sharp
    ensures forall v: Variant :: FontNames(ff)[ff.Of(v)] == v
  {
    var names := FontNames(ff);
    forall v: Variant ensures names[ff.Of(v)] == v {
      assert ff.Of(names[ff.Of(v)]) == ff.Of(v);
    }
  }
}
