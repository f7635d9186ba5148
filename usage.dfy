/**
 * What a stylesheet uses: the matches of the six scanners folded into the
 * used-font set, the four axis-value sets, the symbol map and the glyph
 * string (subset.ts, `subsetMaterialSymbols` up to `content`).
 */
module Usage {
  import opened Wrappers
  import opened Text
  import opened Collections
  import opened Config
  import opened Scanner

  /** The generated codepoint table: symbol name to codepoint text. */
  type Codepoints = map<string, string>

  /** Every match captures what the category captures. */
  predicate Captured(c: Category, ms: seq<Match>) {
    forall m :: m in ms ==> WellShaped(c, m.groups)
  }

  /** `fontNames[value4 ?? value3]` for each font match, with `undefined` results dropped. */
  function FontsNamed(ms: seq<Match>, names: map<string, Variant>): (fs: seq<Variant>)
    requires Captured(Font, ms)
    ensures forall v :: v in fs <==> exists m :: m in ms && m.groups.Value() in names && names[m.groups.Value()] == v
  {
    if ms == [] then []
    else
      var rest := FontsNamed(ms[1..], names);
      assert forall m :: m in ms <==> m == ms[0] || m in ms[1..];
      var value := ms[0].groups.Value();
      if value in names then [names[value]] + rest else rest
  }

  /** The fonts are named in match order: the names of a later stretch of matches come after. */
  lemma {:induction false} FontsNamedAppend(a: seq<Match>, b: seq<Match>, names: map<string, Variant>)
    requires Captured(Font, a) && Captured(Font, b)
    ensures FontsNamed(a + b, names) == FontsNamed(a, names) + FontsNamed(b, names)
    decreases |a|
  {
    if a != [] {
      assert (a + b)[1..] == a[1..] + b;
      FontsNamedAppend(a[1..], b, names);
    } else {
      assert a + b == b;
    }
  }

  /** `Number(value4 ?? value3)` for each axis match. */
  function Numbers(c: Category, ms: seq<Match>): (xs: seq<int>)
    requires c.IsAxis() && Captured(c, ms)
    ensures forall x :: x in xs <==> exists m :: m in ms && NumberOf(m.groups.Value()) == x
  {
    if ms == [] then []
    else
      assert forall m :: m in ms <==> m == ms[0] || m in ms[1..];
      [NumberOf(ms[0].groups.Value())] + Numbers(c, ms[1..])
  }

  /** `[key4 ?? key3, value4 ?? value3]` of a symbol match. */
  function Binding(m: Match): (b: (string, string))
    requires WellShaped(Symbol, m.groups)
    ensures m.groups.FromV4() ==> b == (m.groups.key4.value, m.groups.value4.value)
    ensures m.groups.FromV3() ==> b == (m.groups.key3.value, m.groups.value3.value)
  {
    (m.groups.Key().value, m.groups.Value())
  }

  /** The bindings of the symbol matches whose key is in the codepoint table, in match order. */
  function Bindings(ms: seq<Match>, codepoints: Codepoints): (bs: seq<(string, string)>)
    requires Captured(Symbol, ms)
    ensures forall i :: 0 <= i < |bs| ==> bs[i].0 in codepoints
  {
    if ms == [] then []
    else
      var rest := Bindings(ms[..|ms| - 1], codepoints);
      var b := Binding(ms[|ms| - 1]);
      if b.0 in codepoints then rest + [b] else rest
  }

  /** The bindings are exactly those of the matches whose key is known. */
  lemma {:induction false} BindingsMembers(ms: seq<Match>, codepoints: Codepoints)
    requires Captured(Symbol, ms)
    ensures forall b :: b in Bindings(ms, codepoints) <==> b.0 in codepoints && exists m :: m in ms && Binding(m) == b
  {
    if ms != [] {
      var init := ms[..|ms| - 1];
      BindingsMembers(init, codepoints);
      assert forall m :: m in ms <==> m == ms[|ms| - 1] || m in init;
    }
  }

  /** The bindings keep match order: those of a later stretch of matches come after. */
  lemma {:induction false} BindingsAppend(a: seq<Match>, b: seq<Match>, codepoints: Codepoints)
    requires Captured(Symbol, a) && Captured(Symbol, b)
    ensures Bindings(a + b, codepoints) == Bindings(a, codepoints) + Bindings(b, codepoints)
    decreases |b|
  {
    if b != [] {
      assert (a + b)[..|a + b| - 1] == a + b[..|b| - 1];
      BindingsAppend(a, b[..|b| - 1], codepoints);
    } else {
      assert a + b == a;
    }
  }

  /** One more match adds its binding at the end when its key is known. */
  lemma BindingsSnoc(ms: seq<Match>, codepoints: Codepoints)
    requires ms != [] && Captured(Symbol, ms)
    ensures var m := ms[|ms| - 1];
            Bindings(ms, codepoints)
              == Bindings(ms[..|ms| - 1], codepoints) + (if Binding(m).0 in codepoints then [Binding(m)] else [])
  {
  }

  /**
   * The last binding of a key is that of the last symbol match with that
   * key: no later match carries the key.
   */
  lemma {:induction false} BindingsLastMatch(ms: seq<Match>, codepoints: Codepoints, k: string) returns (i: nat)
    requires Captured(Symbol, ms) && k in Keys(Bindings(ms, codepoints))
    ensures i < |ms| && Binding(ms[i]) == (k, LastValue(Bindings(ms, codepoints), k))
    ensures forall j :: i < j < |ms| ==> ms[j].groups.Key() != Some(k)
  {
    var init := ms[..|ms| - 1];
    var last := ms[|ms| - 1];
    BindingsSnoc(ms, codepoints);
    var rest := Bindings(init, codepoints);
    var b := Binding(last);
    if b.0 in codepoints {
      LastValueSnoc(rest, b, k);
    }
    if b.0 == k {
      i := |ms| - 1;
    } else {
      i := BindingsLastMatch(init, codepoints, k);
    }
  }

  /** The usage sets and symbol map of one stylesheet, and the glyph string. */
  datatype Usage = Usage(
    fonts: seq<Variant>,
    opsz: seq<int>,
    wght: seq<int>,
    grad: seq<int>,
    fill: seq<int>,
    symbols: OrderedMap<string, string>,
    content: string)

  /** An axis set: each value once, the default among them, and otherwise the values of the matches. */
  ghost predicate IsAxisSet(xs: seq<int>, c: Category, ms: seq<Match>, default: int)
    requires c.IsAxis() && Captured(c, ms)
  {
    && Distinct(xs)
    && default in xs
    && forall x :: x in xs <==> x == default || exists m :: m in ms && NumberOf(m.groups.Value()) == x
  }

  /** A used-font set: each variant once, the default among them, and otherwise the variants the matches name. */
  ghost predicate IsFontSet(fs: seq<Variant>, ms: seq<Match>, names: map<string, Variant>, default: Variant)
    requires Captured(Font, ms)
  {
    && Distinct(fs)
    && default in fs
    && forall v :: v in fs <==> v == default || exists m :: m in ms && m.groups.Value() in names && names[m.groups.Value()] == v
  }

  /**
   * A symbol map: its keys are exactly the keys of symbol matches found in
   * the codepoint table, and each holds the value of the last match with
   * that key.
   */
  ghost predicate IsSymbolMap(sm: OrderedMap<string, string>, ms: seq<Match>, codepoints: Codepoints)
    requires Captured(Symbol, ms)
  {
    && sm.Valid()
    && (forall k :: k in sm.values <==> k in codepoints && exists m :: m in ms && m.groups.Key() == Some(k))
    && forall k :: k in sm.values ==>
         exists i :: 0 <= i < |ms| && Binding(ms[i]) == (k, sm.values[k])
                     && forall j :: i < j < |ms| ==> ms[j].groups.Key() != Some(k)
  }

  /** An axis set: the default added after the values the scanner found. */
  function AxisSet(c: Category, css: string, default: int, corrected: bool): (xs: seq<int>)
    requires c.IsAxis()
    ensures IsAxisSet(xs, c, Scan(c, css, corrected), default)
  {
    Add(SetOf(Numbers(c, Scan(c, css, corrected))), default)
  }

  /** The used-font set: the default font added after the fonts the scanner named. */
  function FontSet(css: string, names: map<string, Variant>, default: Variant, corrected: bool): (fs: seq<Variant>)
    ensures IsFontSet(fs, Scan(Font, css, corrected), names, default)
    ensures default !in FontsNamed(Scan(Font, css, corrected), names) ==> fs[|fs| - 1] == default
  {
    Add(SetOf(FontsNamed(Scan(Font, css, corrected), names)), default)
  }

  /**
   * The symbol map: one entry per known symbol name, in the order of its
   * first match, holding the codepoint of its last match.
   */
  function SymbolMap(css: string, codepoints: Codepoints, corrected: bool): (sm: OrderedMap<string, string>)
    ensures IsSymbolMap(sm, Scan(Symbol, css, corrected), codepoints)
    ensures sm.keys == SetOf(Keys(Bindings(Scan(Symbol, css, corrected), codepoints)))
  {
    MapOfBindings(Scan(Symbol, css, corrected), codepoints);
    MapOf(Bindings(Scan(Symbol, css, corrected), codepoints))
  }

  lemma MapOfBindings(ms: seq<Match>, codepoints: Codepoints)
    requires Captured(Symbol, ms)
    ensures IsSymbolMap(MapOf(Bindings(ms, codepoints)), ms, codepoints)
  {
    MapOfBindingsKeys(ms, codepoints);
    MapOfBindingsValues(ms, codepoints);
  }

  /** The keys of the map of the bindings are the known keys of the matches. */
  lemma MapOfBindingsKeys(ms: seq<Match>, codepoints: Codepoints)
    requires Captured(Symbol, ms)
    ensures var sm := MapOf(Bindings(ms, codepoints));
            forall k :: k in sm.values <==> k in codepoints && exists m :: m in ms && m.groups.Key() == Some(k)
  {
    var bindings := Bindings(ms, codepoints);
    var ks := Keys(bindings);
    BindingsMembers(ms, codepoints);
    forall k ensures k in ks <==> k in codepoints && exists m :: m in ms && m.groups.Key() == Some(k) {
      if k in ks {
        var i :| 0 <= i < |ks| && ks[i] == k;
        assert bindings[i] in bindings;
      }
      if k in codepoints && exists m :: m in ms && m.groups.Key() == Some(k) {
        var m :| m in ms && m.groups.Key() == Some(k);
        assert Binding(m) in bindings;
        var i :| 0 <= i < |bindings| && bindings[i] == Binding(m);
        assert ks[i] == k;
      }
    }
  }

  /** Each value of the map of the bindings is that of the last match with its key. */
  lemma MapOfBindingsValues(ms: seq<Match>, codepoints: Codepoints)
    requires Captured(Symbol, ms)
    ensures var sm := MapOf(Bindings(ms, codepoints));
            forall k :: k in sm.values ==>
              exists i :: 0 <= i < |ms| && Binding(ms[i]) == (k, sm.values[k])
                          && forall j :: i < j < |ms| ==> ms[j].groups.Key() != Some(k)
  {
    var sm := MapOf(Bindings(ms, codepoints));
    forall k | k in sm.values
      ensures exists i :: 0 <= i < |ms| && Binding(ms[i]) == (k, sm.values[k])
                          && forall j :: i < j < |ms| ==> ms[j].groups.Key() != Some(k)
    {
      var i := BindingsLastMatch(ms, codepoints, k);
    }
  }

  /**
   * The usage of a stylesheet (subset.ts:36-74): the options merged over
   * the built-in ones, each set built from its scanner and seeded with its
   * default, the symbol map filtered to known symbols, and the glyph string
   * its values one after the other in key order.
   */
  function Extract(css: string, options: SubsetOptions, codepoints: Codepoints, corrected: bool): (u: Usage)
    ensures var d := MergeDefaults(options);
            && IsFontSet(u.fonts, Scan(Font, css, corrected), FontNames(MergeFontFamily(options)), d.font)
            && IsAxisSet(u.opsz, Opsz, Scan(Opsz, css, corrected), d.opsz)
            && IsAxisSet(u.wght, Wght, Scan(Wght, css, corrected), d.wght)
            && IsAxisSet(u.grad, Grad, Scan(Grad, css, corrected), d.grad)
            && IsAxisSet(u.fill, Fill, Scan(Fill, css, corrected), d.fill)
    ensures IsSymbolMap(u.symbols, Scan(Symbol, css, corrected), codepoints)
    ensures Concatenates(u.content, ValuesInOrder(u.symbols.keys, u.symbols.values))
  {
    var defaults := MergeDefaults(options);
    var symbols := SymbolMap(css, codepoints, corrected);
    Usage(
      FontSet(css, FontNames(MergeFontFamily(options)), defaults.font, corrected),
      AxisSet(Opsz, css, defaults.opsz, corrected),
      AxisSet(Wght, css, defaults.wght, corrected),
      AxisSet(Grad, css, defaults.grad, corrected),
      AxisSet(Fill, css, defaults.fill, corrected),
      symbols,
      Join(ValuesInOrder(symbols.keys, symbols.values)))
  }

  /** Nothing in an empty stylesheet matches. */
  lemma ScanEmpty(c: Category, corrected: bool)
    ensures Scan(c, "", corrected) == []
  {
  }

  /**
   * An empty stylesheet uses the default font and the default axis values
   * only, and no symbol.
   */
  lemma ExtractEmpty(options: SubsetOptions, codepoints: Codepoints, corrected: bool)
    ensures var d := MergeDefaults(options);
            Extract("", options, codepoints, corrected)
              == Usage([d.font], [d.opsz], [d.wght], [d.grad], [d.fill], OrderedMap([], map[]), "")
  {
    ScanEmpty(Font, corrected);
    ScanEmpty(Opsz, corrected);
    ScanEmpty(Wght, corrected);
    ScanEmpty(Grad, corrected);
    ScanEmpty(Fill, corrected);
    ScanEmpty(Symbol, corrected);
  }

  /**
   * A symbol whose key is not in the codepoint table does not fail the
   * extraction and contributes nothing: it is not a key of the symbol map,
   * and the glyph string is made of the values of known symbols only.
   */
  lemma ContentFromKnownSymbols(css: string, options: SubsetOptions, codepoints: Codepoints, corrected: bool)
    ensures var u := Extract(css, options, codepoints, corrected);
            forall ch :: ch in u.content ==>
              exists k :: k in u.symbols.keys && k in codepoints && ch in u.symbols.values[k]
  {
    var sm := SymbolMap(css, codepoints, corrected);
    JoinedValues(sm);
  }

  /**
   * Every known symbol of the map has its codepoint in the glyph string, at
   * the total length of the codepoints of the symbols before it.
   */
  lemma ContentHoldsEverySymbol(css: string, options: SubsetOptions, codepoints: Codepoints, corrected: bool, i: nat)
    requires i < |Extract(css, options, codepoints, corrected).symbols.keys|
    ensures var u := Extract(css, options, codepoints, corrected);
            var parts := ValuesInOrder(u.symbols.keys, u.symbols.values);
            HasPrefixAt(u.content, TotalLength(parts[..i]), u.symbols.values[u.symbols.keys[i]])
  {
  }

  /** Each character of the joined values of a map comes from the value of one of its keys. */
  lemma JoinedValues(sm: OrderedMap<string, string>)
    requires sm.Valid()
    ensures forall ch :: ch in Join(ValuesInOrder(sm.keys, sm.values)) ==>
              exists k :: k in sm.keys && ch in sm.values[k]
  {
    var parts := ValuesInOrder(sm.keys, sm.values);
    forall ch | ch in Join(parts)
      ensures exists k :: k in sm.keys && ch in sm.values[k]
    {
      var i :| 0 <= i < |parts| && ch in parts[i];
      assert sm.keys[i] in sm.keys;
    }
  }
}
