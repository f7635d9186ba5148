# tailwindcss-material-symbols: usage extraction, axis resolution and codepoints parsing in Dafny

This project models the core of `tailwindcss-material-symbols`. That package
builds subset Material Symbols web fonts from compiled Tailwind CSS, and it
has two parts.

**`subsetMaterialSymbols`** (`packages/tailwindcss-material-symbols/src/subset.ts`)
- The caller's options are merged over the built-in family names and defaults.
- A reverse map from family name to font variant is built.
- Six global patterns scan the stylesheet: font, opsz, wght, grad, fill and
  symbol. Each pattern joins two fragments:
  - the Tailwind v3 plugin's output: `.icon-rounded { … font-family: … }`,
    `--icon-wght: 700` and `.icon-symbol-home { … --icon-symbol: "…" }`;
  - the Tailwind v4 theme's suffixed custom properties:
    `--icon-wght-bold: 700` and `--icon-symbol-home: "…"`.
- The matches are folded into four kinds of result:
  - a used-font set;
  - four axis-value sets, each seeded with its default;
  - a symbol map restricted to the generated codepoint table;
  - the glyph string joined from that map.
- The variation axes are resolved. Weight and optical size are always a
  range. Fill and grade are a range only when more than one value is used.
- One subset font is requested per used variant, in set order.

**Codepoints parsing** (`scripts/download.ts`)
- `getRawBaseUrl` builds the raw base URL of the icon repository.
- The parser of the downloaded codepoints file:
  - splits the text on `\r?\n` and drops empty lines;
  - splits each line on one space;
  - checks the name (`\w+`) and the codepoint (four hex digits);
  - builds the table, where the last line of a name wins.

How the model is built:
- **Regular expressions** are written out as matchers over `seq<char>`, with
  the engine's behaviour made explicit:
  - a greedy `\s*` gives characters back to the value after it;
  - a greedy `[^}]+` gives characters back to an earlier `;`;
  - `(?<!\w|-)` checks the character before the match;
  - `matchAll` resumes at the end of each match and otherwise moves on one
    character.
- **JavaScript collections**:
  - a `Set` is a duplicate-free sequence in insertion order;
  - a `Map` is an `OrderedMap`, which keeps the key order of first insertion
    and the value of the last insertion.
- **The output loop** is a method with a `for` loop over the used variants.
- **Reading the source font and the subsetter** are function parameters that
  may fail. The first failure, in variant order, is the result.
- **Two behaviours of `subset.ts` look unintended** (see "## Findings"). The
  pipeline takes a flag `corrected` for them:
  - `corrected == false` is the program as written: the v3 value part
    `\s*(?!var\()…` and the fill/grade setting `size > 1 ? … : 0`;
  - `corrected == true` is the evident intent: `var(` is rejected after any
    whitespace, and a sole fill or grade value is kept.

  The flag runs from `Scanner.V3Value` through `Scanner.Scan`,
  `Usage.Extract`, `Axes.Setting`, `Axes.AxesFor` and `Subset.AxesOf` up to
  `Subset.SubsetMaterialSymbols`. Every contract on that path is stated for
  both values of the flag.
- **Completeness of the scanner.** The fragment functions state the shape
  of any match they report. The `Completeness` module proves the other
  direction: a declaration laid out as the theme or the plugin writes it is
  matched, with the value written in it. The `Scenarios` module follows one
  stylesheet through the whole pipeline.

Modules, one file each:

| module | file | models |
|---|---|---|
| `Wrappers` | `wrappers.dfy` | `Option` and `Result` |
| `Text` | `text.dfy` | the regex character classes and `Number` of `-?\d+` |
| `Collections` | `collections.dfy` | `Set`, `Map` and `join` |
| `Config` | `config.dfy` | options, defaults and the reverse font map |
| `Scanner` | `scanner.dfy` | the twelve pattern fragments and global matching |
| `Completeness` | `completeness.dfy` | which declarations the fragments match, and with which values |
| `Usage` | `usage.dfy` | the usage sets, the symbol map and the glyph string |
| `Axes` | `axes.dfy` | axis resolution |
| `Subset` | `subset.dfy` | per-variant requests and the output loop |
| `Scenarios` | `scenarios.dfy` | a v4 stylesheet read end to end |
| `Download` | `download.dfy` | `getRawBaseUrl` and the codepoints parser |

## Model

Paths in the source column are relative to the repository root.

| member | source | states |
|---|---|---|
| Text.NumberOfNumeral | packages/tailwindcss-material-symbols/src/subset.ts:49 | `Number` of a theme value's numeral is that value: parsing the canonical numeral of any integer gives the integer back |
| Collections.Add | packages/tailwindcss-material-symbols/src/subset.ts:61-65 | `Set.add`: the members are the old ones plus the new value, no value twice, existing members keep their place |
| Collections.SetOf | packages/tailwindcss-material-symbols/src/subset.ts:42-59 | `new Set(items)` holds exactly the items, each once |
| Collections.SetOfOrder | packages/tailwindcss-material-symbols/src/subset.ts:42-59 | a set iterates in order of first insertion: of two members the one first seen in the items comes first |
| Collections.Put | packages/tailwindcss-material-symbols/src/subset.ts:67-72 | `Map.set` binds the key to the new value, appends the key only if new, and leaves every other binding alone |
| Collections.LastValue | packages/tailwindcss-material-symbols/src/subset.ts:67-72 | the value bound to a key after all entries is that of an entry with this key that no later entry repeats |
| Collections.LastValueAt | packages/tailwindcss-material-symbols/src/subset.ts:67-72 | an entry that no later entry overrides supplies its key's final value |
| Collections.LastValueSnoc | packages/tailwindcss-material-symbols/src/subset.ts:67-72 | one more entry overrides its own key and leaves the final value of every other key as it was |
| Collections.MapOf | packages/tailwindcss-material-symbols/src/subset.ts:67-72 | `new Map(entries)`: keys in order of first occurrence, each with the value of its last entry |
| Collections.ValuesInOrder | packages/tailwindcss-material-symbols/src/subset.ts:74 | `Array.from(map.values())` lists the value of each key, in key order |
| Collections.Join | packages/tailwindcss-material-symbols/src/subset.ts:74 | `join("")` is the parts one after the other: its length is the total length and each part stands at the sum of the lengths before it; every character comes from a part |
| Collections.JoinAppend | packages/tailwindcss-material-symbols/src/subset.ts:74 | joining two lists of parts one after the other is joining each and concatenating |
| Collections.ConcatenatesUnique | packages/tailwindcss-material-symbols/src/subset.ts:74 | only one string lays out a given list of parts one after the other |
| Config.MergeFontFamily | packages/tailwindcss-material-symbols/src/subset.ts:36 | each family name given in the options wins; each one not given is the built-in "Material Symbols …" name |
| Config.MergeDefaults | packages/tailwindcss-material-symbols/src/subset.ts:37 | each default given wins; each one not given is outlined / 24 / 400 / 0 / 0 |
| Config.MergeOptionsFor | packages/tailwindcss-material-symbols/src/subset.ts:6-37 | every family table and default set is reachable: passing all its fields yields it back |
| Config.FontNames | packages/tailwindcss-material-symbols/src/subset.ts:38-40 | the reverse map's keys are the three family names, each maps to a variant carrying that name, and the last such variant in key order wins |
| Config.FontNamesInverse | packages/tailwindcss-material-symbols/src/subset.ts:38-40 | with distinct family names the reverse map inverts the family table |
| Scanner.Groups.Value | packages/tailwindcss-material-symbols/src/subset.ts:45 | `value4 ?? value3`: the v4 value when the v4 fragment matched, the v3 value when the v3 one did |
| Scanner.Groups.Key | packages/tailwindcss-material-symbols/src/subset.ts:70 | `key4 ?? key3`: the v4 key when there is one, otherwise the v3 key |
| Scanner.SignedDigitsAt | packages/tailwindcss-material-symbols/src/subset.ts:116-119 | `-?\d+` matches exactly when a digit, or a minus and a digit, stand there; the capture starts there and reads the whole digit run |
| Scanner.IntegerAt | packages/tailwindcss-material-symbols/src/subset.ts:116-119 | `\s*(-?\d+)` fails exactly when no digit, or minus and digit, follow the whitespace run; the capture starts right after that run and reads the whole digit run |
| Scanner.QuotedAt | packages/tailwindcss-material-symbols/src/subset.ts:122 | `['"]?[^'";}]+` fails exactly at the end or before a character that neither is a value character nor is a quote followed by one; the capture starts after the quote if there is one, else at the position |
| Scanner.TryQuoted | packages/tailwindcss-material-symbols/src/subset.ts:115 | the `(?!var\()` lookahead changes nothing where `var(` does not stand, and fails the try where it does |
| Scanner.GiveBackFails | packages/tailwindcss-material-symbols/src/subset.ts:115 | a greedy run giving characters back fails exactly when the rest of the pattern fails at every position it gives back to |
| Scanner.GiveBackLast | packages/tailwindcss-material-symbols/src/subset.ts:115 | a greedy run giving characters back reads what the rest of the pattern reads at the longest run for which it succeeds |
| Scanner.BacktrackQuoted | packages/tailwindcss-material-symbols/src/subset.ts:115-122 | the value part after `\s*` giving characters back reads a maximal run of value characters after the whitespace start |
| Scanner.BacktrackQuotedFails | packages/tailwindcss-material-symbols/src/subset.ts:115-122 | the value part after `\s*` fails only when the value fails after every length of whitespace |
| Scanner.BacktrackQuotedLast | packages/tailwindcss-material-symbols/src/subset.ts:115-122 | the value part after `\s*` reads the value after the longest whitespace for which the value succeeds |
| Scanner.QuotedValue | packages/tailwindcss-material-symbols/src/subset.ts:122 | the v4 value part `\s*['"]?([^'";}]+)` reads a maximal run of value characters after the position |
| Scanner.QuotedValueReads | packages/tailwindcss-material-symbols/src/subset.ts:122 | the v4 value part reads the (optionally quoted) value after the whitespace; where none stands, the last whitespace character alone; with no whitespace, nothing |
| Scanner.GuardIdle | packages/tailwindcss-material-symbols/src/subset.ts:115 | where no backtracking position starts with `var(` the guarded and unguarded value parts agree |
| Scanner.GuardedValueAsWritten | packages/tailwindcss-material-symbols/src/subset.ts:115 | the v3 value part as written reads a maximal run of value characters after the position |
| Scanner.GuardedValueAsWrittenReads | packages/tailwindcss-material-symbols/src/subset.ts:115 | the v3 value part as written reads what the v4 value part reads unless `var(` follows the whitespace; then it reads the last whitespace character, `var(` and the rest of the run, or nothing when there is no whitespace |
| Scanner.GuardedValue | packages/tailwindcss-material-symbols/src/subset.ts:115 | the corrected v3 value part reads nothing exactly when `var(` follows the whitespace, and otherwise reads what the v4 value part reads |
| Scanner.VarGuardBypassed | packages/tailwindcss-material-symbols/src/subset.ts:115 | the value part as written differs from the corrected one exactly when whitespace precedes `var(`, and then captures the whitespace and `var(` |
| Scanner.SpaceThenVar | packages/tailwindcss-material-symbols/src/subset.ts:115 | trying the value one whitespace character before `var(` passes the lookahead and captures that whitespace and `var(` |
| Scanner.V3Value | packages/tailwindcss-material-symbols/src/subset.ts:115-120 | the v3 value part is the program's when not corrected and the corrected one otherwise; both read what the v4 value part reads unless `var(` follows the whitespace, where the corrected one reads nothing |
| Scanner.DeclarationAt | packages/tailwindcss-material-symbols/src/subset.ts:115 | a declaration is the property standing at the position followed by the v3 value part, and nothing where the property does not stand |
| Scanner.LaterDeclarationFails | packages/tailwindcss-material-symbols/src/subset.ts:115 | the `[^}]+;\s*` alternative reads nothing exactly when no `;` inside the block is followed by a readable declaration of the property |
| Scanner.LaterDeclarationLast | packages/tailwindcss-material-symbols/src/subset.ts:115 | the `[^}]+;\s*` alternative reads the declaration after the last `;` of the block that has one |
| Scanner.LaterDeclarationRead | packages/tailwindcss-material-symbols/src/subset.ts:115 | what the `[^}]+;\s*` alternative reads is the value part after a declaration of the property |
| Scanner.RuleBlock | packages/tailwindcss-material-symbols/src/subset.ts:115 | a value read from a rule block is a maximal run of value characters after the block start |
| Scanner.RuleBlockDeclared | packages/tailwindcss-material-symbols/src/subset.ts:115 | a rule block reads a value exactly when it declares the property with a readable value, first or after a `;` before its `}` |
| Scanner.RuleBlockRead | packages/tailwindcss-material-symbols/src/subset.ts:115 | a value read from a rule block is the value part after a declaration of the property in it |
| Scanner.RuleBody | packages/tailwindcss-material-symbols/src/subset.ts:115 | a value read by `[^{]*\{` and its block is a maximal run of value characters after the position |
| Scanner.RuleBodyDeclared | packages/tailwindcss-material-symbols/src/subset.ts:115 | `[^{]*\{` and its block read a value exactly when a `{` follows and the block it opens declares the property |
| Scanner.RuleBodyDeclaration | packages/tailwindcss-material-symbols/src/subset.ts:115 | a rule body match names the declaration it read; with the correction, its value does not start with `var(` after whitespace |
| Scanner.StandingAlternative | packages/tailwindcss-material-symbols/src/subset.ts:115 | the chosen alternative stands at the position, followed by the separator, and if none is chosen none stands |
| Scanner.AfterAlternative | packages/tailwindcss-material-symbols/src/subset.ts:122-126 | after an alternative group the match continues within the text |
| Scanner.StandingIsUnique | packages/tailwindcss-material-symbols/src/subset.ts:115 | in a prefix-free list the alternative that stands is the one chosen, so backtracking into later alternatives cannot find another |
| Scanner.HeadsDiffer | packages/tailwindcss-material-symbols/src/subset.ts:101-113 | entries that pairwise differ at some shared index form a prefix-free list |
| Scanner.AlternativesExclusive | packages/tailwindcss-material-symbols/src/subset.ts:101-113 | the variant lists (outlined/rounded/sharp and every axis suffix list followed by `:`) are prefix-free |
| Scanner.FontV3 | packages/tailwindcss-material-symbols/src/subset.ts:115 | a v3 font match is non-empty, starts where it is tried and sets only `value3`, a non-empty run of value characters |
| Scanner.SymbolV3 | packages/tailwindcss-material-symbols/src/subset.ts:120 | a v3 symbol match sets `key3` and `value3` only, with a value of value characters |
| Scanner.AxisV3 | packages/tailwindcss-material-symbols/src/subset.ts:116-119 | a v3 axis match sets only `value3`, an integer literal |
| Scanner.MatchV3 | packages/tailwindcss-material-symbols/src/subset.ts:115-120 | every v3 fragment reports a well-shaped match with v3 groups |
| Scanner.SymbolV4 | packages/tailwindcss-material-symbols/src/subset.ts:127 | a v4 symbol match sets `key4` and `value4` only |
| Scanner.SuffixedV4 | packages/tailwindcss-material-symbols/src/subset.ts:122-126 | a v4 font or axis match sets only `value4`, a value text or an integer literal |
| Scanner.MatchV4 | packages/tailwindcss-material-symbols/src/subset.ts:122-127 | every v4 fragment reports a well-shaped match with v4 groups |
| Scanner.MatchAt | packages/tailwindcss-material-symbols/src/subset.ts:129-134 | the alternation reports a non-empty match at the position, shaped as its category captures |
| Scanner.MatchAllFrom | packages/tailwindcss-material-symbols/src/subset.ts:44 | `matchAll` reports non-empty matches inside the text, in order and without overlap |
| Scanner.MatchAllFromSound | packages/tailwindcss-material-symbols/src/subset.ts:44 | every reported match is what the pattern matches at its start |
| Scanner.MatchAllFromComplete | packages/tailwindcss-material-symbols/src/subset.ts:44 | every match at a position that no reported match straddles is reported |
| Scanner.MatcherOf | packages/tailwindcss-material-symbols/src/subset.ts:129-134 | a category's global pattern, tried at each position, is the alternation there, and its matches move forward |
| Scanner.Scan | packages/tailwindcss-material-symbols/src/subset.ts:44-69 | `css.matchAll(<CATEGORY>_REGEX)` yields ordered, non-overlapping, non-empty matches whose groups have the category's shape |
| Scanner.ScanSound | packages/tailwindcss-material-symbols/src/subset.ts:44-69 | every scanned match is the pattern's match at its start |
| Scanner.ScanFindsFirst | packages/tailwindcss-material-symbols/src/subset.ts:44 | the first position where the pattern matches gives a match that the scan reports |
| Scanner.PrefixesClash | packages/tailwindcss-material-symbols/src/subset.ts:115-127 | two literals differing at a shared index cannot both stand at one position |
| Scanner.V3Start | packages/tailwindcss-material-symbols/src/subset.ts:115-120 | a v3 match starts with `.` or `:`, or with the axis property `--icon-<axis>:` |
| Scanner.V4Start | packages/tailwindcss-material-symbols/src/subset.ts:122-127 | a v4 match starts with `--icon-<name>-` |
| Scanner.V3NotAtV4Lead | packages/tailwindcss-material-symbols/src/subset.ts:115-120 | no v3 fragment matches where `--icon-<name>-` stands |
| Scanner.DialectsExclusive | packages/tailwindcss-material-symbols/src/subset.ts:129-134 | the v3 and v4 fragments of a category never both match at one position |
| Scanner.ScanSeesBothDialects | packages/tailwindcss-material-symbols/src/subset.ts:129-134 | a v3 match and a v4 match that no earlier match covers are both in one scan, so mixed stylesheets yield both |
| Scanner.LookbehindRejects | packages/tailwindcss-material-symbols/src/subset.ts:116-127 | `--icon-…` right after a word character or `-` is not matched |
| Scanner.SuffixedPropertyIsV4 | packages/tailwindcss-material-symbols/src/subset.ts:116-126 | a suffixed `--icon-<name>-…` declaration is read only by the v4 fragment and only with a listed suffix |
| Scanner.SuffixedV4Reads | packages/tailwindcss-material-symbols/src/subset.ts:122-126 | conversely, `--icon-<name>-<listed suffix>:` not after a word character or `-` is matched by the v4 fragment with the value part that follows the colon |
| Scanner.V3FontGuarded | packages/tailwindcss-material-symbols/src/subset.ts:115 | a v3 font match read the value part after a `font-family:` declaration following the selector; with the correction, never a value that starts with `var(` after whitespace |
| Scanner.V3SymbolGuarded | packages/tailwindcss-material-symbols/src/subset.ts:120 | a v3 symbol match read the value part after an `--icon-symbol:` declaration following the selector; with the correction, never a value that starts with `var(` after whitespace |
| Scanner.V3RejectsVar | packages/tailwindcss-material-symbols/src/subset.ts:115-120 | every v3 font or symbol match comes from a declaration of its property; with the correction, never from one whose value starts with `var(` |
| Completeness.IntegerReads | packages/tailwindcss-material-symbols/src/subset.ts:116-119 | whitespace then an integer literal not followed by a digit is read as exactly that literal |
| Completeness.NumeralReads | packages/tailwindcss-material-symbols/src/subset.ts:49-59 | whitespace then the numeral of n is read, and `Number` of what is read is n |
| Completeness.QuotedReads | packages/tailwindcss-material-symbols/src/subset.ts:122 | whitespace then an optionally quoted value text is read by the v4 value part as exactly that text |
| Completeness.V3ValueReads | packages/tailwindcss-material-symbols/src/subset.ts:115-120 | the same for the v3 value part, as written and corrected, when the value is quoted or does not start with `var(` |
| Completeness.RuleBodyFirst | packages/tailwindcss-material-symbols/src/subset.ts:115 | a rule whose block opens with a readable declaration of the property reads that declaration |
| Completeness.FirstDeclarationReads | packages/tailwindcss-material-symbols/src/subset.ts:115 | a rule whose block opens with the property and a value text reads that value text |
| Completeness.AxisV3Reads | packages/tailwindcss-material-symbols/src/subset.ts:116-119 | `--icon-<axis>:` and an integer, not after a word character or `-`, is matched with that integer as `value3` |
| Completeness.AxisV4Reads | packages/tailwindcss-material-symbols/src/subset.ts:123-126 | `--icon-<axis>-<listed suffix>:` and an integer is matched with that integer as `value4` |
| Completeness.FontV4Reads | packages/tailwindcss-material-symbols/src/subset.ts:122 | `--icon-font-<variant>:` and an optionally quoted family name is matched with that name as `value4` |
| Completeness.SymbolV4Reads | packages/tailwindcss-material-symbols/src/subset.ts:127 | `--icon-symbol-<key>:` and an optionally quoted glyph is matched with that key as `key4` and that glyph as `value4` |
| Completeness.FontV3Reads | packages/tailwindcss-material-symbols/src/subset.ts:115 | `.icon-<variant>` and a rule whose block opens with `font-family:` and a family name is matched with that name as `value3` |
| Completeness.SymbolV3Reads | packages/tailwindcss-material-symbols/src/subset.ts:120 | `.icon-symbol-<key>` and a rule whose block opens with `--icon-symbol:` and a glyph is matched with that key as `key3` and that glyph as `value3` |
| Usage.FontsNamed | packages/tailwindcss-material-symbols/src/subset.ts:42-47 | the variants named by font matches are exactly those whose captured family name is in the reverse map; other names are dropped |
| Usage.FontsNamedAppend | packages/tailwindcss-material-symbols/src/subset.ts:42-47 | the names of later matches come after those of earlier ones: the map and filter keep match order |
| Usage.Numbers | packages/tailwindcss-material-symbols/src/subset.ts:48-59 | the axis values are exactly `Number` of each match's value |
| Usage.Binding | packages/tailwindcss-material-symbols/src/subset.ts:70 | a symbol match gives the `[key, value]` pair of the fragment that matched |
| Usage.Bindings | packages/tailwindcss-material-symbols/src/subset.ts:67-72 | every kept binding has its key in the codepoint table |
| Usage.BindingsMembers | packages/tailwindcss-material-symbols/src/subset.ts:67-72 | the kept bindings are exactly the symbol matches' pairs whose key is in the codepoint table |
| Usage.BindingsAppend | packages/tailwindcss-material-symbols/src/subset.ts:67-72 | the bindings of later matches come after those of earlier ones: the map and filter keep match order |
| Usage.BindingsLastMatch | packages/tailwindcss-material-symbols/src/subset.ts:67-72 | a kept key's last binding comes from a match that no later match with the key follows |
| Usage.MapOfBindings | packages/tailwindcss-material-symbols/src/subset.ts:67-72 | the map of the kept bindings is a symbol map of the matches |
| Usage.MapOfBindingsKeys | packages/tailwindcss-material-symbols/src/subset.ts:67-72 | the map's keys are exactly the known keys of the symbol matches |
| Usage.MapOfBindingsValues | packages/tailwindcss-material-symbols/src/subset.ts:67-72 | each key's value is that of the last match with that key |
| Usage.FontSet | packages/tailwindcss-material-symbols/src/subset.ts:42-61 | the used-font set holds the default font and exactly the variants the font matches name, each once; the default comes last unless a match names it |
| Usage.AxisSet | packages/tailwindcss-material-symbols/src/subset.ts:48-65 | an axis set is the default together with the value of every match of that axis, each once |
| Usage.SymbolMap | packages/tailwindcss-material-symbols/src/subset.ts:67-72 | the symbol map holds the known symbols only, in order of first match, each with its last match's value |
| Usage.Extract | packages/tailwindcss-material-symbols/src/subset.ts:36-74 | the used fonts and each axis set hold the merged default and what the scanned matches name, each once; the symbol map holds exactly the known keys with their last values; the content is the map's values one after the other in key order |
| Usage.ScanEmpty | packages/tailwindcss-material-symbols/src/subset.ts:44-69 | an empty stylesheet has no matches |
| Usage.ExtractEmpty | packages/tailwindcss-material-symbols/src/subset.ts:36-74 | an empty stylesheet uses only the default font and axis values, no symbol, and an empty glyph string |
| Usage.ContentFromKnownSymbols | packages/tailwindcss-material-symbols/src/subset.ts:67-74 | every glyph of the content comes from the value of a symbol that is in the codepoint table |
| Usage.ContentHoldsEverySymbol | packages/tailwindcss-material-symbols/src/subset.ts:74 | the value of the i-th symbol stands in the content right after the values of the symbols before it |
| Usage.JoinedValues | packages/tailwindcss-material-symbols/src/subset.ts:74 | every character of the joined map values comes from one key's value |
| Axes.Min | packages/tailwindcss-material-symbols/src/subset.ts:88-91 | `Math.min` of a non-empty set is a member no greater than any member |
| Axes.Max | packages/tailwindcss-material-symbols/src/subset.ts:88-91 | `Math.max` of a non-empty set is a member no smaller than any member |
| Axes.Span | packages/tailwindcss-material-symbols/src/subset.ts:88-89 | `{min, max}` has both ends in the set and every member between them |
| Axes.SpanOfOne | packages/tailwindcss-material-symbols/src/subset.ts:88-89 | a one-value set spans the degenerate range at that value |
| Axes.ToggleAsWritten | packages/tailwindcss-material-symbols/src/subset.ts:90-91 | fill and grade as written: a range exactly when more than one value is used, else pinned at 0 |
| Axes.Toggle | packages/tailwindcss-material-symbols/src/subset.ts:90-91 | fill and grade as intended: a range exactly when more than one value is used, else pinned at the sole value; every used value stays covered |
| Axes.ToggleRangesIffVaries | packages/tailwindcss-material-symbols/src/subset.ts:90-91 | on a set, the axis is a range exactly when two different values are used |
| Axes.AsWrittenKeepsOnlyZero | packages/tailwindcss-material-symbols/src/subset.ts:90-91 | with one value, the axis as written covers it exactly when it is 0; with more, as-written and intended agree |
| Axes.AsWrittenDropsFillOne | packages/tailwindcss-material-symbols/src/subset.ts:90 | a sole fill value of 1 is not covered as written and is covered as intended |
| Axes.Setting | packages/tailwindcss-material-symbols/src/subset.ts:90-91 | a range exactly when more than one value is used, and then the range is Span of the used values (`{Math.min, Math.max}`); pinned at 0 as written, at the sole value when corrected; a used value is covered exactly when corrected, or more than one value is used, or it is 0 |
| Axes.AxesFor | packages/tailwindcss-material-symbols/src/subset.ts:87-92 | the weight and optical-size ranges are Span of their used values (ends used, every used value covered); fill and grade are Setting of their used values, so a range exactly when more than one value is used and otherwise pinned at 0 as written or at the sole value when corrected; a used fill or grade value is covered exactly when corrected, or more than one value is used, or it is 0 |
| Subset.FontFile | packages/tailwindcss-material-symbols/src/subset.ts:81-83 | a variant's file is `material-symbols-` + its key + `.woff2` |
| Subset.FontFileInjective | packages/tailwindcss-material-symbols/src/subset.ts:81-83 | different variants read different files |
| Subset.AxesOf | packages/tailwindcss-material-symbols/src/subset.ts:87-92 | the axes of a usage: weight and optical size are Span of the used values; fill and grade are Setting of the used values, so the subsetter receives the span when more than one value is used and otherwise the constant 0 as written or the sole value when corrected; a used fill or grade value is kept exactly when corrected, or more than one is used, or it is 0 |
| Subset.AxesKeepDefaults | packages/tailwindcss-material-symbols/src/subset.ts:62-92 | the weight and optical-size ranges contain their defaults; the fill and grade defaults are covered exactly when corrected, or more than one value is used, or the default is 0 |
| Subset.AxesOfEmptyStylesheet | packages/tailwindcss-material-symbols/src/subset.ts:61-92 | with no usage, weight and optical size collapse to their defaults, and fill and grade are pinned at 0 as written or at their defaults when corrected |
| Subset.FontOutput | packages/tailwindcss-material-symbols/src/subset.ts:81-93 | a variant's output is the failure of reading its file, or the subsetter's result for that file, the content and the axes with target format `woff2` |
| Subset.SubsetEach | packages/tailwindcss-material-symbols/src/subset.ts:76-98 | the loop succeeds exactly when every variant does, returns one output per variant and nothing else, and otherwise fails with the first failing variant's error |
| Subset.SubsetMaterialSymbols | packages/tailwindcss-material-symbols/src/subset.ts:32-99 | the outputs are those of the loop over the used fonts with the usage's content and axes, as written or corrected, and the default variant is always among them on success |
| Scenarios.RoundedMatched | packages/tailwindcss-material-symbols/src/subset.ts:122 | `--icon-font-rounded: 'Material Symbols Rounded';` is matched with the family name as `value4` |
| Scenarios.BoldMatched | packages/tailwindcss-material-symbols/src/subset.ts:124 | `--icon-wght-bold: 700;` is matched with `700` as `value4` |
| Scenarios.NoWeightBefore | packages/tailwindcss-material-symbols/src/subset.ts:131 | no weight match starts on the line before the weight declaration |
| Scenarios.RoundedBoldUsage | packages/tailwindcss-material-symbols/src/subset.ts:36-92 | with the built-in options, a stylesheet declaring the rounded family and the bold weight uses the outlined and rounded fonts and the weights 400 and 700, and the weight range sent to the subsetter covers 400 to 700 |
| Download.RawBaseUrl | scripts/download.ts:25-27 | the base URL is the fixed repository prefix followed by the commit |
| Download.RawBaseUrlInjective | scripts/download.ts:25-27 | different commits give different base URLs |
| Download.Split | scripts/download.ts:81 | `split(sep)` gives separator-free parts that join back to the string |
| Download.SplitJoin | scripts/download.ts:81 | splitting joined separator-free parts gives the parts back |
| Download.DropCR | scripts/download.ts:78 | a trailing `\r` is removed, and a line without one is kept as it is |
| Download.SplitLines | scripts/download.ts:78 | `split(/\r?\n/)` gives one line per `\n`-separated piece; every line but the last is its piece with the `\r` before the break removed, and the last is its piece as it is |
| Download.SplitLinesJoin | scripts/download.ts:78 | lines without breaks, joined by `\n`, split back into themselves |
| Download.NonEmpty | scripts/download.ts:79 | the filter keeps exactly the non-empty lines |
| Download.NonEmptyAppend | scripts/download.ts:79 | the filter keeps the order of the lines: the kept lines of a later stretch come after those of an earlier one |
| Download.NonEmptyDropsLastEmpty | scripts/download.ts:79 | the empty piece after a final line break is dropped and nothing else |
| Download.Lines | scripts/download.ts:77-79 | every line that is parsed is non-empty and holds no line break |
| Download.ParseLine | scripts/download.ts:80-86 | a line is accepted only as `<name> <codepoint>` with a `\w+` name and four hex digits; it is a part-count error exactly when it does not split into two parts on a space |
| Download.ParseEntry | scripts/download.ts:80-86 | every well-formed entry line is accepted with its name and codepoint |
| Download.ParseLineNeedsOneSpace | scripts/download.ts:81-82 | a line that does not split into exactly two parts (no space, or two or more spaces) is rejected with the part-count error |
| Download.ParseLineLoneSpace | scripts/download.ts:81-85 | a name followed by one trailing space splits into two parts, the second empty, and is rejected as an invalid entry |
| Download.ParseEach | scripts/download.ts:80-87 | mapping a throwing parser succeeds exactly when every item parses, and otherwise fails with the first failure |
| Download.ParseAll | scripts/download.ts:80-87 | the lines parse in order, all or nothing, failing on the first bad line |
| Download.ParseCodepoints | scripts/download.ts:75-88 | the file parses exactly when every non-empty line does; a failure carries the error of the first line that does not parse, every earlier line parsing; every entry of the table is a valid name and codepoint read from one line |
| Download.ParseCodepointsLastWins | scripts/download.ts:76-88 | every parsed name is in the table, and a line no later line renames supplies its codepoint |
| Download.EntryIsOneLine | scripts/download.ts:84 | an entry line holds no line break and does not end in `\r` |
| Download.LinesOfFormat | scripts/download.ts:77-79 | the lines of a file of entries are its entry lines |
| Download.ParseEntryLines | scripts/download.ts:80-87 | well-formed entry lines parse into their entries |
| Download.ParseFormat | scripts/download.ts:75-88 | a file of well-formed entries parses back into the map of its entries |
| Download.LinesOfFormatCRLF | scripts/download.ts:77-79 | `\r\n` breaks and a final break give the same lines as `\n` breaks |

## Left out

- GuardedValueAsWritten, QuotedValue, BacktrackQuoted, RuleBlock, RuleBody: the function's own contract states the shape of what is read. What is read, case by case, is stated by Scanner.GuardedValueAsWrittenReads, Scanner.QuotedValueReads, Scanner.BacktrackQuotedLast, Scanner.RuleBlockDeclared / Scanner.RuleBlockRead and Scanner.RuleBodyDeclared / Scanner.RuleBodyDeclaration.
- FontV3, SymbolV3, AxisV3, SymbolV4, SuffixedV4: the function's own contract states the shape of a match. That a declaration laid out as the plugin or the theme writes it is matched, with the value written in it, is stated by Completeness.FontV3Reads, Completeness.SymbolV3Reads, Completeness.AxisV3Reads, Completeness.SymbolV4Reads, Completeness.FontV4Reads and Completeness.AxisV4Reads.
- SuffixedPropertyIsV4: states one direction only (a match of a suffixed property is a v4 match with a listed suffix). The converse is Scanner.SuffixedV4Reads.
- Completeness lemmas cover the layouts the plugin and the theme emit: a rule whose declaration of the property comes first in its block, and values that are quoted or do not start with `var(`. Declarations after a `;` in the block are covered by Scanner.RuleBlockDeclared and Scanner.LaterDeclarationLast rather than by a lemma over a concrete layout.
- RoundedBoldUsage: shows that the weight range covers 400 to 700, not that its ends are exactly 400 and 700.
- FontsNamed: `fontNames[value]` (subset.ts:45) looks the captured family name up on a plain object. A name such as `constructor` or `__proto__` finds an inherited member, which passes the `!= null` filter and reaches `readFile` as a font. The model looks names up in a map of the three family names only, so it does not model these inherited keys.
- `if (!font) continue` (subset.ts:79) is not modelled. Every used font in the model is one of the three variants. In the source the test could fire only for a default font set to `undefined` or an empty string, which the option type rules out.
- MergeDefaults: the axis defaults are integers. JavaScript numbers that are fractional, infinite or NaN are not modelled.
- `Number` is modelled as an unbounded integer. Numerals beyond 2^53 that the source rounds, and `-0`, are not modelled.
- `v[0] in codepoints` (subset.ts:71) also accepts inherited object keys such as `constructor`. The codepoint table is a plain map, so the model does not accept them.
- The generated codepoints module is not part of this model. It appears as a parameter of type `map<string, string>`.
- Reading the bundled font (subset.ts:81-83) is a parameter, and so is the external `subset-font` package (subset.ts:85-93). URL and path resolution are left out; only the file name is modelled.
- The seeding `usedX.add(default)` (subset.ts:61-65) changes each set in place. The model applies the value-level `Collections.Add` to the scanned set instead. Each set is local and never shared, so no aliasing is lost.
- `await` is modelled as in-order calls. Nothing else is asynchronous in the loop.
- Partial `fontFamily` objects are accepted by the model. The TypeScript type demands all three names, and the model covers that case too.
- A field that is explicitly set to `undefined` is left out. In the spread it would override the built-in value with `undefined`; the model treats it as absent.
- The object key order of `Object.fromEntries` is left out. Download.ParseCodepoints returns an unordered map.
- Strings are sequences of Unicode characters. UTF-16 surrogate halves, which a JavaScript regular expression without the `u` flag sees one at a time, are not modelled.
- The `import.meta.main` drivers (subset.ts:136-140, download.ts:91-110) are console and process I/O.
- From `scripts/download.ts`, `validateCurrentVersion`, `downloadMaterialSymbols`, SHA-256 hashing and the `fetch` in `fetchCodepoints` are left out. They are file-system and network I/O.
- `index.ts`, `vite.ts` and `cli.ts` are callers of the core and are not part of this model.
- Scanner.AfterAlternative takes the alternative that stands at the position instead of backtracking through later alternatives. Scanner.AlternativesExclusive and Scanner.StandingIsUnique prove that at most one alternative can stand, so this loses nothing.

## Findings

| source | as written | input that shows it | evidently intended | confidence | as-written member | corrected member |
|---|---|---|---|---|---|---|
| packages/tailwindcss-material-symbols/src/subset.ts:90-91 | when the fill (or grade) set has one value, the axis is pinned at the literal `0` | `defaults: { fill: 1 }` and no fill utility in the CSS: the set is `{1}`, the subset font keeps fill 0 only, and every icon renders unfilled | pin the axis at the one value used, so the default is kept | high (not executed) | Axes.ToggleAsWritten, Axes.AsWrittenDropsFillOne | Axes.Toggle, Axes.AsWrittenKeepsOnlyZero |
| packages/tailwindcss-material-symbols/src/subset.ts:115-120 | `\s*(?!var\()` checks the lookahead after each amount of whitespace, so `\s*` gives back one character and the lookahead passes before the whitespace | `.icon-symbol-home { --icon-symbol: var(--icon-symbol-home); }` captures ` var(--icon-symbol-home)` as the symbol's value; `font-family:  var(--x)` is read as a family name | reject any declaration whose value, after whitespace, starts with `var(` | high (not executed) | Scanner.GuardedValueAsWritten, Scanner.VarGuardBypassed | Scanner.GuardedValue, Scanner.V3Value |

Both halves of each row run through the whole pipeline, selected by the flag `corrected`. Axes.AsWrittenKeepsOnlyZero shows that the two fill/grade definitions differ only when the sole value is not 0. Scanner.VarGuardBypassed shows that the two v3 value parts differ only when whitespace precedes `var(`.
