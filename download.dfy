/**
 * The pure part of the asset download script (scripts/download.ts): the base
 * URL of a pinned commit of the icon repository, and the parser of the
 * codepoints file, whose lines are `<name> <codepoint>`.
 */
module Download {
  import opened Wrappers
  import opened Text
  import opened Collections

  const RawBaseUrlPrefix: string := "https://raw.githubusercontent.com/google/material-design-icons/"

  /** `getRawBaseUrl(commit)` */
  function RawBaseUrl(commit: string): (url: string)
    ensures |url| == |RawBaseUrlPrefix| + |commit|
    ensures url[..|RawBaseUrlPrefix|] == RawBaseUrlPrefix
    ensures url[|RawBaseUrlPrefix|..] == commit
  {
    RawBaseUrlPrefix + commit
  }

  /** Different commits have different base URLs. */
  lemma RawBaseUrlInjective(c: string, d: string)
    requires RawBaseUrl(c) == RawBaseUrl(d)
    ensures c == d
  {
  }

  /** `parts.join(sep)` */
  function JoinWith(parts: seq<string>, sep: char): (s: string)
    requires parts != []
  {
    if |parts| == 1 then parts[0] else parts[0] + [sep] + JoinWith(parts[1..], sep)
  }

  /** `s.split(sep)` for a one-character separator. */
  function Split(s: string, sep: char): (parts: seq<string>)
    ensures parts != []
    ensures forall i :: 0 <= i < |parts| ==> sep !in parts[i]
    ensures JoinWith(parts, sep) == s
    decreases |s|
  {
    if sep !in s then [s]
    else
      var i := FirstIndex(s, sep);
      var rest := Split(s[i + 1..], sep);
      assert sep !in s[..i] by {
        forall k | 0 <= k < i ensures s[..i][k] != sep {
          assert s[..i][k] == s[k];
        }
      }
      assert s == s[..i] + [sep] + s[i + 1..];
      [s[..i]] + rest
  }

  /** Splitting a joined sequence of separator-free parts gives the parts back. */
  lemma {:induction false} SplitJoin(parts: seq<string>, sep: char)
    requires parts != [] && forall i :: 0 <= i < |parts| ==> sep !in parts[i]
    ensures Split(JoinWith(parts, sep), sep) == parts
  {
    var s := JoinWith(parts, sep);
    if |parts| > 1 {
      var rest := JoinWith(parts[1..], sep);
      assert s == parts[0] + [sep] + rest;
      assert sep in s by { assert s[|parts[0]|] == sep; }
      assert forall k :: 0 <= k < |parts[0]| ==> s[k] == parts[0][k];
      var i := FirstIndex(s, sep);
      assert i == |parts[0]|;
      assert s[..i] == parts[0];
      assert s[i + 1..] == rest;
      SplitJoin(parts[1..], sep);
    }
  }

  /** One line without its `\r` when the line break was `\r\n`. */
  function DropCR(piece: string): (line: string)
    ensures |piece| > 0 && piece[|piece| - 1] == '\r' ==> piece == line + ['\r']
    ensures !(|piece| > 0 && piece[|piece| - 1] == '\r') ==> line == piece
  {
    if |piece| > 0 && piece[|piece| - 1] == '\r' then piece[..|piece| - 1] else piece
  }

  /**
   * `text.split(/\r?\n/)`: the text cut at each `\n`, a `\r` just before it
   * going with the break; the piece after the last break keeps its `\r`.
   */
  function SplitLines(text: string): (lines: seq<string>)
    ensures var pieces := Split(text, '\n');
            && |lines| == |pieces|
            && (forall i :: 0 <= i < |lines| ==> '\n' !in lines[i])
            && (forall i :: 0 <= i < |lines| - 1 ==>
                  var p := pieces[i];
                  && (|p| > 0 && p[|p| - 1] == '\r' ==> p == lines[i] + ['\r'])
                  && (!(|p| > 0 && p[|p| - 1] == '\r') ==> lines[i] == p))
            && lines[|lines| - 1] == pieces[|pieces| - 1]
  {
    var pieces := Split(text, '\n');
    seq(|pieces|, i requires 0 <= i < |pieces| => if i < |pieces| - 1 then DropCR(pieces[i]) else pieces[i])
  }

  /** `.filter((line) => line)`: the empty lines dropped. */
  function NonEmpty(lines: seq<string>): (kept: seq<string>)
    ensures forall l :: l in kept <==> l in lines && l != []
  {
    if lines == [] then []
    else
      var rest := NonEmpty(lines[1..]);
      assert forall l :: l in lines <==> l == lines[0] || l in lines[1..];
      if lines[0] != [] then [lines[0]] + rest else rest
  }

  /** The filter keeps the order of the lines: those of a later stretch of text come after. */
  lemma {:induction false} NonEmptyAppend(a: seq<string>, b: seq<string>)
    ensures NonEmpty(a + b) == NonEmpty(a) + NonEmpty(b)
    decreases |a|
  {
    if a != [] {
      assert (a + b)[1..] == a[1..] + b;
      NonEmptyAppend(a[1..], b);
    } else {
      assert a + b == b;
    }
  }

  /** The lines of the codepoints file that are parsed: non-empty, without a line break. */
  function Lines(text: string): (lines: seq<string>)
    ensures forall l :: l in lines ==> l != [] && '\n' !in l
  {
    NonEmpty(SplitLines(text))
  }

  /** The two errors the parser throws, each with the offending line. */
  datatype ParseError =
    | WrongPartCount(line: string)   // "Invalid codepoints line"
    | InvalidEntry(line: string)     // "Invalid codepoint line"

  /** `/^\w+$/i`: a symbol name. */
  predicate IsName(name: string) {
    |name| > 0 && forall k :: 0 <= k < |name| ==> IsWordChar(name[k])
  }

  /** `/^[0-9a-f]{4}$/i`: a codepoint. */
  predicate IsCodepoint(cp: string) {
    |cp| == 4 && forall k :: 0 <= k < 4 ==> IsHexDigit(cp[k])
  }

  /** The line that records `name` at `codepoint`. */
  function Entry(name: string, codepoint: string): string {
    name + " " + codepoint
  }

  /** The name part of a line: everything before its first space. */
  function NameOf(line: string): string {
    Split(line, ' ')[0]
  }

  /** One non-empty line: exactly two space-separated parts, a name and a codepoint. */
  function ParseLine(line: string): (r: Result<(string, string), ParseError>)
    ensures r.Success? ==> line == Entry(r.value.0, r.value.1) && IsName(r.value.0) && IsCodepoint(r.value.1)
    ensures r.Success? ==> r.value.0 == NameOf(line)
    ensures r.Failure? ==> r.error.line == line
    ensures r.Failure? ==> (r.error.WrongPartCount? <==> |Split(line, ' ')| != 2)
  {
    var parts := Split(line, ' ');
    if |parts| != 2 then Failure(WrongPartCount(line))
    else if !IsName(parts[0]) || !IsCodepoint(parts[1]) then Failure(InvalidEntry(line))
    else
      assert line == parts[0] + [' '] + parts[1];
      Success((parts[0], parts[1]))
  }

  /** A well-formed entry line is parsed back into its name and codepoint. */
  lemma ParseEntry(name: string, codepoint: string)
    requires IsName(name) && IsCodepoint(codepoint)
    ensures ParseLine(Entry(name, codepoint)) == Success((name, codepoint))
  {
    assert ' ' !in name by {
      forall k | 0 <= k < |name| ensures name[k] != ' ' {
        assert IsWordChar(name[k]);
      }
    }
    assert ' ' !in codepoint by {
      forall k | 0 <= k < |codepoint| ensures codepoint[k] != ' ' {
        assert IsHexDigit(codepoint[k]);
      }
    }
    assert JoinWith([name, codepoint], ' ') == Entry(name, codepoint);
    SplitJoin([name, codepoint], ' ');
  }

  /**
   * A line with no space, or with more than one (a double space, or a space
   * after the codepoint), gets the part-count error.
   */
  lemma ParseLineNeedsOneSpace(line: string)
    requires |Split(line, ' ')| != 2
    ensures ParseLine(line) == Failure(WrongPartCount(line))
  {
  }

  /** A name followed by a lone space splits into the name and an empty codepoint, which is not a codepoint. */
  lemma ParseLineLoneSpace(name: string)
    requires IsName(name)
    ensures ParseLine(name + " ") == Failure(InvalidEntry(name + " "))
  {
    assert ' ' !in name by {
      forall k | 0 <= k < |name| ensures name[k] != ' ' {
        assert IsWordChar(name[k]);
      }
    }
    assert JoinWith([name, ""], ' ') == name + " ";
    SplitJoin([name, ""], ' ');
  }

  /**
   * `xs.map(parse)` where `parse` throws: the items parsed in order, the
   * first failure failing the whole map.
   */
  function ParseEach<T, E>(xs: seq<string>, parse: string -> Result<T, E>): (r: Result<seq<T>, E>)
    ensures r.Success? <==> forall i :: 0 <= i < |xs| ==> parse(xs[i]).Success?
    ensures r.Success? ==> |r.value| == |xs| && forall i :: 0 <= i < |xs| ==> parse(xs[i]) == Success(r.value[i])
    ensures r.Failure? ==>
              exists i :: 0 <= i < |xs| && parse(xs[i]) == Failure(r.error)
                          && forall k :: 0 <= k < i ==> parse(xs[k]).Success?
  {
    if xs == [] then Success([])
    else
      match parse(xs[0])
      case Failure(e) => Failure(e)
      case Success(x) =>
        match ParseEach(xs[1..], parse)
        case Failure(e) =>
          FirstFailureShift(xs, parse, e);
          Failure(e)
        case Success(rest) =>
          assert forall i :: 0 < i < |xs| ==> xs[i] == xs[1..][i - 1];
          Success([x] + rest)
  }

  /** A first failing item of `xs[1..]` is the first failing one of `xs` when `xs[0]` parses. */
  lemma FirstFailureShift<T, E>(xs: seq<string>, parse: string -> Result<T, E>, e: E)
    requires xs != [] && parse(xs[0]).Success?
    requires exists i :: 0 <= i < |xs[1..]| && parse(xs[1..][i]) == Failure(e)
                         && forall k :: 0 <= k < i ==> parse(xs[1..][k]).Success?
    ensures exists i :: 0 <= i < |xs| && parse(xs[i]) == Failure(e)
                        && forall k :: 0 <= k < i ==> parse(xs[k]).Success?
  {
    var i :| 0 <= i < |xs[1..]| && parse(xs[1..][i]) == Failure(e)
             && forall k :: 0 <= k < i ==> parse(xs[1..][k]).Success?;
    assert parse(xs[i + 1]) == Failure(e);
    forall k | 0 < k < i + 1 ensures parse(xs[k]).Success? {
      assert xs[k] == xs[1..][k - 1];
    }
  }

  /** The lines parsed in order; the first line that fails fails the whole parse. */
  function ParseAll(lines: seq<string>): (r: Result<seq<(string, string)>, ParseError>)
    ensures r.Success? <==> forall i :: 0 <= i < |lines| ==> ParseLine(lines[i]).Success?
    ensures r.Success? ==> |r.value| == |lines| && forall i :: 0 <= i < |lines| ==> ParseLine(lines[i]) == Success(r.value[i])
    ensures r.Failure? ==>
              exists i :: 0 <= i < |lines| && ParseLine(lines[i]) == Failure(r.error)
                          && forall k :: 0 <= k < i ==> ParseLine(lines[k]).Success?
  {
    ParseEach(lines, ParseLine)
  }

  /**
   * The parsing pipeline of `fetchCodepoints` over the downloaded text:
   * every non-empty line parsed, then `Object.fromEntries`, where a name
   * seen twice takes the codepoint of its last line.
   */
  function ParseCodepoints(text: string): (r: Result<map<string, string>, ParseError>)
    ensures r.Success? <==> forall l :: l in Lines(text) ==> ParseLine(l).Success?
    ensures r.Failure? ==> r.error.line in Lines(text)
    ensures r.Failure? ==>
              exists i :: 0 <= i < |Lines(text)| && ParseLine(Lines(text)[i]) == Failure(r.error)
                          && forall k :: 0 <= k < i ==> ParseLine(Lines(text)[k]).Success?
    ensures r.Success? ==> forall k :: k in r.value ==> IsName(k) && IsCodepoint(r.value[k]) && Entry(k, r.value[k]) in Lines(text)
  {
    var lines := Lines(text);
    match ParseAll(lines)
    case Failure(e) => Failure(e)
    case Success(entries) =>
      var table := MapOf(entries);
      forall k | k in table.values
        ensures IsName(k) && IsCodepoint(table.values[k]) && Entry(k, table.values[k]) in lines
      {
        var i :| 0 <= i < |entries| && entries[i] == (k, table.values[k]);
        assert ParseLine(lines[i]) == Success(entries[i]);
      }
      Success(table.values)
  }

  /**
   * Every parsed line's name is in the table, and a line that no later line
   * renames gives its name its codepoint.
   */
  lemma ParseCodepointsLastWins(text: string, i: nat, name: string, codepoint: string)
    requires ParseCodepoints(text).Success?
    requires i < |Lines(text)| && ParseLine(Lines(text)[i]) == Success((name, codepoint))
    ensures name in ParseCodepoints(text).value
    ensures (forall j :: i < j < |Lines(text)| ==> NameOf(Lines(text)[j]) != name) ==>
              ParseCodepoints(text).value[name] == codepoint
  {
    var lines := Lines(text);
    var entries := ParseAll(lines).value;
    var table := MapOf(entries);
    assert ParseCodepoints(text) == Success(table.values);
    assert entries[i] == (name, codepoint);
    assert Keys(entries)[i] == name;
    if forall j :: i < j < |lines| ==> NameOf(lines[j]) != name {
      forall j | i < j < |entries| ensures entries[j].0 != name {
        assert ParseLine(lines[j]) == Success(entries[j]);
      }
      LastValueAt(entries, i);
    }
  }

  /** One line per entry. */
  function EntryLines(table: seq<(string, string)>): (lines: seq<string>)
    ensures |lines| == |table| && forall i :: 0 <= i < |table| ==> lines[i] == Entry(table[i].0, table[i].1)
  {
    seq(|table|, i requires 0 <= i < |table| => Entry(table[i].0, table[i].1))
  }

  /** The codepoints file as the icon repository lays it out: one entry per line. */
  function Format(table: seq<(string, string)>): string
    requires table != []
  {
    JoinWith(EntryLines(table), '\n')
  }

  /** An entry line holds no line break and does not end in `\r`. */
  lemma EntryIsOneLine(name: string, codepoint: string)
    requires IsName(name) && IsCodepoint(codepoint)
    ensures var line := Entry(name, codepoint);
            '\n' !in line && line != [] && line[|line| - 1] != '\r'
  {
    var line := Entry(name, codepoint);
    forall k | 0 <= k < |line| ensures line[k] != '\n' {
      if k < |name| {
        assert line[k] == name[k] && IsWordChar(name[k]);
      } else if k > |name| {
        assert line[k] == codepoint[k - |name| - 1] && IsHexDigit(codepoint[k - |name| - 1]);
      }
    }
    assert line[|line| - 1] == codepoint[3];
  }

  /** Lines without breaks or a trailing `\r`, joined by `\n`, split back into themselves. */
  lemma SplitLinesJoin(lines: seq<string>)
    requires lines != []
    requires forall i :: 0 <= i < |lines| ==> '\n' !in lines[i] && (lines[i] == [] || lines[i][|lines[i]| - 1] != '\r')
    ensures SplitLines(JoinWith(lines, '\n')) == lines
  {
    SplitJoin(lines, '\n');
    var r := SplitLines(JoinWith(lines, '\n'));
    assert |r| == |lines|;
    forall i | 0 <= i < |lines| ensures r[i] == lines[i] {
    }
  }

  /** The lines of a file of well-formed entries are its entry lines. */
  lemma LinesOfFormat(table: seq<(string, string)>)
    requires table != []
    requires forall i :: 0 <= i < |table| ==> IsName(table[i].0) && IsCodepoint(table[i].1)
    ensures Lines(Format(table)) == EntryLines(table)
  {
    var lines := EntryLines(table);
    forall i | 0 <= i < |lines|
      ensures '\n' !in lines[i] && lines[i] != [] && lines[i][|lines[i]| - 1] != '\r'
    {
      EntryIsOneLine(table[i].0, table[i].1);
    }
    SplitLinesJoin(lines);
    NonEmptyKeepsAll(lines);
  }

  /** Well-formed entry lines parse into their entries. */
  lemma ParseEntryLines(table: seq<(string, string)>)
    requires forall i :: 0 <= i < |table| ==> IsName(table[i].0) && IsCodepoint(table[i].1)
    ensures ParseAll(EntryLines(table)) == Success(table)
  {
    var lines := EntryLines(table);
    forall i | 0 <= i < |lines| ensures ParseLine(lines[i]) == Success(table[i]) {
      ParseEntry(table[i].0, table[i].1);
    }
    assert ParseAll(lines).value == table;
  }

  /** A file of well-formed entries parses back to its entries, the last one of a name winning. */
  lemma ParseFormat(table: seq<(string, string)>)
    requires table != []
    requires forall i :: 0 <= i < |table| ==> IsName(table[i].0) && IsCodepoint(table[i].1)
    ensures ParseCodepoints(Format(table)) == Success(MapOf(table).values)
  {
    LinesOfFormat(table);
    ParseEntryLines(table);
  }

  lemma {:induction false} NonEmptyKeepsAll(lines: seq<string>)
    requires forall i :: 0 <= i < |lines| ==> lines[i] != []
    ensures NonEmpty(lines) == lines
  {
    if lines != [] {
      NonEmptyKeepsAll(lines[1..]);
    }
  }

  /** The same file with `\r\n` line breaks and a final line break, as a Windows checkout has it. */
  function FormatCRLF(table: seq<(string, string)>): string {
    JoinWith(seq(|table|, i requires 0 <= i < |table| => Entry(table[i].0, table[i].1) + "\r") + [""], '\n')
  }

  /** `\r\n` breaks and a final break change nothing: the parsed lines are the entry lines. */
  lemma LinesOfFormatCRLF(table: seq<(string, string)>)
    requires forall i :: 0 <= i < |table| ==> IsName(table[i].0) && IsCodepoint(table[i].1)
    ensures Lines(FormatCRLF(table)) == EntryLines(table)
  {
    var pieces := seq(|table|, i requires 0 <= i < |table| => Entry(table[i].0, table[i].1) + "\r") + [""];
    forall i | 0 <= i < |table| ensures '\n' !in pieces[i] && DropCR(pieces[i]) == EntryLines(table)[i] {
      EntryIsOneLine(table[i].0, table[i].1);
      assert pieces[i] == Entry(table[i].0, table[i].1) + ['\r'];
    }
    SplitJoin(pieces, '\n');
    var split := SplitLines(FormatCRLF(table));
    assert split == EntryLines(table) + [""];
    forall i | 0 <= i < |table| ensures EntryLines(table)[i] != [] {
      EntryIsOneLine(table[i].0, table[i].1);
    }
    NonEmptyDropsLastEmpty(EntryLines(table));
  }

  lemma {:induction false} NonEmptyDropsLastEmpty(lines: seq<string>)
    requires forall i :: 0 <= i < |lines| ==> lines[i] != []
    ensures NonEmpty(lines + [""]) == lines
  {
    if lines == [] {
      assert NonEmpty([""]) == NonEmpty([]);
    } else {
      assert (lines + [""])[1..] == lines[1..] + [""];
      NonEmptyDropsLastEmpty(lines[1..]);
    }
  }
}
