/**
 * A stylesheet of the v4 generation read end to end: a used font variant
 * declared by family name and a weight utility, folded into the used-font
 * set, the weight set and the weight range handed to the subsetter.
 */
module Scenarios {
  import opened Wrappers
  import opened Text
  import opened Config
  import opened Scanner
  import opened Completeness
  import opened Usage
  import opened Axes
  import opened Subset

  const Family: string := "Material Symbols Rounded"

  /** `--icon-font-rounded: 'Material Symbols Rounded';` and a line break. */
  const FirstLine: string := V4Lead(Font) + FontVariants[1] + ":" + " '" + Family + "';" + "\n"

  /** `--icon-wght-bold: 700;` and a line break. */
  const SecondLine: string := V4Lead(Wght) + WghtVariants[6] + ":" + " " + "700" + ";\n"

  /** The two declarations, one per line. */
  const RoundedBold: string := FirstLine + SecondLine

  /** Where the weight declaration starts. */
  const WghtStart: nat := |FirstLine|

  /** A literal in the first line stands at the same place in the text. */
  lemma InFirstLine(i: nat, lit: string)
    requires HasPrefixAt(FirstLine, i, lit)
    ensures HasPrefixAt(RoundedBold, i, lit)
  {
    assert RoundedBold[i..i + |lit|] == FirstLine[i..i + |lit|];
  }

  /** A literal in the second line stands after the first line in the text. */
  lemma InSecondLine(i: nat, lit: string)
    requires HasPrefixAt(SecondLine, i, lit)
    ensures HasPrefixAt(RoundedBold, WghtStart + i, lit)
  {
    assert RoundedBold[WghtStart + i..WghtStart + i + |lit|] == SecondLine[i..i + |lit|];
  }

  lemma FontLeadLaidOut()
    ensures HasPrefixAt(RoundedBold, 0, V4Lead(Font)) && HasPrefixAt(RoundedBold, 12, FontVariants[1] + ":")
  {
    assert HasPrefixAt(FirstLine, 0, V4Lead(Font));
    InFirstLine(0, V4Lead(Font));
    assert HasPrefixAt(FirstLine, 12, FontVariants[1] + ":");
    InFirstLine(12, FontVariants[1] + ":");
  }

  lemma FamilyLaidOut()
    ensures QuotedLaidOut(RoundedBold, 20, 21, true, Family)
  {
    assert HasPrefixAt(FirstLine, 22, Family);
    InFirstLine(22, Family);
    FamilyIsValue();
    FamilyQuoted();
  }

  lemma FamilyIsValue()
    ensures IsValueText(Family)
  {
  }

  /** The family name stands between a space and quote on one side and a quote on the other. */
  lemma FamilyQuoted()
    ensures Spaces(RoundedBold, 20, 21) && IsQuote(RoundedBold[21]) && RoundedBold[46] == '\''
  {
    assert RoundedBold[20..21] == [FirstLine[20]];
  }

  /** The rounded family declaration at the start of the text is matched with its family name. */
  lemma RoundedMatched(corrected: bool)
    ensures MatchAt(Font, RoundedBold, 0, corrected) == Some(Match(0, 46, Groups(None, None, None, Some(Family))))
  {
    FontLeadLaidOut();
    FamilyLaidOut();
    FontV4Reads(RoundedBold, 0, 1, 21, true, Family, corrected);
  }

  lemma WghtLeadLaidOut()
    ensures HasPrefixAt(RoundedBold, WghtStart, V4Lead(Wght)) && HasPrefixAt(RoundedBold, WghtStart + 12, WghtVariants[6] + ":")
  {
    assert HasPrefixAt(SecondLine, 0, V4Lead(Wght));
    InSecondLine(0, V4Lead(Wght));
    assert HasPrefixAt(SecondLine, 12, WghtVariants[6] + ":");
    InSecondLine(12, WghtVariants[6] + ":");
  }

  lemma BoldLaidOut()
    ensures IntegerLaidOut(RoundedBold, WghtStart + 17, WghtStart + 18, "700")
  {
    assert HasPrefixAt(SecondLine, 18, "700");
    InSecondLine(18, "700");
    assert RoundedBold[WghtStart + 17..WghtStart + 18] == " ";
  }

  /** The bold weight declaration on the second line is matched with its value. */
  lemma BoldMatched(corrected: bool)
    ensures MatchAt(Wght, RoundedBold, WghtStart, corrected)
              == Some(Match(WghtStart, WghtStart + 21, Groups(None, None, None, Some("700"))))
  {
    WghtLeadLaidOut();
    BoldLaidOut();
    AxisV4Reads(Wght, RoundedBold, WghtStart, 6, WghtStart + 18, "700", corrected);
  }

  /** Every weight match, in either dialect, has the `w` of `--icon-wght` seven places in. */
  lemma WeightLead(s: string, i: nat, corrected: bool)
    requires i <= |s| && MatchAt(Wght, s, i, corrected).Some?
    ensures i + 7 < |s| && s[i + 7] == 'w'
  {
    if MatchV3(Wght, s, i, corrected).Some? {
      V3Start(Wght, s, i, corrected);
      CharOfLiteral(s, i, V3Lead(Wght), 7);
    } else {
      V4Start(Wght, s, i);
      CharOfLiteral(s, i, V4Lead(Wght), 7);
    }
  }

  lemma CharOfLiteral(s: string, i: nat, lit: string, k: nat)
    requires HasPrefixAt(s, i, lit) && k < |lit|
    ensures i + k < |s| && s[i + k] == lit[k]
  {
    assert s[i + k] == s[i..i + |lit|][k];
  }

  lemma FirstLineHasNoW()
    ensures forall k :: 0 <= k < |FirstLine| ==> FirstLine[k] != 'w'
  {
    assert 'w' !in FirstLine;
  }

  /** No `w` stands before the `w` of the second line. */
  lemma NoWAt(k: nat)
    requires k < WghtStart + 7
    ensures RoundedBold[k] != 'w'
  {
    if k < WghtStart {
      FirstLineHasNoW();
      assert RoundedBold[k] == FirstLine[k];
    } else {
      assert RoundedBold[k] == SecondLine[k - WghtStart];
      assert SecondLine[..7] == "--icon-";
      assert SecondLine[k - WghtStart] == SecondLine[..7][k - WghtStart];
    }
  }

  /** No weight declaration starts on the first line: none of its characters, nor the `--icon-` after it, is a `w`. */
  lemma NoWeightBefore(corrected: bool, i: nat)
    requires i < WghtStart
    ensures MatchAt(Wght, RoundedBold, i, corrected).None?
  {
    if MatchAt(Wght, RoundedBold, i, corrected).Some? {
      WeightLead(RoundedBold, i, corrected);
      NoWAt(i + 7);
    }
  }

  /** `Number("700")` */
  lemma SevenHundred()
    ensures IsIntegerLiteral("700") && NumberOf("700") == 700
  {
    assert "700"[..2] == "70" && "70"[..1] == "7" && "7"[..0] == "";
  }

  /**
   * With the built-in options, the rounded family and the bold weight are
   * both used: the used fonts are the default outlined variant and the
   * rounded one, the weight set holds the default 400 and 700, and every
   * subset font keeps the weights from 400 to 700.
   */
  lemma RoundedBoldUsage(codepoints: Codepoints, corrected: bool)
    ensures var u := Extract(RoundedBold, NoOptions, codepoints, corrected);
            && Outlined in u.fonts && Rounded in u.fonts
            && 400 in u.wght && 700 in u.wght
            && var a := AxesOf(u, corrected);
               a.wght.min <= 400 && 700 <= a.wght.max
  {
    var s := RoundedBold;
    RoundedMatched(corrected);
    ScanFindsFirst(Font, s, 0, corrected);
    var font := MatchAt(Font, s, 0, corrected).value;
    var names := FontNames(MergeFontFamily(NoOptions));
    FontNamesInverse(BuiltInFontFamily);
    assert names[Family] == Rounded;

    BoldMatched(corrected);
    forall i | 0 <= i < WghtStart ensures MatchAt(Wght, s, i, corrected).None? {
      NoWeightBefore(corrected, i);
    }
    ScanFindsFirst(Wght, s, WghtStart, corrected);
    var weight := MatchAt(Wght, s, WghtStart, corrected).value;
    SevenHundred();
    assert NumberOf(weight.groups.Value()) == 700;
  }
}
