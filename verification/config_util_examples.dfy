/**
 The behaviour the configuration utility's test suite asserts, each case
 proved as a lemma about the model.

 A text with extra whitespace is reduced to its canonical form one step at a
 time: each step appends some whitespace and a space-free run to a prefix
 whose whitespace-free form is already known (`StripStep`). The equalities
 between the concrete texts that a step needs are stated in small lemmas of
 their own, so that the solver only ever compares a text with a short
 extension of another.
 */
module ConfigUtilExamples {
  import opened Wrappers
  import opened Seqs
  import opened Text
  import opened IpList
  import opened Csv
  import opened Replicas

  // ---- parseIPlist ----

  /** Extending a prefix by whitespace `w` and a space-free `run` extends its whitespace-free form by `run`. */
  lemma StripStep(xp: string, yp: string, w: string, run: string, x: string, y: string)
    requires StripSpace(xp) == yp && AllSpace(w) && NoSpace(run)
    requires x == xp + w + run && y == yp + run
    ensures StripSpace(x) == y
  {
    StripSpaceIgnoresInsertedSpace(xp, w, run);
    StripSpaceConcat(xp, run);
    StripSpaceNoSpace(run);
  }

  /** Whitespace `w` between two space-free runs is all that stripping removes. */
  lemma StripSpaceAround(u: string, w: string, v: string, x: string, y: string)
    requires NoSpace(u) && AllSpace(w) && NoSpace(v)
    requires x == u + w + v && y == u + v
    ensures StripSpace(x) == y
  {
    StripSpaceIgnoresInsertedSpace(u, w, v);
    NoSpaceConcat(u, v);
    StripSpaceNoSpace(u + v);
  }

  /** The two ranges most tests expect, in source order. */
  function TwoRanges(): seq<IpRange>
  {
    [IpRange("1.2.3.4", "1.2.3.8"), IpRange("7.6.5.4", "7.6.9.9")]
  }

  /** The entry texts of the two expected ranges. */
  lemma RangeTexts()
    ensures RangeText(IpRange("1.2.3.4", "1.2.3.8")) == "[1.2.3.4,1.2.3.8]"
    ensures RangeText(IpRange("7.6.5.4", "7.6.9.9")) == "[7.6.5.4,7.6.9.9]"
  {
  }

  /** How the canonical text of the two ranges is assembled from its entries. */
  lemma TwoRangesPieces()
    ensures "[" + "[1.2.3.4,1.2.3.8]" == "[[1.2.3.4,1.2.3.8]"
    ensures "[[1.2.3.4,1.2.3.8]" + "," == "[[1.2.3.4,1.2.3.8],"
    ensures "[[1.2.3.4,1.2.3.8]," + "[7.6.5.4,7.6.9.9]" == "[[1.2.3.4,1.2.3.8],[7.6.5.4,7.6.9.9]"
    ensures "[[1.2.3.4,1.2.3.8],[7.6.5.4,7.6.9.9]" + "]" == "[[1.2.3.4,1.2.3.8],[7.6.5.4,7.6.9.9]]"
  {
  }

  /** The canonical text of the two expected ranges. */
  lemma TwoRangesText()
    ensures AllValid(TwoRanges())
    ensures ListText(TwoRanges()) == "[[1.2.3.4,1.2.3.8],[7.6.5.4,7.6.9.9]]"
  {
    var rs := TwoRanges();
    assert rs[1..] == [rs[1]];
    var r0, r1 := RangeText(rs[0]), RangeText(rs[1]);
    assert EntriesText(rs) == r0 + "," + r1;
    Assoc("[", r0 + ",", r1);
    Assoc("[", r0, ",");
    RangeTexts();
    TwoRangesPieces();
  }

  /** A text whose whitespace-free form is the canonical text of the two ranges parses into them. */
  lemma ParsesToTwoRanges(text: string)
    requires StripSpace(text) == "[[1.2.3.4,1.2.3.8],[7.6.5.4,7.6.9.9]]"
    ensures Parse(text) == Success(TwoRanges())
  {
    TwoRangesText();
    ParseIff(text, TwoRanges());
  }

  /** The entry text of the default range. */
  lemma DefaultListText()
    ensures RangeText(IpRange("0.0.0.0", "255.255.255.255")) == "[0.0.0.0,255.255.255.255]"
  {
  }

  /** How the list text of the default range is assembled. */
  lemma DefaultListPieces()
    ensures "[" + "[0.0.0.0," == "[[0.0.0.0,"
    ensures "[[0.0.0.0," + "255.255.255.255]" == "[[0.0.0.0,255.255.255.255]"
    ensures "[[0.0.0.0,255.255.255.255]" + "]" == "[[0.0.0.0,255.255.255.255]]"
    ensures "[0.0.0.0," + "255.255.255.255]" == "[0.0.0.0,255.255.255.255]"
  {
  }

  lemma ParseDefaultList()
    ensures Parse("[[0.0.0.0,255.255.255.255]]") == Success([IpRange("0.0.0.0", "255.255.255.255")])
  {
    var rs := [IpRange("0.0.0.0", "255.255.255.255")];
    DefaultListText();
    DefaultListPieces();
    Assoc("[", "[0.0.0.0,", "255.255.255.255]");
    assert ListText(rs) == "[[0.0.0.0,255.255.255.255]]";
    ParseListOf(rs);
  }

  /** How the texts of the opening-bracket case are assembled: the first entry. */
  lemma OpeningTexts1()
    ensures NoSpace("[") && NoSpace("[1.2.3.4,") && NoSpace("1.2.3.8],")
    ensures "[" + " " + "[1.2.3.4," == "[ [1.2.3.4," && "[" + "[1.2.3.4," == "[[1.2.3.4,"
    ensures "[ [1.2.3.4," + "" + "1.2.3.8]," == "[ [1.2.3.4,1.2.3.8],"
    ensures "[[1.2.3.4," + "1.2.3.8]," == "[[1.2.3.4,1.2.3.8],"
  {
  }

  /** How the texts of the opening-bracket case are assembled: the second entry. */
  lemma OpeningTexts2()
    ensures NoSpace("[7.6.5.4,") && NoSpace("7.6.9.9]]")
    ensures "[ [1.2.3.4,1.2.3.8]," + "" + "[7.6.5.4," == "[ [1.2.3.4,1.2.3.8],[7.6.5.4,"
    ensures "[[1.2.3.4,1.2.3.8]," + "[7.6.5.4," == "[[1.2.3.4,1.2.3.8],[7.6.5.4,"
    ensures "[ [1.2.3.4,1.2.3.8],[7.6.5.4," + "" + "7.6.9.9]]" == "[ [1.2.3.4,1.2.3.8],[7.6.5.4,7.6.9.9]]"
    ensures "[[1.2.3.4,1.2.3.8],[7.6.5.4," + "7.6.9.9]]" == "[[1.2.3.4,1.2.3.8],[7.6.5.4,7.6.9.9]]"
  {
  }

  lemma OpeningStripped()
    ensures StripSpace("[ [1.2.3.4,1.2.3.8],[7.6.5.4,7.6.9.9]]") == "[[1.2.3.4,1.2.3.8],[7.6.5.4,7.6.9.9]]"
  {
    OpeningTexts1();
    OpeningTexts2();
    StripSpaceNoSpace("[");
    StripStep("[", "[", " ", "[1.2.3.4,", "[ [1.2.3.4,", "[[1.2.3.4,");
    StripStep("[ [1.2.3.4,", "[[1.2.3.4,", "", "1.2.3.8],", "[ [1.2.3.4,1.2.3.8],", "[[1.2.3.4,1.2.3.8],");
    StripStep("[ [1.2.3.4,1.2.3.8],", "[[1.2.3.4,1.2.3.8],", "", "[7.6.5.4,",
      "[ [1.2.3.4,1.2.3.8],[7.6.5.4,", "[[1.2.3.4,1.2.3.8],[7.6.5.4,");
    StripStep("[ [1.2.3.4,1.2.3.8],[7.6.5.4,", "[[1.2.3.4,1.2.3.8],[7.6.5.4,", "", "7.6.9.9]]",
      "[ [1.2.3.4,1.2.3.8],[7.6.5.4,7.6.9.9]]", "[[1.2.3.4,1.2.3.8],[7.6.5.4,7.6.9.9]]");
  }

  lemma ParseSpaceAroundOpeningBracket()
    ensures Parse("[ [1.2.3.4,1.2.3.8],[7.6.5.4,7.6.9.9]]") == Success(TwoRanges())
  {
    OpeningStripped();
    ParsesToTwoRanges("[ [1.2.3.4,1.2.3.8],[7.6.5.4,7.6.9.9]]");
  }

  /** How the texts of the closing-bracket case are assembled, step by step. */
  lemma ClosingTexts()
    ensures NoSpace("[[1.2.3.4,1.2.3.8],[7.6.5.4,7.6.9.9")
    ensures NoSpace("]")
    ensures "[[1.2.3.4,1.2.3.8],[7.6.5.4,7.6.9.9" + " " + "]" == "[[1.2.3.4,1.2.3.8],[7.6.5.4,7.6.9.9 ]"
    ensures "[[1.2.3.4,1.2.3.8],[7.6.5.4,7.6.9.9" + "]" == "[[1.2.3.4,1.2.3.8],[7.6.5.4,7.6.9.9]"
    ensures "[[1.2.3.4,1.2.3.8],[7.6.5.4,7.6.9.9 ]" + " " + "]" == "[[1.2.3.4,1.2.3.8],[7.6.5.4,7.6.9.9 ] ]"
    ensures "[[1.2.3.4,1.2.3.8],[7.6.5.4,7.6.9.9]" + "]" == "[[1.2.3.4,1.2.3.8],[7.6.5.4,7.6.9.9]]"
  {
  }

  lemma ClosingInner()
    ensures StripSpace("[[1.2.3.4,1.2.3.8],[7.6.5.4,7.6.9.9 ]") == "[[1.2.3.4,1.2.3.8],[7.6.5.4,7.6.9.9]"
  {
    ClosingTexts();
    StripSpaceAround("[[1.2.3.4,1.2.3.8],[7.6.5.4,7.6.9.9", " ", "]",
      "[[1.2.3.4,1.2.3.8],[7.6.5.4,7.6.9.9 ]", "[[1.2.3.4,1.2.3.8],[7.6.5.4,7.6.9.9]");
  }

  lemma ClosingStripped()
    ensures StripSpace("[[1.2.3.4,1.2.3.8],[7.6.5.4,7.6.9.9 ] ]") == "[[1.2.3.4,1.2.3.8],[7.6.5.4,7.6.9.9]]"
  {
    ClosingInner();
    ClosingTexts();
    StripStep("[[1.2.3.4,1.2.3.8],[7.6.5.4,7.6.9.9 ]", "[[1.2.3.4,1.2.3.8],[7.6.5.4,7.6.9.9]", " ", "]",
      "[[1.2.3.4,1.2.3.8],[7.6.5.4,7.6.9.9 ] ]", "[[1.2.3.4,1.2.3.8],[7.6.5.4,7.6.9.9]]");
  }

  lemma ParseSpaceAroundClosingBracket()
    ensures Parse("[[1.2.3.4,1.2.3.8],[7.6.5.4,7.6.9.9 ] ]") == Success(TwoRanges())
  {
    ClosingStripped();
    ParsesToTwoRanges("[[1.2.3.4,1.2.3.8],[7.6.5.4,7.6.9.9 ] ]");
  }

  /** How the texts of the space-around-comma case are assembled: up to the second entry. */
  lemma CommaTexts1()
    ensures NoSpace("[[1.2.3.4,") && NoSpace("1.2.3.8],") && NoSpace("[7.6.5.4,")
    ensures "[[1.2.3.4," + " " + "1.2.3.8]," == "[[1.2.3.4, 1.2.3.8],"
    ensures "[[1.2.3.4," + "1.2.3.8]," == "[[1.2.3.4,1.2.3.8],"
    ensures "[[1.2.3.4, 1.2.3.8]," + " " + "[7.6.5.4," == "[[1.2.3.4, 1.2.3.8], [7.6.5.4,"
    ensures "[[1.2.3.4,1.2.3.8]," + "[7.6.5.4," == "[[1.2.3.4,1.2.3.8],[7.6.5.4,"
  {
  }

  /** How the texts of the space-around-comma case are assembled: the last run. */
  lemma CommaTexts2()
    ensures NoSpace("7.6.9.9]]")
    ensures "[[1.2.3.4, 1.2.3.8], [7.6.5.4," + "" + "7.6.9.9]]" == "[[1.2.3.4, 1.2.3.8], [7.6.5.4,7.6.9.9]]"
    ensures "[[1.2.3.4,1.2.3.8],[7.6.5.4," + "7.6.9.9]]" == "[[1.2.3.4,1.2.3.8],[7.6.5.4,7.6.9.9]]"
  {
  }

  lemma CommaInner()
    ensures StripSpace("[[1.2.3.4, 1.2.3.8],") == "[[1.2.3.4,1.2.3.8],"
  {
    CommaTexts1();
    StripSpaceAround("[[1.2.3.4,", " ", "1.2.3.8],", "[[1.2.3.4, 1.2.3.8],", "[[1.2.3.4,1.2.3.8],");
  }

  lemma CommaStripped()
    ensures StripSpace("[[1.2.3.4, 1.2.3.8], [7.6.5.4,7.6.9.9]]") == "[[1.2.3.4,1.2.3.8],[7.6.5.4,7.6.9.9]]"
  {
    CommaInner();
    CommaTexts1();
    CommaTexts2();
    StripStep("[[1.2.3.4, 1.2.3.8],", "[[1.2.3.4,1.2.3.8],", " ", "[7.6.5.4,",
      "[[1.2.3.4, 1.2.3.8], [7.6.5.4,", "[[1.2.3.4,1.2.3.8],[7.6.5.4,");
    StripStep("[[1.2.3.4, 1.2.3.8], [7.6.5.4,", "[[1.2.3.4,1.2.3.8],[7.6.5.4,", "", "7.6.9.9]]",
      "[[1.2.3.4, 1.2.3.8], [7.6.5.4,7.6.9.9]]", "[[1.2.3.4,1.2.3.8],[7.6.5.4,7.6.9.9]]");
  }

  lemma ParseSpaceAroundComma()
    ensures Parse("[[1.2.3.4, 1.2.3.8], [7.6.5.4,7.6.9.9]]") == Success(TwoRanges())
  {
    CommaStripped();
    ParsesToTwoRanges("[[1.2.3.4, 1.2.3.8], [7.6.5.4,7.6.9.9]]");
  }

  /** The opening the misc-spaces and wrong-format tests share: `[ [ 1.2.3.4, 1.2.3.8],`. */
  lemma SpacedOpeningTexts()
    ensures NoSpace("[") && NoSpace("1.2.3.4,") && NoSpace("1.2.3.8],")
    ensures "[" + " " + "[" == "[ [" && "[" + "[" == "[["
    ensures "[ [" + " " + "1.2.3.4," == "[ [ 1.2.3.4," && "[[" + "1.2.3.4," == "[[1.2.3.4,"
    ensures "[ [ 1.2.3.4," + " " + "1.2.3.8]," == "[ [ 1.2.3.4, 1.2.3.8],"
    ensures "[[1.2.3.4," + "1.2.3.8]," == "[[1.2.3.4,1.2.3.8],"
  {
  }

  lemma SpacedOpening()
    ensures StripSpace("[ [ 1.2.3.4, 1.2.3.8],") == "[[1.2.3.4,1.2.3.8],"
  {
    SpacedOpeningTexts();
    StripSpaceNoSpace("[");
    StripStep("[", "[", " ", "[", "[ [", "[[");
    StripStep("[ [", "[[", " ", "1.2.3.4,", "[ [ 1.2.3.4,", "[[1.2.3.4,");
    StripStep("[ [ 1.2.3.4,", "[[1.2.3.4,", " ", "1.2.3.8],", "[ [ 1.2.3.4, 1.2.3.8],", "[[1.2.3.4,1.2.3.8],");
  }

  /** How the texts of the misc-spaces case are assembled after the shared opening. */
  lemma MiscTexts()
    ensures NoSpace("[7.6.5.4,") && NoSpace("7.6.9.9")
    ensures "[ [ 1.2.3.4, 1.2.3.8]," + " " + "[7.6.5.4," == "[ [ 1.2.3.4, 1.2.3.8], [7.6.5.4,"
    ensures "[[1.2.3.4,1.2.3.8]," + "[7.6.5.4," == "[[1.2.3.4,1.2.3.8],[7.6.5.4,"
    ensures "[ [ 1.2.3.4, 1.2.3.8], [7.6.5.4," + " " + "7.6.9.9" == "[ [ 1.2.3.4, 1.2.3.8], [7.6.5.4, 7.6.9.9"
    ensures "[[1.2.3.4,1.2.3.8],[7.6.5.4," + "7.6.9.9" == "[[1.2.3.4,1.2.3.8],[7.6.5.4,7.6.9.9"
    ensures NoSpace("]")
    ensures "[ [ 1.2.3.4, 1.2.3.8], [7.6.5.4, 7.6.9.9" + " " + "]" == "[ [ 1.2.3.4, 1.2.3.8], [7.6.5.4, 7.6.9.9 ]"
    ensures "[[1.2.3.4,1.2.3.8],[7.6.5.4,7.6.9.9" + "]" == "[[1.2.3.4,1.2.3.8],[7.6.5.4,7.6.9.9]"
    ensures "[ [ 1.2.3.4, 1.2.3.8], [7.6.5.4, 7.6.9.9 ]" + " " + "]" == "[ [ 1.2.3.4, 1.2.3.8], [7.6.5.4, 7.6.9.9 ] ]"
    ensures "[[1.2.3.4,1.2.3.8],[7.6.5.4,7.6.9.9]" + "]" == "[[1.2.3.4,1.2.3.8],[7.6.5.4,7.6.9.9]]"
  {
  }

  lemma MiscStripped()
    ensures StripSpace("[ [ 1.2.3.4, 1.2.3.8], [7.6.5.4, 7.6.9.9 ] ]") == "[[1.2.3.4,1.2.3.8],[7.6.5.4,7.6.9.9]]"
  {
    SpacedOpening();
    MiscTexts();
    StripStep("[ [ 1.2.3.4, 1.2.3.8],", "[[1.2.3.4,1.2.3.8],", " ", "[7.6.5.4,",
      "[ [ 1.2.3.4, 1.2.3.8], [7.6.5.4,", "[[1.2.3.4,1.2.3.8],[7.6.5.4,");
    StripStep("[ [ 1.2.3.4, 1.2.3.8], [7.6.5.4,", "[[1.2.3.4,1.2.3.8],[7.6.5.4,", " ", "7.6.9.9",
      "[ [ 1.2.3.4, 1.2.3.8], [7.6.5.4, 7.6.9.9", "[[1.2.3.4,1.2.3.8],[7.6.5.4,7.6.9.9");
    StripStep("[ [ 1.2.3.4, 1.2.3.8], [7.6.5.4, 7.6.9.9", "[[1.2.3.4,1.2.3.8],[7.6.5.4,7.6.9.9", " ", "]",
      "[ [ 1.2.3.4, 1.2.3.8], [7.6.5.4, 7.6.9.9 ]", "[[1.2.3.4,1.2.3.8],[7.6.5.4,7.6.9.9]");
    StripStep("[ [ 1.2.3.4, 1.2.3.8], [7.6.5.4, 7.6.9.9 ]", "[[1.2.3.4,1.2.3.8],[7.6.5.4,7.6.9.9]", " ", "]",
      "[ [ 1.2.3.4, 1.2.3.8], [7.6.5.4, 7.6.9.9 ] ]", "[[1.2.3.4,1.2.3.8],[7.6.5.4,7.6.9.9]]");
  }

  lemma ParseMiscSpaces()
    ensures Parse("[ [ 1.2.3.4, 1.2.3.8], [7.6.5.4, 7.6.9.9 ] ]") == Success(TwoRanges())
  {
    MiscStripped();
    ParsesToTwoRanges("[ [ 1.2.3.4, 1.2.3.8], [7.6.5.4, 7.6.9.9 ] ]");
  }

  /** How the texts of the wrong-format case are assembled, with and without whitespace. */
  lemma WrongTexts()
    ensures NoSpace("[7.6.5.4]") && NoSpace("]")
    ensures "[ [ 1.2.3.4, 1.2.3.8]," + " " + "[7.6.5.4]" == "[ [ 1.2.3.4, 1.2.3.8], [7.6.5.4]"
    ensures "[[1.2.3.4,1.2.3.8]," + "[7.6.5.4]" == "[[1.2.3.4,1.2.3.8],[7.6.5.4]"
    ensures "[ [ 1.2.3.4, 1.2.3.8], [7.6.5.4]" + " " + "]" == "[ [ 1.2.3.4, 1.2.3.8], [7.6.5.4] ]"
    ensures "[[1.2.3.4,1.2.3.8],[7.6.5.4]" + "]" == "[[1.2.3.4,1.2.3.8],[7.6.5.4]]"
    ensures "[1.2.3.4,1.2.3.8]" + "," + "" == "[1.2.3.4,1.2.3.8],"
    ensures "[" + "[1.2.3.4,1.2.3.8]," == "[[1.2.3.4,1.2.3.8],"
    ensures "[[1.2.3.4,1.2.3.8]," + "[" == "[[1.2.3.4,1.2.3.8],["
    ensures "[[1.2.3.4,1.2.3.8],[" + "7.6.5.4" == "[[1.2.3.4,1.2.3.8],[7.6.5.4"
    ensures "[[1.2.3.4,1.2.3.8],[7.6.5.4" + "]" == "[[1.2.3.4,1.2.3.8],[7.6.5.4]"
    ensures "[[1.2.3.4,1.2.3.8],[7.6.5.4]" + "]" == "[[1.2.3.4,1.2.3.8],[7.6.5.4]]"
  {
  }

  /** The whitespace-free wrong-format text: one good entry, then an entry with one address. */
  lemma WrongFormatShape(p: seq<IpRange>)
    requires p == [IpRange("1.2.3.4", "1.2.3.8")]
    ensures "[[1.2.3.4,1.2.3.8],[7.6.5.4]]" == "[" + LeadingText(p) + "[" + "7.6.5.4" + "]" + "]"
  {
    assert p[1..] == [];
    RangeTexts();
    assert LeadingText(p) == "[1.2.3.4,1.2.3.8]" + "," + "";
    WrongTexts();
  }

  lemma WrongStripped()
    ensures StripSpace("[ [ 1.2.3.4, 1.2.3.8], [7.6.5.4] ]") == "[[1.2.3.4,1.2.3.8],[7.6.5.4]]"
  {
    SpacedOpening();
    WrongTexts();
    StripStep("[ [ 1.2.3.4, 1.2.3.8],", "[[1.2.3.4,1.2.3.8],", " ", "[7.6.5.4]",
      "[ [ 1.2.3.4, 1.2.3.8], [7.6.5.4]", "[[1.2.3.4,1.2.3.8],[7.6.5.4]");
    StripStep("[ [ 1.2.3.4, 1.2.3.8], [7.6.5.4]", "[[1.2.3.4,1.2.3.8],[7.6.5.4]", " ", "]",
      "[ [ 1.2.3.4, 1.2.3.8], [7.6.5.4] ]", "[[1.2.3.4,1.2.3.8],[7.6.5.4]]");
  }

  lemma WrongFormatParts(p: seq<IpRange>)
    requires p == [IpRange("1.2.3.4", "1.2.3.8")]
    ensures AllValid(p) && IsAddress("7.6.5.4")
  {
  }

  lemma ParseWrongFormatFails()
    ensures Parse("[ [ 1.2.3.4, 1.2.3.8], [7.6.5.4] ]") == Failure(NotAllowed)
  {
    var p := [IpRange("1.2.3.4", "1.2.3.8")];
    WrongStripped();
    WrongFormatShape(p);
    WrongFormatParts(p);
    OneAddressEntryFails("[ [ 1.2.3.4, 1.2.3.8], [7.6.5.4] ]", p, "7.6.5.4", "]");
  }

  // ---- csvToArray ----

  lemma CsvUndefined()
    ensures CsvToArray(Undefined) == []
  {
  }

  lemma CsvNull()
    ensures CsvToArray(Null) == []
  {
  }

  lemma CsvEmpty()
    ensures CsvToArray(Str("")) == []
  {
    BlankGivesNothing("");
  }

  /** A comma-free text `s` that is the token `t` padded by the whitespace `p` and `q` gives just `t`. */
  lemma CsvOnePiece(p: string, t: string, q: string, s: string)
    requires s == p + t + q && ',' !in s
    requires AllSpace(p) && AllSpace(q) && IsTrimmed(t) && t != []
    ensures CsvToArray(Str(s)) == [t]
  {
    TrimPadded(p, t, q);
    CsvOfCommaFree(s);
  }

  lemma CsvSingleElement()
    ensures CsvToArray(Str("abc")) == ["abc"]
  {
    CsvOnePiece("", "abc", "", "abc");
  }

  /** How the padded csv text is assembled from its pieces. */
  lemma PaddedTexts()
    ensures "abc" + "," + "def , ghi" == "abc,def , ghi"
    ensures "def " + "," + " ghi" == "def , ghi"
    ensures ["abc"] + (["def"] + ["ghi"]) == ["abc", "def", "ghi"]
  {
  }

  lemma CsvPaddedDef()
    ensures CsvToArray(Str("def ")) == ["def"]
  {
    CsvOnePiece("", "def", " ", "def ");
  }

  lemma CsvPaddedGhi()
    ensures CsvToArray(Str(" ghi")) == ["ghi"]
  {
    CsvOnePiece(" ", "ghi", "", " ghi");
  }

  lemma CsvPaddedTail()
    ensures CsvToArray(Str("def , ghi")) == ["def"] + ["ghi"]
  {
    PaddedTexts();
    CsvPaddedDef();
    CsvPaddedGhi();
    CsvConcat("def ", " ghi");
  }

  lemma CsvPaddedElements()
    ensures CsvToArray(Str("abc,def , ghi")) == ["abc", "def", "ghi"]
  {
    PaddedTexts();
    CsvOnePiece("", "abc", "", "abc");
    CsvPaddedTail();
    CsvConcat("abc", "def , ghi");
  }

  // ---- getReadReplicas ----

  lemma ReplicasWithoutVariable()
    ensures GetReadReplicas(map[], "REPLICAS") == None
  {
  }

  lemma NamesTest()
    ensures CsvToArray(Str("test")) == ["test"]
  {
    CsvOnePiece("", "test", "", "test");
  }

  lemma NamesTestTest1()
    ensures CsvToArray(Str("test, test1")) == ["test", "test1"]
  {
    NamesTexts();
    CsvOnePiece(" ", "test1", "", " test1");
    NamesTest();
    CsvConcat("test", " test1");
  }

  /** The texts of the replica lists, assembled from their names. */
  lemma NamesTexts()
    ensures "test" + "," + " test1" == "test, test1"
    ensures ["test"] + ["test1"] == ["test", "test1"]
  {
  }

  lemma ReplicasOnlyBadEntry()
    ensures GetReadReplicas(map["REPLICAS" := "test"], "REPLICAS") == None
  {
    var env := map["REPLICAS" := "test"];
    NamesTest();
    assert Names(env, "REPLICAS") == ["test"];
    assert "test" !in env;
  }

  lemma ReplicasResolved()
    ensures GetReadReplicas(map["REPLICAS" := "test", "test" := "testURL"], "REPLICAS") == Some(["testURL"])
  {
    var env := map["REPLICAS" := "test", "test" := "testURL"];
    NamesTest();
    assert Names(env, "REPLICAS") == ["test"];
    assert Resolve(env, ["test"]) == ["testURL"];
  }

  lemma BadEntryNames(env: Env)
    requires env == map["REPLICAS" := "test, test1", "test" := "testURL"]
    ensures "REPLICAS" in env && Names(env, "REPLICAS") == ["test"] + ["test1"]
  {
    NamesTestTest1();
    NamesTexts();
  }

  lemma ResolveTest(env: Env)
    requires env == map["REPLICAS" := "test, test1", "test" := "testURL"]
    ensures Resolve(env, ["test"]) == ["testURL"] && Resolve(env, ["test1"]) == []
  {
    assert "test1" !in env;
  }

  lemma ReplicasBadEntryDropped()
    ensures GetReadReplicas(map["REPLICAS" := "test, test1", "test" := "testURL"], "REPLICAS") == Some(["testURL"])
  {
    var env := map["REPLICAS" := "test, test1", "test" := "testURL"];
    BadEntryNames(env);
    ResolveTest(env);
    ResolveConcat(env, ["test"], ["test1"]);
  }
}
