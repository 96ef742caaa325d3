/**
 * Worked instances of the token and price rules on the kind of text the
 * extension meets: a grouped floor-area figure, a word in front of a unit,
 * and a price element.
 */
module Scenarios {
  import opened Wrappers
  import opened Chars
  import opened Numbers
  import opened SqftPattern
  import opened Scanner
  import opened Price

  /** "1200" reads as one thousand two hundred. */
  lemma DigitsOf1200()
    ensures AllDigits("1200") && DigitsValue("1200") == 1200
  {
    assert "1200"[..3] == "120" && "120"[..2] == "12" && "12"[..1] == "1" && "1"[..0] == "";
  }

  /** The grouped figure of "1,200 sq ft" is kept as 1200 once its comma is removed. */
  lemma GroupedToken()
    ensures TokenValue(Match(0, "1,200 sq ft", 0, "1,200")) == Some(1200.0)
  {
    assert RemoveCommas("1,200") == "1200";
    DigitsOf1200();
    ParseDigits("1200");
  }

  /** The number token of "450 sq ft" is its three digits. */
  lemma PlainNumeral()
    ensures NumeralEnd("450 sq ft", 0) == 3
  {
    var t := "450 sq ft";
    assert LeadEnd(t, 0) == 3 && GroupsEnd(t, 3) == 3 && FractionEnd(t, 3) == 3;
  }

  /** In "450 sq ft" the pattern matches the whole text. */
  lemma PlainFigureMatch()
    ensures MatchAt("450 sq ft", 0) == Some(Hit(0, 3, 9))
  {
    var t := "450 sq ft";
    PlainNumeral();
    RunEndUnique(t, 3, IsSpace, 4);
    assert SqSpaceFt(t, 4, 7) by {
      RunEndUnique(t, 6, IsSpace, 7);
      HasAtPair(t, 4, 's', 'q');
      HasAtPair(t, 7, 'f', 't');
      assert !HasAt(t, 6, "uare") && !CharAt(t, 6, '.');
    }
    assert Close(t, 9) == Some(9);
    NumeralSqFtMatch(t, 0, 4, 7);
  }

  /** "450" is read as four hundred and fifty. */
  lemma PlainToken()
    ensures TokenValue(Match(0, "450 sq ft", 0, "450")) == Some(450.0)
  {
    var g := "450";
    assert ',' !in g by { assert g[0] != ',' && g[1] != ',' && g[2] != ','; }
    ParseDigits(g);
    assert DigitsValue(g) == 450 by { assert g[..2] == "45" && "45"[..1] == "4" && "4"[..0] == ""; }
  }

  /** "450 sq ft" yields 450 and nothing else. */
  lemma PlainFigure()
    ensures Candidates(Exec, "450 sq ft") == [450.0]
  {
    PlainFigureMatch();
    PlainTokenAt("450 sq ft");
    WholeTextValue("450 sq ft", Hit(0, 3, 9), 450.0);
  }

  /**
   * The token "450" as the scan takes it, the first characters of the text,
   * reads as 450. This is the form `WholeTextValue` needs; the text is held in
   * a variable so that the verifier does not evaluate it eagerly.
   */
  lemma PlainTokenAt(t: string)
    requires t == "450 sq ft"
    ensures TokenValue(Match(0, t, 0, t[..3])) == Some(450.0)
  {
    assert t[..3] == "450";
    PlainToken();
  }

  /** The number token of "1,200 sq ft" takes in the comma group. */
  lemma GroupedNumeral()
    ensures NumeralEnd("1,200 sq ft", 0) == 5
  {
    var t := "1,200 sq ft";
    assert AllDigits(t[2..5]);
    assert LeadEnd(t, 0) == 1 && GroupsEnd(t, 5) == 5 && GroupsEnd(t, 1) == 5 && FractionEnd(t, 5) == 5;
  }

  /** In "1,200 sq ft" the pattern matches the whole text. */
  lemma GroupedFigureMatch()
    ensures MatchAt("1,200 sq ft", 0) == Some(Hit(0, 5, 11))
  {
    var t := "1,200 sq ft";
    GroupedNumeral();
    RunEndUnique(t, 5, IsSpace, 6);
    assert SqSpaceFt(t, 6, 9) by {
      RunEndUnique(t, 8, IsSpace, 9);
      HasAtPair(t, 6, 's', 'q');
      HasAtPair(t, 9, 'f', 't');
      assert !HasAt(t, 8, "uare") && !CharAt(t, 8, '.');
    }
    assert Close(t, 11) == Some(11);
    NumeralSqFtMatch(t, 0, 6, 9);
  }

  /** "1,200 sq ft" yields 1200 and nothing else. */
  lemma GroupedFigure()
    ensures Candidates(Exec, "1,200 sq ft") == [1200.0]
  {
    GroupedFigureMatch();
    GroupedTokenAt("1,200 sq ft");
    WholeTextValue("1,200 sq ft", Hit(0, 5, 11), 1200.0);
  }

  /**
   * The token "1,200" as the scan takes it, the first characters of the text,
   * reads as 1200. This is the form `WholeTextValue` needs; the text is held in
   * a variable so that the verifier does not evaluate it eagerly.
   */
  lemma GroupedTokenAt(t: string)
    requires t == "1,200 sq ft"
    ensures TokenValue(Match(0, t, 0, t[..5])) == Some(1200.0)
  {
    assert t[..5] == "1,200";
    GroupedToken();
  }

  /** A letter O read in place of a zero ends the literal: "1O" gives 1. */
  lemma MisreadZeroToken()
    ensures TokenValue(Match(0, "1O sq ft", 0, "1O")) == Some(1.0)
  {
    assert RemoveCommas("1O") == "1O";
    assert "1" + "O" == "1O";
    ParseDigitsThen("1", "O");
    assert "1"[..0] == "";
  }

  /**
   * In "1O sq ft" the numeral alternative stops at "1", where no unit
   * follows, so the match is the `\w+` token "1O" over the whole text.
   */
  lemma MisreadZeroMatch()
    ensures MatchAt("1O sq ft", 0) == Some(Hit(0, 2, 8))
  {
    var t := "1O sq ft";
    var h := Hit(0, 2, 8);
    assert 0 < |t| && WordStart(t, 0) && WordHit(t, 0, RunEnd(t, 0, IsWordChar)) == Some(h) by {
      RunEndUnique(t, 0, IsWordChar, 2);
      MisreadZeroWord();
    }
    assert IsDigit(t[0]) ==> NumeralHit(t, 0).None? by { MisreadZeroNumeral(); }
    WordHitSecond(t, 0, h);
  }

  /** The numeral "1" of "1O sq ft" is followed by "O", not by a unit. */
  lemma MisreadZeroNumeral()
    ensures NumeralHit("1O sq ft", 0).None?
  {
    var t := "1O sq ft";
    assert NumeralEnd(t, 0) == 1 by {
      assert LeadEnd(t, 0) == 1 && GroupsEnd(t, 1) == 1 && FractionEnd(t, 1) == 1;
    }
    RunEndUnique(t, 1, IsSpace, 1);
    assert !UnitFollows(t, 1) by {
      assert Lower(t[1 + 0]) != "sq"[0] && Lower(t[1 + 0]) != "ft"[0];
    }
  }

  /** The word "1O" of "1O sq ft" is followed by "sq ft" up to the end of the text. */
  lemma MisreadZeroWord()
    ensures WordStart("1O sq ft", 0) && WordHit("1O sq ft", 0, 2) == Some(Hit(0, 2, 8))
  {
    var t := "1O sq ft";
    RunEndUnique(t, 2, IsSpace, 3);
    assert SqSpaceFt(t, 3, 6) by {
      RunEndUnique(t, 5, IsSpace, 6);
      HasAtPair(t, 3, 's', 'q');
      HasAtPair(t, 6, 'f', 't');
      assert !HasAt(t, 5, "uare") && !CharAt(t, 5, '.');
    }
    assert Close(t, 8) == Some(8);
    SqSpaceFtTail(t, 2, 3, 6);
  }

  /** "1O sq ft" yields 1 and nothing else. */
  lemma MisreadZeroFigure()
    ensures Candidates(Exec, "1O sq ft") == [1.0]
  {
    MisreadZeroMatch();
    MisreadZeroTokenAt("1O sq ft");
    WholeTextValue("1O sq ft", Hit(0, 2, 8), 1.0);
  }

  /**
   * The token "1O" as the scan takes it, the first characters of the text,
   * reads as 1. This is the form `WholeTextValue` needs; the text is held in
   * a variable so that the verifier does not evaluate it eagerly.
   */
  lemma MisreadZeroTokenAt(t: string)
    requires t == "1O sq ft"
    ensures TokenValue(Match(0, t, 0, t[..2])) == Some(1.0)
  {
    assert t[..2] == "1O";
    MisreadZeroToken();
  }

  /**
   * In "1234 sq ft" the numeral alternative stops at "123", which a digit
   * follows, so the match is the `\w+` token "1234" over the whole text.
   */
  lemma FourDigitMatch()
    ensures MatchAt("1234 sq ft", 0) == Some(Hit(0, 4, 10))
  {
    var t := "1234 sq ft";
    var h := Hit(0, 4, 10);
    assert 0 < |t| && WordStart(t, 0) && WordHit(t, 0, RunEnd(t, 0, IsWordChar)) == Some(h) by {
      RunEndUnique(t, 0, IsWordChar, 4);
      FourDigitWord();
    }
    assert IsDigit(t[0]) ==> NumeralHit(t, 0).None? by { FourDigitNumeral(); }
    WordHitSecond(t, 0, h);
  }

  /** The numeral of "1234 sq ft" is "123", and a digit follows it. */
  lemma FourDigitNumeral()
    ensures NumeralHit("1234 sq ft", 0).None?
  {
    var t := "1234 sq ft";
    assert NumeralEnd(t, 0) == 3 by {
      assert LeadEnd(t, 0) == 3 && GroupsEnd(t, 3) == 3 && FractionEnd(t, 3) == 3;
    }
    NumeralBeforeDigit(t, 0);
  }

  /** The word "1234" of "1234 sq ft" is followed by "sq ft" up to the end of the text. */
  lemma FourDigitWord()
    ensures WordStart("1234 sq ft", 0) && WordHit("1234 sq ft", 0, 4) == Some(Hit(0, 4, 10))
  {
    var t := "1234 sq ft";
    RunEndUnique(t, 4, IsSpace, 5);
    assert SqSpaceFt(t, 5, 8) by {
      RunEndUnique(t, 7, IsSpace, 8);
      HasAtPair(t, 5, 's', 'q');
      HasAtPair(t, 8, 'f', 't');
      assert !HasAt(t, 7, "uare") && !CharAt(t, 7, '.');
    }
    assert Close(t, 10) == Some(10);
    SqSpaceFtTail(t, 4, 5, 8);
  }

  /**
   * The token at the start of "1234 sq ft" reads as 1234. The text is held in
   * a variable so that the verifier does not evaluate it eagerly.
   */
  lemma FourDigitTokenAt(t: string)
    requires t == "1234 sq ft"
    ensures TokenValue(Match(0, t, 0, t[..4])) == Some(1234.0)
  {
    var g := t[..4];
    assert g == "1234";
    assert ',' !in g by { assert g[0] != ',' && g[1] != ',' && g[2] != ',' && g[3] != ','; }
    ParseDigits(g);
    assert DigitsValue(g) == 1234 by { assert g[..3] == "123" && "123"[..2] == "12" && "12"[..1] == "1" && "1"[..0] == ""; }
  }

  /** "1234 sq ft", a figure of four digits without a comma, yields 1234 and nothing else. */
  lemma FourDigitFigure()
    ensures Candidates(Exec, "1234 sq ft") == [1234.0]
  {
    FourDigitMatch();
    FourDigitTokenAt("1234 sq ft");
    WholeTextValue("1234 sq ft", Hit(0, 4, 10), 1234.0);
  }

  /** A word token such as "1e3" reads with its exponent: 1000. */
  lemma ExponentToken()
    ensures TokenValue(Match(0, "1e3 sq ft", 0, "1e3")) == Some(1000.0)
  {
    var g := "1e3";
    assert ParseNumber(g) == Some(1000.0) by {
      assert "1" + ['e'] + "3" + "" == g;
      ParseExponent("1", 'e', "3", "");
      assert DigitsValue("1") == 1 && DigitsValue("3") == 3 by { assert "1"[..0] == "" && "3"[..0] == ""; }
      assert Pow10(3) == 1000;
    }
    assert RemoveCommas(g) == g;
  }

  /** The word of "Total sq ft" is captured by the pattern but does not parse, so it is dropped. */
  lemma WordToken()
    ensures TokenValue(Match(0, "Total sq ft", 0, "Total")).None?
  {
    assert RemoveCommas("Total")[0] == 'T';
  }

  /** The price token of a price element is the pound sign with the whole figure after it. */
  lemma SampleMatchPrice()
    ensures MatchPrice("Guide £325,000 ") == Some("£325,000")
  {
    var t := "Guide £325,000 ";
    forall k | 0 <= k < 6 ensures !PriceAt(t, k) { assert t[k] != Pound; }
    MatchPriceLeftmostLongest(t, 6, 14);
    assert t[6..14] == "£325,000";
  }
}
