/** Names from permits, followed through `_standardize_street`, `clean_street` and
  * `_get_intersections`. */
module StreetExamples {
  import opened Wrappers
  import opened Strings
  import opened Ordinals
  import opened StreetNames
  import opened StreetRules

  /** "grand st": the key at the end of a name becomes its full word. */
  lemma StandardizedGrandSt(grand: string)
    requires grand == "grand"
    ensures Standardized(grand + " " + "st") == grand + " " + "street"
  {
    SpacelessNoKey(grand);
    NoOrdinalWords(grand + " " + "street");
    StandardizedKeyAtEnd(grand, 0);
  }

  /** "5 ave.": a dotted key becomes its full word, "5 avenue". */
  lemma StandardizedFiveAve(five: string)
    requires five == "5"
    ensures Standardized(five + " " + "ave" + ".") == five + " " + "avenue"
  {
    SpacelessNoKey(five);
    NoOrdinalWords(five + " " + "avenue");
    StandardizedDottedAtEnd(five, 1);
  }

  /** "fifth avenue": an ordinal word becomes its numeral, "5th avenue". */
  lemma StandardizedFifthAvenue(fifth: string)
    requires fifth == "fifth"
    ensures Standardized(fifth + " " + "avenue") == "5th" + " " + "avenue"
  {
    var x := fifth + " " + "avenue";
    assert ORDINAL_WORDS[4] == (fifth, "5th");
    assert ABBREVIATIONS[1].1 == "avenue";
    FifthAvenueWords(x);
    MissingChar(" " + "avenue", fifth, 0);
    StandardizedOrdinalFull(4, 1);
  }

  /** "fifth avenue" holds no ordinal word but "fifth". */
  lemma FifthAvenueWords(x: string)
    requires x == "fifth" + " " + "avenue"
    ensures forall j :: 0 <= j < |ORDINAL_WORDS| && j != 4 ==> !Contains(x, ORDINAL_WORDS[j].0)
  {
    MissingPair(x, ORDINAL_WORDS[8].0, 0);
    MissingPair(x, ORDINAL_WORDS[9].0, 0);
    forall j | 0 <= j < |ORDINAL_WORDS| && j != 4 && j != 8 && j != 9
      ensures !Contains(x, ORDINAL_WORDS[j].0)
    {
      var m := if j == 0 || j == 7 then 2 else if j == 2 then 3 else if j == 3 || j >= 10 then 1 else 0;
      MissingChar(x, ORDINAL_WORDS[j].0, m);
    }
  }

  /** "4 ave" to "9 ave": the number becomes ordinal, "4th avenue". */
  lemma CleanedNumberedAvenue(d: char)
    requires '4' <= d <= '9'
    ensures Cleaned([d] + " " + "ave") == [d] + "th" + " " + "avenue"
  {
    LowerFixed([d] + " " + "ave");
    NumberedAvenueStandardized(d);
    NumberedAvenueQuiet(d);
    NumberedAvenueOrdinal(d);
    NumberedNotSpecial([d] + "th" + " " + "avenue");
  }

  lemma NumberedAvenueStandardized(d: char)
    requires '0' <= d <= '9'
    ensures Standardized([d] + " " + "ave") == [d] + " " + "avenue"
  {
    SpacelessNoKey([d]);
    NoOrdinalWords([d] + " " + "avenue");
    StandardizedKeyAtEnd([d], 1);
  }

  lemma NumberedAvenueQuiet(d: char)
    requires '0' <= d <= '9'
    ensures AbbReplace([d] + " " + "avenue") == [d] + " " + "avenue"
  {
    var x := [d] + " " + "avenue";
    QuietAllNoDigits([d], " " + "avenue");
    assert [d] + (" " + "avenue") == x;
    AbbReplaceQuiet(x);
  }

  lemma NumberedAvenueOrdinal(d: char)
    requires '4' <= d <= '9'
    ensures OrdinalRep([d] + " " + "avenue") == [d] + "th" + " " + "avenue"
  {
    var none: string := [];
    var rest := " avenue";
    assert DigitFree(rest);
    assert none + [d] + rest == [d] + " " + "avenue";
    assert none + [d] + OrdinalSuffix([d]) + rest == [d] + "th" + " " + "avenue";
    Example(none + [d] + rest, none, [d], rest, none + [d] + OrdinalSuffix([d]) + rest);
  }

  /** A name starting with a digit is not among the special cases. */
  lemma NumberedNotSpecial(r: string)
    requires r != [] && IsDigit(r[0])
    ensures r !in SPECIAL_CASES
  {
  }

  /** "avenue of the americas" is listed among the special cases as "6th avenue". */
  lemma CleanedAmericas(avenue: string)
    requires avenue == "avenue"
    ensures Cleaned(avenue + " of the americas") == "6th avenue"
  {
    AmericasSettled(avenue);
    AmericasSpecial(avenue);
  }

  lemma AmericasSpecial(avenue: string)
    requires avenue == "avenue"
    ensures var s := avenue + " of the americas";
      s in SPECIAL_CASES && SPECIAL_CASES[s] == "6th avenue"
  {
    assert avenue + " of the americas" == "avenue of the americas";
  }

  lemma AmericasSettled(avenue: string)
    requires avenue == "avenue"
    ensures var s := avenue + " of the americas";
      Rewritten(s) == s
  {
    var tail := " of the americas";
    var s := avenue + tail;
    AmericasTailFree();
    forall i | 0 <= i < |ABBREVIATIONS|
      ensures !Contains(s, " " + ABBREVIATIONS[i].0)
    {
      MissingChar(avenue, " " + ABBREVIATIONS[i].0, 0);
      SpaceLedJoin(avenue, tail, " " + ABBREVIATIONS[i].0);
    }
    AvenueWords(avenue);
    OrdinalTable();
    forall j | 0 <= j < |ORDINAL_WORDS|
      ensures !Contains(s, ORDINAL_WORDS[j].0)
    {
      SpaceFreeJoin(avenue, tail, ORDINAL_WORDS[j].0);
    }
    RewrittenSettled(s);
  }

  /** " of the americas" holds no key after a space and no ordinal word. */
  lemma AmericasTailFree()
    ensures NoKey(" of the americas")
    ensures forall j :: 0 <= j < |ORDINAL_WORDS| ==> !Contains(" of the americas", ORDINAL_WORDS[j].0)
  {
    var t := " of the americas";
    forall i | 0 <= i < |ABBREVIATIONS|
      ensures !Contains(t, " " + ABBREVIATIONS[i].0)
    {
      if i == 1 {
        MissingPair(t, " " + ABBREVIATIONS[i].0, 1);
      } else {
        MissingPair(t, " " + ABBREVIATIONS[i].0, 0);
      }
    }
    AmericasTailWords(t);
  }

  lemma AmericasTailWords(t: string)
    requires t == " of the americas"
    ensures forall j :: 0 <= j < |ORDINAL_WORDS| ==> !Contains(t, ORDINAL_WORDS[j].0)
  {
    MissingPair(t, ORDINAL_WORDS[0].0, 0);
    MissingPair(t, ORDINAL_WORDS[4].0, 0);
    forall j | 0 <= j < |ORDINAL_WORDS| && j != 0 && j != 4
      ensures !Contains(t, ORDINAL_WORDS[j].0)
    {
      var m := if j == 1 || j == 2 then 4 else if j == 8 then 0 else if j >= 10 then 1 else 2;
      MissingChar(t, ORDINAL_WORDS[j].0, m);
    }
  }

  /** "avenue" holds no ordinal word. */
  lemma AvenueWords(avenue: string)
    requires avenue == "avenue"
    ensures forall j :: 0 <= j < |ORDINAL_WORDS| ==> !Contains(avenue, ORDINAL_WORDS[j].0)
  {
    forall j | 0 <= j < |ORDINAL_WORDS|
      ensures !Contains(avenue, ORDINAL_WORDS[j].0)
    {
      if 7 <= j <= 8 || j == 10 {
        MissingChar(avenue, ORDINAL_WORDS[j].0, 1);
      } else {
        MissingChar(avenue, ORDINAL_WORDS[j].0, 0);
      }
    }
  }

  /** "w 42 st": the direction and the key are spelled out and the number becomes
    * ordinal, "west 42nd street". */
  lemma CleanedW42St(w42: string)
    requires w42 == "w 42"
    ensures Cleaned(w42 + " " + "st") == "west 42nd street"
  {
    LowerFixed(w42 + " " + "st");
    W42Standardized(w42);
    W42Directions(w42);
    W42Ordinal(DirectionWord('w'));
    W42NotSpecial(DirectionWord('w'));
  }

  lemma W42Standardized(w42: string)
    requires w42 == "w 42"
    ensures Standardized(w42 + " " + "st") == w42 + " " + "street"
  {
    NoKeyAfterSpaces(w42);
    NoOrdinalWords(w42 + " " + "street");
    StandardizedKeyAtEnd(w42, 0);
  }

  lemma W42Directions(w42: string)
    requires w42 == "w 42"
    ensures AbbReplace(w42 + " " + "street") == DirectionWord('w') + "42 street"
  {
    var rest := "42" + " street";
    W42RestQuiet(rest);
    AbbReplaceLeading('w', rest);
    assert ['w', ' '] + rest == w42 + " " + "street";
  }

  lemma W42RestQuiet(rest: string)
    requires rest == "42" + " street"
    ensures QuietAll(rest)
  {
    forall c | c in "ewns"
      ensures Quiet(rest, c)
    {
      QuietNoDigits(" street", c);
      QuietLacks("42", " street", c);
    }
  }

  lemma W42Ordinal(west: string)
    requires west == "west "
    ensures OrdinalRep(west + "42 street") == west + "42nd street"
  {
    var r := west + "42" + OrdinalSuffix("42") + " street";
    assert DigitFree("west ") && DigitFree(" street");
    assert west + "42" + " street" == west + "42 street";
    assert r == west + "42nd street";
    Example(west + "42 street", west, "42", " street", r);
  }

  lemma W42NotSpecial(west: string)
    requires west == "west "
    ensures west + "42nd street" !in SPECIAL_CASES
    ensures west + "42nd street" == "west 42nd street"
  {
    var r := west + "42nd street";
    assert r[5] == '4';
  }

  /** "w 42 st between 5 ave and 6 ave": the block on west 42nd street between 5th
    * and 6th avenue. */
  lemma IntersectionsW42(w42: string)
    requires w42 == "w 42"
    ensures var main, c1, c2 := w42 + " " + "st", ['5'] + " " + "ave", ['6'] + " " + "ave";
      Intersections(main + " between " + (c1 + " and " + c2))
        == Some(Block("west 42nd street", "5th avenue", "6th avenue"))
  {
    var main, c1, c2 := w42 + " " + "st", ['5'] + " " + "ave", ['6'] + " " + "ave";
    var address := main + " between " + (c1 + " and " + c2);
    W42Parts(w42);
    W42NoDeadEnd(w42);
    IntersectionsOf(address, main, c1, c2);
    CleanedW42St(w42);
    CleanedNumberedAvenue('5');
    CleanedNumberedAvenue('6');
    AvenueNumerals();
  }

  lemma AvenueNumerals()
    ensures ['5'] + "th" + " " + "avenue" == "5th avenue"
    ensures ['6'] + "th" + " " + "avenue" == "6th avenue"
  {
  }

  lemma W42Parts(w42: string)
    requires w42 == "w 42"
    ensures var main, c1, c2 := w42 + " " + "st", ['5'] + " " + "ave", ['6'] + " " + "ave";
      ThreeParts(main + " between " + (c1 + " and " + c2), " between ", " and ", main, c1, c2)
  {
    var main, c1, c2 := w42 + " " + "st", ['5'] + " " + "ave", ['6'] + " " + "ave";
    var cross := c1 + " and " + c2;
    MarkedSeparator(main, " between ", cross, 1);
    MissingChar(cross, " between ", 1);
    MarkedSeparator(c1, " and ", c2, 2);
    MissingChar(c2, " and ", 2);
  }

  lemma W42NoDeadEnd(w42: string)
    requires w42 == "w 42"
    ensures var main, c1, c2 := w42 + " " + "st", ['5'] + " " + "ave", ['6'] + " " + "ave";
      var address := main + " between " + (c1 + " and " + c2);
      forall k :: 0 <= k < |NULL_STREETS| ==> !Contains(address, NULL_STREETS[k])
  {
    var main, c1, c2 := w42 + " " + "st", ['5'] + " " + "ave", ['6'] + " " + "ave";
    var address := main + " between " + (c1 + " and " + c2);
    MissingChar(address, NULL_STREETS[0], 5);
    MissingPair(address, NULL_STREETS[1], 0);
  }
}
