/** `collect` on well-formed text, and the inputs of the repository's unit tests
    (CollectNumbersTest.java), proved of the model. */
module CollectorCases {
  import opened Wrappers
  import opened Decimal
  import opened Sequences
  import opened Collector
  import opened CollectorProperties

  predicate NoWhitespace(s: string) {
    forall i :: 0 <= i < |s| ==> !IsWhitespace(s[i])
  }

  predicate AllInRange(fs: seq<string>)
    requires AllNumerals(fs)
  {
    forall i :: 0 <= i < |fs| ==> InRange(fs[i])
  }

  lemma NumeralChars(f: string)
    requires IsNumeral(f)
    ensures ',' !in f && NoWhitespace(f)
  {
    forall i | 0 <= i < |f| ensures f[i] == '-' || IsDigit(f[i]) {
      if f[0] == '-' && i > 0 { assert f[i] == f[1..][i - 1]; }
    }
  }

  /** Joining numerals with commas adds no whitespace. */
  lemma {:induction false} JoinedNumeralsStripped(fs: seq<string>)
    requires |fs| > 0 && AllNumerals(fs)
    ensures StripWhitespace(JoinFields(fs)) == JoinFields(fs)
  {
    NumeralChars(fs[0]);
    if |fs| > 1 {
      NumeralsTail(fs);
      JoinedNumeralsStripped(fs[1..]);
      StripAppend(fs[0], "," + JoinFields(fs[1..]));
      StripAppend(",", JoinFields(fs[1..]));
      Associate(fs[0], ",", JoinFields(fs[1..]));
    }
  }

  lemma NumeralsTail(fs: seq<string>)
    requires |fs| > 0 && AllNumerals(fs)
    ensures AllNumerals(fs[1..])
  {
    forall i | 0 <= i < |fs| - 1 ensures IsNumeral(fs[1..][i]) { assert fs[1..][i] == fs[i + 1]; }
  }

  /** Fields in range parse to their values. */
  lemma ParsedValues(fs: seq<string>)
    requires AllNumerals(fs) && AllInRange(fs)
    ensures ParseFields(fs) == Ok(FieldValues(fs))
  {
    var vs := ParseFields(fs).value;
    assert |vs| == |FieldValues(fs)|;
    assert forall i :: 0 <= i < |vs| ==> vs[i] == FieldValues(fs)[i];
  }

  lemma JoinedNonEmpty(fs: seq<string>)
    requires |fs| > 0 && IsNumeral(fs[0])
    ensures JoinFields(fs) != []
  {
    if |fs| > 1 {
      assert |JoinFields(fs)| >= |fs[0]|;
    }
  }

  /** Numerals in the `int` range joined with commas are collected as their values,
      duplicates dropped: the inverse of writing a list of integers as `collect` reads it. */
  lemma CollectJoined(fs: seq<string>)
    requires |fs| > 0 && AllNumerals(fs) && AllInRange(fs)
    ensures Collect(Some(JoinFields(fs))) == Ok(Distinct(FieldValues(fs)))
  {
    var s := JoinFields(fs);
    forall i | 0 <= i < |fs| ensures ',' !in fs[i] {
      NumeralChars(fs[i]);
    }
    SplitJoin(fs);
    JoinedNumeralsStripped(fs);
    JoinedNonEmpty(fs);
    StrippedFields(s, fs);
    assert Collect(Some(s)) == CollectStripped(StripWhitespace(s));
  }

  lemma StrippedFields(t: string, fs: seq<string>)
    requires Split(t) == fs && AllNumerals(fs) && AllInRange(fs)
    ensures CollectStripped(t) == Ok(Distinct(FieldValues(fs)))
  {
    MatchesPatternIffNumerals(t);
    ParsedValues(fs);
    DistinctInt32(ParseFields(fs).value, FieldValues(fs));
  }

  /** Removing duplicates does not depend on the element type the values are viewed at. */
  lemma {:induction false} DistinctInt32(xs: seq<Int32>, ys: seq<int>)
    requires xs == ys
    ensures Distinct(xs) == Distinct(ys)
  {
    if xs != [] {
      DistinctInt32(xs[..|xs| - 1], ys[..|ys| - 1]);
    }
  }

  /** Text whose first non-blank character cannot start a field is rejected. */
  lemma BadLeadingCharacter(s: string)
    requires StripWhitespace(s) != []
    requires StripWhitespace(s)[0] != '-' && !IsDigit(StripWhitespace(s)[0])
    ensures Collect(Some(s)) == Err(IllegalArgument(PatternMessage))
  {
    var t := StripWhitespace(s);
    assert t == [t[0]] + t[1..];
    ScanRejected(t[1..]);
  }

  /** Blank-free text starting with a character that cannot start a field is rejected. */
  lemma RejectedPlain(s: string)
    requires s != [] && NoWhitespace(s)
    requires s[0] != '-' && !IsDigit(s[0])
    ensures Collect(Some(s)) == Err(IllegalArgument(PatternMessage))
  {
    assert StripWhitespace(s) == s;
    BadLeadingCharacter(s);
  }

  lemma InvalidWordsPlain()
    ensures NoWhitespace("someInvalidInputHere123")
  {
  }

  lemma InvalidWords()
    ensures Collect(Some("someInvalidInputHere123")) == Err(IllegalArgument(PatternMessage))
  {
    InvalidWordsPlain();
    RejectedPlain("someInvalidInputHere123");
  }

  lemma InvalidLeadingComma()
    ensures Collect(Some(",123,")) == Err(IllegalArgument(PatternMessage))
  {
    RejectedPlain(",123,");
  }

  /** Any well-formed text: `collect` yields the distinct values of its fields. */
  lemma CollectIs(fs: seq<string>, text: string, values: seq<int>, out: seq<Int32>)
    requires |fs| > 0 && AllNumerals(fs) && AllInRange(fs)
    requires JoinFields(fs) == text && FieldValues(fs) == values && Distinct(values) == out
    ensures Collect(Some(text)) == Ok(out)
  {
    CollectJoined(fs);
  }

  /** Input that already has no duplicates passes through `distinct` unchanged. */
  lemma {:induction false} DistinctOfNoDuplicates<T(!new)>(xs: seq<T>)
    requires NoDuplicates(xs)
    ensures Distinct(xs) == xs
  {
    if xs != [] {
      var init := xs[..|xs| - 1];
      assert NoDuplicates(init);
      DistinctOfNoDuplicates(init);
      assert xs[|xs| - 1] !in init;
      assert init + [xs[|xs| - 1]] == xs;
    }
  }

  lemma JoinThree(a: string, b: string, c: string)
    ensures JoinFields([a, b, c]) == a + "," + (b + "," + c)
  {
    assert [a, b, c][1..] == [b, c] && [b, c][1..] == [c];
    assert JoinFields([b, c]) == b + "," + c;
  }

  /** Four fields in front of more fields. */
  lemma JoinFour(a: string, b: string, c: string, d: string, more: seq<string>)
    requires more != []
    ensures JoinFields([a, b, c, d] + more) == a + "," + (b + "," + (c + "," + (d + "," + JoinFields(more))))
  {
    var fs := [a, b, c, d] + more;
    assert fs[1..] == [b, c, d] + more && fs[1..][1..] == [c, d] + more;
    assert fs[1..][1..][1..] == [d] + more && fs[1..][1..][1..][1..] == more;
    assert JoinFields([d] + more) == d + "," + JoinFields(more);
    assert JoinFields([c, d] + more) == c + "," + JoinFields([d] + more);
    assert JoinFields([b, c, d] + more) == b + "," + JoinFields([c, d] + more);
  }

  lemma ValidFields()
    ensures JoinFields(["-10", "0", "1", "2", "4", "5", "8"]) == "-10,0,1,2,4,5,8"
  {
    JoinFour("-10", "0", "1", "2", ["4", "5", "8"]);
    JoinThree("4", "5", "8");
    assert ["-10", "0", "1", "2"] + ["4", "5", "8"] == ["-10", "0", "1", "2", "4", "5", "8"];
    ValidText();
  }

  lemma ValidValues()
    ensures FieldValues(["-10", "0", "1", "2", "4", "5", "8"]) == [-10, 0, 1, 2, 4, 5, 8]
  {
    ValidNumerals();
    assert NumeralValue("-10") == -10 by {
      assert "-10"[1..] == "10" && "10"[..1] == "1";
    }
  }

  lemma ValidNumerals()
    ensures AllNumerals(["-10", "0", "1", "2", "4", "5", "8"])
  {
    assert IsNumeral("-10") by { assert "-10"[1..] == "10"; }
  }

  lemma ValidInRange()
    ensures AllNumerals(["-10", "0", "1", "2", "4", "5", "8"])
    ensures AllInRange(["-10", "0", "1", "2", "4", "5", "8"])
  {
    ValidNumerals();
    ValidValues();
  }

  lemma ValidDistinct()
    ensures Distinct([-10, 0, 1, 2, 4, 5, 8]) == [-10, 0, 1, 2, 4, 5, 8]
  {
    assert NoDuplicates([-10, 0, 1, 2, 4, 5, 8]);
    DistinctOfNoDuplicates([-10, 0, 1, 2, 4, 5, 8]);
  }

  lemma ValidPieces()
    ensures var fs := ["-10", "0", "1", "2", "4", "5", "8"];
            && |fs| > 0 && AllNumerals(fs) && AllInRange(fs)
            && JoinFields(fs) == "-10,0,1,2,4,5,8" && FieldValues(fs) == [-10, 0, 1, 2, 4, 5, 8]
            && Distinct([-10, 0, 1, 2, 4, 5, 8]) == [-10, 0, 1, 2, 4, 5, 8]
  {
    ValidFields();
    ValidValues();
    ValidInRange();
    ValidDistinct();
  }

  lemma ValidInput()
    ensures Collect(Some("-10,0,1,2,4,5,8")) == Ok([-10, 0, 1, 2, 4, 5, 8])
  {
    var values: seq<Int32> := [-10, 0, 1, 2, 4, 5, 8];
    ValidPieces();
    CollectIs(["-10", "0", "1", "2", "4", "5", "8"], "-10,0,1,2,4,5,8", values, values);
  }

  lemma DuplicatesFields()
    ensures JoinFields(["1", "2", "2", "3", "3", "4", "4"]) == "1,2,2,3,3,4,4"
  {
    JoinFour("1", "2", "2", "3", ["3", "4", "4"]);
    JoinThree("3", "4", "4");
    assert ["1", "2", "2", "3"] + ["3", "4", "4"] == ["1", "2", "2", "3", "3", "4", "4"];
    DuplicatesText();
  }

  lemma DuplicatesValues()
    ensures FieldValues(["1", "2", "2", "3", "3", "4", "4"]) == [1, 2, 2, 3, 3, 4, 4]
  {
  }

  lemma DuplicatesNumerals()
    ensures AllNumerals(["1", "2", "2", "3", "3", "4", "4"])
    ensures AllInRange(["1", "2", "2", "3", "3", "4", "4"])
  {
  }

  lemma DistinctPrefix2() ensures Distinct([1, 2]) == [1, 2] { assert [1, 2][..1] == [1]; }
  lemma DistinctPrefix3() ensures Distinct([1, 2, 2]) == [1, 2] { DistinctPrefix2(); assert [1, 2, 2][..2] == [1, 2]; }
  lemma DistinctPrefix4() ensures Distinct([1, 2, 2, 3]) == [1, 2, 3] { DistinctPrefix3(); assert [1, 2, 2, 3][..3] == [1, 2, 2]; }
  lemma DistinctPrefix5() ensures Distinct([1, 2, 2, 3, 3]) == [1, 2, 3] { DistinctPrefix4(); assert [1, 2, 2, 3, 3][..4] == [1, 2, 2, 3]; }
  lemma DistinctPrefix6() ensures Distinct([1, 2, 2, 3, 3, 4]) == [1, 2, 3, 4] { DistinctPrefix5(); assert [1, 2, 2, 3, 3, 4][..5] == [1, 2, 2, 3, 3]; }

  lemma DuplicatesDistinct()
    ensures Distinct([1, 2, 2, 3, 3, 4, 4]) == [1, 2, 3, 4]
  {
    DistinctPrefix6();
    assert [1, 2, 2, 3, 3, 4, 4][..6] == [1, 2, 2, 3, 3, 4];
  }

  lemma DuplicatesPieces()
    ensures var fs := ["1", "2", "2", "3", "3", "4", "4"];
            && |fs| > 0 && AllNumerals(fs) && AllInRange(fs)
            && JoinFields(fs) == "1,2,2,3,3,4,4" && FieldValues(fs) == [1, 2, 2, 3, 3, 4, 4]
            && Distinct([1, 2, 2, 3, 3, 4, 4]) == [1, 2, 3, 4]
  {
    DuplicatesFields();
    DuplicatesValues();
    DuplicatesNumerals();
    DuplicatesDistinct();
  }

  lemma Duplicates()
    ensures Collect(Some("1,2,2,3,3,4,4")) == Ok([1, 2, 3, 4])
  {
    DuplicatesPieces();
    CollectIs(["1", "2", "2", "3", "3", "4", "4"], "1,2,2,3,3,4,4", [1, 2, 2, 3, 3, 4, 4], [1, 2, 3, 4]);
  }

  // "  -10, 0,1, \n2,\t 4, 5, 8": the valid input with blanks, tabs and a line feed

  lemma StrippedLead()
    ensures StripWhitespace("  -10,") == "-10,"
  {
    StripAppend("  ", "-10,");
    assert "  " + "-10," == "  -10,";
  }

  lemma StrippedSecond()
    ensures StripWhitespace(" 0,1,") == "0,1,"
  {
  }

  lemma StrippedMiddle()
    ensures StripWhitespace(" \n2,") == "2," && StripWhitespace("\t 4,") == "4,"
  {
  }

  lemma StrippedEnd()
    ensures StripWhitespace(" 5,") == "5," && StripWhitespace(" 8") == "8"
  {
  }

  lemma StripBlankPieces()
    ensures StripWhitespace("  -10," + (" 0,1," + (" \n2," + ("\t 4," + (" 5," + " 8")))))
         == "-10," + ("0,1," + ("2," + ("4," + ("5," + "8"))))
  {
    StripAppend(" 5,", " 8");
    StripAppend("\t 4,", " 5," + " 8");
    StripAppend(" \n2,", "\t 4," + (" 5," + " 8"));
    StripAppend(" 0,1,", " \n2," + ("\t 4," + (" 5," + " 8")));
    StripAppend("  -10,", " 0,1," + (" \n2," + ("\t 4," + (" 5," + " 8"))));
    StrippedLead();
    StrippedSecond();
    StrippedMiddle();
    StrippedEnd();
  }

  lemma ValidStripped()
    ensures StripWhitespace("-10,0,1,2,4,5,8") == "-10,0,1,2,4,5,8"
  {
    ValidPieces();
    JoinedNumeralsStripped(["-10", "0", "1", "2", "4", "5", "8"]);
  }

  lemma BlankInput()
    ensures Collect(Some("  -10, 0,1, \n2,\t 4, 5, 8")) == Ok([-10, 0, 1, 2, 4, 5, 8])
  {
    BlankPieces();
    StripBlankPieces();
    StrippedText();
    ValidStripped();
    ValidInput();
  }

  // ---------------------------------------------------------------------------
  // The test inputs written as concatenations of their pieces (identities of
  // string literals, stated apart so that each is checked on its own)

  lemma ValidText()
    ensures "-10" + "," + ("0" + "," + ("1" + "," + ("2" + "," + ("4" + "," + ("5" + "," + "8"))))) == "-10,0,1,2,4,5,8"
  {
  }

  lemma DuplicatesText()
    ensures "1" + "," + ("2" + "," + ("2" + "," + ("3" + "," + ("3" + "," + ("4" + "," + "4"))))) == "1,2,2,3,3,4,4"
  {
  }

  lemma BlankPieces()
    ensures "  -10," + (" 0,1," + (" \n2," + ("\t 4," + (" 5," + " 8")))) == "  -10, 0,1, \n2,\t 4, 5, 8"
  {
  }

  lemma StrippedText()
    ensures "-10," + ("0,1," + ("2," + ("4," + ("5," + "8")))) == "-10,0,1,2,4,5,8"
  {
  }
}
