/** The outputs that the repository's unit tests expect of `summarizeCollection`
    (CollectNumbersTest.java), proved of the model. */
module SummarizerCases {
  import opened Sorting
  import opened Summarizer
  import opened SummarizerProperties

  /** Any input: the summary is the text of the runs of its sorted arrangement. */
  lemma SummaryIs(s: seq<int>, t: seq<int>, rs: seq<Range>, text: string)
    requires multiset(s) == multiset(t) && Sorted(t)
    requires WellFormed(rs) && Separated(rs) && Expand(rs) == t
    requires Render(rs) == text
    ensures Summary(s) == text
  {
    SummaryFromRuns(s, t, rs);
  }

  lemma Render3(a: Range, b: Range, c: Range)
    ensures Render([a, b, c]) == RangeText(a) + ", " + (RangeText(b) + ", " + RangeText(c))
  {
    assert [a, b, c][1..] == [b, c] && [b, c][1..] == [c];
    assert Render([c]) == RangeText(c);
    assert Render([b, c]) == RangeText(b) + ", " + RangeText(c);
  }

  lemma Render4(a: Range, b: Range, c: Range, d: Range)
    ensures Render([a, b, c, d])
         == RangeText(a) + ", " + (RangeText(b) + ", " + (RangeText(c) + ", " + RangeText(d)))
  {
    assert [a, b, c, d][1..] == [b, c, d];
    Render3(b, c, d);
    assert Render([a, b, c, d]) == RangeText(a) + ", " + Render([b, c, d]);
  }

  lemma Expand3(a: Range, b: Range, c: Range)
    ensures Expand([a, b, c]) == Span(a.first, a.last) + (Span(b.first, b.last) + Span(c.first, c.last))
  {
    assert [a, b, c][1..] == [b, c] && [b, c][1..] == [c] && [c][1..] == [];
    assert Span(c.first, c.last) + [] == Span(c.first, c.last);
    assert Expand([c]) == Span(c.first, c.last);
    assert Expand([b, c]) == Span(b.first, b.last) + Span(c.first, c.last);
  }

  lemma Expand4(a: Range, b: Range, c: Range, d: Range)
    ensures Expand([a, b, c, d])
         == Span(a.first, a.last) + (Span(b.first, b.last) + (Span(c.first, c.last) + Span(d.first, d.last)))
  {
    assert [a, b, c, d][1..] == [b, c, d];
    Expand3(b, c, d);
    assert Expand([a, b, c, d]) == Span(a.first, a.last) + Expand([b, c, d]);
  }

  lemma Render5(a: Range, b: Range, c: Range, d: Range, e: Range)
    ensures Render([a, b, c, d, e])
         == RangeText(a) + ", " + (RangeText(b) + ", " + (RangeText(c) + ", " + (RangeText(d) + ", " + RangeText(e))))
  {
    assert [a, b, c, d, e][1..] == [b, c, d, e];
    Render4(b, c, d, e);
    assert Render([a, b, c, d, e]) == RangeText(a) + ", " + Render([b, c, d, e]);
  }

  lemma Expand5(a: Range, b: Range, c: Range, d: Range, e: Range)
    ensures Expand([a, b, c, d, e])
         == Span(a.first, a.last) + (Span(b.first, b.last) + (Span(c.first, c.last) + (Span(d.first, d.last) + Span(e.first, e.last))))
  {
    assert [a, b, c, d, e][1..] == [b, c, d, e];
    Expand4(b, c, d, e);
    assert Expand([a, b, c, d, e]) == Span(a.first, a.last) + Expand([b, c, d, e]);
  }

  lemma EmptyCollection()
    ensures Summary([]) == ""
  {
    SummaryEmptyIff([]);
  }

  // 1, 2, 3, 5, 6, 7, 9

  lemma ConsecutiveRunsExpand()
    ensures Expand([Range(1, 3), Range(5, 7), Range(9, 9)]) == [1, 2, 3, 5, 6, 7, 9]
  {
    Expand3(Range(1, 3), Range(5, 7), Range(9, 9));
    assert Span(1, 3) == [1, 2, 3] && Span(5, 7) == [5, 6, 7] && Span(9, 9) == [9];
  }

  lemma ConsecutiveRunsRender()
    ensures Render([Range(1, 3), Range(5, 7), Range(9, 9)]) == "1-3, 5-7, 9"
  {
    Render3(Range(1, 3), Range(5, 7), Range(9, 9));
    assert RangeText(Range(1, 3)) == "1-3" && RangeText(Range(5, 7)) == "5-7" && RangeText(Range(9, 9)) == "9";
  }

  lemma ConsecutiveRunsShape()
    ensures Sorted([1, 2, 3, 5, 6, 7, 9])
    ensures WellFormed([Range(1, 3), Range(5, 7), Range(9, 9)]) && Separated([Range(1, 3), Range(5, 7), Range(9, 9)])
  {
  }

  lemma ConsecutiveRuns()
    ensures Summary([1, 2, 3, 5, 6, 7, 9]) == "1-3, 5-7, 9"
  {
    ConsecutiveRunsShape();
    ConsecutiveRunsExpand();
    ConsecutiveRunsRender();
    SummaryIs([1, 2, 3, 5, 6, 7, 9], [1, 2, 3, 5, 6, 7, 9], [Range(1, 3), Range(5, 7), Range(9, 9)], "1-3, 5-7, 9");
  }

  // 1, 3, 5, 7

  lemma NonConsecutiveExpand()
    ensures Expand([Range(1, 1), Range(3, 3), Range(5, 5), Range(7, 7)]) == [1, 3, 5, 7]
  {
    Expand4(Range(1, 1), Range(3, 3), Range(5, 5), Range(7, 7));
    assert Span(1, 1) == [1] && Span(3, 3) == [3] && Span(5, 5) == [5] && Span(7, 7) == [7];
  }

  lemma NonConsecutiveRender()
    ensures Render([Range(1, 1), Range(3, 3), Range(5, 5), Range(7, 7)]) == "1, 3, 5, 7"
  {
    Render4(Range(1, 1), Range(3, 3), Range(5, 5), Range(7, 7));
    assert RangeText(Range(1, 1)) == "1" && RangeText(Range(3, 3)) == "3";
    assert RangeText(Range(5, 5)) == "5" && RangeText(Range(7, 7)) == "7";
  }

  lemma NonConsecutiveShape()
    ensures Sorted([1, 3, 5, 7])
    ensures WellFormed([Range(1, 1), Range(3, 3), Range(5, 5), Range(7, 7)]) && Separated([Range(1, 1), Range(3, 3), Range(5, 5), Range(7, 7)])
  {
  }

  lemma NonConsecutive()
    ensures Summary([1, 3, 5, 7]) == "1, 3, 5, 7"
  {
    NonConsecutiveShape();
    NonConsecutiveExpand();
    NonConsecutiveRender();
    SummaryIs([1, 3, 5, 7], [1, 3, 5, 7], [Range(1, 1), Range(3, 3), Range(5, 5), Range(7, 7)], "1, 3, 5, 7");
  }

  // -8, -6, -3, -2

  lemma NegativeExpand()
    ensures Expand([Range(-8, -8), Range(-6, -6), Range(-3, -2)]) == [-8, -6, -3, -2]
  {
    Expand3(Range(-8, -8), Range(-6, -6), Range(-3, -2));
    assert Span(-8, -8) == [-8] && Span(-6, -6) == [-6] && Span(-3, -2) == [-3, -2];
  }

  lemma NegativeRender()
    ensures Render([Range(-8, -8), Range(-6, -6), Range(-3, -2)]) == "-8, -6, -3--2"
  {
    Render3(Range(-8, -8), Range(-6, -6), Range(-3, -2));
    assert RangeText(Range(-8, -8)) == "-8" && RangeText(Range(-6, -6)) == "-6";
    assert RangeText(Range(-3, -2)) == "-3--2";
  }

  lemma NegativeShape()
    ensures Sorted([-8, -6, -3, -2])
    ensures WellFormed([Range(-8, -8), Range(-6, -6), Range(-3, -2)]) && Separated([Range(-8, -8), Range(-6, -6), Range(-3, -2)])
  {
  }

  lemma Negative()
    ensures Summary([-8, -6, -3, -2]) == "-8, -6, -3--2"
  {
    NegativeShape();
    NegativeExpand();
    NegativeRender();
    SummaryIs([-8, -6, -3, -2], [-8, -6, -3, -2], [Range(-8, -8), Range(-6, -6), Range(-3, -2)], "-8, -6, -3--2");
  }

  // 1, 2, 4, 5, 7, 9

  lemma MixedRunsExpand()
    ensures Expand([Range(1, 2), Range(4, 5), Range(7, 7), Range(9, 9)]) == [1, 2, 4, 5, 7, 9]
  {
    Expand4(Range(1, 2), Range(4, 5), Range(7, 7), Range(9, 9));
    assert Span(1, 2) == [1, 2] && Span(4, 5) == [4, 5] && Span(7, 7) == [7] && Span(9, 9) == [9];
  }

  lemma MixedRunsRender()
    ensures Render([Range(1, 2), Range(4, 5), Range(7, 7), Range(9, 9)]) == "1-2, 4-5, 7, 9"
  {
    Render4(Range(1, 2), Range(4, 5), Range(7, 7), Range(9, 9));
    assert RangeText(Range(1, 2)) == "1-2" && RangeText(Range(4, 5)) == "4-5";
    assert RangeText(Range(7, 7)) == "7" && RangeText(Range(9, 9)) == "9";
  }

  lemma MixedRunsShape()
    ensures Sorted([1, 2, 4, 5, 7, 9])
    ensures WellFormed([Range(1, 2), Range(4, 5), Range(7, 7), Range(9, 9)]) && Separated([Range(1, 2), Range(4, 5), Range(7, 7), Range(9, 9)])
  {
  }

  lemma MixedRuns()
    ensures Summary([1, 2, 4, 5, 7, 9]) == "1-2, 4-5, 7, 9"
  {
    MixedRunsShape();
    MixedRunsExpand();
    MixedRunsRender();
    SummaryIs([1, 2, 4, 5, 7, 9], [1, 2, 4, 5, 7, 9], [Range(1, 2), Range(4, 5), Range(7, 7), Range(9, 9)], "1-2, 4-5, 7, 9");
  }

  // -3, -2, 0, 4, 5, 7, 9

  lemma MixedSignsExpand()
    ensures Expand([Range(-3, -2), Range(0, 0), Range(4, 5), Range(7, 7), Range(9, 9)]) == [-3, -2, 0, 4, 5, 7, 9]
  {
    Expand5(Range(-3, -2), Range(0, 0), Range(4, 5), Range(7, 7), Range(9, 9));
    assert Span(-3, -2) == [-3, -2] && Span(0, 0) == [0] && Span(4, 5) == [4, 5];
    assert Span(7, 7) == [7] && Span(9, 9) == [9];
  }

  lemma MixedSignsRender()
    ensures Render([Range(-3, -2), Range(0, 0), Range(4, 5), Range(7, 7), Range(9, 9)]) == "-3--2, 0, 4-5, 7, 9"
  {
    Render5(Range(-3, -2), Range(0, 0), Range(4, 5), Range(7, 7), Range(9, 9));
    MixedSignsTexts();
  }

  lemma MixedSignsTexts()
    ensures RangeText(Range(-3, -2)) == "-3--2" && RangeText(Range(0, 0)) == "0"
    ensures RangeText(Range(4, 5)) == "4-5"
    ensures RangeText(Range(7, 7)) == "7" && RangeText(Range(9, 9)) == "9"
  {
  }

  lemma MixedSignsShape()
    ensures Sorted([-3, -2, 0, 4, 5, 7, 9])
    ensures WellFormed([Range(-3, -2), Range(0, 0), Range(4, 5), Range(7, 7), Range(9, 9)])
    ensures Separated([Range(-3, -2), Range(0, 0), Range(4, 5), Range(7, 7), Range(9, 9)])
  {
  }

  lemma MixedSigns()
    ensures Summary([-3, -2, 0, 4, 5, 7, 9]) == "-3--2, 0, 4-5, 7, 9"
  {
    MixedSignsShape();
    MixedSignsExpand();
    MixedSignsRender();
    SummaryIs([-3, -2, 0, 4, 5, 7, 9], [-3, -2, 0, 4, 5, 7, 9],
              [Range(-3, -2), Range(0, 0), Range(4, 5), Range(7, 7), Range(9, 9)], "-3--2, 0, 4-5, 7, 9");
  }

  // 1, 1, 2: duplicates are not removed; the repeated value closes the run

  lemma RepeatedValueExpand()
    ensures Expand([Range(1, 1), Range(1, 2)]) == [1, 1, 2]
  {
    assert [Range(1, 1), Range(1, 2)][1..] == [Range(1, 2)] && [Range(1, 2)][1..] == [];
    assert Span(1, 1) == [1] && Span(1, 2) == [1, 2];
    assert Expand([Range(1, 2)]) == [1, 2] + [];
  }

  lemma RepeatedValueRender()
    ensures Render([Range(1, 1), Range(1, 2)]) == "1, 1-2"
  {
    assert [Range(1, 1), Range(1, 2)][1..] == [Range(1, 2)];
    assert RangeText(Range(1, 1)) == "1" && RangeText(Range(1, 2)) == "1-2";
  }

  lemma RepeatedValueShape()
    ensures Sorted([1, 1, 2])
    ensures WellFormed([Range(1, 1), Range(1, 2)]) && Separated([Range(1, 1), Range(1, 2)])
  {
  }

  /** A repeated value is written again: the summary of [1, 1, 2] is "1, 1-2". */
  lemma RepeatedValue()
    ensures Summary([1, 1, 2]) == "1, 1-2"
  {
    RepeatedValueShape();
    RepeatedValueExpand();
    RepeatedValueRender();
    SummaryIs([1, 1, 2], [1, 1, 2], [Range(1, 1), Range(1, 2)], "1, 1-2");
  }

  // 9, -3, -2, 6, 5, 12

  lemma UnsortedExpand()
    ensures Expand([Range(-3, -2), Range(5, 6), Range(9, 9), Range(12, 12)]) == [-3, -2, 5, 6, 9, 12]
  {
    Expand4(Range(-3, -2), Range(5, 6), Range(9, 9), Range(12, 12));
    assert Span(-3, -2) == [-3, -2] && Span(5, 6) == [5, 6] && Span(9, 9) == [9] && Span(12, 12) == [12];
  }

  lemma UnsortedRender()
    ensures Render([Range(-3, -2), Range(5, 6), Range(9, 9), Range(12, 12)]) == "-3--2, 5-6, 9, 12"
  {
    Render4(Range(-3, -2), Range(5, 6), Range(9, 9), Range(12, 12));
    assert RangeText(Range(-3, -2)) == "-3--2" && RangeText(Range(5, 6)) == "5-6";
    assert RangeText(Range(9, 9)) == "9";
    assert RangeText(Range(12, 12)) == "12" by {
      assert Decimal.NatToString(12) == Decimal.NatToString(1) + [Decimal.DigitChar(2)];
    }
  }

  lemma UnsortedPermutation()
    ensures multiset([9, -3, -2, 6, 5, 12]) == multiset([-3, -2, 5, 6, 9, 12])
  {
  }

  lemma UnsortedShape()
    ensures Sorted([-3, -2, 5, 6, 9, 12])
    ensures WellFormed([Range(-3, -2), Range(5, 6), Range(9, 9), Range(12, 12)]) && Separated([Range(-3, -2), Range(5, 6), Range(9, 9), Range(12, 12)])
  {
  }

  /** Unsorted input is summarised in ascending order. */
  lemma Unsorted()
    ensures Summary([9, -3, -2, 6, 5, 12]) == "-3--2, 5-6, 9, 12"
  {
    UnsortedPermutation();
    UnsortedShape();
    UnsortedExpand();
    UnsortedRender();
    SummaryIs([9, -3, -2, 6, 5, 12], [-3, -2, 5, 6, 9, 12],
              [Range(-3, -2), Range(5, 6), Range(9, 9), Range(12, 12)], "-3--2, 5-6, 9, 12");
  }
}
