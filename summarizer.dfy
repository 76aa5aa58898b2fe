/** `CollectNumbers.summarizeCollection`: sort a copy of the collection, group it into
    runs of consecutive integers and write each run as "a" or "a-b", joined by ", ". */
module Summarizer {
  import opened Wrappers
  import opened Decimal
  import opened Sequences
  import opened Sorting

  /** A run of consecutive integers `first, first + 1, ..., last`. */
  datatype Range = Range(first: int, last: int)

  /** The integers from `a` to `b`, both included. */
  function Span(a: int, b: int): (s: seq<int>)
    ensures |s| == if a <= b then b - a + 1 else 0
    decreases b - a
  {
    if a > b then [] else [a] + Span(a + 1, b)
  }

  lemma {:induction false} SpanIndex(a: int, b: int)
    ensures forall i :: 0 <= i < |Span(a, b)| ==> Span(a, b)[i] == a + i
    decreases b - a
  {
    if a <= b {
      SpanIndex(a + 1, b);
      assert forall i :: 0 < i < |Span(a, b)| ==> Span(a, b)[i] == Span(a + 1, b)[i - 1];
    }
  }

  predicate WellFormed(rs: seq<Range>) {
    forall i :: 0 <= i < |rs| ==> rs[i].first <= rs[i].last
  }

  /** No range ends just below the next one's start: neighbouring ranges cannot be joined. */
  predicate Separated(rs: seq<Range>) {
    forall i :: 0 <= i < |rs| - 1 ==> rs[i].last + 1 != rs[i + 1].first
  }

  /** The integers the ranges stand for, range by range. */
  function Expand(rs: seq<Range>): seq<int> {
    if rs == [] then [] else Span(rs[0].first, rs[0].last) + Expand(rs[1..])
  }

  /** Puts `r` in front of `rs`, merged with the first range of `rs` when that one continues it. */
  function Attach(r: Range, rs: seq<Range>): seq<Range> {
    if rs != [] && rs[0].first == r.last + 1 then [Range(r.first, rs[0].last)] + rs[1..] else [r] + rs
  }

  lemma AttachValue(x: int, rs: seq<Range>)
    requires WellFormed(rs) && Separated(rs)
    ensures WellFormed(Attach(Range(x, x), rs)) && Separated(Attach(Range(x, x), rs))
    ensures Expand(Attach(Range(x, x), rs)) == [x] + Expand(rs)
  {
    var r := Attach(Range(x, x), rs);
    if rs != [] && rs[0].first == x + 1 {
      assert r[1..] == rs[1..];
      assert Span(x, rs[0].last) == [x] + Span(x + 1, rs[0].last);
      assert Separated(r) by {
        forall i | 0 <= i < |r| - 1 ensures r[i].last + 1 != r[i + 1].first {
          assert r[i + 1] == rs[i + 1];
          if i > 0 { assert r[i] == rs[i]; }
        }
      }
    } else {
      assert r[1..] == rs;
    }
  }

  /** The runs of `s` in order: each value starts a new run unless it is one below the
      value after it. On sorted input these are the maximal runs of consecutive integers. */
  function Group(s: seq<int>): seq<Range> {
    if s == [] then [] else Attach(Range(s[0], s[0]), Group(s[1..]))
  }

  /** The runs are well formed, cannot be joined, and stand for exactly the values of `s`, in order. */
  lemma {:induction false} GroupSpec(s: seq<int>)
    ensures WellFormed(Group(s)) && Separated(Group(s))
    ensures Expand(Group(s)) == s
  {
    if s != [] {
      GroupSpec(s[1..]);
      AttachValue(s[0], Group(s[1..]));
      assert s == [s[0]] + s[1..];
    }
  }

  /** The runs are determined by the values: any well-formed, separated ranges that
      expand to `s` are `Group(s)`. */
  lemma {:induction false} GroupUnique(s: seq<int>, rs: seq<Range>)
    requires WellFormed(rs) && Separated(rs)
    requires Expand(rs) == s
    ensures rs == Group(s)
    decreases |s|
  {
    if rs != [] {
      var a, b := rs[0].first, rs[0].last;
      var shorter := DropFirst(rs);
      DropFirstRuns(rs);
      DropFirstExpand(rs);
      assert s[0] == a && s[1..] == Expand(shorter);
      GroupUnique(s[1..], shorter);
      assert Group(s) == Attach(Range(a, a), shorter);
      if a == b {
        assert shorter != [] ==> shorter[0].first != a + 1 by {
          if shorter != [] { assert shorter[0] == rs[1]; }
        }
        assert [rs[0]] + shorter == rs;
      } else {
        assert shorter[1..] == rs[1..];
        assert [Range(a, b)] + rs[1..] == rs;
      }
    }
  }

  /** The ranges left when the first value is taken off. */
  function DropFirst(rs: seq<Range>): seq<Range>
    requires rs != []
  {
    var a, b := rs[0].first, rs[0].last;
    if a == b then rs[1..] else [Range(a + 1, b)] + rs[1..]
  }

  lemma SeparatedTail(rs: seq<Range>)
    requires rs != [] && Separated(rs)
    ensures Separated(rs[1..])
  {
    var tail := rs[1..];
    forall i | 0 <= i < |tail| - 1 ensures tail[i].last + 1 != tail[i + 1].first {
      assert tail[i] == rs[i + 1] && tail[i + 1] == rs[i + 2];
    }
  }

  /** Taking the first value off well-formed, separated ranges leaves well-formed, separated ranges. */
  lemma DropFirstRuns(rs: seq<Range>)
    requires rs != [] && WellFormed(rs) && Separated(rs)
    ensures WellFormed(DropFirst(rs)) && Separated(DropFirst(rs))
  {
    var a, b := rs[0].first, rs[0].last;
    if a == b {
      SeparatedTail(rs);
    } else {
      var shorter := [Range(a + 1, b)] + rs[1..];
      forall i | 0 <= i < |shorter| - 1 ensures shorter[i].last + 1 != shorter[i + 1].first {
        assert shorter[i + 1] == rs[i + 1];
        if i > 0 { assert shorter[i] == rs[i]; }
      }
      forall i | 0 <= i < |shorter| ensures shorter[i].first <= shorter[i].last {
        if i > 0 { assert shorter[i] == rs[i]; }
      }
    }
  }

  /** The first value of the ranges, then the values of what is left. */
  lemma DropFirstExpand(rs: seq<Range>)
    requires rs != [] && rs[0].first <= rs[0].last
    ensures Expand(rs) == [rs[0].first] + Expand(DropFirst(rs))
  {
    if rs[0].first == rs[0].last { DropSingle(rs); } else { DropRun(rs); }
  }

  lemma DropSingle(rs: seq<Range>)
    requires rs != [] && rs[0].first == rs[0].last
    ensures Expand(rs) == [rs[0].first] + Expand(DropFirst(rs))
  {
    assert DropFirst(rs) == rs[1..];
    SpanSingle(rs[0].first, Expand(rs[1..]));
  }

  lemma DropRun(rs: seq<Range>)
    requires rs != [] && rs[0].first < rs[0].last
    ensures Expand(rs) == [rs[0].first] + Expand(DropFirst(rs))
  {
    var a, b, tail := rs[0].first, rs[0].last, rs[1..];
    assert DropFirst(rs) == [Range(a + 1, b)] + tail;
    SpanSplit(a, b, Expand(tail));
    ExpandCons(Range(a + 1, b), tail);
  }

  lemma SpanSingle(a: int, e: seq<int>)
    ensures Span(a, a) + e == [a] + e
  {
    assert Span(a, a) == [a];
  }

  lemma SpanSplit(a: int, b: int, e: seq<int>)
    requires a < b
    ensures Span(a, b) + e == [a] + (Span(a + 1, b) + e)
  {
    SpanCons(a, b);
    Associate([a], Span(a + 1, b), e);
  }

  lemma ExpandCons(r: Range, rs: seq<Range>)
    ensures Expand([r] + rs) == Span(r.first, r.last) + Expand(rs)
  {
    assert ([r] + rs)[1..] == rs;
  }

  lemma SpanCons(a: int, b: int)
    requires a <= b
    ensures Span(a, b) == [a] + Span(a + 1, b)
    ensures a == b ==> Span(a + 1, b) == []
  {
  }

  predicate StrictlyIncreasing(s: seq<int>) {
    forall i, j :: 0 <= i < j < |s| ==> s[i] < s[j]
  }

  /** At least one missing integer lies between each range and the next. */
  predicate Gapped(rs: seq<Range>) {
    forall i :: 0 <= i < |rs| - 1 ==> rs[i].last + 1 < rs[i + 1].first
  }

  /** On sorted input without duplicates the runs ascend and a gap of at least one
      missing integer lies between neighbouring runs: no run can be extended. */
  lemma {:induction false} GroupGaps(s: seq<int>)
    requires StrictlyIncreasing(s)
    ensures Gapped(Group(s))
  {
    if s != [] {
      var tail := Group(s[1..]);
      GroupGaps(s[1..]);
      GroupSpec(s[1..]);
      var rs := Group(s);
      assert rs == Attach(Range(s[0], s[0]), tail);
      if tail != [] && tail[0].first == s[0] + 1 {
        assert rs == [Range(s[0], tail[0].last)] + tail[1..];
        forall i | 0 <= i < |rs| - 1 ensures rs[i].last + 1 < rs[i + 1].first {
          assert rs[i + 1] == tail[i + 1];
          assert rs[i].last == tail[i].last;
        }
      } else if tail != [] {
        assert rs == [Range(s[0], s[0])] + tail;
        assert tail[0].first == s[1] by {
          assert Expand(tail) == Span(tail[0].first, tail[0].last) + Expand(tail[1..]);
          assert Expand(tail)[0] == s[1..][0];
        }
        assert s[0] < s[1];
        forall i | 0 <= i < |rs| - 1 ensures rs[i].last + 1 < rs[i + 1].first {
          assert rs[i + 1] == tail[i];
          if i > 0 { assert rs[i] == tail[i - 1]; }
        }
      }
    }
  }

  // ---------------------------------------------------------------------------
  // Text

  /** One run: "a" for a single value, "a-b" otherwise (so -3 to -2 is "-3--2"). */
  function RangeText(r: Range): string {
    if r.first == r.last then IntToString(r.first)
    else IntToString(r.first) + "-" + IntToString(r.last)
  }

  /** The runs joined by ", ". */
  function Render(rs: seq<Range>): string {
    if rs == [] then ""
    else if |rs| == 1 then RangeText(rs[0])
    else RangeText(rs[0]) + ", " + Render(rs[1..])
  }

  /** What `summarizeCollection` returns for a collection whose elements are `s`. */
  function Summary(s: seq<int>): string {
    Render(Group(SortSeq(s)))
  }

  /** Runs already closed by the loop, each followed by ", ". */
  function ClosedText(rs: seq<Range>): string {
    if rs == [] then "" else RangeText(rs[0]) + ", " + ClosedText(rs[1..])
  }

  lemma {:induction false} ClosedTextSnoc(rs: seq<Range>, r: Range)
    ensures ClosedText(rs + [r]) == ClosedText(rs) + (RangeText(r) + ", ")
  {
    if rs == [] {
      assert rs + [r] == [r] && [r][1..] == [];
    } else {
      var head := RangeText(rs[0]) + ", ";
      SnocSplit(rs, r);
      ClosedTextSnoc(rs[1..], r);
      Associate(head, ClosedText(rs[1..]), RangeText(r) + ", ");
    }
  }

  lemma {:induction false} RenderSnoc(rs: seq<Range>, r: Range)
    ensures ClosedText(rs) + RangeText(r) == Render(rs + [r])
  {
    if rs == [] {
      assert [] + [r] == [r];
    } else {
      assert (rs + [r])[1..] == rs[1..] + [r];
      RenderSnoc(rs[1..], r);
    }
  }

  // ---------------------------------------------------------------------------
  // Reading a summary back

  /** One run at the front of `s`: a numeral, optionally followed by "-" and a second numeral. */
  function ParseRange(s: string): (r: Option<(Range, string)>)
    ensures r.Some? ==> |r.value.1| < |s|
  {
    match ParseIntPrefix(s)
    case None => None
    case Some((a, t)) =>
      if t != [] && t[0] == '-' then
        match ParseIntPrefix(t[1..])
        case None => None
        case Some((b, u)) => Some((Range(a, b), u))
      else Some((Range(a, a), t))
  }

  /** One or more runs separated by ", ", and nothing after them. */
  function ParseRanges(s: string): Option<seq<Range>>
    decreases |s|
  {
    match ParseRange(s)
    case None => None
    case Some((r, t)) =>
      if t == [] then Some([r])
      else if |t| >= 2 && t[0] == ',' && t[1] == ' ' then
        match ParseRanges(t[2..])
        case None => None
        case Some(rs) => Some([r] + rs)
      else None
  }

  /** Reads a summary: "" is no runs. */
  function ParseSummary(s: string): Option<seq<Range>> {
    if s == [] then Some([]) else ParseRanges(s)
  }

  lemma ParseRangeText(r: Range, t: string)
    requires t == [] || t[0] == ','
    ensures ParseRange(RangeText(r) + t) == Some((r, t))
  {
    if r.first == r.last {
      ParseIntToString(r.first, t);
    } else {
      ParsePairText(r.first, r.last, t);
    }
  }

  lemma ParsePairText(a: int, b: int, t: string)
    requires t == [] || t[0] == ','
    ensures ParseRange(IntToString(a) + "-" + IntToString(b) + t) == Some((Range(a, b), t))
  {
    ParseIntToString(a, "-" + IntToString(b) + t);
    ParseIntToString(b, t);
    ParsePairStrings(IntToString(a), IntToString(b), t, a, b);
  }

  lemma ParsePairStrings(x: string, y: string, t: string, a: int, b: int)
    requires ParseIntPrefix(x + ("-" + y + t)) == Some((a, "-" + y + t))
    requires ParseIntPrefix(y + t) == Some((b, t))
    ensures ParseRange(x + "-" + y + t) == Some((Range(a, b), t))
  {
    DashSplit(x, y, t);
    ParseRangePair(x + ("-" + y + t), a, "-" + y + t, b, t);
  }

  lemma ParseRangePair(s: string, a: int, t: string, b: int, u: string)
    requires ParseIntPrefix(s) == Some((a, t)) && t != [] && t[0] == '-'
    requires ParseIntPrefix(t[1..]) == Some((b, u))
    ensures ParseRange(s) == Some((Range(a, b), u))
  {
  }

  /** Rendering is undone by reading back: every list of runs survives the round trip. */
  lemma {:induction false} ParseRender(rs: seq<Range>)
    ensures ParseSummary(Render(rs)) == Some(rs)
  {
    if rs != [] {
      ParseRangesRender(rs);
      assert RangeText(rs[0]) != [];
    }
  }

  lemma {:induction false} ParseRangesRender(rs: seq<Range>)
    requires rs != []
    ensures ParseRanges(Render(rs)) == Some(rs)
  {
    HeadTail(rs);
    if |rs| == 1 {
      ParseRangeText(rs[0], []);
      AppendEmpty(RangeText(rs[0]));
      ParseRangesLast(Render(rs), rs[0]);
    } else {
      var t := ", " + Render(rs[1..]);
      CommaSplit(RangeText(rs[0]), Render(rs[1..]));
      ParseRangeText(rs[0], t);
      ParseRangesRender(rs[1..]);
      ParseRangesNext(Render(rs), rs[0], t, rs[1..]);
    }
  }

  lemma ParseRangesLast(s: string, r: Range)
    requires ParseRange(s) == Some((r, []))
    ensures ParseRanges(s) == Some([r])
  {
  }

  lemma ParseRangesNext(s: string, r: Range, t: string, rs: seq<Range>)
    requires ParseRange(s) == Some((r, t))
    requires |t| >= 2 && t[0] == ',' && t[1] == ' '
    requires ParseRanges(t[2..]) == Some(rs)
    ensures ParseRanges(s) == Some([r] + rs)
  {
  }

  // ---------------------------------------------------------------------------
  // How rendered text splits at a separator

  lemma DashSplit(x: string, y: string, t: string)
    ensures x + "-" + y + t == x + ("-" + y + t)
    ensures ("-" + y + t)[1..] == y + t
  {
  }

  lemma CommaSplit(x: string, y: string)
    ensures x + ", " + y == x + (", " + y)
    ensures (", " + y)[2..] == y
  {
  }

  // ---------------------------------------------------------------------------
  // summarizeCollection

  /** The first value of a sequence joins the runs of the rest. */
  lemma GroupFrom(s: seq<int>, i: nat)
    requires i < |s|
    ensures Group(s[i..]) == Attach(Range(s[i], s[i]), Group(s[i + 1..]))
  {
    assert s[i..][1..] == s[i + 1..];
  }

  /** A value one above the end of the open run extends it. */
  lemma AttachExtends(a: int, b: int, rs: seq<Range>)
    ensures Attach(Range(a, b), Attach(Range(b + 1, b + 1), rs)) == Attach(Range(a, b + 1), rs)
  {
  }

  /** Any other value closes the open run, which joins the runs already closed. */
  lemma AttachCloses(closed: seq<Range>, a: int, b: int, c: int, rs: seq<Range>)
    requires c != b + 1
    ensures closed + Attach(Range(a, b), Attach(Range(c, c), rs))
         == (closed + [Range(a, b)]) + Attach(Range(c, c), rs)
  {
    assert Attach(Range(a, b), Attach(Range(c, c), rs)) == [Range(a, b)] + Attach(Range(c, c), rs);
  }

  /** One step of the loop: the value at `i` either extends the open run `start..end`
      or closes it and opens a new one; either way the closed runs, the open run and
      the runs of what is left still make up the runs of the whole input. */
  lemma LoopStep(sorted: seq<int>, i: nat, closed: seq<Range>, start: int, end: int)
    requires i < |sorted|
    requires closed + Attach(Range(start, end), Group(sorted[i..])) == Group(sorted)
    ensures sorted[i] == end + 1 ==>
              closed + Attach(Range(start, sorted[i]), Group(sorted[i + 1..])) == Group(sorted)
    ensures sorted[i] != end + 1 ==>
              (closed + [Range(start, end)]) + Attach(Range(sorted[i], sorted[i]), Group(sorted[i + 1..])) == Group(sorted)
  {
    var rest := Group(sorted[i + 1..]);
    GroupFrom(sorted, i);
    if sorted[i] == end + 1 {
      AttachExtends(start, end, rest);
    } else {
      AttachCloses(closed, start, end, sorted[i], rest);
    }
  }

  /** Closing a run appends its text and ", " to what the loop has written. */
  lemma CloseText(closed: seq<Range>, start: int, end: int)
    ensures ClosedText(closed + [Range(start, end)])
         == ClosedText(closed) + (if start == end then IntToString(start) + ", "
                                   else IntToString(start) + "-" + IntToString(end) + ", ")
  {
    ClosedTextSnoc(closed, Range(start, end));
  }

  /** After the loop the open run is the last one, and its text ends the summary. */
  lemma LoopDone(input: seq<int>, sorted: seq<int>, closed: seq<Range>, start: int, end: int)
    requires sorted == SortSeq(input)
    requires closed + Attach(Range(start, end), Group(sorted[|sorted|..])) == Group(sorted)
    ensures Summary(input)
         == ClosedText(closed) + (if start == end then IntToString(start)
                                   else IntToString(start) + "-" + IntToString(end))
  {
    assert sorted[|sorted|..] == [];
    assert closed + [Range(start, end)] == Group(sorted);
    RenderSnoc(closed, Range(start, end));
  }

  /** `new ArrayList<>(input)` followed by `Collections.sort`: a fresh array holding
      the ascending arrangement of the input. */
  method SortedCopy(input: seq<int>) returns (list: array<int>)
    ensures fresh(list)
    ensures list[..] == SortSeq(input)
  {
    list := new int[|input|](i requires 0 <= i < |input| => input[i]);
    assert list[..] == input;
    SortInPlace(list);
    SortedUnique(list[..], SortSeq(input));
  }

  /** The loop of `summarizeCollection` over a sorted copy of the input. */
  method SummarizeCollection(input: seq<int>) returns (ranges: string)
    ensures ranges == Summary(input)
  {
    if |input| == 0 {
      return "";
    }
    var list := SortedCopy(input);
    ghost var sorted := list[..];

    ranges := "";
    var start := list[0];
    var end := start;
    ghost var closed: seq<Range> := [];
    GroupFrom(sorted, 0);
    assert sorted[0..] == sorted;
    for i := 1 to list.Length
      invariant list[..] == sorted
      invariant closed + Attach(Range(start, end), Group(sorted[i..])) == Group(sorted)
      invariant ranges == ClosedText(closed)
    {
      var current := list[i];
      LoopStep(sorted, i, closed, start, end);
      if end + 1 == current {
        end := current;
        continue;
      }
      CloseText(closed, start, end);
      if start == end {
        ranges := ranges + (IntToString(start) + ", ");
      } else {
        ranges := ranges + (IntToString(start) + "-" + IntToString(end) + ", ");
      }
      closed := closed + [Range(start, end)];
      start := current;
      end := current;
    }
    LoopDone(input, sorted, closed, start, end);
    if start == end {
      ranges := ranges + IntToString(start);
    } else {
      ranges := ranges + (IntToString(start) + "-" + IntToString(end));
    }
  }
}

/** What `summarizeCollection` promises, stated over the text it returns. */
module SummarizerProperties {
  import opened Wrappers
  import opened Decimal
  import opened Sequences
  import opened Sorting
  import opened Summarizer

  lemma RenderNonEmpty(rs: seq<Range>)
    requires rs != []
    ensures Render(rs) != []
  {
    assert IntToString(rs[0].first) != [];
    assert RangeText(rs[0]) != [];
  }

  /** The summary is "" exactly for an empty collection. */
  lemma SummaryEmptyIff(s: seq<int>)
    ensures Summary(s) == "" <==> s == []
  {
    var sorted := SortSeq(s);
    GroupSpec(sorted);
    if s != [] {
      assert |sorted| == |multiset(sorted)| == |multiset(s)| == |s|;
      assert Group(sorted) != [];
      RenderNonEmpty(Group(sorted));
    }
  }

  /** Reading the summary back gives runs that are well formed and cannot be joined,
      and expanding them gives the input in ascending order, duplicates included. */
  lemma SummaryRoundTrip(s: seq<int>)
    ensures ParseSummary(Summary(s)).Some?
    ensures var rs := ParseSummary(Summary(s)).value;
            WellFormed(rs) && Separated(rs) && Expand(rs) == SortSeq(s)
  {
    ParseRender(Group(SortSeq(s)));
    GroupSpec(SortSeq(s));
  }

  /** The summary is the rendering of any well-formed, unjoinable runs that expand to the
      input in ascending order: the runs need not be computed the way the loop does. */
  lemma SummaryFromRuns(s: seq<int>, t: seq<int>, rs: seq<Range>)
    requires Sorted(t) && multiset(t) == multiset(s)
    requires WellFormed(rs) && Separated(rs) && Expand(rs) == t
    ensures Summary(s) == Render(rs)
  {
    SortedUnique(t, SortSeq(s));
    GroupUnique(t, rs);
  }

  /** The summary depends only on which values occur how often, not on their order. */
  lemma SummaryOrderIndependent(s: seq<int>, t: seq<int>)
    requires multiset(s) == multiset(t)
    ensures Summary(s) == Summary(t)
  {
    SortSeqPermutation(s, t);
  }

  /** Without duplicates, the runs read back ascend with a gap between neighbours (each
      is maximal), and expanding them lists every value of the input once, ascending. */
  lemma SummaryOfDistinct(s: seq<int>)
    requires NoDuplicates(s)
    ensures ParseSummary(Summary(s)).Some?
    ensures var rs := ParseSummary(Summary(s)).value;
            && WellFormed(rs) && Gapped(rs)
            && StrictlyIncreasing(Expand(rs))
            && multiset(Expand(rs)) == multiset(s)
  {
    var t := SortSeq(s);
    var rs := Group(t);
    assert ParseSummary(Summary(s)) == Some(rs) by {
      ParseRender(rs);
    }
    assert StrictlyIncreasing(t) by {
      NoDuplicatesPermutation(s, t);
    }
    GroupGaps(t);
    GroupSpec(t);
  }
}
