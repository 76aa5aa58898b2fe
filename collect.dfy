/** `CollectNumbers.collect`: strip whitespace, check the text against the pattern
    `-?\d+(,-?\d+)*`, split it on commas, parse each field as an `int` and keep the
    first occurrence of each value. */
module Collector {
  import opened Wrappers
  import opened Decimal
  import opened Sequences

  /** The message of the `IllegalArgumentException` thrown for text that does not match. */
  const PatternMessage: string := "The input doesn't match the expected pattern."

  /** What `collect` throws: `IllegalArgumentException` with its message, or the
      `NumberFormatException` of `Integer.parseInt` for a field outside the `int` range.
      In Java the second is a subclass of the first; the two are kept apart here
      because they differ in class and message. */
  datatype Error = IllegalArgument(message: string) | NumberFormat(field: string)

  // ---------------------------------------------------------------------------
  // Whitespace removal: `replaceAll("\\s", "")`

  /** Java's `\s`: space, tab, line feed, vertical tab, form feed, carriage return. */
  predicate IsWhitespace(c: char) {
    c == ' ' || c == '\t' || c == '\n' || c == '\U{B}' || c == '\U{C}' || c == '\r'
  }

  function StripWhitespace(s: string): (r: string)
    ensures |r| <= |s|
    ensures forall i :: 0 <= i < |r| ==> !IsWhitespace(r[i])
    ensures (forall i :: 0 <= i < |s| ==> !IsWhitespace(s[i])) ==> r == s
  {
    if s == [] then []
    else (if IsWhitespace(s[0]) then [] else [s[0]]) + StripWhitespace(s[1..])
  }

  /** Removing whitespace works piece by piece, so whitespace may sit anywhere. */
  lemma {:induction false} StripAppend(a: string, b: string)
    ensures StripWhitespace(a + b) == StripWhitespace(a) + StripWhitespace(b)
  {
    if a == [] {
      assert a + b == b;
    } else {
      assert (a + b)[0] == a[0] && (a + b)[1..] == a[1..] + b;
      StripAppend(a[1..], b);
    }
  }

  // ---------------------------------------------------------------------------
  // The pattern `-?\d+(,-?\d+)*` as a finite automaton

  /** Where the recogniser is: before a field (a sign or a digit may come), after a
      minus sign (a digit must come), inside the digits of a field (the only
      accepting state), or past an error. */
  datatype State = FieldStart | AfterSign | InDigits | Rejected

  function Step(q: State, c: char): State {
    match q
    case FieldStart => if c == '-' then AfterSign else if IsDigit(c) then InDigits else Rejected
    case AfterSign => if IsDigit(c) then InDigits else Rejected
    case InDigits => if IsDigit(c) then InDigits else if c == ',' then FieldStart else Rejected
    case Rejected => Rejected
  }

  function Scan(q: State, s: string): State
    decreases |s|
  {
    if s == [] then q else Scan(Step(q, s[0]), s[1..])
  }

  /** `COMMA_SEPARATED_PATTERN.matcher(s).matches()`. */
  predicate MatchesPattern(s: string) {
    Scan(FieldStart, s) == InDigits
  }

  lemma {:induction false} ScanAppend(q: State, a: string, b: string)
    ensures Scan(q, a + b) == Scan(Scan(q, a), b)
    decreases |a|
  {
    if a == [] {
      assert a + b == b;
    } else {
      assert (a + b)[0] == a[0] && (a + b)[1..] == a[1..] + b;
      ScanAppend(Step(q, a[0]), a[1..], b);
    }
  }

  lemma {:induction false} ScanRejected(s: string)
    ensures Scan(Rejected, s) == Rejected
  {
    if s != [] {
      ScanRejected(s[1..]);
    }
  }

  /** On text without commas, the digits state survives exactly the digits. */
  lemma {:induction false} ScanDigits(s: string)
    requires ',' !in s
    ensures Scan(InDigits, s) == InDigits <==> AllDigits(s)
  {
    if s != [] {
      if IsDigit(s[0]) {
        ScanDigits(s[1..]);
        assert AllDigits(s) <==> AllDigits(s[1..]);
      } else {
        assert s[0] != ',' by { assert s[0] in s; }
        ScanRejected(s[1..]);
      }
    }
  }

  /** One comma-free field is accepted exactly when it is a numeral. */
  lemma ScanField(f: string)
    requires ',' !in f
    ensures Scan(FieldStart, f) == InDigits <==> IsNumeral(f)
  {
    if f != [] {
      var rest := f[1..];
      assert ',' !in rest by { forall c | c in rest ensures c in f { } }
      ScanDigits(rest);
      if f[0] == '-' {
        if rest != [] {
          if IsDigit(rest[0]) {
            ScanDigits(rest[1..]);
            assert AllDigits(rest) <==> AllDigits(rest[1..]);
          } else {
            ScanRejected(rest[1..]);
          }
        }
      } else if IsDigit(f[0]) {
        assert AllDigits(f) <==> AllDigits(rest);
      } else {
        ScanRejected(rest);
      }
    }
  }

  // ---------------------------------------------------------------------------
  // Fields: `input.split(",")`

  /** Fields joined back with commas. */
  function JoinFields(fs: seq<string>): string
    requires |fs| > 0
  {
    if |fs| == 1 then fs[0] else fs[0] + "," + JoinFields(fs[1..])
  }

  /** The text between commas, empty fields included. */
  function Split(s: string): (fs: seq<string>)
    ensures |fs| > 0
    ensures forall i :: 0 <= i < |fs| ==> ',' !in fs[i]
    ensures JoinFields(fs) == s
  {
    if s == [] then [[]]
    else
      var rest := Split(s[1..]);
      if s[0] == ',' then
        assert s == [] + "," + JoinFields(rest);
        [[]] + rest
      else
        var fs := [[s[0]] + rest[0]] + rest[1..];
        assert fs[1..] == rest[1..];
        assert JoinFields(fs) == s by {
          if |rest| > 1 {
            assert JoinFields(rest) == rest[0] + "," + JoinFields(rest[1..]);
          }
        }
        fs
  }

  /** Splitting undoes joining comma-free fields. */
  lemma {:induction false} SplitJoin(fs: seq<string>)
    requires |fs| > 0
    requires forall i :: 0 <= i < |fs| ==> ',' !in fs[i]
    ensures Split(JoinFields(fs)) == fs
  {
    if |fs| == 1 {
      SplitNoComma(fs[0]);
    } else {
      SplitJoin(fs[1..]);
      SplitFieldThenComma(fs[0], JoinFields(fs[1..]));
    }
  }

  lemma {:induction false} SplitNoComma(f: string)
    requires ',' !in f
    ensures Split(f) == [f]
  {
    if f != [] {
      assert ',' !in f[1..] by { forall c | c in f[1..] ensures c in f { } }
      SplitNoComma(f[1..]);
      assert f[0] in f;
    }
  }

  lemma {:induction false} SplitFieldThenComma(f: string, t: string)
    requires ',' !in f
    ensures Split(f + "," + t) == [f] + Split(t)
  {
    if f == [] {
      assert (f + "," + t)[1..] == t;
    } else {
      assert ',' !in f[1..] by { forall c | c in f[1..] ensures c in f { } }
      assert (f + "," + t)[1..] == f[1..] + "," + t;
      SplitFieldThenComma(f[1..], t);
      assert f[0] in f;
      assert [f[0]] + f[1..] == f;
    }
  }

  predicate AllNumerals(fs: seq<string>) {
    forall i :: 0 <= i < |fs| ==> IsNumeral(fs[i])
  }

  /** The recogniser agrees with the field-by-field reading of the pattern:
      text matches exactly when every comma-separated field is a numeral. */
  lemma MatchesPatternIffNumerals(s: string)
    ensures MatchesPattern(s) <==> AllNumerals(Split(s))
  {
    FieldsScan(Split(s));
  }

  lemma {:induction false} FieldsScan(fs: seq<string>)
    requires |fs| > 0
    requires forall i :: 0 <= i < |fs| ==> ',' !in fs[i]
    ensures Scan(FieldStart, JoinFields(fs)) == InDigits <==> AllNumerals(fs)
  {
    ScanField(fs[0]);
    if |fs| > 1 {
      var tail := JoinFields(fs[1..]);
      FieldsScan(fs[1..]);
      ScanAppend(FieldStart, fs[0], "," + tail);
      ScanAppend(Scan(FieldStart, fs[0]), ",", tail);
      if Scan(FieldStart, fs[0]) != InDigits {
        ScanRejected(tail);
      }
      assert fs[0] + "," + tail == fs[0] + ("," + tail);
      assert AllNumerals(fs) <==> IsNumeral(fs[0]) && AllNumerals(fs[1..]) by {
        if IsNumeral(fs[0]) && AllNumerals(fs[1..]) {
          forall i | 0 <= i < |fs| ensures IsNumeral(fs[i]) {
            if i > 0 { assert fs[i] == fs[1..][i - 1]; }
          }
        }
      }
    }
  }

  // ---------------------------------------------------------------------------
  // Parsing: `.map(Integer::parseInt)`

  /** `Integer.parseInt` on a numeral: its value, or `NumberFormatException` outside the `int` range. */
  function ParseField(f: string): (r: Result<Int32, Error>)
    requires IsNumeral(f)
    ensures r.Ok? <==> MinInt32 <= NumeralValue(f) <= MaxInt32
    ensures r.Ok? ==> r.value == NumeralValue(f)
    ensures r.Err? ==> r.error == NumberFormat(f)
  {
    var v := NumeralValue(f);
    if MinInt32 <= v <= MaxInt32 then Ok(v) else Err(NumberFormat(f))
  }

  predicate InRange(f: string)
    requires IsNumeral(f)
  {
    MinInt32 <= NumeralValue(f) <= MaxInt32
  }

  /** Parses the fields in order; the stream stops at the first field that overflows. */
  function ParseFields(fs: seq<string>): (r: Result<seq<Int32>, Error>)
    requires AllNumerals(fs)
    ensures r.Ok? <==> forall i :: 0 <= i < |fs| ==> InRange(fs[i])
    ensures r.Ok? ==> |r.value| == |fs| && forall i :: 0 <= i < |fs| ==> r.value[i] == NumeralValue(fs[i])
    ensures r.Err? ==> exists i :: 0 <= i < |fs| && !InRange(fs[i]) && r.error == NumberFormat(fs[i])
                          && forall j :: 0 <= j < i ==> InRange(fs[j])
  {
    if fs == [] then Ok([])
    else
      match ParseField(fs[0])
      case Err(e) => Err(e)
      case Ok(v) =>
        match ParseFields(fs[1..])
        case Err(e) =>
          assert forall j :: 1 <= j < |fs| ==> fs[j] == fs[1..][j - 1];
          Err(e)
        case Ok(vs) =>
          assert forall j :: 1 <= j < |fs| ==> fs[j] == fs[1..][j - 1];
          Ok([v] + vs)
  }

  // ---------------------------------------------------------------------------
  // Removing duplicates: `.distinct()`

  /** The position of the first occurrence of `x` in `xs`. */
  function FirstIndex<T(==)>(xs: seq<T>, x: T): (k: nat)
    requires x in xs
    ensures k < |xs| && xs[k] == x
    ensures forall j :: 0 <= j < k ==> xs[j] != x
  {
    if xs[0] == x then 0 else 1 + FirstIndex(xs[1..], x)
  }

  /** Keeps the first occurrence of every value, in input order. */
  function Distinct<T(==,!new)>(xs: seq<T>): (r: seq<T>)
    ensures NoDuplicates(r)
    ensures forall x :: x in r <==> x in xs
  {
    if xs == [] then []
    else
      var d := Distinct(xs[..|xs| - 1]);
      var last := xs[|xs| - 1];
      assert forall x :: x in xs <==> x in xs[..|xs| - 1] || x == last by {
        assert xs == xs[..|xs| - 1] + [last];
      }
      if last in d then d else d + [last]
  }

  /** `distinct` keeps encounter order: the values come out in the order of their
      first occurrence in the input. */
  lemma {:induction false} DistinctFirstOccurrenceOrder<T(!new)>(xs: seq<T>, i: nat, j: nat)
    requires i < j < |Distinct(xs)|
    ensures FirstIndex(xs, Distinct(xs)[i]) < FirstIndex(xs, Distinct(xs)[j])
  {
    var init := xs[..|xs| - 1];
    var last := xs[|xs| - 1];
    var d := Distinct(init);
    assert xs == init + [last];
    var a, b := Distinct(xs)[i], Distinct(xs)[j];
    if last in d {
      DistinctFirstOccurrenceOrder(init, i, j);
      FirstIndexPrefix(init, [last], a);
      FirstIndexPrefix(init, [last], b);
    } else {
      FirstIndexPrefix(init, [last], a);
      if j < |d| {
        DistinctFirstOccurrenceOrder(init, i, j);
        FirstIndexPrefix(init, [last], b);
      } else {
        assert b == last && last !in init;
        assert FirstIndex(xs, b) == |init|;
      }
    }
  }

  lemma FirstIndexPrefix<T>(p: seq<T>, q: seq<T>, x: T)
    requires x in p
    ensures FirstIndex(p + q, x) == FirstIndex(p, x)
  {
    assert (p + q)[FirstIndex(p, x)] == x;
  }

  // ---------------------------------------------------------------------------
  // collect

  /** `collect` after its guard: the text with whitespace already removed. */
  function CollectStripped(t: string): (r: Result<seq<Int32>, Error>)
  {
    if !MatchesPattern(t) then Err(IllegalArgument(PatternMessage))
    else
      MatchesPatternIffNumerals(t);
      match ParseFields(Split(t))
      case Err(e) => Err(e)
      case Ok(vs) => Ok(Distinct(vs))
  }

  /** `collect(input)`, where `None` is a `null` argument and `Err` a thrown exception. */
  function Collect(input: Option<string>): (r: Result<seq<Int32>, Error>)
    ensures input == None || input == Some("") ==> r == Ok([])
  {
    match input
    case None => Ok([])
    case Some(s) => if s == [] then Ok([]) else CollectStripped(StripWhitespace(s))
  }
}

/** What `collect` promises its callers, stated over the input text. */
module CollectorProperties {
  import opened Wrappers
  import opened Decimal
  import opened Sequences
  import opened Collector

  predicate AllWhitespace(w: string) {
    forall i :: 0 <= i < |w| ==> IsWhitespace(w[i])
  }

  /** Exactly the all-whitespace texts strip to nothing. */
  lemma {:induction false} StripAllWhitespace(w: string)
    ensures StripWhitespace(w) == [] <==> AllWhitespace(w)
  {
    if w != [] {
      StripAllWhitespace(w[1..]);
      assert AllWhitespace(w) <==> IsWhitespace(w[0]) && AllWhitespace(w[1..]) by {
        if IsWhitespace(w[0]) && AllWhitespace(w[1..]) {
          forall i | 0 <= i < |w| ensures IsWhitespace(w[i]) {
            if i > 0 { assert w[i] == w[1..][i - 1]; }
          }
        }
      }
    }
  }

  /** Whitespace inserted anywhere into non-empty input changes nothing. */
  lemma WhitespaceAnywhere(a: string, w: string, b: string)
    requires AllWhitespace(w)
    requires a + b != []
    ensures Collect(Some(a + w + b)) == Collect(Some(a + b))
  {
    StripAppend(a, w);
    StripAppend(a + w, b);
    StripAppend(a, b);
    StripAllWhitespace(w);
    assert StripWhitespace(a) + [] == StripWhitespace(a);
    assert |a + w + b| >= |a + b| > 0;
  }

  /** Non-empty input made only of whitespace strips to "" and is rejected, unlike "" itself. */
  lemma AllWhitespaceRejected(s: string)
    requires s != [] && AllWhitespace(s)
    ensures Collect(Some(s)) == Err(IllegalArgument(PatternMessage))
  {
    StripAllWhitespace(s);
  }

  /** `collect` throws `IllegalArgumentException` with the fixed message exactly when
      non-empty input, stripped of whitespace, is not a comma-separated list of numerals. */
  lemma PatternErrorIff(s: string)
    ensures Collect(Some(s)).Err? && Collect(Some(s)).error.IllegalArgument?
            <==> s != [] && !AllNumerals(Split(StripWhitespace(s)))
    ensures Collect(Some(s)).Err? && Collect(Some(s)).error.IllegalArgument?
            ==> Collect(Some(s)).error.message == PatternMessage
  {
    MatchesPatternIffNumerals(StripWhitespace(s));
  }

  /** The integer values of the fields, in input order. */
  function FieldValues(fs: seq<string>): (vs: seq<int>)
    requires AllNumerals(fs)
    ensures |vs| == |fs|
    ensures forall i :: 0 <= i < |fs| ==> vs[i] == NumeralValue(fs[i])
  {
    if fs == [] then []
    else
      assert AllNumerals(fs[1..]) by {
        forall i | 0 <= i < |fs| - 1 ensures IsNumeral(fs[1..][i]) { assert fs[1..][i] == fs[i + 1]; }
      }
      [NumeralValue(fs[0])] + FieldValues(fs[1..])
  }

  /** On success, the result has no duplicates, holds exactly the values of the fields,
      and lists them in the order in which each first occurs. */
  lemma CollectSuccess(s: string)
    requires s != []
    requires Collect(Some(s)).Ok?
    ensures AllNumerals(Split(StripWhitespace(s)))
    ensures var vs := Collect(Some(s)).value;
            var values := FieldValues(Split(StripWhitespace(s)));
            && NoDuplicates(vs)
            && (forall x :: x in vs <==> x in values)
            && (forall i, j :: 0 <= i < j < |vs| ==> FirstIndex(values, vs[i]) < FirstIndex(values, vs[j]))
  {
    var t := StripWhitespace(s);
    MatchesPatternIffNumerals(t);
    var fs := Split(t);
    var parsed := ParseFields(fs).value;
    assert parsed == FieldValues(fs);
    forall i, j | 0 <= i < j < |Distinct(parsed)|
      ensures FirstIndex(parsed, Distinct(parsed)[i]) < FirstIndex(parsed, Distinct(parsed)[j])
    {
      DistinctFirstOccurrenceOrder(parsed, i, j);
    }
  }

  /** A field outside the `int` range fails with `NumberFormatException` naming the first such field. */
  lemma NumberFormatError(s: string)
    requires s != []
    requires Collect(Some(s)).Err? && Collect(Some(s)).error.NumberFormat?
    ensures var fs := Split(StripWhitespace(s));
            && AllNumerals(fs)
            && exists i :: 0 <= i < |fs| && Collect(Some(s)).error.field == fs[i]
                           && !(MinInt32 <= NumeralValue(fs[i]) <= MaxInt32)
                           && forall j :: 0 <= j < i ==> MinInt32 <= NumeralValue(fs[j]) <= MaxInt32
  {
    MatchesPatternIffNumerals(StripWhitespace(s));
  }
}
