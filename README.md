# Number range summarizer, modelled in Dafny

The repository has one class, `CollectNumbers`, with two independent operations:

- `collect(String)` reads a comma-separated list of integers. The steps are:
  - a `null` or empty argument gives an empty list;
  - otherwise every whitespace character (`\s`: space, tab, line feed, vertical tab, form feed, carriage return) is deleted;
  - the rest must match `-?\d+(,-?\d+)*`, or `IllegalArgumentException("The input doesn't match the expected pattern.")` is thrown;
  - the fields are parsed with `Integer.parseInt`;
  - duplicates are dropped with `distinct()`, keeping each value's first occurrence.
- `summarizeCollection(Collection<Integer>)` copies its input and sorts the copy ascending. One loop then tracks the open run `start..end` and closes it whenever the next value is not `end + 1`. Each run is written `a` or `a-b` (so `-3..-2` is `-3--2`), and runs are joined by `", "`.

The model has these modules:

| file | module | role |
|---|---|---|
| `wrappers.dfy` | `Wrappers` | `Option` (`None` is a `null` argument) and `Result` (`Err` is a thrown exception) |
| `decimal.dfy` | `Decimal` | decimal numerals, `Integer.toString`, and the 32-bit range of `int` |
| `sequences.dfy` | `Sequences` | duplicate-free sequences |
| `sorting.dfy` | `Sorting` | `Collections.sort`, both as a specification (the unique sorted permutation) and as an in-place insertion sort on an array |
| `collect.dfy` | `Collector`, `CollectorProperties` | `collect`, as pure functions |
| `collect_cases.dfy` | `CollectorCases` | `collect` on joined numerals and on the unit tests' inputs |
| `summarizer.dfy` | `Summarizer`, `SummarizerProperties` | `summarizeCollection`, as a method with a loop |
| `summarizer_cases.dfy` | `SummarizerCases` | `summarizeCollection` on the unit tests' inputs |

`collect` becomes the function `Collector.Collect`. The regular expression is a four-state recogniser, `Scan`. A lemma proves it matches exactly the texts whose comma-separated fields are all numerals. `Integer.parseInt` becomes `ParseField`, which fails with `NumberFormat(field)` outside the `int` range.

`summarizeCollection` becomes the method `Summarizer.SummarizeCollection`:
- It sorts a fresh array in place, then runs the source's `for` loop with `start`, `end`, `continue` and the growing `ranges` string.
- Its loop invariant ties the closed runs and the open run to `Group`, a functional definition of the runs.
- Its postcondition is `ranges == Summary(input)`.
- `Summary` is in turn characterised without reference to the loop: it is the rendering of the only well-formed, unjoinable runs that expand to the sorted input (`SummaryFromRuns`), and a reader of the text gets those runs back (`SummaryRoundTrip`).

Two behaviours of the code are easy to miss:
- `summarizeCollection` does not remove duplicates. An equal neighbour closes the open run, so `[1, 1, 2]` gives `"1, 1-2"` (`SummarizerCases.RepeatedValue`). The expansion of the runs is the sorted input with its duplicates.
- A field outside the `int` range passes the pattern check. It then throws `NumberFormatException`, not the pattern error, and the model records this as `Error.NumberFormat`, separate from `Error.IllegalArgument`. In Java, `NumberFormatException` is a subclass of `IllegalArgumentException`, so a caller that catches `IllegalArgumentException` catches both errors. The two differ in class and message: only the pattern error carries the fixed message.

## Model

Source paths are relative to the repository root.

| member | source | states |
|---|---|---|
| Collector.Collect | src/main/java/numberrangesummarizer/CollectNumbers.java:19-21 | a `null` argument or the empty string gives the empty list, not an error |
| Collector.StripWhitespace | src/main/java/numberrangesummarizer/CollectNumbers.java:24 | the result contains no `\s` character and is no longer than the input; input without whitespace comes back unchanged |
| Collector.StripAppend | src/main/java/numberrangesummarizer/CollectNumbers.java:24 | deleting whitespace from a concatenation deletes it from each part separately |
| Collector.ScanField | src/main/java/numberrangesummarizer/CollectNumbers.java:8 | the recogniser accepts a comma-free field exactly when it is an optional minus followed by at least one digit |
| Collector.FieldsScan | src/main/java/numberrangesummarizer/CollectNumbers.java:8 | comma-joined comma-free fields are accepted exactly when every field is a numeral |
| Collector.MatchesPatternIffNumerals | src/main/java/numberrangesummarizer/CollectNumbers.java:27 | text matches `-?\d+(,-?\d+)*` exactly when every field of its comma split is a numeral (so there is no empty field and no leading or trailing comma) |
| Collector.Split | src/main/java/numberrangesummarizer/CollectNumbers.java:32 | `split(",")` gives at least one field; no field contains a comma; joining the fields with commas gives the text back |
| Collector.SplitJoin | src/main/java/numberrangesummarizer/CollectNumbers.java:32 | splitting undoes the comma join of comma-free fields |
| Collector.ParseField | src/main/java/numberrangesummarizer/CollectNumbers.java:33 | `Integer.parseInt` on a numeral succeeds exactly when its value is in the `int` range, giving that value; otherwise it fails with `NumberFormat` naming the field |
| Collector.ParseFields | src/main/java/numberrangesummarizer/CollectNumbers.java:32-33 | all fields parse exactly when all are in range, and the values keep the field order; a failure names the first out-of-range field |
| Collector.Distinct | src/main/java/numberrangesummarizer/CollectNumbers.java:34 | `distinct()` leaves no duplicates and exactly the same set of values |
| Collector.DistinctFirstOccurrenceOrder | src/main/java/numberrangesummarizer/CollectNumbers.java:34 | `distinct()` keeps encounter order: the values come out in the order of their first occurrence |
| CollectorProperties.StripAllWhitespace | src/main/java/numberrangesummarizer/CollectNumbers.java:24 | deleting whitespace leaves nothing exactly when the text is all whitespace |
| CollectorProperties.WhitespaceAnywhere | src/main/java/numberrangesummarizer/CollectNumbers.java:23-24 | whitespace inserted anywhere into non-empty input does not change what `collect` returns or throws |
| CollectorProperties.AllWhitespaceRejected | src/main/java/numberrangesummarizer/CollectNumbers.java:24-29 | non-empty all-whitespace input is rejected with the pattern message, unlike the empty string |
| CollectorProperties.PatternErrorIff | src/main/java/numberrangesummarizer/CollectNumbers.java:27-29 | the pattern error (an `IllegalArgumentException` of exactly that class, not its subclass `NumberFormatException`) is thrown exactly when the input is non-empty and its stripped text has a field that is not a numeral, always with the fixed message |
| CollectorProperties.FieldValues | src/main/java/numberrangesummarizer/CollectNumbers.java:33 | one integer per field, each the value of its numeral |
| CollectorProperties.CollectSuccess | src/main/java/numberrangesummarizer/CollectNumbers.java:32-35 | on success every field is a numeral; the result has no duplicates and holds exactly the field values, ordered by first occurrence |
| CollectorProperties.NumberFormatError | src/main/java/numberrangesummarizer/CollectNumbers.java:33 | a `NumberFormatException` names a field that is a numeral outside the `int` range, and every field before it is in range |
| CollectorCases.CollectJoined | src/main/java/numberrangesummarizer/CollectNumbers.java:17-38 | in-range numerals joined with commas are collected as their values with duplicates dropped, which inverts writing a list the way `collect` reads it |
| CollectorCases.DistinctOfNoDuplicates | src/main/java/numberrangesummarizer/CollectNumbers.java:34 | `distinct()` leaves a duplicate-free list unchanged |
| CollectorCases.BadLeadingCharacter | src/main/java/numberrangesummarizer/CollectNumbers.java:27-29 | if the first non-blank character is neither a minus nor a digit, the input is rejected with the pattern message |
| CollectorCases.ValidInput | src/test/java/numberrangesummarizer/CollectNumbersTest.java:22-29 | `"-10,0,1,2,4,5,8"` gives `[-10, 0, 1, 2, 4, 5, 8]` |
| CollectorCases.BlankInput | src/test/java/numberrangesummarizer/CollectNumbersTest.java:48-55 | `"  -10, 0,1, \n2,\t 4, 5, 8"` gives `[-10, 0, 1, 2, 4, 5, 8]` |
| CollectorCases.InvalidWords | src/test/java/numberrangesummarizer/CollectNumbersTest.java:61-68 | `"someInvalidInputHere123"` is rejected with the pattern message |
| CollectorCases.InvalidLeadingComma | src/test/java/numberrangesummarizer/CollectNumbersTest.java:70-77 | `",123,"` is rejected with the pattern message |
| CollectorCases.Duplicates | src/test/java/numberrangesummarizer/CollectNumbersTest.java:80-87 | `"1,2,2,3,3,4,4"` gives `[1, 2, 3, 4]` |
| Decimal.IntToString | src/main/java/numberrangesummarizer/CollectNumbers.java:72 | `Integer.toString` writes a numeral whose value is the integer, starting with `-` exactly for negatives, with no leading zero and "0" only for zero |
| Decimal.CanonicalNumeral | src/main/java/numberrangesummarizer/CollectNumbers.java:72 | any numeral with that value, a sign only for negatives and no leading zero is the text `Integer.toString` writes, so there is only one such text |
| Decimal.ParseIntToString | src/main/java/numberrangesummarizer/CollectNumbers.java:75 | the decimal text of an integer reads back as that integer, stopping where the next non-digit begins |
| Sorting.Insert | src/main/java/numberrangesummarizer/CollectNumbers.java:52 | inserting into a sorted list keeps it sorted, adds exactly the new value, and puts the smaller of the value and the old head first |
| Sorting.SortSeq | src/main/java/numberrangesummarizer/CollectNumbers.java:52 | the ascending arrangement is sorted and a permutation of the input |
| Sorting.SortedUnique | src/main/java/numberrangesummarizer/CollectNumbers.java:52 | two sorted permutations of the same values are equal |
| Sorting.SortSeqPermutation | src/main/java/numberrangesummarizer/CollectNumbers.java:52 | sorting depends only on the multiset of the input |
| Sorting.SortInPlace | src/main/java/numberrangesummarizer/CollectNumbers.java:52 | the array is sorted ascending in place and is a permutation of its old contents |
| Summarizer.AttachValue | src/main/java/numberrangesummarizer/CollectNumbers.java:67-80 | adding a value in front of well-formed, unjoinable runs keeps them well-formed and unjoinable, and adds exactly that value in front of their expansion |
| Summarizer.GroupSpec | src/main/java/numberrangesummarizer/CollectNumbers.java:63-81 | the runs are well formed, no run ends one below where the next starts, and expanding them gives the input back in order |
| Summarizer.GroupUnique | src/main/java/numberrangesummarizer/CollectNumbers.java:63-81 | any well-formed, unjoinable runs that expand to a sequence are that sequence's runs |
| Summarizer.GroupGaps | src/main/java/numberrangesummarizer/CollectNumbers.java:67-70 | on strictly increasing input, at least one missing integer separates neighbouring runs, so every run is maximal |
| Summarizer.ParseRangeText | src/main/java/numberrangesummarizer/CollectNumbers.java:72-75 | the text `a` or `a-b` of a run reads back as that run, negative ends included |
| Summarizer.ParseRender | src/main/java/numberrangesummarizer/CollectNumbers.java:63-88 | reading the `", "`-joined text back gives exactly the runs, so there is no leading or trailing separator |
| Summarizer.LoopStep | src/main/java/numberrangesummarizer/CollectNumbers.java:64-80 | a value equal to `end + 1` extends the open run; any other value closes it and opens a new one; either way the closed runs, the open run and the rest still make up the runs of the sorted input |
| Summarizer.CloseText | src/main/java/numberrangesummarizer/CollectNumbers.java:70-76 | closing a run appends `start, ` or `start-end, ` to the text written so far |
| Summarizer.LoopDone | src/main/java/numberrangesummarizer/CollectNumbers.java:84-88 | after the loop, the text written so far plus the open run's text (with no separator after it) is the summary |
| Summarizer.SortedCopy | src/main/java/numberrangesummarizer/CollectNumbers.java:49-52 | the copy is a fresh array holding the ascending arrangement of the input |
| Summarizer.SummarizeCollection | src/main/java/numberrangesummarizer/CollectNumbers.java:44-91 | the returned string is the summary of the input: its runs in ascending order, each written `a` or `a-b`, joined by `", "` |
| SummarizerProperties.RenderNonEmpty | src/main/java/numberrangesummarizer/CollectNumbers.java:84-88 | at least one run gives non-empty text |
| SummarizerProperties.SummaryEmptyIff | src/main/java/numberrangesummarizer/CollectNumbers.java:46-48 | the summary is `""` exactly for an empty collection |
| SummarizerProperties.SummaryRoundTrip | src/main/java/numberrangesummarizer/CollectNumbers.java:63-88 | the summary reads back as well-formed, unjoinable runs that expand to the sorted input |
| SummarizerProperties.SummaryFromRuns | src/main/java/numberrangesummarizer/CollectNumbers.java:63-88 | the summary is the text of any well-formed, unjoinable runs that expand to a sorted permutation of the input |
| SummarizerProperties.SummaryOrderIndependent | src/main/java/numberrangesummarizer/CollectNumbers.java:49-52 | inputs that are permutations of each other have the same summary |
| SummarizerProperties.SummaryOfDistinct | src/main/java/numberrangesummarizer/CollectNumbers.java:63-88 | for duplicate-free input, the runs read back are maximal (a gap separates neighbours), ascend strictly, and expand to exactly the input values |
| SummarizerCases.EmptyCollection | src/test/java/numberrangesummarizer/CollectNumbersTest.java:89-95 | the empty collection gives `""` |
| SummarizerCases.ConsecutiveRuns | src/test/java/numberrangesummarizer/CollectNumbersTest.java:97-103 | `[1, 2, 3, 5, 6, 7, 9]` gives `"1-3, 5-7, 9"` |
| SummarizerCases.NonConsecutive | src/test/java/numberrangesummarizer/CollectNumbersTest.java:105-111 | `[1, 3, 5, 7]` gives `"1, 3, 5, 7"` |
| SummarizerCases.MixedRuns | src/test/java/numberrangesummarizer/CollectNumbersTest.java:113-119 | `[1, 2, 4, 5, 7, 9]` gives `"1-2, 4-5, 7, 9"` |
| SummarizerCases.Negative | src/test/java/numberrangesummarizer/CollectNumbersTest.java:121-127 | `[-8, -6, -3, -2]` gives `"-8, -6, -3--2"` |
| SummarizerCases.MixedSigns | src/test/java/numberrangesummarizer/CollectNumbersTest.java:129-135 | `[-3, -2, 0, 4, 5, 7, 9]` gives `"-3--2, 0, 4-5, 7, 9"` |
| SummarizerCases.Unsorted | src/test/java/numberrangesummarizer/CollectNumbersTest.java:137-143 | `[9, -3, -2, 6, 5, 12]` gives `"-3--2, 5-6, 9, 12"` |
| SummarizerCases.RepeatedValue | src/main/java/numberrangesummarizer/CollectNumbers.java:67-80 | duplicates are not removed: `[1, 1, 2]` gives `"1, 1-2"` |

## Left out

- `Main.java` only prints one example with `System.out.println`; it is I/O and not part of this model.
- `NumberRangeSummarizer.java`, the interface `CollectNumbers` implements, is not part of this model.
- The internals of `java.util.regex` and `String.replaceAll` are not modelled. The pattern is a hand-written recogniser, proved equal to "every comma-separated field is a numeral", and the whitespace deletion is a filter over the six `\s` characters.
- TimSort, the algorithm behind `Collections.sort`, is not modelled. An insertion sort with the same contract (sorted and a permutation) stands in for it, and a sorted permutation is unique.
- `String.split(",")` drops trailing empty fields; `Split` keeps them. The difference cannot be observed, because `split` runs only on text that matched the pattern, and such text has no empty field.
- The message text of `NumberFormatException` is left out. The error records only the offending field.
- `Summarizer.SummarizeCollection` takes the collection's elements as a `seq<int>`:
  - `Integer` elements are 32-bit, but `int` is unbounded here. Where `end + 1` would wrap, at `end == 2147483647`, the next sorted value cannot be `end + 1` in either semantics, so the results agree on every Java input.
  - A `null` collection or a `null` element is not modelled.
  - The caller's collection cannot be changed, because a `seq` is a value. That the source sorts a copy shows up as `SortedCopy` returning a fresh array.
- Iteration order of an arbitrary `Collection` is left out: the input is the sequence of elements in iteration order. The summary does not depend on that order (`SummaryOrderIndependent`).
- The empty- and `null`-argument tests of `collect` (CollectNumbersTest.java:31-47) are covered by the contract of `Collector.Collect`. They have no lemma of their own.
