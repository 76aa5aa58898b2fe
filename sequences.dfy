/** Duplicate-free sequences, shared by `collect` (which removes duplicates) and
    `summarizeCollection` (whose guarantees are stronger without them). */
module Sequences {

  predicate NoDuplicates<T(==)>(xs: seq<T>) {
    forall i, j :: 0 <= i < j < |xs| ==> xs[i] != xs[j]
  }

  /** A sequence has no duplicates exactly when no value occurs in it twice. */
  lemma {:induction false} NoDuplicatesCount<T>(xs: seq<T>)
    ensures NoDuplicates(xs) <==> forall x :: multiset(xs)[x] <= 1
  {
    if xs != [] {
      var init, last := xs[..|xs| - 1], xs[|xs| - 1];
      assert xs == init + [last];
      NoDuplicatesCount(init);
      assert multiset(xs) == multiset(init) + multiset{last};
      if NoDuplicates(xs) {
        assert NoDuplicates(init) by {
          forall i, j | 0 <= i < j < |init| ensures init[i] != init[j] {
            assert init[i] == xs[i] && init[j] == xs[j];
          }
        }
        assert forall k :: 0 <= k < |init| ==> init[k] == xs[k] != last;
      } else {
        var i, j :| 0 <= i < j < |xs| && xs[i] == xs[j];
        if j < |xs| - 1 {
          assert init[i] == init[j];
          var x :| multiset(init)[x] > 1;
          assert multiset(xs)[x] > 1;
        } else {
          assert xs[i] in init;
          assert multiset(xs)[last] > 1;
        }
      }
    }
  }

  /** Reordering keeps a sequence free of duplicates. */
  lemma NoDuplicatesPermutation<T>(xs: seq<T>, ys: seq<T>)
    requires multiset(xs) == multiset(ys)
    requires NoDuplicates(xs)
    ensures NoDuplicates(ys)
  {
    NoDuplicatesCount(xs);
    NoDuplicatesCount(ys);
  }

  // ---------------------------------------------------------------------------
  // Identities of sequence concatenation, stated as lemmas of their own so that
  // larger proofs can use them one step at a time

  lemma SnocSplit<T>(s: seq<T>, x: T)
    requires s != []
    ensures (s + [x])[0] == s[0] && (s + [x])[1..] == s[1..] + [x]
  {
  }

  lemma Associate<T>(a: seq<T>, b: seq<T>, c: seq<T>)
    ensures a + (b + c) == (a + b) + c
  {
  }

  lemma AppendEmpty<T>(s: seq<T>)
    ensures s + [] == s
  {
  }

  lemma HeadTail<T>(s: seq<T>)
    requires s != []
    ensures [s[0]] + s[1..] == s
    ensures |s| == 1 ==> s == [s[0]]
  {
  }
}
