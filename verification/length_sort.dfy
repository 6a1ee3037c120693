/** Python's `sorted(xs, key=len, reverse=True)`: a stable sort of strings
    by non-increasing length. Both the stemmer (per suffix group) and the
    flat-lookup stemmer (over all endings) order their suffixes this way so
    that the longest applicable suffix is tried first. */
module LengthSort {

  predicate SortedByLengthDesc(xs: seq<string>) {
    forall i, j :: 0 <= i < j < |xs| ==> |xs[i]| >= |xs[j]|
  }

  /** The elements of length `n`, in their order in `xs`. A sort by length
      is stable exactly when it keeps every such subsequence intact. */
  function OfLength(xs: seq<string>, n: nat): seq<string>
    decreases |xs|
  {
    if xs == [] then []
    else (if |xs[0]| == n then [xs[0]] else []) + OfLength(xs[1..], n)
  }

  lemma {:induction false} OfLengthAppend(xs: seq<string>, ys: seq<string>, n: nat)
    ensures OfLength(xs + ys, n) == OfLength(xs, n) + OfLength(ys, n)
    decreases |xs|
  {
    if xs == [] {
      assert xs + ys == ys;
    } else {
      assert (xs + ys)[1..] == xs[1..] + ys;
      OfLengthAppend(xs[1..], ys, n);
    }
  }

  lemma {:induction false} OfLengthAllShorter(xs: seq<string>, n: nat)
    requires forall i :: 0 <= i < |xs| ==> |xs[i]| < n
    ensures OfLength(xs, n) == []
    decreases |xs|
  {
    if xs != [] {
      OfLengthAllShorter(xs[1..], n);
    }
  }

  /** Inserts `x` after the leading elements at least as long as it. */
  function Insert(x: string, sorted: seq<string>): seq<string>
    decreases |sorted|
  {
    if sorted == [] then [x]
    else if |sorted[0]| >= |x| then [sorted[0]] + Insert(x, sorted[1..])
    else [x] + sorted
  }

  lemma {:induction false} InsertSorted(x: string, sorted: seq<string>)
    requires SortedByLengthDesc(sorted)
    ensures SortedByLengthDesc(Insert(x, sorted))
    ensures |Insert(x, sorted)| == |sorted| + 1
    ensures forall y :: y in Insert(x, sorted) <==> y == x || y in sorted
    decreases |sorted|
  {
    if sorted == [] {
    } else if |sorted[0]| >= |x| {
      var rest := Insert(x, sorted[1..]);
      InsertSorted(x, sorted[1..]);
      assert sorted == [sorted[0]] + sorted[1..];
      assert forall i :: 0 <= i < |sorted[1..]| ==> |sorted[1..][i]| <= |sorted[0]| by {
        forall i | 0 <= i < |sorted[1..]|
          ensures |sorted[1..][i]| <= |sorted[0]|
        {
          assert sorted[1..][i] == sorted[i + 1];
        }
      }
      InsertBounded(x, sorted[1..], |sorted[0]|);
      ConsSorted(sorted[0], rest);
    } else {
      ConsSorted(x, sorted);
    }
  }

  /** Inserting keeps every element within a length bound both the
      element and the sequence respect. */
  lemma {:induction false} InsertBounded(x: string, sorted: seq<string>, m: nat)
    requires |x| <= m
    requires forall i :: 0 <= i < |sorted| ==> |sorted[i]| <= m
    ensures forall i :: 0 <= i < |Insert(x, sorted)| ==> |Insert(x, sorted)[i]| <= m
    decreases |sorted|
  {
    if sorted != [] && |sorted[0]| >= |x| {
      var rest := Insert(x, sorted[1..]);
      InsertBounded(x, sorted[1..], m);
      forall i | 0 <= i < |Insert(x, sorted)|
        ensures |Insert(x, sorted)[i]| <= m
      {
        if i > 0 {
          assert Insert(x, sorted)[i] == rest[i - 1];
        }
      }
    }
  }

  /** A head at least as long as everything after it keeps a sorted
      sequence sorted. */
  lemma ConsSorted(h: string, rest: seq<string>)
    requires SortedByLengthDesc(rest)
    requires forall i :: 0 <= i < |rest| ==> |rest[i]| <= |h|
    ensures SortedByLengthDesc([h] + rest)
  {
    var xs := [h] + rest;
    forall i, j | 0 <= i < j < |xs|
      ensures |xs[i]| >= |xs[j]|
    {
      assert xs[j] == rest[j - 1];
      if i > 0 {
        assert xs[i] == rest[i - 1];
      }
    }
  }

  lemma {:induction false} InsertPermutes(x: string, sorted: seq<string>)
    requires SortedByLengthDesc(sorted)
    ensures multiset(Insert(x, sorted)) == multiset(sorted) + multiset{x}
    decreases |sorted|
  {
    if sorted != [] && |sorted[0]| >= |x| {
      InsertSorted(x, sorted[1..]);
      InsertPermutes(x, sorted[1..]);
      assert sorted == [sorted[0]] + sorted[1..];
    }
  }

  lemma {:induction false} InsertOfLength(x: string, sorted: seq<string>, n: nat)
    requires SortedByLengthDesc(sorted)
    ensures OfLength(Insert(x, sorted), n) == OfLength(sorted, n) + (if |x| == n then [x] else [])
    decreases |sorted|
  {
    if sorted == [] {
      assert Insert(x, sorted) == [x];
      assert OfLength([x], n) == (if |x| == n then [x] else []) + OfLength([], n);
    } else if |sorted[0]| >= |x| {
      InsertOfLength(x, sorted[1..], n);
      InsertOfLengthBehind(x, sorted, n);
    } else {
      InsertOfLengthInFront(x, sorted, n);
    }
  }

  /** The step of `InsertOfLength` where `x` goes behind the first element. */
  lemma InsertOfLengthBehind(x: string, sorted: seq<string>, n: nat)
    requires SortedByLengthDesc(sorted) && sorted != [] && |sorted[0]| >= |x|
    requires OfLength(Insert(x, sorted[1..]), n) == OfLength(sorted[1..], n) + (if |x| == n then [x] else [])
    ensures OfLength(Insert(x, sorted), n) == OfLength(sorted, n) + (if |x| == n then [x] else [])
  {
    var head := if |sorted[0]| == n then [sorted[0]] else [];
    var rest := Insert(x, sorted[1..]);
    assert Insert(x, sorted) == [sorted[0]] + rest;
    assert ([sorted[0]] + rest)[1..] == rest;
    assert OfLength([sorted[0]] + rest, n) == head + OfLength(rest, n);
  }

  /** The step of `InsertOfLength` where `x` is longer than everything. */
  lemma InsertOfLengthInFront(x: string, sorted: seq<string>, n: nat)
    requires SortedByLengthDesc(sorted) && sorted != [] && |sorted[0]| < |x|
    ensures OfLength(Insert(x, sorted), n) == OfLength(sorted, n) + (if |x| == n then [x] else [])
  {
    assert Insert(x, sorted) == [x] + sorted;
    assert ([x] + sorted)[1..] == sorted;
    assert OfLength([x] + sorted, n) == (if |x| == n then [x] else []) + OfLength(sorted, n);
    if |x| == n {
      OfLengthAllShorter(sorted, n);
    }
  }

  /** Insertion sort taking the elements in their original order. */
  function SortByLength(xs: seq<string>): seq<string>
    decreases |xs|
  {
    if xs == [] then []
    else Insert(xs[|xs| - 1], SortByLength(xs[..|xs| - 1]))
  }

  /** The sort orders by non-increasing length and keeps exactly the
      elements it was given. */
  lemma {:induction false} SortByLengthSorted(xs: seq<string>)
    ensures SortedByLengthDesc(SortByLength(xs))
    ensures |SortByLength(xs)| == |xs|
    ensures forall y :: y in SortByLength(xs) <==> y in xs
    decreases |xs|
  {
    if xs != [] {
      var init, last := xs[..|xs| - 1], xs[|xs| - 1];
      SortByLengthSorted(init);
      InsertSorted(last, SortByLength(init));
      assert xs == init + [last];
    }
  }

  /** The sort only reorders: every element keeps its multiplicity. */
  lemma {:induction false} SortByLengthPermutes(xs: seq<string>)
    ensures multiset(SortByLength(xs)) == multiset(xs)
    decreases |xs|
  {
    if xs != [] {
      var init, last := xs[..|xs| - 1], xs[|xs| - 1];
      SortByLengthPermutes(init);
      SortByLengthSorted(init);
      InsertPermutes(last, SortByLength(init));
      assert xs == init + [last];
    }
  }

  /** The sort is stable: elements of equal length keep their relative
      order. */
  lemma {:induction false} SortByLengthStable(xs: seq<string>, n: nat)
    ensures OfLength(SortByLength(xs), n) == OfLength(xs, n)
    decreases |xs|
  {
    if xs != [] {
      var init, last := xs[..|xs| - 1], xs[|xs| - 1];
      var sortedInit := SortByLength(init);
      assert SortByLength(xs) == Insert(last, sortedInit);
      SortByLengthStable(init, n);
      SortByLengthSorted(init);
      InsertOfLength(last, sortedInit, n);
      assert xs == init + [last];
      OfLengthAppend(init, [last], n);
      assert [last][1..] == [];
      assert OfLength([last], n) == (if |last| == n then [last] else []) + OfLength([], n);
    }
  }
}
