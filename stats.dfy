/**
 * `Series.median()` over the non-missing values of a column, in exact
 * arithmetic: the middle value of the sorted values, or the mean of the two
 * middle values when their number is even.
 */
module Stats {
  import opened Wrappers
  import opened Sorting

  function AtMost(a: real, b: real): bool { a <= b }

  lemma AtMostIsTotalPreorder()
    ensures TotalPreorder(AtMost)
  {
  }

  function Median(xs: seq<real>): (m: Option<real>)
    ensures m.Some? <==> |xs| > 0
  {
    if |xs| == 0 then None
    else
      var s := SortBy(xs, AtMost);
      var n := |s|;
      if n % 2 == 1 then Some(s[n / 2]) else Some((s[n / 2 - 1] + s[n / 2]) / 2.0)
  }

  /** How many of `xs` are at most `m`. */
  function CountAtMost(xs: seq<real>, m: real): nat {
    SumOf(xs, (x: real) => if x <= m then 1 else 0)
  }

  /** How many of `xs` are at least `m`. */
  function CountAtLeast(xs: seq<real>, m: real): nat {
    SumOf(xs, (x: real) => if x >= m then 1 else 0)
  }

  /** In ascending order, an element at most `m` at index `j` brings `j + 1` such elements. */
  lemma {:induction false} SortedCountAtMost(s: seq<real>, j: nat, m: real)
    requires SortedBy(s, AtMost) && j < |s| && s[j] <= m
    ensures CountAtMost(s, m) >= j + 1
  {
    assert s[0] <= s[j];
    if j > 0 {
      assert SortedBy(s[1..], AtMost);
      SortedCountAtMost(s[1..], j - 1, m);
    }
  }

  /** In ascending order, an element at least `m` at index `j` brings `|s| - j` such elements. */
  lemma {:induction false} SortedCountAtLeast(s: seq<real>, j: nat, m: real)
    requires SortedBy(s, AtMost) && j < |s| && s[j] >= m
    ensures CountAtLeast(s, m) >= |s| - j
  {
    if j > 0 {
      assert SortedBy(s[1..], AtMost);
      SortedCountAtLeast(s[1..], j - 1, m);
    } else if |s| > 1 {
      assert SortedBy(s[1..], AtMost);
      assert s[1] >= s[0];
      SortedCountAtLeast(s[1..], 0, m);
    }
  }

  /**
   * The median splits the values in half: at least half of them are at most
   * the median and at least half are at least the median.
   */
  lemma MedianSplitsInHalf(xs: seq<real>)
    requires |xs| > 0
    ensures CountAtMost(xs, Median(xs).value) >= (|xs| + 1) / 2
    ensures CountAtLeast(xs, Median(xs).value) >= (|xs| + 1) / 2
  {
    var s := SortBy(xs, AtMost);
    var m := Median(xs).value;
    AtMostIsTotalPreorder();
    SortBySorted(xs, AtMost);
    SortedMiddleSplits(s, m);
    CountsPermutation(xs, s, m);
  }

  /** Reordering the values changes neither count. */
  lemma CountsPermutation(xs: seq<real>, s: seq<real>, m: real)
    requires multiset(xs) == multiset(s)
    ensures CountAtMost(xs, m) == CountAtMost(s, m) && CountAtLeast(xs, m) == CountAtLeast(s, m)
  {
    SumOfPermutation(xs, s, (x: real) => if x <= m then 1 else 0);
    SumOfPermutation(xs, s, (x: real) => if x >= m then 1 else 0);
  }

  /** The middle value (or the mean of the middle two) of an ascending sequence splits it in half. */
  lemma SortedMiddleSplits(s: seq<real>, m: real)
    requires SortedBy(s, AtMost) && |s| > 0
    requires m == if |s| % 2 == 1 then s[|s| / 2] else (s[|s| / 2 - 1] + s[|s| / 2]) / 2.0
    ensures CountAtMost(s, m) >= (|s| + 1) / 2 && CountAtLeast(s, m) >= (|s| + 1) / 2
  {
    var n := |s|;
    if n % 2 == 1 {
      SortedCountAtMost(s, n / 2, m);
      SortedCountAtLeast(s, n / 2, m);
    } else {
      assert s[n / 2 - 1] <= s[n / 2];
      SortedCountAtMost(s, n / 2 - 1, m);
      SortedCountAtLeast(s, n / 2, m);
    }
  }

  /** Two ascending arrangements of the same values are the same sequence. */
  lemma {:induction false} SortedUnique(a: seq<real>, b: seq<real>)
    requires SortedBy(a, AtMost) && SortedBy(b, AtMost)
    requires multiset(a) == multiset(b)
    ensures a == b
  {
    assert |a| == |b| by {
      assert |a| == |multiset(a)| && |b| == |multiset(b)|;
    }
    if a != [] {
      assert a[0] == b[0] by {
        SortedHeadLeast(a, b[0]);
        SortedHeadLeast(b, a[0]);
      }
      assert multiset(a[1..]) == multiset(b[1..]) by {
        TailMultiset(a);
        TailMultiset(b);
      }
      assert SortedBy(a[1..], AtMost) && SortedBy(b[1..], AtMost) by {
        SortedTail(a);
        SortedTail(b);
      }
      SortedUnique(a[1..], b[1..]);
      assert a == [a[0]] + a[1..] && b == [b[0]] + b[1..];
    }
  }

  lemma TailMultiset(s: seq<real>)
    requires |s| > 0
    ensures multiset(s[1..]) == multiset(s) - multiset{s[0]}
  {
    assert s == [s[0]] + s[1..];
  }

  /** The first of an ascending sequence is at most each of its values. */
  lemma SortedHeadLeast(s: seq<real>, x: real)
    requires SortedBy(s, AtMost) && x in multiset(s)
    ensures s[0] <= x
  {
    var k :| 0 <= k < |s| && s[k] == x;
    if k > 0 {
      assert AtMost(s[0], s[k]);
    }
  }

  /** What follows the first of an ascending sequence is ascending. */
  lemma SortedTail(s: seq<real>)
    requires SortedBy(s, AtMost) && |s| > 0
    ensures SortedBy(s[1..], AtMost)
  {
    forall i, j | 0 <= i < j < |s[1..]| ensures AtMost(s[1..][i], s[1..][j]) {
      assert AtMost(s[i + 1], s[j + 1]);
    }
  }

  /**
   * The median read off any ascending arrangement `s` of the values: the
   * middle one for an odd count, the mean of the middle two for an even count.
   */
  lemma MedianOfSorted(xs: seq<real>, s: seq<real>)
    requires multiset(s) == multiset(xs) && SortedBy(s, AtMost)
    ensures |s| == |xs|
    ensures Median(xs) ==
      if |xs| == 0 then None
      else if |xs| % 2 == 1 then Some(s[|xs| / 2])
      else Some((s[|xs| / 2 - 1] + s[|xs| / 2]) / 2.0)
  {
    assert |s| == |multiset(s)| == |multiset(xs)| == |xs|;
    AtMostIsTotalPreorder();
    SortBySorted(xs, AtMost);
    SortedUnique(SortBy(xs, AtMost), s);
  }

  /** The median of an odd number of values is the middle one. */
  lemma MedianOddExample()
    ensures Median([5.0, 1.0, 3.0]) == Some(3.0)
  {
    calc {
      SortBy([5.0, 1.0, 3.0], AtMost);
      Insert(5.0, SortBy([1.0, 3.0], AtMost), AtMost);
      { assert SortBy([1.0, 3.0], AtMost) == Insert(1.0, SortBy([3.0], AtMost), AtMost); }
      Insert(5.0, Insert(1.0, [3.0], AtMost), AtMost);
      Insert(5.0, [1.0, 3.0], AtMost);
      [1.0] + Insert(5.0, [3.0], AtMost);
      [1.0, 3.0, 5.0];
    }
  }

  /** The median of an even number of values is the mean of the middle two. */
  lemma MedianEvenExample()
    ensures Median([3.0, 1.0]) == Some(2.0)
  {
    calc {
      SortBy([3.0, 1.0], AtMost);
      Insert(3.0, SortBy([1.0], AtMost), AtMost);
      Insert(3.0, [1.0], AtMost);
      [1.0, 3.0];
    }
  }
}
