/**
 * A stable insertion sort over any total preorder, and sums over sequences
 * that do not depend on the order of the elements. Both `value_counts`, the
 * monthly grouping and the median sort their values with it.
 */
module Sorting {

  /** `before` is total and transitive: a sort order that may have ties. */
  ghost predicate TotalPreorder<P(!new)>(before: (P, P) -> bool) {
    && (forall a, b :: before(a, b) || before(b, a))
    && (forall a, b, c :: before(a, b) && before(b, c) ==> before(a, c))
  }

  ghost predicate SortedBy<P>(s: seq<P>, before: (P, P) -> bool) {
    forall i, j :: 0 <= i < j < |s| ==> before(s[i], s[j])
  }

  /** Inserts `p` in front of the first element it may precede. */
  function Insert<P>(p: P, s: seq<P>, before: (P, P) -> bool): (r: seq<P>)
    ensures multiset(r) == multiset(s) + multiset{p}
    ensures |r| == |s| + 1
  {
    if s == [] then [p]
    else if before(p, s[0]) then [p] + s
    else
      assert s == [s[0]] + s[1..];
      [s[0]] + Insert(p, s[1..], before)
  }

  function SortBy<P>(s: seq<P>, before: (P, P) -> bool): (r: seq<P>)
    ensures multiset(r) == multiset(s)
    ensures |r| == |s|
  {
    if s == [] then []
    else
      assert s == [s[0]] + s[1..];
      Insert(s[0], SortBy(s[1..], before), before)
  }

  lemma {:induction false} InsertSorted<P(!new)>(p: P, s: seq<P>, before: (P, P) -> bool)
    requires TotalPreorder(before) && SortedBy(s, before)
    ensures SortedBy(Insert(p, s, before), before)
  {
    if s != [] && !before(p, s[0]) {
      var tail := Insert(p, s[1..], before);
      InsertSorted(p, s[1..], before);
      forall x | x in tail
        ensures before(s[0], x)
      {
        assert x in multiset(tail);
        if x != p {
          assert x in multiset(s[1..]);
          var k :| 0 <= k < |s[1..]| && s[1..][k] == x;
          assert s[k + 1] == x;
        }
      }
      var r := [s[0]] + tail;
      forall i, j | 0 <= i < j < |r|
        ensures before(r[i], r[j])
      {
        if i == 0 {
          assert r[j] == tail[j - 1] && r[j] in tail;
        } else {
          assert r[i] == tail[i - 1] && r[j] == tail[j - 1];
        }
      }
    }
  }

  /** The result of `SortBy` is in order whenever `before` is a total preorder. */
  lemma {:induction false} SortBySorted<P(!new)>(s: seq<P>, before: (P, P) -> bool)
    requires TotalPreorder(before)
    ensures SortedBy(SortBy(s, before), before)
  {
    if s != [] {
      SortBySorted(s[1..], before);
      InsertSorted(s[0], SortBy(s[1..], before), before);
    }
  }

  /** The sum of `f` over the elements of `s`. */
  function SumOf<P>(s: seq<P>, f: P -> nat): nat {
    if s == [] then 0 else f(s[0]) + SumOf(s[1..], f)
  }

  lemma {:induction false} SumOfAppend<P>(a: seq<P>, b: seq<P>, f: P -> nat)
    ensures SumOf(a + b, f) == SumOf(a, f) + SumOf(b, f)
  {
    if a == [] {
      assert a + b == b;
    } else {
      assert (a + b)[1..] == a[1..] + b;
      SumOfAppend(a[1..], b, f);
    }
  }

  /** A sum over a sequence depends only on which elements it holds, not on their order. */
  lemma {:induction false} SumOfPermutation<P>(s: seq<P>, t: seq<P>, f: P -> nat)
    requires multiset(s) == multiset(t)
    ensures SumOf(s, f) == SumOf(t, f)
    decreases |s|
  {
    if s == [] {
      assert |t| == |multiset(t)| == 0;
    } else {
      assert s[0] in multiset(t);
      var k :| 0 <= k < |t| && t[k] == s[0];
      var rest := t[..k] + t[k + 1..];
      assert t == t[..k] + [t[k]] + t[k + 1..];
      SumOfAppend(t[..k] + [t[k]], t[k + 1..], f);
      SumOfAppend(t[..k], [t[k]], f);
      SumOfAppend(t[..k], t[k + 1..], f);
      assert s == [s[0]] + s[1..];
      assert multiset(t) == multiset(t[..k]) + multiset{t[k]} + multiset(t[k + 1..]);
      assert multiset(rest) == multiset(t[..k]) + multiset(t[k + 1..]);
      assert multiset(s) == multiset{s[0]} + multiset(s[1..]);
      calc {
        multiset(s[1..]);
        multiset(s) - multiset{s[0]};
        multiset(t) - multiset{t[k]};
        multiset(rest);
      }
      SumOfPermutation(s[1..], rest, f);
    }
  }

  /** No element occurs twice. */
  ghost predicate NoDuplicates<P>(s: seq<P>) {
    forall i, j :: 0 <= i < j < |s| ==> s[i] != s[j]
  }

  /** An element that occurs at two positions occurs at least twice in the multiset. */
  lemma TwiceInMultiset<P>(s: seq<P>, i: nat, j: nat)
    requires i < j < |s| && s[i] == s[j]
    ensures multiset(s)[s[i]] >= 2
  {
    assert s == s[..j] + s[j..];
    assert s[i] in s[..j];
    assert s[j] == s[j..][0];
  }

  /** Without repeated elements, every multiplicity is at most one. */
  lemma {:induction false} NoDuplicatesMultiplicity<P>(s: seq<P>, x: P)
    requires NoDuplicates(s)
    ensures multiset(s)[x] <= 1
  {
    if s != [] {
      assert s == [s[0]] + s[1..];
      NoDuplicatesMultiplicity(s[1..], x);
      if s[0] == x {
        assert x !in s[1..];
      }
    }
  }

  /** Reordering a sequence without repeated elements creates none. */
  lemma PermutationNoDuplicates<P>(s: seq<P>, t: seq<P>)
    requires NoDuplicates(s) && multiset(s) == multiset(t)
    ensures NoDuplicates(t)
  {
    forall i, j | 0 <= i < j < |t|
      ensures t[i] != t[j]
    {
      if t[i] == t[j] {
        TwiceInMultiset(t, i, j);
        NoDuplicatesMultiplicity(s, t[i]);
      }
    }
  }
}
