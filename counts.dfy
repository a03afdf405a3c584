/**
 * Count tables: `Series.value_counts()` (distinct value and its count, most
 * frequent first) and `groupby(key).size()` followed by a sort on the key.
 */
module Counts {
  import opened Sorting
  import opened Text

  /** The key column of a count table. */
  function Keys<K>(t: seq<(K, nat)>): (ks: seq<K>)
    ensures |ks| == |t|
    ensures forall i :: 0 <= i < |t| ==> ks[i] == t[i].0
  {
    if t == [] then [] else [t[0].0] + Keys(t[1..])
  }

  function Count<K>(p: (K, nat)): nat { p.1 }

  /** The sum of the count column. */
  function Total<K>(t: seq<(K, nat)>): nat {
    SumOf(t, Count)
  }

  lemma TotalCons<K>(p: (K, nat), t: seq<(K, nat)>)
    ensures Total([p] + t) == p.1 + Total(t)
  {
    assert ([p] + t)[1..] == t;
  }

  /** No key appears on two rows. */
  ghost predicate DistinctKeys<K>(t: seq<(K, nat)>) {
    forall i, j :: 0 <= i < j < |t| ==> t[i].0 != t[j].0
  }

  /**
   * `t` counts `xs`: one row per distinct value of `xs`, each row holding how
   * often its value occurs (so at least once), and the counts add up to `|xs|`.
   */
  ghost predicate IsCountTable<K(!new)>(xs: seq<K>, t: seq<(K, nat)>) {
    && DistinctKeys(t)
    && (forall k :: k in Keys(t) <==> k in xs)
    && (forall i :: 0 <= i < |t| ==> t[i].1 == multiset(xs)[t[i].0] && t[i].1 >= 1)
    && Total(t) == |xs|
  }

  /** Adds one occurrence of `k`: its row's count goes up, or a row `(k, 1)` is appended. */
  function Bump<K(==)>(t: seq<(K, nat)>, k: K): (r: seq<(K, nat)>) {
    if k in Keys(t) then
      seq(|t|, i requires 0 <= i < |t| => if t[i].0 == k then (k, t[i].1 + 1) else t[i])
    else t + [(k, 1)]
  }

  /** With distinct keys, bumping raises the total by one. */
  lemma BumpTotal<K>(t: seq<(K, nat)>, k: K)
    requires DistinctKeys(t)
    ensures Total(Bump(t, k)) == Total(t) + 1
  {
    var r := Bump(t, k);
    if k in Keys(t) {
      var i :| 0 <= i < |t| && Keys(t)[i] == k;
      assert t == t[..i] + [t[i]] + t[i + 1..];
      assert r == t[..i] + [(k, t[i].1 + 1)] + t[i + 1..];
      SumOfAppend(t[..i] + [t[i]], t[i + 1..], Count);
      SumOfAppend(t[..i], [t[i]], Count);
      SumOfAppend(t[..i] + [(k, t[i].1 + 1)], t[i + 1..], Count);
      SumOfAppend(t[..i], [(k, t[i].1 + 1)], Count);
      TotalCons(t[i], []);
      TotalCons((k, t[i].1 + 1), []);
      assert [t[i]] + [] == [t[i]];
      assert [(k, t[i].1 + 1)] + [] == [(k, t[i].1 + 1)];
    } else {
      SumOfAppend(t, [(k, 1)], Count);
      TotalCons((k, 1), []);
      assert [(k, 1)] + [] == [(k, 1)];
    }
  }

  /** Counts of the values of `xs`, in order of first occurrence. */
  function Tally<K(==,!new)>(xs: seq<K>): (t: seq<(K, nat)>)
    ensures IsCountTable(xs, t)
  {
    if xs == [] then []
    else
      var init := xs[..|xs| - 1];
      assert xs == init + [xs[|xs| - 1]];
      BumpCounts(init, Tally(init), xs[|xs| - 1]);
      Bump(Tally(init), xs[|xs| - 1])
  }

  /** Bumping adds `k` to the keys and no other key. */
  lemma BumpKeys<K>(p: seq<(K, nat)>, k: K, y: K)
    ensures y in Keys(Bump(p, k)) <==> y in Keys(p) || y == k
  {
    var t := Bump(p, k);
    if y in Keys(t) {
      var i :| 0 <= i < |t| && Keys(t)[i] == y;
      if i < |p| { assert Keys(p)[i] == y || y == k; }
    }
    if y in Keys(p) {
      var i :| 0 <= i < |p| && Keys(p)[i] == y;
      assert Keys(t)[i] == y;
    }
    if y == k {
      if k in Keys(p) {
        var i :| 0 <= i < |p| && Keys(p)[i] == k;
        assert Keys(t)[i] == k;
      } else {
        assert Keys(t)[|p|] == k;
      }
    }
  }

  lemma BumpDistinct<K>(p: seq<(K, nat)>, k: K)
    requires DistinctKeys(p)
    ensures DistinctKeys(Bump(p, k))
  {
    var t := Bump(p, k);
    forall i, j | 0 <= i < j < |t| ensures t[i].0 != t[j].0 {
      if j == |p| {
        assert Keys(p)[i] == p[i].0;
      }
    }
  }

  /** Bumping `k` in a count table of `xs` gives the count table of `xs + [k]`. */
  lemma BumpCounts<K(!new)>(xs: seq<K>, p: seq<(K, nat)>, k: K)
    requires IsCountTable(xs, p)
    ensures IsCountTable(xs + [k], Bump(p, k))
  {
    var t := Bump(p, k);
    var ys := xs + [k];
    assert multiset(ys) == multiset(xs) + multiset{k};
    forall y ensures y in Keys(t) <==> y in ys {
      BumpKeys(p, k, y);
    }
    BumpDistinct(p, k);
    BumpTotal(p, k);
    forall i | 0 <= i < |t| ensures t[i].1 == multiset(ys)[t[i].0] && t[i].1 >= 1 {
      if i < |p| {
        assert p[i].1 == multiset(xs)[p[i].0];
        assert p[i].0 == k ==> k in Keys(p) by { assert Keys(p)[i] == p[i].0; }
      } else {
        assert k !in Keys(p);
        assert multiset(xs)[k] == 0;
      }
    }
  }

  /** A reordering of a count table is a count table of the same values. */
  lemma PermutedCountTable<K(!new)>(xs: seq<K>, t: seq<(K, nat)>, r: seq<(K, nat)>)
    requires IsCountTable(xs, t) && multiset(r) == multiset(t)
    ensures IsCountTable(xs, r)
  {
    assert forall p :: p in r <==> p in t by {
      forall p ensures p in r <==> p in t {
        assert p in r <==> p in multiset(r);
        assert p in t <==> p in multiset(t);
      }
    }
    SameRowsSameKeys(t, r);
    assert forall i :: 0 <= i < |r| ==> r[i].1 == multiset(xs)[r[i].0] && r[i].1 >= 1 by {
      forall i | 0 <= i < |r| ensures r[i].1 == multiset(xs)[r[i].0] && r[i].1 >= 1 {
        assert r[i] in t;
      }
    }
    assert DistinctKeys(r) by {
      assert NoDuplicates(t);
      PermutationNoDuplicates(t, r);
      forall i, j | 0 <= i < j < |r| ensures r[i].0 != r[j].0 {
        assert r[i] in t && r[j] in t;
      }
    }
    SumOfPermutation(r, t, Count);
  }

  /** Two tables with the same rows have the same keys. */
  lemma SameRowsSameKeys<K>(t: seq<(K, nat)>, r: seq<(K, nat)>)
    requires forall p :: p in r <==> p in t
    ensures forall k :: k in Keys(r) <==> k in Keys(t)
  {
    forall k ensures k in Keys(r) <==> k in Keys(t) {
      if k in Keys(r) {
        var i :| 0 <= i < |r| && Keys(r)[i] == k;
        assert r[i] in r;
        var j :| 0 <= j < |t| && t[j] == r[i];
        assert Keys(t)[j] == k;
      }
      if k in Keys(t) {
        var i :| 0 <= i < |t| && Keys(t)[i] == k;
        assert t[i] in t;
        var j :| 0 <= j < |r| && r[j] == t[i];
        assert Keys(r)[j] == k;
      }
    }
  }

  // ---------------------------------------------------------------- value_counts

  predicate MoreFrequent<K>(p: (K, nat), q: (K, nat)) { p.1 >= q.1 }

  /** `value_counts()`: the count table, most frequent value first (ties in no stated order). */
  function ValueCounts<K(==,!new)>(xs: seq<K>): (r: seq<(K, nat)>)
    ensures IsCountTable(xs, r)
    ensures forall i, j :: 0 <= i < j < |r| ==> r[i].1 >= r[j].1
  {
    var t := Tally(xs);
    var r := SortBy(t, MoreFrequent);
    PermutedCountTable(xs, t, r);
    SortBySorted(t, MoreFrequent);
    r
  }

  // ---------------------------------------------------------------- groupby size

  predicate KeyNotAfter(p: (string, nat), q: (string, nat)) { !LexLess(q.0, p.0) }

  lemma KeyNotAfterIsTotalPreorder()
    ensures TotalPreorder(KeyNotAfter)
  {
    forall p: (string, nat), q: (string, nat) ensures KeyNotAfter(p, q) || KeyNotAfter(q, p) {
      if LexLess(p.0, q.0) { LexLessAsymmetric(p.0, q.0); }
    }
    forall p: (string, nat), q: (string, nat), r: (string, nat) |
      KeyNotAfter(p, q) && KeyNotAfter(q, r)
      ensures KeyNotAfter(p, r)
    {
      if LexLess(r.0, p.0) {
        LexLessTotal(p.0, q.0);
        if LexLess(p.0, q.0) { LexLessTransitive(r.0, p.0, q.0); }
      }
    }
  }

  /** `groupby(key).size()` sorted on the key: one row per key, keys strictly ascending. */
  function KeyOrderedCounts(xs: seq<string>): (r: seq<(string, nat)>)
    ensures IsCountTable(xs, r)
    ensures forall i, j :: 0 <= i < j < |r| ==> LexLess(r[i].0, r[j].0)
  {
    var t := Tally(xs);
    var r := SortBy(t, KeyNotAfter);
    PermutedCountTable(xs, t, r);
    KeyNotAfterIsTotalPreorder();
    SortBySorted(t, KeyNotAfter);
    assert forall i, j :: 0 <= i < j < |r| ==> LexLess(r[i].0, r[j].0) by {
      forall i, j | 0 <= i < j < |r| ensures LexLess(r[i].0, r[j].0) {
        LexLessTotal(r[i].0, r[j].0);
      }
    }
    r
  }

  /** Tallying one more value bumps the tally of the values before it. */
  lemma TallySnoc<K(!new)>(xs: seq<K>, x: K)
    ensures Tally(xs + [x]) == Bump(Tally(xs), x)
  {
    assert (xs + [x])[..|xs|] == xs;
  }

  lemma BumpSingle<K>(a: K, n: nat)
    ensures Bump([(a, n)], a) == [(a, n + 1)]
  {
    assert a in Keys([(a, n)]);
  }

  lemma TallyExample(a: string, b: string)
    requires a != b
    ensures Tally([a, a, b]) == [(a, 2), (b, 1)]
  {
    TallyTwice(a);
    assert Tally([a, a, b]) == Bump(Tally([a, a]), b) by {
      TallySnoc([a, a], b);
      assert [a, a] + [b] == [a, a, b];
    }
    assert b !in Keys([(a, 2)]);
  }

  lemma TallyTwice(a: string)
    ensures Tally([a, a]) == [(a, 2)]
  {
    TallyOnce(a);
    TallySnoc([a], a);
    assert [a] + [a] == [a, a];
    BumpSingle(a, 1);
  }

  lemma TallyOnce(a: string)
    ensures Tally([a]) == [(a, 1)]
  {
    var none: seq<(string, nat)> := [];
    TallySnoc([], a);
    assert [] + [a] == [a];
    assert Bump(none, a) == [(a, 1)];
  }

  /** Two admissions in January 2023 and one in February give two rows in month order. */
  lemma MonthlyCountsExample()
    ensures KeyOrderedCounts(["2023-01", "2023-01", "2023-02"]) == [("2023-01", 2), ("2023-02", 1)]
  {
    var a: string, b: string := "2023-01", "2023-02";
    assert a[6] != b[6];
    TallyExample(a, b);
    assert !LexLess(b, a) by {
      assert b[..6] == a[..6];
      assert b == b[..6] + "2" && a == a[..6] + "1";
      LexLessAppend(b[..6], "2", a[..6], "1");
      LexLessIrreflexive(a[..6]);
    }
    assert [(a, 2), (b, 1)][1..] == [(b, 1)];
    assert SortBy([(b, 1)], KeyNotAfter) == [(b, 1)];
    assert SortBy([(a, 2), (b, 1)], KeyNotAfter) == Insert((a, 2), [(b, 1)], KeyNotAfter);
  }
}
