/**
 * `DataFrame.drop_duplicates()` with its default `keep="first"`: a row is kept
 * exactly when no earlier row equals it.
 */
module Distinct {
  import opened Sorting

  /** Position of the first occurrence of `x` in `xs`. */
  function FirstIndex<T(==,!new)>(xs: seq<T>, x: T): (k: nat)
    requires x in xs
    ensures k < |xs| && xs[k] == x
    ensures forall j :: 0 <= j < k ==> xs[j] != x
  {
    if xs[0] == x then 0 else 1 + FirstIndex(xs[1..], x)
  }

  function Dedup<T(==,!new)>(xs: seq<T>): (r: seq<T>)
    ensures forall x :: x in r <==> x in xs
    ensures NoDuplicates(r)
  {
    if xs == [] then []
    else
      var p := Dedup(xs[..|xs| - 1]);
      var x := xs[|xs| - 1];
      assert xs == xs[..|xs| - 1] + [x];
      if x in p then p else p + [x]
  }

  /** The kept rows appear in the order of their first occurrences. */
  lemma {:induction false} DedupKeepsFirstOrder<T(!new)>(xs: seq<T>)
    ensures forall i, j :: 0 <= i < j < |Dedup(xs)| ==>
      FirstIndex(xs, Dedup(xs)[i]) < FirstIndex(xs, Dedup(xs)[j])
  {
    if xs != [] {
      var init := xs[..|xs| - 1];
      var x := xs[|xs| - 1];
      var p := Dedup(init);
      DedupKeepsFirstOrder(init);
      assert xs == init + [x];
      forall y | y in init
        ensures FirstIndex(xs, y) == FirstIndex(init, y)
      {
        FirstIndexPrefix(init, [x], y);
      }
      var r := Dedup(xs);
      forall i, j | 0 <= i < j < |r|
        ensures FirstIndex(xs, r[i]) < FirstIndex(xs, r[j])
      {
        assert r[i] in init;
        if j < |p| {
          assert r[i] == p[i] && r[j] == p[j];
        } else {
          assert r[j] == x && x !in init;
          assert FirstIndex(xs, x) == |xs| - 1;
        }
      }
    }
  }

  lemma {:induction false} FirstIndexPrefix<T(!new)>(a: seq<T>, b: seq<T>, y: T)
    requires y in a
    ensures FirstIndex(a + b, y) == FirstIndex(a, y)
  {
    if a[0] != y {
      assert (a + b)[1..] == a[1..] + b;
      FirstIndexPrefix(a[1..], b, y);
    }
  }

  /** A sequence without repeated rows is its own deduplication. */
  lemma {:induction false} DedupOfDistinct<T(!new)>(xs: seq<T>)
    requires NoDuplicates(xs)
    ensures Dedup(xs) == xs
  {
    if xs != [] {
      var init := xs[..|xs| - 1];
      assert NoDuplicates(init);
      DedupOfDistinct(init);
      assert xs[|xs| - 1] !in init;
      assert xs == init + [xs[|xs| - 1]];
    }
  }

  /** Deduplicating twice is deduplicating once. */
  lemma DedupIdempotent<T(!new)>(xs: seq<T>)
    ensures Dedup(Dedup(xs)) == Dedup(xs)
  {
    DedupOfDistinct(Dedup(xs));
  }

  /** A sequence without repeated elements is as long as the set of its elements is large. */
  lemma {:induction false} NoDuplicatesCardinality<T(!new)>(xs: seq<T>)
    requires NoDuplicates(xs)
    ensures |set x | x in xs| == |xs|
  {
    if xs != [] {
      var init := xs[..|xs| - 1];
      var x := xs[|xs| - 1];
      assert NoDuplicates(init);
      NoDuplicatesCardinality(init);
      assert xs == init + [x];
      assert (set y | y in xs) == (set y | y in init) + {x};
      assert x !in (set y | y in init);
    }
  }

  /** The number of rows kept is the number of distinct rows. */
  lemma DedupLength<T(!new)>(xs: seq<T>)
    ensures |Dedup(xs)| == |set x | x in xs|
  {
    NoDuplicatesCardinality(Dedup(xs));
    assert (set x | x in Dedup(xs)) == (set x | x in xs);
  }

  /** Two equal rows leave exactly one survivor. */
  lemma DedupPairExample<T(!new)>(a: T)
    ensures Dedup([a, a]) == [a]
  {
    assert [a, a][..1] == [a];
    assert [a][..0] == [];
    assert Dedup([a]) == [a];
  }
}
