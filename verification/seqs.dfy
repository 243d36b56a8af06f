/** Sequence facts shared by the models: duplicate-freedom and
    first-seen de-duplication, the behaviour of a `Vec` guarded by a
    `HashSet` of the values already pushed. */
module Seqs {

  predicate NoDuplicates<T(==)>(s: seq<T>)
  {
    forall i, j :: 0 <= i < j < |s| ==> s[i] != s[j]
  }

  /** Position of the first `x` in `xs`, or `|xs|` when there is none. */
  function FirstIndex<T(==)>(xs: seq<T>, x: T): (r: nat)
    ensures r <= |xs|
    ensures r < |xs| <==> x in xs
    ensures r < |xs| ==> xs[r] == x
    ensures forall j :: 0 <= j < r ==> xs[j] != x
    decreases |xs|
  {
    if |xs| == 0 then 0
    else if xs[0] == x then 0
    else 1 + FirstIndex(xs[1..], x)
  }

  /** Keeps the first occurrence of every value, in the order the values
      are first seen. Defined from the end so that appending one value to
      the input is one step of the definition. */
  function Dedup<T(==)>(xs: seq<T>): seq<T>
    decreases |xs|
  {
    if |xs| == 0 then []
    else
      var d := Dedup(xs[..|xs| - 1]);
      var x := xs[|xs| - 1];
      if x in d then d else d + [x]
  }

  /** De-duplication keeps exactly the values of its input. */
  lemma {:induction false} DedupElements<T>(xs: seq<T>)
    ensures forall x :: x in Dedup(xs) <==> x in xs
    decreases |xs|
  {
    if |xs| > 0 {
      var p := xs[..|xs| - 1];
      DedupElements(p);
      assert xs == p + [xs[|xs| - 1]];
    }
  }

  /** De-duplication leaves no value twice. */
  lemma {:induction false} DedupNoDuplicates<T>(xs: seq<T>)
    ensures NoDuplicates(Dedup(xs))
    decreases |xs|
  {
    if |xs| > 0 {
      DedupNoDuplicates(xs[..|xs| - 1]);
    }
  }

  /** A sequence without duplicates is its own de-duplication. */
  lemma {:induction false} DedupOfDistinct<T>(xs: seq<T>)
    requires NoDuplicates(xs)
    ensures Dedup(xs) == xs
    decreases |xs|
  {
    if |xs| > 0 {
      var p := xs[..|xs| - 1];
      assert NoDuplicates(p);
      DedupOfDistinct(p);
      assert xs[|xs| - 1] !in p;
      assert p + [xs[|xs| - 1]] == xs;
    }
  }

  lemma FirstIndexOfPrefix<T>(xs: seq<T>, n: nat, y: T)
    requires n <= |xs|
    requires y in xs[..n]
    ensures FirstIndex(xs, y) == FirstIndex(xs[..n], y)
  {
    var k := FirstIndex(xs[..n], y);
    assert xs[k] == y;
  }

  /** First-seen order: the output lists values in the order of their first
      occurrence in the input. */
  lemma {:induction false} DedupFirstSeenOrder<T>(xs: seq<T>)
    ensures forall i, j :: 0 <= i < j < |Dedup(xs)| ==>
              FirstIndex(xs, Dedup(xs)[i]) < FirstIndex(xs, Dedup(xs)[j])
    decreases |xs|
  {
    if |xs| > 0 {
      var n := |xs| - 1;
      var p := xs[..n];
      var d := Dedup(p);
      var x := xs[n];
      DedupFirstSeenOrder(p);
      DedupElements(p);
      forall y | y in d ensures FirstIndex(xs, y) == FirstIndex(p, y) < n {
        assert FirstIndex(p, y) < |p|;
        FirstIndexOfPrefix(xs, n, y);
      }
      if x !in d {
        assert FirstIndex(xs, x) == n;
        assert Dedup(xs) == d + [x];
        forall i, j | 0 <= i < j < |Dedup(xs)|
          ensures FirstIndex(xs, Dedup(xs)[i]) < FirstIndex(xs, Dedup(xs)[j])
        {
          assert Dedup(xs)[i] == d[i];
          if j < |d| {
            assert Dedup(xs)[j] == d[j];
          }
        }
      }
    }
  }
}
