/**
  The Fisher-Yates shuffle used by both front-ends (`embaralhar` in script.js,
  `shuffle` in js/generator-worker.js). The random index drawn at step `i`,
  `Math.floor(Math.random() * (i + 1))`, is supplied by the caller as
  `draws[i]`, so every statement below holds for every outcome of the draws.
 */
module Shuffle {

  /** Draws for one pass over `n` items: `draws[i]` is the partner of position `i`,
      so `0 <= draws[i] <= i` (the entry for position 0 is never consulted). */
  predicate ValidDraws(draws: seq<int>, n: int) {
    |draws| == n && forall i :: 0 <= i < n ==> 0 <= draws[i] <= i
  }

  predicate NoDuplicates<T(==)>(a: seq<T>) {
    forall i, j :: 0 <= i < j < |a| ==> a[i] != a[j]
  }

  /** The destructuring swap `[a[i], a[j]] = [a[j], a[i]]`. */
  function Swap<T>(a: seq<T>, i: int, j: int): (r: seq<T>)
    requires 0 <= i < |a| && 0 <= j < |a|
    ensures |r| == |a| && multiset(r) == multiset(a)
    ensures r[i] == a[j] && r[j] == a[i]
    ensures forall k :: 0 <= k < |a| && k != i && k != j ==> r[k] == a[k]
  {
    a[i := a[j]][j := a[i]]
  }

  /** The loop `for (i = n - 1; i > 0; i--)`, resumed at position `i`. */
  function ShuffleFrom<T>(a: seq<T>, draws: seq<int>, i: int): (r: seq<T>)
    requires ValidDraws(draws, |a|) && i < |a|
    ensures |r| == |a| && multiset(r) == multiset(a)
    decreases i
  {
    if i <= 0 then a else ShuffleFrom(Swap(a, i, draws[i]), draws, i - 1)
  }

  /** One full Fisher-Yates pass: a rearrangement of `a`, whatever the draws. */
  function FisherYates<T>(a: seq<T>, draws: seq<int>): (r: seq<T>)
    requires ValidDraws(draws, |a|)
    ensures |r| == |a| && multiset(r) == multiset(a)
  {
    ShuffleFrom(a, draws, |a| - 1)
  }

  /** A rearrangement of a repetition-free sequence has no repetition either. */
  lemma PermutationKeepsNoDuplicates<T>(a: seq<T>, b: seq<T>)
    requires multiset(a) == multiset(b) && NoDuplicates(a)
    ensures NoDuplicates(b)
  {
    forall i, j | 0 <= i < j < |b| ensures b[i] != b[j] {
      if b[i] == b[j] {
        assert b == b[..j] + [b[j]] + b[j + 1..];
        assert b[i] in b[..j];
        assert multiset(b)[b[i]] >= 2;
        MultiplicityOne(a, b[i]);
        assert false;
      }
    }
  }

  lemma {:induction false} MultiplicityOne<T>(a: seq<T>, x: T)
    requires NoDuplicates(a)
    ensures multiset(a)[x] <= 1
  {
    if a != [] {
      var w := a[..|a| - 1];
      assert a == w + [a[|a| - 1]];
      MultiplicityOne(w, x);
      if x == a[|a| - 1] {
        assert x !in w;
      }
    }
  }

  /** Any rearrangement of `a` holds exactly the elements of `a`. */
  lemma SameElements<T>(a: seq<T>, b: seq<T>, x: T)
    requires multiset(a) == multiset(b)
    ensures x in a <==> x in b
  {
    assert x in a <==> x in multiset(a);
    assert x in b <==> x in multiset(b);
  }
}
