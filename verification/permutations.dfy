/** Facts about sequences of slot indices that the board engine relies on:
    distinctness, bounds, permutations, and how they meet cardinality and
    multisets. */
module Permutations {

  /** No value occurs twice in `xs`. */
  predicate Distinct<T(==)>(xs: seq<T>) {
    forall i, j :: 0 <= i < j < |xs| ==> xs[i] != xs[j]
  }

  /** Every entry of `xs` is a valid index into something of length `n`. */
  predicate Bounded(xs: seq<nat>, n: nat) {
    forall i :: 0 <= i < |xs| ==> xs[i] < n
  }

  /** `p` rearranges `n` positions: it lists each of `0 .. n-1` once. */
  predicate IsPermutation(p: seq<nat>, n: nat) {
    |p| == n && Bounded(p, n) && Distinct(p)
  }

  /** The sequence whose `i`-th element is the `p[i]`-th element of `s`. */
  function Permute<T>(s: seq<T>, p: seq<nat>): seq<T>
    requires IsPermutation(p, |s|)
  {
    seq(|s|, i requires 0 <= i < |s| => s[p[i]])
  }

  /** The indices `0 .. n-1`. */
  function Range(n: nat): (r: set<nat>)
    ensures forall k: nat :: k in r <==> k < n
  {
    if n == 0 then {} else Range(n - 1) + {n - 1}
  }

  /** The values occurring in `xs`. */
  function Elements<T>(xs: seq<T>): set<T> {
    set x | x in xs
  }

  lemma {:induction false} RangeSize(n: nat)
    ensures |Range(n)| == n
  {
    if n > 0 {
      RangeSize(n - 1);
      assert n - 1 !in Range(n - 1);
    }
  }

  lemma {:induction false} ElementsSize<T>(xs: seq<T>)
    requires Distinct(xs)
    ensures |Elements(xs)| == |xs|
  {
    if |xs| > 0 {
      var init := xs[..|xs| - 1];
      var last := xs[|xs| - 1];
      assert Distinct(init);
      ElementsSize(init);
      assert Elements(xs) == Elements(init) + {last};
      assert last !in Elements(init);
    }
  }

  /** A duplicate-free sequence of indices below `n` has at most `n` entries,
      and it has exactly `n` precisely when it names every index below `n`. */
  lemma DistinctBoundedCovers(xs: seq<nat>, n: nat)
    requires Distinct(xs) && Bounded(xs, n)
    ensures |xs| <= n
    ensures |xs| == n <==> forall k: nat :: k < n ==> k in xs
  {
    var e := Elements(xs);
    var r := Range(n);
    ElementsSize(xs);
    RangeSize(n);
    assert e <= r;
    assert |r| == |e| + |r - e| by {
      assert r == e + (r - e);
      assert e * (r - e) == {};
    }
    if |xs| == n {
      assert |r - e| == 0;
      assert r - e == {};
      forall k: nat | k < n
        ensures k in xs
      {
        assert k in r;
      }
    }
    if forall k: nat :: k < n ==> k in xs {
      assert r <= e;
      assert r == e;
    }
  }

  /** Permuting `s` by `p`, where `p[j]` names the last position, is the same
      as permuting the rest of `s` by `p` without entry `j` and putting the
      last element back at `j`. */
  lemma PermuteSplit<T>(s: seq<T>, p: seq<nat>, j: nat)
    requires |s| > 0 && IsPermutation(p, |s|)
    requires j < |s| && p[j] == |s| - 1
    ensures IsPermutation(p[..j] + p[j + 1..], |s| - 1)
    ensures var t := Permute(s[..|s| - 1], p[..j] + p[j + 1..]);
            Permute(s, p) == t[..j] + [s[|s| - 1]] + t[j..]
  {
  }

  /** Inserting `x` anywhere adds one `x` to the multiset. */
  lemma MultisetInsert<T>(t: seq<T>, j: nat, x: T)
    requires j <= |t|
    ensures multiset(t[..j] + [x] + t[j..]) == multiset(t) + multiset{x}
  {
    assert t == t[..j] + t[j..];
  }

  /** Rearranging a sequence by a permutation keeps every element with its
      multiplicity. */
  lemma {:induction false} PermuteMultiset<T>(s: seq<T>, p: seq<nat>)
    requires IsPermutation(p, |s|)
    ensures multiset(Permute(s, p)) == multiset(s)
  {
    var n := |s|;
    if n > 0 {
      DistinctBoundedCovers(p, n);
      assert n - 1 in p;
      var j :| 0 <= j < n && p[j] == n - 1;
      var q := p[..j] + p[j + 1..];
      var init := s[..n - 1];
      PermuteSplit(s, p, j);
      PermuteMultiset(init, q);
      MultisetInsert(Permute(init, q), j, s[n - 1]);
      assert s == init + [s[n - 1]];
    }
  }

  /** In a duplicate-free sequence every element occurs exactly once. */
  lemma {:induction false} DistinctOccursOnce<T>(xs: seq<T>, x: T)
    requires Distinct(xs)
    ensures multiset(xs)[x] == if x in xs then 1 else 0
  {
    if |xs| > 0 {
      var init := xs[..|xs| - 1];
      assert Distinct(init);
      DistinctOccursOnce(init, xs[|xs| - 1]);
      DistinctOccursOnce(init, x);
      assert xs == init + [xs[|xs| - 1]];
    }
  }
}
