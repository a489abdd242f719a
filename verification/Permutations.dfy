/** Address lists: permutations of an initial segment of the naturals, their filtering and inversion. */
module Permutations {

  /** `s` lists each number below `n` exactly once. */
  ghost predicate IsPermutation(s: seq<nat>, n: nat)
  {
    && |s| == n
    && (forall i :: 0 <= i < n ==> s[i] < n)
    && (forall i, j :: 0 <= i < j < n ==> s[i] != s[j])
  }

  function Elements(s: seq<nat>): set<nat>
  {
    set x | x in s
  }

  function Below(n: nat): (b: set<nat>)
    ensures forall x: nat :: x in b <==> x < n
    ensures |b| == n
  {
    if n == 0 then {} else Below(n - 1) + {n - 1}
  }

  lemma {:induction false} CardElements(s: seq<nat>)
    requires forall i, j :: 0 <= i < j < |s| ==> s[i] != s[j]
    ensures |Elements(s)| == |s|
  {
    if s != [] {
      var last := |s| - 1;
      CardElements(s[..last]);
      assert Elements(s) == Elements(s[..last]) + {s[last]};
    }
  }

  lemma SubsetOfSameSize(a: set<nat>, b: set<nat>)
    requires a <= b && |a| == |b|
    ensures a == b
  {
    assert |b - a| == |b| - |a|;
    assert b == a + (b - a);
  }

  /** Pigeonhole: a permutation reaches every number below its length. */
  lemma Reaches(s: seq<nat>, n: nat, v: nat) returns (i: nat)
    requires IsPermutation(s, n) && v < n
    ensures i < n && s[i] == v
  {
    CardElements(s);
    SubsetOfSameSize(Elements(s), Below(n));
    assert v in Elements(s);
    i :| i < n && s[i] == v;
  }

  /** The entries of `s` below `c`, in order. */
  function Filter(s: seq<nat>, c: nat): (r: seq<nat>)
    ensures forall i :: 0 <= i < |r| ==> r[i] < c
  {
    if s == [] then []
    else if s[|s| - 1] < c then Filter(s[..|s| - 1], c) + [s[|s| - 1]]
    else Filter(s[..|s| - 1], c)
  }

  lemma {:induction false} FilterElements(s: seq<nat>, c: nat)
    ensures forall x: nat :: x in Filter(s, c) <==> x in s && x < c
  {
    if s != [] {
      FilterElements(s[..|s| - 1], c);
      assert s == s[..|s| - 1] + [s[|s| - 1]];
    }
  }

  lemma {:induction false} FilterDistinct(s: seq<nat>, c: nat)
    requires forall i, j :: 0 <= i < j < |s| ==> s[i] != s[j]
    ensures forall i, j :: 0 <= i < j < |Filter(s, c)| ==> Filter(s, c)[i] != Filter(s, c)[j]
  {
    if s != [] {
      var last := |s| - 1;
      FilterDistinct(s[..last], c);
      FilterElements(s[..last], c);
      assert s[last] !in s[..last];
    }
  }

  lemma {:induction false} FilterNoLonger(s: seq<nat>, c: nat)
    ensures |Filter(s, c)| <= |s|
  {
    if s != [] {
      FilterNoLonger(s[..|s| - 1], c);
    }
  }

  /** An entry that is kept comes after as many others as are kept before it. */
  lemma {:induction false} FilterAt(s: seq<nat>, c: nat, i: nat)
    requires i < |s| && s[i] < c
    ensures |Filter(s[..i], c)| < |Filter(s, c)| && Filter(s, c)[|Filter(s[..i], c)|] == s[i]
  {
    var last := |s| - 1;
    if i < last {
      FilterAt(s[..last], c, i);
      assert s[..last][..i] == s[..i];
    }
  }

  /** Filtering keeps the order of a list without repetitions. */
  lemma FilterKeepsOrder(s: seq<nat>, c: nat, i: nat, j: nat, v: nat, w: nat)
    requires forall a, b :: 0 <= a < b < |s| ==> s[a] != s[b]
    requires i < j < |s| && v < |Filter(s, c)| && w < |Filter(s, c)| && Filter(s, c)[v] == s[i] && Filter(s, c)[w] == s[j]
    ensures v < w
  {
    hide Filter;
    FilterDistinct(s, c);
    FilterAt(s, c, i);
    FilterAt(s, c, j);
    FilterAt(s[..j], c, i);
    assert s[..j][..i] == s[..i];
  }

  function Min(a: nat, b: nat): nat { if a < b then a else b }

  /** Keeping the entries below `c` of a permutation of [0, n) leaves a permutation of [0, min(c, n)). */
  lemma FilterPermutation(s: seq<nat>, n: nat, c: nat)
    requires IsPermutation(s, n)
    ensures IsPermutation(Filter(s, c), Min(c, n))
  {
    var f, m := Filter(s, c), Min(c, n);
    FilterElements(s, c);
    FilterDistinct(s, c);
    CardElements(f);
    forall x: nat ensures x in Elements(f) <==> x in Below(m) {
      if x < m {
        var i := Reaches(s, n, x);
      }
    }
    assert Elements(f) == Below(m);
    forall i | 0 <= i < |f| ensures f[i] < m {
      assert f[i] in Elements(f);
    }
  }

  /** `h` undoes `tx` on [0, n): position `tx[i]` is sent back to `i`. */
  ghost predicate Inverts(h: seq<nat>, tx: seq<nat>, n: nat)
  {
    && n <= |h| && n <= |tx|
    && (forall i :: 0 <= i < n ==> tx[i] < n && h[tx[i]] == i)
  }

  /** Inverting a permutation gives a permutation, and each inverts the other. */
  lemma InverseOfPermutation(h: seq<nat>, tx: seq<nat>, n: nat)
    requires IsPermutation(tx, n) && Inverts(h, tx, n)
    ensures IsPermutation(h[..n], n) && Inverts(tx, h, n)
  {
    forall v | 0 <= v < n ensures h[v] < n && tx[h[v]] == v {
      var i := Reaches(tx, n, v);
    }
  }

  /** A permutation has only one inverse. */
  lemma InverseIsUnique(h: seq<nat>, k: seq<nat>, tx: seq<nat>, n: nat)
    requires IsPermutation(tx, n) && Inverts(h, tx, n) && Inverts(k, tx, n)
    ensures h[..n] == k[..n]
  {
    forall v | 0 <= v < n ensures h[v] == k[v] {
      var i := Reaches(tx, n, v);
    }
  }

  // A literal list is shown to be a permutation by giving its inverse.

  lemma PermutationByInverse(s: seq<nat>, inv: seq<nat>)
    requires |s| == |inv| && MatchedFrom(s, inv, 0)
    ensures IsPermutation(s, |s|)
  {
    forall i | 0 <= i < |s| ensures s[i] < |s| && inv[s[i]] == i {
      MatchedAt(s, inv, 0, i);
    }
  }

  predicate MatchedFrom(s: seq<nat>, inv: seq<nat>, k: nat)
    decreases |s| - k
  {
    k >= |s| || (s[k] < |inv| && inv[s[k]] == k && MatchedFrom(s, inv, k + 1))
  }

  lemma {:induction false} MatchedAt(s: seq<nat>, inv: seq<nat>, k: nat, i: nat)
    requires k <= i < |s| && MatchedFrom(s, inv, k)
    ensures s[i] < |inv| && inv[s[i]] == i
    decreases i - k
  {
    if k < i {
      MatchedAt(s, inv, k + 1, i);
    }
  }
}
