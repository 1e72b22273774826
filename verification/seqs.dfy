/** Generic facts about sequences shared by the rest of the model:
    duplicate-freedom, first occurrence, order-preserving filtering and
    subsequences. */
module Seqs {

  /** No element occurs twice in `s`. */
  ghost predicate NoDups<T>(s: seq<T>) {
    forall i, j :: 0 <= i < j < |s| ==> s[i] != s[j]
  }

  /** Position of the first occurrence of `x` in `s`. */
  function IndexOf<T(==)>(s: seq<T>, x: T): (k: nat)
    requires x in s
    ensures k < |s| && s[k] == x
  {
    if s[0] == x then 0 else 1 + IndexOf(s[1..], x)
  }

  /** No `x` occurs before its first occurrence. */
  lemma {:induction false} IndexOfIsFirst<T>(s: seq<T>, x: T)
    requires x in s
    ensures x !in s[..IndexOf(s, x)]
  {
    if s[0] != x {
      IndexOfIsFirst(s[1..], x);
      assert s[..IndexOf(s, x)] == [s[0]] + s[1..][..IndexOf(s[1..], x)];
    }
  }

  /** The first occurrence is the only position holding `x` with no earlier `x`. */
  lemma IndexOfUnique<T>(s: seq<T>, x: T, k: nat)
    requires k < |s| && s[k] == x && x !in s[..k]
    ensures IndexOf(s, x) == k
  {
    IndexOfIsFirst(s, x);
  }

  /** A first occurrence inside a prefix is the first occurrence in the whole sequence. */
  lemma IndexOfPrefix<T>(s: seq<T>, n: nat, x: T)
    requires n <= |s| && x in s[..n]
    ensures x in s && IndexOf(s[..n], x) == IndexOf(s, x)
  {
    var k := IndexOf(s[..n], x);
    IndexOfIsFirst(s[..n], x);
    assert s[..n][..k] == s[..k];
    IndexOfUnique(s, x, k);
  }

  /** `idx` lists strictly increasing positions of `b` at which the elements of `a` sit. */
  ghost predicate IsSubsequenceAt<T>(a: seq<T>, b: seq<T>, idx: seq<int>) {
    && |idx| == |a|
    && (forall i :: 0 <= i < |idx| ==> 0 <= idx[i] < |b| && a[i] == b[idx[i]])
    && (forall i, j :: 0 <= i < j < |idx| ==> idx[i] < idx[j])
  }

  /** `a` is obtained from `b` by deleting elements, keeping the order of the rest. */
  ghost predicate IsSubsequence<T>(a: seq<T>, b: seq<T>) {
    exists idx :: IsSubsequenceAt(a, b, idx)
  }

  /** The elements of `s` satisfying `keep`, in their original order: the shape
      of a Python loop that appends each accepted element to a fresh list. */
  function Filter<T(==)>(keep: T -> bool, s: seq<T>): (r: seq<T>)
    ensures |r| <= |s|
    ensures forall i :: 0 <= i < |r| ==> r[i] in s && keep(r[i])
    ensures forall i :: 0 <= i < |s| && keep(s[i]) ==> s[i] in r
  {
    if |s| == 0 then []
    else
      var init := Filter(keep, s[..|s| - 1]);
      assert s == s[..|s| - 1] + [s[|s| - 1]];
      if keep(s[|s| - 1]) then init + [s[|s| - 1]] else init
  }

  /** Positions of `s` whose element satisfies `keep`, in increasing order. */
  function KeptIndices<T>(keep: T -> bool, s: seq<T>): seq<int>
  {
    if |s| == 0 then []
    else
      var init := KeptIndices(keep, s[..|s| - 1]);
      if keep(s[|s| - 1]) then init + [|s| - 1] else init
  }

  /** `KeptIndices` lists exactly the accepted positions, each below `|s|`. */
  lemma {:induction false} KeptIndicesExact<T>(keep: T -> bool, s: seq<T>)
    ensures forall i :: 0 <= i < |KeptIndices(keep, s)| ==> 0 <= KeptIndices(keep, s)[i] < |s|
    ensures forall i, j :: 0 <= i < j < |KeptIndices(keep, s)| ==> KeptIndices(keep, s)[i] < KeptIndices(keep, s)[j]
    ensures forall k :: 0 <= k < |s| ==> (k in KeptIndices(keep, s) <==> keep(s[k]))
  {
    if |s| > 0 {
      var n := |s| - 1;
      KeptIndicesExact(keep, s[..n]);
      assert forall k :: 0 <= k < n ==> s[..n][k] == s[k];
    }
  }

  /** The i-th kept element is the element at the i-th kept position. */
  lemma {:induction false} FilterAtKeptIndices<T>(keep: T -> bool, s: seq<T>)
    ensures |Filter(keep, s)| == |KeptIndices(keep, s)|
    ensures forall i :: 0 <= i < |KeptIndices(keep, s)| ==>
      0 <= KeptIndices(keep, s)[i] < |s| && Filter(keep, s)[i] == s[KeptIndices(keep, s)[i]]
  {
    if |s| > 0 {
      var n := |s| - 1;
      var ri, ii := Filter(keep, s[..n]), KeptIndices(keep, s[..n]);
      FilterAtKeptIndices(keep, s[..n]);
      var r, idx := Filter(keep, s), KeptIndices(keep, s);
      if keep(s[n]) {
        assert r == ri + [s[n]] && idx == ii + [n];
      } else {
        assert r == ri && idx == ii;
      }
      forall i | 0 <= i < |idx|
        ensures 0 <= idx[i] < |s| && r[i] == s[idx[i]]
      {
        if i < |ii| {
          assert idx[i] == ii[i] && r[i] == ri[i];
          assert s[..n][ii[i]] == s[ii[i]];
        }
      }
    }
  }

  /** `Filter` returns exactly the elements at the accepted positions, in order:
      it is a subsequence of its input that drops precisely the rejected elements. */
  lemma {:induction false} FilterSelectsKeptPositions<T>(keep: T -> bool, s: seq<T>)
    ensures IsSubsequenceAt(Filter(keep, s), s, KeptIndices(keep, s))
    ensures forall k :: 0 <= k < |s| ==> (k in KeptIndices(keep, s) <==> keep(s[k]))
  {
    KeptIndicesExact(keep, s);
    FilterAtKeptIndices(keep, s);
  }

  /** The filtered sequence is a subsequence of the input. */
  lemma FilterIsSubsequence<T>(keep: T -> bool, s: seq<T>)
    ensures IsSubsequence(Filter(keep, s), s)
  {
    FilterSelectsKeptPositions(keep, s);
  }
}
