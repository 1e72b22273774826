/** `get_distinct`: drop repeated elements, keeping each first occurrence in
    the order it was first seen. */
module Dedup {
  import opened Seqs

  /** The list the loop of `get_distinct` builds: each element is appended
      unless an equal one was already appended. */
  function Distinct<T(==)>(s: seq<T>): (r: seq<T>)
    ensures NoDups(r)
    ensures |r| <= |s|
    ensures forall i :: 0 <= i < |r| ==> r[i] in s
    ensures forall i :: 0 <= i < |s| ==> s[i] in r
  {
    if |s| == 0 then []
    else
      var init := Distinct(s[..|s| - 1]);
      assert forall i :: 0 <= i < |s| - 1 ==> s[i] == s[..|s| - 1][i];
      if s[|s| - 1] in init then init else init + [s[|s| - 1]]
  }

  /** The loop of `get_distinct`, appending to `output` whatever is not yet in it. */
  method GetDistinct<T(==)>(list: seq<T>) returns (output: seq<T>)
    ensures output == Distinct(list)
  {
    output := [];
    for i := 0 to |list|
      invariant output == Distinct(list[..i])
    {
      assert list[..i + 1][..i] == list[..i];
      if list[i] !in output {
        output := output + [list[i]];
      }
    }
    assert list[..|list|] == list;
  }

  /** The elements of the result appear in the order of their first
      occurrence in the input. */
  lemma {:induction false} DistinctFirstSeenOrder<T>(s: seq<T>)
    ensures forall i, j :: 0 <= i < j < |Distinct(s)| ==>
      IndexOf(s, Distinct(s)[i]) < IndexOf(s, Distinct(s)[j])
  {
    if |s| > 0 {
      var n := |s| - 1;
      var init, r := Distinct(s[..n]), Distinct(s);
      DistinctFirstSeenOrder(s[..n]);
      forall i | 0 <= i < |init|
        ensures IndexOf(s[..n], init[i]) == IndexOf(s, init[i]) < n
      {
        IndexOfPrefix(s, n, init[i]);
      }
      if s[n] !in init {
        assert s[n] !in s[..n];
        IndexOfUnique(s, s[n], n);
        assert r == init + [s[n]];
      } else {
        assert r == init;
      }
      forall i, j | 0 <= i < j < |r|
        ensures IndexOf(s, r[i]) < IndexOf(s, r[j])
      {
        assert r[i] == init[i];
        if j < |init| {
          assert r[j] == init[j];
          assert IndexOf(s[..n], init[i]) < IndexOf(s[..n], init[j]);
        }
      }
    }
  }

  /** `r` has no duplicates, holds exactly the elements of `s`, and orders
      them by first occurrence in `s`. */
  ghost predicate IsFirstSeenDedup<T>(s: seq<T>, r: seq<T>) {
    && NoDups(r)
    && (forall i :: 0 <= i < |r| ==> r[i] in s)
    && (forall i :: 0 <= i < |s| ==> s[i] in r)
    && (forall i, j :: 0 <= i < j < |r| ==> IndexOf(s, r[i]) < IndexOf(s, r[j]))
  }

  /** A duplicate-free sequence holding exactly the elements of `s`, ordered by
      first occurrence in `s`, is `Distinct(s)`: these properties determine the
      result of `get_distinct` completely. */
  lemma {:induction false} DistinctIsUnique<T>(s: seq<T>, r: seq<T>)
    requires IsFirstSeenDedup(s, r)
    ensures r == Distinct(s)
    decreases |s|, 1
  {
    if |s| == 0 {
      NothingInEmpty(r, s);
    } else if s[|s| - 1] in s[..|s| - 1] {
      UniqueWhenLastRepeated(s, r);
    } else {
      UniqueWhenLastNew(s, r);
    }
  }

  /** A sequence whose elements all occur in `s` is empty when `s` is. */
  lemma NothingInEmpty<T>(r: seq<T>, s: seq<T>)
    requires forall i :: 0 <= i < |r| ==> r[i] in s
    ensures |s| == 0 ==> |r| == 0
  {
    if |r| > 0 {
      assert r[0] in s;
    }
  }

  lemma {:induction false} UniqueWhenLastRepeated<T>(s: seq<T>, r: seq<T>)
    requires |s| > 0 && s[|s| - 1] in s[..|s| - 1]
    requires IsFirstSeenDedup(s, r)
    ensures r == Distinct(s)
    decreases |s|, 0
  {
    var n := |s| - 1;
    DedupRepeatedLast(s, r);
    DistinctIsUnique(s[..n], r);
    var k := IndexOf(s[..n], s[n]);
    assert s[..n][k] in Distinct(s[..n]);
  }

  lemma {:induction false} UniqueWhenLastNew<T>(s: seq<T>, r: seq<T>)
    requires |s| > 0 && s[|s| - 1] !in s[..|s| - 1]
    requires IsFirstSeenDedup(s, r)
    ensures r == Distinct(s)
    decreases |s|, 0
  {
    var n := |s| - 1;
    DedupNewLast(s, r);
    DistinctIsUnique(s[..n], r[..|r| - 1]);
    assert s[n] !in Distinct(s[..n]);
    assert r == r[..|r| - 1] + [s[n]];
  }

  /** An element of `s` other than its last one already occurs in the prefix,
      and first occurs there at the same position. */
  lemma {:induction false} InPrefixUnlessLast<T>(s: seq<T>, y: T)
    requires |s| > 0 && y in s && y != s[|s| - 1]
    ensures y in s[..|s| - 1] && IndexOf(s[..|s| - 1], y) == IndexOf(s, y)
  {
    var n := |s| - 1;
    assert s == s[..n] + [s[n]];
    IndexOfPrefix(s, n, y);
  }

  /** When the last element of `s` occurred before, a first-seen dedup of `s`
      is one of its prefix without that last element. */
  lemma DedupRepeatedLast<T>(s: seq<T>, r: seq<T>)
    requires |s| > 0 && s[|s| - 1] in s[..|s| - 1]
    requires IsFirstSeenDedup(s, r)
    ensures IsFirstSeenDedup(s[..|s| - 1], r)
  {
    var n := |s| - 1;
    forall i | 0 <= i < |r|
      ensures r[i] in s[..n] && IndexOf(s[..n], r[i]) == IndexOf(s, r[i])
    {
      if r[i] == s[n] {
        IndexOfPrefix(s, n, r[i]);
      } else {
        InPrefixUnlessLast(s, r[i]);
      }
    }
    assert forall i :: 0 <= i < n ==> s[..n][i] == s[i];
  }

  /** When the last element of `s` is new, it closes every first-seen dedup of
      `s`, and the rest is a first-seen dedup of the prefix. */
  lemma DedupNewLast<T>(s: seq<T>, r: seq<T>)
    requires |s| > 0 && s[|s| - 1] !in s[..|s| - 1]
    requires IsFirstSeenDedup(s, r)
    ensures |r| > 0 && r[|r| - 1] == s[|s| - 1]
    ensures IsFirstSeenDedup(s[..|s| - 1], r[..|r| - 1])
  {
    var n := |s| - 1;
    var x := s[n];
    IndexOfUnique(s, x, n);
    assert x in r;
    var m := |r| - 1;
    if r[m] != x {
      InPrefixUnlessLast(s, r[m]);
      assert false;
    }
    var rm := r[..m];
    forall i | 0 <= i < |rm|
      ensures rm[i] in s[..n] && IndexOf(s[..n], rm[i]) == IndexOf(s, rm[i])
    {
      assert rm[i] == r[i] != r[m];
      InPrefixUnlessLast(s, rm[i]);
    }
    forall i | 0 <= i < n
      ensures s[..n][i] in rm
    {
      assert s[i] in r && s[i] != x;
      assert r == rm + [x];
    }
  }

  /** A sequence without duplicates is left unchanged. */
  lemma {:induction false} DistinctOfNoDups<T>(s: seq<T>)
    requires NoDups(s)
    ensures Distinct(s) == s
  {
    if |s| > 0 {
      var n := |s| - 1;
      DistinctOfNoDups(s[..n]);
      assert s[n] !in s[..n];
      assert s == s[..n] + [s[n]];
    }
  }

  /** Applying `get_distinct` twice gives the same list as applying it once. */
  lemma {:induction false} DistinctIdempotent<T>(s: seq<T>)
    ensures Distinct(Distinct(s)) == Distinct(s)
  {
    DistinctOfNoDups(Distinct(s));
  }
}
