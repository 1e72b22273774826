/** `sorted(rows, key=lambda i: i['_id'])`: a stable sort of report rows by
    their `_id` under Python's string ordering. It is modelled by an insertion
    sort; `SortByIdIsUnique` shows that every stable sort gives the same
    result, so the choice of algorithm is immaterial. */
module Sorting {
  import opened Seqs
  import opened StringOrder
  import opened Pipes

  /** Every row's `_id` is at most the `_id` of every later row. */
  ghost predicate SortedById(s: seq<Row>) {
    forall i, j :: 0 <= i < j < |s| ==> LessEq(s[i].id, s[j].id)
  }

  /** The rows whose `_id` is `k`, in their order in `s`. */
  function WithId(s: seq<Row>, k: string): seq<Row>
  {
    if |s| == 0 then []
    else (if s[0].id == k then [s[0]] else []) + WithId(s[1..], k)
  }

  /** `s` and `t` hold the same rows for every `_id`, in the same relative
      order: `t` rearranges `s` without reordering rows that share an `_id`. */
  ghost predicate SameOrderPerId(s: seq<Row>, t: seq<Row>) {
    forall k :: WithId(s, k) == WithId(t, k)
  }

  /** Inserts `x` before the first row whose `_id` is not below its own. */
  function Insert(x: Row, s: seq<Row>): (r: seq<Row>)
    ensures multiset(r) == multiset(s) + multiset{x}
  {
    if |s| == 0 then [x]
    else if LessEq(x.id, s[0].id) then [x] + s
    else
      assert s == [s[0]] + s[1..];
      [s[0]] + Insert(x, s[1..])
  }

  /** Sorts by `_id`, inserting each row into the sorted rest that follows it. */
  function SortById(s: seq<Row>): (r: seq<Row>)
    ensures multiset(r) == multiset(s)
  {
    if |s| == 0 then []
    else
      assert s == [s[0]] + s[1..];
      Insert(s[0], SortById(s[1..]))
  }

  /** Every row selected for `k` comes from `s` and has `_id` `k`. */
  lemma {:induction false} WithIdMembers(s: seq<Row>, k: string)
    ensures forall i :: 0 <= i < |WithId(s, k)| ==> WithId(s, k)[i] in s && WithId(s, k)[i].id == k
  {
    if |s| > 0 {
      WithIdMembers(s[1..], k);
    }
  }

  /** Selecting one `_id` from a row followed by a sequence. */
  lemma WithIdCons(x: Row, s: seq<Row>, k: string)
    ensures WithId([x] + s, k) == (if x.id == k then [x] else []) + WithId(s, k)
  {
  }

  lemma {:induction false} InsertKeepsSorted(x: Row, s: seq<Row>)
    requires SortedById(s)
    ensures SortedById(Insert(x, s))
  {
    if |s| > 0 {
      if LessEq(x.id, s[0].id) {
        forall j | 0 <= j < |s|
          ensures LessEq(x.id, s[j].id)
        {
          if j > 0 {
            LessEqTransitive(x.id, s[0].id, s[j].id);
          }
        }
      } else {
        LessEqTotal(x.id, s[0].id);
        var rest := Insert(x, s[1..]);
        InsertKeepsSorted(x, s[1..]);
        forall j | 0 <= j < |rest|
          ensures LessEq(s[0].id, rest[j].id)
        {
          assert rest[j] in multiset(rest);
          if rest[j] != x {
            assert rest[j] in s[1..];
          }
        }
      }
    }
  }

  /** Insertion puts `x` before every row with its own `_id`, which is where it
      belongs when it precedes them in the input. */
  lemma {:induction false} InsertKeepsIdOrder(x: Row, s: seq<Row>, k: string)
    ensures WithId(Insert(x, s), k) == WithId([x] + s, k)
  {
    if |s| > 0 && !LessEq(x.id, s[0].id) {
      var rest := s[1..];
      var hx := if x.id == k then [x] else [];
      var h0 := if s[0].id == k then [s[0]] else [];
      if s[0].id == k && x.id == k {
        LessEqReflexive(k);
      }
      assert h0 + hx == hx + h0;
      calc {
        WithId(Insert(x, s), k);
        { WithIdCons(s[0], Insert(x, rest), k); }
        h0 + WithId(Insert(x, rest), k);
        { InsertKeepsIdOrder(x, rest, k); }
        h0 + WithId([x] + rest, k);
        { WithIdCons(x, rest, k); }
        h0 + (hx + WithId(rest, k));
        (hx + h0) + WithId(rest, k);
        hx + (h0 + WithId(rest, k));
        { WithIdCons(s[0], rest, k); assert s == [s[0]] + rest; }
        hx + WithId(s, k);
        { WithIdCons(x, s, k); }
        WithId([x] + s, k);
      }
    }
  }

  /** The result of `SortById` is sorted, and rows sharing an `_id` keep their
      input order: the sort is stable. */
  lemma {:induction false} SortByIdSortedStable(s: seq<Row>)
    ensures SortedById(SortById(s))
    ensures SameOrderPerId(SortById(s), s)
  {
    if |s| > 0 {
      var rest := SortById(s[1..]);
      SortByIdSortedStable(s[1..]);
      InsertKeepsSorted(s[0], rest);
      forall k
        ensures WithId(SortById(s), k) == WithId(s, k)
      {
        InsertKeepsIdOrder(s[0], rest, k);
        WithIdCons(s[0], rest, k);
        WithIdCons(s[0], s[1..], k);
        assert s == [s[0]] + s[1..];
      }
    }
  }

  /** A non-empty sequence selects its first row under that row's `_id`. */
  lemma WithIdHead(a: seq<Row>)
    requires |a| > 0
    ensures WithId(a, a[0].id) == [a[0]] + WithId(a[1..], a[0].id)
  {
  }

  /** In a sorted sequence, the first row's `_id` is at most that of any row
      selected from it. */
  lemma FirstIdIsLeast(b: seq<Row>, k: string)
    requires SortedById(b) && |b| > 0 && |WithId(b, k)| > 0
    ensures LessEq(b[0].id, k)
  {
    WithIdMembers(b, k);
    var y := WithId(b, k)[0];
    var p :| 0 <= p < |b| && b[p] == y;
    if p == 0 {
      LessEqReflexive(k);
    }
  }

  /** Two sorted sequences that agree on the order of the rows of every `_id`
      are equal. */
  lemma {:induction false} StableSortedUnique(a: seq<Row>, b: seq<Row>)
    requires SortedById(a) && SortedById(b)
    requires SameOrderPerId(a, b)
    ensures a == b
    decreases |a|
  {
    if |a| == 0 || |b| == 0 {
      if |a| > 0 {
        WithIdHead(a);
      } else if |b| > 0 {
        WithIdHead(b);
      }
    } else {
      var ka, kb := a[0].id, b[0].id;
      WithIdHead(a);
      WithIdHead(b);
      FirstIdIsLeast(b, ka);
      FirstIdIsLeast(a, kb);
      LessEqAntisymmetric(ka, kb);
      assert WithId(a, ka) == WithId(b, ka);
      assert WithId(a, ka)[0] == a[0];
      assert WithId(b, kb)[0] == b[0];
      forall k
        ensures WithId(a[1..], k) == WithId(b[1..], k)
      {
        var h := if a[0].id == k then [a[0]] else [];
        assert WithId(a, k) == h + WithId(a[1..], k);
        assert WithId(b, k) == h + WithId(b[1..], k);
        assert WithId(a[1..], k) == (h + WithId(a[1..], k))[|h|..];
        assert WithId(b[1..], k) == (h + WithId(b[1..], k))[|h|..];
      }
      StableSortedUnique(a[1..], b[1..]);
      assert a == [a[0]] + a[1..] && b == [b[0]] + b[1..];
    }
  }

  /** Any sorted arrangement of `s` that keeps the input order of rows sharing
      an `_id` is `SortById(s)`: every stable sort, Python's included, returns
      this sequence. */
  lemma SortByIdIsUnique(s: seq<Row>, t: seq<Row>)
    requires SortedById(t) && SameOrderPerId(t, s)
    ensures t == SortById(s)
  {
    SortByIdSortedStable(s);
    StableSortedUnique(t, SortById(s));
  }
}
