/** The ordering Python uses when it compares two `str` values: code point by
    code point from the left, the first differing code point decides, and a
    proper prefix sorts before the longer string. */
module StringOrder {

  /** `a <= b` on Python strings. */
  predicate LessEq(a: string, b: string) {
    if |a| == 0 then true
    else if |b| == 0 then false
    else if a[0] != b[0] then a[0] < b[0]
    else LessEq(a[1..], b[1..])
  }

  lemma {:induction false} LessEqReflexive(a: string)
    ensures LessEq(a, a)
  {
    if |a| > 0 {
      LessEqReflexive(a[1..]);
    }
  }

  /** Any two strings are comparable. */
  lemma {:induction false} LessEqTotal(a: string, b: string)
    ensures LessEq(a, b) || LessEq(b, a)
  {
    if |a| > 0 && |b| > 0 && a[0] == b[0] {
      LessEqTotal(a[1..], b[1..]);
    }
  }

  /** Strings that compare equal in both directions are the same string. */
  lemma {:induction false} LessEqAntisymmetric(a: string, b: string)
    requires LessEq(a, b) && LessEq(b, a)
    ensures a == b
  {
    if |a| > 0 && |b| > 0 {
      LessEqAntisymmetric(a[1..], b[1..]);
      assert a == [a[0]] + a[1..] && b == [b[0]] + b[1..];
    }
  }

  lemma {:induction false} LessEqTransitive(a: string, b: string, c: string)
    requires LessEq(a, b) && LessEq(b, c)
    ensures LessEq(a, c)
  {
    if |a| > 0 && |b| > 0 && |c| > 0 && a[0] == b[0] && b[0] == c[0] {
      LessEqTransitive(a[1..], b[1..], c[1..]);
    }
  }
}
