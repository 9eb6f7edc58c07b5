/**
 * Python's ordering of `str` values: lexicographic by code point, a proper
 * prefix being smaller. Dafny's own `<` on sequences is the proper-prefix
 * test, so the order is defined here and its laws are proved.
 */
module StrOrder {

  /** `a < b` on Python strings; never true of two equal strings. */
  predicate StrLt(a: string, b: string): (r: bool)
    ensures r ==> a != b
    decreases |a|
  {
    if b == [] then false
    else if a == [] then true
    else if a[0] != b[0] then a[0] < b[0]
    else StrLt(a[1..], b[1..])
  }

  lemma {:induction false} StrLtIrreflexive(a: string)
    ensures !StrLt(a, a)
    decreases |a|
  {
    if a != [] {
      StrLtIrreflexive(a[1..]);
    }
  }

  lemma {:induction false} StrLtTransitive(a: string, b: string, c: string)
    requires StrLt(a, b) && StrLt(b, c)
    ensures StrLt(a, c)
    decreases |a|
  {
    if a != [] && a[0] == b[0] && b[0] == c[0] {
      StrLtTransitive(a[1..], b[1..], c[1..]);
    }
  }

  /** Any two different strings are ordered one way or the other. */
  lemma {:induction false} StrLtTotal(a: string, b: string)
    ensures a == b || StrLt(a, b) || StrLt(b, a)
    decreases |a|
  {
    if a != [] && b != [] && a[0] == b[0] {
      StrLtTotal(a[1..], b[1..]);
      if a[1..] == b[1..] {
        assert a == [a[0]] + a[1..] && b == [b[0]] + b[1..];
      }
    }
  }

  lemma StrLtAsymmetric(a: string, b: string)
    requires StrLt(a, b)
    ensures !StrLt(b, a)
  {
    if StrLt(b, a) {
      StrLtTransitive(a, b, a);
      StrLtIrreflexive(a);
    }
  }

  /** `a <= b` on Python strings: equal, or strictly smaller; exactly "not `b < a`". */
  predicate StrLe(a: string, b: string): (r: bool)
    ensures r <==> !StrLt(b, a)
  {
    StrLtTotal(a, b);
    StrLtIrreflexive(a);
    if StrLt(a, b) then StrLtAsymmetric(a, b); true else a == b
  }

  lemma StrLeTransitive(a: string, b: string, c: string)
    requires StrLe(a, b) && StrLe(b, c)
    ensures StrLe(a, c)
  {
    if StrLt(a, b) && StrLt(b, c) {
      StrLtTransitive(a, b, c);
    }
  }

  lemma StrLeAntisymmetric(a: string, b: string)
    requires StrLe(a, b) && StrLe(b, a)
    ensures a == b
  {
    if a != b {
      StrLtAsymmetric(a, b);
    }
  }

  /** A proper prefix (Dafny's `<` on sequences) is smaller in Python's order too. */
  lemma {:induction false} ProperPrefixIsSmaller(a: string, b: string)
    requires a < b
    ensures StrLt(a, b)
    decreases |a|
  {
    if a != [] {
      assert a[1..] < b[1..];
      ProperPrefixIsSmaller(a[1..], b[1..]);
    }
  }

  /** Comparing two strings that start with prefixes of the same length. */
  lemma {:induction false} StrLtConcat(p: string, s: string, q: string, t: string)
    requires |p| == |q|
    ensures StrLt(p + s, q + t) <==> StrLt(p, q) || (p == q && StrLt(s, t))
    decreases |p|
  {
    if p == [] {
      assert p + s == s && q + t == t;
    } else {
      assert (p + s)[0] == p[0] && (q + t)[0] == q[0];
      assert (p + s)[1..] == p[1..] + s && (q + t)[1..] == q[1..] + t;
      assert p == [p[0]] + p[1..] && q == [q[0]] + q[1..];
      if p[0] == q[0] {
        StrLtConcat(p[1..], s, q[1..], t);
        assert (p == q) == (p[1..] == q[1..]);
      } else {
        assert p != q;
      }
    }
  }
}
