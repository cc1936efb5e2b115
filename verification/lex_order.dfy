/**
 Python's ordering of `str` values: lexicographic by code point. Dafny's
 built-in `<` on sequences means "proper prefix", so the order is defined
 here, shown to be a strict total order, and used to sort a set of strings
 the way `sorted(some_set)` does.
 */
module LexOrder {

  /** `a < b` on Python strings: the first differing code point decides, and a
      proper prefix is smaller than the longer string. */
  predicate LexLt(a: string, b: string)
    decreases |a|
  {
    |b| > 0 && (|a| == 0 || a[0] < b[0] || (a[0] == b[0] && LexLt(a[1..], b[1..])))
  }

  /** `a <= b` on Python strings. */
  predicate LexLe(a: string, b: string) {
    a == b || LexLt(a, b)
  }

  /** Every pair of positions is in strictly increasing order. */
  predicate StrictlySorted(xs: seq<string>) {
    forall i, j :: 0 <= i < j < |xs| ==> LexLt(xs[i], xs[j])
  }

  lemma {:induction false} LexLtIrreflexive(a: string)
    ensures !LexLt(a, a)
    decreases |a|
  {
    if |a| > 0 {
      LexLtIrreflexive(a[1..]);
    }
  }

  lemma {:induction false} LexLtTransitive(a: string, b: string, c: string)
    requires LexLt(a, b) && LexLt(b, c)
    ensures LexLt(a, c)
    decreases |a|
  {
    if |a| > 0 && a[0] == b[0] && b[0] == c[0] {
      LexLtTransitive(a[1..], b[1..], c[1..]);
    }
  }

  lemma {:induction false} LexLtTotal(a: string, b: string)
    ensures a == b || LexLt(a, b) || LexLt(b, a)
    decreases |a|
  {
    if |a| > 0 && |b| > 0 && a[0] == b[0] {
      LexLtTotal(a[1..], b[1..]);
      if a[1..] == b[1..] {
        assert a == [a[0]] + a[1..] && b == [b[0]] + b[1..];
      }
    }
  }

  lemma LexLtAsymmetric(a: string, b: string)
    requires LexLt(a, b)
    ensures !LexLt(b, a)
  {
    if LexLt(b, a) {
      LexLtTransitive(a, b, a);
      LexLtIrreflexive(a);
    }
  }

  /** `LexLe` is transitive. */
  lemma LexLeTransitive(a: string, b: string, c: string)
    requires LexLe(a, b) && LexLe(b, c)
    ensures LexLe(a, c)
  {
    if a != b && b != c {
      LexLtTransitive(a, b, c);
    }
  }

  /** `LexLe` is antisymmetric, so a least element of a set is unique. */
  lemma LexLeAntisymmetric(a: string, b: string)
    requires LexLe(a, b) && LexLe(b, a)
    ensures a == b
  {
    if a != b {
      LexLtAsymmetric(a, b);
    }
  }

  predicate IsLeast(m: string, s: set<string>) {
    m in s && forall x :: x in s ==> LexLe(m, x)
  }

  lemma {:induction false} LeastExists(s: set<string>)
    requires s != {}
    ensures exists m :: IsLeast(m, s)
    decreases |s|
  {
    var x :| x in s;
    var rest := s - {x};
    if rest == {} {
      assert s == {x};
      assert IsLeast(x, s);
    } else {
      LeastExists(rest);
      var m :| IsLeast(m, rest);
      LexLtTotal(x, m);
      if LexLt(x, m) {
        forall y | y in s
          ensures LexLe(x, y)
        {
          if y != x {
            assert LexLe(m, y);
            if m != y {
              LexLtTransitive(x, m, y);
            }
          }
        }
        assert IsLeast(x, s);
      } else {
        assert IsLeast(m, s);
      }
    }
  }

  lemma LeastUnique(s: set<string>)
    ensures forall m, n :: IsLeast(m, s) && IsLeast(n, s) ==> m == n
  {
    forall m, n | IsLeast(m, s) && IsLeast(n, s)
      ensures m == n
    {
      LexLeAntisymmetric(m, n);
    }
  }

  lemma LeastBeforeRest(m: string, s: set<string>, rest: seq<string>)
    requires IsLeast(m, s)
    requires forall x :: x in rest <==> x in s - {m}
    requires StrictlySorted(rest)
    ensures StrictlySorted([m] + rest)
  {
    forall j | 0 <= j < |rest|
      ensures LexLt(m, rest[j])
    {
      assert rest[j] in s - {m};
    }
  }

  /** `sorted(s)` for a set of strings: its elements, each once, ascending. */
  function SortedSet(s: set<string>): (r: seq<string>)
    ensures |r| == |s|
    ensures forall x :: x in r <==> x in s
    ensures StrictlySorted(r)
    decreases |s|
  {
    if s == {} then []
    else
      LeastExists(s);
      LeastUnique(s);
      var m :| IsLeast(m, s);
      var rest := SortedSet(s - {m});
      LeastBeforeRest(m, s, rest);
      [m] + rest
  }
}
