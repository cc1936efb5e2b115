/**
 The Python `str` operations the serialisers are built from: `sep.join(xs)`,
 `s.replace(a, b)` for one-character `a` and `b`, `s.ljust(w)`, `c * n` and
 `s.startswith(p)`; and `s.split(c)`, which the serialisers never call and
 which serves only to state that their joined output can be taken apart
 again. Lengths count Unicode scalar values, as Python's `len` does.
 */
module Text {

  /** `sep.join(xs)`. */
  function Join(xs: seq<string>, sep: string): (s: string)
    decreases |xs|
  {
    if |xs| == 0 then ""
    else if |xs| == 1 then xs[0]
    else xs[0] + sep + Join(xs[1..], sep)
  }

  /** `s.split(c)` for a one-character separator: the pieces between
      separators, always at least one. */
  function Split(s: string, c: char): (r: seq<string>)
    ensures |r| >= 1
    decreases |s|
  {
    if |s| == 0 then [""]
    else
      var rest := Split(s[1..], c);
      if s[0] == c then [""] + rest
      else [[s[0]] + rest[0]] + rest[1..]
  }

  /** `c * n`. */
  function Repeat(c: char, n: nat): (r: string)
    ensures |r| == n
    ensures forall i :: 0 <= i < n ==> r[i] == c
  {
    if n == 0 then "" else [c] + Repeat(c, n - 1)
  }

  /** `s.ljust(w)`: `s` followed by spaces up to width `w`, never cut. */
  function LJust(s: string, w: int): (r: string)
    ensures |r| == if w > |s| then w else |s|
    ensures r[..|s|] == s
    ensures forall i :: |s| <= i < |r| ==> r[i] == ' '
  {
    if w > |s| then s + Repeat(' ', w - |s|) else s
  }

  /** `s.replace(a, b)` for single characters `a` and `b`. */
  function Replace(s: string, a: char, b: char): (r: string)
    ensures |r| == |s|
    ensures forall i :: 0 <= i < |s| ==> r[i] == (if s[i] == a then b else s[i])
    ensures a != b ==> a !in r
  {
    seq(|s|, i requires 0 <= i < |s| => if s[i] == a then b else s[i])
  }

  /** `s.startswith(p)`. */
  predicate StartsWith(s: string, p: string) {
    |p| <= |s| && s[..|p|] == p
  }

  // ---------------------------------------------------------------------------
  // Join and Split undo each other.

  lemma {:induction false} SplitNoSeparator(a: string, c: char)
    requires c !in a
    ensures Split(a, c) == [a]
    decreases |a|
  {
    if |a| > 0 {
      SplitNoSeparator(a[1..], c);
      assert [a[0]] + a[1..] == a;
    }
  }

  lemma {:induction false} SplitAtSeparator(a: string, c: char, b: string)
    requires c !in a
    ensures Split(a + [c] + b, c) == [a] + Split(b, c)
    decreases |a|
  {
    var s := a + [c] + b;
    if |a| == 0 {
      assert s[1..] == b;
    } else {
      assert s[1..] == a[1..] + [c] + b;
      SplitAtSeparator(a[1..], c, b);
      assert [a[0]] + a[1..] == a;
    }
  }

  /** Splitting what was joined with a separator none of the pieces contains
      gives the pieces back. */
  lemma {:induction false} SplitJoin(xs: seq<string>, c: char)
    requires |xs| > 0
    requires forall i :: 0 <= i < |xs| ==> c !in xs[i]
    ensures Split(Join(xs, [c]), c) == xs
    decreases |xs|
  {
    if |xs| == 1 {
      SplitNoSeparator(xs[0], c);
    } else {
      SplitJoin(xs[1..], c);
      SplitAtSeparator(xs[0], c, Join(xs[1..], [c]));
      assert [xs[0]] + xs[1..] == xs;
    }
  }

  /** Joining the pieces of a split with the same separator rebuilds the string. */
  lemma {:induction false} JoinSplit(s: string, c: char)
    ensures Join(Split(s, c), [c]) == s
    ensures forall i :: 0 <= i < |Split(s, c)| ==> c !in Split(s, c)[i]
    decreases |s|
  {
    if |s| > 0 {
      JoinSplit(s[1..], c);
      var rest := Split(s[1..], c);
      if s[0] == c {
        assert s == [c] + s[1..];
      } else {
        var r := [[s[0]] + rest[0]] + rest[1..];
        assert Split(s, c) == r;
        if |rest| == 1 {
          assert s == [s[0]] + s[1..];
        } else {
          assert rest == [rest[0]] + rest[1..];
          assert r[1..] == rest[1..];
          assert Join(rest, [c]) == rest[0] + [c] + Join(rest[1..], [c]);
          assert s == [s[0]] + s[1..];
        }
      }
    }
  }

  // ---------------------------------------------------------------------------
  // Facts about built strings that the serialisers rely on.

  /** Padding adds only spaces. */
  lemma LJustAvoids(s: string, w: int, c: char)
    requires c != ' ' && c !in s
    ensures c !in LJust(s, w)
  {
    var r := LJust(s, w);
    forall i | 0 <= i < |r|
      ensures r[i] != c
    {
      if i < |s| {
        assert r[i] == r[..|s|][i];
      }
    }
  }

  /** Replacing one character by another introduces no third character. */
  lemma ReplaceAvoids(s: string, a: char, b: char, c: char)
    requires c != b && c !in s
    ensures c !in Replace(s, a, b)
  {
  }

  /** A joined string contains a character only if a piece or the separator does. */
  lemma {:induction false} JoinAvoids(xs: seq<string>, sep: string, c: char)
    requires c !in sep
    requires forall i :: 0 <= i < |xs| ==> c !in xs[i]
    ensures c !in Join(xs, sep)
    decreases |xs|
  {
    if |xs| > 1 {
      JoinAvoids(xs[1..], sep, c);
    }
  }

  /** The length of a joined string depends only on the lengths of its pieces. */
  lemma {:induction false} JoinLengthByShape(xs: seq<string>, ys: seq<string>, sep: string)
    requires |xs| == |ys|
    requires forall i :: 0 <= i < |xs| ==> |xs[i]| == |ys[i]|
    ensures |Join(xs, sep)| == |Join(ys, sep)|
    decreases |xs|
  {
    if |xs| > 1 {
      JoinLengthByShape(xs[1..], ys[1..], sep);
    }
  }
}
