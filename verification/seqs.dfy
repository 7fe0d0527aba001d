/** Sequence helpers shared by the fetchers, the deduplication and the run:
    Python's prefix slice `s[:n]` and the order-preserving subsequence
    relation. */
module Seqs {

  function Min(a: int, b: int): int { if a <= b then a else b }

  function Max(a: int, b: int): int { if a <= b then b else a }

  /** Python's `s[:n]`: the first `n` elements, all of `s` when `n` is at
      least its length, and for a negative `n` everything except the last
      `-n` elements. */
  function Prefix<T>(s: seq<T>, n: int): (r: seq<T>)
    ensures |r| <= |s| && r == s[..|r|]
    ensures 0 <= n ==> |r| == Min(n, |s|)
    ensures n < 0 ==> |r| == Max(0, |s| + n)
  {
    if n >= |s| then s
    else if n >= 0 then s[..n]
    else if |s| + n >= 0 then s[..|s| + n]
    else []
  }

  /** `a` is obtained from `b` by deleting elements, keeping the order of
      the rest. */
  predicate IsSubseq<T(==)>(a: seq<T>, b: seq<T>)
    decreases |b|
  {
    || |a| == 0
    || (&& |b| > 0
        && ((a[0] == b[0] && IsSubseq(a[1..], b[1..])) || IsSubseq(a, b[1..])))
  }

  lemma {:induction false} SubseqRefl<T>(a: seq<T>)
    ensures IsSubseq(a, a)
    decreases |a|
  {
    if |a| > 0 {
      SubseqRefl(a[1..]);
    }
  }

  /** A subsequence is never longer than the sequence it is taken from. */
  lemma {:induction false} SubseqLength<T>(a: seq<T>, b: seq<T>)
    requires IsSubseq(a, b)
    ensures |a| <= |b|
    decreases |b|
  {
    if |a| > 0 {
      if a[0] == b[0] && IsSubseq(a[1..], b[1..]) {
        SubseqLength(a[1..], b[1..]);
      } else {
        SubseqLength(a, b[1..]);
      }
    }
  }

  /** Every element of a subsequence occurs in the sequence it is taken from. */
  lemma {:induction false} SubseqMembers<T>(a: seq<T>, b: seq<T>)
    requires IsSubseq(a, b)
    ensures forall x :: x in a ==> x in b
    decreases |b|
  {
    if |a| > 0 {
      if a[0] == b[0] && IsSubseq(a[1..], b[1..]) {
        SubseqMembers(a[1..], b[1..]);
        assert a == [a[0]] + a[1..];
      } else {
        SubseqMembers(a, b[1..]);
      }
      assert b == [b[0]] + b[1..];
    }
  }

  /** The concatenation of a sequence of sequences (Python's repeated
      `list.extend`). */
  function Flatten<T>(xss: seq<seq<T>>): (r: seq<T>)
    ensures |xss| == 0 ==> r == []
  {
    if |xss| == 0 then [] else xss[0] + Flatten(xss[1..])
  }

  lemma {:induction false} FlattenAppend<T>(a: seq<seq<T>>, b: seq<seq<T>>)
    ensures Flatten(a + b) == Flatten(a) + Flatten(b)
    decreases |a|
  {
    if |a| > 0 {
      assert (a + b)[1..] == a[1..] + b;
      FlattenAppend(a[1..], b);
    } else {
      assert a + b == b;
    }
  }

  /** `f(x)` for each `x` of `xs`, concatenated in order: a loop that
      extends one list with what each element contributes. */
  function FlatMap<A, B>(xs: seq<A>, f: A -> seq<B>): seq<B>
  {
    if |xs| == 0 then [] else f(xs[0]) + FlatMap(xs[1..], f)
  }

  lemma {:induction false} FlatMapAppend<A, B>(a: seq<A>, b: seq<A>, f: A -> seq<B>)
    ensures FlatMap(a + b, f) == FlatMap(a, f) + FlatMap(b, f)
    decreases |a|
  {
    if |a| == 0 {
      assert a + b == b;
    } else {
      assert (a + b)[1..] == a[1..] + b;
      FlatMapAppend(a[1..], b, f);
    }
  }

  /** An element with an empty contribution can be left out. */
  lemma FlatMapSkipEmpty<A, B>(a: seq<A>, x: A, b: seq<A>, f: A -> seq<B>)
    requires f(x) == []
    ensures FlatMap(a + [x] + b, f) == FlatMap(a + b, f)
  {
    FlatMapAppend(a + [x], b, f);
    FlatMapAppend(a, [x], f);
    FlatMapAppend(a, b, f);
    assert FlatMap([x], f) == f(x) + FlatMap([], f);
  }

  /** When each element contributes at most `n` values, the total is at most
      `|xs| * n`. */
  lemma {:induction false} FlatMapBound<A, B>(xs: seq<A>, f: A -> seq<B>, n: nat)
    requires forall x :: x in xs ==> |f(x)| <= n
    ensures |FlatMap(xs, f)| <= |xs| * n
    decreases |xs|
  {
    if |xs| > 0 {
      assert forall x :: x in xs[1..] ==> x in xs;
      FlatMapBound(xs[1..], f, n);
      assert |FlatMap(xs, f)| == |f(xs[0])| + |FlatMap(xs[1..], f)|;
      MulSucc(|xs| - 1, n);
    }
  }

  lemma MulSucc(k: nat, n: int)
    ensures (k + 1) * n == k * n + n
  {
  }

  /** A value of the result comes from the contribution of some element,
      and every contributed value is in the result. */
  lemma {:induction false} FlatMapMembers<A, B>(xs: seq<A>, f: A -> seq<B>)
    ensures forall y :: y in FlatMap(xs, f) ==> exists x :: x in xs && y in f(x)
    ensures forall x, y :: x in xs && y in f(x) ==> y in FlatMap(xs, f)
    decreases |xs|
  {
    if |xs| > 0 {
      var rest := FlatMap(xs[1..], f);
      FlatMapMembers(xs[1..], f);
      assert FlatMap(xs, f) == f(xs[0]) + rest;
      forall x, y | x in xs && y in f(x)
        ensures y in FlatMap(xs, f)
      {
        if x != xs[0] {
          assert x in xs[1..];
        }
      }
      forall y | y in FlatMap(xs, f)
        ensures exists x :: x in xs && y in f(x)
      {
        if y in f(xs[0]) {
          assert xs[0] in xs;
        } else {
          assert y in rest;
          var x :| x in xs[1..] && y in f(x);
          assert x in xs;
        }
      }
    }
  }
}
