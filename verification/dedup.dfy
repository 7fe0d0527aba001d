/** First-occurrence deduplication by a string key, the one rule behind both
    the URL deduplication of `NewsFetcher.fetch` and `dedupe_by_key`. */
module Dedup {
  import opened Seqs
  import opened Options

  /** The first element of `xs` whose key is `k`, if any. */
  function FindFirst<T>(xs: seq<T>, key: T -> string, k: string): (r: Option<T>)
    ensures r.Some? ==> r.value in xs && key(r.value) == k
    ensures r.None? <==> forall i :: 0 <= i < |xs| ==> key(xs[i]) != k
  {
    if |xs| == 0 then None
    else if key(xs[0]) == k then Some(xs[0])
    else FindFirst(xs[1..], key, k)
  }

  predicate DistinctKeys<T>(xs: seq<T>, key: T -> string) {
    forall i, j :: 0 <= i < j < |xs| ==> key(xs[i]) != key(xs[j])
  }

  /** The elements of `xs` whose key is neither in `seen` nor the key of an
      element kept before them: the loop `if v in seen: continue;
      seen.add(v); out.append(it)` started from `seen`. */
  function KeepFirst<T>(xs: seq<T>, key: T -> string, seen: set<string>): seq<T>
  {
    if |xs| == 0 then []
    else if key(xs[0]) in seen then KeepFirst(xs[1..], key, seen)
    else [xs[0]] + KeepFirst(xs[1..], key, seen + {key(xs[0])})
  }

  /** The result keeps the order of the input and only drops elements. */
  lemma {:induction false} KeepFirstSubseq<T>(xs: seq<T>, key: T -> string, seen: set<string>)
    ensures IsSubseq(KeepFirst(xs, key, seen), xs)
    decreases |xs|
  {
    if |xs| > 0 {
      var k := key(xs[0]);
      if k in seen {
        KeepFirstSubseq(xs[1..], key, seen);
      } else {
        KeepFirstSubseq(xs[1..], key, seen + {k});
        var r := KeepFirst(xs, key, seen);
        assert r[1..] == KeepFirst(xs[1..], key, seen + {k});
      }
    }
  }

  /** Kept keys are pairwise distinct and none of them was already seen. */
  lemma {:induction false} KeepFirstDistinct<T>(xs: seq<T>, key: T -> string, seen: set<string>)
    ensures var r := KeepFirst(xs, key, seen);
      DistinctKeys(r, key) && forall j :: 0 <= j < |r| ==> key(r[j]) !in seen
    decreases |xs|
  {
    if |xs| > 0 {
      var k := key(xs[0]);
      if k in seen {
        KeepFirstDistinct(xs[1..], key, seen);
      } else {
        var rest := KeepFirst(xs[1..], key, seen + {k});
        KeepFirstDistinct(xs[1..], key, seen + {k});
        var r := [xs[0]] + rest;
        assert forall j :: 1 <= j < |r| ==> r[j] == rest[j - 1];
      }
    }
  }

  /** Some element of `xs` has key `k`. */
  predicate HasKey<T>(xs: seq<T>, key: T -> string, k: string) {
    exists j :: 0 <= j < |xs| && key(xs[j]) == k
  }

  /** No key is lost: every key of the input that was not already seen is
      the key of some kept element. */
  lemma {:induction false} KeepFirstComplete<T>(xs: seq<T>, key: T -> string, seen: set<string>)
    ensures forall i :: 0 <= i < |xs| && key(xs[i]) !in seen ==>
      HasKey(KeepFirst(xs, key, seen), key, key(xs[i]))
    decreases |xs|
  {
    if |xs| > 0 {
      var k := key(xs[0]);
      var r := KeepFirst(xs, key, seen);
      if k in seen {
        KeepFirstComplete(xs[1..], key, seen);
        forall i | 0 <= i < |xs| && key(xs[i]) !in seen
          ensures HasKey(r, key, key(xs[i]))
        {
          assert xs[i] == xs[1..][i - 1];
        }
      } else {
        var rest := KeepFirst(xs[1..], key, seen + {k});
        KeepFirstComplete(xs[1..], key, seen + {k});
        forall i | 0 <= i < |xs| && key(xs[i]) !in seen
          ensures HasKey(r, key, key(xs[i]))
        {
          if key(xs[i]) == k {
            assert r[0] == xs[0];
          } else {
            assert xs[i] == xs[1..][i - 1];
            var j :| 0 <= j < |rest| && key(rest[j]) == key(xs[i]);
            assert r[j + 1] == rest[j];
          }
        }
      }
    }
  }

  /** Each kept element is the first element of the input with its key. */
  lemma {:induction false} KeepFirstIsFirst<T>(xs: seq<T>, key: T -> string, seen: set<string>)
    ensures var r := KeepFirst(xs, key, seen);
      forall j :: 0 <= j < |r| ==> FindFirst(xs, key, key(r[j])) == Some(r[j])
    decreases |xs|
  {
    if |xs| > 0 {
      var k := key(xs[0]);
      var r := KeepFirst(xs, key, seen);
      if k in seen {
        KeepFirstIsFirst(xs[1..], key, seen);
        KeepFirstDistinct(xs[1..], key, seen);
      } else {
        var rest := KeepFirst(xs[1..], key, seen + {k});
        KeepFirstIsFirst(xs[1..], key, seen + {k});
        KeepFirstDistinct(xs[1..], key, seen + {k});
        forall j | 0 <= j < |r|
          ensures FindFirst(xs, key, key(r[j])) == Some(r[j])
        {
          if j > 0 {
            assert r[j] == rest[j - 1];
          }
        }
      }
    }
  }

  /** Input whose keys are already distinct and unseen passes unchanged. */
  lemma {:induction false} KeepFirstOfDistinct<T>(xs: seq<T>, key: T -> string, seen: set<string>)
    requires DistinctKeys(xs, key)
    requires forall i :: 0 <= i < |xs| ==> key(xs[i]) !in seen
    ensures KeepFirst(xs, key, seen) == xs
    decreases |xs|
  {
    if |xs| > 0 {
      var k := key(xs[0]);
      assert forall i :: 1 <= i < |xs| ==> key(xs[i]) != k;
      assert forall i :: 0 <= i < |xs| - 1 ==> xs[1..][i] == xs[i + 1];
      KeepFirstOfDistinct(xs[1..], key, seen + {k});
    }
  }

  /** Deduplicating twice is deduplicating once. */
  lemma KeepFirstIdempotent<T>(xs: seq<T>, key: T -> string, seen: set<string>)
    ensures KeepFirst(KeepFirst(xs, key, seen), key, seen) == KeepFirst(xs, key, seen)
  {
    KeepFirstDistinct(xs, key, seen);
    KeepFirstOfDistinct(KeepFirst(xs, key, seen), key, seen);
  }

  /** Deduplication never lengthens the input. */
  lemma KeepFirstLength<T>(xs: seq<T>, key: T -> string, seen: set<string>)
    ensures |KeepFirst(xs, key, seen)| <= |xs|
  {
    KeepFirstSubseq(xs, key, seen);
    SubseqLength(KeepFirst(xs, key, seen), xs);
  }
}
