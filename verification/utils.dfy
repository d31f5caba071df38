/** `firstUnique` is imported by src/fetch.ts from src/app/utils, whose text
    is not part of this model. Its behaviour here is assumed, inferred from
    its name and its call at src/fetch.ts:33-41: keep, in input order, the
    first elements with unseen keys until `n` are kept or the input runs
    out. */
module Utils {
  import opened Subsequence

  function Min(a: int, b: int): int {
    if a <= b then a else b
  }

  /** The distinct keys occurring in `xs`. */
  function KeysOf<T, K>(key: T -> K, xs: seq<T>): set<K>
    decreases |xs|
  {
    if xs == [] then {} else {key(xs[0])} + KeysOf(key, xs[1..])
  }

  /** No two elements of `xs` share a key. */
  predicate DistinctKeys<T, K(==)>(key: T -> K, xs: seq<T>) {
    forall i, j :: 0 <= i < j < |xs| ==> key(xs[i]) != key(xs[j])
  }

  /** `x` occurs in `xs` and no earlier element of `xs` has its key. */
  ghost predicate FirstOfItsKey<T, K>(key: T -> K, xs: seq<T>, x: T) {
    exists i :: 0 <= i < |xs| && xs[i] == x && forall j :: 0 <= j < i ==> key(xs[j]) != key(x)
  }

  /** The position of the first element of `xs` whose key is `k`, or `|xs|`
      when there is none. */
  function FirstKeyIndex<T, K(==)>(key: T -> K, xs: seq<T>, k: K): (p: nat)
    ensures p <= |xs|
    ensures p < |xs| ==> key(xs[p]) == k
    ensures forall q :: 0 <= q < p ==> key(xs[q]) != k
    decreases |xs|
  {
    if xs == [] then 0
    else if key(xs[0]) == k then 0
    else
      var p := FirstKeyIndex(key, xs[1..], k);
      assert forall q :: 1 <= q < p + 1 ==> xs[q] == xs[1..][q - 1];
      p + 1
  }

  /** The scan behind `firstUnique`, with the keys already taken in `seen`. */
  function FirstUniqueFrom<T, K(==)>(n: nat, key: T -> K, xs: seq<T>, seen: set<K>): (r: seq<T>)
    ensures |r| <= n
    ensures forall i :: 0 <= i < |r| ==> key(r[i]) !in seen
    decreases |xs|
  {
    if n == 0 || xs == [] then []
    else
      var k := key(xs[0]);
      if k in seen then FirstUniqueFrom(n, key, xs[1..], seen)
      else [xs[0]] + FirstUniqueFrom(n - 1, key, xs[1..], seen + {k})
  }

  /** The scan keeps a subsequence of its input. */
  lemma {:induction false} FirstUniqueFromIsSubsequence<T, K>(n: nat, key: T -> K, xs: seq<T>, seen: set<K>)
    ensures IsSubsequence(FirstUniqueFrom(n, key, xs, seen), xs)
    decreases |xs|
  {
    if n != 0 && xs != [] {
      var k := key(xs[0]);
      if k in seen {
        FirstUniqueFromIsSubsequence(n, key, xs[1..], seen);
        var rest := FirstUniqueFrom(n, key, xs[1..], seen);
        assert rest != [] ==> IsSubsequence(rest, xs);
      } else {
        FirstUniqueFromIsSubsequence(n - 1, key, xs[1..], seen + {k});
        var rest := FirstUniqueFrom(n - 1, key, xs[1..], seen + {k});
        assert ([xs[0]] + rest)[1..] == rest;
      }
    }
  }

  /** The scan never keeps two elements with the same key. */
  lemma {:induction false} FirstUniqueFromDistinctKeys<T, K>(n: nat, key: T -> K, xs: seq<T>, seen: set<K>)
    ensures DistinctKeys(key, FirstUniqueFrom(n, key, xs, seen))
    decreases |xs|
  {
    if n != 0 && xs != [] {
      var k := key(xs[0]);
      if k in seen {
        FirstUniqueFromDistinctKeys(n, key, xs[1..], seen);
      } else {
        FirstUniqueFromDistinctKeys(n - 1, key, xs[1..], seen + {k});
        var rest := FirstUniqueFrom(n - 1, key, xs[1..], seen + {k});
        var r := [xs[0]] + rest;
        forall i, j | 0 <= i < j < |r|
          ensures key(r[i]) != key(r[j])
        {
          assert r[j] == rest[j - 1];
          if i > 0 {
            assert r[i] == rest[i - 1];
          }
        }
      }
    }
  }

  /** The scan keeps as many elements as there are unseen keys, up to `n`. */
  lemma {:induction false} FirstUniqueFromCount<T, K>(n: nat, key: T -> K, xs: seq<T>, seen: set<K>)
    ensures |FirstUniqueFrom(n, key, xs, seen)| == Min(n, |KeysOf(key, xs) - seen|)
    decreases |xs|, 1
  {
    if xs == [] {
      assert KeysOf(key, xs) - seen == {};
    } else if n != 0 && key(xs[0]) in seen {
      CountPastSeen(n, key, xs, seen);
    } else if n != 0 {
      CountPastKept(n, key, xs, seen);
    }
  }

  /** A head whose key was seen before adds nothing to the count. */
  lemma {:induction false} CountPastSeen<T, K>(n: nat, key: T -> K, xs: seq<T>, seen: set<K>)
    requires n != 0 && xs != [] && key(xs[0]) in seen
    ensures |FirstUniqueFrom(n, key, xs, seen)| == Min(n, |KeysOf(key, xs) - seen|)
    decreases |xs|, 0
  {
    FirstUniqueFromCount(n, key, xs[1..], seen);
    FirstUniqueFromSkipsSeen(n, key, xs, seen);
    assert KeysOf(key, xs) - seen == KeysOf(key, xs[1..]) - seen;
  }

  /** A kept head counts once: its key is unseen and leaves the rest's unseen keys. */
  lemma {:induction false} CountPastKept<T, K>(n: nat, key: T -> K, xs: seq<T>, seen: set<K>)
    requires n != 0 && xs != [] && key(xs[0]) !in seen
    ensures |FirstUniqueFrom(n, key, xs, seen)| == Min(n, |KeysOf(key, xs) - seen|)
    decreases |xs|, 0
  {
    var k := key(xs[0]);
    FirstUniqueFromCount(n - 1, key, xs[1..], seen + {k});
    FirstUniqueFromKeepsUnseen(n, key, xs, seen);
    var unseen := KeysOf(key, xs[1..]) - (seen + {k});
    assert KeysOf(key, xs) - seen == {k} + unseen;
    assert |KeysOf(key, xs) - seen| == 1 + |unseen|;
  }

  /** `firstUnique(n, key, xs)`. */
  function FirstUnique<T, K(==)>(n: nat, key: T -> K, xs: seq<T>): (r: seq<T>)
    ensures |r| <= n
    ensures IsSubsequence(r, xs)
    ensures DistinctKeys(key, r)
    ensures |r| == Min(n, |KeysOf(key, xs)|)
  {
    FirstUniqueFromIsSubsequence(n, key, xs, {});
    FirstUniqueFromDistinctKeys(n, key, xs, {});
    FirstUniqueFromCount(n, key, xs, {});
    FirstUniqueFrom(n, key, xs, {})
  }

  /** Every kept element is the first element of the input carrying its key. */
  lemma {:induction false} FirstUniqueFromKeepsFirstOccurrences<T, K>(n: nat, key: T -> K, xs: seq<T>, seen: set<K>)
    ensures forall e :: 0 <= e < |FirstUniqueFrom(n, key, xs, seen)| ==>
              FirstOfItsKey(key, xs, FirstUniqueFrom(n, key, xs, seen)[e])
    decreases |xs|
  {
    var r := FirstUniqueFrom(n, key, xs, seen);
    if n != 0 && xs != [] {
      var k := key(xs[0]);
      var m := if k in seen then n else n - 1;
      var seen' := if k in seen then seen else seen + {k};
      var rest := FirstUniqueFrom(m, key, xs[1..], seen');
      FirstUniqueFromKeepsFirstOccurrences(m, key, xs[1..], seen');
      forall e | 0 <= e < |r|
        ensures FirstOfItsKey(key, xs, r[e])
      {
        if k !in seen && e == 0 {
          assert xs[0] == r[e];
        } else {
          var x := if k in seen then rest[e] else rest[e - 1];
          assert x == r[e];
          assert key(x) != k;
          var i :| 0 <= i < |xs[1..]| && xs[1..][i] == x && forall j :: 0 <= j < i ==> key(xs[1..][j]) != key(x);
          assert xs[i + 1] == x;
          assert forall j :: 1 <= j < i + 1 ==> xs[j] == xs[1..][j - 1];
        }
      }
    }
  }

  lemma FirstUniqueKeepsFirstOccurrences<T, K>(n: nat, key: T -> K, xs: seq<T>)
    ensures forall e :: 0 <= e < |FirstUnique(n, key, xs)| ==> FirstOfItsKey(key, xs, FirstUnique(n, key, xs)[e])
  {
    FirstUniqueFromKeepsFirstOccurrences(n, key, xs, {});
  }

  /** Keys are taken in order of first appearance: an element whose key is
      neither seen nor kept was passed over only because `n` elements had
      already been kept, all of them from before it. */
  lemma {:induction false} FirstUniqueFromTakesEarliestKeys<T, K>(n: nat, key: T -> K, xs: seq<T>, seen: set<K>)
    ensures var r := FirstUniqueFrom(n, key, xs, seen);
            forall i :: 0 <= i < |xs| && key(xs[i]) !in seen && key(xs[i]) !in KeysOf(key, r) ==>
              |r| == n && IsSubsequence(r, xs[..i])
    decreases |xs|
  {
    var r := FirstUniqueFrom(n, key, xs, seen);
    if n != 0 && xs != [] {
      var k := key(xs[0]);
      var m := if k in seen then n else n - 1;
      var seen' := if k in seen then seen else seen + {k};
      var rest := FirstUniqueFrom(m, key, xs[1..], seen');
      FirstUniqueFromTakesEarliestKeys(m, key, xs[1..], seen');
      assert r == if k in seen then rest else [xs[0]] + rest;
      if k !in seen {
        assert r[1..] == rest;
        assert KeysOf(key, r) == {k} + KeysOf(key, rest);
      }
      forall i | 0 <= i < |xs| && key(xs[i]) !in seen && key(xs[i]) !in KeysOf(key, r)
        ensures |r| == n && IsSubsequence(r, xs[..i])
      {
        assert i != 0;
        assert xs[1..][i - 1] == xs[i];
        assert xs[..i][1..] == xs[1..][..i - 1];
        assert IsSubsequence(rest, xs[1..][..i - 1]);
        if k !in seen {
          assert r[0] == xs[..i][0];
        }
      }
    }
  }

  /** `firstUnique` keeps the first `n` distinct keys: any key it leaves out
      first appears after everything it kept, and only once `n` are kept. */
  lemma FirstUniqueTakesEarliestKeys<T, K>(n: nat, key: T -> K, xs: seq<T>)
    ensures var r := FirstUnique(n, key, xs);
            forall i :: 0 <= i < |xs| && key(xs[i]) !in KeysOf(key, r) ==> |r| == n && IsSubsequence(r, xs[..i])
  {
    FirstUniqueFromTakesEarliestKeys(n, key, xs, {});
  }

  /** Past a first element with another key, the first position of `k` moves by one. */
  lemma FirstKeyIndexSkip<T, K>(key: T -> K, xs: seq<T>, k: K)
    requires xs != [] && key(xs[0]) != k
    ensures FirstKeyIndex(key, xs, k) == 1 + FirstKeyIndex(key, xs[1..], k)
  {
  }

  /** A head whose key was already seen is skipped. */
  lemma FirstUniqueFromSkipsSeen<T, K>(n: nat, key: T -> K, xs: seq<T>, seen: set<K>)
    requires n != 0 && xs != [] && key(xs[0]) in seen
    ensures FirstUniqueFrom(n, key, xs, seen) == FirstUniqueFrom(n, key, xs[1..], seen)
  {
  }

  /** A head with an unseen key is kept, and its key joins the seen ones. */
  lemma FirstUniqueFromKeepsUnseen<T, K>(n: nat, key: T -> K, xs: seq<T>, seen: set<K>)
    requires n != 0 && xs != [] && key(xs[0]) !in seen
    ensures FirstUniqueFrom(n, key, xs, seen) == [xs[0]] + FirstUniqueFrom(n - 1, key, xs[1..], seen + {key(xs[0])})
  {
  }

  /** Past a kept head, the element at `e` is the rest's element at `e - 1`,
      and its key is not the head's. */
  lemma FirstUniqueFromAfterKept<T, K>(n: nat, key: T -> K, xs: seq<T>, seen: set<K>, e: nat)
    requires xs != [] && key(xs[0]) !in seen
    requires 0 < e < |FirstUniqueFrom(n, key, xs, seen)|
    ensures e - 1 < |FirstUniqueFrom(n - 1, key, xs[1..], seen + {key(xs[0])})|
    ensures FirstUniqueFrom(n, key, xs, seen)[e] == FirstUniqueFrom(n - 1, key, xs[1..], seen + {key(xs[0])})[e - 1]
    ensures key(FirstUniqueFrom(n, key, xs, seen)[e]) != key(xs[0])
  {
    FirstUniqueFromKeepsUnseen(n, key, xs, seen);
  }

  /** Kept elements come out in the order in which their keys first appear. */
  lemma {:induction false} FirstUniqueFromInKeyOrder<T, K>(n: nat, key: T -> K, xs: seq<T>, seen: set<K>, e1: nat, e2: nat)
    requires e1 < e2 < |FirstUniqueFrom(n, key, xs, seen)|
    ensures FirstKeyIndex(key, xs, key(FirstUniqueFrom(n, key, xs, seen)[e1])) <
            FirstKeyIndex(key, xs, key(FirstUniqueFrom(n, key, xs, seen)[e2]))
    decreases |xs|, 1
  {
    if key(xs[0]) in seen {
      InKeyOrderPastSeenHead(n, key, xs, seen, e1, e2);
    } else if e1 == 0 {
      InKeyOrderAtHead(n, key, xs, seen, e2);
    } else {
      InKeyOrderPastKeptHead(n, key, xs, seen, e1, e2);
    }
  }

  /** A kept head comes first in key order: its key first appears at position 0. */
  lemma InKeyOrderAtHead<T, K>(n: nat, key: T -> K, xs: seq<T>, seen: set<K>, e2: nat)
    requires xs != [] && key(xs[0]) !in seen
    requires 0 < e2 < |FirstUniqueFrom(n, key, xs, seen)|
    ensures var r := FirstUniqueFrom(n, key, xs, seen);
            FirstKeyIndex(key, xs, key(r[0])) < FirstKeyIndex(key, xs, key(r[e2]))
  {
    var k := key(xs[0]);
    FirstUniqueFromKeepsUnseen(n, key, xs, seen);
    var rest := FirstUniqueFrom(n - 1, key, xs[1..], seen + {k});
    var k2 := key(FirstUniqueFrom(n, key, xs, seen)[e2]);
    assert k2 == key(rest[e2 - 1]);
    assert k2 != k;
    FirstKeyIndexSkip(key, xs, k2);
  }

  lemma {:induction false} InKeyOrderPastSeenHead<T, K>(n: nat, key: T -> K, xs: seq<T>, seen: set<K>, e1: nat, e2: nat)
    requires xs != [] && key(xs[0]) in seen
    requires e1 < e2 < |FirstUniqueFrom(n, key, xs, seen)|
    ensures var r := FirstUniqueFrom(n, key, xs, seen);
            FirstKeyIndex(key, xs, key(r[e1])) < FirstKeyIndex(key, xs, key(r[e2]))
    decreases |xs|, 0
  {
    FirstUniqueFromSkipsSeen(n, key, xs, seen);
    var r := FirstUniqueFrom(n, key, xs, seen);
    var k1, k2 := key(r[e1]), key(r[e2]);
    assert k1 !in seen && k2 !in seen;
    FirstKeyIndexSkip(key, xs, k1);
    FirstKeyIndexSkip(key, xs, k2);
    FirstUniqueFromInKeyOrder(n, key, xs[1..], seen, e1, e2);
  }

  lemma {:induction false} InKeyOrderPastKeptHead<T, K>(n: nat, key: T -> K, xs: seq<T>, seen: set<K>, e1: nat, e2: nat)
    requires xs != [] && key(xs[0]) !in seen
    requires 0 < e1 < e2 < |FirstUniqueFrom(n, key, xs, seen)|
    ensures var r := FirstUniqueFrom(n, key, xs, seen);
            FirstKeyIndex(key, xs, key(r[e1])) < FirstKeyIndex(key, xs, key(r[e2]))
    decreases |xs|, 0
  {
    FirstUniqueFromAfterKept(n, key, xs, seen, e1);
    FirstUniqueFromAfterKept(n, key, xs, seen, e2);
    var rest := FirstUniqueFrom(n - 1, key, xs[1..], seen + {key(xs[0])});
    FirstKeyIndexSkip(key, xs, key(rest[e1 - 1]));
    FirstKeyIndexSkip(key, xs, key(rest[e2 - 1]));
    FirstUniqueFromInKeyOrder(n - 1, key, xs[1..], seen + {key(xs[0])}, e1 - 1, e2 - 1);
  }

  /** `firstUnique` lists its elements in the order in which their keys first
      appear in the input. */
  lemma FirstUniqueInKeyOrder<T, K>(n: nat, key: T -> K, xs: seq<T>)
    ensures var r := FirstUnique(n, key, xs);
            forall e1, e2 :: 0 <= e1 < e2 < |r| ==> FirstKeyIndex(key, xs, key(r[e1])) < FirstKeyIndex(key, xs, key(r[e2]))
  {
    var r := FirstUnique(n, key, xs);
    forall e1, e2 | 0 <= e1 < e2 < |r|
      ensures FirstKeyIndex(key, xs, key(r[e1])) < FirstKeyIndex(key, xs, key(r[e2]))
    {
      FirstUniqueFromInKeyOrder(n, key, xs, {}, e1, e2);
    }
  }

  lemma {:induction false} KeysOfNonEmpty<T, K>(key: T -> K, xs: seq<T>)
    requires xs != []
    ensures |KeysOf(key, xs)| >= 1
  {
    assert key(xs[0]) in KeysOf(key, xs);
  }
}
