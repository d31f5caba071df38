/** The ECMAScript `Array.prototype` / `String.prototype` operations the
    TypeScript code relies on, with their index-clamping rules written out. */
module JsArray {
  import opened Wrappers
  import opened Subsequence

  /** ECMAScript's reading of a possibly negative index relative to a length:
      negative values count from the end, and the result is clamped to [0, len]. */
  function RelativeIndex(len: nat, k: int): (r: nat)
    ensures r <= len
  {
    if k < 0 then (if len + k < 0 then 0 else len + k)
    else if k > len then len
    else k
  }

  /** `s.slice(start)`: a suffix of `s`; a negative start keeps the last `-start` elements. */
  function SliceFrom<T>(s: seq<T>, start: int): (r: seq<T>)
    ensures |r| <= |s| && r == s[|s| - |r|..]
    ensures 0 <= start ==> |r| == (if start <= |s| then |s| - start else 0)
    ensures start < 0 ==> |r| == (if -start <= |s| then -start else |s|)
  {
    s[RelativeIndex(|s|, start)..]
  }

  /** `s.slice(0, end)`: a prefix of `s`; a negative end drops the last `-end` elements. */
  function SliceTo<T>(s: seq<T>, end: int): (r: seq<T>)
    ensures r <= s
    ensures 0 <= end ==> |r| == (if end <= |s| then end else |s|)
    ensures end < 0 ==> |r| == (if -end <= |s| then |s| + end else 0)
  {
    s[..RelativeIndex(|s|, end)]
  }

  /** `s.at(k)`: the element at `k`, counting from the end when `k` is negative. */
  function At<T>(s: seq<T>, k: int): (r: Option<T>)
    ensures r.Some? <==> -|s| <= k < |s|
    ensures r.Some? ==> r.value in s
    ensures r.Some? ==> r.value == if k >= 0 then s[k] else s[|s| + k]
  {
    if 0 <= k < |s| then Some(s[k])
    else if -|s| <= k < 0 then Some(s[|s| + k])
    else None
  }

  /** `s.filter(p)`: the elements satisfying `p`, in their original order. */
  function Filter<T>(s: seq<T>, p: T -> bool): (r: seq<T>)
    ensures IsSubsequence(r, s)
    ensures forall i :: 0 <= i < |r| ==> p(r[i])
    ensures forall x :: x in s ==> (x in r <==> p(x))
    ensures (forall i :: 0 <= i < |s| ==> p(s[i])) ==> r == s
    decreases |s|
  {
    if s == [] then []
    else
      var rest := Filter(s[1..], p);
      assert forall x :: x in s ==> x == s[0] || x in s[1..];
      if p(s[0]) then [s[0]] + rest else rest
  }

  /** `filter` keeps every copy of a satisfying element and no copy of any other:
      each element occurs in the result as often as in the input when it
      satisfies `p`, and not at all otherwise. */
  lemma {:induction false} FilterCounts<T>(s: seq<T>, p: T -> bool)
    ensures forall x :: x in s ==> multiset(Filter(s, p))[x] == if p(x) then multiset(s)[x] else 0
    decreases |s|
  {
    if s != [] {
      FilterCounts(s[1..], p);
      FilterCountsStep(s, p, Filter(s[1..], p), Filter(s, p));
    }
  }

  lemma FilterCountsStep<T>(s: seq<T>, p: T -> bool, rest: seq<T>, r: seq<T>)
    requires s != []
    requires forall x :: x in s[1..] ==> multiset(rest)[x] == if p(x) then multiset(s[1..])[x] else 0
    requires IsSubsequence(rest, s[1..])
    requires r == if p(s[0]) then [s[0]] + rest else rest
    ensures forall x :: x in s ==> multiset(r)[x] == if p(x) then multiset(s)[x] else 0
  {
    assert s == [s[0]] + s[1..];
    assert multiset(s) == multiset{s[0]} + multiset(s[1..]);
    assert multiset(r) == (if p(s[0]) then multiset{s[0]} else multiset{}) + multiset(rest);
    SubsequenceMembers(rest, s[1..]);
    forall x | x in s
      ensures multiset(r)[x] == if p(x) then multiset(s)[x] else 0
    {
      if x !in s[1..] {
        assert x !in rest;
      }
    }
  }

  /** `s.findIndex(p)`: the position of the first element satisfying `p`, or -1. */
  function FindIndex<T>(s: seq<T>, p: T -> bool): (r: int)
    ensures -1 <= r < |s|
    ensures 0 <= r ==> p(s[r]) && forall q :: 0 <= q < r ==> !p(s[q])
    ensures r == -1 <==> forall q :: 0 <= q < |s| ==> !p(s[q])
    decreases |s|
  {
    if s == [] then -1
    else if p(s[0]) then 0
    else
      var r := FindIndex(s[1..], p);
      assert forall q :: 1 <= q < |s| ==> s[q] == s[1..][q - 1];
      if r < 0 then -1 else r + 1
  }

  /** `s.find(p)`: the first element satisfying `p`, if any. */
  function Find<T>(s: seq<T>, p: T -> bool): (r: Option<T>)
    ensures r.None? <==> forall q :: 0 <= q < |s| ==> !p(s[q])
    ensures r.Some? ==> exists k :: 0 <= k < |s| && s[k] == r.value && p(s[k]) && forall q :: 0 <= q < k ==> !p(s[q])
  {
    var k := FindIndex(s, p);
    if k < 0 then None else Some(s[k])
  }
}
