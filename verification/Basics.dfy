/** Stock types and the one splitting fact every framing proof rests on. */
module Basics {

  datatype Option<+T> = None | Some(value: T)

  predicate All<T>(p: T -> bool, s: seq<T>) {
    forall i :: 0 <= i < |s| ==> p(s[i])
  }

  /** True if s is empty or begins with an element outside p. */
  predicate Stops<T>(p: T -> bool, s: seq<T>) {
    s != [] ==> !p(s[0])
  }

  lemma ConcatAt<T>(a: seq<T>, r: seq<T>, i: nat)
    requires i < |a + r|
    ensures (a + r)[i] == if i < |a| then a[i] else r[i - |a|]
  {
  }

  lemma Associate<T>(a: seq<T>, b: seq<T>, c: seq<T>)
    ensures a + (b + c) == (a + b) + c
  {
  }

  predicate StartsWith(s: string, prefix: string) { |prefix| <= |s| && s[..|prefix|] == prefix }

  /** A text is cut in only one way into a part inside p and a rest that begins outside p. */
  lemma SplitUnique<T>(p: T -> bool, a: seq<T>, r: seq<T>, b: seq<T>, t: seq<T>)
    requires a + r == b + t
    requires All(p, a) && All(p, b) && Stops(p, r) && Stops(p, t)
    ensures a == b && r == t
  {
    if |a| < |a + r| {
      ConcatAt(a, r, |a|);
      ConcatAt(b, t, |a|);
    }
    if |b| < |b + t| {
      ConcatAt(a, r, |b|);
      ConcatAt(b, t, |b|);
    }
    assert |a| == |b|;
    assert a == (a + r)[..|a|] == (b + t)[..|b|] == b;
    assert r == (a + r)[|a|..] == (b + t)[|b|..] == t;
  }

  /** Cutting two equal texts at the same length gives equal parts. */
  lemma CutAt<T>(a: seq<T>, r: seq<T>, b: seq<T>, t: seq<T>)
    requires a + r == b + t && |a| == |b|
    ensures a == b && r == t
  {
    assert a == (a + r)[..|a|] == (b + t)[..|b|] == b;
    assert r == (a + r)[|a|..] == (b + t)[|b|..] == t;
  }

  ghost predicate Distinct<T>(s: seq<T>) {
    forall i, j :: 0 <= i < j < |s| ==> s[i] != s[j]
  }

  /** A sequence without repetitions has each of its elements once. */
  lemma {:induction false} DistinctCounts<T>(s: seq<T>, x: T)
    requires Distinct(s)
    ensures multiset(s)[x] == if x in s then 1 else 0
  {
    if s != [] {
      var front, last := s[..|s| - 1], s[|s| - 1];
      assert s == front + [last];
      DistinctCounts(front, x);
    }
  }

  function Filter<T>(p: T -> bool, s: seq<T>): seq<T> {
    if s == [] then [] else (if p(s[0]) then [s[0]] else []) + Filter(p, s[1..])
  }

  /** Filtering keeps every copy of what satisfies p and nothing else. */
  lemma {:induction false} FilterCounts<T>(p: T -> bool, s: seq<T>, x: T)
    ensures multiset(Filter(p, s))[x] == if p(x) then multiset(s)[x] else 0
  {
    if s != [] {
      FilterCounts(p, s[1..], x);
      assert s == [s[0]] + s[1..];
    }
  }

  /** a is b with elements left out. */
  ghost predicate Subsequence<T>(a: seq<T>, b: seq<T>) {
    a == [] || (b != [] && if a[0] == b[0] then Subsequence(a[1..], b[1..]) else Subsequence(a, b[1..]))
  }

  /** Filtering keeps the order. */
  lemma {:induction false} FilterKeepsOrder<T>(p: T -> bool, s: seq<T>)
    ensures All(p, Filter(p, s)) && Subsequence(Filter(p, s), s)
  {
    if s != [] {
      FilterKeepsOrder(p, s[1..]);
      if p(s[0]) {
        assert Filter(p, s)[1..] == Filter(p, s[1..]) && Filter(p, s)[0] == s[0];
      } else {
        assert Filter(p, s) == Filter(p, s[1..]);
        assert Filter(p, s) != [] ==> p(Filter(p, s)[0]);
      }
    }
  }
}
