/** `sorted(set(xs))` and `min(xs)` over integer lists. */
module Sorting {

  predicate StrictlyIncreasing(s: seq<int>) {
    forall i, j :: 0 <= i < j < |s| ==> s[i] < s[j]
  }

  /** Inserts `x` into a strictly increasing list, keeping it so and dropping a duplicate. */
  function Insert(s: seq<int>, x: int): (r: seq<int>)
    requires StrictlyIncreasing(s)
    ensures StrictlyIncreasing(r)
    ensures forall y :: y in r <==> y in s || y == x
  {
    if |s| == 0 then [x]
    else if x < s[0] then [x] + s
    else if x == s[0] then s
    else
      var rest := Insert(s[1..], x);
      var r := [s[0]] + rest;
      assert forall y :: y in rest ==> s[0] < y by {
        forall y | y in rest ensures s[0] < y {
          if y in s[1..] {
            var k :| 0 <= k < |s[1..]| && s[1..][k] == y;
            assert s[k + 1] == y;
          }
        }
      }
      assert StrictlyIncreasing(r) by {
        forall i, j | 0 <= i < j < |r| ensures r[i] < r[j] {
          assert r[j] == rest[j - 1] && r[j] in rest;
          if i > 0 {
            assert r[i] == rest[i - 1];
          }
        }
      }
      r
  }

  /** Python's `sorted(set(xs))`. */
  function SortedUnique(xs: seq<int>): (r: seq<int>)
    ensures StrictlyIncreasing(r)
    ensures forall y :: y in r <==> y in xs
  {
    if |xs| == 0 then []
    else
      var r := Insert(SortedUnique(xs[..|xs| - 1]), xs[|xs| - 1]);
      assert xs == xs[..|xs| - 1] + [xs[|xs| - 1]];
      r
  }

  lemma HeadIsElement(s: seq<int>)
    ensures |s| > 0 ==> s[0] in s
  {
  }

  /** Two strictly increasing lists with the same elements are the same list. */
  lemma {:induction false} StrictlyIncreasingUnique(a: seq<int>, b: seq<int>)
    requires StrictlyIncreasing(a) && StrictlyIncreasing(b)
    requires forall y :: y in a <==> y in b
    ensures a == b
  {
    if |a| > 0 && |b| > 0 {
      assert a[0] in a && b[0] in b;
      var k :| 0 <= k < |b| && b[k] == a[0];
      var l :| 0 <= l < |a| && a[l] == b[0];
      assert b[0] <= a[0] && a[0] <= b[0];
      forall y ensures y in a[1..] <==> y in b[1..] {
        if y in a[1..] {
          assert y in b && y != b[0];
        }
        if y in b[1..] {
          assert y in a && y != a[0];
        }
      }
      StrictlyIncreasingUnique(a[1..], b[1..]);
      assert a == [a[0]] + a[1..] && b == [b[0]] + b[1..];
    } else {
      HeadIsElement(a);
      HeadIsElement(b);
    }
  }

  /** Python's `min(xs)` for a non-empty list. */
  function Min(xs: seq<int>): (m: int)
    requires |xs| > 0
    ensures m in xs
    ensures forall y :: y in xs ==> m <= y
  {
    if |xs| == 1 then xs[0]
    else
      var rest := Min(xs[1..]);
      assert forall y :: y in xs ==> y == xs[0] || y in xs[1..];
      if xs[0] <= rest then xs[0] else rest
  }

  /** Python's `xs[:n]`, including a negative `n`. */
  function TakePrefix(xs: seq<int>, n: int): (r: seq<int>)
    ensures n >= 0 ==> |r| == if n < |xs| then n else |xs|
    ensures |r| <= |xs| && r == xs[..|r|]
  {
    if n >= 0 then (if n < |xs| then xs[..n] else xs)
    else if |xs| + n > 0 then xs[..|xs| + n]
    else []
  }
}
