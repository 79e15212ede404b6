/**
 * Ordering helpers over sequences of natural numbers: the largest element of
 * a sequence and an ascending sort. The sort stands in for the language
 * builtin that the bitset constructor iterates through; only its functional
 * effect (the same elements, in ascending order) is modelled.
 */
module Ordering {

  /** Every element is at most each element after it. */
  ghost predicate Ascending(s: seq<nat>)
  {
    forall i, j :: 0 <= i < j < |s| ==> s[i] <= s[j]
  }

  /** The largest element of a non-empty sequence, folded from the end. */
  function Max(s: seq<nat>): (m: nat)
    requires |s| > 0
    ensures m in s
    ensures forall x :: x in s ==> x <= m
  {
    if |s| == 1 then s[0]
    else
      var prefix, last := s[..|s| - 1], s[|s| - 1];
      assert s == prefix + [last];
      var m := Max(prefix);
      if m < last then last else m
  }

  /** Two sequences holding the same elements have the same largest element. */
  lemma {:induction false} MaxOfSameMultiset(a: seq<nat>, b: seq<nat>)
    requires |a| > 0 && multiset(a) == multiset(b)
    ensures |b| > 0 && Max(a) == Max(b)
  {
    assert Max(a) in multiset(b);
    assert Max(a) in b;
    assert Max(b) in multiset(a);
    assert Max(b) in a;
  }

  /** Places x into an ascending sequence, keeping it ascending. */
  function InsertSorted(s: seq<nat>, x: nat): (r: seq<nat>)
    requires Ascending(s)
    ensures Ascending(r)
    ensures multiset(r) == multiset(s) + multiset{x}
    ensures |r| == |s| + 1
  {
    if s == [] then [x]
    else if x <= s[0] then [x] + s
    else
      var rest := InsertSorted(s[1..], x);
      assert s == [s[0]] + s[1..];
      assert forall k :: 0 <= k < |rest| ==> s[0] <= rest[k] by {
        forall k | 0 <= k < |rest| ensures s[0] <= rest[k] {
          assert rest[k] in multiset(rest);
          assert rest[k] in multiset(s[1..]) || rest[k] == x;
        }
      }
      [s[0]] + rest
  }

  /** The elements of xs in ascending order (insertion sort). */
  function Sort(xs: seq<nat>): (r: seq<nat>)
    ensures Ascending(r)
    ensures multiset(r) == multiset(xs)
    ensures |r| == |xs|
  {
    if xs == [] then []
    else
      assert xs == xs[..|xs| - 1] + [xs[|xs| - 1]];
      InsertSorted(Sort(xs[..|xs| - 1]), xs[|xs| - 1])
  }
}
