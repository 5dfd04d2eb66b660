/** `Array.prototype.filter` on sequences, and what it means for its result
    to be "exactly the matching elements, in order". */
module Seqs {

  /** `r` can be obtained from `s` by deleting elements, keeping the order. */
  ghost predicate IsSubsequence<T>(r: seq<T>, s: seq<T>)
    decreases |s|
  {
    if r == [] then true
    else if s == [] then false
    else (r[0] == s[0] && IsSubsequence(r[1..], s[1..])) || IsSubsequence(r, s[1..])
  }

  /** Keeps the elements of `s` that satisfy `p`, in their original order.
      The contract pins the result down: it is a subsequence of `s`, every
      element satisfies `p`, and every element satisfying `p` occurs in it
      as often as in `s`. */
  function Filter<T>(s: seq<T>, p: T -> bool): (r: seq<T>)
    ensures IsSubsequence(r, s)
    ensures forall x :: x in r ==> x in s && p(x)
    ensures forall x :: x in s && p(x) ==> multiset(r)[x] == multiset(s)[x]
    decreases |s|
  {
    if s == [] then []
    else if p(s[0]) then
      var rest := Filter(s[1..], p);
      assert s == [s[0]] + s[1..];
      [s[0]] + rest
    else
      assert s == [s[0]] + s[1..];
      Filter(s[1..], p)
  }

  /** The filter is empty exactly when no element matches. */
  lemma FilterEmpty<T>(s: seq<T>, p: T -> bool)
    ensures Filter(s, p) == [] <==> forall x :: x in s ==> !p(x)
  {
    var r := Filter(s, p);
    if r != [] {
      assert r[0] in s && p(r[0]);
    }
    if exists x :: x in s && p(x) {
      var x :| x in s && p(x);
      assert multiset(r)[x] > 0;
    }
  }

  /** A subsequence uses each value at most as often as the sequence has it. */
  lemma {:induction false} SubsequenceMultiset<T>(r: seq<T>, s: seq<T>)
    ensures IsSubsequence(r, s) ==> multiset(r) <= multiset(s)
    decreases |s|
  {
    if r != [] && s != [] {
      assert s == [s[0]] + s[1..];
      if r[0] == s[0] && IsSubsequence(r[1..], s[1..]) {
        SubsequenceMultiset(r[1..], s[1..]);
        assert r == [r[0]] + r[1..];
      } else {
        SubsequenceMultiset(r, s[1..]);
      }
    }
  }

  /** The contract of `Filter` has exactly one solution: any subsequence of
      `s` made of elements satisfying `p`, holding each such element as often
      as `s` does, is the filter itself. */
  lemma {:induction false} FilterUnique<T>(s: seq<T>, p: T -> bool, r: seq<T>)
    requires IsSubsequence(r, s)
    requires forall x :: x in r ==> p(x)
    requires forall x :: x in s && p(x) ==> multiset(r)[x] == multiset(s)[x]
    ensures r == Filter(s, p)
    decreases |s|
  {
    if s == [] {
    } else if r == [] {
      forall x | x in s
        ensures !p(x)
      {
        assert multiset(s)[x] > 0;
      }
      FilterEmpty(s, p);
    } else {
      var a, t := s[0], s[1..];
      assert s == [a] + t;
      assert r == [r[0]] + r[1..];
      if p(a) {
        SubsequenceMultiset(r, t);
        assert multiset(r)[a] == multiset(s)[a] > multiset(t)[a];
        assert r[0] == a && IsSubsequence(r[1..], t);
        forall x | x in t && p(x)
          ensures multiset(r[1..])[x] == multiset(t)[x]
        {
          assert multiset(r)[x] == multiset(s)[x];
        }
        FilterUnique(t, p, r[1..]);
      } else {
        assert r[0] != a;
        forall x | x in t && p(x)
          ensures multiset(r)[x] == multiset(t)[x]
        {
          assert x != a;
        }
        FilterUnique(t, p, r);
      }
    }
  }
}
