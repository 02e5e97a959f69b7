/**
 Generic sequence helpers shared by the planner and the differ: an optional
 value, an order-preserving filter and the subsequence relation it produces.
 */
module Seqs {

  datatype Option<+T> = None | Some(value: T)

  /** `r` is obtained from `s` by deleting elements, without reordering the rest. */
  predicate IsSubsequence<T(==)>(r: seq<T>, s: seq<T>)
    decreases |s|
  {
    if |r| == 0 then true
    else if |s| == 0 then false
    else if r[0] == s[0] then IsSubsequence(r[1..], s[1..])
    else IsSubsequence(r, s[1..])
  }

  /**
   The elements of `s` that satisfy `keep`, in the order of `s`: lodash's
   `filter` and `differenceWith` both have this shape.
   */
  function Filter<T>(s: seq<T>, keep: T -> bool): (r: seq<T>)
    ensures IsSubsequence(r, s)
    decreases |s|
  {
    if |s| == 0 then []
    else
      var rest := Filter(s[1..], keep);
      if keep(s[0]) then
        assert ([s[0]] + rest)[1..] == rest;
        [s[0]] + rest
      else
        SubsequenceOfTail(rest, s);
        rest
  }

  /**
   What `Filter` keeps: every occurrence of every kept element and nothing
   else. Together with the subsequence property this pins the result down.
   */
  lemma {:induction false} FilterSpec<T(!new)>(s: seq<T>, keep: T -> bool)
    ensures var r := Filter(s, keep);
      && (forall x :: multiset(r)[x] == if keep(x) then multiset(s)[x] else 0)
      && (forall x :: x in r <==> x in s && keep(x))
    decreases |s|
  {
    if |s| > 0 {
      FilterSpec(s[1..], keep);
      assert s == [s[0]] + s[1..];
    }
  }

  /** Dropping the head of `s` keeps every subsequence of its tail a subsequence of `s`. */
  lemma {:induction false} SubsequenceOfTail<T>(r: seq<T>, s: seq<T>)
    requires |s| > 0 && IsSubsequence(r, s[1..])
    ensures IsSubsequence(r, s)
    decreases |s|, 0
  {
    if |r| > 0 && r[0] == s[0] {
      SubsequenceDropHead(r, s[1..]);
    }
  }

  /** Dropping the head of a subsequence of `s` leaves a subsequence of `s`. */
  lemma {:induction false} SubsequenceDropHead<T>(r: seq<T>, s: seq<T>)
    requires |r| > 0 && IsSubsequence(r, s)
    ensures IsSubsequence(r[1..], s)
    decreases |s|, 1
  {
    if r[0] == s[0] {
      SubsequenceOfTail(r[1..], s);
    } else {
      SubsequenceDropHead(r, s[1..]);
      SubsequenceOfTail(r[1..], s);
    }
  }

  /** Every element of a subsequence of `s` occurs in `s`. */
  lemma {:induction false} SubsequenceMembers<T>(r: seq<T>, s: seq<T>)
    requires IsSubsequence(r, s)
    ensures forall x :: x in r ==> x in s
    decreases |s|
  {
    if |r| > 0 {
      if r[0] == s[0] {
        SubsequenceMembers(r[1..], s[1..]);
        assert r == [r[0]] + r[1..];
      } else {
        SubsequenceMembers(r, s[1..]);
      }
    }
  }

  /** Two filters whose predicates agree on every element produce the same sequence. */
  lemma {:induction false} FilterCongruence<T(!new)>(s: seq<T>, f: T -> bool, g: T -> bool)
    requires forall i :: 0 <= i < |s| ==> f(s[i]) == g(s[i])
    ensures Filter(s, f) == Filter(s, g)
    decreases |s|
  {
    if |s| > 0 {
      FilterCongruence(s[1..], f, g);
    }
  }

  /** A sequence is empty exactly when nothing is a member of it. */
  lemma EmptyIffNoMembers<T>(s: seq<T>)
    ensures s == [] <==> forall x :: x !in s
  {
    if |s| > 0 {
      assert s[0] in s;
    }
  }

  /** Applies `f` to every element; `None` as soon as one of them yields `None`. */
  function MapAll<A, B>(xs: seq<A>, f: A -> Option<B>): Option<seq<B>>
  {
    if |xs| == 0 then Some([])
    else match (f(xs[0]), MapAll(xs[1..], f))
      case (Some(y), Some(rest)) => Some([y] + rest)
      case _ => None
  }

  /** When every element maps to the matching element of `ys`, the whole list maps to `ys`. */
  lemma {:induction false} MapAllEach<A, B>(xs: seq<A>, f: A -> Option<B>, ys: seq<B>)
    requires |xs| == |ys|
    requires forall i :: 0 <= i < |xs| ==> f(xs[i]) == Some(ys[i])
    ensures MapAll(xs, f) == Some(ys)
  {
    if |xs| > 0 {
      MapAllEach(xs[1..], f, ys[1..]);
      assert ys == [ys[0]] + ys[1..];
    }
  }
}
