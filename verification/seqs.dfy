/**
 Generic sequence operations shared by the table handlers: the order-preserving
 `Filter` that models JavaScript's `Array.prototype.filter`, and the notion of an
 order-preserving subsequence used to state what a filter keeps.
 */
module Seqs {

  /** `idx` lists, strictly increasing, the positions of `ys` from which `xs` is read. */
  ghost predicate EmbedsVia<T>(xs: seq<T>, ys: seq<T>, idx: seq<nat>)
  {
    && |idx| == |xs|
    && (forall k :: 0 <= k < |idx| ==> idx[k] < |ys| && xs[k] == ys[idx[k]])
    && (forall k, l :: 0 <= k < l < |idx| ==> idx[k] < idx[l])
  }

  /** `xs` is obtained from `ys` by dropping elements, without reordering the rest. */
  ghost predicate IsSubsequence<T>(xs: seq<T>, ys: seq<T>)
  {
    exists idx :: EmbedsVia(xs, ys, idx)
  }

  /** The elements of `s` satisfying `keep`, in their original order. */
  function Filter<T(==)>(s: seq<T>, keep: T -> bool): (r: seq<T>)
    ensures |r| <= |s|
    ensures forall k :: 0 <= k < |r| ==> r[k] in s && keep(r[k])
    ensures forall k :: 0 <= k < |s| ==> (s[k] in r <==> keep(s[k]))
    decreases |s|
  {
    if |s| == 0 then []
    else if keep(s[0]) then [s[0]] + Filter(s[1..], keep)
    else Filter(s[1..], keep)
  }

  /** Occurrences of each value: a kept value keeps all of its copies, a dropped one none. */
  lemma {:induction false} FilterMultiset<T>(s: seq<T>, keep: T -> bool, x: T)
    ensures multiset(Filter(s, keep))[x] == if keep(x) then multiset(s)[x] else 0
    decreases |s|
  {
    if |s| > 0 {
      FilterMultiset(s[1..], keep, x);
      assert s == [s[0]] + s[1..];
      assert multiset(s) == multiset{s[0]} + multiset(s[1..]);
    }
  }

  /** A filter never reorders: its result is a subsequence of its input. */
  lemma {:induction false} FilterIsSubsequence<T>(s: seq<T>, keep: T -> bool)
    ensures IsSubsequence(Filter(s, keep), s)
    decreases |s|
  {
    if |s| == 0 {
      assert EmbedsVia(Filter(s, keep), s, []);
    } else {
      var t := Filter(s[1..], keep);
      FilterIsSubsequence(s[1..], keep);
      var idx :| EmbedsVia(t, s[1..], idx);
      var shifted := seq(|idx|, k requires 0 <= k < |idx| => idx[k] + 1);
      assert EmbedsVia(t, s, shifted);
      if keep(s[0]) {
        var w := [0] + shifted;
        assert EmbedsVia([s[0]] + t, s, w);
      }
    }
  }

  /** Filtering a second time with the same predicate changes nothing. */
  lemma {:induction false} FilterIdempotent<T>(s: seq<T>, keep: T -> bool)
    ensures Filter(Filter(s, keep), keep) == Filter(s, keep)
  {
    FilterKeepsAll(Filter(s, keep), keep);
  }

  /** A predicate every element satisfies keeps the whole sequence. */
  lemma {:induction false} FilterKeepsAll<T>(s: seq<T>, keep: T -> bool)
    requires forall k :: 0 <= k < |s| ==> keep(s[k])
    ensures Filter(s, keep) == s
    decreases |s|
  {
    if |s| > 0 {
      FilterKeepsAll(s[1..], keep);
      assert s == [s[0]] + s[1..];
    }
  }
}
