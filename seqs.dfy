/** Order-preserving filtering of sequences, the shape of every loop in the loader. */
module Seqs {

  /** The elements of `s` that satisfy `p`, in their original order. */
  function Filter<T>(s: seq<T>, p: T -> bool): (r: seq<T>)
    ensures |r| <= |s|
  {
    if s == [] then []
    else
      var kept := Filter(s[..|s| - 1], p);
      if p(s[|s| - 1]) then kept + [s[|s| - 1]] else kept
  }

  /** The positions of `s` whose elements satisfy `p`, in increasing order. */
  function Positions<T>(s: seq<T>, p: T -> bool): seq<nat> {
    if s == [] then []
    else
      var kept := Positions(s[..|s| - 1], p);
      if p(s[|s| - 1]) then kept + [|s| - 1] else kept
  }

  /** `out` is the subsequence of `s` found at the increasing positions `idx`. */
  ghost predicate Picks<T>(idx: seq<nat>, s: seq<T>, out: seq<T>) {
    && |idx| == |out|
    && (forall k :: 0 <= k < |idx| ==> idx[k] < |s| && s[idx[k]] == out[k])
    && (forall k, l :: 0 <= k < l < |idx| ==> idx[k] < idx[l])
  }

  /**
   * `Filter` keeps exactly the elements that satisfy `p`, in order: it picks `s`
   * at increasing positions, and those positions are exactly the ones where `p` holds.
   */
  lemma {:induction false} FilterPicks<T>(s: seq<T>, p: T -> bool)
    ensures Picks(Positions(s, p), s, Filter(s, p))
    ensures forall i :: 0 <= i < |s| ==> (p(s[i]) <==> i in Positions(s, p))
  {
    if s != [] {
      var init := s[..|s| - 1];
      FilterPicks(init, p);
      forall i | 0 <= i < |init| ensures s[i] == init[i] { }
    }
  }

  /** An element is in the filtered sequence exactly when it is in `s` and satisfies `p`. */
  lemma {:induction false} FilterMembership<T>(s: seq<T>, p: T -> bool)
    ensures forall x :: x in Filter(s, p) <==> x in s && p(x)
  {
    if s != [] {
      var init := s[..|s| - 1];
      FilterMembership(init, p);
      assert s == init + [s[|s| - 1]];
    }
  }

  /** Filtering one more element of a prefix, as a loop does. */
  lemma FilterStep<T>(s: seq<T>, p: T -> bool, i: nat)
    requires i < |s|
    ensures Filter(s[..i + 1], p) == if p(s[i]) then Filter(s[..i], p) + [s[i]] else Filter(s[..i], p)
  {
    assert s[..i + 1][..i] == s[..i];
  }
}
