/**
  Order-preserving selection over sequences: the shape shared by a boolean
  row mask (`df[mask]`) and by dropping rows (`dropna`). `Positions` gives the
  positions, in the table the selection is applied to, of the rows it keeps,
  so that "the kept rows, in their original order" can be stated outright.
  Pandas index labels are not modelled.
 */
module Sequences {

  /** The elements of `s` that satisfy `keep`, in their original order. */
  function Filter<T>(s: seq<T>, keep: T -> bool): (r: seq<T>)
    ensures |r| <= |s|
    ensures forall x :: x in r ==> x in s && keep(x)
    ensures forall i :: 0 <= i < |s| && keep(s[i]) ==> s[i] in r
    decreases |s|
  {
    if s == [] then []
    else
      var init := Filter(s[..|s| - 1], keep);
      if keep(s[|s| - 1]) then init + [s[|s| - 1]] else init
  }

  /** The positions in `s` of the elements that satisfy `keep`. */
  function Positions<T>(s: seq<T>, keep: T -> bool): (p: seq<nat>)
    ensures forall k :: 0 <= k < |p| ==> p[k] < |s| && keep(s[p[k]])
    ensures forall k, l :: 0 <= k < l < |p| ==> p[k] < p[l]
    ensures forall i :: 0 <= i < |s| && keep(s[i]) ==> i in p
    decreases |s|
  {
    if s == [] then []
    else
      var init := Positions(s[..|s| - 1], keep);
      if keep(s[|s| - 1]) then init + [|s| - 1] else init
  }

  /**
    The selection is exactly the elements at the kept positions: the k-th
    element of `Filter(s, keep)` is the element of `s` at the k-th position
    that satisfies `keep`. With the contract of `Positions` (strictly
    increasing, and holding every satisfying position) this says that the
    result is the subsequence of satisfying elements, in order.
   */
  lemma {:induction false} FilterAtPositions<T>(s: seq<T>, keep: T -> bool)
    ensures |Filter(s, keep)| == |Positions(s, keep)|
    ensures forall k :: 0 <= k < |Positions(s, keep)| ==>
              Filter(s, keep)[k] == s[Positions(s, keep)[k]]
    decreases |s|
  {
    if s != [] {
      var init := s[..|s| - 1];
      FilterAtPositions(init, keep);
      assert forall i :: 0 <= i < |init| ==> init[i] == s[i];
    }
  }

  /** No element after the last kept position satisfies the condition. */
  lemma NothingKeptAfterLastPosition<T>(s: seq<T>, keep: T -> bool)
    requires Positions(s, keep) != []
    ensures forall j :: Positions(s, keep)[|Positions(s, keep)| - 1] < j < |s| ==> !keep(s[j])
  {
  }

  /** A selection whose condition holds of every element keeps them all. */
  lemma {:induction false} FilterKeepsAll<T>(s: seq<T>, keep: T -> bool)
    requires forall i :: 0 <= i < |s| ==> keep(s[i])
    ensures Filter(s, keep) == s
    decreases |s|
  {
    if s != [] {
      var init := s[..|s| - 1];
      FilterKeepsAll(init, keep);
      assert init + [s[|s| - 1]] == s;
    }
  }
}
