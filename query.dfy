/** `Model.find(filter)`: the ids of the stored documents a filter matches, in store order. */
module Query {

  import opened Interface

  /** The ids of the elements of `xs` that satisfy `keep`, in increasing order. */
  function Select<T>(xs: seq<T>, keep: T -> bool): (ids: seq<Id>)
    ensures forall k :: 0 <= k < |ids| ==> ids[k] < |xs| && keep(xs[ids[k]])
    ensures forall i :: 0 <= i < |xs| && keep(xs[i]) ==> i in ids
    ensures forall j, k :: 0 <= j < k < |ids| ==> ids[j] < ids[k]
    ensures |ids| <= |xs|
  {
    if xs == [] then []
    else
      var n := |xs| - 1;
      var front := Select(xs[..n], keep);
      assert forall i :: 0 <= i < n ==> xs[..n][i] == xs[i];
      if keep(xs[n]) then front + [n] else front
  }

  /** The documents with the given ids. */
  function Pick<T>(xs: seq<T>, ids: seq<Id>): (r: seq<T>)
    requires forall k :: 0 <= k < |ids| ==> ids[k] < |xs|
    ensures |r| == |ids| && forall k :: 0 <= k < |ids| ==> r[k] == xs[ids[k]]
  {
    seq(|ids|, k requires 0 <= k < |ids| => xs[ids[k]])
  }

  /** A filter nothing satisfies matches nothing. */
  lemma SelectNone<T>(xs: seq<T>, keep: T -> bool)
    requires forall i :: 0 <= i < |xs| ==> !keep(xs[i])
    ensures Select(xs, keep) == []
  {
  }
}
