/** Filtering and mapping a sequence through a partial function, in order. */
module Seqs {
  import opened Wrappers

  /**
   * The indices `i` of `xs` for which `f(xs[i])` is present, in increasing
   * order: every index listed qualifies and every qualifying index is listed.
   */
  function Picks<T, U>(xs: seq<T>, f: T -> Option<U>): (idx: seq<nat>)
    ensures forall k :: 0 <= k < |idx| ==> idx[k] < |xs| && f(xs[idx[k]]).Some?
    ensures forall k, l :: 0 <= k < l < |idx| ==> idx[k] < idx[l]
    ensures forall i :: 0 <= i < |xs| && f(xs[i]).Some? ==> i in idx
  {
    if |xs| == 0 then []
    else
      var init := xs[..|xs| - 1];
      var pre := Picks(init, f);
      assert forall k :: 0 <= k < |pre| ==> xs[pre[k]] == init[pre[k]];
      assert forall i :: 0 <= i < |init| ==> xs[i] == init[i];
      if f(xs[|xs| - 1]).Some? then pre + [|xs| - 1] else pre
  }

  /** The present values of `f(x)` for `x` in `xs`, in order. */
  function Collect<T, U>(xs: seq<T>, f: T -> Option<U>): seq<U> {
    if |xs| == 0 then []
    else
      var pre := Collect(xs[..|xs| - 1], f);
      match f(xs[|xs| - 1])
      case Some(y) => pre + [y]
      case None => pre
  }

  lemma CollectPrefix<T, U>(xs: seq<T>, i: nat, f: T -> Option<U>)
    requires i < |xs|
    ensures Collect(xs[..i + 1], f) == Collect(xs[..i], f) + (if f(xs[i]).Some? then [f(xs[i]).value] else [])
  {
    assert xs[..i + 1][..i] == xs[..i];
  }

  /** The k-th collected value is the value at the k-th picked index. */
  lemma {:induction false} CollectAtPicks<T, U>(xs: seq<T>, f: T -> Option<U>)
    ensures |Collect(xs, f)| == |Picks(xs, f)|
    ensures forall k :: 0 <= k < |Picks(xs, f)| ==> f(xs[Picks(xs, f)[k]]) == Some(Collect(xs, f)[k])
  {
    if |xs| > 0 {
      var init := xs[..|xs| - 1];
      CollectAtPicks(init, f);
      assert forall i :: 0 <= i < |init| ==> xs[i] == init[i];
    }
  }

  /** Which indices are picked depends only on where the function is present. */
  lemma {:induction false} PicksAgree<T, U, V>(xs: seq<T>, f: T -> Option<U>, g: T -> Option<V>)
    requires forall i :: 0 <= i < |xs| ==> f(xs[i]).Some? == g(xs[i]).Some?
    ensures Picks(xs, f) == Picks(xs, g)
  {
    if |xs| > 0 {
      var init := xs[..|xs| - 1];
      assert forall i :: 0 <= i < |init| ==> init[i] == xs[i];
      PicksAgree(init, f, g);
    }
  }
}
