/** Selecting positions of a sequence by a test, as Python's `[... for i, x in enumerate(xs) if test(x)]`. */
module Positions {

  /** Whether each element passes `test`, position by position. */
  function Flags<T>(xs: seq<T>, test: T -> bool): (f: seq<bool>)
  {
    seq(|xs|, i requires 0 <= i < |xs| => test(xs[i]))
  }

  /** The positions holding `true`, in increasing order, each exactly once. */
  function TrueIndices(flags: seq<bool>): (m: seq<nat>)
    ensures forall k :: 0 <= k < |m| ==> m[k] < |flags| && flags[m[k]]
    ensures forall a, b :: 0 <= a < b < |m| ==> m[a] < m[b]
    ensures forall i :: 0 <= i < |flags| && flags[i] ==> i in m
  {
    if flags == [] then []
    else
      var n := |flags| - 1;
      TrueIndices(flags[..n]) + (if flags[n] then [n] else [])
  }

  /** Growing the flags by one adds that position at the end exactly when it is set. */
  lemma TrueIndicesSnoc(flags: seq<bool>, b: bool)
    ensures TrueIndices(flags + [b]) == TrueIndices(flags) + (if b then [|flags|] else [])
  {
    assert (flags + [b])[..|flags|] == flags;
  }

  /** No more positions than flags. */
  lemma {:induction false} TrueIndicesLength(flags: seq<bool>)
    ensures |TrueIndices(flags)| <= |flags|
  {
    if flags != [] {
      TrueIndicesLength(flags[..|flags| - 1]);
    }
  }
}
