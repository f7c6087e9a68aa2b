/** Facts about sequences that several models rest on. */
module Sequences {
  lemma Regroup<T>(x: seq<T>, y: seq<T>, z: seq<T>)
    ensures (x + y) + z == x + (y + z)
  {
  }

  // r consists of the elements of s that pass, at their positions in s, in order.
  ghost predicate Selects<T>(r: seq<T>, s: seq<T>, at: seq<nat>, passes: T -> bool) {
    && |at| == |r|
    && (forall j, k :: 0 <= j < k < |at| ==> at[j] < at[k])
    && (forall k :: 0 <= k < |at| ==> at[k] < |s| && r[k] == s[at[k]])
    && (forall k: nat :: k in at <==> k < |s| && passes(s[k]))
  }

  lemma SelectsSnoc<T>(r: seq<T>, s: seq<T>, at: seq<nat>, passes: T -> bool, x: T)
    requires Selects(r, s, at, passes)
    ensures if passes(x) then Selects(r + [x], s + [x], at + [|s|], passes) else Selects(r, s + [x], at, passes)
  {
    var t := s + [x];
    assert forall k :: 0 <= k < |s| ==> t[k] == s[k];
    forall k | 0 <= k < |at| ensures at[k] < |s| {}
    if passes(x) {
      forall k: nat ensures k in at + [|s|] <==> k in at || k == |s| {}
    }
  }
}
