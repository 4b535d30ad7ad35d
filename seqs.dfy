/**
 * Picking out the elements of a sequence that pass a test, in order, and
 * where they came from. Both the table builder and the category filter keep
 * some elements of a sequence and drop the others.
 */
module Seqs {

  /** The positions holding `true`, in increasing order. */
  function Positions(flags: seq<bool>): (idx: seq<nat>)
    ensures forall k :: 0 <= k < |idx| ==> idx[k] < |flags|
  {
    if flags == [] then []
    else
      var n := |flags| - 1;
      Positions(flags[..n]) + (if flags[n] then [n] else [])
  }

  /** The positions increase, and a position is among them exactly when its
      flag is set. */
  lemma {:induction false} PositionsMeaning(flags: seq<bool>)
    ensures forall k1, k2 :: 0 <= k1 < k2 < |Positions(flags)| ==> Positions(flags)[k1] < Positions(flags)[k2]
    ensures forall j :: 0 <= j < |flags| ==> (j in Positions(flags) <==> flags[j])
  {
    if flags != [] {
      var n := |flags| - 1;
      var p := flags[..n];
      PositionsMeaning(p);
      var ip := Positions(p);
      var last: seq<nat> := if flags[n] then [n] else [];
      assert Positions(flags) == ip + last;
      forall j | 0 <= j < |flags|
        ensures j in ip + last <==> flags[j]
      {
        if j < n {
          assert p[j] == flags[j];
          assert j !in last;
        } else {
          assert j !in ip;
        }
      }
    }
  }

  /** When every flag is set, every position is picked, in order. */
  lemma {:induction false} AllPositions(flags: seq<bool>)
    requires forall j :: 0 <= j < |flags| ==> flags[j]
    ensures |Positions(flags)| == |flags|
    ensures forall k :: 0 <= k < |flags| ==> Positions(flags)[k] == k
  {
    if flags != [] {
      var n := |flags| - 1;
      AllPositions(flags[..n]);
      assert Positions(flags) == Positions(flags[..n]) + [n];
    }
  }

  /** The elements of `xs` at the positions `idx`, in the order of `idx`. */
  function Pick<T>(xs: seq<T>, idx: seq<nat>): (r: seq<T>)
    requires forall k :: 0 <= k < |idx| ==> idx[k] < |xs|
    ensures |r| == |idx|
    ensures forall k :: 0 <= k < |idx| ==> r[k] == xs[idx[k]]
  {
    seq(|idx|, k requires 0 <= k < |idx| => xs[idx[k]])
  }

  /** Picking by the set positions of a non-empty sequence is picking from its
      front, then its last element when that one is flagged. */
  lemma PickStep<T>(xs: seq<T>, flags: seq<bool>)
    requires |flags| == |xs| && xs != []
    ensures var n := |xs| - 1;
      Pick(xs, Positions(flags)) == Pick(xs[..n], Positions(flags[..n])) + (if flags[n] then [xs[n]] else [])
  {
    var n := |xs| - 1;
    var ip := Positions(flags[..n]);
    var idx := Positions(flags);
    assert idx == ip + (if flags[n] then [n] else []);
    var r := Pick(xs, idx);
    var rp := Pick(xs[..n], ip);
    forall k | 0 <= k < |rp|
      ensures r[k] == rp[k]
    {
      assert idx[k] == ip[k];
    }
  }
}
