/** Integer vectors: coefficients, limbs, bytes. */
module Vectors {

  function Sum(a: seq<int>, b: seq<int>): (c: seq<int>)
    requires |a| == |b|
    ensures |c| == |a|
  {
    seq(|a|, i requires 0 <= i < |a| => a[i] + b[i])
  }

  function Difference(a: seq<int>, b: seq<int>): (c: seq<int>)
    requires |a| == |b|
    ensures |c| == |a|
  {
    seq(|a|, i requires 0 <= i < |a| => a[i] - b[i])
  }

  function Zeros(n: nat): (z: seq<int>)
    ensures |z| == n
  {
    seq(n, _ => 0)
  }

  function OneAt(n: nat, k: nat): (e: seq<int>)
    ensures |e| == n
  {
    seq(n, j => if j == k then 1 else 0)
  }
}
