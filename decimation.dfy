/**
  The first stage of the tempo estimator: naive decimation of the decoded
  channel, keeping every `factor`-th sample with no low-pass filter
  (`downsample` of BPMTempoChecker).
 */
module Decimation {

  /** How many samples of a channel of `n` samples decimation by `factor` keeps: ceil(n / factor). */
  function KeptCount(n: nat, factor: nat): nat
    requires factor >= 1
  {
    (n + factor - 1) / factor
  }

  /** KeptCount(n, factor) is the least count whose samples reach past the end of the channel. */
  lemma KeptCountIsCeiling(n: nat, factor: nat, c: int)
    requires factor >= 1
    ensures c == KeptCount(n, factor) <==> (c - 1) * factor < n <= c * factor
  {
    var q := KeptCount(n, factor);
    var rem := (n + factor - 1) % factor;
    assert q * factor + rem == n + factor - 1;
    assert (q - 1) * factor < n <= q * factor;
    if (c - 1) * factor < n <= c * factor {
      if c < q {
        assert c <= q - 1;
        MultiplyMonotone(c, q - 1, factor);
      } else if c > q {
        assert q <= c - 1;
        MultiplyMonotone(q, c - 1, factor);
      }
    }
  }

  lemma MultiplyMonotone(a: int, b: int, k: nat)
    requires a <= b
    ensures a * k <= b * k
  {
    assert b * k - a * k == (b - a) * k;
  }

  /** The decimated channel, as a value: entry i is sample i * factor. */
  function Decimated(data: seq<real>, factor: nat): seq<real>
    requires factor >= 1
  {
    var count := KeptCount(|data|, factor);
    seq(count, i requires 0 <= i < count =>
      KeptCountIsCeiling(|data|, factor, count);
      MultiplyMonotone(i, count - 1, factor);
      data[i * factor])
  }

  /** `downsample`: steps through the channel `factor` samples at a time, pushing each sample it lands on. */
  method Downsample(data: seq<real>, factor: nat) returns (result: seq<real>)
    requires factor >= 1
    ensures |result| == KeptCount(|data|, factor)
    ensures forall i :: 0 <= i < |result| ==> i * factor < |data| && result[i] == data[i * factor]
    ensures result == Decimated(data, factor)
  {
    result := [];
    var i := 0;
    while i < |data|
      invariant i == |result| * factor
      invariant (|result| - 1) * factor < |data|
      invariant forall k :: 0 <= k < |result| ==> k * factor < |data| && result[k] == data[k * factor]
    {
      result := result + [data[i]];
      i := i + factor;
    }
    KeptCountIsCeiling(|data|, factor, |result|);
  }
}
