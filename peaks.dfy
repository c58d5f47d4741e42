/**
  Peak picking on the onset-strength sequence (`findPeaks`): strict local
  maxima, strictly above 0.3 times the global maximum of the sequence.
 */
module PeakPicking {

  /** The peak threshold as a fraction of the largest onset strength. */
  const ThresholdRatio: real := 0.3

  /** `Math.max(...data)` on a non-empty sequence. */
  function SeqMax(s: seq<real>): (m: real)
    requires |s| > 0
    ensures m in s
    ensures forall k :: 0 <= k < |s| ==> s[k] <= m
    decreases |s|
  {
    if |s| == 1 then s[0]
    else
      var init := s[..|s| - 1];
      assert s == init + [s[|s| - 1]];
      var m := SeqMax(init);
      if s[|s| - 1] > m then s[|s| - 1] else m
  }

  /**
    The threshold `findPeaks` compares against. For an empty sequence the
    source computes -Infinity * 0.3; the loop never compares against it then,
    so 0 stands in for it here.
   */
  function Threshold(data: seq<real>): (r: real)
    ensures |data| > 0 ==> exists k :: 0 <= k < |data| && r == 0.3 * data[k]
    ensures forall k :: 0 <= k < |data| ==> 0.3 * data[k] <= r
  {
    if |data| == 0 then 0.0 else SeqMax(data) * ThresholdRatio
  }

  /** Index i is a peak: an interior strict local maximum strictly above the threshold. */
  predicate IsPeak(data: seq<real>, i: int)
  {
    1 <= i < |data| - 1 && data[i] > Threshold(data) && data[i] > data[i - 1] && data[i] > data[i + 1]
  }

  /** The peaks below index n, ascending, in the order the scan finds them. */
  function PeaksBelow(data: seq<real>, n: nat): seq<nat>
    decreases n
  {
    if n == 0 then [] else PeaksBelow(data, n - 1) + (if IsPeak(data, n - 1) then [n - 1] else [])
  }

  /** The peaks of the whole sequence, as a value. */
  function Peaks(data: seq<real>): seq<nat>
  {
    PeaksBelow(data, |data|)
  }

  /** Strictly increasing sequence of indices. */
  predicate StrictlyIncreasing(p: seq<int>)
  {
    forall j, j' :: 0 <= j < j' < |p| ==> p[j] < p[j']
  }

  /** PeaksBelow(data, n) lists exactly the peaks below n, strictly increasing. */
  lemma {:induction false} PeaksBelowExact(data: seq<real>, n: nat)
    ensures StrictlyIncreasing(PeaksBelow(data, n))
    ensures forall j :: 0 <= j < |PeaksBelow(data, n)| ==> PeaksBelow(data, n)[j] < n && IsPeak(data, PeaksBelow(data, n)[j])
    ensures forall i :: 0 <= i < n && IsPeak(data, i) ==> i in PeaksBelow(data, n)
    decreases n
  {
    if n > 0 {
      PeaksBelowExact(data, n - 1);
    }
  }

  /** The peaks are exactly the ascending interior strict local maxima above the threshold; there are none in a sequence shorter than three or one that is all zero. */
  lemma PeaksExact(data: seq<real>)
    ensures forall j :: 0 <= j < |Peaks(data)| ==> IsPeak(data, Peaks(data)[j])
    ensures forall i :: IsPeak(data, i) ==> i in Peaks(data)
    ensures StrictlyIncreasing(Peaks(data))
    ensures |data| < 3 ==> Peaks(data) == []
    ensures (forall k :: 0 <= k < |data| ==> data[k] == 0.0) ==> Peaks(data) == []
  {
    var p := Peaks(data);
    PeaksBelowExact(data, |data|);
    if |p| > 0 {
      assert IsPeak(data, p[0]);
      assert data[p[0]] != data[p[0] - 1];
    }
  }

  /** `findPeaks`: scans indices 1 .. |data| - 2, pushing each peak. */
  method FindPeaks(data: seq<real>) returns (peaks: seq<nat>)
    ensures forall j :: 0 <= j < |peaks| ==> IsPeak(data, peaks[j])
    ensures forall i :: IsPeak(data, i) ==> i in peaks
    ensures StrictlyIncreasing(peaks)
    ensures peaks == Peaks(data)
  {
    peaks := [];
    var threshold := Threshold(data);
    var i := 1;
    while i < |data| - 1
      invariant 1 <= i
      invariant i <= |data| - 1 || i == 1
      invariant peaks == PeaksBelow(data, i)
    {
      if data[i] > threshold && data[i] > data[i - 1] && data[i] > data[i + 1] {
        peaks := peaks + [i];
      }
      i := i + 1;
    }
    if |data| >= 2 {
      assert PeaksBelow(data, |data|) == PeaksBelow(data, |data| - 1);
    } else {
      assert PeaksBelow(data, 1) == PeaksBelow(data, 0) == [];
    }
    PeaksExact(data);
  }

  /** No two peaks are adjacent: a strict local maximum's neighbours are both below it. */
  lemma PeaksNotAdjacent(data: seq<real>)
    ensures forall j :: 0 <= j < |Peaks(data)| - 1 ==> Peaks(data)[j] + 1 < Peaks(data)[j + 1]
  {
    var p := Peaks(data);
    PeaksBelowExact(data, |data|);
    forall j | 0 <= j < |p| - 1
      ensures p[j] + 1 < p[j + 1]
    {
      assert IsPeak(data, p[j]) && IsPeak(data, p[j + 1]);
    }
  }

  /** Peak j lies at index 1 + 2 * j or later. */
  lemma {:induction false} PeakLowerBound(data: seq<real>, j: nat)
    requires j < |Peaks(data)|
    ensures Peaks(data)[j] >= 1 + 2 * j
  {
    PeaksBelowExact(data, |data|);
    assert IsPeak(data, Peaks(data)[j]);
    if j > 0 {
      PeakLowerBound(data, j - 1);
      PeaksNotAdjacent(data);
    }
  }

  /** A sequence of fewer than five onset strengths has at most one peak: peaks lie in 1 .. |data| - 2 and are never adjacent. */
  lemma AtMostOnePeakInShortSequence(data: seq<real>)
    requires |data| < 5
    ensures |Peaks(data)| <= 1
  {
    var p := Peaks(data);
    if |p| > 0 {
      PeaksBelowExact(data, |data|);
      PeakLowerBound(data, |p| - 1);
      assert IsPeak(data, p[|p| - 1]);
    }
  }
}
