/**
  Interval extraction (`calculateIntervals`): the gap between consecutive
  peaks, divided by the decimated sample rate, kept when it lies strictly
  between 0.1 and 4.0 (the plausible beat periods, in seconds).

  The peaks are indices of onset FRAMES, which start HopSize samples apart,
  but the source divides their gap by the SAMPLE rate. Gaps models that
  conversion as written; OnsetGaps is the conversion to seconds the comment
  "Calculate intervals between peaks" and the (0.1, 4.0) second range call for.
 */
module Intervals {
  import opened Sequences
  import Onset

  const MinInterval: real := 0.1
  const MaxInterval: real := 4.0

  /** A beat period the source accepts. */
  predicate Plausible(x: real)
  {
    MinInterval < x < MaxInterval
  }

  /** Number of consecutive pairs in a peak list. */
  function PairCount(peaks: seq<int>): nat
  {
    if |peaks| == 0 then 0 else |peaks| - 1
  }

  /** A gap of `frames` peak indices divided by `rate`, as the source converts it. */
  function FramesOverRate(frames: int, rate: real): real
    requires rate > 0.0
  {
    frames as real / rate
  }

  /** The gaps between consecutive peaks divided by `rate`, as the source computes them. */
  function Gaps(peaks: seq<int>, rate: real): (g: seq<real>)
    requires rate > 0.0
  {
    seq(PairCount(peaks), j requires 0 <= j < PairCount(peaks) => FramesOverRate(peaks[j + 1] - peaks[j], rate))
  }

  /** The intervals the source keeps, in peak order. */
  function Intervals(peaks: seq<int>, rate: real): seq<real>
    requires rate > 0.0
  {
    Filter(Gaps(peaks, rate), Plausible)
  }

  /** `calculateIntervals`: walks consecutive peak pairs, pushing each plausible interval. */
  method CalculateIntervals(peaks: seq<int>, rate: real) returns (intervals: seq<real>)
    requires rate > 0.0
    ensures |intervals| <= PairCount(peaks)
    ensures forall x :: x in intervals <==> x in Gaps(peaks, rate) && Plausible(x)
    ensures intervals == Intervals(peaks, rate)
  {
    ghost var gaps := Gaps(peaks, rate);
    intervals := [];
    var i := 1;
    while i < |peaks|
      invariant 1 <= i && (i <= |peaks| || i == 1)
      invariant intervals == Filter(gaps[..i - 1], Plausible)
    {
      var interval := FramesOverRate(peaks[i] - peaks[i - 1], rate);
      assert gaps[..i] == gaps[..i - 1] + [interval];
      assert gaps[..i][..i - 1] == gaps[..i - 1];
      if Plausible(interval) {
        intervals := intervals + [interval];
      }
      i := i + 1;
    }
    assert gaps[..i - 1] == gaps;
  }

  /** Peaks evenly spaced `beat` frames apart give one interval per pair, all beat / rate, when that value is plausible. */
  lemma {:induction false} EvenPeaksGiveEqualGaps(peaks: seq<int>, rate: real, beat: int)
    requires rate > 0.0
    requires forall j :: 0 <= j < |peaks| - 1 ==> peaks[j + 1] - peaks[j] == beat
    requires Plausible(FramesOverRate(beat, rate))
    ensures |Intervals(peaks, rate)| == PairCount(peaks)
    ensures forall x :: x in Intervals(peaks, rate) ==> x == FramesOverRate(beat, rate)
  {
    var g := Gaps(peaks, rate);
    var period := FramesOverRate(beat, rate);
    forall j | 0 <= j < |g|
      ensures g[j] == period
    {
      assert peaks[j + 1] - peaks[j] == beat;
    }
    assert forall x :: x in g ==> x == period;
    FilterKeepsAll(g, Plausible);
  }

  /**
    As written, an interval is kept only when the onset frames it joins lie
    more than 0.1 * rate frames apart, that is, when the two onsets are more
    than 51.2 seconds apart in the audio (HopSize / 10 seconds, whatever the rate).
   */
  lemma KeptGapSpansOverFiftySeconds(peaks: seq<int>, rate: real, j: nat)
    requires rate > 0.0
    requires j + 1 < |peaks|
    requires Gaps(peaks, rate)[j] in Intervals(peaks, rate)
    ensures ((peaks[j + 1] - peaks[j]) * Onset.HopSize) as real / rate > 51.2
  {
    var frames := peaks[j + 1] - peaks[j];
    assert Plausible(FramesOverRate(frames, rate));
    ScaledQuotient(frames as real, rate, Onset.HopSize as real);
  }

  /** Scaling the dividend scales the quotient. */
  lemma ScaledQuotient(g: real, rate: real, k: real)
    requires rate > 0.0
    ensures (g * k) / rate == k * (g / rate)
  {
  }

  /** The time, in seconds, spanned by `frames` hops of a signal sampled at `rate`. */
  function HopsToSeconds(frames: int, rate: real): real
    requires rate > 0.0
  {
    (frames * Onset.HopSize) as real / rate
  }

  /** The gaps between consecutive peak frames as the time, in seconds, between the starts of those frames. */
  function OnsetGaps(peaks: seq<int>, rate: real): (g: seq<real>)
    requires rate > 0.0
  {
    seq(PairCount(peaks), j requires 0 <= j < PairCount(peaks) => HopsToSeconds(peaks[j + 1] - peaks[j], rate))
  }

  /** The intervals the corrected conversion keeps, in peak order. */
  function OnsetIntervals(peaks: seq<int>, rate: real): seq<real>
    requires rate > 0.0
  {
    Filter(OnsetGaps(peaks, rate), Plausible)
  }

  /**
    The corrected intervals measure time: for peak frames that start s and s'
    samples into the decimated signal, the interval is (s' - s) / rate seconds,
    and it is HopSize times the interval the source computes.
   */
  lemma OnsetGapsAreSeconds(peaks: seq<int>, rate: real, j: nat)
    requires rate > 0.0
    requires j + 1 < |peaks|
    ensures OnsetGaps(peaks, rate)[j] == (peaks[j + 1] * Onset.HopSize - peaks[j] * Onset.HopSize) as real / rate
    ensures OnsetGaps(peaks, rate)[j] == Onset.HopSize as real * Gaps(peaks, rate)[j]
  {
    var g := (peaks[j + 1] - peaks[j]) as real;
    assert (g * 512.0) / rate == 512.0 * (g / rate);
  }

  /** Peaks evenly spaced `beat` frames apart give one corrected interval per pair, all the same beat period, when that period is plausible. */
  lemma {:induction false} EvenPeaksGiveEqualIntervals(peaks: seq<int>, rate: real, beat: int)
    requires rate > 0.0
    requires forall j :: 0 <= j < |peaks| - 1 ==> peaks[j + 1] - peaks[j] == beat
    requires Plausible(HopsToSeconds(beat, rate))
    ensures |OnsetIntervals(peaks, rate)| == PairCount(peaks)
    ensures forall x :: x in OnsetIntervals(peaks, rate) ==> x == HopsToSeconds(beat, rate)
  {
    var g := OnsetGaps(peaks, rate);
    var period := HopsToSeconds(beat, rate);
    forall j | 0 <= j < |g|
      ensures g[j] == period
    {
      assert peaks[j + 1] - peaks[j] == beat;
    }
    assert forall x :: x in g ==> x == period;
    FilterKeepsAll(g, Plausible);
  }
}
