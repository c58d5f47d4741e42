/**
  The whole estimator (`detectBPM`): decimate the channel by 4, compute the
  onset strengths of the decimated signal, pick their peaks, turn the peak
  gaps into intervals at a quarter of the sample rate, and resolve the tempo
  from the intervals.

  EstimatedBpm is the estimate as a value; DetectBpm runs the stages as the
  source does. CorrectedBpm is the same chain with the peak gaps converted to
  seconds by the hop size, the conversion the interval range (0.1 s, 4.0 s)
  is written for.
 */
module Pipeline {
  import opened Sequences
  import Decimation
  import Onset
  import PeakPicking
  import opened Intervals
  import opened TempoHistogram

  const DownsampleFactor: nat := 4

  /** The intervals `detectBPM` hands to `calculateBPM`. */
  function DetectedIntervals(spectrum: seq<real> -> seq<real>, channel: seq<real>, sampleRate: real): seq<real>
    requires sampleRate > 0.0
  {
    var data := Decimation.Decimated(channel, DownsampleFactor);
    var peaks := PeakPicking.Peaks(Onset.OnsetStrengths(spectrum, data));
    Intervals.Intervals(peaks, sampleRate / DownsampleFactor as real)
  }

  /** The tempo `detectBPM` returns, as a value: always between 15 and 600 beats per minute. */
  function EstimatedBpm(spectrum: seq<real> -> seq<real>, channel: seq<real>, sampleRate: real): (bpm: real)
    requires sampleRate > 0.0
    ensures 15.0 <= bpm <= 600.0
  {
    var intervals := DetectedIntervals(spectrum, channel, sampleRate);
    BpmInRange(intervals);
    Bpm(intervals)
  }

  /** `detectBPM`: runs the stages one after the other. */
  method DetectBpm(spectrum: seq<real> -> seq<real>, channel: seq<real>, sampleRate: real) returns (bpm: real)
    requires sampleRate > 0.0
    ensures 15.0 <= bpm <= 600.0
    ensures bpm == EstimatedBpm(spectrum, channel, sampleRate)
  {
    var data := Decimation.Downsample(channel, DownsampleFactor);
    var rate := sampleRate / DownsampleFactor as real;
    var onset := Onset.CalculateOnsetStrength(spectrum, data);
    var peaks := PeakPicking.FindPeaks(onset);
    var intervals := CalculateIntervals(peaks, rate);
    BpmInRange(intervals);
    bpm := CalculateBpm(intervals);
  }

  /**
    As written, a kept interval needs two peaks of the onset sequence more
    than 0.025 * sampleRate frames apart; frames start 512 decimated samples,
    that is 2048 samples, apart, so the recording must be longer than
    51.2 seconds. Every shorter recording gets the default 120 beats per minute.
   */
  lemma ShortRecordingsGiveDefault(spectrum: seq<real> -> seq<real>, channel: seq<real>, sampleRate: real)
    requires sampleRate > 0.0
    requires |channel| as real <= 51.2 * sampleRate
    ensures DetectedIntervals(spectrum, channel, sampleRate) == []
    ensures EstimatedBpm(spectrum, channel, sampleRate) == DefaultBpm
  {
    var data := Decimation.Decimated(channel, DownsampleFactor);
    var onset := Onset.OnsetStrengths(spectrum, data);
    var peaks: seq<int> := PeakPicking.Peaks(onset);
    var rate := sampleRate / DownsampleFactor as real;
    var g := Gaps(peaks, rate);
    assert |channel| as real <= 204.8 * rate;
    assert |data| <= (|channel| + 3) / 4;
    forall j | 0 <= j < |g|
      ensures !Plausible(g[j])
    {
      ShortGap(onset, |data|, |channel|, rate, j);
    }
    FilterDropsAll(g, Plausible);
  }

  /** In the onset sequence of a decimated signal of m samples, from a channel of n samples at 4 * rate Hz, no peak gap is plausible when n / (4 * rate) <= 51.2. */
  lemma ShortGap(onset: seq<real>, m: nat, n: nat, rate: real, j: nat)
    requires rate > 0.0
    requires |onset| == Onset.FrameCount(m)
    requires m <= (n + 3) / 4
    requires n as real <= 204.8 * rate
    requires j + 1 < |PeakPicking.Peaks(onset)|
    ensures !Plausible(FramesOverRate(PeakPicking.Peaks(onset)[j + 1] as int - PeakPicking.Peaks(onset)[j], rate))
  {
    var p: seq<int> := PeakPicking.Peaks(onset);
    var g := p[j + 1] - p[j];
    NoLongGap(onset, j, m);
    assert (g * Onset.HopSize) as real < 51.2 * rate;
    GapBelowRange(g, rate);
  }

  /** A gap of g frames that spans less than 51.2 seconds of hops gives an implausible interval as written. */
  lemma GapBelowRange(g: int, rate: real)
    requires rate > 0.0
    requires (g * Onset.HopSize) as real < 51.2 * rate
    ensures !Plausible(FramesOverRate(g, rate))
  {
    if Plausible(FramesOverRate(g, rate)) {
      AboveOverRate(g as real, rate, MinInterval);
    }
  }

  lemma AboveOverRate(g: real, rate: real, bound: real)
    requires rate > 0.0 && g / rate > bound
    ensures g > bound * rate
  {
    assert g == (g / rate) * rate;
    assert (g / rate - bound) * rate > 0.0;
  }

  /** Two peaks of the onset sequence of a signal of m samples lie less than (m - 2048) / 512 frames apart. */
  lemma NoLongGap(onset: seq<real>, j: nat, m: nat)
    requires |onset| == Onset.FrameCount(m)
    requires j + 1 < |PeakPicking.Peaks(onset)|
    ensures (PeakPicking.Peaks(onset)[j + 1] - PeakPicking.Peaks(onset)[j]) * Onset.HopSize <= m - 2049
  {
    var p := PeakPicking.Peaks(onset);
    PeakPicking.PeaksExact(onset);
    assert PeakPicking.IsPeak(onset, p[j]) && PeakPicking.IsPeak(onset, p[j + 1]);
    assert m > Onset.WindowSize;
    assert !Onset.StartsFrame(m, |onset|);
    assert p[j + 1] - p[j] <= |onset| - 3;
  }

  /** A channel of at most 4096 samples decimates to at most 1024 samples: no frame, so the default tempo. */
  lemma TinyInputHasNoFrames(spectrum: seq<real> -> seq<real>, channel: seq<real>, sampleRate: real)
    requires sampleRate > 0.0
    requires |channel| <= 4 * Onset.WindowSize
    ensures Onset.OnsetStrengths(spectrum, Decimation.Decimated(channel, DownsampleFactor)) == []
    ensures EstimatedBpm(spectrum, channel, sampleRate) == DefaultBpm
  {
    var data := Decimation.Decimated(channel, DownsampleFactor);
    assert |data| <= Onset.WindowSize;
    assert PeakPicking.Peaks([]) == [];
  }

  /**
    A channel of at most 12288 samples decimates to at most 3072 samples:
    at most four frames, so at most one peak and no interval, whatever the
    sample rate.
   */
  lemma ShortInputGivesDefault(spectrum: seq<real> -> seq<real>, channel: seq<real>, sampleRate: real)
    requires sampleRate > 0.0
    requires |channel| <= 12 * Onset.WindowSize
    ensures |PeakPicking.Peaks(Onset.OnsetStrengths(spectrum, Decimation.Decimated(channel, DownsampleFactor)))| <= 1
    ensures EstimatedBpm(spectrum, channel, sampleRate) == DefaultBpm
  {
    var data := Decimation.Decimated(channel, DownsampleFactor);
    var onset := Onset.OnsetStrengths(spectrum, data);
    assert |data| <= 3072;
    assert !Onset.StartsFrame(|data|, 4);
    PeakPicking.AtMostOnePeakInShortSequence(onset);
    var peaks: seq<int> := PeakPicking.Peaks(onset);
    assert Gaps(peaks, sampleRate / DownsampleFactor as real) == [];
  }

  /** The corrected intervals: the peak gaps converted to seconds by the hop size. */
  function CorrectedIntervals(spectrum: seq<real> -> seq<real>, channel: seq<real>, sampleRate: real): seq<real>
    requires sampleRate > 0.0
  {
    var data := Decimation.Decimated(channel, DownsampleFactor);
    var peaks := PeakPicking.Peaks(Onset.OnsetStrengths(spectrum, data));
    OnsetIntervals(peaks, sampleRate / DownsampleFactor as real)
  }

  /** The tempo with the corrected intervals: also between 15 and 600 beats per minute. */
  function CorrectedBpm(spectrum: seq<real> -> seq<real>, channel: seq<real>, sampleRate: real): (bpm: real)
    requires sampleRate > 0.0
    ensures 15.0 <= bpm <= 600.0
  {
    var intervals := CorrectedIntervals(spectrum, channel, sampleRate);
    BpmInRange(intervals);
    Bpm(intervals)
  }

  /**
    With the corrected intervals, onsets evenly `beat` frames apart give the
    tempo of that beat period, rounded to tenths of a second.
   */
  lemma EvenOnsetsGiveTheirTempo(peaks: seq<int>, rate: real, beat: int)
    requires rate > 0.0
    requires |peaks| >= 2
    requires forall j :: 0 <= j < |peaks| - 1 ==> peaks[j + 1] - peaks[j] == beat
    requires Plausible(HopsToSeconds(beat, rate))
    ensures NoZeroKey(OnsetIntervals(peaks, rate))
    ensures Bpm(OnsetIntervals(peaks, rate)) == 600.0 / Tenths(HopsToSeconds(beat, rate)) as real
  {
    var intervals := OnsetIntervals(peaks, rate);
    var period := HopsToSeconds(beat, rate);
    assert |intervals| > 0 && forall x :: x in intervals ==> x == period by {
      EvenPeaksGiveEqualIntervals(peaks, rate, beat);
    }
    UniformIntervalsBpm(intervals, period);
  }

  /** Intervals that all equal one plausible period give the tempo of that period rounded to tenths. */
  lemma UniformIntervalsBpm(intervals: seq<real>, period: real)
    requires |intervals| > 0
    requires forall x :: x in intervals ==> x == period
    requires Plausible(period)
    ensures NoZeroKey(intervals)
    ensures Bpm(intervals) == 600.0 / Tenths(period) as real
  {
    PlausibleTenths(period);
    forall i | 0 <= i < |intervals|
      ensures Tenths(intervals[i]) == Tenths(period)
    {
      assert intervals[i] in intervals;
    }
    SingleKeyBpm(intervals, Tenths(period));
  }

  /** As written, peaks evenly `beat` frames apart give the tempo of beat / rate seconds rounded to tenths, when that is plausible. */
  lemma EvenPeaksGiveTheirTempo(peaks: seq<int>, rate: real, beat: int)
    requires rate > 0.0
    requires |peaks| >= 2
    requires forall j :: 0 <= j < |peaks| - 1 ==> peaks[j + 1] - peaks[j] == beat
    requires Plausible(FramesOverRate(beat, rate))
    ensures NoZeroKey(Intervals.Intervals(peaks, rate))
    ensures Bpm(Intervals.Intervals(peaks, rate)) == 600.0 / Tenths(FramesOverRate(beat, rate)) as real
  {
    var intervals := Intervals.Intervals(peaks, rate);
    var period := FramesOverRate(beat, rate);
    assert |intervals| > 0 && forall x :: x in intervals ==> x == period by {
      EvenPeaksGiveEqualGaps(peaks, rate, beat);
    }
    UniformIntervalsBpm(intervals, period);
  }

  /**
    Peaks 10 frames apart at a rate of 20 (such as 0, 10, 20, 30) give one
    interval of 0.5 s per pair, a single histogram key, and 120 beats per minute.
   */
  lemma HalfSecondPeaks(peaks: seq<int>)
    requires |peaks| >= 2
    requires forall j :: 0 <= j < |peaks| - 1 ==> peaks[j + 1] - peaks[j] == 10
    ensures |Intervals.Intervals(peaks, 20.0)| == |peaks| - 1
    ensures forall x :: x in Intervals.Intervals(peaks, 20.0) ==> x == 0.5
    ensures NoZeroKey(Intervals.Intervals(peaks, 20.0)) && Bpm(Intervals.Intervals(peaks, 20.0)) == 120.0
  {
    assert FramesOverRate(10, 20.0) == 0.5;
    assert Tenths(0.5) == 5;
    EvenPeaksGiveEqualGaps(peaks, 20.0, 10);
    EvenPeaksGiveTheirTempo(peaks, 20.0, 10);
    HalfSecondTempo();
  }

  lemma HalfSecondTempo()
    ensures 600.0 / (5 as real) == 120.0
  {
  }

  /** A single gap of 5 s lies outside the plausible range: no interval, 120 beats per minute. */
  lemma LongGapDiscarded()
    ensures Intervals.Intervals([0, 100], 20.0) == []
    ensures Bpm(Intervals.Intervals([0, 100], 20.0)) == DefaultBpm
  {
    var peaks: seq<int> := [0, 100];
    assert Gaps(peaks, 20.0) == [5.0];
    assert Filter([5.0], Plausible) == Filter([], Plausible) + [];
  }

  /**
    Onsets 12 frames apart in a 44100 Hz recording (a decimated rate of 11025
    Hz), such as frames 1 and 13, are 12 hops, 6144 decimated samples, about
    0.557 s apart. As written their gap is 12 / 11025 s, below 0.1 s, so no
    interval is kept and the estimate is the default 120 beats per minute.
   */
  lemma TwelveFrameBeatAsWritten(peaks: seq<int>)
    requires forall j :: 0 <= j < |peaks| - 1 ==> peaks[j + 1] - peaks[j] == 12
    ensures Intervals.Intervals(peaks, 11025.0) == []
    ensures Bpm(Intervals.Intervals(peaks, 11025.0)) == DefaultBpm
  {
    var g := Gaps(peaks, 11025.0);
    assert !Plausible(FramesOverRate(12, 11025.0));
    forall j | 0 <= j < |g|
      ensures !Plausible(g[j])
    {
      assert peaks[j + 1] - peaks[j] == 12;
    }
    FilterDropsAll(g, Plausible);
  }

  /** The same onsets with the corrected intervals: 6144 / 11025 s rounds to 0.6 s, 100 beats per minute. */
  lemma TwelveFrameBeatCorrected(peaks: seq<int>)
    requires |peaks| >= 2
    requires forall j :: 0 <= j < |peaks| - 1 ==> peaks[j + 1] - peaks[j] == 12
    ensures |OnsetIntervals(peaks, 11025.0)| == |peaks| - 1
    ensures forall x :: x in OnsetIntervals(peaks, 11025.0) ==> x == 6144.0 / 11025.0
    ensures Tenths(6144.0 / 11025.0) == 6
    ensures NoZeroKey(OnsetIntervals(peaks, 11025.0)) && Bpm(OnsetIntervals(peaks, 11025.0)) == 100.0
  {
    assert HopsToSeconds(12, 11025.0) == 6144.0 / 11025.0;
    assert Tenths(6144.0 / 11025.0) == 6 by {
      var y := 10.0 * (6144.0 / 11025.0) + 0.5;
      assert 6.0 <= y < 7.0;
    }
    EvenPeaksGiveEqualIntervals(peaks, 11025.0, 12);
    EvenOnsetsGiveTheirTempo(peaks, 11025.0, 12);
    SixTenthsTempo();
  }

  lemma SixTenthsTempo()
    ensures 600.0 / (6 as real) == 100.0
  {
  }
}
