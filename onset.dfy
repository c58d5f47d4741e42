/**
  The onset-strength stage (`calculateOnsetStrength`): the decimated signal is
  cut into frames of WindowSize samples every HopSize samples, each frame is
  turned into a magnitude spectrum, and the onset strength of a frame is the
  half-wave-rectified spectral flux against the previous frame's spectrum.

  The Fourier transform and the magnitude square root are not modelled: the
  spectrum is a parameter of every member, any function from frames to
  sequences of reals; IsMagnitudeSpectrum names the two properties a true
  magnitude spectrum has, for the lemmas that need them.
 */
module Onset {

  const WindowSize: nat := 1024
  const HopSize: nat := 512

  /** What a magnitude spectrum promises: one bin per sample of the frame, none of them negative. */
  ghost predicate IsMagnitudeSpectrum(spectrum: seq<real> -> seq<real>)
  {
    forall w: seq<real> {:trigger spectrum(w)} ::
      |spectrum(w)| == |w| && forall k :: 0 <= k < |w| ==> spectrum(w)[k] >= 0.0
  }

  /** The loop of `calculateOnsetStrength` starts frame k when its offset k * HopSize is below n - WindowSize. */
  predicate StartsFrame(n: nat, k: nat)
  {
    k * HopSize < n - WindowSize
  }

  /** Number of frames in a signal of n samples. */
  function FrameCount(n: nat): (c: nat)
    ensures forall k: nat :: k < c <==> StartsFrame(n, k)
    ensures n <= WindowSize ==> c == 0
  {
    if n <= WindowSize then 0 else (n - WindowSize - 1) / HopSize + 1
  }

  /** Frame k: the WindowSize samples from offset k * HopSize. */
  function Frame(data: seq<real>, k: nat): (w: seq<real>)
    requires StartsFrame(|data|, k)
    ensures |w| == WindowSize
  {
    data[k * HopSize .. k * HopSize + WindowSize]
  }

  /** `Math.max(0, diff)`. */
  function Rectified(x: real): real
  {
    if x > 0.0 then x else 0.0
  }

  /** Bin `idx` of the previous spectrum, read as 0 where it has no such bin (the `|| 0` fallback). */
  function PreviousAt(prev: seq<real>, idx: nat): real
  {
    if idx < |prev| then prev[idx] else 0.0
  }

  /** Half-wave-rectified spectral flux of spectrum `cur` over spectrum `prev`, summed bin by bin from bin 0. */
  function Flux(prev: seq<real>, cur: seq<real>): (r: real)
    ensures r >= 0.0
    decreases |cur|
  {
    if |cur| == 0 then 0.0
    else Flux(prev, cur[..|cur| - 1]) + Rectified(cur[|cur| - 1] - PreviousAt(prev, |cur| - 1))
  }

  /** Sum of the bins of a spectrum: its total magnitude. */
  function Total(s: seq<real>): real
    decreases |s|
  {
    if |s| == 0 then 0.0 else Total(s[..|s| - 1]) + s[|s| - 1]
  }

  /** A spectrum that has not changed has no positive flux. */
  lemma {:induction false} FluxOfUnchanged(m: seq<real>, cur: seq<real>)
    requires |cur| <= |m| && cur == m[..|cur|]
    ensures Flux(m, cur) == 0.0
    decreases |cur|
  {
    if |cur| > 0 {
      var init := cur[..|cur| - 1];
      assert init == m[..|init|];
      FluxOfUnchanged(m, init);
    }
  }

  /** Against a non-negative previous spectrum, the flux of a non-negative spectrum never exceeds its total magnitude. */
  lemma {:induction false} FluxAtMostTotal(prev: seq<real>, cur: seq<real>)
    requires forall k :: 0 <= k < |prev| ==> prev[k] >= 0.0
    requires forall k :: 0 <= k < |cur| ==> cur[k] >= 0.0
    ensures Flux(prev, cur) <= Total(cur)
    decreases |cur|
  {
    if |cur| > 0 {
      FluxAtMostTotal(prev, cur[..|cur| - 1]);
    }
  }

  /** Onset strength of frame k: 0 for the first frame, else the flux of its spectrum over its predecessor's. */
  function OnsetAt(spectrum: seq<real> -> seq<real>, data: seq<real>, k: nat): real
    requires StartsFrame(|data|, k)
  {
    if k == 0 then 0.0 else Flux(spectrum(Frame(data, k - 1)), spectrum(Frame(data, k)))
  }

  /** The onset-strength sequence, as a value: one entry per frame. */
  function OnsetStrengths(spectrum: seq<real> -> seq<real>, data: seq<real>): (r: seq<real>)
    ensures |r| == FrameCount(|data|)
    ensures |r| > 0 ==> r[0] == 0.0
    ensures forall k :: 0 <= k < |r| ==> r[k] >= 0.0
  {
    var count := FrameCount(|data|);
    seq(count, k requires 0 <= k < count => OnsetAt(spectrum, data, k))
  }

  /** One entry of the onset list the source builds: the frame's flux and its spectrum, kept for the next frame. */
  datatype FrameRecord = FrameRecord(flux: real, magnitude: seq<real>)

  /** The first n records of the onset list, as values. */
  function Records(spectrum: seq<real> -> seq<real>, data: seq<real>, n: nat): (r: seq<FrameRecord>)
    requires n <= FrameCount(|data|)
    ensures |r| == n
  {
    seq(n, k requires 0 <= k < n => FrameRecord(OnsetAt(spectrum, data, k), spectrum(Frame(data, k))))
  }

  /** Pushing the record of frame n extends the first n records. */
  lemma RecordsSnoc(spectrum: seq<real> -> seq<real>, data: seq<real>, n: nat)
    requires n < FrameCount(|data|)
    ensures Records(spectrum, data, n + 1) ==
      Records(spectrum, data, n) + [FrameRecord(OnsetAt(spectrum, data, n), spectrum(Frame(data, n)))]
  {
  }

  /** `calculateOnsetStrength`: walks the frames, pushing a record per frame, then keeps only the fluxes. */
  method CalculateOnsetStrength(spectrum: seq<real> -> seq<real>, data: seq<real>) returns (onset: seq<real>)
    ensures |onset| == FrameCount(|data|)
    ensures |onset| > 0 ==> onset[0] == 0.0
    ensures forall k :: 0 <= k < |onset| ==> onset[k] >= 0.0
    ensures onset == OnsetStrengths(spectrum, data)
  {
    var frames: seq<FrameRecord> := [];
    var i := 0;
    while i < |data| - WindowSize
      invariant i == |frames| * HopSize
      invariant |frames| <= FrameCount(|data|)
      invariant frames == Records(spectrum, data, |frames|)
    {
      var window := data[i .. i + WindowSize];
      assert StartsFrame(|data|, |frames|) && window == Frame(data, |frames|);
      var magnitude := spectrum(window);
      RecordsSnoc(spectrum, data, |frames|);
      if |frames| > 0 {
        var flux := Flux(frames[|frames| - 1].magnitude, magnitude);
        frames := frames + [FrameRecord(flux, magnitude)];
      } else {
        frames := frames + [FrameRecord(0.0, magnitude)];
      }
      i := i + HopSize;
    }
    assert !StartsFrame(|data|, |frames|);
    assert |frames| == FrameCount(|data|);
    onset := seq(|frames|, k requires 0 <= k < |frames| => frames[k].flux);
    assert onset == OnsetStrengths(spectrum, data);
  }

  /** Two consecutive frames with identical samples have onset strength 0. */
  lemma IdenticalFramesHaveNoOnset(spectrum: seq<real> -> seq<real>, data: seq<real>, k: nat)
    requires 0 < k < FrameCount(|data|)
    requires Frame(data, k - 1) == Frame(data, k)
    ensures OnsetStrengths(spectrum, data)[k] == 0.0
  {
    var m := spectrum(Frame(data, k));
    assert m == m[..|m|];
    FluxOfUnchanged(m, m);
  }

  /** With a true magnitude spectrum, every frame's onset strength is bounded by the total magnitude of that frame's spectrum. */
  lemma OnsetAtMostFrameEnergy(spectrum: seq<real> -> seq<real>, data: seq<real>, k: nat)
    requires IsMagnitudeSpectrum(spectrum)
    requires 0 < k < FrameCount(|data|)
    ensures OnsetStrengths(spectrum, data)[k] <= Total(spectrum(Frame(data, k)))
  {
    var prev := spectrum(Frame(data, k - 1));
    var cur := spectrum(Frame(data, k));
    assert |prev| == WindowSize && |cur| == WindowSize;
    FluxAtMostTotal(prev, cur);
  }
}
