# BPM tempo estimator: a verified model

BPMTempoChecker estimates a song's tempo in the browser and shows a playback
clock. Its estimator `detectBPM` works in five stages:

1. It decimates the decoded channel by 4 (`downsample`).
2. It cuts the result into frames of 1024 samples every 512 samples.
3. It takes the half-wave-rectified spectral flux between the magnitude
   spectra of consecutive frames (`calculateOnsetStrength`).
4. It picks the strict local maxima above 0.3 times the largest flux
   (`findPeaks`).
5. It turns the gaps between peaks into intervals, keeping those strictly
   between 0.1 and 4.0 (`calculateIntervals`), and returns 60 over the most
   common interval rounded to tenths, or 120 when no interval is kept
   (`calculateBPM`).

`formatTime` renders the playback clock as `m:ss`. The same code appears
twice in the repository, in `script.js` and in `js/bpm.js`. One model
covers both.

Modules, one per stage:

- `Sequences`: an order-preserving `Filter`.
- `Decimation`: `downsample`.
- `Onset`: frames and spectral flux.
- `PeakPicking`: `findPeaks`.
- `Intervals`: `calculateIntervals`.
- `TempoHistogram`: `calculateBPM`.
- `Pipeline`: `detectBPM`.
- `Clock`: `formatTime`.

Each loop of the source becomes a `method` with its loop. Its `ensures`
ties the result to a function that states the same computation as a value.
The lemmas then prove what that function promises.

JavaScript semantics that the model writes out:

- `Math.round(x * 10)` is `Floor(10x + 1/2)`.
- `%` truncates toward zero.
- `x || 0` reads a missing bin as 0.
- `Object.keys` of the counts dictionary lists the integer-index keys first,
  in ascending order, and then the other keys in creation order
  (OrdinaryOwnPropertyKeys, section 10.1.11.1 of ECMA-262, 2023 edition).
- The `reduce` with `>` keeps the LAST key of highest count in that order.

The model gives some behaviours the name and description of the program
leave unstated:

- Frames are taken while `offset < length - 1024`. A signal of exactly
  1024 samples therefore has no frame. A signal of `1024 + 512k` samples
  loses its last full frame.
- Nothing is rejected as an error. An empty channel or silence flows
  through to the default of 120 beats per minute.
- The onset list keeps every frame's `{ flux, magnitude }` record, spectrum
  included, not only the latest one. Only the latest spectrum is ever read.

## Model

| member | source | states |
|---|---|---|
| Sequences.Filter | script.js:263-268 | the kept values are exactly the input values that pass the test, and there are never more of them than inputs |
| Sequences.FilterAppend | script.js:263-268 | selection never reorders: filtering a concatenation is the concatenation of the filtered parts |
| Sequences.FilterPartition | script.js:284 | selecting the integer-index keys and the other keys splits the key multiset in two |
| Decimation.KeptCountIsCeiling | script.js:193 | the number of samples kept is exactly ceil(n / factor): the least count whose samples reach past the end |
| Decimation.Downsample | script.js:191-197 | the result has ceil(n / factor) samples, sample i is input sample i * factor, and it equals the decimated sequence |
| Onset.FrameCount | script.js:205 | frame k is analysed exactly when k * 512 < n - 1024 (strict), so a signal of at most 1024 samples has no frame |
| Onset.Frame | script.js:206 | every frame holds exactly 1024 samples |
| Onset.Flux | script.js:211-214 | the half-wave-rectified flux is never negative |
| Onset.FluxOfUnchanged | script.js:211-214 | a spectrum compared with itself has flux 0 |
| Onset.FluxAtMostTotal | script.js:208-214 | against a non-negative previous spectrum, the flux of a non-negative spectrum is at most its total magnitude |
| Onset.OnsetStrengths | script.js:200-222 | one strength per frame; the first frame's strength is 0; every strength is at least 0 |
| Onset.RecordsSnoc | script.js:215 | pushing the record of the next frame extends the list of records built so far |
| Onset.CalculateOnsetStrength | script.js:200-222 | the loop returns one non-negative strength per frame, the first one 0, equal to the flux of each frame's spectrum over its predecessor's |
| Onset.IdenticalFramesHaveNoOnset | script.js:210-218 | two consecutive frames with the same samples give onset strength 0 |
| Onset.OnsetAtMostFrameEnergy | js/bpm.js:113-115 | with a true magnitude spectrum, a frame's onset strength is at most that frame's total magnitude |
| PeakPicking.SeqMax | script.js:248 | `Math.max(...data)` is an element of the data and at least every element |
| PeakPicking.Threshold | script.js:248 | the threshold is 0.3 times one of the strengths and at least 0.3 times every strength, that is 0.3 times the largest |
| PeakPicking.PeaksBelowExact | script.js:250-254 | the peaks found below index n are strictly increasing, below n, all peaks, and include every peak below n |
| PeakPicking.PeaksExact | script.js:246-257 | the peaks are exactly the interior strict local maxima strictly above 0.3 times the maximum, ascending; none when there are fewer than 3 strengths or all are 0 |
| PeakPicking.FindPeaks | script.js:246-257 | the scan returns exactly the peaks, each a strict local maximum above the threshold, in strictly increasing order |
| PeakPicking.PeaksNotAdjacent | script.js:251 | two consecutive peaks are at least two indices apart |
| PeakPicking.PeakLowerBound | js/bpm.js:140 | the j-th peak lies at index 1 + 2j or later |
| PeakPicking.AtMostOnePeakInShortSequence | script.js:250-251 | fewer than five strengths have at most one peak |
| Intervals.CalculateIntervals | script.js:259-271 | the loop keeps at most one interval per pair of consecutive peaks, exactly the gaps divided by the rate that lie in (0.1, 4.0), in peak order |
| Intervals.EvenPeaksGiveEqualGaps | script.js:263-268 | peaks evenly `beat` apart give one interval per pair, each beat / rate, when that value is plausible |
| Intervals.KeptGapSpansOverFiftySeconds | script.js:264-265 | as written, a kept interval joins onset frames whose starts lie more than 51.2 seconds apart |
| Intervals.OnsetGapsAreSeconds | js/bpm.js:147 | the corrected interval is the time between the starts of the two peak frames, 512 times the interval the source computes |
| Intervals.EvenPeaksGiveEqualIntervals | script.js:263-268 | with the corrected conversion, evenly spaced peaks give one interval per pair, all equal to the beat period |
| TempoHistogram.Tenths | script.js:280 | `Math.round(interval * 10)` is the integer t with t <= 10 * interval + 1/2 < t + 1, so halves round up |
| TempoHistogram.PlausibleTenths | script.js:280 | an interval in (0.1, 4.0) rounds to between 1 and 40 tenths |
| TempoHistogram.Histogram | script.js:278-282 | the counts dictionary has an entry exactly for each rounded interval |
| TempoHistogram.HistogramCounts | script.js:281 | each entry of the counts dictionary is the number of intervals that round to its key |
| TempoHistogram.InsertionOrder | script.js:281 | the dictionary's keys are created once each, exactly the rounded intervals |
| TempoHistogram.CountStep | script.js:281 | counting one more interval bumps its entry or creates it at 1, and records a new key in creation order |
| TempoHistogram.InsertAscending | script.js:284 | inserting into an ascending key list keeps it ascending and adds exactly that key |
| TempoHistogram.SortAscending | script.js:284 | the integer-index keys are enumerated in ascending order, a permutation of themselves |
| TempoHistogram.OwnKeys | script.js:284 | `Object.keys` enumerates each created key once, integer-index keys first and ascending, then the other keys in creation order |
| TempoHistogram.LastMaximal | script.js:284-286 | the reduce returns one of the enumerated keys |
| TempoHistogram.LastMaximalAt | script.js:284-286 | the reduce picks a key of highest count, and every key enumerated after it has a strictly lower count |
| TempoHistogram.EnumeratedKeys | script.js:284 | the enumerated keys are exactly the rounded intervals, each with a count, and there is one when there is an interval |
| TempoHistogram.ModeTenths | script.js:283-286 | the selected key is one of the rounded intervals |
| TempoHistogram.ModeIsRoundedInterval | script.js:280-286 | the selected key is the rounding of some interval |
| TempoHistogram.TempoOf | script.js:288 | 60 over the key of t tenths of a second is 600 / t beats per minute |
| TempoHistogram.BpmOfMode | script.js:284-288 | with intervals, the tempo is 600 / t for the selected key t, which is not 0 |
| TempoHistogram.BpmIsLastMostFrequent | script.js:274-289 | with intervals, the tempo is 600 / t for a key t that no rounded interval outnumbers, and every key enumerated after t occurs strictly less often |
| TempoHistogram.BpmInRange | js/bpm.js:153-158 | when every interval is plausible, no key is 0 and the tempo lies between 15 and 600 beats per minute |
| TempoHistogram.TempoBounds | script.js:288 | keys of 1 to 40 tenths give tempos from 600 down to 15 |
| TempoHistogram.SingleKeyBpm | script.js:278-288 | when every interval rounds to the same key t, the tempo is 600 / t |
| TempoHistogram.TieGoesToLastEnumeratedKey | script.js:284-286 | on intervals 0.5 s and 2.0 s, key "2" is enumerated before "0.5" and the reduce ends on "0.5": 120 beats per minute, not 30 |
| TempoHistogram.CountRounded | script.js:279-282 | the `forEach` builds the counts dictionary of the rounded intervals, and records the order in which it creates keys |
| TempoHistogram.ReduceKeys | script.js:284-286 | the `reduce` loop returns the last key of highest count |
| TempoHistogram.CalculateBpm | script.js:274-289 | it returns 120 when there are no intervals, and otherwise the tempo of the last most frequent rounded interval |
| Pipeline.EstimatedBpm | script.js:169-188 | the estimate always lies between 15 and 600 beats per minute |
| Pipeline.DetectBpm | script.js:169-188 | the stages run in sequence give the estimate, between 15 and 600 beats per minute |
| Pipeline.ShortRecordingsGiveDefault | script.js:264 | as written, every recording of at most 51.2 seconds yields no interval and 120 beats per minute |
| Pipeline.ShortGap | script.js:264-265 | in such a recording no peak gap is a plausible interval |
| Pipeline.GapBelowRange | script.js:265 | a gap spanning less than 51.2 seconds of hops is rejected as written |
| Pipeline.NoLongGap | script.js:205 | two peaks of the onset sequence of m samples lie at most (m - 2049) / 512 frames apart |
| Pipeline.TinyInputHasNoFrames | script.js:171-176 | a channel of at most 4096 samples has no frame and gets 120 beats per minute |
| Pipeline.ShortInputGivesDefault | js/bpm.js:96-103 | a channel of at most 12288 samples has at most one peak and gets 120 beats per minute |
| Pipeline.CorrectedBpm | script.js:182-185 | with intervals converted to seconds by the hop size, the estimate also lies between 15 and 600 |
| Pipeline.EvenOnsetsGiveTheirTempo | script.js:259-289 | with the corrected conversion, onsets evenly spaced by a plausible period give the tempo of that period rounded to tenths |
| Pipeline.UniformIntervalsBpm | script.js:278-288 | intervals all equal to one plausible period give 600 over that period in tenths |
| Pipeline.EvenPeaksGiveTheirTempo | script.js:259-289 | as written, peaks evenly `beat` apart give the tempo of beat / rate rounded to tenths, when that is plausible |
| Pipeline.HalfSecondPeaks | script.js:259-289 | peaks 10 apart at a rate of 20 (such as 0, 10, 20, 30) give intervals of 0.5 s, one per pair, and 120 beats per minute |
| Pipeline.LongGapDiscarded | script.js:265 | a single interval of 5 s is discarded, which leaves the default of 120 |
| Pipeline.TwelveFrameBeatAsWritten | script.js:264 | as written, onsets 12 frames apart at 44100 Hz are 12 / 11025 s apart, so no interval is kept and the tempo is 120 |
| Pipeline.TwelveFrameBeatCorrected | script.js:264 | corrected, the same onsets are 6144 / 11025 s apart, which rounds to 0.6 s: 100 beats per minute |
| Clock.NatToDecimal | script.js:330 | the decimal text of a whole number is a non-empty string of digits, one digit long exactly when the number is below 10 |
| Clock.Trunc | script.js:329 | the quotient of `%` is rounded toward zero: down for a non-negative value, up for a negative one |
| Clock.JsRemainder | script.js:329 | the truncating `x % m` leaves x minus a whole multiple of m; for m > 0 it lies in [0, m) when x >= 0 and in (-m, 0] when x < 0 |
| Clock.TruncatedQuotient | script.js:329 | the remainder bounds and the whole quotient behind `x % m` |
| Clock.FormatTime | script.js:326-331 | NaN gives "0:00"; a time of at least 0 seconds gives digits, a colon, and exactly two seconds digits |
| Clock.ElapsedClockShape | script.js:328-330 | the text built for x >= 0 seconds has that shape: minutes digits, a colon, two seconds digits |
| Clock.ClockText | script.js:328-330 | the clock of x >= 0 seconds is the digits of floor(x) div 60, a colon, and floor(x) mod 60 padded to two digits |
| Clock.WholeSecondsReadBack | script.js:330 | that text for n whole seconds reads back as n div 60 minutes and n mod 60 seconds |
| Clock.DecimalRoundTrip | script.js:330 | the decimal digits of a whole number read back as that number, without a leading zero |
| Clock.PadStart | script.js:330 | `padStart(2, '0')` keeps the string as its suffix and fills the rest up to the width with '0' |
| Clock.ClockFields | script.js:328-329 | for s >= 0, the minutes are floor(s) div 60 and the seconds floor(s) mod 60 |
| Clock.TwoDigitSeconds | script.js:330 | the seconds field of a value below 60 is two digits that read back as that value |
| Clock.FormatTimeRoundTrip | script.js:326-331 | the clock of NaN, or of s >= 0 seconds, reads back as floor(s) div 60 minutes and floor(s) mod 60 seconds, with a two-digit seconds field |
| Clock.NaNClock | js/bpm.js:168 | NaN shows as "0:00" |
| Clock.ElapsedClock | script.js:328-330 | the clock of s >= 0 seconds reads back as its whole minutes and its seconds within the minute |
| Clock.NegativeTimeExample | script.js:328-330 | -5 seconds shows as "-1:-5", because floor rounds down and `%` truncates |

## Left out

- The discrete Fourier transform (`fft`) and the magnitude square root are not modelled. The spectrum is a parameter, any function from frames to sequences of reals. `Onset.IsMagnitudeSpectrum` names what a true magnitude spectrum guarantees, for the lemma that needs it.
- Numbers are exact reals, not IEEE-754 doubles. Rounding error, `parseFloat` and the exponent form of `String(n)` are not modelled.
- Infinity and -Infinity are not modelled as inputs.
- PeakPicking.Threshold: for an empty onset sequence the source computes `-Infinity * 0.3`. The loop never reads it then, so 0 stands in for it. The argument-count limit of `Math.max(...data)` is not modelled.
- TempoHistogram.CalculateBpm: requires that no interval rounds to 0 tenths. This excludes every list with such an interval, including lists where the source returns a finite tempo because key 0 is not the key selected (intervals 0.01, 0.5, 0.5 give 120). The source returns Infinity only when key 0 is selected. `detectBPM` only passes intervals above 0.1 s, which round to at least 1 tenth, so its calls are all covered.
- Pipeline.DetectBpm: requires a positive sample rate. The decoder always supplies one.
- TempoHistogram.CalculateBpm: the `forEach` and the `reduce` are separate methods, `CountRounded` and `ReduceKeys`. String keys are modelled by their value in tenths.
- Clock.FormatTime: the round trip is proved for NaN and for times of at least 0 seconds. Negative times are shown by example only. Infinity (a live stream's duration) is not modelled.
- The `isAnalyzing` guard, file decoding with Web Audio, playback, the spinning disc and the rest of the page are not part of this model.

## Findings

| source | as written | input that shows it | evidently intended | confidence | as-written member | corrected member |
|---|---|---|---|---|---|---|
| script.js:264 (also js/bpm.js:147) | The interval divides the difference of two onset FRAME indices by the decimated sample rate. Frames start 512 samples apart, so the result is 512 times too small. A kept interval then needs onsets more than 51.2 s apart, and every recording of at most 51.2 s gets 120 BPM. | Onsets at frames 1 and 13 of a 44100 Hz recording are 0.557 s apart. They give an interval of 12 / 11025 s, which is discarded, so the estimate is 120. | (gap * 512) / rate seconds, which is 0.557 s here: rounded to 0.6 s, 100 BPM | not executed | Pipeline.TwelveFrameBeatAsWritten | Pipeline.TwelveFrameBeatCorrected |
