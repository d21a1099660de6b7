/**
 * The speech assembler: each non-blank segment's text is spoken by a
 * voice-cloning TTS engine, folded to mono, resampled to 24 kHz,
 * time-stretched to the segment's duration and added into a timeline
 * buffer at the segment's start; the buffer is finally scaled down when its
 * peak exceeds full scale.  The TTS engine, the resampler and the phase
 * vocoder are parameters of the model.
 */
module Synthesizer {
  import opened Wrappers
  import opened Samples
  import opened Text
  import opened Timeline
  import opened Transcriber

  /** The TTS engine's native rate, the rate of the assembled track. */
  const OutputRate: SampleRate := 24000
  /** A stretch rate within this distance of 1.0 is not applied. */
  const StretchTolerance: real := 0.05
  const MinStretchRate: real := 0.5
  const MaxStretchRate: real := 2.0

  /**
   * The external engines: speak (the cloned voice and the target language
   * are bound into it), resample (from, to) and the phase-vocoder time stretch.
   */
  datatype Engines = Engines(
    speak: string -> AudioFile,
    resample: (seq<real>, SampleRate, SampleRate) -> seq<real>,
    timeStretch: (seq<real>, real) -> seq<real>)

  /** np.clip of a scalar. */
  function Clamp(x: real, lo: real, hi: real): (r: real)
    requires lo <= hi
    ensures lo <= r <= hi
    ensures lo <= x <= hi ==> r == x
    ensures x < lo ==> r == lo
    ensures hi < x ==> r == hi
  {
    if x < lo then lo else if hi < x then hi else x
  }

  /** The rate the audio would have to be sped up by to last target seconds. */
  function StretchRate(samples: nat, target: real, sr: SampleRate): real
    requires target > 0.0
  {
    (samples as real / sr as real) / target
  }

  predicate WithinTolerance(rate: real)
  {
    Abs(rate - 1.0) <= StretchTolerance
  }

  /** Time-stretch audio to last target seconds, trimming or zero-padding to whole samples. */
  function FitToDuration(audio: seq<real>, target: real, sr: SampleRate, stretch: (seq<real>, real) -> seq<real>): (r: seq<real>)
    ensures |audio| == 0 || target <= 0.0 ==> r == audio
    ensures |audio| > 0 && target > 0.0 && WithinTolerance(StretchRate(|audio|, target, sr)) ==> r == audio
    ensures |audio| > 0 && target > 0.0 && !WithinTolerance(StretchRate(|audio|, target, sr)) ==>
      |r| as real <= target * sr as real < |r| as real + 1.0
  {
    if |audio| == 0 || target <= 0.0 then audio
    else
      var rate := StretchRate(|audio|, target, sr);
      if WithinTolerance(rate) then audio
      else
        var stretched := stretch(audio, Clamp(rate, MinStretchRate, MaxStretchRate));
        MatchLength(stretched, Trunc(target * sr as real))
  }

  /**
   * When the stretch is applied, the engine is asked for a rate inside
   * [0.5, 2.0] and the result is the engine's output trimmed or padded with
   * silence to the target length.
   */
  lemma FitToDurationStretches(audio: seq<real>, target: real, sr: SampleRate, stretch: (seq<real>, real) -> seq<real>)
    requires |audio| > 0 && target > 0.0 && !WithinTolerance(StretchRate(|audio|, target, sr))
    ensures var rate := Clamp(StretchRate(|audio|, target, sr), MinStretchRate, MaxStretchRate);
      var stretched := stretch(audio, rate);
      var r := FitToDuration(audio, target, sr, stretch);
      && MinStretchRate <= rate <= MaxStretchRate
      && (forall i :: 0 <= i < |r| && i < |stretched| ==> r[i] == stretched[i])
      && (forall i :: |stretched| <= i < |r| ==> r[i] == 0.0)
  {
  }

  /**
   * A clip left alone because it is within tolerance already lasts within
   * 5% of the target: |audio| / sr is between 0.95 and 1.05 times target.
   */
  lemma UnstretchedIsCloseToTarget(audio: seq<real>, target: real, sr: SampleRate)
    requires target > 0.0 && WithinTolerance(StretchRate(|audio|, target, sr))
    ensures (1.0 - StretchTolerance) * target <= |audio| as real / sr as real <= (1.0 + StretchTolerance) * target
  {
    var d := |audio| as real / sr as real;
    var rate := StretchRate(|audio|, target, sr);
    assert rate == d / target;
    QuotientTimesDivisor(d, target);
    assert 0.95 <= rate <= 1.05;
    MulMonotone(0.95, rate, target);
    MulMonotone(rate, 1.05, target);
  }

  lemma QuotientTimesDivisor(x: real, y: real)
    requires y != 0.0
    ensures x / y * y == x
  {
  }

  /** A silent track of duration seconds; np.zeros refuses a negative size. */
  function WriteSilence(duration: real, sr: SampleRate): (r: Result<seq<real>>)
    ensures r.Err? <==> duration * sr as real <= -1.0
    ensures r.Err? ==> r.error == NegativeDimensions
    ensures r.Ok? ==> AllZero(r.value) && |r.value| == Trunc(duration * sr as real)
    ensures duration >= 0.0 ==> r.Ok? && |r.value| as real <= duration * sr as real < |r.value| as real + 1.0
  {
    var n := Trunc(duration * sr as real);
    if n < 0 then Err(NegativeDimensions) else Ok(Zeros(n))
  }

  /** The first sample of a segment: int(start * 24000). */
  function StartSample(seg: TranscriptionSegment): (n: nat)
    requires seg.start >= 0.0
    ensures n as real <= seg.start * OutputRate as real < n as real + 1.0
  {
    Trunc(seg.start * OutputRate as real)
  }

  /** The segment's speech loaded as mono and brought to the output rate. */
  function Spoken(seg: TranscriptionSegment, e: Engines): seq<real>
  {
    var spoken := LoadMono(e.speak(seg.text));
    if spoken.rate != OutputRate then e.resample(spoken.samples, spoken.rate, OutputRate) else spoken.samples
  }

  /**
   * One segment's speech at the output rate, fitted to the segment's
   * duration: left as it is when empty, when the segment has no positive
   * duration or when it already lasts within 5 % of it; otherwise exactly
   * int(duration * 24000) samples long.
   */
  function PrepareClip(seg: TranscriptionSegment, e: Engines): (r: seq<real>)
    ensures var clip := Spoken(seg, e);
      var d := seg.Duration();
      && (|clip| == 0 || d <= 0.0 || WithinTolerance(StretchRate(|clip|, d, OutputRate)) ==> r == clip)
      && (|clip| > 0 && d > 0.0 && WithinTolerance(StretchRate(|clip|, d, OutputRate)) ==>
            (1.0 - StretchTolerance) * d <= |r| as real / OutputRate as real <= (1.0 + StretchTolerance) * d)
      && (|clip| > 0 && d > 0.0 && !WithinTolerance(StretchRate(|clip|, d, OutputRate)) ==>
            |r| as real <= d * OutputRate as real < |r| as real + 1.0)
  {
    var clip := Spoken(seg, e);
    var d := seg.Duration();
    if |clip| > 0 && d > 0.0 && WithinTolerance(StretchRate(|clip|, d, OutputRate)) then
      UnstretchedIsCloseToTarget(clip, d, OutputRate);
      FitToDuration(clip, d, OutputRate, e.timeStretch)
    else
      FitToDuration(clip, d, OutputRate, e.timeStretch)
  }

  /** Every segment that is spoken, that is every segment with visible text, starts at a non-negative time. */
  ghost predicate StartsNonNegative(segs: seq<TranscriptionSegment>)
  {
    forall i :: 0 <= i < |segs| && !IsBlank(segs[i].text) ==> segs[i].start >= 0.0
  }

  /** One iteration of the assembling loop. */
  function PlaceSegment(buf: seq<real>, seg: TranscriptionSegment, e: Engines): seq<real>
    requires !IsBlank(seg.text) ==> seg.start >= 0.0
  {
    if IsBlank(seg.text) then buf else Place(buf, StartSample(seg), PrepareClip(seg, e))
  }

  /** The buffer after the loop has visited segs in order. */
  function Assemble(buf: seq<real>, segs: seq<TranscriptionSegment>, e: Engines): seq<real>
    requires StartsNonNegative(segs)
  {
    if segs == [] then buf
    else PlaceSegment(Assemble(buf, segs[..|segs| - 1], e), segs[|segs| - 1], e)
  }

  /** int(end * 24000) + 24000 samples: the last segment's end plus one second. */
  function InitialLength(segs: seq<TranscriptionSegment>): int
    requires segs != []
  {
    Trunc(segs[|segs| - 1].end * OutputRate as real) + OutputRate
  }

  /** The track synthesize_segments writes. */
  function SynthesisSpec(segs: seq<TranscriptionSegment>, e: Engines): Result<seq<real>>
    requires StartsNonNegative(segs)
  {
    if segs == [] then Ok(Zeros(OutputRate))
    else
      var n := InitialLength(segs);
      if n < 0 then Err(NegativeDimensions)
      else LimitPeak(Assemble(Zeros(n), segs, e))
  }

  /** The assembling loop over a timeline of n samples. */
  method AssembleBuffer(segments: seq<TranscriptionSegment>, e: Engines, n: nat) returns (buffer: array<real>)
    requires StartsNonNegative(segments)
    ensures fresh(buffer) && buffer[..] == Assemble(Zeros(n), segments, e)
  {
    buffer := new real[n](_ => 0.0);
    assert buffer[..] == Zeros(n);
    for idx := 0 to |segments|
      invariant fresh(buffer)
      invariant buffer[..] == Assemble(Zeros(n), segments[..idx], e)
    {
      assert segments[..idx + 1][..idx] == segments[..idx];
      var seg := segments[idx];
      if IsBlank(seg.text) {
        continue;
      }
      buffer := PlaceClip(buffer, StartSample(seg), PrepareClip(seg, e));
    }
    assert segments[..|segments|] == segments;
  }

  method SynthesizeSegments(segments: seq<TranscriptionSegment>, e: Engines) returns (r: Result<seq<real>>)
    requires StartsNonNegative(segments)
    ensures r == SynthesisSpec(segments, e)
    ensures segments == [] ==> r == Ok(Zeros(OutputRate))
    ensures r.Ok? ==> Peak(r.value) <= 1.0
    ensures segments != [] && segments[|segments| - 1].end >= 0.0 ==> r.Ok? && |r.value| >= InitialLength(segments)
  {
    SynthesisSpecFacts(segments, e);
    if segments == [] {
      r := WriteSilence(1.0, OutputRate);
      return;
    }
    var n := InitialLength(segments);
    if n < 0 {
      return Err(NegativeDimensions);
    }
    var buffer := AssembleBuffer(segments, e, n);
    if buffer.Length == 0 {
      return Err(EmptyReduction);
    }
    var peak := Peak(buffer[..]);
    if peak > 1.0 {
      DivideBy(buffer, peak);
    }
    r := Ok(buffer[..]);
  }

  lemma AssembleNeverShrinks(buf: seq<real>, segs: seq<TranscriptionSegment>, e: Engines)
    requires StartsNonNegative(segs)
    ensures |Assemble(buf, segs, e)| >= |buf|
  {
    if segs != [] {
      AssembleNeverShrinks(buf, segs[..|segs| - 1], e);
    }
  }

  /** What the method's contract promises beyond equality with the specification. */
  lemma SynthesisSpecFacts(segs: seq<TranscriptionSegment>, e: Engines)
    requires StartsNonNegative(segs)
    ensures SynthesisSpec(segs, e).Ok? ==> Peak(SynthesisSpec(segs, e).value) <= 1.0
    ensures segs != [] && segs[|segs| - 1].end >= 0.0 ==>
      SynthesisSpec(segs, e).Ok? && |SynthesisSpec(segs, e).value| >= InitialLength(segs)
  {
    if segs != [] && InitialLength(segs) >= 0 {
      AssembleNeverShrinks(Zeros(InitialLength(segs)), segs, e);
    }
  }

  /** Sample i of the clip segment seg contributes to the track (zero for a blank segment). */
  function Contribution(seg: TranscriptionSegment, e: Engines, i: int): real
    requires !IsBlank(seg.text) ==> seg.start >= 0.0
  {
    if IsBlank(seg.text) then 0.0 else Covered(StartSample(seg), PrepareClip(seg, e), i)
  }

  /** The sum of every segment's contribution to sample i. */
  function Overlay(segs: seq<TranscriptionSegment>, e: Engines, i: int): real
    requires StartsNonNegative(segs)
  {
    if segs == [] then 0.0
    else Overlay(segs[..|segs| - 1], e, i) + Contribution(segs[|segs| - 1], e, i)
  }

  /**
   * Superposition: every sample of the assembled timeline is the initial
   * buffer's sample plus the sum of all clips that cover it, so overlapping
   * segments are summed and gaps stay as they were.
   */
  lemma {:induction false} AssembleIsOverlay(buf: seq<real>, segs: seq<TranscriptionSegment>, e: Engines, i: nat)
    requires StartsNonNegative(segs)
    ensures At(Assemble(buf, segs, e), i) == At(buf, i) + Overlay(segs, e, i)
  {
    if segs != [] {
      var init := segs[..|segs| - 1];
      var last := segs[|segs| - 1];
      AssembleIsOverlay(buf, init, e, i);
      if !IsBlank(last.text) {
        PlaceAt(Assemble(buf, init, e), StartSample(last), PrepareClip(last, e), i);
      }
    }
  }

  /** The timeline covers every non-blank segment's clip in full. */
  lemma {:induction false} AssembleCovers(buf: seq<real>, segs: seq<TranscriptionSegment>, e: Engines, k: nat)
    requires StartsNonNegative(segs) && k < |segs| && !IsBlank(segs[k].text)
    ensures |Assemble(buf, segs, e)| >= StartSample(segs[k]) + |PrepareClip(segs[k], e)|
  {
    var init := segs[..|segs| - 1];
    if k < |segs| - 1 {
      assert init[k] == segs[k];
      AssembleCovers(buf, init, e, k);
    }
  }

  /** The segments whose text is not blank, in order. */
  function NonBlank(segs: seq<TranscriptionSegment>): (r: seq<TranscriptionSegment>)
    ensures |r| <= |segs|
    ensures forall j :: 0 <= j < |r| ==> !IsBlank(r[j].text) && r[j] in segs
  {
    if segs == [] then []
    else
      var init := NonBlank(segs[..|segs| - 1]);
      if IsBlank(segs[|segs| - 1].text) then init else init + [segs[|segs| - 1]]
  }

  /** Blank segments are skipped: assembling only the non-blank ones gives the same timeline. */
  lemma {:induction false} BlankSegmentsSkipped(buf: seq<real>, segs: seq<TranscriptionSegment>, e: Engines)
    requires StartsNonNegative(segs)
    ensures StartsNonNegative(NonBlank(segs))
    ensures Assemble(buf, NonBlank(segs), e) == Assemble(buf, segs, e)
  {
    if segs != [] {
      var init := segs[..|segs| - 1];
      var last := segs[|segs| - 1];
      BlankSegmentsSkipped(buf, init, e);
      if !IsBlank(last.text) {
        var r := NonBlank(init) + [last];
        assert r[..|r| - 1] == NonBlank(init);
      }
    }
  }

  /** The overlay of every segment's clip over n samples. */
  function OverlayTrack(segs: seq<TranscriptionSegment>, e: Engines, n: nat): (r: seq<real>)
    requires StartsNonNegative(segs)
    ensures |r| == n
  {
    seq(n, i requires 0 <= i < n => Overlay(segs, e, i))
  }

  /**
   * The written track is the overlay of all clips on silence, peak-limited:
   * each sample is the sum of the clips covering it, and the whole track is
   * divided by its peak when that exceeds 1.0.
   */
  lemma SynthesisIsOverlay(segs: seq<TranscriptionSegment>, e: Engines)
    requires StartsNonNegative(segs) && segs != [] && InitialLength(segs) >= 0
    ensures var track := Assemble(Zeros(InitialLength(segs)), segs, e);
      && track == OverlayTrack(segs, e, |track|)
      && SynthesisSpec(segs, e) == LimitPeak(OverlayTrack(segs, e, |track|))
  {
    var zeros := Zeros(InitialLength(segs));
    var track := Assemble(zeros, segs, e);
    forall i | 0 <= i < |track|
      ensures track[i] == Overlay(segs, e, i)
    {
      AssembleIsOverlay(zeros, segs, e, i);
      assert At(zeros, i) == 0.0;
    }
  }
}
