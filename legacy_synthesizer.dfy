/**
 * The older package's speech assembler: each non-blank segment is spoken
 * in the segment's own language, brought to the output rate by linear
 * interpolation when the clip's rate differs, and added into a timeline
 * that starts as long as the last segment's end; the whole track is then
 * rescaled so that its peak is exactly 0.95.  The TTS engine and the
 * interpolated sample values are parameters of the model.
 */
module LegacySynthesizer {
  import opened Wrappers
  import opened Samples
  import opened Text
  import opened Timeline
  import opened LegacyTranscriber

  /** The peak the finished track is rescaled to. */
  const OutputPeak: real := 0.95

  /** A clip as the wav reader returns it: its rate and its (mono, float) samples. */
  datatype WavClip = WavClip(rate: SampleRate, samples: seq<real>)

  /**
   * speak(text, language) is the cloned voice's clip; interp(samples, m, k)
   * is sample k of the m-point linear interpolation of samples.
   */
  datatype Voice = Voice(speak: (string, string) -> WavClip, interp: (seq<real>, nat, nat) -> real)

  /** int(n * sample_rate / seg_rate): the clip's length at the output rate. */
  function ResampledLength(n: nat, sr: SampleRate, rate: SampleRate): (m: nat)
    ensures m as real <= n as real * sr as real / rate as real < m as real + 1.0
  {
    Trunc(n as real * sr as real / rate as real)
  }

  /** The resampled clip spans the original's duration to within one output sample. */
  lemma ResampledDuration(n: nat, sr: SampleRate, rate: SampleRate)
    ensures var m := ResampledLength(n, sr, rate);
      m as real / sr as real <= n as real / rate as real < (m as real + 1.0) / sr as real
  {
    var m := ResampledLength(n, sr, rate);
    var x := n as real * sr as real / rate as real;
    assert x == (n as real / rate as real) * sr as real;
    DivideBoth(m as real, x, sr as real);
    DivideBoth(x, m as real + 1.0, sr as real);
    assert x / sr as real == n as real / rate as real;
  }

  lemma DivideBoth(a: real, b: real, d: real)
    requires d > 0.0
    ensures a <= b ==> a / d <= b / d
    ensures a < b ==> a / d < b / d
  {
  }

  /**
   * The clip at the output rate: untouched when the rates agree, otherwise
   * ResampledLength interpolated samples; np.interp refuses an empty clip.
   */
  function Resample(clip: WavClip, sr: SampleRate, interp: (seq<real>, nat, nat) -> real): (r: Result<seq<real>>)
    ensures clip.rate == sr ==> r == Ok(clip.samples)
    ensures clip.rate != sr ==> (r.Err? <==> |clip.samples| == 0)
    ensures r.Err? ==> r.error == EmptySamplePoints
    ensures clip.rate != sr && r.Ok? ==> |r.value| == ResampledLength(|clip.samples|, sr, clip.rate)
  {
    if clip.rate == sr then Ok(clip.samples)
    else if |clip.samples| == 0 then Err(EmptySamplePoints)
    else
      var m := ResampledLength(|clip.samples|, sr, clip.rate);
      Ok(seq(m, k requires 0 <= k < m => interp(clip.samples, m, k)))
  }

  /** Every segment that is spoken, that is every segment with visible text, starts at a non-negative time. */
  ghost predicate StartsNonNegative(segs: seq<Segment>)
  {
    forall i :: 0 <= i < |segs| && !IsBlank(segs[i].text) ==> segs[i].start >= 0.0
  }

  /** int(start * sample_rate). */
  function StartSample(seg: Segment, sr: SampleRate): nat
    requires seg.start >= 0.0
  {
    Trunc(seg.start * sr as real)
  }

  /** One iteration of the loop: blank segments leave the buffer as it is. */
  function PlaceSegment(buf: seq<real>, seg: Segment, sr: SampleRate, v: Voice): (r: Result<seq<real>>)
    requires !IsBlank(seg.text) ==> seg.start >= 0.0
    ensures IsBlank(seg.text) ==> r == Ok(buf)
  {
    if IsBlank(seg.text) then Ok(buf)
    else
      match Resample(v.speak(seg.text, seg.language), sr, v.interp)
      case Err(e) => Err(e)
      case Ok(clip) => Ok(Place(buf, StartSample(seg, sr), clip))
  }

  /** The buffer after the loop has visited segs in order, or the first error. */
  function Assemble(buf: seq<real>, segs: seq<Segment>, sr: SampleRate, v: Voice): Result<seq<real>>
    requires StartsNonNegative(segs)
  {
    if segs == [] then Ok(buf)
    else
      match Assemble(buf, segs[..|segs| - 1], sr, v)
      case Err(e) => Err(e)
      case Ok(b) => PlaceSegment(b, segs[|segs| - 1], sr, v)
  }

  /** int(end * sample_rate) samples, with no margin. */
  function InitialLength(segs: seq<Segment>, sr: SampleRate): int
    requires segs != []
  {
    Trunc(segs[|segs| - 1].end * sr as real)
  }

  /** The track synthesize writes. */
  function SynthesisSpec(segs: seq<Segment>, sr: SampleRate, v: Voice): Result<seq<real>>
    requires StartsNonNegative(segs)
  {
    if segs == [] then Err(NoSegments)
    else
      var n := InitialLength(segs, sr);
      if n < 0 then Err(NegativeDimensions)
      else
        match Assemble(Zeros(n), segs, sr, v)
        case Err(e) => Err(e)
        case Ok(b) => Normalise(b, OutputPeak)
  }

  /** An error while placing one segment ends the whole assembly with that error. */
  lemma {:induction false} ErrorPersists(buf: seq<real>, segs: seq<Segment>, k: nat, sr: SampleRate, v: Voice)
    requires StartsNonNegative(segs) && k <= |segs|
    requires Assemble(buf, segs[..k], sr, v).Err?
    ensures Assemble(buf, segs, sr, v) == Assemble(buf, segs[..k], sr, v)
  {
    if k < |segs| {
      var init := segs[..|segs| - 1];
      assert init[..k] == segs[..k];
      ErrorPersists(buf, init, k, sr, v);
    } else {
      assert segs[..k] == segs;
    }
  }

  /** The assembled timeline is at least as long as the buffer it started from. */
  lemma {:induction false} AssembleNeverShrinks(buf: seq<real>, segs: seq<Segment>, sr: SampleRate, v: Voice)
    requires StartsNonNegative(segs)
    ensures Assemble(buf, segs, sr, v).Ok? ==> |Assemble(buf, segs, sr, v).value| >= |buf|
  {
    if segs != [] {
      AssembleNeverShrinks(buf, segs[..|segs| - 1], sr, v);
    }
  }

  /** A successful track is never shorter than the last segment's end and peaks at exactly 0.95 unless silent. */
  lemma SynthesisSpecFacts(segs: seq<Segment>, sr: SampleRate, v: Voice)
    requires StartsNonNegative(segs)
    ensures segs == [] ==> SynthesisSpec(segs, sr, v) == Err(NoSegments)
    ensures var r := SynthesisSpec(segs, sr, v);
      r.Ok? ==> |r.value| >= InitialLength(segs, sr) && (AllZero(r.value) || Peak(r.value) == OutputPeak)
  {
    if segs != [] && InitialLength(segs, sr) >= 0 {
      AssembleNeverShrinks(Zeros(InitialLength(segs, sr)), segs, sr, v);
      match Assemble(Zeros(InitialLength(segs, sr)), segs, sr, v)
      case Ok(b) =>
        PeakZeroIsSilence(b);
      case Err(_) =>
    }
  }

  /** The loop over the segments: the filled buffer, or the first resampling error. */
  method AssembleBuffer(segments: seq<Segment>, sr: SampleRate, v: Voice, n: nat) returns (r: Result<array<real>>)
    requires StartsNonNegative(segments)
    ensures r.Ok? ==> fresh(r.value) && Assemble(Zeros(n), segments, sr, v) == Ok(r.value[..])
    ensures r.Err? ==> Assemble(Zeros(n), segments, sr, v) == Err(r.error)
  {
    var buffer := new real[n](_ => 0.0);
    assert buffer[..] == Zeros(n);
    for i := 0 to |segments|
      invariant fresh(buffer)
      invariant Assemble(Zeros(n), segments[..i], sr, v) == Ok(buffer[..])
    {
      assert segments[..i + 1][..i] == segments[..i];
      var seg := segments[i];
      if IsBlank(seg.text) {
        continue;
      }
      var clip := Resample(v.speak(seg.text, seg.language), sr, v.interp);
      if clip.Err? {
        ErrorPersists(Zeros(n), segments, i + 1, sr, v);
        return Err(clip.error);
      }
      buffer := PlaceClip(buffer, StartSample(seg, sr), clip.value);
    }
    assert segments[..|segments|] == segments;
    r := Ok(buffer);
  }

  method Synthesize(segments: seq<Segment>, sr: SampleRate, v: Voice) returns (r: Result<seq<real>>)
    requires StartsNonNegative(segments)
    ensures r == SynthesisSpec(segments, sr, v)
    ensures segments == [] ==> r == Err(NoSegments)
    ensures r.Ok? ==> |r.value| >= InitialLength(segments, sr) && (AllZero(r.value) || Peak(r.value) == OutputPeak)
  {
    SynthesisSpecFacts(segments, sr, v);
    if segments == [] {
      return Err(NoSegments);
    }
    var n := InitialLength(segments, sr);
    if n < 0 {
      return Err(NegativeDimensions);
    }
    var assembled := AssembleBuffer(segments, sr, v, n);
    if assembled.Err? {
      return Err(assembled.error);
    }
    r := Normalise(assembled.value[..], OutputPeak);
  }
}
