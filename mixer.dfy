/**
 * Mixing the dubbed speech with the background stem: the background is
 * resampled to the speech rate, trimmed or padded to the speech length and
 * attenuated; the speech is peak-normalised to 0.5; the sum is scaled down
 * when its peak exceeds full scale.  Without a background stem the speech
 * is passed through untouched.
 */
module Mixer {
  import opened Wrappers
  import opened Samples
  import opened Timeline

  /** The peak the speech track is normalised to before mixing. */
  const SpeechTargetPeak: real := 0.5

  /** The background argument: absent, a path that does not exist, or an existing stem file. */
  datatype Background = NoStem | MissingFile | Stem(file: AudioFile)

  /** librosa.resample(audio, orig_sr, target_sr). */
  type Resampler = (seq<real>, SampleRate, SampleRate) -> seq<real>

  /** The background loaded as mono, brought to rate and to exactly n samples. */
  function AlignedBackground(f: AudioFile, rate: SampleRate, n: nat, resample: Resampler): (r: seq<real>)
    ensures |r| == n
  {
    var t := LoadMono(f);
    var atRate := if t.rate != rate then resample(t.samples, t.rate, rate) else t.samples;
    MatchLength(atRate, n)
  }

  /**
   * The track mix_audio writes: the speech as loaded without a stem;
   * with one, an error exactly when the speech is empty, and otherwise a
   * track with the speech's length and rate that never exceeds full scale.
   */
  function MixSpec(speech: AudioFile, background: Background, gain: real, resample: Resampler): (r: Result<Track>)
    ensures !background.Stem? ==> r == Ok(LoadMono(speech))
    ensures background.Stem? ==> (r.Err? <==> |Fold(speech.data)| == 0)
    ensures r.Err? ==> r.error == EmptyReduction
    ensures r.Ok? ==> |r.value.samples| == |Fold(speech.data)| && r.value.rate == speech.rate
    ensures background.Stem? && r.Ok? ==> Peak(r.value.samples) <= 1.0
  {
    var voice := LoadMono(speech);
    match background
    case Stem(f) =>
      var bg := AlignedBackground(f, voice.rate, |voice.samples|, resample);
      (match Normalise(voice.samples, SpeechTargetPeak)
       case Err(e) => Err(e)
       case Ok(loud) =>
         match LimitPeak(Add(loud, Scale(bg, gain)))
         case Err(e) => Err(e)
         case Ok(mixed) => Ok(Track(mixed, voice.rate)))
    case _ => Ok(voice)
  }

  method MixAudio(speech: AudioFile, background: Background, gain: real, resample: Resampler) returns (r: Result<Track>)
    ensures r == MixSpec(speech, background, gain, resample)
    ensures !background.Stem? ==> r == Ok(LoadMono(speech))
    ensures background.Stem? ==> (r.Err? <==> |Fold(speech.data)| == 0)
    ensures r.Err? ==> r.error == EmptyReduction
    ensures r.Ok? ==> |r.value.samples| == |Fold(speech.data)| && r.value.rate == speech.rate
    ensures background.Stem? && r.Ok? ==> Peak(r.value.samples) <= 1.0
  {
    var voice := LoadMono(speech);
    if !background.Stem? {
      return Ok(voice);
    }
    var bg := AlignedBackground(background.file, voice.rate, |voice.samples|, resample);
    var normalised := Normalise(voice.samples, SpeechTargetPeak);
    if normalised.Err? {
      return Err(normalised.error);
    }
    MixOfStem(speech, background.file, gain, resample);
    var sum := Add(normalised.value, Scale(bg, gain));
    var mixed := FromSamples(sum);
    var peak := Peak(mixed[..]);
    if peak > 1.0 {
      DivideBy(mixed, peak);
    }
    assert Ok(mixed[..]) == LimitPeak(sum);
    r := Ok(Track(mixed[..], voice.rate));
  }

  /** The normalised speech never peaks above 0.5: exactly 0.5 unless it is silence. */
  lemma NormalisedSpeechPeak(voice: seq<real>)
    requires |voice| > 0
    ensures Normalise(voice, SpeechTargetPeak).Ok?
    ensures Peak(Normalise(voice, SpeechTargetPeak).value) <= SpeechTargetPeak
    ensures !AllZero(voice) ==> Peak(Normalise(voice, SpeechTargetPeak).value) == SpeechTargetPeak
  {
    PeakZeroIsSilence(voice);
  }

  /** A stem mix in terms of its parts: the limited sum of loud speech and quiet background. */
  lemma MixOfStem(speech: AudioFile, f: AudioFile, gain: real, resample: Resampler)
    requires |Fold(speech.data)| > 0
    ensures var voice := Fold(speech.data);
      var loud := Normalise(voice, SpeechTargetPeak).value;
      var quiet := Scale(AlignedBackground(f, speech.rate, |voice|, resample), gain);
      && |loud| == |quiet|
      && MixSpec(speech, Stem(f), gain, resample) == Ok(Track(LimitPeak(Add(loud, quiet)).value, speech.rate))
  {
    NormalisedSpeechPeak(Fold(speech.data));
  }

  /**
   * With a silent (or fully attenuated) background the mix is the
   * normalised speech: its peak is at most 0.5, so no limiting happens.
   */
  lemma SilentBackgroundGivesNormalisedSpeech(speech: AudioFile, f: AudioFile, gain: real, resample: Resampler)
    requires |Fold(speech.data)| > 0
    requires AllZero(Scale(AlignedBackground(f, speech.rate, |Fold(speech.data)|, resample), gain))
    ensures MixSpec(speech, Stem(f), gain, resample)
      == Ok(Track(Normalise(Fold(speech.data), SpeechTargetPeak).value, speech.rate))
  {
    var voice := Fold(speech.data);
    var loud := Normalise(voice, SpeechTargetPeak).value;
    var quiet := Scale(AlignedBackground(f, speech.rate, |voice|, resample), gain);
    MixOfStem(speech, f, gain, resample);
    NormalisedSpeechPeak(voice);
    AddSilence(loud, quiet);
    assert LimitPeak(loud).value == loud;
  }

  lemma AddSilence(a: seq<real>, z: seq<real>)
    requires |a| == |z| && AllZero(z)
    ensures Add(a, z) == a
  {
  }

  /**
   * No limiting happens when the attenuated background peaks at no more
   * than 0.5: the mix is exactly normalised speech plus gain times background.
   */
  lemma QuietBackgroundIsNotLimited(speech: AudioFile, f: AudioFile, gain: real, resample: Resampler)
    requires |Fold(speech.data)| > 0
    requires Peak(Scale(AlignedBackground(f, speech.rate, |Fold(speech.data)|, resample), gain)) <= 0.5
    ensures var bg := AlignedBackground(f, speech.rate, |Fold(speech.data)|, resample);
      MixSpec(speech, Stem(f), gain, resample)
        == Ok(Track(Add(Normalise(Fold(speech.data), SpeechTargetPeak).value, Scale(bg, gain)), speech.rate))
  {
    var voice := Fold(speech.data);
    var loud := Normalise(voice, SpeechTargetPeak).value;
    var quiet := Scale(AlignedBackground(f, speech.rate, |voice|, resample), gain);
    MixOfStem(speech, f, gain, resample);
    NormalisedSpeechPeak(voice);
    PeakOfAdd(loud, quiet);
  }
}
