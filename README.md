# dubalot: timed audio assembly, mixing and segment transforms in Dafny

dubalot dubs the speech of a video into another language. The speech is:

1. transcribed into timed segments;
2. translated segment by segment;
3. re-spoken in a cloned voice;
4. reassembled on the original timeline;
5. mixed with the separated background stem.

This project models the deterministic core of that pipeline and proves its
properties. Two generations of the package are covered: the current one
under `src/dubalot/` and the older one under `dubalot/`.

- **Segment fitting and timeline assembly** (`Synthesizer`, `Timeline`,
  `Samples`). A synthesized clip is time-stretched to its segment's
  duration and then trimmed or zero-padded to an exact sample count. It is
  added, not written over, into a zero buffer at `int(start * 24000)`. The
  buffer grows with zeros when a clip overruns it. Segments with blank text
  are skipped. The finished buffer is divided by its peak when that peak
  exceeds 1.
- **The older speech assembler** (`LegacySynthesizer`). An empty segment
  list is an error and the buffer has no margin. A clip whose rate differs
  is resampled by linear interpolation to `int(n * rate / clip_rate)`
  samples. The whole track is finally rescaled so that its peak is exactly
  0.95, unless it is silent, in which case it is left as it is.
- **Background mixing** (`Mixer`):
  - The speech passes through unchanged when there is no background stem,
    or when the stem's path does not exist. An existing file is read.
  - Otherwise the background is folded to mono, resampled, trimmed or
    padded to the speech length, and scaled by the `bg_gain` argument. The
    argument defaults to 0.7; the model proves its properties for every gain.
  - The speech is normalised to a peak of 0.5.
  - The sum is limited to full scale.
- **Text chunking and translation** (`Translator`, `LegacyPipeline`,
  `LegacyTranslator`):
  - The sentence-greedy packer of `_chunk_text` with its 4900-character
    limit.
  - The same-language short-circuit and the fixed 4999-character slicing of
    `DubalotPipeline._translate`.
  - The timing-preserving segment maps of both packages.
- **Transcription results** (`Transcriber`). The `Word` and
  `TranscriptionSegment` records, the recogniser's keyword arguments, and
  the conversion of the recogniser's result into segments.

The external engines become parameters of the model: the TTS voice, the
phase vocoder, the resampler, the interpolated sample values, the
translation service and the recogniser. Every property is proved for all of
their behaviours. Samples and times are exact reals. Python's `int()` on a
float is truncation toward zero (`Samples.Trunc`).

The model follows the code where the design description says otherwise:

- Lengths and offsets are truncated with `int()`, not rounded. This holds
  for the fitted length, the start sample and the older resampler's length.
- On the tolerance path, `_fit_to_duration` returns the clip with no trim
  or pad. Its length is then only within 5 % of the target, not exact.
- The older assembler raises for an empty segment list instead of producing
  silence.
- Without a background stem the mixer returns the speech as loaded, with no
  peak limiting.

Runtime failures of numpy that lie on a modelled path appear as `Err`
values of `Wrappers.Error`:

- `np.max` of an empty buffer;
- `np.zeros` with a negative count;
- `np.interp` with no sample points;
- the `ValueError` for an empty segment list.

## Model

| member | source | states |
|---|---|---|
| Samples.Trunc | src/dubalot/synthesizer.py:156 | `int()` of a real: the magnitude is at most the argument's and less than one below it, and the sign is kept |
| Samples.Peak | src/dubalot/mixer.py:118 | `max(abs(a))`: at least every sample's magnitude and attained by one of them; 0 for an empty buffer, whose numpy error the callers report |
| Samples.PeakZeroIsSilence | src/dubalot/mixer.py:118-120 | the peak is zero exactly when every sample is zero, so the zero guard passes exactly the silent buffers |
| Samples.MatchLength | src/dubalot/mixer.py:109-113 | the result has exactly n samples: a prefix of the input when trimming, the input followed by zeros when padding, the input itself at equal length |
| Samples.Normalise | src/dubalot/mixer.py:116-121 | an error for an empty buffer; an all-zero buffer comes back unchanged; otherwise every sample is scaled by one factor and the peak becomes the target's magnitude |
| Samples.PeakOfScale | src/dubalot/mixer.py:121 | scaling a buffer by k scales its peak by the magnitude of k |
| Samples.PeakOfAdd | src/dubalot/mixer.py:84 | the peak of a sum is at most the sum of the peaks |
| Samples.LimitPeak | src/dubalot/mixer.py:86-89 | an error for an empty buffer; otherwise the length is unchanged and the peak is at most 1; a buffer peaking at most 1 is unchanged; a louder one is scaled by 1/peak to a peak of exactly 1 |
| Samples.Fold | src/dubalot/mixer.py:101-106 | mono data is returned as read; multichannel data gives one sample per frame, the mean over its channels |
| Samples.LoadMono | src/dubalot/mixer.py:101-106 | the file's rate is kept; mono data comes back as read; multichannel data comes back as one sample per frame, the mean of its channels |
| Samples.FoldOfEqualChannels | src/dubalot/mixer.py:104-105 | a frame whose channels all carry v folds to v |
| Samples.FoldBounded | src/dubalot/mixer.py:104-105 | channel averaging never leaves the bound the channels keep |
| Timeline.Place | src/dubalot/synthesizer.py:112-117 | after placing a clip the buffer is max(old length, start + clip length) long; inside the clip's window each sample is the old sample (zero past the old end) plus the clip's; every other sample is unchanged |
| Timeline.PlaceAt | src/dubalot/synthesizer.py:117 | one sample after placement is the sample before it plus the clip's sample covering it, if any |
| Timeline.Grow | src/dubalot/synthesizer.py:114-116 | a fresh buffer holding the old samples followed by zeros up to the new length |
| Timeline.AccumulateAt | src/dubalot/synthesizer.py:117 | adding a clip in place into a window of the buffer |
| Timeline.PlaceClip | src/dubalot/synthesizer.py:113-117 | the array after placement, grown into a fresh array when the clip overruns, holds exactly Place of the old samples |
| Timeline.DivideBy | src/dubalot/synthesizer.py:121-122 | dividing the buffer in place by d leaves every sample multiplied by 1/d |
| Synthesizer.Clamp | src/dubalot/synthesizer.py:152 | `np.clip`: the result lies in [lo, hi], equals x inside the range and the nearer bound outside it |
| Synthesizer.FitToDuration | src/dubalot/synthesizer.py:142-162 | empty audio or a non-positive target gives the audio back; a rate within 5 % of 1 gives the audio back untrimmed; otherwise the length is exactly int(target * sample_rate) |
| Synthesizer.FitToDurationStretches | src/dubalot/synthesizer.py:152-160 | on the stretch path the applied rate lies in [0.5, 2]; the result keeps a prefix of the stretched clip and pads it with zeros |
| Synthesizer.UnstretchedIsCloseToTarget | src/dubalot/synthesizer.py:146-149 | audio passed through on the tolerance path lasts between 0.95 and 1.05 times the target |
| Synthesizer.WriteSilence | src/dubalot/synthesizer.py:165-168 | all-zero samples, int(duration * rate) of them; an error exactly when that count would be negative; a non-negative duration always succeeds with the truncated length |
| Synthesizer.StartSample | src/dubalot/synthesizer.py:112 | the start sample is int(start * 24000): at most the exact offset and less than one sample below it |
| Synthesizer.PrepareClip | src/dubalot/synthesizer.py:102-110 | the clip comes from the segment's speech, folded to mono and resampled to 24000 Hz. It is left as it is when it is empty or the segment has no positive duration. A clip already within 5 % of the duration is also left as it is, and then lasts between 0.95 and 1.05 times the duration. Otherwise the clip is exactly int(duration * 24000) samples long |
| Synthesizer.AssembleBuffer | src/dubalot/synthesizer.py:83-117 | the loop over the segments leaves a fresh buffer holding exactly the assembled timeline |
| Synthesizer.SynthesizeSegments | src/dubalot/synthesizer.py:70-122 | no segments give one second of silence (24000 zeros); otherwise the result is the specification: the assembled timeline limited to peak 1, at least int(last end * 24000) + 24000 samples long when that end is non-negative |
| Synthesizer.AssembleNeverShrinks | src/dubalot/synthesizer.py:114-116 | placing segments never shortens the buffer |
| Synthesizer.SynthesisSpecFacts | src/dubalot/synthesizer.py:76-122 | the synthesized track peaks at most 1 and, for a non-negative last end, succeeds and is at least the initial length |
| Synthesizer.AssembleIsOverlay | src/dubalot/synthesizer.py:88-117 | every sample of the assembled buffer is its initial value plus the sum of the contributions of all clips covering it, so overlaps add |
| Synthesizer.AssembleCovers | src/dubalot/synthesizer.py:113-116 | the assembled buffer reaches at least to the end of every non-blank segment's clip |
| Synthesizer.BlankSegmentsSkipped | src/dubalot/synthesizer.py:89-90 | dropping the blank-text segments leaves the assembled buffer the same |
| Synthesizer.SynthesisIsOverlay | src/dubalot/synthesizer.py:83-122 | the assembled track is the overlay of all clips on the initial silence, and the result is that overlay limited to peak 1 |
| Mixer.AlignedBackground | src/dubalot/mixer.py:69-76 | the background loaded as mono and resampled has exactly the speech's sample count |
| Mixer.MixAudio | src/dubalot/mixer.py:57-93 | the mix is the specification; with no stem it is the speech as loaded; with a stem it fails exactly for empty speech, has the speech's length and rate, and peaks at most 1 |
| Mixer.MixSpec | src/dubalot/mixer.py:60-89 | without a stem, or with a path that does not exist, the speech as loaded; with a stem, an error exactly when the speech is empty; otherwise the speech's length and rate, and a peak of at most 1 |
| Mixer.NormalisedSpeechPeak | src/dubalot/mixer.py:79 | normalised speech peaks at most 0.5, and exactly 0.5 unless it is silence |
| Mixer.MixOfStem | src/dubalot/mixer.py:69-89 | with a stem, the mix is the limited sum of the normalised speech and gain times the aligned background |
| Mixer.SilentBackgroundGivesNormalisedSpeech | src/dubalot/mixer.py:79-89 | a silent attenuated background leaves exactly the normalised speech, with no limiting |
| Mixer.QuietBackgroundIsNotLimited | src/dubalot/mixer.py:84-89 | a background whose attenuated peak is at most 0.5 is mixed without limiting: the result is normalised speech plus gain times background |
| Text.StripShape | src/dubalot/transcriber.py:95 | `strip()` returns a contiguous slice with only whitespace cut around it, and the slice starts and ends with a visible character |
| Text.BlankIsAllSpace | src/dubalot/translator.py:77 | `not text.strip()` holds exactly for whitespace-only text |
| Text.SplitJoin | src/dubalot/translator.py:90 | `split("\n")` followed by a join with the separator gives the text back, and no part holds the separator |
| Text.SplitJoinWith | src/dubalot/translator.py:90 | joining the parts of a split with another character replaces each separator by that character |
| Text.NonSpaceOfJoin | src/dubalot/translator.py:85 | joining with spaces adds no visible character to the concatenated parts |
| Translator.BreakAfterAt | src/dubalot/translator.py:90 | one `replace(mark + " ", mark + "\n")`: exactly the spaces right after the mark become line breaks |
| Translator.MarkedAt | src/dubalot/translator.py:90 | the three replaces together change exactly the spaces after '!', '.' or '?' into line breaks |
| Translator.SentencesCoverText | src/dubalot/translator.py:90 | the sentences, joined by line breaks, are the marked text: same length, same visible characters in order |
| Translator.ChunkText | src/dubalot/translator.py:88-102 | the specified chunks: none for empty text; each chunk within the limit or one stripped oversized sentence; the visible characters of the text in order; the chunks are consecutive runs of whole sentences, from the first sentence to the last; at most one chunk for text within the limit, and exactly the stripped text when that text is not blank and has no line break |
| Translator.PackSentences | src/dubalot/translator.py:91-101 | the loop followed by the final append yields exactly the packed chunks of the sentences |
| Translator.ChunkSpecFacts | src/dubalot/translator.py:88-102 | the same properties stated of the specification |
| Translator.PackRuns | src/dubalot/translator.py:93-99 | throughout the loop, every emitted chunk carries the visible characters of one run of consecutive sentences. The runs start at sentence 0 and never go back. The chunk being filled carries the sentences since the last run |
| Translator.ChunksAreSentenceRuns | src/dubalot/translator.py:90-102 | chunk boundaries fall only between sentences: there are run starts 0 = b0 <= b1 <= ... <= bk = the number of sentences, and chunk j carries exactly the visible characters of sentences bj up to bj+1 |
| Translator.ChunkOfEmpty | src/dubalot/translator.py:88-102 | empty text gives no chunks |
| Translator.ChunksBounded | src/dubalot/translator.py:94-99 | every chunk is within the limit or is a single stripped sentence that alone exceeds it |
| Translator.StepKeepsContent | src/dubalot/translator.py:94-99 | one iteration adds the sentence's visible characters after those already packed |
| Translator.PackKeepsContent | src/dubalot/translator.py:93-99 | packing keeps the visible characters of all sentences in order |
| Translator.ChunksKeepContent | src/dubalot/translator.py:90-101 | no visible character is lost, duplicated or reordered by chunking |
| Translator.PackFitting | src/dubalot/translator.py:93-99 | sentences whose text joined by line breaks fits the limit emit no chunk while packing, and the pending chunk is no longer than that joined text |
| Translator.ShortTextIsOneChunk | src/dubalot/translator.py:93-101 | text within the limit gives at most one chunk |
| Translator.ShortTextChunk | src/dubalot/translator.py:93-101 | non-blank text within the limit gives exactly one chunk carrying all its visible characters |
| Translator.PackRejoins | src/dubalot/translator.py:93-99 | sentences that end visibly and fit the limit pack into one chunk equal to their space-joined text, stripped |
| Translator.SentencesOfUnbroken | src/dubalot/translator.py:90 | for text without line breaks the sentences joined by spaces give the text back, and every sentence but the last ends with its mark, '.', '!' or '?' |
| Translator.ShortTextIsStrippedChunk | src/dubalot/translator.py:93-101 | non-blank text within the limit and without line breaks gives exactly one chunk, the stripped text |
| Translator.ShortBlankTextGivesNoChunk | src/dubalot/translator.py:93-101 | blank text shorter than the limit gives no chunk: every whitespace sentence fits and the stripped current chunk stays empty |
| Translator.LongBlankLineGivesEmptyChunk | src/dubalot/translator.py:93-101 | blank text on one line at or beyond the limit does not fit, so it becomes the current chunk and comes back as one empty chunk |
| Translator.LineBreakBecomesSpace | src/dubalot/translator.py:90-101 | "a\nb" comes back as the single chunk "a b", not as its stripped self: the line break is joined back as a space |
| Translator.NonBlankKeepsContent | src/dubalot/translator.py:85 | skipping blank chunks loses no visible character |
| Text.Map | src/dubalot/translator.py:85 | the comprehension applies the translator once per request: one result per element, in order, each the image of its element |
| Translator.TranslateText | src/dubalot/translator.py:75-85 | blank text is returned unchanged with no request; non-blank text within 4900 characters is one request of the text itself; otherwise the result is the requests' translations joined by spaces, and the requests are non-blank, carry the text's visible characters in order, and are each within the limit or one oversized sentence |
| Translator.TranslatedSegment | src/dubalot/translator.py:61-63 | the copy has the translated text and the original start, end and words; a blank segment is copied unchanged |
| Translator.TranslatedAt | src/dubalot/translator.py:59-64 | output element i is the translated copy of input element i |
| Translator.TranslateSegments | src/dubalot/translator.py:47-64 | the loop yields the specified list: one output per input, in order (none for none) |
| Translator.TranslatedKeepsTiming | src/dubalot/translator.py:59-64 | each output keeps its input's start, end and words and carries the translated text |
| LegacyPipeline.FixedChunks | dubalot/pipeline.py:147 | every slice is non-empty and at most 4999 characters |
| LegacyPipeline.FixedChunksAt | dubalot/pipeline.py:147 | there are ceil(len / 4999) slices, and slice k is text[4999k : min(4999k + 4999, len)] |
| LegacyPipeline.FixedChunksConcat | dubalot/pipeline.py:147 | the slices concatenate back to the text |
| LegacyPipeline.Translate | dubalot/pipeline.py:135-148 | equal languages give the text back with no request; text within 4999 characters is one request of the text; otherwise the requests are slices that concatenate to the text, each within 4999, and the result is their translations joined by single spaces |
| LegacyPipeline.WithoutOfJoin | dubalot/pipeline.py:148 | removing the spaces from a space join gives the removal from the concatenation |
| LegacyPipeline.PerCharacterTranslation | dubalot/pipeline.py:147-148 | under a translator that maps characters one by one, removing the spaces from the result gives the mapped text without spaces |
| LegacySynthesizer.ResampledLength | dubalot/synthesizer.py:83 | int(n * rate / clip_rate), bounded as a truncation |
| LegacySynthesizer.ResampledDuration | dubalot/synthesizer.py:79-85 | the resampled clip lasts the original duration to within one output sample |
| LegacySynthesizer.Resample | dubalot/synthesizer.py:79-85 | a clip at the output rate is untouched; otherwise resampling fails exactly for an empty clip and gives the truncated length |
| LegacySynthesizer.PlaceSegment | dubalot/synthesizer.py:61-96 | a blank-text segment leaves the buffer unchanged |
| LegacySynthesizer.ErrorPersists | dubalot/synthesizer.py:59-96 | the first failing segment ends the assembly with that failure |
| LegacySynthesizer.AssembleNeverShrinks | dubalot/synthesizer.py:90-94 | a successful assembly is never shorter than its initial buffer |
| LegacySynthesizer.AssembleBuffer | dubalot/synthesizer.py:57-96 | the loop yields a fresh buffer holding the assembled timeline, or the failure of the assembly |
| LegacySynthesizer.Synthesize | dubalot/synthesizer.py:53-101 | no segments is an error; otherwise the result is the specification: at least int(last end * rate) samples long, and either all zero or peaking at exactly 0.95 |
| LegacySynthesizer.SynthesisSpecFacts | dubalot/synthesizer.py:53-101 | the same facts stated of the specification |
| LegacyTranslator.Requests | dubalot/translator.py:44 | at most one request per segment, and only for non-blank text |
| LegacyTranslator.RetoldAt | dubalot/translator.py:43-52 | output i keeps input i's start and end, has the target language, and has input i's text when blank or its translation otherwise |
| LegacyTranslator.Translate | dubalot/translator.py:42-53 | the loop yields the specified outputs (RetoldAll, whose elements RetoldAt describes) and sends exactly the specified requests, one per non-blank text |
| Transcriber.TranscriptionSegment.Duration | src/dubalot/transcriber.py:37-39 | start + duration == end, and the duration is positive exactly when start < end |
| Transcriber.WordsDefaultToEmpty | src/dubalot/transcriber.py:35 | a segment built without words has none |
| Transcriber.TranscribeKwargs | src/dubalot/transcriber.py:80-82 | `word_timestamps` is always passed; `language` is passed exactly when it is non-empty and does not lower-case to "auto", and then with the given value; no other key |
| Transcriber.CollectWords | src/dubalot/transcriber.py:89-92 | one Word per result word, in order, with its text and timing |
| Transcriber.ToSegments | src/dubalot/transcriber.py:87-100 | the loop yields one converted segment per result segment, in order; none when the result has no or empty segments |
| Transcriber.ConvertedAllAt | src/dubalot/transcriber.py:87-100 | output segment j is the conversion of result segment j |
| Transcriber.ConvertedFields | src/dubalot/transcriber.py:88-99 | each converted segment has the stripped text and the same start and end; its words are empty without word timestamps and otherwise one Word per result word, in order |
| Transcriber.Transcribe | src/dubalot/transcriber.py:78-100 | the recogniser receives exactly the selected keyword arguments. `word_timestamps` is always passed with the flag. `language` is passed, with the given value, only when it is set and not "auto". The segments are the conversion of the recogniser's segments: one per result segment, in order, with the same timing. ConvertedFields then gives each segment's stripped text and words |

## Left out

- File I/O is not modelled. The model never reads or writes a file:
  - no `sf.read`/`sf.write`;
  - no `wav_read`/`wav_write`;
  - no temporary directories.
  Buffers are handed over already loaded. A missing background file is
  the `MissingFile` case of `Mixer.Background`, because the existence check
  is I/O.
- The TTS, Whisper and translation services are parameters with no
  contract. The same holds for `librosa.resample` and
  `librosa.effects.time_stretch`. Their internals are foreign code.
- Loading these engines is not modelled: model loading, device selection
  and lazy imports. The `ImportError` paths and the `FileNotFoundError` of
  `transcribe` are also out. These are environment checks.
- The values `np.interp` produces in the older resampler are a parameter.
  Only the clip's length is modelled.
- The model does not use float32 or IEEE rounding. Samples and times are
  exact reals, so "peak equals 0.95" and "peak at most 1" hold exactly.
- The older assembler's conversion of integer PCM to float
  (dubalot/synthesizer.py:76-77) is left out, because it depends on the
  file's dtype. Multichannel clips in the older assembler are left out for
  the same reason.
- Logging is left out.
- `deepcopy` and list aliasing are not modelled. Values in Dafny are
  immutable, so a translated copy can never alias or modify its input.
- Synthesizer.SynthesizeSegments requires every segment with visible text
  to start at a non-negative time. Blank segments are skipped before their
  start is read, so they may start anywhere. A start at or below -1/24000
  would make numpy slice from the end of the buffer, and that case is not
  modelled. Starts strictly between -1/24000 and 0, which `int()` turns
  into sample 0, are excluded too, so the requirement is stronger than the
  code needs. The same requirement is on LegacySynthesizer.Synthesize, with
  its own sample rate in place of 24000, and on every member that places a
  segment.
- Samples.Peak returns 0 for an empty buffer, where `np.max` raises. The
  error is reported by Samples.Normalise, Samples.LimitPeak and the
  assemblers, which are the only paths that reach an empty buffer.
- Translator.ShortTextChunk is weaker than "short text comes back as the
  stripped text", because that is false in general. Line breaks in the text
  come back as spaces (Translator.LineBreakBecomesSpace). Blank text
  shorter than the limit gives no chunk
  (Translator.ShortBlankTextGivesNoChunk). Blank text on one line at or
  beyond the limit gives one empty chunk
  (Translator.LongBlankLineGivesEmptyChunk). The exact statement is
  Translator.ShortTextIsStrippedChunk, for text without line breaks.
- Text.LowersToAuto compares ASCII-folded characters instead of using
  Python's full Unicode `lower()`. No other character lower-cases to 'a',
  'u', 't' or 'o'.
