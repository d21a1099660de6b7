/**
 * Timed transcription segments and the deterministic part of
 * transcription: choosing the recogniser's options and turning its
 * result into segments. The recogniser itself is a parameter.
 */
module Transcriber {
  import opened Wrappers
  import opened Text

  /** A single transcribed word with its timing. */
  datatype Word = Word(text: string, start: real, end: real)

  /** One utterance with its timing in seconds; words default to none. */
  datatype TranscriptionSegment = TranscriptionSegment(text: string, start: real, end: real, words: seq<Word> := [])
  {
    /** Length of the utterance in seconds. */
    function Duration(): (d: real)
      ensures start + d == end
      ensures d > 0.0 <==> start < end
    {
      end - start
    }
  }

  lemma WordsDefaultToEmpty(text: string, start: real, end: real)
    ensures TranscriptionSegment(text, start, end).words == []
  {
  }

  /** A value in the keyword-argument dictionary handed to the recogniser. */
  datatype Argument = Flag(flag: bool) | Name(name: string)

  /** Whether a requested language is passed on: non-empty and not "auto" in any letter case. */
  predicate PassesLanguage(language: Option<string>)
  {
    language.Some? && language.value != "" && !LowersToAuto(language.value)
  }

  /** The keyword arguments for the recogniser, built up one entry at a time. */
  method TranscribeKwargs(language: Option<string>, wordTimestamps: bool) returns (kwargs: map<string, Argument>)
    ensures "word_timestamps" in kwargs && kwargs["word_timestamps"] == Flag(wordTimestamps)
    ensures "language" in kwargs <==> PassesLanguage(language)
    ensures "language" in kwargs ==> kwargs["language"] == Name(language.value)
    ensures forall key :: key in kwargs ==> key == "word_timestamps" || key == "language"
  {
    kwargs := map["word_timestamps" := Flag(wordTimestamps)];
    if language.Some? && language.value != "" && !LowersToAuto(language.value) {
      kwargs := kwargs["language" := Name(language.value)];
    }
  }

  /** The recogniser's result, as the dictionary entries the conversion reads. */
  datatype RawWord = RawWord(word: string, start: real, end: real)
  datatype RawSegment = RawSegment(text: string, start: real, end: real, words: Option<seq<RawWord>>)
  datatype RawResult = RawResult(segments: Option<seq<RawSegment>>)

  /** result.get("segments", []) */
  function SegmentsOf(result: RawResult): seq<RawSegment>
  {
    if result.segments.Some? then result.segments.value else []
  }

  /** seg.get("words", []) */
  function WordsOf(seg: RawSegment): seq<RawWord>
  {
    if seg.words.Some? then seg.words.value else []
  }

  function ToWord(w: RawWord): Word { Word(w.word, w.start, w.end) }

  /** The segment the conversion loop builds from one result segment. */
  function Converted(raw: RawSegment, wordTimestamps: bool): TranscriptionSegment
  {
    var ws := WordsOf(raw);
    TranscriptionSegment(Strip(raw.text), raw.start, raw.end,
      if wordTimestamps then seq(|ws|, i requires 0 <= i < |ws| => ToWord(ws[i])) else [])
  }

  /** The inner loop: one Word per result word, in order. */
  method CollectWords(ws: seq<RawWord>) returns (words: seq<Word>)
    ensures words == seq(|ws|, i requires 0 <= i < |ws| => ToWord(ws[i]))
  {
    words := [];
    for w := 0 to |ws|
      invariant |words| == w
      invariant forall i :: 0 <= i < w ==> words[i] == ToWord(ws[i])
    {
      words := words + [Word(ws[w].word, ws[w].start, ws[w].end)];
    }
  }

  /** The segments the conversion loop builds from the first result segments. */
  function ConvertedAll(raws: seq<RawSegment>, wordTimestamps: bool): (r: seq<TranscriptionSegment>)
    ensures |r| == |raws|
  {
    if raws == [] then [] else ConvertedAll(raws[..|raws| - 1], wordTimestamps) + [Converted(raws[|raws| - 1], wordTimestamps)]
  }

  lemma {:induction false} ConvertedAllAt(raws: seq<RawSegment>, wordTimestamps: bool, j: int)
    requires 0 <= j < |raws|
    ensures ConvertedAll(raws, wordTimestamps)[j] == Converted(raws[j], wordTimestamps)
    decreases |raws|
  {
    if j < |raws| - 1 {
      ConvertedAllAt(raws[..|raws| - 1], wordTimestamps, j);
    }
  }

  /** One output segment per result segment, in order, with stripped text and copied timing. */
  method ToSegments(result: RawResult, wordTimestamps: bool) returns (segments: seq<TranscriptionSegment>)
    ensures segments == ConvertedAll(SegmentsOf(result), wordTimestamps)
    ensures |segments| == |SegmentsOf(result)|
    ensures SegmentsOf(result) == [] ==> segments == []
  {
    var raws := SegmentsOf(result);
    segments := [];
    for k := 0 to |raws|
      invariant segments == ConvertedAll(raws[..k], wordTimestamps)
    {
      var seg := raws[k];
      var words: seq<Word> := [];
      if wordTimestamps {
        words := CollectWords(WordsOf(seg));
      }
      assert raws[..k + 1][..k] == raws[..k];
      segments := segments + [TranscriptionSegment(Strip(seg.text), seg.start, seg.end, words)];
    }
    assert raws[..|raws|] == raws;
  }

  /** What each converted segment carries: stripped text, the same timing, and the words only when asked for. */
  lemma ConvertedFields(raws: seq<RawSegment>, wordTimestamps: bool, j: int)
    requires 0 <= j < |raws|
    ensures ConvertedAll(raws, wordTimestamps)[j].text == Strip(raws[j].text)
    ensures ConvertedAll(raws, wordTimestamps)[j].start == raws[j].start
    ensures ConvertedAll(raws, wordTimestamps)[j].end == raws[j].end
    ensures !wordTimestamps ==> ConvertedAll(raws, wordTimestamps)[j].words == []
    ensures wordTimestamps ==> |ConvertedAll(raws, wordTimestamps)[j].words| == |WordsOf(raws[j])|
    ensures wordTimestamps ==> forall w :: 0 <= w < |WordsOf(raws[j])| ==>
      ConvertedAll(raws, wordTimestamps)[j].words[w] == ToWord(WordsOf(raws[j])[w])
  {
    ConvertedAllAt(raws, wordTimestamps, j);
  }

  /**
   * transcribe without the file check and model loading: the recogniser,
   * given the keyword arguments, yields its result.
   */
  method Transcribe(recognise: map<string, Argument> -> RawResult, language: Option<string>, wordTimestamps: bool)
    returns (segments: seq<TranscriptionSegment>, kwargs: map<string, Argument>)
    ensures "word_timestamps" in kwargs && kwargs["word_timestamps"] == Flag(wordTimestamps)
    ensures "language" in kwargs <==> PassesLanguage(language)
    ensures "language" in kwargs ==> kwargs["language"] == Name(language.value)
    ensures forall key :: key in kwargs ==> key == "word_timestamps" || key == "language"
    ensures segments == ConvertedAll(SegmentsOf(recognise(kwargs)), wordTimestamps)
    ensures |segments| == |SegmentsOf(recognise(kwargs))|
    ensures forall j :: 0 <= j < |segments| ==>
      segments[j].start == SegmentsOf(recognise(kwargs))[j].start && segments[j].end == SegmentsOf(recognise(kwargs))[j].end
  {
    kwargs := TranscribeKwargs(language, wordTimestamps);
    var result := recognise(kwargs);
    segments := ToSegments(result, wordTimestamps);
    forall j | 0 <= j < |segments|
      ensures segments[j].start == SegmentsOf(result)[j].start && segments[j].end == SegmentsOf(result)[j].end
    {
      ConvertedFields(SegmentsOf(result), wordTimestamps, j);
    }
  }
}
