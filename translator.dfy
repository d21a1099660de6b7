/**
 * Segment translation with chunking: a segment's text is sent to the
 * translation service whole when it fits the 4900-character request limit;
 * longer text is cut at sentence ends into packed chunks, the non-blank
 * chunks are translated one request each and the translations are joined
 * with single spaces.  The service is a parameter: a function from the text
 * of one request to its translation (source and target languages are bound
 * into it).
 */
module Translator {
  import opened Text
  import opened Transcriber

  /** The per-request character limit of the free translation tier. */
  const ChunkLimit: int := 4900

  predicate IsSentenceMark(c: char) { c == '!' || c == '.' || c == '?' }

  /** text.replace(mark + " ", mark + "\n"), scanning left to right. */
  function BreakAfter(s: string, mark: char): (r: string)
    ensures |r| == |s|
  {
    if |s| < 2 then s
    else if s[0] == mark && s[1] == ' ' then [mark, '\n'] + BreakAfter(s[2..], mark)
    else [s[0]] + BreakAfter(s[1..], mark)
  }

  /** Reference reading of one replace: exactly the spaces that follow the mark become line breaks. */
  lemma {:induction false} BreakAfterAt(s: string, mark: char)
    requires mark != ' '
    ensures forall i {:trigger BreakAfter(s, mark)[i]} :: 0 <= i < |s| ==>
      BreakAfter(s, mark)[i] == if s[i] == ' ' && i > 0 && s[i - 1] == mark then '\n' else s[i]
  {
    if |s| >= 2 {
      var r := BreakAfter(s, mark);
      var d := if s[0] == mark && s[1] == ' ' then 2 else 1;
      var tail := s[d..];
      BreakAfterAt(tail, mark);
      forall i | 0 <= i < |s|
        ensures r[i] == if s[i] == ' ' && i > 0 && s[i - 1] == mark then '\n' else s[i]
      {
        if i >= d {
          assert r[i] == BreakAfter(tail, mark)[i - d];
          assert tail[i - d] == s[i];
          if i - d > 0 {
            assert tail[i - d - 1] == s[i - 1];
          }
        }
      }
    } else {
      assert BreakAfter(s, mark) == s;
    }
  }

  /** The text with a line break after every sentence end ("! ", ". ", "? "). */
  function Marked(text: string): string
  {
    BreakAfter(BreakAfter(BreakAfter(text, '!'), '.'), '?')
  }

  /**
   * The three replaces together turn exactly the spaces that follow a
   * sentence mark into line breaks and change nothing else.
   */
  lemma MarkedAt(text: string)
    ensures |Marked(text)| == |text|
    ensures forall i {:trigger Marked(text)[i]} :: 0 <= i < |text| ==>
      Marked(text)[i] == if text[i] == ' ' && i > 0 && IsSentenceMark(text[i - 1]) then '\n' else text[i]
  {
    var a := BreakAfter(text, '!');
    var b := BreakAfter(a, '.');
    var c := BreakAfter(b, '?');
    BreakAfterAt(text, '!');
    BreakAfterAt(a, '.');
    BreakAfterAt(b, '?');
    forall i | 0 <= i < |text|
      ensures c[i] == if text[i] == ' ' && i > 0 && IsSentenceMark(text[i - 1]) then '\n' else text[i]
    {
      if i > 0 {
        var j := i - 1;
        assert a[j] == '!' <==> text[j] == '!';
        assert b[j] == '.' <==> text[j] == '.';
        assert b[j] == '?' <==> text[j] == '?';
      }
    }
  }

  /** The sentences _chunk_text packs: the marked text split at every line break. */
  function Sentences(text: string): seq<string>
  {
    Split(Marked(text), '\n')
  }

  /** The sentences, re-joined with line breaks, are the marked text, so they cover the text in order. */
  lemma SentencesCoverText(text: string)
    ensures Join(Sentences(text), "\n") == Marked(text)
    ensures |Join(Sentences(text), "\n")| == |text|
    ensures NonSpace(Concat(Sentences(text))) == NonSpace(text)
  {
    SplitJoin(Marked(text), '\n');
    NonSpaceOfJoin(Sentences(text), "\n");
    MarkedAt(text);
    NonSpaceOfRespaced(Marked(text), text);
  }

  /** The loop state of _chunk_text: the chunks emitted so far and the chunk being filled. */
  datatype Packing = Packing(chunks: seq<string>, current: string)

  /** One iteration: start a new chunk when the sentence does not fit, otherwise append it. */
  function Step(p: Packing, sentence: string, limit: int): Packing
  {
    if |p.current| + |sentence| + 1 > limit then
      Packing(if p.current != [] then p.chunks + [Strip(p.current)] else p.chunks, sentence)
    else
      Packing(p.chunks, Strip(p.current + " " + sentence))
  }

  /** The loop state after packing the given sentences in order. */
  function Pack(sentences: seq<string>, limit: int): Packing
  {
    if sentences == [] then Packing([], [])
    else Step(Pack(sentences[..|sentences| - 1], limit), sentences[|sentences| - 1], limit)
  }

  /** Emit the last chunk when one is being filled. */
  function Flush(p: Packing): seq<string>
  {
    if p.current != [] then p.chunks + [Strip(p.current)] else p.chunks
  }

  /** The chunks _chunk_text returns. */
  function ChunkSpec(text: string, limit: int): seq<string>
  {
    Flush(Pack(Sentences(text), limit))
  }

  method ChunkText(text: string, limit: int) returns (chunks: seq<string>)
    ensures chunks == ChunkSpec(text, limit)
    ensures text == [] ==> chunks == []
    ensures forall c :: c in chunks ==> |c| <= limit || StrippedSentence(c, Sentences(text))
    ensures NonSpace(Concat(chunks)) == NonSpace(text)
    ensures chunks != [] ==> exists b :: SentenceRuns(chunks, Sentences(text), b) && b[|b| - 1] == |Sentences(text)|
    ensures |text| <= limit ==> |chunks| <= 1
    ensures |text| <= limit && !IsBlank(text) && (forall i :: 0 <= i < |text| ==> text[i] != '\n') ==> chunks == [Strip(text)]
  {
    chunks := PackSentences(Sentences(text), limit);
    ChunkSpecFacts(text, limit);
    if |text| <= limit && !IsBlank(text) && (forall i :: 0 <= i < |text| ==> text[i] != '\n') {
      ShortTextIsStrippedChunk(text, limit);
    }
  }

  /** The loop of _chunk_text over the sentences, then the last chunk. */
  method PackSentences(sentences: seq<string>, limit: int) returns (chunks: seq<string>)
    ensures chunks == Flush(Pack(sentences, limit))
  {
    chunks := [];
    var current := "";
    for k := 0 to |sentences|
      invariant Packing(chunks, current) == Pack(sentences[..k], limit)
    {
      assert sentences[..k + 1][..k] == sentences[..k];
      var sentence := sentences[k];
      if |current| + |sentence| + 1 > limit {
        if current != "" {
          chunks := chunks + [Strip(current)];
        }
        current := sentence;
      } else {
        current := Strip(current + " " + sentence);
      }
    }
    assert sentences[..|sentences|] == sentences;
    if current != "" {
      chunks := chunks + [Strip(current)];
    }
  }

  /** The properties ChunkText promises, about the specification. */
  lemma ChunkSpecFacts(text: string, limit: int)
    ensures text == [] ==> ChunkSpec(text, limit) == []
    ensures forall c :: c in ChunkSpec(text, limit) ==> |c| <= limit || StrippedSentence(c, Sentences(text))
    ensures NonSpace(Concat(ChunkSpec(text, limit))) == NonSpace(text)
    ensures ChunkSpec(text, limit) != [] ==>
      exists b :: SentenceRuns(ChunkSpec(text, limit), Sentences(text), b) && b[|b| - 1] == |Sentences(text)|
    ensures |text| <= limit ==> |ChunkSpec(text, limit)| <= 1
  {
    ChunkOfEmpty(limit);
    ChunksAreSentenceRuns(text, limit);
    ChunksBounded(text, limit);
    ChunksKeepContent(text, limit);
    if |text| <= limit {
      ShortTextIsOneChunk(text, limit);
    }
  }

  /** c is one of the sentences, stripped. */
  ghost predicate StrippedSentence(c: string, sentences: seq<string>)
  {
    exists s :: s in sentences && c == Strip(s)
  }

  lemma ChunkOfEmpty(limit: int)
    ensures ChunkSpec("", limit) == []
  {
    assert Marked("") == "";
    assert Sentences("") == [""];
    assert Pack([""], limit) == Step(Pack([], limit), "", limit) by {
      assert [""][..0] == [];
    }
    assert Strip(" ") == "" by {
      assert LeadingSpaces(" ") == 1;
    }
    assert "" + " " + "" == " ";
  }

  /** Packing invariant for the size bound: every chunk is short or one stripped sentence. */
  ghost predicate BoundedPacking(p: Packing, sentences: seq<string>, limit: int)
  {
    && (forall c :: c in p.chunks ==> |c| <= limit || StrippedSentence(c, sentences))
    && (p.current == [] || |p.current| <= limit || p.current in sentences)
  }

  lemma {:induction false} PackBounded(sentences: seq<string>, all: seq<string>, limit: int)
    requires forall s :: s in sentences ==> s in all
    ensures BoundedPacking(Pack(sentences, limit), all, limit)
  {
    if sentences != [] {
      var init := sentences[..|sentences| - 1];
      var last := sentences[|sentences| - 1];
      forall s | s in init ensures s in all { assert s in sentences; }
      PackBounded(init, all, limit);
      var p := Pack(init, limit);
      if |p.current| + |last| + 1 > limit {
        if p.current != [] {
          StripShape(p.current);
          if p.current in all {
            assert StrippedSentence(Strip(p.current), all);
          }
        }
      } else {
        StripShape(p.current + " " + last);
      }
    }
  }

  /** Every chunk fits the limit unless it is a single sentence that does not. */
  lemma ChunksBounded(text: string, limit: int)
    ensures forall c :: c in ChunkSpec(text, limit) ==> |c| <= limit || StrippedSentence(c, Sentences(text))
  {
    var all := Sentences(text);
    PackBounded(all, all, limit);
    var p := Pack(all, limit);
    if p.current != [] {
      StripShape(p.current);
      if p.current in all {
        assert StrippedSentence(Strip(p.current), all);
      }
    }
  }

  /** The visible characters of the emitted chunks followed by the chunk being filled. */
  function PackedContent(p: Packing): string
  {
    NonSpace(Concat(p.chunks)) + NonSpace(p.current)
  }

  /** One packing step adds exactly the sentence's visible characters. */
  lemma StepKeepsContent(p: Packing, sentence: string, limit: int)
    ensures PackedContent(Step(p, sentence, limit)) == PackedContent(p) + NonSpace(sentence)
  {
    if |p.current| + |sentence| + 1 > limit {
      if p.current != [] {
        EmitKeepsContent(p.chunks, p.current);
      }
    } else {
      MergeKeepsContent(p.current, sentence);
    }
  }

  lemma EmitKeepsContent(chunks: seq<string>, current: string)
    ensures NonSpace(Concat(chunks + [Strip(current)])) == NonSpace(Concat(chunks)) + NonSpace(current)
  {
    ConcatAppend(chunks, Strip(current));
    NonSpaceAppend(Concat(chunks), Strip(current));
    NonSpaceOfStrip(current);
  }

  lemma MergeKeepsContent(current: string, sentence: string)
    ensures NonSpace(Strip(current + " " + sentence)) == NonSpace(current) + NonSpace(sentence)
  {
    NonSpaceOfStrip(current + " " + sentence);
    NonSpaceOfSpaced(current, " ", sentence);
  }

  lemma {:induction false} PackKeepsContent(sentences: seq<string>, limit: int)
    ensures PackedContent(Pack(sentences, limit)) == NonSpace(Concat(sentences))
  {
    if sentences != [] {
      var init := sentences[..|sentences| - 1];
      var last := sentences[|sentences| - 1];
      assert sentences == init + [last];
      PackKeepsContent(init, limit);
      ConcatAppend(init, last);
      NonSpaceAppend(Concat(init), last);
      StepKeepsContent(Pack(init, limit), last, limit);
    }
  }

  /** The visible characters of the sentences from lo up to hi. */
  function RunContent(sentences: seq<string>, lo: int, hi: int): string
    requires 0 <= lo <= hi <= |sentences|
  {
    NonSpace(Concat(sentences[lo..hi]))
  }

  /**
   * The chunks are consecutive runs of whole sentences: b starts at 0,
   * never decreases, and chunk j holds exactly the visible characters of
   * the sentences from b[j] up to b[j + 1].
   */
  predicate SentenceRuns(chunks: seq<string>, sentences: seq<string>, b: seq<int>)
  {
    && |b| == |chunks| + 1 && b[0] == 0
    && (forall j :: 0 <= j < |b| ==> 0 <= b[j] <= |sentences|)
    && (forall j :: 0 <= j < |chunks| ==> b[j] <= b[j + 1])
    && (forall j :: 0 <= j < |chunks| ==> NonSpace(chunks[j]) == RunContent(sentences, b[j], b[j + 1]))
  }

  /** The run starts after one more sentence: a new run begins at n when the sentence closes a non-empty chunk. */
  function NextStarts(p: Packing, b: seq<int>, sentence: string, limit: int, n: int): seq<int>
  {
    if |p.current| + |sentence| + 1 > limit && p.current != [] then b + [n] else b
  }

  /** Where each emitted chunk's run of sentences starts, then where the chunk being filled starts. */
  function RunStarts(sentences: seq<string>, limit: int): (b: seq<int>)
    ensures |b| == |Pack(sentences, limit).chunks| + 1
  {
    if sentences == [] then [0]
    else
      var init := sentences[..|sentences| - 1];
      NextStarts(Pack(init, limit), RunStarts(init, limit), sentences[|sentences| - 1], limit, |init|)
  }

  /** The packing invariant: emitted chunks are runs, and the chunk being filled holds the open run. */
  predicate RunsHold(p: Packing, sentences: seq<string>, b: seq<int>)
  {
    && SentenceRuns(p.chunks, sentences, b)
    && NonSpace(p.current) == RunContent(sentences, b[|b| - 1], |sentences|)
  }

  lemma RunGrows(sentences: seq<string>, lo: int, hi: int)
    requires 0 <= lo <= hi < |sentences|
    ensures RunContent(sentences, lo, hi + 1) == RunContent(sentences, lo, hi) + NonSpace(sentences[hi])
  {
    assert sentences[lo..hi + 1] == sentences[lo..hi] + [sentences[hi]];
    ConcatAppend(sentences[lo..hi], sentences[hi]);
    NonSpaceAppend(Concat(sentences[lo..hi]), sentences[hi]);
  }

  lemma RunSplit(sentences: seq<string>, lo: int, mid: int, hi: int)
    requires 0 <= lo <= mid <= hi <= |sentences|
    ensures RunContent(sentences, lo, hi) == RunContent(sentences, lo, mid) + RunContent(sentences, mid, hi)
  {
    assert sentences[lo..hi] == sentences[lo..mid] + sentences[mid..hi];
    ConcatOfAppend(sentences[lo..mid], sentences[mid..hi]);
    NonSpaceAppend(Concat(sentences[lo..mid]), Concat(sentences[mid..hi]));
  }

  /** Runs that end before the last sentence read the same with or without it. */
  lemma RunsOfPrefix(chunks: seq<string>, sentences: seq<string>, b: seq<int>)
    requires sentences != [] && SentenceRuns(chunks, sentences[..|sentences| - 1], b)
    ensures SentenceRuns(chunks, sentences, b)
  {
    var init := sentences[..|sentences| - 1];
    forall j | 0 <= j < |chunks|
      ensures NonSpace(chunks[j]) == RunContent(sentences, b[j], b[j + 1])
    {
      assert sentences[b[j]..b[j + 1]] == init[b[j]..b[j + 1]];
    }
  }

  /**
   * Packing emits runs of whole sentences, and the chunk being filled holds
   * exactly the visible characters of the sentences since the last run.
   */
  lemma {:induction false} PackRuns(sentences: seq<string>, limit: int)
    ensures RunsHold(Pack(sentences, limit), sentences, RunStarts(sentences, limit))
  {
    if sentences == [] {
      assert Pack(sentences, limit).current == [];
    } else {
      var n := |sentences| - 1;
      var init := sentences[..n];
      PackRuns(init, limit);
      StepRuns(Pack(init, limit), RunStarts(init, limit), sentences, limit);
    }
  }

  /** One packing step keeps the invariant. */
  lemma StepRuns(p: Packing, b: seq<int>, sentences: seq<string>, limit: int)
    requires sentences != [] && RunsHold(p, sentences[..|sentences| - 1], b)
    ensures var n := |sentences| - 1;
      RunsHold(Step(p, sentences[n], limit), sentences, NextStarts(p, b, sentences[n], limit, n))
  {
    var n := |sentences| - 1;
    if |p.current| + |sentences[n]| + 1 > limit && p.current != [] {
      StepCloses(p, b, sentences, limit);
    } else {
      StepExtends(p, b, sentences, limit);
    }
  }

  /** The run being filled reads the same with the next sentence in view. */
  lemma OpenRunOfPrefix(sentences: seq<string>, lo: int)
    requires 0 <= lo < |sentences|
    ensures RunContent(sentences, lo, |sentences| - 1) == RunContent(sentences[..|sentences| - 1], lo, |sentences| - 1)
  {
    assert sentences[lo..|sentences| - 1] == sentences[..|sentences| - 1][lo..|sentences| - 1];
  }

  /** A sentence that does not fit closes the run being filled and starts the next one. */
  lemma StepCloses(p: Packing, b: seq<int>, sentences: seq<string>, limit: int)
    requires sentences != [] && SentenceRuns(p.chunks, sentences[..|sentences| - 1], b)
    requires NonSpace(p.current) == RunContent(sentences[..|sentences| - 1], b[|b| - 1], |sentences| - 1)
    requires |p.current| + |sentences[|sentences| - 1]| + 1 > limit && p.current != []
    ensures SentenceRuns(Step(p, sentences[|sentences| - 1], limit).chunks, sentences, b + [|sentences| - 1])
    ensures NonSpace(Step(p, sentences[|sentences| - 1], limit).current) == RunContent(sentences, |sentences| - 1, |sentences|)
  {
    var n := |sentences| - 1;
    RunsOfPrefix(p.chunks, sentences, b);
    OpenRunOfPrefix(sentences, b[|b| - 1]);
    NonSpaceOfStrip(p.current);
    EmitRun(p.chunks, sentences, b, Strip(p.current), n);
    RunGrows(sentences, n, n);
  }

  /** Otherwise the sentence joins the run being filled. */
  lemma StepExtends(p: Packing, b: seq<int>, sentences: seq<string>, limit: int)
    requires sentences != [] && SentenceRuns(p.chunks, sentences[..|sentences| - 1], b)
    requires NonSpace(p.current) == RunContent(sentences[..|sentences| - 1], b[|b| - 1], |sentences| - 1)
    requires !(|p.current| + |sentences[|sentences| - 1]| + 1 > limit && p.current != [])
    ensures Step(p, sentences[|sentences| - 1], limit).chunks == p.chunks
    ensures SentenceRuns(p.chunks, sentences, b)
    ensures NonSpace(Step(p, sentences[|sentences| - 1], limit).current) == RunContent(sentences, b[|b| - 1], |sentences|)
  {
    var n := |sentences| - 1;
    RunsOfPrefix(p.chunks, sentences, b);
    var last := sentences[n];
    OpenRunOfPrefix(sentences, b[|b| - 1]);
    RunGrows(sentences, b[|b| - 1], n);
    if |p.current| + |last| + 1 > limit {
      assert NonSpace(p.current) == [];
    } else {
      MergeKeepsContent(p.current, last);
    }
  }

  /** Closing the run that ends at mid. */
  lemma EmitRun(chunks: seq<string>, sentences: seq<string>, b: seq<int>, chunk: string, mid: int)
    requires SentenceRuns(chunks, sentences, b)
    requires b[|b| - 1] <= mid <= |sentences|
    requires NonSpace(chunk) == RunContent(sentences, b[|b| - 1], mid)
    ensures SentenceRuns(chunks + [chunk], sentences, b + [mid])
  {
    var b' := b + [mid];
    var cs := chunks + [chunk];
    forall j | 0 <= j < |cs|
      ensures b'[j] <= b'[j + 1] && NonSpace(cs[j]) == RunContent(sentences, b'[j], b'[j + 1])
    {
      if j < |chunks| {
        assert cs[j] == chunks[j] && b'[j] == b[j] && b'[j + 1] == b[j + 1];
      }
    }
  }

  /**
   * Chunk boundaries fall between sentences: the chunks are consecutive
   * runs of whole sentences, from the first sentence to the last.
   */
  lemma ChunksAreSentenceRuns(text: string, limit: int)
    ensures ChunkSpec(text, limit) != [] ==>
      exists b :: SentenceRuns(ChunkSpec(text, limit), Sentences(text), b) && b[|b| - 1] == |Sentences(text)|
  {
    var ss := Sentences(text);
    var p := Pack(ss, limit);
    var b := RunStarts(ss, limit);
    PackRuns(ss, limit);
    if p.current != [] {
      NonSpaceOfStrip(p.current);
      EmitRun(p.chunks, ss, b, Strip(p.current), |ss|);
      assert ChunkSpec(text, limit) == p.chunks + [Strip(p.current)];
    } else if p.chunks != [] {
      assert NonSpace(p.current) == [];
      ExtendLastRun(p.chunks, ss, b);
      assert ChunkSpec(text, limit) == p.chunks;
    }
  }

  /** A trailing run without visible characters can be given to the last chunk. */
  lemma ExtendLastRun(chunks: seq<string>, sentences: seq<string>, b: seq<int>)
    requires chunks != [] && SentenceRuns(chunks, sentences, b)
    requires RunContent(sentences, b[|b| - 1], |sentences|) == []
    ensures SentenceRuns(chunks, sentences, b[..|chunks|] + [|sentences|])
  {
    var k := |chunks|;
    RunSplit(sentences, b[k - 1], b[k], |sentences|);
    var init := chunks[..k - 1];
    var bi := b[..k];
    assert SentenceRuns(init, sentences, bi) by {
      forall j | 0 <= j < k - 1
        ensures NonSpace(init[j]) == RunContent(sentences, bi[j], bi[j + 1])
      {
        assert init[j] == chunks[j] && bi[j] == b[j] && bi[j + 1] == b[j + 1];
      }
    }
    EmitRun(init, sentences, bi, chunks[k - 1], |sentences|);
    assert init + [chunks[k - 1]] == chunks;
  }

  /** No visible character is lost, duplicated or reordered by chunking. */
  lemma ChunksKeepContent(text: string, limit: int)
    ensures NonSpace(Concat(ChunkSpec(text, limit))) == NonSpace(text)
  {
    var p := Pack(Sentences(text), limit);
    PackKeepsContent(Sentences(text), limit);
    SentencesCoverText(text);
    if p.current != [] {
      ConcatAppend(p.chunks, Strip(p.current));
      NonSpaceAppend(Concat(p.chunks), Strip(p.current));
      NonSpaceOfStrip(p.current);
    } else {
      assert NonSpace(p.current) == [];
    }
  }

  /** While the joined sentences fit, no chunk is emitted and the current chunk stays within them. */
  lemma {:induction false} PackFitting(sentences: seq<string>, limit: int)
    requires |Join(sentences, "\n")| <= limit
    ensures Pack(sentences, limit).chunks == []
    ensures |Pack(sentences, limit).current| <= |Join(sentences, "\n")|
  {
    if sentences != [] {
      var init := sentences[..|sentences| - 1];
      var last := sentences[|sentences| - 1];
      assert sentences == init + [last];
      if init == [] {
        assert Join(sentences, "\n") == last;
        FirstStepRejoins(last, limit);
        StripShape(last);
      } else {
        JoinAppend(init, last, "\n");
        PackFitting(init, limit);
        StripShape(Pack(init, limit).current + " " + last);
      }
    }
  }

  /** Text within the limit comes back as at most one chunk. */
  lemma ShortTextIsOneChunk(text: string, limit: int)
    requires |text| <= limit
    ensures |ChunkSpec(text, limit)| <= 1
  {
    SentencesCoverText(text);
    PackFitting(Sentences(text), limit);
  }

  /** Text within the limit that is not blank comes back as exactly one chunk with all its visible characters. */
  lemma ShortTextChunk(text: string, limit: int)
    requires |text| <= limit && !IsBlank(text)
    ensures |ChunkSpec(text, limit)| == 1
    ensures NonSpace(ChunkSpec(text, limit)[0]) == NonSpace(text)
  {
    ShortTextIsOneChunk(text, limit);
    ChunksKeepContent(text, limit);
    var cs := ChunkSpec(text, limit);
    BlankIsAllSpace(text);
    VisibleIffNotBlank(text);
    if cs != [] {
      assert Concat(cs) == cs[0] + Concat([]);
      assert cs[0] + [] == cs[0];
    }
  }

  /** Whitespace sentences that each fit leave the loop state empty: the stripped join never grows. */
  lemma {:induction false} BlankPackStaysEmpty(sentences: seq<string>, limit: int)
    requires forall k :: 0 <= k < |sentences| ==> AllSpace(sentences[k]) && |sentences[k]| < limit
    ensures Pack(sentences, limit) == Packing([], [])
  {
    if sentences != [] {
      var init := sentences[..|sentences| - 1];
      var last := sentences[|sentences| - 1];
      BlankPackStaysEmpty(init, limit);
      assert AllSpace([] + " " + last) by {
        assert forall i :: 1 <= i < |[] + " " + last| ==> ([] + " " + last)[i] == last[i - 1];
      }
      BlankIsAllSpace([] + " " + last);
    }
  }

  /** Blank text shorter than the limit gives no chunk. */
  lemma ShortBlankTextGivesNoChunk(text: string, limit: int)
    requires IsBlank(text) && |text| < limit
    ensures ChunkSpec(text, limit) == []
  {
    var m := Marked(text);
    MarkedAt(text);
    SentencesCoverText(text);
    BlankIsAllSpace(text);
    assert AllSpace(m) by {
      forall i | 0 <= i < |m| ensures IsSpace(m[i]) {
        assert IsSpace(text[i]);
      }
    }
    JoinPartsWithin(Sentences(text), "\n");
    BlankPackStaysEmpty(Sentences(text), limit);
  }

  /**
   * Blank text on one line that reaches the limit is a sentence that does
   * not fit, so it becomes one chunk, the empty string.
   */
  lemma LongBlankLineGivesEmptyChunk(text: string, limit: int)
    requires IsBlank(text) && text != [] && |text| >= limit
    requires forall i :: 0 <= i < |text| ==> text[i] != '\n'
    ensures ChunkSpec(text, limit) == [""]
  {
    MarkedAt(text);
    BlankIsAllSpace(text);
    assert Marked(text) == text by {
      forall i | 0 <= i < |text| ensures Marked(text)[i] == text[i] {
        if i > 0 {
          assert IsSpace(text[i - 1]);
        }
      }
    }
    SplitWithoutSeparator(text, '\n');
    assert Sentences(text) == [text];
    assert [text][..0] == [];
    assert Pack([text], limit) == Step(Packing([], []), text, limit);
    assert Pack([text], limit) == Packing([], text);
  }

  /**
   * With sentences that all end visibly except perhaps the last, and a
   * total within the limit, packing never starts a second chunk, and the
   * chunk being filled is the sentences joined by spaces, stripped (or
   * unstripped when a lone sentence reached the limit).
   */
  lemma {:induction false} PackRejoins(sentences: seq<string>, limit: int)
    requires |Join(sentences, " ")| <= limit
    requires forall k :: 0 <= k < |sentences| - 1 ==> EndsVisible(sentences[k])
    ensures Pack(sentences, limit).chunks == []
    ensures Pack(sentences, limit).current == Join(sentences, " ")
      || Pack(sentences, limit).current == Strip(Join(sentences, " "))
  {
    if sentences != [] {
      var init := sentences[..|sentences| - 1];
      var last := sentences[|sentences| - 1];
      assert sentences == init + [last];
      if init == [] {
        assert Join(sentences, " ") == last;
        FirstStepRejoins(last, limit);
      } else {
        JoinAppend(init, last, " ");
        PackRejoins(init, limit);
        JoinEndsVisible(init, " ");
        StepRejoins(Pack(init, limit), Join(init, " "), last, limit);
      }
    }
  }

  /** The first sentence starts the chunk: as it is when it alone reaches the limit, stripped otherwise. */
  lemma FirstStepRejoins(sentence: string, limit: int)
    ensures Step(Packing([], []), sentence, limit) == Packing([], sentence)
      || Step(Packing([], []), sentence, limit) == Packing([], Strip(sentence))
  {
    var start := Packing([], []);
    if |start.current| + |sentence| + 1 <= limit {
      var gap := " ";
      assert AllSpace(gap);
      assert start.current + gap + sentence == gap + sentence;
      StripDropsLeading(gap, sentence);
    }
  }

  /** A sentence that fits is merged, and the chunk stays the stripped join. */
  lemma StepRejoins(p: Packing, joined: string, sentence: string, limit: int)
    requires p.chunks == [] && EndsVisible(joined) && (p.current == joined || p.current == Strip(joined))
    requires |joined| + 1 + |sentence| <= limit
    ensures Step(p, sentence, limit) == Packing([], Strip(joined + " " + sentence))
  {
    MergeRejoins(joined, p.current, sentence);
  }

  /** Merging onto the stripped join gives the same stripped text as merging onto the join itself. */
  lemma MergeRejoins(joined: string, current: string, sentence: string)
    requires EndsVisible(joined) && (current == joined || current == Strip(joined))
    ensures |current| <= |joined|
    ensures Strip(current + " " + sentence) == Strip(joined + " " + sentence)
  {
    StripShape(joined);
    if current != joined {
      StripOfVisibleEnd(joined);
      var lead := joined[..LeadingSpaces(joined)];
      assert joined + " " + sentence == lead + (current + " " + sentence);
      StripDropsLeading(lead, current + " " + sentence);
    }
  }

  /**
   * Text without line breaks: its sentences, joined by spaces, give the
   * text back, and every sentence but the last ends with its mark.
   */
  lemma SentencesOfUnbroken(text: string)
    requires forall i :: 0 <= i < |text| ==> text[i] != '\n'
    ensures Join(Sentences(text), " ") == text
    ensures forall k :: 0 <= k < |Sentences(text)| - 1 ==> EndsIn(Sentences(text)[k], IsSentenceMark)
    ensures forall k :: 0 <= k < |Sentences(text)| - 1 ==> EndsVisible(Sentences(text)[k])
  {
    var m := Marked(text);
    MarkedAt(text);
    SplitJoinWith(m, '\n', ' ');
    assert ReplaceChar(m, '\n', ' ') == text;
    assert SeparatorsFollow(m, '\n', IsSentenceMark) by {
      forall i | 0 < i < |m| && m[i] == '\n' ensures IsSentenceMark(m[i - 1]) {
        assert m[i - 1] == text[i - 1];
      }
    }
    SplitPartsEndIn(m, '\n', IsSentenceMark);
    if |m| > 0 {
      assert m[0] == text[0];
    }
  }

  /**
   * Text within the limit that is not blank and holds no line break comes
   * back as exactly one chunk: the stripped text.
   */
  lemma ShortTextIsStrippedChunk(text: string, limit: int)
    requires |text| <= limit && !IsBlank(text)
    requires forall i :: 0 <= i < |text| ==> text[i] != '\n'
    ensures ChunkSpec(text, limit) == [Strip(text)]
  {
    SentencesOfUnbroken(text);
    PackRejoins(Sentences(text), limit);
    StripIdempotent(text);
  }

  /** A line break inside short text comes back as a space: the chunk is not the stripped text. */
  lemma LineBreakBecomesSpace()
    ensures ChunkSpec("a\nb", 10) == ["a b"]
    ensures Strip("a\nb") == "a\nb"
  {
    SentencesAroundLineBreak();
    PackAroundLineBreak();
    StripOfTrimmed("a b");
    StripOfTrimmed("a\nb");
  }

  /** The two sentences "a" and "b" fit together and merge with a space. */
  lemma PackAroundLineBreak()
    ensures Pack(["a", "b"], 10) == Packing([], "a b")
  {
    var sentences := ["a", "b"];
    assert sentences[..1] == ["a"];
    assert [] + " " + "a" == " " + "a";
    StripDropsLeading(" ", "a");
    StripOfTrimmed("a");
    assert Pack(["a"], 10) == Packing([], "a");
    assert Pack(sentences, 10) == Step(Packing([], "a"), "b", 10);
    assert "a" + " " + "b" == "a b";
    StripOfTrimmed("a b");
  }

  /** "a\nb" holds no sentence mark and splits at its line break. */
  lemma SentencesAroundLineBreak()
    ensures Sentences("a\nb") == ["a", "b"]
  {
    var text := "a\nb";
    MarkedAt(text);
    assert Marked(text) == text;
    var tail := text[1..];
    var b := tail[1..];
    assert b[1..] == [];
    assert Split(b[1..], '\n') == [[]];
    assert [b[0]] + Split(b[1..], '\n')[0] == b;
    assert Split(b, '\n') == [b] + [];
    assert Split(tail, '\n') == [[]] + Split(b, '\n');
    assert [text[0]] + Split(tail, '\n')[0] == "a";
    assert Split(tail, '\n')[1..] == ["b"];
    assert Split(text, '\n') == ["a"] + ["b"];
  }

  lemma {:induction false} VisibleIffNotBlank(s: string)
    ensures NonSpace(s) == [] <==> AllSpace(s)
  {
    if |s| > 0 {
      VisibleIffNotBlank(s[1..]);
      if AllSpace(s) {
        assert AllSpace(s[1..]) by {
          forall i | 0 <= i < |s[1..]| ensures IsSpace(s[1..][i]) { assert s[1..][i] == s[i + 1]; }
        }
      } else if IsSpace(s[0]) {
        assert !AllSpace(s[1..]) by {
          var i :| 0 <= i < |s| && !IsSpace(s[i]);
          assert s[1..][i - 1] == s[i];
        }
      }
    }
  }

  /** The translated text and the texts sent to the service, in the order they are sent. */
  datatype Translation = Translation(text: string, requests: seq<string>)

  /** `chunk for chunk in chunks if chunk.strip()`. */
  function NonBlankChunks(chunks: seq<string>): (r: seq<string>)
    ensures forall c :: c in r ==> c in chunks && !IsBlank(c)
  {
    if chunks == [] then []
    else (if IsBlank(chunks[0]) then [] else [chunks[0]]) + NonBlankChunks(chunks[1..])
  }

  lemma {:induction false} NonBlankKeepsContent(chunks: seq<string>)
    ensures NonSpace(Concat(NonBlankChunks(chunks))) == NonSpace(Concat(chunks))
  {
    if chunks != [] {
      NonBlankKeepsContent(chunks[1..]);
      var head := if IsBlank(chunks[0]) then [] else [chunks[0]];
      var rest := NonBlankChunks(chunks[1..]);
      NonSpaceAppend(chunks[0], Concat(chunks[1..]));
      ConcatOfPrefix(head, rest);
      NonSpaceAppend(Concat(head), Concat(rest));
      if IsBlank(chunks[0]) {
        BlankIsAllSpace(chunks[0]);
        NonSpaceOfSpaces(chunks[0]);
      } else {
        assert Concat(head) == chunks[0] + Concat([]);
        assert chunks[0] + [] == chunks[0];
      }
    }
  }

  lemma ConcatOfPrefix(head: seq<string>, rest: seq<string>)
    requires |head| <= 1
    ensures Concat(head + rest) == Concat(head) + Concat(rest)
  {
    if |head| == 1 {
      assert (head + rest)[1..] == rest;
      assert Concat(head) == head[0] + [];
    } else {
      assert head + rest == rest;
    }
  }

  /**
   * _translate_text.  Blank text is returned as it is and nothing is sent;
   * otherwise the text goes out whole when it fits the request limit, else
   * as its non-blank chunks, each within the limit unless it is one long
   * sentence; the requests carry every visible character of the text, in
   * order, and the result is their translations joined by single spaces.
   */
  function TranslateText(tr: string -> string, text: string): (r: Translation)
    ensures IsBlank(text) ==> r.text == text && r.requests == []
    ensures !IsBlank(text) && |text| <= ChunkLimit ==> r.requests == [text]
    ensures !IsBlank(text) ==> r.text == Join(Map(tr, r.requests), " ")
    ensures !IsBlank(text) ==> NonSpace(Concat(r.requests)) == NonSpace(text)
    ensures forall q :: q in r.requests ==> !IsBlank(q) && (|q| <= ChunkLimit || StrippedSentence(q, Sentences(text)))
  {
    if IsBlank(text) then Translation(text, [])
    else if |text| <= ChunkLimit then
      assert Concat([text]) == text + [];
      assert text + [] == text;
      Translation(tr(text), [text])
    else
      var chunks := ChunkSpec(text, ChunkLimit);
      ChunksBounded(text, ChunkLimit);
      ChunksKeepContent(text, ChunkLimit);
      NonBlankKeepsContent(chunks);
      var requests := NonBlankChunks(chunks);
      Translation(Join(Map(tr, requests), " "), requests)
  }

  /** A deep copy of the segment with its text replaced by the translation. */
  function TranslatedSegment(seg: TranscriptionSegment, tr: string -> string): (r: TranscriptionSegment)
    ensures r.text == TranslateText(tr, seg.text).text
    ensures r.start == seg.start && r.end == seg.end && r.words == seg.words
    ensures IsBlank(seg.text) ==> r == seg
  {
    seg.(text := TranslateText(tr, seg.text).text)
  }

  /** The list translate_segments returns for segs. */
  function Translated(segs: seq<TranscriptionSegment>, tr: string -> string): (r: seq<TranscriptionSegment>)
    ensures |r| == |segs|
  {
    if segs == [] then [] else Translated(segs[..|segs| - 1], tr) + [TranslatedSegment(segs[|segs| - 1], tr)]
  }

  lemma {:induction false} TranslatedAt(segs: seq<TranscriptionSegment>, tr: string -> string, i: nat)
    requires i < |segs|
    ensures Translated(segs, tr)[i] == TranslatedSegment(segs[i], tr)
  {
    if i < |segs| - 1 {
      TranslatedAt(segs[..|segs| - 1], tr, i);
    }
  }

  /** translate_segments: each segment's text translated, everything else kept, in order. */
  method TranslateSegments(segments: seq<TranscriptionSegment>, tr: string -> string) returns (translated: seq<TranscriptionSegment>)
    ensures translated == Translated(segments, tr)
    ensures |translated| == |segments|
  {
    if segments == [] {
      return [];
    }
    translated := [];
    for i := 0 to |segments|
      invariant translated == Translated(segments[..i], tr)
    {
      assert segments[..i + 1][..i] == segments[..i];
      translated := translated + [TranslatedSegment(segments[i], tr)];
    }
    assert segments[..|segments|] == segments;
  }

  /**
   * The translated list keeps every segment's timing and words, in order;
   * a blank segment comes back as it was.
   */
  lemma TranslatedKeepsTiming(segs: seq<TranscriptionSegment>, tr: string -> string, i: nat)
    requires i < |segs|
    ensures Translated(segs, tr)[i].text == TranslateText(tr, segs[i].text).text
    ensures Translated(segs, tr)[i].start == segs[i].start
    ensures Translated(segs, tr)[i].end == segs[i].end
    ensures Translated(segs, tr)[i].words == segs[i].words
    ensures IsBlank(segs[i].text) ==> Translated(segs, tr)[i] == segs[i]
  {
    TranslatedAt(segs, tr, i);
  }
}
