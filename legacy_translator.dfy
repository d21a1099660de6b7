/**
 * The older package's segment translation: every segment is rebuilt with
 * its timing, its text translated (blank text is kept and not sent) and
 * its language set to the target.  The service is a parameter: a function
 * from the text of one request to its translation, auto-detecting the
 * source language.
 */
module LegacyTranslator {
  import opened Text
  import opened LegacyTranscriber

  /** The segment translate builds for seg. */
  function Retold(seg: Segment, target: string, tr: string -> string): Segment
  {
    Segment(seg.start, seg.end, if IsBlank(seg.text) then seg.text else tr(seg.text), target)
  }

  /** The texts sent to the service while translating segs: the non-blank ones, in order. */
  function Requests(segs: seq<Segment>): (r: seq<string>)
    ensures |r| <= |segs|
    ensures forall q :: q in r ==> !IsBlank(q)
  {
    if segs == [] then []
    else
      var last := segs[|segs| - 1];
      Requests(segs[..|segs| - 1]) + (if IsBlank(last.text) then [] else [last.text])
  }

  /** The list translate returns for segs. */
  function RetoldAll(segs: seq<Segment>, target: string, tr: string -> string): (r: seq<Segment>)
    ensures |r| == |segs|
  {
    if segs == [] then [] else RetoldAll(segs[..|segs| - 1], target, tr) + [Retold(segs[|segs| - 1], target, tr)]
  }

  /**
   * The translated list keeps length and order; every segment keeps its
   * timing and takes the target language; blank text is kept and other
   * text is the service's translation.
   */
  lemma {:induction false} RetoldAt(segs: seq<Segment>, target: string, tr: string -> string, i: nat)
    requires i < |segs|
    ensures RetoldAll(segs, target, tr)[i] == Retold(segs[i], target, tr)
    ensures var t := RetoldAll(segs, target, tr)[i];
      && t.start == segs[i].start && t.end == segs[i].end && t.language == target
      && (IsBlank(segs[i].text) ==> t.text == segs[i].text)
      && (!IsBlank(segs[i].text) ==> t.text == tr(segs[i].text))
  {
    if i < |segs| - 1 {
      RetoldAt(segs[..|segs| - 1], target, tr, i);
    }
  }

  method Translate(segments: seq<Segment>, target: string, tr: string -> string) returns (translated: seq<Segment>, requests: seq<string>)
    ensures translated == RetoldAll(segments, target, tr)
    ensures requests == Requests(segments)
  {
    translated := [];
    requests := [];
    for i := 0 to |segments|
      invariant translated == RetoldAll(segments[..i], target, tr)
      invariant requests == Requests(segments[..i])
    {
      assert segments[..i + 1][..i] == segments[..i];
      var seg := segments[i];
      var text := seg.text;
      if !IsBlank(seg.text) {
        text := tr(seg.text);
        requests := requests + [seg.text];
      }
      translated := translated + [Segment(seg.start, seg.end, text, target)];
    }
    assert segments[..|segments|] == segments;
  }
}
