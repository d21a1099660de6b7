/**
 * DubalotPipeline._translate: text handed to the translation service in
 * fixed-width slices of 4999 characters.  Nothing is sent when source and
 * target languages agree; text that fits is sent whole; longer text is
 * sliced and the translated slices are joined with single spaces.  The
 * service is a parameter: a function from one request's text to its
 * translation.
 */
module LegacyPipeline {
  import opened Text

  /** deep-translator's per-request character limit as the pipeline uses it. */
  const MaxRequestLength: nat := 4999

  /** The translated text and the texts sent to the service, in order. */
  datatype Translation = Translation(text: string, requests: seq<string>)

  function Min(a: int, b: int): int { if a <= b then a else b }

  /** The text cut into consecutive slices of MaxRequestLength characters, the last one shorter. */
  function FixedChunks(text: string): (r: seq<string>)
    ensures forall k :: 0 <= k < |r| ==> 0 < |r[k]| <= MaxRequestLength
    decreases |text|
  {
    if |text| == 0 then []
    else if |text| <= MaxRequestLength then [text]
    else [text[..MaxRequestLength]] + FixedChunks(text[MaxRequestLength..])
  }

  /**
   * The slices are those of [text[i:i + 4999] for i in range(0, len(text), 4999)]:
   * ceil(|text| / 4999) of them, slice k starting at k * 4999.
   */
  lemma {:induction false} FixedChunksAt(text: string)
    ensures |FixedChunks(text)| == (|text| + MaxRequestLength - 1) / MaxRequestLength
    ensures forall k :: 0 <= k < |FixedChunks(text)| ==>
      FixedChunks(text)[k] == text[k * MaxRequestLength .. Min(k * MaxRequestLength + MaxRequestLength, |text|)]
    decreases |text|
  {
    if |text| > MaxRequestLength {
      var rest := text[MaxRequestLength..];
      FixedChunksAt(rest);
      var r := FixedChunks(text);
      forall k | 1 <= k < |r|
        ensures r[k] == text[k * MaxRequestLength .. Min(k * MaxRequestLength + MaxRequestLength, |text|)]
      {
        var j := k - 1;
        assert r[k] == FixedChunks(rest)[j];
        assert k * MaxRequestLength == j * MaxRequestLength + MaxRequestLength;
        assert rest[j * MaxRequestLength .. Min(j * MaxRequestLength + MaxRequestLength, |rest|)]
          == text[k * MaxRequestLength .. Min(k * MaxRequestLength + MaxRequestLength, |text|)];
      }
    }
  }

  /** Concatenating the slices gives back the text. */
  lemma {:induction false} FixedChunksConcat(text: string)
    ensures Concat(FixedChunks(text)) == text
    decreases |text|
  {
    if |text| == 0 {
    } else if |text| <= MaxRequestLength {
      assert Concat([text]) == text + [];
      assert text + [] == text;
    } else {
      FixedChunksConcat(text[MaxRequestLength..]);
      assert text == text[..MaxRequestLength] + text[MaxRequestLength..];
      assert (FixedChunks(text))[1..] == FixedChunks(text[MaxRequestLength..]);
    }
  }

  /**
   * _translate.  Nothing is sent when the languages agree; otherwise the
   * requests are slices of at most 4999 characters that concatenate to the
   * text, one request when it fits, and the result is their translations
   * joined by single spaces.
   */
  function Translate(tr: string -> string, text: string, source: string, target: string): (r: Translation)
    ensures source == target ==> r.text == text && r.requests == []
    ensures source != target && |text| <= MaxRequestLength ==> r.requests == [text] && r.text == tr(text)
    ensures source != target ==> Concat(r.requests) == text && r.text == Join(Map(tr, r.requests), " ")
    ensures forall q :: q in r.requests ==> |q| <= MaxRequestLength
  {
    if source == target then Translation(text, [])
    else if |text| <= MaxRequestLength then
      assert Concat([text]) == text + [];
      assert text + [] == text;
      Translation(tr(text), [text])
    else
      var chunks := FixedChunks(text);
      FixedChunksConcat(text);
      Translation(Join(Map(tr, chunks), " "), chunks)
  }

  /** s.replace(c, ""): s without any occurrence of c. */
  function Without(s: string, c: char): (r: string)
    ensures forall i :: 0 <= i < |r| ==> r[i] != c
  {
    if s == [] then [] else (if s[0] == c then [] else [s[0]]) + Without(s[1..], c)
  }

  lemma {:induction false} WithoutAppend(a: string, b: string, c: char)
    ensures Without(a + b, c) == Without(a, c) + Without(b, c)
  {
    if a != [] {
      assert (a + b)[1..] == a[1..] + b;
      WithoutAppend(a[1..], b, c);
    } else {
      assert a + b == b;
    }
  }

  /** Dropping the spaces of a space-joined list drops them from the plain concatenation. */
  lemma {:induction false} WithoutOfJoin(parts: seq<string>)
    ensures Without(Join(parts, " "), ' ') == Without(Concat(parts), ' ')
  {
    if |parts| == 1 {
      assert parts[1..] == [];
      assert Concat(parts) == parts[0] + [];
      assert parts[0] + [] == parts[0];
    } else if |parts| > 1 {
      WithoutOfJoin(parts[1..]);
      assert Join(parts, " ") == (parts[0] + " ") + Join(parts[1..], " ");
      WithoutAppend(parts[0] + " ", Join(parts[1..], " "), ' ');
      WithoutAppend(parts[0], " ", ' ');
      WithoutAppend(parts[0], Concat(parts[1..]), ' ');
    }
  }

  /** Translating every part character by character and concatenating is translating the concatenation. */
  lemma {:induction false} MapCharsOfConcat(f: char -> char, parts: seq<string>)
    ensures Concat(Map(s => Map(f, s), parts)) == Map(f, Concat(parts))
  {
    if parts != [] {
      var tr := s => Map(f, s);
      assert Map(tr, parts)[1..] == Map(tr, parts[1..]);
      MapCharsOfConcat(f, parts[1..]);
      assert Map(f, parts[0] + Concat(parts[1..])) == Map(f, parts[0]) + Map(f, Concat(parts[1..]));
    }
  }

  /**
   * With a character-by-character translator, removing the spaces from the
   * result gives the mapped text with its spaces removed: slicing and
   * joining lose and reorder nothing.
   */
  lemma PerCharacterTranslation(f: char -> char, text: string, source: string, target: string)
    requires source != target
    ensures Without(Translate(s => Map(f, s), text, source, target).text, ' ') == Without(Map(f, text), ' ')
  {
    var tr := s => Map(f, s);
    if |text| > MaxRequestLength {
      var chunks := FixedChunks(text);
      WithoutOfJoin(Map(tr, chunks));
      MapCharsOfConcat(f, chunks);
      FixedChunksConcat(text);
    }
  }
}
