/**
 * The few Python string operations the translators and the transcriber
 * rely on: str.isspace, str.strip, str.split on one character,
 * str.join, and the lower-casing used to recognise "auto".
 */
module Text {

  /** Python's str.isspace() for a single character (the full Unicode whitespace set). */
  predicate IsSpace(c: char)
  {
    ('\t' <= c <= '\r') || ('\U{1C}' <= c <= '\U{1F}') || c == ' ' || c == '\U{85}' || c == '\U{A0}'
    || c == '\U{1680}' || ('\U{2000}' <= c <= '\U{200A}') || c == '\U{2028}' || c == '\U{2029}'
    || c == '\U{202F}' || c == '\U{205F}' || c == '\U{3000}'
  }

  predicate AllSpace(s: string) { forall i :: 0 <= i < |s| ==> IsSpace(s[i]) }

  /** Number of whitespace characters at the start of s. */
  function LeadingSpaces(s: string): (n: nat)
    ensures n <= |s|
    ensures forall i :: 0 <= i < n ==> IsSpace(s[i])
    ensures n < |s| ==> !IsSpace(s[n])
  {
    if |s| > 0 && IsSpace(s[0]) then 1 + LeadingSpaces(s[1..]) else 0
  }

  /** Number of whitespace characters at the end of s. */
  function TrailingSpaces(s: string): (n: nat)
    ensures n <= |s|
    ensures forall i :: |s| - n <= i < |s| ==> IsSpace(s[i])
    ensures n < |s| ==> !IsSpace(s[|s| - n - 1])
  {
    if |s| > 0 && IsSpace(s[|s| - 1]) then 1 + TrailingSpaces(s[..|s| - 1]) else 0
  }

  /** Python's str.strip() with no argument. */
  function Strip(s: string): (r: string)
  {
    var t := s[LeadingSpaces(s)..];
    t[..|t| - TrailingSpaces(t)]
  }

  /** Strip removes exactly the surrounding whitespace. */
  lemma StripShape(s: string)
    ensures |Strip(s)| <= |s|
    ensures exists a, b :: 0 <= a <= b <= |s| && Strip(s) == s[a..b] && AllSpace(s[..a]) && AllSpace(s[b..])
    ensures Strip(s) != [] ==> !IsSpace(Strip(s)[0]) && !IsSpace(Strip(s)[|Strip(s)| - 1])
  {
    var a := LeadingSpaces(s);
    var t := s[a..];
    var b := a + |t| - TrailingSpaces(t);
    assert Strip(s) == s[a..b];
    assert AllSpace(s[b..]) by {
      forall i | 0 <= i < |s[b..]| ensures IsSpace(s[b..][i]) { assert s[b..][i] == t[i + b - a]; }
    }
  }

  /** `not text.strip()`: the text is empty or whitespace only. */
  predicate IsBlank(s: string) { Strip(s) == [] }

  lemma BlankIsAllSpace(s: string)
    ensures IsBlank(s) <==> AllSpace(s)
  {
    StripShape(s);
    var a, b :| 0 <= a <= b <= |s| && Strip(s) == s[a..b] && AllSpace(s[..a]) && AllSpace(s[b..]);
    if IsBlank(s) {
      forall i | 0 <= i < |s| ensures IsSpace(s[i]) {
        if i < a { assert s[..a][i] == s[i]; } else { assert s[b..][i - b] == s[i]; }
      }
    } else {
      assert !IsSpace(s[a]);
    }
  }

  /** The non-whitespace characters of s, in order. */
  function NonSpace(s: string): string
  {
    if |s| == 0 then [] else (if IsSpace(s[0]) then [] else [s[0]]) + NonSpace(s[1..])
  }

  lemma {:induction false} NonSpaceAppend(a: string, b: string)
    ensures NonSpace(a + b) == NonSpace(a) + NonSpace(b)
  {
    if |a| == 0 {
      assert a + b == b;
    } else {
      assert (a + b)[1..] == a[1..] + b;
      NonSpaceAppend(a[1..], b);
    }
  }

  lemma {:induction false} NonSpaceOfSpaces(s: string)
    requires AllSpace(s)
    ensures NonSpace(s) == []
  {
    if |s| > 0 {
      NonSpaceOfSpaces(s[1..]);
    }
  }

  /** Whitespace on either side adds no visible character. */
  lemma NonSpaceOfPadded(a: string, m: string, b: string)
    requires AllSpace(a) && AllSpace(b)
    ensures NonSpace(a + m + b) == NonSpace(m)
  {
    NonSpaceAppend(a + m, b);
    NonSpaceAppend(a, m);
    NonSpaceOfSpaces(a);
    NonSpaceOfSpaces(b);
  }

  /** A whitespace gap between two strings adds no visible character. */
  lemma NonSpaceOfSpaced(a: string, gap: string, b: string)
    requires AllSpace(gap)
    ensures NonSpace(a + gap + b) == NonSpace(a) + NonSpace(b)
  {
    NonSpaceAppend(a + gap, b);
    NonSpaceAppend(a, gap);
    NonSpaceOfSpaces(gap);
  }

  /** Stripping loses no visible character. */
  lemma NonSpaceOfStrip(s: string)
    ensures NonSpace(Strip(s)) == NonSpace(s)
  {
    var lead := LeadingSpaces(s);
    var t := s[lead..];
    var kept := |t| - TrailingSpaces(t);
    var before, middle, after := s[..lead], t[..kept], t[kept..];
    assert middle == Strip(s);
    assert s == before + middle + after;
    assert AllSpace(before);
    assert AllSpace(after);
    NonSpaceOfPadded(before, middle, after);
  }

  /** f applied to every element, in order (a list comprehension over s). */
  function Map<A, B>(f: A -> B, s: seq<A>): (r: seq<B>)
    ensures |r| == |s| && forall i :: 0 <= i < |s| ==> r[i] == f(s[i])
  {
    seq(|s|, i requires 0 <= i < |s| => f(s[i]))
  }

  /** The concatenation of parts (Python's "".join). */
  function Concat(parts: seq<string>): string
  {
    if |parts| == 0 then [] else parts[0] + Concat(parts[1..])
  }

  /** Python's sep.join(parts). */
  function Join(parts: seq<string>, sep: string): string
  {
    if |parts| == 0 then []
    else if |parts| == 1 then parts[0]
    else parts[0] + sep + Join(parts[1..], sep)
  }

  lemma {:induction false} ConcatOfAppend(a: seq<string>, b: seq<string>)
    ensures Concat(a + b) == Concat(a) + Concat(b)
  {
    if |a| == 0 {
      assert a + b == b;
    } else {
      assert (a + b)[1..] == a[1..] + b;
      ConcatOfAppend(a[1..], b);
    }
  }

  lemma {:induction false} ConcatAppend(parts: seq<string>, p: string)
    ensures Concat(parts + [p]) == Concat(parts) + p
  {
    if |parts| == 0 {
      assert [] + [p] == [p];
    } else {
      assert (parts + [p])[1..] == parts[1..] + [p];
      ConcatAppend(parts[1..], p);
    }
  }

  lemma {:induction false} JoinAppend(parts: seq<string>, p: string, sep: string)
    requires parts != []
    ensures Join(parts + [p], sep) == Join(parts, sep) + sep + p
  {
    if |parts| == 1 {
      assert (parts + [p])[1..] == [p];
    } else {
      assert (parts + [p])[1..] == parts[1..] + [p];
      JoinAppend(parts[1..], p, sep);
    }
  }

  /** Joining with whitespace adds no visible character. */
  lemma {:induction false} NonSpaceOfJoin(parts: seq<string>, sep: string)
    requires AllSpace(sep)
    ensures NonSpace(Join(parts, sep)) == NonSpace(Concat(parts))
  {
    if |parts| == 1 {
      assert parts[1..] == [];
      assert Concat(parts) == parts[0] + [];
      assert parts[0] + [] == parts[0];
    } else if |parts| > 1 {
      NonSpaceOfJoin(parts[1..], sep);
      assert Join(parts, sep) == (parts[0] + sep) + Join(parts[1..], sep);
      NonSpaceAppend(parts[0] + sep, Join(parts[1..], sep));
      NonSpaceAppend(parts[0], sep);
      NonSpaceOfSpaces(sep);
      NonSpaceAppend(parts[0], Concat(parts[1..]));
    }
  }

  /** Two strings of equal length that differ only where both hold whitespace have the same visible text. */
  lemma {:induction false} NonSpaceOfRespaced(a: string, b: string)
    requires |a| == |b|
    requires forall i :: 0 <= i < |a| ==> a[i] == b[i] || (IsSpace(a[i]) && IsSpace(b[i]))
    ensures NonSpace(a) == NonSpace(b)
  {
    if |a| > 0 {
      NonSpaceOfRespaced(a[1..], b[1..]);
    }
  }

  /** Python's text.split(sep) for a one-character separator: never empty. */
  function Split(s: string, sep: char): (parts: seq<string>)
    ensures |parts| > 0
  {
    if |s| == 0 then [[]]
    else if s[0] == sep then [[]] + Split(s[1..], sep)
    else
      var rest := Split(s[1..], sep);
      [[s[0]] + rest[0]] + rest[1..]
  }

  /** Splitting and joining again with the separator is the identity, and no part holds the separator. */
  lemma {:induction false} SplitJoin(s: string, sep: char)
    ensures Join(Split(s, sep), [sep]) == s
    ensures forall k, i :: 0 <= k < |Split(s, sep)| && 0 <= i < |Split(s, sep)[k]| ==> Split(s, sep)[k][i] != sep
  {
    if |s| > 0 {
      SplitJoin(s[1..], sep);
      var rest := Split(s[1..], sep);
      if s[0] == sep {
        assert Split(s, sep) == [[]] + rest;
        assert Join(Split(s, sep), [sep]) == [] + [sep] + Join(rest, [sep]);
      } else {
        var parts := Split(s, sep);
        assert parts[0] == [s[0]] + rest[0] && parts[1..] == rest[1..];
        if |rest| == 1 {
          assert Join(parts, [sep]) == [s[0]] + rest[0];
        } else {
          assert Join(rest, [sep]) == rest[0] + [sep] + Join(rest[1..], [sep]);
          assert Join(parts, [sep]) == parts[0] + [sep] + Join(rest[1..], [sep]);
        }
        forall k, i | 0 <= k < |parts| && 0 <= i < |parts[k]| ensures parts[k][i] != sep {
          if k == 0 && i > 0 { assert parts[0][i] == rest[0][i - 1]; }
          if k > 0 { assert parts[k] == rest[k]; }
        }
      }
    }
  }

  /** Every part of a join is at most as long as the join, and whitespace when the join is. */
  lemma {:induction false} JoinPartsWithin(parts: seq<string>, sep: string)
    ensures forall k :: 0 <= k < |parts| ==> |parts[k]| <= |Join(parts, sep)|
    ensures AllSpace(Join(parts, sep)) ==> forall k :: 0 <= k < |parts| ==> AllSpace(parts[k])
  {
    if |parts| > 1 {
      var j := Join(parts, sep);
      var tail := Join(parts[1..], sep);
      JoinPartsWithin(parts[1..], sep);
      assert j == parts[0] + sep + tail;
      assert forall k :: 1 <= k < |parts| ==> parts[k] == parts[1..][k - 1];
      if AllSpace(j) {
        assert forall i :: 0 <= i < |parts[0]| ==> parts[0][i] == j[i];
        assert forall i :: 0 <= i < |tail| ==> tail[i] == j[|parts[0] + sep| + i];
      }
    }
  }

  /** A string without the separator splits into itself alone. */
  lemma {:induction false} SplitWithoutSeparator(s: string, sep: char)
    requires forall i :: 0 <= i < |s| ==> s[i] != sep
    ensures Split(s, sep) == [s]
  {
    if |s| > 0 {
      SplitWithoutSeparator(s[1..], sep);
      assert [s[0]] + s[1..] == s;
    }
  }

  /** s with every a replaced by b (str.replace for one character). */
  function ReplaceChar(s: string, a: char, b: char): (r: string)
    ensures |r| == |s|
    ensures forall i :: 0 <= i < |s| ==> r[i] == if s[i] == a then b else s[i]
  {
    if |s| == 0 then [] else [if s[0] == a then b else s[0]] + ReplaceChar(s[1..], a, b)
  }

  /** Joining the parts of a split with another one-character separator replaces the separator. */
  lemma {:induction false} SplitJoinWith(s: string, sep: char, c: char)
    ensures Join(Split(s, sep), [c]) == ReplaceChar(s, sep, c)
  {
    if |s| > 0 {
      SplitJoinWith(s[1..], sep, c);
      var rest := Split(s[1..], sep);
      var parts := Split(s, sep);
      if s[0] == sep {
        assert parts == [[]] + rest;
        assert Join(parts, [c]) == [] + [c] + Join(rest, [c]);
      } else {
        assert parts[0] == [s[0]] + rest[0] && parts[1..] == rest[1..];
        if |rest| == 1 {
          assert Join(parts, [c]) == [s[0]] + rest[0];
        } else {
          assert Join(rest, [c]) == rest[0] + [c] + Join(rest[1..], [c]);
          assert Join(parts, [c]) == parts[0] + [c] + Join(rest[1..], [c]);
        }
      }
      assert ReplaceChar(s, sep, c) == [if s[0] == sep then c else s[0]] + ReplaceChar(s[1..], sep, c);
    }
  }

  /** A non-empty string whose last character is not whitespace. */
  predicate EndsVisible(s: string) { |s| > 0 && !IsSpace(s[|s| - 1]) }

  /** A non-empty string whose last character belongs to the class `ends`. */
  predicate EndsIn(s: string, ends: char -> bool) { |s| > 0 && ends(s[|s| - 1]) }

  /** Every separator after the first character follows a character of the class `ends`. */
  predicate SeparatorsFollow(s: string, sep: char, ends: char -> bool)
  {
    forall i :: 0 < i < |s| && s[i] == sep ==> ends(s[i - 1])
  }

  /**
   * When every separator follows a character of a class that excludes the
   * separator, every part of the split but the last ends in that class.
   */
  lemma {:induction false} SplitPartsEndIn(s: string, sep: char, ends: char -> bool)
    requires !ends(sep) && SeparatorsFollow(s, sep, ends)
    ensures forall k :: 1 <= k < |Split(s, sep)| - 1 ==> EndsIn(Split(s, sep)[k], ends)
    ensures |s| > 0 && s[0] != sep && |Split(s, sep)| > 1 ==> EndsIn(Split(s, sep)[0], ends)
  {
    if |s| > 0 {
      var tail := s[1..];
      var rest := Split(tail, sep);
      var parts := Split(s, sep);
      assert SeparatorsFollow(tail, sep, ends) by {
        forall i | 0 < i < |tail| && tail[i] == sep ensures ends(tail[i - 1]) {
          assert tail[i] == s[i + 1] && tail[i - 1] == s[i];
        }
      }
      SplitPartsEndIn(tail, sep, ends);
      if s[0] == sep {
        assert parts == [[]] + rest;
        if |tail| > 0 {
          assert tail[0] == s[1];
        }
        forall k | 1 <= k < |parts| - 1 ensures EndsIn(parts[k], ends) {
          assert parts[k] == rest[k - 1];
        }
      } else {
        assert parts[0] == [s[0]] + rest[0] && parts[1..] == rest[1..];
        forall k | 1 <= k < |parts| - 1 ensures EndsIn(parts[k], ends) {
          assert parts[k] == rest[k];
        }
        if |parts| > 1 {
          assert |tail| > 0;
          if tail[0] == sep {
            assert rest[0] == [];
            assert parts[0] == [s[0]];
          } else {
            assert EndsIn(rest[0], ends);
          }
        }
      }
    }
  }

  /** A join ends the way its last part ends. */
  lemma {:induction false} JoinEndsVisible(parts: seq<string>, sep: string)
    requires parts != [] && EndsVisible(parts[|parts| - 1])
    ensures EndsVisible(Join(parts, sep))
  {
    if |parts| > 1 {
      JoinEndsVisible(parts[1..], sep);
      var tail := Join(parts[1..], sep);
      assert (parts[0] + sep + tail)[|parts[0] + sep + tail| - 1] == tail[|tail| - 1];
    }
  }

  /** Leading whitespace is counted on top of the text's own. */
  lemma {:induction false} LeadingOfPadded(a: string, t: string)
    requires AllSpace(a)
    ensures LeadingSpaces(a + t) == |a| + LeadingSpaces(t)
  {
    if |a| > 0 {
      assert (a + t)[1..] == a[1..] + t;
      assert AllSpace(a[1..]) by {
        forall i | 0 <= i < |a[1..]| ensures IsSpace(a[1..][i]) { assert a[1..][i] == a[i + 1]; }
      }
      LeadingOfPadded(a[1..], t);
    } else {
      assert a + t == t;
    }
  }

  /** Leading whitespace does not change what strip returns. */
  lemma StripDropsLeading(a: string, t: string)
    requires AllSpace(a)
    ensures Strip(a + t) == Strip(t)
  {
    LeadingOfPadded(a, t);
    assert (a + t)[|a| + LeadingSpaces(t)..] == t[LeadingSpaces(t)..];
  }

  /** A string that ends visibly is its leading whitespace followed by its stripped form. */
  lemma StripOfVisibleEnd(s: string)
    requires EndsVisible(s)
    ensures AllSpace(s[..LeadingSpaces(s)])
    ensures s == s[..LeadingSpaces(s)] + Strip(s)
  {
    var lead := LeadingSpaces(s);
    var before, t := s[..lead], s[lead..];
    assert t[|t| - 1] == s[|s| - 1];
    assert TrailingSpaces(t) == 0;
    assert Strip(s) == t[..|t|] == t;
    assert AllSpace(before) by {
      forall i | 0 <= i < |before| ensures IsSpace(before[i]) { assert before[i] == s[i]; }
    }
    assert s == before + t;
  }

  /** A string that starts and ends visibly is its own stripped form. */
  lemma StripOfTrimmed(s: string)
    requires |s| > 0 && !IsSpace(s[0]) && !IsSpace(s[|s| - 1])
    ensures Strip(s) == s
  {
    assert LeadingSpaces(s) == 0;
    assert s[0..] == s;
    assert TrailingSpaces(s) == 0;
  }

  /** Stripping twice is stripping once. */
  lemma StripIdempotent(s: string)
    ensures Strip(Strip(s)) == Strip(s)
  {
    StripShape(s);
    if Strip(s) != [] {
      StripOfTrimmed(Strip(s));
    }
  }

  /** ASCII lower-casing of one character. */
  function LowerChar(c: char): char
  {
    if 'A' <= c <= 'Z' then (c as int + 32) as char else c
  }

  /**
   * language.lower() == "auto". No character outside ASCII lower-cases to
   * one of the letters a, u, t, o in Python, so comparing ASCII-folded
   * characters decides the same question.
   */
  predicate LowersToAuto(s: string)
  {
    |s| == 4 && LowerChar(s[0]) == 'a' && LowerChar(s[1]) == 'u' && LowerChar(s[2]) == 't' && LowerChar(s[3]) == 'o'
  }
}
