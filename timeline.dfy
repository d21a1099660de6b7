/**
 * The growable timeline buffer both speech assemblers write into:
 * a clip is placed at a sample offset, the buffer is first extended with
 * zeros when the clip runs past its end, and the clip is added to what is
 * already there, so overlapping clips sum.
 */
module Timeline {
  import opened Samples

  /** Sample i of buf, reading zero past its end (the zeros a growth appends). */
  function At(buf: seq<real>, i: int): real
  {
    if 0 <= i < |buf| then buf[i] else 0.0
  }

  /** buf with clip added into [start, start + |clip|), a window buf already covers. */
  function AddInto(buf: seq<real>, start: nat, clip: seq<real>): (r: seq<real>)
    requires start + |clip| <= |buf|
    ensures |r| == |buf|
  {
    seq(|buf|, i requires 0 <= i < |buf| =>
      if start <= i < start + |clip| then buf[i] + clip[i - start] else buf[i])
  }

  /** Placing a clip: grow to the clip's end when it overruns, then add it in. */
  function Place(buf: seq<real>, start: nat, clip: seq<real>): (r: seq<real>)
    ensures |r| == Max(|buf|, start + |clip|)
    ensures forall i :: start <= i < start + |clip| ==> r[i] == At(buf, i) + clip[i - start]
    ensures forall i :: 0 <= i < |r| && !(start <= i < start + |clip|) ==> r[i] == At(buf, i)
  {
    var end := start + |clip|;
    var grown := if end > |buf| then buf + Zeros(end - |buf|) else buf;
    assert forall i :: 0 <= i < |grown| ==> grown[i] == At(buf, i);
    AddInto(grown, start, clip)
  }

  /** The contribution of clip, placed at start, to sample i. */
  function Covered(start: nat, clip: seq<real>, i: int): real
  {
    if start <= i < start + |clip| then clip[i - start] else 0.0
  }

  /** Read through the zero extension, a placement adds exactly the clip's own samples. */
  lemma PlaceAt(buf: seq<real>, start: nat, clip: seq<real>, i: int)
    requires 0 <= i
    ensures At(Place(buf, start, clip), i) == At(buf, i) + Covered(start, clip, i)
  {
  }

  /** A fresh buffer holding the samples s (np.asarray). */
  method FromSamples(s: seq<real>) returns (b: array<real>)
    ensures fresh(b) && b[..] == s
  {
    b := new real[|s|](i requires 0 <= i < |s| => s[i]);
    assert b[..] == s;
  }

  /** A fresh buffer of n samples: a's samples followed by zeros (np.pad / np.concatenate). */
  method Grow(a: array<real>, n: nat) returns (b: array<real>)
    requires a.Length <= n
    ensures fresh(b) && b[..] == a[..] + Zeros(n - a.Length)
  {
    b := new real[n];
    forall i | 0 <= i < n {
      b[i] := if i < a.Length then a[i] else 0.0;
    }
    assert b[..] == a[..] + Zeros(n - a.Length) by {
      forall i | 0 <= i < n ensures b[..][i] == (a[..] + Zeros(n - a.Length))[i] {
        if i < a.Length { assert b[i] == a[i]; } else { assert b[i] == 0.0; }
      }
    }
  }

  /** buffer[start:start + len(clip)] += clip, in place. */
  method AccumulateAt(a: array<real>, start: nat, clip: seq<real>)
    requires start + |clip| <= a.Length
    modifies a
    ensures a[..] == AddInto(old(a[..]), start, clip)
  {
    for k := 0 to |clip|
      invariant forall i :: 0 <= i < a.Length && start <= i < start + k ==> a[i] == old(a[i]) + clip[i - start]
      invariant forall i :: 0 <= i < a.Length && !(start <= i < start + k) ==> a[i] == old(a[i])
    {
      a[start + k] := a[start + k] + clip[k];
    }
    assert a[..] == AddInto(old(a[..]), start, clip) by {
      forall i | 0 <= i < a.Length ensures a[..][i] == AddInto(old(a[..]), start, clip)[i] {
      }
    }
  }

  /**
   * Grow the buffer with zeros when the clip overruns it, then add the
   * clip in; the result is the same array or a fresh one.
   */
  method PlaceClip(a: array<real>, start: nat, clip: seq<real>) returns (b: array<real>)
    modifies a
    ensures b == a || fresh(b)
    ensures b[..] == Place(old(a[..]), start, clip)
  {
    var end := start + |clip|;
    b := a;
    if end > a.Length {
      b := Grow(a, end);
    }
    AccumulateAt(b, start, clip);
  }

  /** buffer /= d, in place. */
  method DivideBy(a: array<real>, d: real)
    requires d != 0.0
    modifies a
    ensures a[..] == Scale(old(a[..]), 1.0 / d)
  {
    for k := 0 to a.Length
      invariant forall i :: 0 <= i < k ==> a[i] == old(a[i]) * (1.0 / d)
      invariant forall i :: k <= i < a.Length ==> a[i] == old(a[i])
    {
      DivisionIsScaling(a[k], d);
      a[k] := a[k] / d;
    }
    assert a[..] == Scale(old(a[..]), 1.0 / d) by {
      forall i | 0 <= i < a.Length ensures a[..][i] == Scale(old(a[..]), 1.0 / d)[i] {
      }
    }
  }

  lemma DivisionIsScaling(x: real, d: real)
    requires d != 0.0
    ensures x / d == x * (1.0 / d)
  {
  }
}
