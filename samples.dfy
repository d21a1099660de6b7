/**
 * Mono sample buffers and the whole-buffer operations both speech
 * assemblers and the background mixer use: truncating sample counts,
 * peak measurement, gain, truncating or padding, and peak normalisation.
 * Samples are exact reals; floating-point rounding is not modelled.
 */
module Samples {
  import opened Wrappers

  /** A sample rate in Hz; every rate read from a file is positive. */
  type SampleRate = n: int | n > 0 witness 1

  /** One multichannel frame: a sample per channel, at least one channel. */
  type Frame = f: seq<real> | |f| > 0 witness [0.0]

  /** Audio as a file reader hands it over: 1-D when mono, frames x channels otherwise. */
  datatype Decoded = Mono(samples: seq<real>) | Frames(frames: seq<Frame>)

  function Abs(x: real): real { if x < 0.0 then -x else x }

  function Max(a: int, b: int): int { if a < b then b else a }

  /** Python's int() applied to a float: truncation toward zero. */
  function Trunc(x: real): (n: int)
    ensures Abs(n as real) <= Abs(x) < Abs(n as real) + 1.0
    ensures 0.0 <= x ==> 0 <= n
    ensures x <= 0.0 ==> n <= 0
  {
    if 0.0 <= x then x.Floor else -((-x).Floor)
  }

  /** A buffer of n zero samples (np.zeros). */
  function Zeros(n: nat): (z: seq<real>)
    ensures |z| == n && forall i :: 0 <= i < n ==> z[i] == 0.0
  {
    seq(n, _ => 0.0)
  }

  predicate AllZero(s: seq<real>) { forall i :: 0 <= i < |s| ==> s[i] == 0.0 }

  /** The largest absolute sample, max(|s|); 0 for an empty buffer. */
  function Peak(s: seq<real>): (p: real)
    ensures 0.0 <= p
    ensures forall i :: 0 <= i < |s| ==> Abs(s[i]) <= p
    ensures |s| > 0 ==> exists i :: 0 <= i < |s| && Abs(s[i]) == p
    ensures |s| == 0 ==> p == 0.0
  {
    if |s| == 0 then 0.0
    else
      var rest := Peak(s[1..]);
      if Abs(s[0]) < rest then rest else Abs(s[0])
  }

  /** A bound that every sample meets and one sample attains is the peak. */
  lemma PeakIsUnique(s: seq<real>, p: real, j: int)
    requires 0 <= j < |s| && Abs(s[j]) == p
    requires forall i :: 0 <= i < |s| ==> Abs(s[i]) <= p
    ensures Peak(s) == p
  {
  }

  lemma PeakZeroIsSilence(s: seq<real>)
    ensures Peak(s) == 0.0 <==> AllZero(s)
  {
    if Peak(s) == 0.0 {
      forall i | 0 <= i < |s| ensures s[i] == 0.0 { assert Abs(s[i]) <= 0.0; }
    } else if |s| > 0 {
      var j :| 0 <= j < |s| && Abs(s[j]) == Peak(s);
      assert s[j] != 0.0;
    }
  }

  /** Every sample multiplied by the same gain k (numpy's audio * k). */
  function Scale(s: seq<real>, k: real): (r: seq<real>)
    ensures |r| == |s| && forall i :: 0 <= i < |s| ==> r[i] == s[i] * k
  {
    seq(|s|, i requires 0 <= i < |s| => s[i] * k)
  }

  /** Element-wise sum of two buffers of equal length (numpy's a + b). */
  function Add(a: seq<real>, b: seq<real>): (r: seq<real>)
    requires |a| == |b|
    ensures |r| == |a| && forall i :: 0 <= i < |a| ==> r[i] == a[i] + b[i]
  {
    seq(|a|, i requires 0 <= i < |a| => a[i] + b[i])
  }

  /** r is s with every sample multiplied by one common factor k. */
  ghost predicate ScaledBy(r: seq<real>, s: seq<real>, k: real)
  {
    |r| == |s| && forall i :: 0 <= i < |s| ==> r[i] == k * s[i]
  }

  lemma AbsOfProduct(x: real, k: real)
    ensures Abs(x * k) == Abs(x) * Abs(k)
  {
  }

  lemma MulMonotone(a: real, b: real, k: real)
    requires a <= b && 0.0 <= k
    ensures a * k <= b * k
  {
  }

  /** p is the peak of s: every sample is within p and some sample reaches it. */
  predicate IsPeakOf(s: seq<real>, p: real)
  {
    (forall i :: 0 <= i < |s| ==> Abs(s[i]) <= p) && exists j :: 0 <= j < |s| && Abs(s[j]) == p
  }

  /** A gain k scales the peak p of a non-empty buffer by |k|. */
  lemma PeakOfScale(s: seq<real>, k: real, p: real)
    requires IsPeakOf(s, p)
    ensures Peak(Scale(s, k)) == p * Abs(k)
  {
    var j :| 0 <= j < |s| && Abs(s[j]) == p;
    ScaledPeak(s, k, p, j);
  }

  lemma ScaledPeak(s: seq<real>, k: real, p: real, j: int)
    requires 0 <= j < |s| && Abs(s[j]) == p
    requires forall i :: 0 <= i < |s| ==> Abs(s[i]) <= p
    ensures Peak(Scale(s, k)) == p * Abs(k)
  {
    ScaledBound(s, k, p);
    ScaledAt(s, k, j);
    PeakIsUnique(Scale(s, k), p * Abs(k), j);
  }

  lemma ScaledBound(s: seq<real>, k: real, p: real)
    requires forall i :: 0 <= i < |s| ==> Abs(s[i]) <= p
    ensures forall i :: 0 <= i < |s| ==> Abs(Scale(s, k)[i]) <= p * Abs(k)
  {
    forall i | 0 <= i < |s| ensures Abs(Scale(s, k)[i]) <= p * Abs(k) {
      ScaledSampleBound(s[i], p, k);
    }
  }

  lemma ScaledAt(s: seq<real>, k: real, j: int)
    requires 0 <= j < |s|
    ensures Abs(Scale(s, k)[j]) == Abs(s[j]) * Abs(k)
  {
    AbsOfProduct(s[j], k);
  }

  lemma ScaledSampleBound(x: real, p: real, k: real)
    requires Abs(x) <= p
    ensures Abs(x * k) <= p * Abs(k)
  {
    AbsOfProduct(x, k);
    MulMonotone(Abs(x), p, Abs(k));
  }

  /** The peak of a sum is at most the sum of the peaks. */
  lemma PeakOfAdd(a: seq<real>, b: seq<real>)
    requires |a| == |b|
    ensures Peak(Add(a, b)) <= Peak(a) + Peak(b)
  {
    var r := Add(a, b);
    if |r| > 0 {
      var j :| 0 <= j < |r| && Abs(r[j]) == Peak(r);
      assert Abs(a[j]) <= Peak(a) && Abs(b[j]) <= Peak(b);
    }
  }

  /**
   * Trim or zero-pad a to exactly n samples (_match_length; the same
   * trim/pad closes the time fitter).
   */
  function MatchLength(a: seq<real>, n: nat): (r: seq<real>)
    ensures |r| == n
    ensures forall i :: 0 <= i < n && i < |a| ==> r[i] == a[i]
    ensures forall i :: |a| <= i < n ==> r[i] == 0.0
    ensures |a| == n ==> r == a
  {
    if |a| >= n then a[..n] else a + Zeros(n - |a|)
  }

  /**
   * Peak-normalise a to target (_normalise). numpy's max of an empty
   * array raises; a silent buffer is returned as it is.
   */
  function Normalise(a: seq<real>, target: real): (r: Result<seq<real>>)
    ensures r.Err? <==> |a| == 0
    ensures r.Err? ==> r.error == EmptyReduction
    ensures r.Ok? && AllZero(a) ==> r.value == a
    ensures r.Ok? && !AllZero(a) ==> Peak(r.value) == Abs(target)
    ensures r.Ok? ==> |r.value| == |a| && exists k :: ScaledBy(r.value, a, k)
  {
    if |a| == 0 then Err(EmptyReduction)
    else
      var p := Peak(a);
      PeakZeroIsSilence(a);
      if p == 0.0 then
        assert ScaledBy(a, a, 1.0);
        Ok(a)
      else
        NormalisedPeak(a, target, p, target / p);
        Ok(Scale(a, target / p))
  }

  /** A gain k with k * p == target, where p is the positive peak, gives the peak |target|. */
  lemma NormalisedPeak(a: seq<real>, target: real, p: real, k: real)
    requires IsPeakOf(a, p) && p > 0.0 && k * p == target
    ensures Peak(Scale(a, k)) == Abs(target)
    ensures ScaledBy(Scale(a, k), a, k)
  {
    PeakOfScale(a, k, p);
    GainOfPeak(Peak(Scale(a, k)), p, k, target);
    ScaleIsScaledBy(a, k);
  }

  lemma GainOfPeak(x: real, p: real, k: real, t: real)
    requires x == p * Abs(k) && k * p == t && p > 0.0
    ensures x == Abs(t)
  {
    if k >= 0.0 { assert t >= 0.0; } else { assert t < 0.0; }
  }

  lemma ScaleIsScaledBy(a: seq<real>, k: real)
    ensures ScaledBy(Scale(a, k), a, k)
  {
  }

  lemma DividedByPeak(s: seq<real>, p: real)
    requires IsPeakOf(s, p) && p > 1.0
    ensures Peak(Scale(s, 1.0 / p)) == 1.0 && ScaledBy(Scale(s, 1.0 / p), s, 1.0 / p)
  {
    var k := 1.0 / p;
    assert k * p == 1.0;
    NormalisedPeak(s, 1.0, p, k);
  }

  /**
   * The clipping guard that ends both the assembler and the mixer:
   * a buffer whose peak exceeds 1.0 is divided by its peak, any other
   * buffer is left as it is.
   */
  function LimitPeak(s: seq<real>): (r: Result<seq<real>>)
    ensures r.Err? <==> |s| == 0
    ensures r.Err? ==> r.error == EmptyReduction
    ensures r.Ok? ==> |r.value| == |s| && Peak(r.value) <= 1.0
    ensures r.Ok? && Peak(s) <= 1.0 ==> r.value == s
    ensures r.Ok? && Peak(s) > 1.0 ==> Peak(r.value) == 1.0 && ScaledBy(r.value, s, 1.0 / Peak(s))
  {
    if |s| == 0 then Err(EmptyReduction)
    else
      var p := Peak(s);
      if p > 1.0 then
        DividedByPeak(s, p);
        Ok(Scale(s, 1.0 / p))
      else Ok(s)
  }

  function Sum(f: seq<real>): real
  {
    if |f| == 0 then 0.0 else f[0] + Sum(f[1..])
  }

  function Mean(f: Frame): real { Sum(f) / |f| as real }

  /** Multichannel audio folded to mono by the per-frame channel mean (_load_mono). */
  function Fold(d: Decoded): (r: seq<real>)
    ensures d.Mono? ==> r == d.samples
    ensures d.Frames? ==> |r| == |d.frames| && forall i :: 0 <= i < |r| ==> r[i] == Mean(d.frames[i])
  {
    match d
    case Mono(s) => s
    case Frames(fs) => seq(|fs|, i requires 0 <= i < |fs| => Mean(fs[i]))
  }

  /** A sound file as the reader returns it: the decoded data and its sample rate. */
  datatype AudioFile = AudioFile(data: Decoded, rate: SampleRate)

  /** A mono track at a sample rate. */
  datatype Track = Track(samples: seq<real>, rate: SampleRate)

  /**
   * _load_mono: the file's rate is kept; mono data comes back as read and
   * multichannel data as one sample per frame, the mean of its channels.
   */
  function LoadMono(f: AudioFile): (t: Track)
    ensures t.rate == f.rate
    ensures f.data.Mono? ==> t.samples == f.data.samples
    ensures f.data.Frames? ==> |t.samples| == |f.data.frames|
    ensures f.data.Frames? ==> forall i :: 0 <= i < |t.samples| ==> t.samples[i] == Mean(f.data.frames[i])
  {
    Track(Fold(f.data), f.rate)
  }

  lemma {:induction false} SumOfConstant(f: seq<real>, v: real)
    requires forall c :: 0 <= c < |f| ==> f[c] == v
    ensures Sum(f) == |f| as real * v
  {
    if |f| > 0 {
      SumOfConstant(f[1..], v);
    }
  }

  lemma {:induction false} SumBound(f: seq<real>, b: real)
    requires forall c :: 0 <= c < |f| ==> Abs(f[c]) <= b
    ensures Abs(Sum(f)) <= |f| as real * b
  {
    if |f| > 0 {
      var rest := f[1..];
      SumBound(rest, b);
      assert Abs(f[0]) <= b;
      StepBound(f[0], Sum(rest), b, |rest| as real * b);
      assert |f| as real * b == |rest| as real * b + b;
    }
  }

  lemma StepBound(x: real, y: real, b: real, m: real)
    requires Abs(x) <= b && Abs(y) <= m
    ensures Abs(x + y) <= m + b
  {
  }

  /** Averaging, not summing: a frame whose channels all carry v folds to v. */
  lemma FoldOfEqualChannels(fs: seq<Frame>, i: int, v: real)
    requires 0 <= i < |fs|
    requires forall c :: 0 <= c < |fs[i]| ==> fs[i][c] == v
    ensures Fold(Frames(fs))[i] == v
  {
    SumOfConstant(fs[i], v);
  }

  /** Folding never raises the level: a bound on every channel bounds the mono signal. */
  lemma FoldBounded(fs: seq<Frame>, b: real)
    requires forall i, c :: 0 <= i < |fs| && 0 <= c < |fs[i]| ==> Abs(fs[i][c]) <= b
    ensures forall i :: 0 <= i < |fs| ==> Abs(Fold(Frames(fs))[i]) <= b
  {
    forall i | 0 <= i < |fs| ensures Abs(Fold(Frames(fs))[i]) <= b {
      var f := fs[i];
      SumBound(f, b);
      MeanBound(Sum(f), |f| as real, b);
    }
  }

  lemma MeanBound(s: real, n: real, b: real)
    requires n > 0.0 && Abs(s) <= n * b
    ensures Abs(s / n) <= b
  {
    assert Abs(s / n) * n == Abs(s);
  }
}
