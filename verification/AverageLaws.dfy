/**
What averaging promises: exactness precisely up to the documented count bound, a result that is a
true rounded mean, and commutation with orientation and with channel-order conversion.
*/
module AverageLaws {
  import opened Grid
  import opened Rounding
  import opened Channels
  import opened Orientation
  import opened Accumulator

  // ---------------------------------------------------------------- when the sums are exact

  lemma {:induction false} ExactSumBound(frames: seq<Image<Pixel>>, n: nat, max: nat, w: nat, h: nat, x: nat, y: nat, c: nat, lo: nat, hi: nat)
    requires Frames(frames, n, max) && Shaped(frames, w, h) && x < w && y < h && c < n
    requires forall i | 0 <= i < |frames| :: lo <= frames[i].At(x, y)[c] <= hi
    ensures lo * |frames| <= ExactSum(frames, n, max, w, h, x, y, c) <= hi * |frames|
  {
    if frames != [] {
      var k := |frames| - 1;
      hide Frame;
      ExactSumBound(frames[..k], n, max, w, h, x, y, c, lo, hi);
      MulNext(lo, k);
      MulNext(hi, k);
    }
  }

  /** Every rounded channel sum fits the sum type. */
  ghost predicate SumsFit(frames: seq<Image<Pixel>>, n: nat, max: nat, w: nat, h: nat, modulus: nat)
    requires Frames(frames, n, max) && Shaped(frames, w, h)
  {
    forall x: nat, y: nat, c: nat | x < w && y < h && c < n ::
      ExactSum(frames, n, max, w, h, x, y, c) + |frames| / 2 < modulus
  }

  /** For fewer frames than the sum type can count, the average is the exact one if and only if no sum wraps. */
  lemma FramesExactIff(frames: seq<Image<Pixel>>, n: nat, max: nat, w: nat, h: nat, modulus: nat)
    requires Frames(frames, n, max) && Shaped(frames, w, h) && 0 < |frames| < modulus
    ensures |frames| % modulus == |frames|
    ensures WrappedMeanImage(frames, n, max, w, h, modulus) == MeanImage(frames, n, max, w, h)
            <==> SumsFit(frames, n, max, w, h, modulus)
  {
    hide ExactSum, WrappedMean;
    DivModUnique(|frames|, modulus, 0, |frames|);
    var a, b := WrappedMeanImage(frames, n, max, w, h, modulus), MeanImage(frames, n, max, w, h);
    forall x: nat, y: nat, c: nat | x < w && y < h && c < n
      ensures a.At(x, y)[c] == b.At(x, y)[c] <==> ExactSum(frames, n, max, w, h, x, y, c) + |frames| / 2 < modulus
    {
      ExactSumBound(frames, n, max, w, h, x, y, c, 0, max);
      assert max * |frames| == |frames| * max;
      MeanExactIff(ExactSum(frames, n, max, w, h, x, y, c), |frames|, modulus, max);
    }
    if SumsFit(frames, n, max, w, h, modulus) {
      forall x: nat, y: nat | a.Inside(x, y) ensures a.At(x, y) == b.At(x, y) {
        assert forall c: nat | c < n :: a.At(x, y)[c] == b.At(x, y)[c];
      }
      SameCells(a, b);
    }
  }

  /** Every channel of every pixel holds v. */
  function Uniform(n: nat, v: nat, w: nat, h: nat): (img: Image<Pixel>)
    ensures img.Valid() && img.width == w && img.height == h
    ensures forall x: nat, y: nat | x < w && y < h :: |img.At(x, y)| == n && forall c: nat | c < n :: img.At(x, y)[c] == v
  {
    Tabulate(w, h, (_, _) => seq(n, _ => v))
  }

  /** The first `ones` of k frames hold one everywhere, the others zero. */
  function Dim(k: nat, ones: nat, n: nat, w: nat, h: nat): seq<Image<Pixel>> {
    seq(k, i => if i < ones then Uniform(n, 1, w, h) else Uniform(n, 0, w, h))
  }

  lemma DimShape(k: nat, ones: nat, n: nat, max: nat, w: nat, h: nat)
    requires max > 0 && w > 0 && h > 0
    ensures Frames(Dim(k, ones, n, w, h), n, max) && Shaped(Dim(k, ones, n, w, h), w, h)
  {
    assert Frame(Uniform(n, 0, w, h), n, max) && Frame(Uniform(n, 1, w, h), n, max);
    hide Frame, Uniform;
    assert Uniform(n, 0, w, h).width == w && Uniform(n, 1, w, h).width == w;
    assert Uniform(n, 0, w, h).height == h && Uniform(n, 1, w, h).height == h;
  }

  lemma {:induction false} DimSum(k: nat, ones: nat, n: nat, max: nat, w: nat, h: nat)
    requires max > 0 && w > 0 && h > 0 && n > 0
    ensures Frames(Dim(k, ones, n, w, h), n, max) && Shaped(Dim(k, ones, n, w, h), w, h)
    ensures ExactSum(Dim(k, ones, n, w, h), n, max, w, h, 0, 0, 0) == if k <= ones then k else ones
    decreases k
  {
    DimShape(k, ones, n, max, w, h);
    if k > 0 {
      DimSum(k - 1, ones, n, max, w, h);
      var dim := Dim(k, ones, n, w, h);
      assert dim[..k - 1] == Dim(k - 1, ones, n, w, h);
      assert dim[k - 1] == if k <= ones then Uniform(n, 1, w, h) else Uniform(n, 0, w, h);
      hide Uniform, Dim;
    }
  }

  /** When the cast has shrunk the divisor, a few ones among zeros already average to one. */
  lemma ShrunkDivisor(k: nat, modulus: nat, max: nat)
    requires 0 < modulus <= k && k % modulus != 0 && max > 0
    ensures var d := k % modulus;
            d - d / 2 <= k && WrappedMean(d - d / 2, k, modulus, max) == 1 && Rounded(d - d / 2, k) == 0
  {
    var d := k % modulus;
    assert k == modulus * (k / modulus) + d;
    MulOrder(modulus, 0, k / modulus);
    var s := d - d / 2;
    DivModUnique(s, modulus, 0, s);
    DivModUnique(s + d / 2, modulus, 0, s + d / 2);
    DivModUnique(d, d, 1, 0);
    DivModUnique(1, max + 1, 0, 1);
    DivModUnique(s + k / 2, k, 0, s + k / 2);
  }

  /** Beyond the bound some frames have no average or a wrong one. */
  lemma BeyondBoundWrong(k: nat, n: nat, max: nat, w: nat, h: nat, modulus: nat) returns (frames: seq<Image<Pixel>>)
    requires k > 0 && modulus > 1 && n > 0 && max > 0 && w > 0 && h > 0 && k * max + k / 2 >= modulus
    ensures |frames| == k && Frames(frames, n, max) && Shaped(frames, w, h)
    ensures k % modulus != 0 ==> WrappedMeanImage(frames, n, max, w, h, modulus) != MeanImage(frames, n, max, w, h)
  {
    if k < modulus {
      frames := WhiteWraps(k, n, max, w, h, modulus);
    } else {
      frames := DimWrong(k, n, max, w, h, modulus);
    }
  }

  lemma WhiteWraps(k: nat, n: nat, max: nat, w: nat, h: nat, modulus: nat) returns (frames: seq<Image<Pixel>>)
    requires 0 < k < modulus && n > 0 && w > 0 && h > 0 && k * max + k / 2 >= modulus
    ensures |frames| == k && Frames(frames, n, max) && Shaped(frames, w, h) && k % modulus != 0
    ensures WrappedMeanImage(frames, n, max, w, h, modulus) != MeanImage(frames, n, max, w, h)
  {
    hide ExactSum, WrappedMean;
    assert Frame(Uniform(n, max, w, h), n, max);
    hide Uniform, Frame;
    frames := seq(k, _ => Uniform(n, max, w, h));
    ExactSumBound(frames, n, max, w, h, 0, 0, 0, max, max);
    assert ExactSum(frames, n, max, w, h, 0, 0, 0) == max * k == k * max;
    hide WrappedMeanImage, MeanImage;
    FramesExactIff(frames, n, max, w, h, modulus);
  }

  lemma DimWrong(k: nat, n: nat, max: nat, w: nat, h: nat, modulus: nat) returns (frames: seq<Image<Pixel>>)
    requires 1 < modulus <= k && n > 0 && max > 0 && w > 0 && h > 0
    ensures |frames| == k && Frames(frames, n, max) && Shaped(frames, w, h)
    ensures k % modulus != 0 ==> WrappedMeanImage(frames, n, max, w, h, modulus) != MeanImage(frames, n, max, w, h)
  {
    var d := k % modulus;
    frames := Dim(k, d - d / 2, n, w, h);
    DimSum(k, d - d / 2, n, max, w, h);
    if d != 0 {
      ShrunkDivisor(k, modulus, max);
      hide ExactSum, WrappedMean, Dim, Frames, Shaped;
      var a, b := WrappedMeanImage(frames, n, max, w, h, modulus), MeanImage(frames, n, max, w, h);
      assert a.At(0, 0)[0] == 1 && b.At(0, 0)[0] == 0;
    }
  }

  /** The frames have an average and it is the exact one. */
  ghost predicate AveragedExactly(frames: seq<Image<Pixel>>, n: nat, max: nat, w: nat, h: nat, modulus: nat)
    requires Frames(frames, n, max) && Shaped(frames, w, h) && frames != [] && modulus > 0
  {
    |frames| % modulus != 0 && WrappedMeanImage(frames, n, max, w, h, modulus) == MeanImage(frames, n, max, w, h)
  }

  /** The average of k frames is exact for all frames of a format exactly when k * max + k / 2 fits the sum type. */
  lemma AverageExactIff(k: nat, n: nat, max: nat, w: nat, h: nat, modulus: nat)
    requires k > 0 && modulus > 1 && n > 0 && max > 0 && w > 0 && h > 0
    ensures (forall frames | |frames| == k && Frames(frames, n, max) && Shaped(frames, w, h) ::
              AveragedExactly(frames, n, max, w, h, modulus))
            <==> k * max + k / 2 < modulus
  {
    hide WrappedMeanImage, MeanImage, Frames, Shaped;
    if k * max + k / 2 < modulus {
      MulOrder(k, 0, max);
      forall frames | |frames| == k && Frames(frames, n, max) && Shaped(frames, w, h)
        ensures AveragedExactly(frames, n, max, w, h, modulus)
      {
        BoundFits(frames, n, max, w, h, modulus);
        FramesExactIff(frames, n, max, w, h, modulus);
      }
    } else {
      var frames := BeyondBoundWrong(k, n, max, w, h, modulus);
    }
  }

  lemma BoundFits(frames: seq<Image<Pixel>>, n: nat, max: nat, w: nat, h: nat, modulus: nat)
    requires Frames(frames, n, max) && Shaped(frames, w, h) && |frames| * max + |frames| / 2 < modulus
    ensures SumsFit(frames, n, max, w, h, modulus)
  {
    hide ExactSum;
    forall x: nat, y: nat, c: nat | x < w && y < h && c < n
      ensures ExactSum(frames, n, max, w, h, x, y, c) + |frames| / 2 < modulus
    {
      ExactSumBound(frames, n, max, w, h, x, y, c, 0, max);
      assert max * |frames| == |frames| * max;
    }
  }

  /** The number of values of the sum type: 32 bits for channels of one or two bytes, 64 bits for wider ones. */
  function ModulusOf(channelBytes: nat): (m: nat)
    ensures m > 1
  {
    if channelBytes <= 2 then 0x1_0000_0000 else 0x1_0000_0000_0000_0000
  }

  /** The exact bound for each channel width; 64-bit channels have no headroom at all. */
  lemma FormatBounds(k: nat)
    ensures k * 0xFF + k / 2 < ModulusOf(1) <==> k <= 16810048
    ensures k * 0xFFFF + k / 2 < ModulusOf(2) <==> k <= 65536
    ensures k * 0xFFFF_FFFF + k / 2 < ModulusOf(4) <==> k <= 4294967296
    ensures k * 0xFFFF_FFFF_FFFF_FFFF + k / 2 < ModulusOf(8) <==> k <= 1
  {
  }

  // ---------------------------------------------------------------- the result is a mean

  /** Each channel lies between the least and the greatest of its samples and is nearest to their mean. */
  lemma MeanIsMean(frames: seq<Image<Pixel>>, n: nat, max: nat, w: nat, h: nat, x: nat, y: nat, c: nat, lo: nat, hi: nat)
    requires Frames(frames, n, max) && Shaped(frames, w, h) && frames != [] && x < w && y < h && c < n
    requires forall i | 0 <= i < |frames| :: lo <= frames[i].At(x, y)[c] <= hi
    ensures lo <= MeanImage(frames, n, max, w, h).At(x, y)[c] <= hi
    ensures var k := |frames|;
            -(k / 2) <= ExactSum(frames, n, max, w, h, x, y, c) - k * MeanImage(frames, n, max, w, h).At(x, y)[c] <= k / 2
  {
    ExactSumBound(frames, n, max, w, h, x, y, c, lo, hi);
    hide ExactSum;
    var s := ExactSum(frames, n, max, w, h, x, y, c);
    assert MeanImage(frames, n, max, w, h).At(x, y)[c] == Rounded(s, |frames|);
    hide MeanImage;
    RoundedBetween(s, |frames|, lo, hi);
    RoundedNearest(s, |frames|);
  }

  /** The frames have an average, and each of its channels is nearest to the mean of its samples. */
  ghost predicate AveragedNearest(frames: seq<Image<Pixel>>, n: nat, max: nat, w: nat, h: nat, modulus: nat)
    requires Frames(frames, n, max) && Shaped(frames, w, h) && modulus > 0
  {
    && |frames| % modulus != 0
    && forall x: nat, y: nat, c: nat | x < w && y < h && c < n ::
         Near(ExactSum(frames, n, max, w, h, x, y, c), |frames|, WrappedMeanImage(frames, n, max, w, h, modulus).At(x, y)[c])
  }

  /** For every k, the returned average of k frames is nearest to the mean for all frames exactly up to the same bound. */
  lemma AverageNearestIff(k: nat, n: nat, max: nat, w: nat, h: nat, modulus: nat)
    requires k > 0 && modulus > 1 && n > 0 && max > 0 && w > 0 && h > 0
    ensures (forall frames | |frames| == k && Frames(frames, n, max) && Shaped(frames, w, h) ::
              AveragedNearest(frames, n, max, w, h, modulus))
            <==> k * max + k / 2 < modulus
  {
    hide WrappedMeanImage, MeanImage, Frames, Shaped, ExactSum;
    AverageExactIff(k, n, max, w, h, modulus);
    if k * max + k / 2 < modulus {
      forall frames | |frames| == k && Frames(frames, n, max) && Shaped(frames, w, h)
        ensures AveragedNearest(frames, n, max, w, h, modulus)
      {
        assert AveragedExactly(frames, n, max, w, h, modulus);
        forall x: nat, y: nat, c: nat | x < w && y < h && c < n
          ensures Near(ExactSum(frames, n, max, w, h, x, y, c), |frames|, MeanImage(frames, n, max, w, h).At(x, y)[c])
        {
          SamplesBounded(frames, n, max, w, h, x, y, c);
          MeanIsMean(frames, n, max, w, h, x, y, c, 0, max);
        }
      }
    } else {
      var frames := FarFrames(k, n, max, w, h, modulus);
    }
  }

  lemma SamplesBounded(frames: seq<Image<Pixel>>, n: nat, max: nat, w: nat, h: nat, x: nat, y: nat, c: nat)
    requires Frames(frames, n, max) && Shaped(frames, w, h) && x < w && y < h && c < n
    ensures forall i | 0 <= i < |frames| :: 0 <= frames[i].At(x, y)[c] <= max
  {
  }

  lemma FarFrames(k: nat, n: nat, max: nat, w: nat, h: nat, modulus: nat) returns (frames: seq<Image<Pixel>>)
    requires k > 0 && modulus > 1 && n > 0 && max > 0 && w > 0 && h > 0 && k * max + k / 2 >= modulus
    ensures |frames| == k && Frames(frames, n, max) && Shaped(frames, w, h) && !AveragedNearest(frames, n, max, w, h, modulus)
  {
    if k < modulus {
      frames := WhiteFar(k, n, max, w, h, modulus);
    } else {
      var d := k % modulus;
      frames := Dim(k, d - d / 2, n, w, h);
      DimSum(k, d - d / 2, n, max, w, h);
      if d != 0 {
        ShrunkDivisor(k, modulus, max);
        ManyFar(k, d, modulus);
        hide ExactSum, WrappedMean, Dim, Frames, Shaped;
        assert WrappedMeanImage(frames, n, max, w, h, modulus).At(0, 0)[0] == 1;
      }
    }
  }

  lemma ManyFar(k: nat, d: nat, modulus: nat)
    requires 0 < modulus <= k && d == k % modulus
    ensures d - d / 2 <= k && !Near(d - d / 2, k, 1)
  {
    assert k == modulus * (k / modulus) + d;
    MulOrder(modulus, 0, k / modulus);
  }

  lemma WhiteFar(k: nat, n: nat, max: nat, w: nat, h: nat, modulus: nat) returns (frames: seq<Image<Pixel>>)
    requires 0 < k < modulus && n > 0 && w > 0 && h > 0 && k * max + k / 2 >= modulus
    ensures |frames| == k && Frames(frames, n, max) && Shaped(frames, w, h) && !AveragedNearest(frames, n, max, w, h, modulus)
  {
    hide ExactSum, WrappedMean;
    assert Frame(Uniform(n, max, w, h), n, max);
    hide Uniform, Frame;
    frames := seq(k, _ => Uniform(n, max, w, h));
    ExactSumBound(frames, n, max, w, h, 0, 0, 0, max, max);
    assert ExactSum(frames, n, max, w, h, 0, 0, 0) == max * k == k * max;
    MeanExactIff(k * max, k, modulus, max);
    RoundedBetween(k * max, k, max, max);
    FarOff(k, max, WrappedMean(k * max, k, modulus, max));
    hide Frames, Shaped, Near;
    assert WrappedMeanImage(frames, n, max, w, h, modulus).At(0, 0)[0] == WrappedMean(k * max, k, modulus, max);
  }

  /** For fewer frames than the sum type can count, copies of one image average to that image exactly when no sum wraps. */
  lemma AverageOfEqualIff(frames: seq<Image<Pixel>>, n: nat, max: nat, w: nat, h: nat, img: Image<Pixel>, modulus: nat)
    requires Frames(frames, n, max) && Shaped(frames, w, h) && 0 < |frames| < modulus
    requires forall i | 0 <= i < |frames| :: frames[i] == img
    ensures |frames| % modulus != 0
    ensures WrappedMeanImage(frames, n, max, w, h, modulus) == img <==> SumsFit(frames, n, max, w, h, modulus)
  {
    hide WrappedMeanImage, MeanImage, SumsFit, Frames, Shaped;
    MeanOfEqual(frames, n, max, w, h, img);
    FramesExactIff(frames, n, max, w, h, modulus);
  }

  /** Averaging copies of one image returns that image. */
  lemma MeanOfEqual(frames: seq<Image<Pixel>>, n: nat, max: nat, w: nat, h: nat, img: Image<Pixel>)
    requires Frames(frames, n, max) && Shaped(frames, w, h) && frames != []
    requires forall i | 0 <= i < |frames| :: frames[i] == img
    ensures MeanImage(frames, n, max, w, h) == img
  {
    var mean := MeanImage(frames, n, max, w, h);
    assert frames[0] == img;
    forall x: nat, y: nat | img.Inside(x, y) ensures mean.At(x, y) == img.At(x, y) {
      forall c: nat | c < n ensures mean.At(x, y)[c] == img.At(x, y)[c] {
        MeanIsMean(frames, n, max, w, h, x, y, c, img.At(x, y)[c], img.At(x, y)[c]);
      }
    }
    SameCells(mean, img);
  }

  // ---------------------------------------------------------------- order of the frames

  function Without<T>(s: seq<T>, i: nat): seq<T>
    requires i < |s|
  {
    s[..i] + s[i + 1..]
  }

  lemma MultisetWithout<T>(s: seq<T>, i: nat)
    requires i < |s|
    ensures multiset(Without(s, i)) == multiset(s) - multiset{s[i]}
  {
    assert s == s[..i] + [s[i]] + s[i + 1..];
  }

  lemma WithoutShape(frames: seq<Image<Pixel>>, n: nat, max: nat, w: nat, h: nat, i: nat)
    requires Frames(frames, n, max) && Shaped(frames, w, h) && i < |frames|
    ensures |Without(frames, i)| == |frames| - 1
    ensures Frames(Without(frames, i), n, max) && Shaped(Without(frames, i), w, h)
  {
    hide Frame;
  }

  lemma {:induction false} ExactSumWithout(frames: seq<Image<Pixel>>, n: nat, max: nat, w: nat, h: nat, x: nat, y: nat, c: nat, i: nat)
    requires Frames(frames, n, max) && Shaped(frames, w, h) && x < w && y < h && c < n && i < |frames|
    ensures ExactSum(frames, n, max, w, h, x, y, c)
            == ExactSum(Without(frames, i), n, max, w, h, x, y, c) + frames[i].At(x, y)[c]
  {
    hide Frame;
    WithoutShape(frames, n, max, w, h, i);
    var k := |frames| - 1;
    if i == k {
      assert Without(frames, i) == frames[..k];
    } else {
      ExactSumWithout(frames[..k], n, max, w, h, x, y, c, i);
      var rest := Without(frames, i);
      assert rest[..|rest| - 1] == Without(frames[..k], i);
      assert rest[|rest| - 1] == frames[k];
    }
  }

  lemma {:induction false} ExactSumPermuted(a: seq<Image<Pixel>>, b: seq<Image<Pixel>>, n: nat, max: nat, w: nat, h: nat, x: nat, y: nat, c: nat)
    requires Frames(a, n, max) && Shaped(a, w, h) && Frames(b, n, max) && Shaped(b, w, h)
    requires x < w && y < h && c < n && multiset(a) == multiset(b)
    ensures |a| == |b| && ExactSum(a, n, max, w, h, x, y, c) == ExactSum(b, n, max, w, h, x, y, c)
    decreases |a|
  {
    assert |multiset(a)| == |a| && |multiset(b)| == |b|;
    if a == [] {
      assert a == b;
    } else {
      hide Frames, Shaped, ExactSum, Without;
      assert a[0] in multiset(b);
      var j :| 0 <= j < |b| && b[j] == a[0];
      MultisetWithout(a, 0);
      MultisetWithout(b, j);
      WithoutShape(a, n, max, w, h, 0);
      WithoutShape(b, n, max, w, h, j);
      ExactSumPermuted(Without(a, 0), Without(b, j), n, max, w, h, x, y, c);
      ExactSumWithout(a, n, max, w, h, x, y, c, 0);
      ExactSumWithout(b, n, max, w, h, x, y, c, j);
    }
  }

  /** The average the code returns does not depend on the order of the frames, at any count; nor does the exact one. */
  lemma AveragePermuted(a: seq<Image<Pixel>>, b: seq<Image<Pixel>>, n: nat, max: nat, w: nat, h: nat, modulus: nat)
    requires Frames(a, n, max) && Shaped(a, w, h) && Frames(b, n, max) && Shaped(b, w, h)
    requires a != [] && multiset(a) == multiset(b) && modulus > 0
    ensures |a| == |b| && MeanImage(a, n, max, w, h) == MeanImage(b, n, max, w, h)
    ensures |a| % modulus != 0 ==> WrappedMeanImage(a, n, max, w, h, modulus) == WrappedMeanImage(b, n, max, w, h, modulus)
  {
    assert |multiset(a)| == |a| && |multiset(b)| == |b|;
    hide ExactSum, Frames, Shaped, WrappedMean, Rounded;
    forall x: nat, y: nat, c: nat | x < w && y < h && c < n
      ensures ExactSum(a, n, max, w, h, x, y, c) == ExactSum(b, n, max, w, h, x, y, c)
    {
      ExactSumPermuted(a, b, n, max, w, h, x, y, c);
    }
    var p, q := MeanImage(a, n, max, w, h), MeanImage(b, n, max, w, h);
    forall x: nat, y: nat | p.Inside(x, y) ensures p.At(x, y) == q.At(x, y) {
      assert forall c: nat | c < n :: p.At(x, y)[c] == q.At(x, y)[c];
    }
    SameCells(p, q);
    if |a| % modulus != 0 {
      var v, u := WrappedMeanImage(a, n, max, w, h, modulus), WrappedMeanImage(b, n, max, w, h, modulus);
      forall x: nat, y: nat | v.Inside(x, y) ensures v.At(x, y) == u.At(x, y) {
        assert forall c: nat | c < n :: v.At(x, y)[c] == u.At(x, y)[c];
      }
      SameCells(v, u);
    }
  }

  // ---------------------------------------------------------------- commutation

  ghost function MovedFrames(frames: seq<Image<Pixel>>, s: Symmetry): seq<Image<Pixel>>
    requires forall i | 0 <= i < |frames| :: frames[i].Valid()
  {
    seq(|frames|, i requires 0 <= i < |frames| => Moved(frames[i], s))
  }

  lemma MovedFrame(img: Image<Pixel>, n: nat, max: nat, s: Symmetry)
    requires Frame(img, n, max)
    ensures Frame(Moved(img, s), n, max)
  {
    var r := Moved(img, s);
    forall x: nat, y: nat | r.Inside(x, y)
      ensures |r.At(x, y)| == n && forall c: nat | c < n :: r.At(x, y)[c] <= max
    {
      hide Symmetry.Origin, Moved;
      MovedCell(img, s, x, y);
    }
  }

  lemma MovedFramesShape(frames: seq<Image<Pixel>>, n: nat, max: nat, w: nat, h: nat, s: Symmetry)
    requires Frames(frames, n, max) && Shaped(frames, w, h)
    ensures Frames(MovedFrames(frames, s), n, max)
    ensures Shaped(MovedFrames(frames, s), s.Width(w, h), s.Height(w, h))
  {
    hide Moved;
    forall i | 0 <= i < |frames| ensures Frame(Moved(frames[i], s), n, max) {
      MovedFrame(frames[i], n, max, s);
    }
  }

  lemma {:induction false} ExactSumMoved(frames: seq<Image<Pixel>>, n: nat, max: nat, w: nat, h: nat, s: Symmetry,
                                         x: nat, y: nat, sx: nat, sy: nat, c: nat)
    requires Frames(frames, n, max) && Shaped(frames, w, h) && c < n && sx < w && sy < h
    requires x < s.Width(w, h) && y < s.Height(w, h) && s.Origin(w, h, x, y) == (sx, sy)
    ensures Frames(MovedFrames(frames, s), n, max) && Shaped(MovedFrames(frames, s), s.Width(w, h), s.Height(w, h))
    ensures ExactSum(MovedFrames(frames, s), n, max, s.Width(w, h), s.Height(w, h), x, y, c)
            == ExactSum(frames, n, max, w, h, sx, sy, c)
  {
    hide Moved, Symmetry.Origin;
    MovedFramesShape(frames, n, max, w, h, s);
    if frames != [] {
      var k := |frames| - 1;
      ExactSumMoved(frames[..k], n, max, w, h, s, x, y, sx, sy, c);
      assert MovedFrames(frames, s)[..k] == MovedFrames(frames[..k], s);
      MovedCell(frames[k], s, x, y);
    }
  }

  /** Orienting every frame and averaging is averaging and orienting, wherever the average is defined. */
  lemma AverageMoved(frames: seq<Image<Pixel>>, n: nat, max: nat, w: nat, h: nat, modulus: nat, s: Symmetry)
    requires Frames(frames, n, max) && Shaped(frames, w, h) && modulus > 0 && |frames| % modulus != 0
    ensures Frames(MovedFrames(frames, s), n, max) && Shaped(MovedFrames(frames, s), s.Width(w, h), s.Height(w, h))
    ensures WrappedMeanImage(MovedFrames(frames, s), n, max, s.Width(w, h), s.Height(w, h), modulus)
            == Moved(WrappedMeanImage(frames, n, max, w, h, modulus), s)
  {
    MovedFramesShape(frames, n, max, w, h, s);
    var mean := WrappedMeanImage(frames, n, max, w, h, modulus);
    var a, b := WrappedMeanImage(MovedFrames(frames, s), n, max, s.Width(w, h), s.Height(w, h), modulus), Moved(mean, s);
    forall x: nat, y: nat | a.Inside(x, y) ensures a.At(x, y) == b.At(x, y) {
      hide ExactSum, WrappedMean, Moved, Symmetry.Origin, Frames, Shaped;
      MovedCell(mean, s, x, y);
      var (sx, sy) := s.Origin(w, h, x, y);
      forall c: nat | c < n ensures a.At(x, y)[c] == b.At(x, y)[c] {
        ExactSumMoved(frames, n, max, w, h, s, x, y, sx, sy, c);
      }
    }
    SameCells(a, b);
  }

  ghost function SwappedFrames(frames: seq<Image<Pixel>>, n: nat, max: nat): seq<Image<Pixel>>
    requires Frames(frames, n, max) && n >= 3
  {
    seq(|frames|, i requires 0 <= i < |frames| => SwappedImage(frames[i], n))
  }

  lemma SwappedFrame(img: Image<Pixel>, n: nat, max: nat)
    requires Frame(img, n, max) && n >= 3
    ensures Frame(SwappedImage(img, n), n, max)
  {
    var r := SwappedImage(img, n);
    forall x: nat, y: nat | r.Inside(x, y) ensures forall c: nat | c < n :: r.At(x, y)[c] <= max {
      assert r.At(x, y) == Swapped(img.At(x, y));
      assert img.At(x, y)[0] <= max && img.At(x, y)[2] <= max;
    }
  }

  /** The channel that conversion moves to position c. */
  function SwappedChannel(c: nat): nat { if c == 0 then 2 else if c == 2 then 0 else c }

  lemma SwappedFramesShape(frames: seq<Image<Pixel>>, n: nat, max: nat, w: nat, h: nat)
    requires Frames(frames, n, max) && Shaped(frames, w, h) && n >= 3
    ensures Frames(SwappedFrames(frames, n, max), n, max) && Shaped(SwappedFrames(frames, n, max), w, h)
  {
    hide SwappedImage;
    forall i | 0 <= i < |frames| ensures Frame(SwappedImage(frames[i], n), n, max) {
      SwappedFrame(frames[i], n, max);
    }
  }

  lemma SwappedAt(img: Image<Pixel>, n: nat, x: nat, y: nat, c: nat)
    requires HasChannels(img, n) && n >= 3 && img.Inside(x, y) && c < n
    ensures SwappedImage(img, n).At(x, y)[c] == img.At(x, y)[SwappedChannel(c)]
  {
  }

  lemma {:induction false} ExactSumSwapped(frames: seq<Image<Pixel>>, n: nat, max: nat, w: nat, h: nat, x: nat, y: nat, c: nat)
    requires Frames(frames, n, max) && Shaped(frames, w, h) && n >= 3 && x < w && y < h && c < n
    ensures Frames(SwappedFrames(frames, n, max), n, max) && Shaped(SwappedFrames(frames, n, max), w, h)
    ensures ExactSum(SwappedFrames(frames, n, max), n, max, w, h, x, y, c)
            == ExactSum(frames, n, max, w, h, x, y, SwappedChannel(c))
  {
    SwappedFramesShape(frames, n, max, w, h);
    if frames != [] {
      var k := |frames| - 1;
      assert HasChannels(frames[k], n);
      hide SwappedImage, Frame;
      ExactSumSwapped(frames[..k], n, max, w, h, x, y, c);
      assert SwappedFrames(frames, n, max)[..k] == SwappedFrames(frames[..k], n, max);
      SwappedAt(frames[k], n, x, y, c);
    }
  }

  /** Converting every frame and averaging is averaging and converting. */
  lemma AverageSwapped(frames: seq<Image<Pixel>>, n: nat, max: nat, w: nat, h: nat, modulus: nat)
    requires Frames(frames, n, max) && Shaped(frames, w, h) && n >= 3 && modulus > 0 && |frames| % modulus != 0
    ensures Frames(SwappedFrames(frames, n, max), n, max) && Shaped(SwappedFrames(frames, n, max), w, h)
    ensures WrappedMeanImage(SwappedFrames(frames, n, max), n, max, w, h, modulus)
            == SwappedImage(WrappedMeanImage(frames, n, max, w, h, modulus), n)
  {
    SwappedFramesShape(frames, n, max, w, h);
    var mean := WrappedMeanImage(frames, n, max, w, h, modulus);
    var a, b := WrappedMeanImage(SwappedFrames(frames, n, max), n, max, w, h, modulus), SwappedImage(mean, n);
    forall x: nat, y: nat | a.Inside(x, y) ensures a.At(x, y) == b.At(x, y) {
      hide ExactSum, WrappedMean, Frames, Shaped;
      forall c: nat | c < n ensures a.At(x, y)[c] == b.At(x, y)[c] {
        ExactSumSwapped(frames, n, max, w, h, x, y, c);
        assert b.At(x, y)[c] == mean.At(x, y)[SwappedChannel(c)];
      }
    }
    SameCells(a, b);
  }

  // ---------------------------------------------------------------- the convenience function

  /** Adds each image and averages. An empty list reaches the empty accumulator, which is a logic error. */
  method AverageImages(sources: seq<Image<Pixel>>, channels: nat, channelMax: nat, channelBytes: nat)
    returns (r: Result<Image<Pixel>>)
    requires Frames(sources, channels, channelMax) && channels > 0
    ensures sources == [] ==> r == Err(LogicError)
    ensures sources != [] && !Shaped(sources, sources[0].width, sources[0].height) ==> r == Err(InvalidArgument)
    ensures sources != [] && Shaped(sources, sources[0].width, sources[0].height) && |sources| % ModulusOf(channelBytes) == 0 ==>
              r == Err(DivisionByZero)
    ensures sources != [] && Shaped(sources, sources[0].width, sources[0].height) && |sources| % ModulusOf(channelBytes) != 0 ==>
              r == Ok(WrappedMeanImage(sources, channels, channelMax, sources[0].width, sources[0].height, ModulusOf(channelBytes)))
  {
    var modulus := ModulusOf(channelBytes);
    hide WrappedMeanImage, Frame, ImageAccumulator.Valid;
    var accumulator := new ImageAccumulator(channels, channelMax, modulus);
    for i := 0 to |sources|
      invariant accumulator.Valid() && accumulator.frames == sources[..i] && accumulator.count == i
      invariant accumulator.channels == channels && accumulator.channelMax == channelMax && accumulator.modulus == modulus
      invariant i > 0 ==> Shaped(sources[..i], sources[0].width, sources[0].height)
      invariant i > 0 ==> accumulator.width == sources[0].width && accumulator.height == sources[0].height
    {
      var added := accumulator.Add(sources[i]);
      if added.Err? {
        return Err(added.error);
      }
      assert sources[..i] + [sources[i]] == sources[..i + 1];
    }
    assert sources[..|sources|] == sources;
    r := accumulator.Average();
  }
}
