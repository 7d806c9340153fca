/**
Average composition (api/wse/data/wse_ImageTransform.h, `ImageAccumulator` and `averageImages`).

The accumulator keeps one wrapping sum per channel sample, in an unsigned integer of a given
modulus: 2^32 for 8-bit and 16-bit channels, 2^64 for wider ones.
*/
module Accumulator {
  import opened Grid
  import opened Rounding
  import opened Channels

  /** An image of a pixel format: n channels per pixel, each at most `max`. */
  ghost predicate Frame(img: Image<Pixel>, n: nat, max: nat) {
    HasChannels(img, n) &&
    forall x: nat, y: nat, c: nat | img.Inside(x, y) && c < n :: img.At(x, y)[c] <= max
  }

  ghost predicate Frames(frames: seq<Image<Pixel>>, n: nat, max: nat) {
    forall i | 0 <= i < |frames| :: Frame(frames[i], n, max)
  }

  /** Every frame has the shape w by h, and the shape is not empty. */
  predicate Shaped(frames: seq<Image<Pixel>>, w: nat, h: nat) {
    w > 0 && h > 0 && forall i | 0 <= i < |frames| :: frames[i].width == w && frames[i].height == h
  }

  // ---------------------------------------------------------------- what an average is

  /** The exact sum over the frames of channel c at (x, y). */
  ghost function ExactSum(frames: seq<Image<Pixel>>, n: nat, max: nat, w: nat, h: nat, x: nat, y: nat, c: nat): nat
    requires Frames(frames, n, max) && Shaped(frames, w, h) && x < w && y < h && c < n
  {
    if frames == [] then 0
    else ExactSum(frames[..|frames| - 1], n, max, w, h, x, y, c) + frames[|frames| - 1].At(x, y)[c]
  }

  /** The exact average, rounded to nearest. */
  ghost function MeanImage(frames: seq<Image<Pixel>>, n: nat, max: nat, w: nat, h: nat): (img: Image<Pixel>)
    requires Frames(frames, n, max) && Shaped(frames, w, h) && frames != []
    ensures HasChannels(img, n) && img.width == w && img.height == h
  {
    Tabulate(w, h, (x: nat, y: nat) requires x < w && y < h =>
      seq(n, c requires 0 <= c < n => Rounded(ExactSum(frames, n, max, w, h, x, y, c), |frames|)))
  }

  /** The average that sums of the given modulus yield; the frame count is cast to the sum type as well. */
  ghost function WrappedMeanImage(frames: seq<Image<Pixel>>, n: nat, max: nat, w: nat, h: nat, modulus: nat): (img: Image<Pixel>)
    requires Frames(frames, n, max) && Shaped(frames, w, h) && modulus > 0 && |frames| % modulus != 0
    ensures HasChannels(img, n) && img.width == w && img.height == h
  {
    Tabulate(w, h, (x: nat, y: nat) requires x < w && y < h =>
      seq(n, c requires 0 <= c < n => WrappedMean(ExactSum(frames, n, max, w, h, x, y, c), |frames|, modulus, max)))
  }

  // ---------------------------------------------------------------- flat sums

  /** Channel samples in storage order: pixel after pixel, channel after channel. */
  ghost function Samples(img: Image<Pixel>): seq<nat> {
    Flat(Flat(img.rows))
  }

  /** The number of channel samples of a shape. */
  function Slots(w: nat, h: nat, n: nat): nat { w * h * n }

  function Slot(w: nat, n: nat, x: nat, y: nat, c: nat): nat {
    (y * w + x) * n + c
  }

  lemma SampleSlot(img: Image<Pixel>, n: nat, x: nat, y: nat, c: nat)
    requires HasChannels(img, n) && img.Inside(x, y) && c < n
    ensures |Samples(img)| == Slots(img.width, img.height, n)
    ensures Slot(img.width, n, x, y, c) < |Samples(img)|
    ensures Samples(img)[Slot(img.width, n, x, y, c)] == img.At(x, y)[c]
  {
    FlatIndex(img.rows, img.width, x, y);
    PixelsHaveChannels(img, n);
    FlatIndex(Flat(img.rows), n, c, y * img.width + x);
  }

  lemma PixelsHaveChannels(img: Image<Pixel>, n: nat)
    requires HasChannels(img, n)
    ensures |Flat(img.rows)| == img.width * img.height
    ensures forall i | 0 <= i < |Flat(img.rows)| :: |Flat(img.rows)[i]| == n
  {
    FlatLength(img.rows, img.width);
    forall i | 0 <= i < |Flat(img.rows)| ensures |Flat(img.rows)[i]| == n {
      hide Flat;
      IndexCell(i, img.width, img.height);
      FlatIndex(img.rows, img.width, i % img.width, i / img.width);
      assert |img.At(i % img.width, i / img.width)| == n;
    }
  }

  lemma SampleCount(img: Image<Pixel>, n: nat)
    requires HasChannels(img, n)
    ensures |Samples(img)| == Slots(img.width, img.height, n)
  {
    PixelsHaveChannels(img, n);
    FlatLength(Flat(img.rows), n);
  }

  ghost function FlatSum(frames: seq<Image<Pixel>>, i: nat): nat
    requires forall k | 0 <= k < |frames| :: i < |Samples(frames[k])|
  {
    if frames == [] then 0 else FlatSum(frames[..|frames| - 1], i) + Samples(frames[|frames| - 1])[i]
  }

  /** The flat sum at a slot is the sum over the frames of that channel sample. */
  lemma {:induction false} FlatSumIsExact(frames: seq<Image<Pixel>>, n: nat, max: nat, w: nat, h: nat, x: nat, y: nat, c: nat)
    requires Frames(frames, n, max) && Shaped(frames, w, h) && x < w && y < h && c < n
    ensures forall k | 0 <= k < |frames| :: Slot(w, n, x, y, c) < |Samples(frames[k])|
    ensures FlatSum(frames, Slot(w, n, x, y, c)) == ExactSum(frames, n, max, w, h, x, y, c)
  {
    hide Samples, Slot;
    forall k | 0 <= k < |frames| ensures Slot(w, n, x, y, c) < |Samples(frames[k])| {
      SampleSlot(frames[k], n, x, y, c);
    }
    if frames != [] {
      FlatSumIsExact(frames[..|frames| - 1], n, max, w, h, x, y, c);
      SampleSlot(frames[|frames| - 1], n, x, y, c);
    }
  }

  /** The sums of the samples of the frames, slot by slot, folded by the modulus. */
  ghost predicate SumsOf(frames: seq<Image<Pixel>>, sum: seq<nat>, n: nat, max: nat, modulus: nat)
    requires modulus > 1
  {
    && Frames(frames, n, max)
    && (forall k | 0 <= k < |frames| :: |Samples(frames[k])| == |sum|)
    && (forall i | 0 <= i < |sum| :: sum[i] == FlatSum(frames, i) % modulus)
  }

  lemma NoFrames(size: nat, n: nat, max: nat, modulus: nat)
    requires modulus > 1
    ensures SumsOf([], seq(size, _ => 0), n, max, modulus)
  {
  }

  // ---------------------------------------------------------------- the accumulator

  class ImageAccumulator {
    const channels: nat
    const channelMax: nat
    const modulus: nat
    var sum: seq<nat>
    var count: nat
    var width: nat
    var height: nat
    /** The frames accepted since the last reset. */
    ghost var frames: seq<Image<Pixel>>

    ghost predicate Valid()
      reads this
    {
      && modulus > 1 && channels > 0
      && count == |frames|
      && (count == 0 ==> width == height == 0 && sum == [])
      && (count > 0 ==> Shaped(frames, width, height) && |sum| == Slots(width, height, channels))
      && SumsOf(frames, sum, channels, channelMax, modulus)
    }

    constructor (channels: nat, channelMax: nat, modulus: nat)
      requires modulus > 1 && channels > 0
      ensures Valid() && frames == [] && count == 0
      ensures this.channels == channels && this.channelMax == channelMax && this.modulus == modulus
    {
      this.channels, this.channelMax, this.modulus := channels, channelMax, modulus;
      sum, count, width, height, frames := [], 0, 0, 0, [];
    }

    /** Discards the accumulation. */
    method Reset()
      modifies this
      requires Valid()
      ensures Valid() && frames == []
    {
      sum, count, width, height, frames := [], 0, 0, 0, [];
    }

    /** Accepts a nonempty frame of the shape being accumulated; any other leaves the state as it was. */
    method Add(source: Image<Pixel>) returns (r: Result<()>)
      requires Valid() && Frame(source, channels, channelMax)
      modifies this
      ensures Valid()
      ensures r.Ok? <==> source.width > 0 && source.height > 0
                         && (old(count) == 0 || (source.width == old(width) && source.height == old(height)))
      ensures r.Ok? ==> frames == old(frames) + [source] && count == old(count) + 1 && width == source.width && height == source.height
      ensures r.Err? ==> r.error == InvalidArgument && frames == old(frames) && sum == old(sum)
                         && count == old(count) && width == old(width) && height == old(height)
    {
      if source.width == 0 || source.height == 0 {
        return Err(InvalidArgument);
      }
      if count == 0 {
        width, height := source.width, source.height;
        sum := seq(Slots(source.width, source.height, channels), _ => 0);
        NoFrames(Slots(source.width, source.height, channels), channels, channelMax, modulus);
      } else if source.width != width || source.height != height {
        return Err(InvalidArgument);
      }
      SampleCount(source, channels);
      hide SumsOf, Samples, Frame, FlatSum, Slots;
      assert HasChannels(source, channels) by { FrameChannels(source, channels, channelMax); }
      hide HasChannels;
      var added := AddSamples(source, sum);
      AddedFrame(frames, source, sum, added, channels, channelMax, modulus);
      sum := added;
      frames := frames + [source];
      count := count + 1;
      return Ok(());
    }

    /** Adds every channel sample to its wrapping sum, in storage order. */
    method AddSamples(source: Image<Pixel>, before: seq<nat>) returns (after: seq<nat>)
      requires modulus > 1 && HasChannels(source, channels) && |before| == |Samples(source)|
      ensures |after| == |before|
      ensures forall i | 0 <= i < |before| :: after[i] == (before[i] + Samples(source)[i]) % modulus
    {
      hide Samples, Slot;
      after := before;
      var w, h := source.width, source.height;
      SlotSteps(w, channels, 0, 0);
      SampleCount(source, channels);
      var index := 0;
      for y := 0 to h
        invariant index == Slot(w, channels, 0, y, 0)
        invariant AddedTo(before, Samples(source), after, modulus, index)
      {
        for x := 0 to w
          invariant index == Slot(w, channels, x, y, 0)
          invariant AddedTo(before, Samples(source), after, modulus, index)
        {
          for c := 0 to channels
            invariant index == Slot(w, channels, x, y, c)
            invariant AddedTo(before, Samples(source), after, modulus, index)
          {
            SampleSlot(source, channels, x, y, c);
            SlotSteps(w, channels, x, y);
            after := after[index := (after[index] + source.At(x, y)[c]) % modulus];
            index := index + 1;
          }
          SlotSteps(w, channels, x, y);
        }
        SlotSteps(w, channels, 0, y);
      }
      SlotLast(w, h, channels);
    }

    /**
    The average of the accepted frames, as far as the accumulator's modulus can tell. A count that the cast to
    the sum type turns into zero divides by zero.
    */
    method Average() returns (r: Result<Image<Pixel>>)
      requires Valid()
      ensures frames == [] ==> r == Err(LogicError)
      ensures frames != [] && |frames| % modulus == 0 ==> r == Err(DivisionByZero)
      ensures frames != [] && |frames| % modulus != 0 ==>
                r == Ok(WrappedMeanImage(frames, channels, channelMax, width, height, modulus))
    {
      if count == 0 {
        return Err(LogicError);
      }
      hide Map.Value, Image.At, Samples, Slot, WrappedMean, WrappedMeanImage, Frames, Shaped;
      assert Shaped(frames, width, height) && Frames(frames, channels, channelMax) && |frames| == count && modulus > 1;
      hide Valid;
      var divisor := count % modulus;
      var bias := divisor / 2;
      if divisor == 0 {
        return Err(DivisionByZero);
      }
      ghost var spec := WrappedMeanImage(frames, channels, channelMax, width, height, modulus);
      var target := new Map<Pixel>(width, height, seq(channels, _ => 0));
      var index := 0;
      SlotSteps(width, channels, 0, 0);
      for y := 0 to height
        invariant target.Valid() && target.width == width && target.height == height
        invariant index == Slot(width, channels, 0, y, 0)
        invariant forall cx: nat, cy: nat | cx < width && cy < height && cy < y ::
                    target.Value().At(cx, cy) == spec.At(cx, cy)
      {
        index := AverageRow(target, index, divisor, bias, y);
      }
      SameCells(target.Value(), spec);
      return Ok(target.Value());
    }

    /** One averaged row. */
    method AverageRow(target: Map<Pixel>, start: nat, divisor: nat, bias: nat, y: nat) returns (index: nat)
      requires Valid() && count > 0 && modulus > 1 && 0 < divisor == count % modulus && bias == divisor / 2
      requires y < height && start == Slot(width, channels, 0, y, 0)
      requires Frames(frames, channels, channelMax) && Shaped(frames, width, height) && |frames| == count
      requires target.Valid() && target.width == width && target.height == height
      modifies target`data
      ensures target.Valid() && index == Slot(width, channels, 0, y + 1, 0)
      ensures forall cx: nat, cy: nat | cx < width && cy < height ::
                target.Value().At(cx, cy) ==
                if cy == y then WrappedMeanImage(frames, channels, channelMax, width, height, modulus).At(cx, cy)
                else old(target.Value().At(cx, cy))
    {
      hide Map.Value, Image.At, Valid, Slot, WrappedMeanImage, Frames, Shaped;
      index := start;
      for x := 0 to width
        invariant target.Valid() && index == Slot(width, channels, x, y, 0)
        invariant forall cx: nat, cy: nat | cx < width && cy < height ::
                    target.Value().At(cx, cy) ==
                    if cy == y && cx < x then WrappedMeanImage(frames, channels, channelMax, width, height, modulus).At(cx, cy)
                    else old(target.Value().At(cx, cy))
      {
        var px := AveragePixel(index, divisor, bias, x, y);
        target.Put(x, y, px);
        SlotSteps(width, channels, x, y);
        index := index + channels;
      }
      SlotSteps(width, channels, 0, y);
    }

    /** The stored sum of one channel sample is the exact sum, folded by the modulus. */
    lemma SumAt(x: nat, y: nat, c: nat) returns (exact: nat)
      requires Valid() && count > 0 && x < width && y < height && c < channels
      ensures Frames(frames, channels, channelMax) && Shaped(frames, width, height) && |frames| == count
      ensures exact == ExactSum(frames, channels, channelMax, width, height, x, y, c)
      ensures Slot(width, channels, x, y, c) < |sum|
      ensures sum[Slot(width, channels, x, y, c)] == exact % modulus
    {
      hide Samples, Slot;
      FlatSumIsExact(frames, channels, channelMax, width, height, x, y, c);
      exact := ExactSum(frames, channels, channelMax, width, height, x, y, c);
      assert |Samples(frames[0])| == |sum|;
    }

    /** The channels of one averaged pixel. */
    method AveragePixel(index: nat, divisor: nat, bias: nat, ghost x: nat, ghost y: nat) returns (px: Pixel)
      requires Valid() && count > 0 && modulus > 1 && 0 < divisor == count % modulus && bias == divisor / 2
      requires Frames(frames, channels, channelMax) && Shaped(frames, width, height) && |frames| == count
      requires x < width && y < height && index == Slot(width, channels, x, y, 0)
      ensures px == WrappedMeanImage(frames, channels, channelMax, width, height, modulus).At(x, y)
    {
      hide Valid, Slot, WrappedMean, ExactSum;
      px := [];
      for c := 0 to channels
        invariant |px| == c
        invariant forall d | 0 <= d < c ::
                    px[d] == WrappedMean(ExactSum(frames, channels, channelMax, width, height, x, y, d), count, modulus, channelMax)
      {
        ghost var exact := SumAt(x, y, c);
        SlotSteps(width, channels, x, y);
        WrappedMeanOf(exact, sum[index + c], count, divisor, modulus, channelMax);
        px := px + [((sum[index + c] + bias) % modulus / divisor) % (channelMax + 1)];
      }
    }
  }

  lemma WrappedMeanOf(sum: nat, folded: nat, k: nat, divisor: nat, modulus: nat, max: nat)
    requires modulus > 0 && 0 < divisor == k % modulus && folded == sum % modulus
    ensures ((folded + divisor / 2) % modulus / divisor) % (max + 1) == WrappedMean(sum, k, modulus, max)
  {
  }

  /** The samples before `index` have been added, the others not yet. */
  ghost predicate AddedTo(before: seq<nat>, samples: seq<nat>, after: seq<nat>, modulus: nat, index: nat)
    requires modulus > 1
  {
    && |before| == |samples| == |after|
    && (forall i | 0 <= i < |before| && i < index :: after[i] == (before[i] + samples[i]) % modulus)
    && (forall i | index <= i < |before| :: after[i] == before[i])
  }

  /** Walking channel after channel and pixel after pixel advances the slot by one. */
  lemma SlotSteps(w: nat, n: nat, x: nat, y: nat)
    ensures Slot(w, n, 0, 0, 0) == 0
    ensures forall c: nat :: Slot(w, n, x, y, c) == Slot(w, n, x, y, 0) + c
    ensures Slot(w, n, x, y, n) == Slot(w, n, x + 1, y, 0)
    ensures Slot(w, n, w, y, 0) == Slot(w, n, 0, y + 1, 0)
  {
    assert (y * w + x + 1) * n == (y * w + x) * n + n;
    assert y * w + w == (y + 1) * w;
  }

  lemma SlotLast(w: nat, h: nat, n: nat)
    ensures Slot(w, n, 0, h, 0) == Slots(w, h, n)
  {
  }

  lemma FrameChannels(img: Image<Pixel>, n: nat, max: nat)
    requires Frame(img, n, max)
    ensures HasChannels(img, n)
  {
  }

  /** Adding a frame's samples modulo M keeps each sum congruent to the exact one. */
  lemma AddedFrame(frames: seq<Image<Pixel>>, source: Image<Pixel>, before: seq<nat>, after: seq<nat>, n: nat, max: nat, modulus: nat)
    requires modulus > 1 && |before| == |after| == |Samples(source)| && Frame(source, n, max)
    requires SumsOf(frames, before, n, max, modulus)
    requires forall i | 0 <= i < |before| :: after[i] == (before[i] + Samples(source)[i]) % modulus
    ensures SumsOf(frames + [source], after, n, max, modulus)
  {
    hide Samples, Frame;
    var all := frames + [source];
    assert all[..|all| - 1] == frames;
    forall i | 0 <= i < |after| ensures after[i] == FlatSum(all, i) % modulus {
      ModAdd(FlatSum(frames, i), Samples(source)[i], modulus);
    }
  }
}
