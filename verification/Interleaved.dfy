/**
The strided interleaved codec (api/wse/data/wse_ImageInterleaved.h, `makeImageFromInterleaved` and
`writeImageToInterleaved`). Rows of little-endian samples start every `stride` bytes; what lies
between the end of a packed row and the next row is margin.

A little-endian host copies a row verbatim. A big-endian host does so for one-byte samples and
otherwise moves exactly two bytes per sample, whatever the sample size.
*/
module Interleaved {
  import opened Grid
  import opened Channels
  import opened Layout

  type Byte = b: nat | b < 256

  /** Channels per pixel and bytes per sample of a pixel format, and the host's byte order. */
  datatype Format = Format(channels: nat, sampleSize: nat, littleEndian: bool) {
    predicate Valid() { channels > 0 && sampleSize > 0 }

    function PixelBytes(): nat { channels * sampleSize }

    /** Whether a row is copied verbatim. */
    predicate Verbatim() { littleEndian || sampleSize == 1 }
  }

  // ---------------------------------------------------------------- samples as bytes

  /** Byte j of a little-endian value. */
  function ByteOf(v: nat, j: nat): Byte {
    if j == 0 then v % 256 else ByteOf(v / 256, j - 1)
  }

  function FromBytes(s: seq<Byte>): nat {
    if s == [] then 0 else s[0] + 256 * FromBytes(s[1..])
  }

  /** Byte j of a value as the host keeps it in memory: low byte first or high byte first. */
  function HostByte(fmt: Format, v: nat, j: nat): Byte
    requires j < fmt.sampleSize
  {
    if fmt.littleEndian then ByteOf(v, j) else ByteOf(v, fmt.sampleSize - 1 - j)
  }

  /** The value that bytes in the host's order make. */
  function HostValue(fmt: Format, s: seq<Byte>): nat {
    if fmt.littleEndian then FromBytes(s) else FromBytes(seq(|s|, i requires 0 <= i < |s| => s[|s| - 1 - i]))
  }

  /** Where rows are copied verbatim, the host's order is low byte first. */
  lemma HostOrder(fmt: Format, v: nat, j: nat, s: seq<Byte>)
    requires fmt.Verbatim() && j < fmt.sampleSize == |s|
    ensures HostByte(fmt, v, j) == ByteOf(v, j) && HostValue(fmt, s) == FromBytes(s)
  {
    if !fmt.littleEndian {
      assert seq(|s|, i requires 0 <= i < |s| => s[|s| - 1 - i]) == s;
    }
  }

  /** The value is representable in `size` bytes. */
  predicate Fits(v: nat, size: nat) {
    if size == 0 then v == 0 else Fits(v / 256, size - 1)
  }

  lemma {:induction false} BytesRoundTrip(v: nat, s: seq<Byte>)
    requires Fits(v, |s|) && forall j | 0 <= j < |s| :: s[j] == ByteOf(v, j)
    ensures FromBytes(s) == v
  {
    if s != [] {
      forall j | 0 <= j < |s| - 1 ensures s[1..][j] == ByteOf(v / 256, j) {
        assert s[1 + j] == ByteOf(v, 1 + j);
      }
      BytesRoundTrip(v / 256, s[1..]);
    }
  }

  lemma TwoBytes(v: nat)
    ensures ByteOf(v, 0) + 256 * ByteOf(v, 1) == v % 65536
    ensures Fits(v, 1) <==> v < 256
    ensures Fits(v, 2) <==> v < 65536
  {
    assert ByteOf(v, 1) == ByteOf(v / 256, 0);
    assert Fits(v, 1) == Fits(v / 256, 0);
    assert Fits(v, 2) == Fits(v / 256, 1) && Fits(v / 256, 1) == Fits(v / 256 / 256, 0);
  }

  // ---------------------------------------------------------------- what writing and reading mean

  /** Byte j of a written row, over the byte that was there before. */
  function RowByte(fmt: Format, samples: seq<nat>, j: nat, before: Byte): Byte
    requires fmt.Valid() && j / fmt.sampleSize < |samples|
  {
    if fmt.Verbatim() || j % fmt.sampleSize < 2 then ByteOf(samples[j / fmt.sampleSize], j % fmt.sampleSize) else before
  }

  /** The sample the code reads from its bytes. */
  function ReadSample(fmt: Format, s: seq<Byte>): nat
    requires fmt.Valid() && |s| == fmt.sampleSize
  {
    if fmt.Verbatim() then FromBytes(s) else var high: nat := s[1]; s[0] + 256 * high
  }

  /** Buffer `after` holds the row at `start`, written over `before`. */
  ghost predicate RowHolds(fmt: Format, row: seq<Pixel>, start: nat, before: seq<Byte>, after: seq<Byte>)
    requires fmt.Valid()
  {
    var n := |Flat(row)| * fmt.sampleSize;
    && |before| == |after| && start + n <= |after|
    && forall i | start <= i < start + n ::
         (i - start) / fmt.sampleSize < |Flat(row)| && after[i] == RowByte(fmt, Flat(row), i - start, before[i])
  }

  /** Nothing outside the n bytes at `start` changed. */
  ghost predicate OnlyChanged(start: nat, n: nat, before: seq<Byte>, after: seq<Byte>) {
    |before| == |after| && forall i | 0 <= i < |after| && !(start <= i < start + n) :: after[i] == before[i]
  }

  /** Sample k of a row that starts at `start` ends within the buffer. */
  predicate SampleWithin(fmt: Format, bytes: seq<Byte>, start: nat, k: nat) {
    start + k * fmt.sampleSize + fmt.sampleSize <= |bytes|
  }

  /** The bytes of sample k of a row that starts at `start`. */
  function SampleBytes(fmt: Format, bytes: seq<Byte>, start: nat, k: nat): (s: seq<Byte>)
    requires SampleWithin(fmt, bytes, start, k)
    ensures |s| == fmt.sampleSize
  {
    bytes[start + k * fmt.sampleSize..start + k * fmt.sampleSize + fmt.sampleSize]
  }

  /** What reading back one sample of a stored row yields. */
  function Recovered(fmt: Format, v: nat): nat {
    if fmt.Verbatim() then v else v % 65536
  }

  /** Reading a sample of a stored row returns what was written, up to what the host moves. */
  lemma SampleRoundTrip(fmt: Format, row: seq<Pixel>, start: nat, before: seq<Byte>, after: seq<Byte>, k: nat)
    requires fmt.Valid() && RowHolds(fmt, row, start, before, after) && k < |Flat(row)|
    requires Fits(Flat(row)[k], fmt.sampleSize)
    ensures SampleWithin(fmt, after, start, k)
    ensures ReadSample(fmt, SampleBytes(fmt, after, start, k)) == Recovered(fmt, Flat(row)[k])
  {
    var size, samples := fmt.sampleSize, Flat(row);
    MulOrder(size, k, |samples|);
    assert size * k == k * size && size * |samples| == |samples| * size;
    var s := SampleBytes(fmt, after, start, k);
    forall b | 0 <= b < size && (fmt.Verbatim() || b < 2) ensures s[b] == ByteOf(samples[k], b) {
      CellIndex(b, k, size, |samples|);
      assert s[b] == after[start + (k * size + b)];
    }
    if fmt.Verbatim() {
      BytesRoundTrip(samples[k], s);
    } else {
      TwoBytes(samples[k]);
    }
  }

  // ---------------------------------------------------------------- writing a row

  /** Copies the in-memory bytes of a row. */
  method CopyRow(fmt: Format, row: seq<Pixel>, buffer: array<Byte>, start: nat, rowBytes: nat)
    requires fmt.Valid() && fmt.Verbatim() && rowBytes == |Flat(row)| * fmt.sampleSize && start + rowBytes <= buffer.Length
    modifies buffer
    ensures RowHolds(fmt, row, start, old(buffer[..]), buffer[..])
    ensures OnlyChanged(start, rowBytes, old(buffer[..]), buffer[..])
  {
    hide CopiedUpTo, ByteOf, HostByte, RowByte, RowHolds, OnlyChanged, HostValue, FromBytes;
    var size, samples := fmt.sampleSize, Flat(row);
    CopiedNone(fmt, samples, start, buffer[..]);
    for j := 0 to rowBytes
      invariant CopiedUpTo(fmt, samples, start, j, old(buffer[..]), buffer[..])
    {
      QuotientLess(j, size, |samples|);
      var sample, part := samples[j / size], j % size;
      CopiedStep(fmt, samples, start, j, old(buffer[..]), buffer[..]);
      HostOrder(fmt, sample, part, seq(size, _ => 0));
      ghost var mid := buffer[..];
      buffer[start + j] := HostByte(fmt, sample, part);
      assert buffer[..] == mid[start + j := ByteOf(sample, part)];
    }
    CopiedAll(fmt, row, start, old(buffer[..]), buffer[..]);
  }

  /** The first n bytes of the row have been copied. */
  ghost predicate CopiedUpTo(fmt: Format, samples: seq<nat>, start: nat, n: nat, before: seq<Byte>, after: seq<Byte>)
    requires fmt.Valid()
  {
    && |before| == |after|
    && forall i | 0 <= i < |after| ::
         after[i] == if start <= i < start + n && (i - start) / fmt.sampleSize < |samples|
                     then RowByte(fmt, samples, i - start, before[i]) else before[i]
  }

  lemma CopiedNone(fmt: Format, samples: seq<nat>, start: nat, bytes: seq<Byte>)
    requires fmt.Valid()
    ensures CopiedUpTo(fmt, samples, start, 0, bytes, bytes)
  {
  }

  lemma CopiedStep(fmt: Format, samples: seq<nat>, start: nat, j: nat, before: seq<Byte>, mid: seq<Byte>)
    requires fmt.Valid() && fmt.Verbatim() && j / fmt.sampleSize < |samples| && start + j < |mid|
    requires CopiedUpTo(fmt, samples, start, j, before, mid)
    ensures CopiedUpTo(fmt, samples, start, j + 1, before,
                       mid[start + j := ByteOf(samples[j / fmt.sampleSize], j % fmt.sampleSize)])
  {
    hide ByteOf;
    assert RowByte(fmt, samples, j, before[start + j]) == ByteOf(samples[j / fmt.sampleSize], j % fmt.sampleSize);
    hide RowByte;
  }

  lemma CopiedAll(fmt: Format, row: seq<Pixel>, start: nat, before: seq<Byte>, after: seq<Byte>)
    requires fmt.Valid() && start + |Flat(row)| * fmt.sampleSize <= |after|
    requires CopiedUpTo(fmt, Flat(row), start, |Flat(row)| * fmt.sampleSize, before, after)
    ensures RowHolds(fmt, row, start, before, after)
    ensures OnlyChanged(start, |Flat(row)| * fmt.sampleSize, before, after)
  {
    hide RowByte;
    var samples, size := Flat(row), fmt.sampleSize;
    forall i: nat ensures i < |samples| * size <==> i / size < |samples| {
      QuotientLess(i, size, |samples|);
    }
  }

  /** Moves two bytes per sample, the low byte first. */
  method SplitRow(fmt: Format, row: seq<Pixel>, width: nat, buffer: array<Byte>, start: nat)
    requires fmt.Valid() && !fmt.Verbatim() && |row| == width
    requires forall x | 0 <= x < width :: |row[x]| == fmt.channels
    requires start + |Flat(row)| * fmt.sampleSize <= buffer.Length
    modifies buffer
    ensures RowHolds(fmt, row, start, old(buffer[..]), buffer[..])
    ensures OnlyChanged(start, |Flat(row)| * fmt.sampleSize, old(buffer[..]), buffer[..])
  {
    var channels := fmt.channels;
    FlatLength(row, channels);
    SplitNone(fmt, Flat(row), start, buffer[..]);
    for x := 0 to width
      invariant SplitUpTo(fmt, Flat(row), start, x * channels, old(buffer[..]), buffer[..])
    {
      for channel := 0 to channels
        invariant SplitUpTo(fmt, Flat(row), start, x * channels + channel, old(buffer[..]), buffer[..])
      {
        FlatIndex(row, channels, channel, x);
        SplitSample(fmt, Flat(row), buffer, start, x * channels + channel, row[x][channel], old(buffer[..]));
      }
      MulNext(channels, x);
    }
    SplitAll(fmt, row, start, old(buffer[..]), buffer[..]);
  }

  /** The first k samples have been moved. */
  ghost predicate SplitUpTo(fmt: Format, samples: seq<nat>, start: nat, k: nat, before: seq<Byte>, after: seq<Byte>)
    requires fmt.Valid()
  {
    && |before| == |after|
    && forall i | 0 <= i < |after| ::
         after[i] == if start <= i && (i - start) / fmt.sampleSize < |samples| && (i - start) / fmt.sampleSize < k
                     then RowByte(fmt, samples, i - start, before[i]) else before[i]
  }

  lemma SplitNone(fmt: Format, samples: seq<nat>, start: nat, bytes: seq<Byte>)
    requires fmt.Valid()
    ensures SplitUpTo(fmt, samples, start, 0, bytes, bytes)
  {
  }

  lemma SplitAll(fmt: Format, row: seq<Pixel>, start: nat, before: seq<Byte>, after: seq<Byte>)
    requires fmt.Valid() && start + |Flat(row)| * fmt.sampleSize <= |after|
    requires SplitUpTo(fmt, Flat(row), start, |Flat(row)|, before, after)
    ensures RowHolds(fmt, row, start, before, after)
    ensures OnlyChanged(start, |Flat(row)| * fmt.sampleSize, before, after)
  {
    hide RowByte;
    var samples, size := Flat(row), fmt.sampleSize;
    forall i: nat ensures i < |samples| * size <==> i / size < |samples| {
      QuotientLess(i, size, |samples|);
    }
  }

  lemma QuotientLess(i: nat, size: nat, n: nat)
    requires size > 0
    ensures i < n * size <==> i / size < n
  {
    assert i == size * (i / size) + i % size;
    MulOrder(size, i / size, n);
    MulOrder(size, n - 1, i / size);
    assert size * n == n * size && size * (n - 1) == size * n - size;
  }

  /** The two assignments for one sample. */
  method SplitSample(fmt: Format, ghost samples: seq<nat>, buffer: array<Byte>, start: nat, k: nat, sample: nat, ghost before: seq<Byte>)
    requires fmt.Valid() && !fmt.Verbatim() && k < |samples| && samples[k] == sample
    requires start + |samples| * fmt.sampleSize <= buffer.Length
    requires SplitUpTo(fmt, samples, start, k, before, buffer[..])
    modifies buffer
    ensures SplitUpTo(fmt, samples, start, k + 1, before, buffer[..])
  {
    var size := fmt.sampleSize;
    var at := start + k * size;
    CellIndex(0, k, size, |samples|);
    CellIndex(1, k, size, |samples|);
    assert ByteOf(sample, 0) == sample % 256 && ByteOf(sample, 1) == ByteOf(sample / 256, 0) == sample / 256 % 256;
    buffer[at] := sample % 256;
    buffer[at + 1] := sample / 256 % 256;
    forall i | 0 <= i < buffer.Length
      ensures buffer[i] == if start <= i && (i - start) / size < |samples| && (i - start) / size < k + 1
                           then RowByte(fmt, samples, i - start, before[i]) else before[i]
    {
      if start <= i {
        LaterByte(i - start, size, k);
      }
    }
  }

  /** A byte of sample k that is neither its first nor its second lies further in. */
  lemma LaterByte(j: nat, size: nat, k: nat)
    requires size > 0
    ensures j / size == k && j != k * size && j != k * size + 1 ==> j % size >= 2
  {
    assert j == size * (j / size) + j % size;
    assert size * k == k * size;
  }

  // ---------------------------------------------------------------- whole images

  /** A caller-owned buffer and its layout; a read view and a write target share this shape. */
  datatype View = View(data: array?<Byte>, width: nat, height: nat, rowStride: nat, accessible: nat) {
    /** What the caller vouches for: size_t values, and that `accessible` bytes really exist. */
    ghost predicate Truthful(maximum: nat) {
      && width <= maximum && height <= maximum && rowStride <= maximum && accessible <= maximum
      && (data != null ==> accessible <= data.Length)
    }

    function Stride(fmt: Format): nat {
      if rowStride != 0 then rowStride else width * fmt.PixelBytes()
    }

    ghost predicate Fits(fmt: Format, maximum: nat) {
      data != null && LayoutFits(maximum, fmt.PixelBytes(), width, height, rowStride, accessible)
    }
  }

  /** The first `rows` rows of the image are stored; margins and everything else are as before. */
  ghost predicate Stored(fmt: Format, img: Image<Pixel>, stride: nat, before: seq<Byte>, after: seq<Byte>, rows: nat)
    requires fmt.Valid() && HasChannels(img, fmt.channels) && stride > 0 && rows <= img.height
  {
    && |before| == |after|
    && (forall y: nat | y < rows :: RowHolds(fmt, img.rows[y], y * stride, before, after))
    && (forall i | 0 <= i < |after| && !InRows(fmt, img, stride, rows, i) :: after[i] == before[i])
  }

  /** Byte i belongs to one of the first `rows` packed rows. */
  predicate InRows(fmt: Format, img: Image<Pixel>, stride: nat, rows: nat, i: nat)
    requires stride > 0
  {
    i / stride < rows && i % stride < img.width * fmt.PixelBytes()
  }

  /** Value v is what the code reads for sample c of pixel x in the row at `start`. */
  ghost predicate SampleRead(fmt: Format, bytes: seq<Byte>, start: nat, x: nat, c: nat, v: nat)
    requires fmt.Valid()
  {
    && SampleWithin(fmt, bytes, start, x * fmt.channels + c)
    && v == ReadSample(fmt, SampleBytes(fmt, bytes, start, x * fmt.channels + c))
  }

  /** The image whose samples are read from the rows of a buffer. */
  ghost predicate Loaded(fmt: Format, img: Image<Pixel>, stride: nat, bytes: seq<Byte>)
    requires fmt.Valid()
  {
    && HasChannels(img, fmt.channels)
    && forall x: nat, y: nat, c: nat | img.Inside(x, y) && c < fmt.channels ::
         SampleRead(fmt, bytes, y * stride, x, c, img.At(x, y)[c])
  }

  /** Every sample is representable in the format's sample type. */
  ghost predicate Typed(fmt: Format, img: Image<Pixel>) {
    && HasChannels(img, fmt.channels)
    && forall x: nat, y: nat, c: nat | img.Inside(x, y) && c < fmt.channels :: Fits(img.At(x, y)[c], fmt.sampleSize)
  }

  /** What a write followed by a read makes of an image. */
  ghost function RecoveredImage(fmt: Format, img: Image<Pixel>): (r: Image<Pixel>)
    requires HasChannels(img, fmt.channels)
    ensures HasChannels(r, fmt.channels) && r.SameShape(img)
  {
    Tabulate(img.width, img.height, (x: nat, y: nat) requires img.Inside(x, y) =>
      seq(fmt.channels, c requires 0 <= c < fmt.channels => Recovered(fmt, img.At(x, y)[c])))
  }

  /** Writing and then reading returns the image, up to what the host moves per sample. */
  lemma WriteThenRead(fmt: Format, img: Image<Pixel>, read: Image<Pixel>, stride: nat, before: seq<Byte>, after: seq<Byte>)
    requires fmt.Valid() && Typed(fmt, img) && stride > 0
    requires Stored(fmt, img, stride, before, after, img.height)
    requires read.SameShape(img) && Loaded(fmt, read, stride, after)
    ensures read == RecoveredImage(fmt, img)
  {
    var r := RecoveredImage(fmt, img);
    forall x: nat, y: nat | read.Inside(x, y) ensures read.At(x, y) == r.At(x, y) {
      assert |read.At(x, y)| == fmt.channels;
      forall c: nat | c < fmt.channels ensures read.At(x, y)[c] == r.At(x, y)[c] {
        hide Recovered, Stored, Loaded, Typed;
        ReadBack(fmt, img, read, stride, before, after, x, y, c);
      }
    }
    SameCells(read, r);
  }

  lemma ReadBack(fmt: Format, img: Image<Pixel>, read: Image<Pixel>, stride: nat, before: seq<Byte>, after: seq<Byte>,
                 x: nat, y: nat, c: nat)
    requires fmt.Valid() && Typed(fmt, img) && stride > 0 && img.Inside(x, y) && c < fmt.channels
    requires Stored(fmt, img, stride, before, after, img.height)
    requires read.SameShape(img) && Loaded(fmt, read, stride, after)
    ensures |read.At(x, y)| == fmt.channels && read.At(x, y)[c] == Recovered(fmt, img.At(x, y)[c])
  {
    hide Recovered, ReadSample, SampleBytes, SampleWithin, RowHolds, Fits;
    var v := read.At(x, y)[c];
    assert SampleRead(fmt, after, y * stride, x, c, v);
    hide Loaded;
    RowPixels(img, fmt.channels, y);
    FlatIndex(img.rows[y], fmt.channels, c, x);
    SampleRoundTrip(fmt, img.rows[y], y * stride, before, after, x * fmt.channels + c);
  }

  /** The round trip is exact for every image whose samples fit two bytes, and on every verbatim host for all. */
  lemma RoundTripIff(fmt: Format, img: Image<Pixel>)
    requires fmt.Valid() && Typed(fmt, img)
    ensures RecoveredImage(fmt, img) == img
            <==> fmt.Verbatim() || forall x: nat, y: nat, c: nat | img.Inside(x, y) && c < fmt.channels :: img.At(x, y)[c] < 65536
  {
    var r := RecoveredImage(fmt, img);
    if fmt.Verbatim() || forall x: nat, y: nat, c: nat | img.Inside(x, y) && c < fmt.channels :: img.At(x, y)[c] < 65536 {
      forall x: nat, y: nat | img.Inside(x, y) ensures r.At(x, y) == img.At(x, y) {
        assert forall c: nat | c < fmt.channels :: r.At(x, y)[c] == img.At(x, y)[c];
      }
      SameCells(r, img);
    } else {
      var x: nat, y: nat, c: nat :| img.Inside(x, y) && c < fmt.channels && img.At(x, y)[c] >= 65536;
      assert r.At(x, y)[c] == img.At(x, y)[c] % 65536;
    }
  }

  /** A 32-bit sample on a big-endian host comes back as its two low bytes. */
  lemma WideSampleLost()
    ensures var fmt, img := Format(1, 4, false), Image(1, 1, [[[65536]]]);
            fmt.Valid() && Typed(fmt, img) && RecoveredImage(fmt, img) != img
            && RecoveredImage(fmt, img).At(0, 0) == [0]
  {
    var fmt, img := Format(1, 4, false), Image(1, 1, [[[65536]]]);
    assert img.At(0, 0)[0] == 65536;
    assert Fits(65536, 4) by {
      assert Fits(65536, 4) == Fits(256, 3) && Fits(256, 3) == Fits(1, 2) && Fits(1, 2) == Fits(0, 1) && Fits(0, 1) == Fits(0, 0);
    }
    hide Fits;
    assert RecoveredImage(fmt, img).At(0, 0)[0] == 0;
  }

  /** In particular for 8-bit and 16-bit samples, on hosts of either byte order. */
  lemma SmallSamplesRoundTrip(fmt: Format, img: Image<Pixel>)
    requires fmt.Valid() && fmt.sampleSize <= 2 && Typed(fmt, img)
    ensures RecoveredImage(fmt, img) == img
  {
    forall x: nat, y: nat, c: nat | img.Inside(x, y) && c < fmt.channels ensures img.At(x, y)[c] < 65536 {
      TwoBytes(img.At(x, y)[c]);
    }
    RoundTripIff(fmt, img);
  }

  /** The byte-by-byte path leaves exactly the bytes of the verbatim copy for samples of up to two bytes. */
  lemma PathsAgree(channels: nat, size: nat, img: Image<Pixel>, stride: nat, before: seq<Byte>, after: seq<Byte>)
    requires channels > 0 && 0 < size <= 2 && HasChannels(img, channels) && stride > 0
    ensures Stored(Format(channels, size, false), img, stride, before, after, img.height)
            <==> Stored(Format(channels, size, true), img, stride, before, after, img.height)
  {
    var big, little := Format(channels, size, false), Format(channels, size, true);
    forall row: seq<Pixel>, start: nat ensures RowHolds(big, row, start, before, after) <==> RowHolds(little, row, start, before, after) {
      hide ByteOf;
    }
    hide RowHolds;
    assert forall i: nat :: InRows(big, img, stride, img.height, i) <==> InRows(little, img, stride, img.height, i);
  }

  lemma RowPixels(img: Image<Pixel>, n: nat, y: nat)
    requires HasChannels(img, n) && y < img.height
    ensures |img.rows[y]| == img.width && forall x | 0 <= x < img.width :: |img.rows[y][x]| == n
    ensures |Flat(img.rows[y])| == img.width * n
  {
    forall x | 0 <= x < img.width ensures |img.rows[y][x]| == n {
      assert |img.At(x, y)| == n;
    }
    FlatLength(img.rows[y], n);
  }

  /** The bytes of row y start at y * stride; bytes of other rows and margins lie elsewhere. */
  lemma RowSpan(stride: nat, n: nat, y: nat, i: nat)
    requires 0 < n <= stride
    ensures y * stride <= i < y * stride + n <==> i / stride == y && i % stride < n
  {
    assert i == stride * (i / stride) + i % stride;
    MulOrder(stride, i / stride, y);
    MulOrder(stride, y, i / stride);
    assert stride * y == y * stride;
  }

  /** Writing one more row keeps the rows above it. */
  lemma StoredStep(fmt: Format, img: Image<Pixel>, stride: nat, before: seq<Byte>, mid: seq<Byte>, after: seq<Byte>, y: nat)
    requires fmt.Valid() && HasChannels(img, fmt.channels) && y < img.height
    requires 0 < img.width * fmt.PixelBytes() <= stride
    requires Stored(fmt, img, stride, before, mid, y)
    requires RowHolds(fmt, img.rows[y], y * stride, mid, after)
    requires OnlyChanged(y * stride, img.width * fmt.PixelBytes(), mid, after)
    ensures Stored(fmt, img, stride, before, after, y + 1)
  {
    hide RowHolds, InRows, OnlyChanged;
    forall r: nat | r < y + 1 ensures RowHolds(fmt, img.rows[r], r * stride, before, after) {
      StoredRow(fmt, img, stride, before, mid, after, y, r);
    }
    forall i | 0 <= i < |after| && !InRows(fmt, img, stride, y + 1, i) ensures i < |before| && after[i] == before[i] {
      StoredMargin(fmt, img, stride, before, mid, after, y, i);
    }
    StoredRow(fmt, img, stride, before, mid, after, y, y);
  }

  lemma StoredRow(fmt: Format, img: Image<Pixel>, stride: nat, before: seq<Byte>, mid: seq<Byte>, after: seq<Byte>, y: nat, r: nat)
    requires fmt.Valid() && HasChannels(img, fmt.channels) && r <= y < img.height
    requires 0 < img.width * fmt.PixelBytes() <= stride
    requires Stored(fmt, img, stride, before, mid, y)
    requires RowHolds(fmt, img.rows[y], y * stride, mid, after)
    requires OnlyChanged(y * stride, img.width * fmt.PixelBytes(), mid, after)
    ensures |before| == |mid| == |after| && RowHolds(fmt, img.rows[r], r * stride, before, after)
  {
    assert |mid| == |after|;
    hide RowHolds, RowByte;
    var n := img.width * fmt.PixelBytes();
    assert |Flat(img.rows[r])| * fmt.sampleSize == n by {
      RowPixels(img, fmt.channels, r);
      RowBytes(img.width, fmt.channels, fmt.sampleSize);
    }
    hide Format.PixelBytes, HasChannels, Flat;
    if r < y {
      forall i | r * stride <= i < r * stride + n && i < |mid| ensures after[i] == mid[i] {
        RowSpan(stride, n, r, i);
        RowSpan(stride, n, y, i);
      }
      RowKept(fmt, img.rows[r], r * stride, before, mid, after);
    } else {
      forall i | r * stride <= i < r * stride + n && i < |mid| ensures mid[i] == before[i] {
        RowSpan(stride, n, r, i);
        assert !InRows(fmt, img, stride, y, i);
      }
      RowOver(fmt, img.rows[r], r * stride, before, mid, after);
    }
  }

  lemma StoredMargin(fmt: Format, img: Image<Pixel>, stride: nat, before: seq<Byte>, mid: seq<Byte>, after: seq<Byte>, y: nat, i: nat)
    requires fmt.Valid() && HasChannels(img, fmt.channels) && y < img.height
    requires 0 < img.width * fmt.PixelBytes() <= stride
    requires Stored(fmt, img, stride, before, mid, y)
    requires OnlyChanged(y * stride, img.width * fmt.PixelBytes(), mid, after)
    requires i < |after| && !InRows(fmt, img, stride, y + 1, i)
    ensures i < |before| && after[i] == before[i]
  {
    hide RowHolds;
    RowSpan(stride, img.width * fmt.PixelBytes(), y, i);
    assert !InRows(fmt, img, stride, y, i);
  }

  /** A stored row stays stored while its bytes are left alone. */
  lemma RowKept(fmt: Format, row: seq<Pixel>, start: nat, before: seq<Byte>, mid: seq<Byte>, after: seq<Byte>)
    requires fmt.Valid() && RowHolds(fmt, row, start, before, mid) && |after| == |mid|
    requires forall i | start <= i < start + |Flat(row)| * fmt.sampleSize && i < |mid| :: after[i] == mid[i]
    ensures RowHolds(fmt, row, start, before, after)
  {
    hide RowByte;
  }

  /** A row written over bytes that were still the original ones. */
  lemma RowOver(fmt: Format, row: seq<Pixel>, start: nat, before: seq<Byte>, mid: seq<Byte>, after: seq<Byte>)
    requires fmt.Valid() && RowHolds(fmt, row, start, mid, after) && |before| == |mid|
    requires forall i | start <= i < start + |Flat(row)| * fmt.sampleSize && i < |mid| :: mid[i] == before[i]
    ensures RowHolds(fmt, row, start, before, after)
  {
    hide RowByte;
  }

  lemma RowBytes(w: nat, channels: nat, size: nat)
    ensures w * (channels * size) == w * channels * size
  {
  }

  /** What an accepted layout gives the row loops. */
  lemma LayoutFacts(view: View, fmt: Format, maximum: nat)
    requires fmt.Valid() && fmt.PixelBytes() <= maximum && view.Truthful(maximum) && view.data != null
    ensures fmt.PixelBytes() > 0
    ensures LayoutValid(maximum, fmt.PixelBytes(), view.width, view.height, view.rowStride, view.accessible)
            <==> view.Fits(fmt, maximum)
    ensures view.Fits(fmt, maximum) ==>
              var rowBytes := view.width * fmt.channels * fmt.sampleSize;
              && RowStride(maximum, fmt.PixelBytes(), view.width, view.rowStride) == view.Stride(fmt)
              && view.height > 0 && 0 < rowBytes <= view.Stride(fmt)
              && (view.height - 1) * view.Stride(fmt) + rowBytes <= view.data.Length
  {
    MulOrder(fmt.sampleSize, 0, fmt.channels);
    assert fmt.sampleSize * fmt.channels == fmt.PixelBytes();
    LayoutMeaning(maximum, fmt.PixelBytes(), view.width, view.height, view.rowStride, view.accessible);
    RowBytes(view.width, fmt.channels, fmt.sampleSize);
    MulOrder(fmt.PixelBytes(), 0, view.width);
    assert fmt.PixelBytes() * view.width == view.width * fmt.PixelBytes();
    hide LayoutValid, RowStride, Format.PixelBytes;
  }

  /** Writes an image out at the destination's row stride. A refusal writes nothing. */
  method WriteImage(target: View, img: Image<Pixel>, fmt: Format, maximum: nat) returns (written: bool)
    requires fmt.Valid() && fmt.PixelBytes() <= maximum && Typed(fmt, img) && target.Truthful(maximum)
    modifies if target.data == null then {} else {target.data}
    ensures written <==> target.Fits(fmt, maximum) && img.width == target.width && img.height == target.height
    ensures !written && target.data != null ==> target.data[..] == old(target.data[..])
    ensures written ==> target.Stride(fmt) > 0
                        && Stored(fmt, img, target.Stride(fmt), old(target.data[..]), target.data[..], img.height)
  {
    if target.data == null { return false; }
    LayoutFacts(target, fmt, maximum);
    hide LayoutFits, LayoutValid, Stored, RowStride, Typed, HasChannels, View.Stride, Format.PixelBytes;
    if !LayoutValid(maximum, fmt.PixelBytes(), target.width, target.height, target.rowStride, target.accessible) {
      return false;
    }
    if img.width != target.width || img.height != target.height { return false; }
    var stride := RowStride(maximum, fmt.PixelBytes(), target.width, target.rowStride);
    var rowBytes := target.width * fmt.channels * fmt.sampleSize;
    WriteRows(target.data, img, fmt, stride, rowBytes);
    return true;
  }

  /** The row loop of a write. */
  method WriteRows(buffer: array<Byte>, img: Image<Pixel>, fmt: Format, stride: nat, rowBytes: nat)
    requires fmt.Valid() && HasChannels(img, fmt.channels)
    requires rowBytes == img.width * fmt.channels * fmt.sampleSize && 0 < rowBytes <= stride
    requires img.height > 0 && (img.height - 1) * stride + rowBytes <= buffer.Length
    modifies buffer
    ensures Stored(fmt, img, stride, old(buffer[..]), buffer[..], img.height)
  {
    RowBytes(img.width, fmt.channels, fmt.sampleSize);
    for y := 0 to img.height
      invariant Stored(fmt, img, stride, old(buffer[..]), buffer[..], y)
    {
      hide Stored, RowHolds, OnlyChanged;
      RowPixels(img, fmt.channels, y);
      assert y * stride + rowBytes <= buffer.Length by {
        MulOrder(stride, y, img.height - 1);
      }
      ghost var mid := buffer[..];
      if fmt.Verbatim() {
        CopyRow(fmt, img.rows[y], buffer, y * stride, rowBytes);
      } else {
        SplitRow(fmt, img.rows[y], img.width, buffer, y * stride);
      }
      StoredStep(fmt, img, stride, old(buffer[..]), mid, buffer[..], y);
    }
  }

  /** Copies a strided buffer into a packed image. */
  method MakeImage(view: View, fmt: Format, maximum: nat) returns (r: Result<Image<Pixel>>)
    requires fmt.Valid() && fmt.PixelBytes() <= maximum && view.Truthful(maximum)
    ensures r.Ok? <==> view.Fits(fmt, maximum)
    ensures r.Err? ==> r.error == InvalidArgument
    ensures r.Ok? ==> r.value.width == view.width && r.value.height == view.height
                      && Loaded(fmt, r.value, view.Stride(fmt), view.data[..])
  {
    if view.data == null { return Err(InvalidArgument); }
    LayoutFacts(view, fmt, maximum);
    hide LayoutFits, LayoutValid, RowStride, Loaded, View.Stride, Format.PixelBytes;
    if !LayoutValid(maximum, fmt.PixelBytes(), view.width, view.height, view.rowStride, view.accessible) {
      return Err(InvalidArgument);
    }
    var stride := RowStride(maximum, fmt.PixelBytes(), view.width, view.rowStride);
    var rowBytes := view.width * fmt.channels * fmt.sampleSize;
    var rows := MakeRows(fmt, view.data[..], view.width, view.height, stride, rowBytes);
    LoadedRows(fmt, Image(view.width, view.height, rows), stride, view.data[..]);
    return Ok(Image(view.width, view.height, rows));
  }

  /** Writes an image and reads it back through the same layout. */
  method WriteAndRead(target: View, img: Image<Pixel>, fmt: Format, maximum: nat) returns (r: Result<Image<Pixel>>)
    requires fmt.Valid() && fmt.PixelBytes() <= maximum && Typed(fmt, img) && target.Truthful(maximum)
    modifies if target.data == null then {} else {target.data}
    ensures r.Ok? <==> target.Fits(fmt, maximum) && img.width == target.width && img.height == target.height
    ensures r.Ok? ==> r.value == RecoveredImage(fmt, img)
    ensures r.Ok? && (fmt.littleEndian || fmt.sampleSize <= 2) ==> r.value == img
  {
    var written := WriteImage(target, img, fmt, maximum);
    if !written {
      return Err(InvalidArgument);
    }
    ghost var before := old(target.data[..]);
    hide LayoutFits, Stored, Loaded, View.Stride, Typed, RecoveredImage;
    r := MakeImage(target, fmt, maximum);
    if r.Ok? {
      WriteThenRead(fmt, img, r.value, target.Stride(fmt), before, target.data[..]);
      if fmt.sampleSize <= 2 {
        SmallSamplesRoundTrip(fmt, img);
      } else {
        RoundTripIff(fmt, img);
      }
    }
  }

  /** The row loop of a read. */
  method MakeRows(fmt: Format, bytes: seq<Byte>, width: nat, height: nat, stride: nat, rowBytes: nat) returns (rows: seq<seq<Pixel>>)
    requires fmt.Valid() && height > 0 && rowBytes == width * fmt.channels * fmt.sampleSize
    requires (height - 1) * stride + rowBytes <= |bytes|
    ensures |rows| == height && RowsLoaded(fmt, rows, width, stride, bytes)
  {
    hide PixelLoaded;
    rows := [];
    for y := 0 to height
      invariant |rows| == y && RowsLoaded(fmt, rows, width, stride, bytes)
    {
      assert y * stride + rowBytes <= |bytes| by {
        MulOrder(stride, y, height - 1);
      }
      var row := MakeRow(fmt, bytes, y * stride, width);
      rows := rows + [row];
    }
  }

  /** Sample c of pixel x of a row read from `start`. */
  ghost predicate PixelLoaded(fmt: Format, px: Pixel, bytes: seq<Byte>, start: nat, x: nat)
    requires fmt.Valid()
  {
    |px| == fmt.channels && ChannelsLoaded(fmt, px, bytes, start, x)
  }

  ghost predicate ChannelsLoaded(fmt: Format, px: Pixel, bytes: seq<Byte>, start: nat, x: nat)
    requires fmt.Valid()
  {
    forall c: nat | c < |px| ::
      SampleRead(fmt, bytes, start, x, c, px[c])
  }

  lemma OneMoreChannel(fmt: Format, px: Pixel, bytes: seq<Byte>, start: nat, x: nat, sample: nat)
    requires fmt.Valid() && ChannelsLoaded(fmt, px, bytes, start, x)
    requires SampleRead(fmt, bytes, start, x, |px|, sample)
    ensures ChannelsLoaded(fmt, px + [sample], bytes, start, x)
  {
    hide SampleRead;
  }

  ghost predicate RowsLoaded(fmt: Format, rows: seq<seq<Pixel>>, w: nat, stride: nat, bytes: seq<Byte>)
    requires fmt.Valid()
  {
    forall y: nat | y < |rows| ::
      |rows[y]| == w && forall x: nat | x < w :: PixelLoaded(fmt, rows[y][x], bytes, y * stride, x)
  }

  lemma LoadedRows(fmt: Format, img: Image<Pixel>, stride: nat, bytes: seq<Byte>)
    requires fmt.Valid() && |img.rows| == img.height && RowsLoaded(fmt, img.rows, img.width, stride, bytes)
    ensures Loaded(fmt, img, stride, bytes)
  {
    hide SampleRead;
    assert img.Valid();
    forall x: nat, y: nat | img.Inside(x, y) ensures PixelLoaded(fmt, img.At(x, y), bytes, y * stride, x) {
      assert PixelLoaded(fmt, img.rows[y][x], bytes, y * stride, x);
    }
    hide RowsLoaded;
  }

  method MakeRow(fmt: Format, bytes: seq<Byte>, start: nat, width: nat) returns (row: seq<Pixel>)
    requires fmt.Valid() && start + width * fmt.channels * fmt.sampleSize <= |bytes|
    ensures |row| == width && forall x: nat | x < width :: PixelLoaded(fmt, row[x], bytes, start, x)
  {
    row := [];
    for x := 0 to width
      invariant |row| == x && forall i: nat | i < x :: PixelLoaded(fmt, row[i], bytes, start, i)
    {
      hide PixelLoaded;
      var px := MakePixel(fmt, bytes, start, width, x);
      row := row + [px];
    }
  }

  method MakePixel(fmt: Format, bytes: seq<Byte>, start: nat, width: nat, x: nat) returns (px: Pixel)
    requires fmt.Valid() && x < width && start + width * fmt.channels * fmt.sampleSize <= |bytes|
    ensures PixelLoaded(fmt, px, bytes, start, x)
  {
    px := [];
    for c := 0 to fmt.channels
      invariant |px| == c && ChannelsLoaded(fmt, px, bytes, start, x)
    {
      hide ChannelsLoaded;
      SampleInside(x, c, width, fmt.channels, fmt.sampleSize);
      hide ReadSample, SampleBytes;
      var sample := MakeSample(fmt, bytes, start, x * fmt.channels + c);
      assert SampleRead(fmt, bytes, start, x, c, sample);
      OneMoreChannel(fmt, px, bytes, start, x, sample);
      px := px + [sample];
    }
  }

  /** One sample: the host's own representation, or two bytes with the low one first. */
  method MakeSample(fmt: Format, bytes: seq<Byte>, start: nat, k: nat) returns (sample: nat)
    requires fmt.Valid() && SampleWithin(fmt, bytes, start, k)
    ensures sample == ReadSample(fmt, SampleBytes(fmt, bytes, start, k))
  {
    var at := start + k * fmt.sampleSize;
    if fmt.Verbatim() {
      HostOrder(fmt, 0, 0, bytes[at..at + fmt.sampleSize]);
      sample := HostValue(fmt, bytes[at..at + fmt.sampleSize]);
    } else {
      var high: nat := bytes[at + 1];
      sample := bytes[at] + 256 * high;
    }
  }

  lemma SampleInside(x: nat, c: nat, width: nat, channels: nat, size: nat)
    requires x < width && c < channels
    ensures (x * channels + c) * size + size <= width * channels * size
  {
    CellIndex(c, x, channels, width);
    assert channels * width == width * channels;
    MulOrder(size, x * channels + c, width * channels);
    assert size * (x * channels + c) == (x * channels + c) * size;
    assert size * (width * channels) == width * channels * size;
  }
}
