/**
Channel-order conversion (api/wse/data/wse_ImageInterleaved.h, `convertChannelOrder`).

The code exchanges channels 0 and 2 whatever the two formats are called, so naming one format
twice swaps as well; the note at lines 395-397 of the header says it copies.
*/
module Channels {
  import opened Grid

  type Pixel = seq<nat>

  ghost predicate HasChannels(img: Image<Pixel>, n: nat) {
    img.Valid() && forall x: nat, y: nat | img.Inside(x, y) :: |img.At(x, y)| == n
  }

  function Swapped(px: Pixel): (r: Pixel)
    requires |px| >= 3
    ensures |r| == |px|
  {
    px[0 := px[2]][2 := px[0]]
  }

  function SwappedImage(img: Image<Pixel>, n: nat): (r: Image<Pixel>)
    requires HasChannels(img, n) && n >= 3
    ensures HasChannels(r, n) && r.SameShape(img)
  {
    Tabulate(img.width, img.height, (x: nat, y: nat) requires img.Inside(x, y) => Swapped(img.At(x, y)))
  }

  /** Converting twice restores the image. */
  lemma SwappedTwice(img: Image<Pixel>, n: nat)
    requires HasChannels(img, n) && n >= 3
    ensures SwappedImage(SwappedImage(img, n), n) == img
  {
    var twice := SwappedImage(SwappedImage(img, n), n);
    forall x: nat, y: nat | img.Inside(x, y) ensures twice.At(x, y) == img.At(x, y) {
      assert twice.At(x, y) == Swapped(Swapped(img.At(x, y)));
    }
    SameCells(twice, img);
  }

  /** A conversion is a copy exactly when channels 0 and 2 agree at every pixel, whatever the formats are called. */
  lemma ConversionCopiesIff(img: Image<Pixel>, n: nat)
    requires HasChannels(img, n) && n >= 3
    ensures SwappedImage(img, n) == img <==> forall x: nat, y: nat | img.Inside(x, y) :: img.At(x, y)[0] == img.At(x, y)[2]
  {
    var swapped := SwappedImage(img, n);
    forall x: nat, y: nat | img.Inside(x, y)
      ensures swapped.At(x, y) == img.At(x, y) <==> img.At(x, y)[0] == img.At(x, y)[2]
    {
      var px := img.At(x, y);
      assert swapped.At(x, y) == Swapped(px) && Swapped(px)[0] == px[2];
      assert px[0] == px[2] ==> Swapped(px) == px;
    }
    if forall x: nat, y: nat | img.Inside(x, y) :: img.At(x, y)[0] == img.At(x, y)[2] {
      SameCells(swapped, img);
    }
  }

  /** One red pixel of any size of format: naming its format twice does not copy it. */
  lemma ConversionChangesRed(n: nat) returns (img: Image<Pixel>)
    requires n >= 3
    ensures HasChannels(img, n) && img.width == img.height == 1
    ensures SwappedImage(img, n) != img
  {
    img := Tabulate(1, 1, (_, _) => seq(n, c => if c == 0 then 1 else 0));
    assert img.At(0, 0)[0] != img.At(0, 0)[2];
    ConversionCopiesIff(img, n);
  }

  method ConvertPixel(p: Pixel) returns (px: Pixel)
    requires |p| == 3 || |p| == 4
    ensures px == Swapped(p)
  {
    px := [p[2], p[1], p[0]];
    if |p| == 4 {
      px := px + [p[3]];
    }
  }

  method ConvertChannelOrder(source: Image<Pixel>, channels: nat) returns (r: Result<Image<Pixel>>)
    requires HasChannels(source, channels) && (channels == 3 || channels == 4)
    ensures source.width == 0 || source.height == 0 ==> r == Err(InvalidArgument)
    ensures source.width > 0 && source.height > 0 ==> r == Ok(SwappedImage(source, channels))
  {
    if source.width == 0 || source.height == 0 {
      return Err(InvalidArgument);
    }
    hide Map.Value, Image.At, Swapped, Converted, SwappedImage;
    var w, h := source.width, source.height;
    var result := new Map<Pixel>(w, h, seq(channels, _ => 0));
    ConvertedNone(source, result.Value(), channels);
    for y := 0 to h
      invariant result.Valid() && result.width == w && result.height == h
      invariant Converted(source, result.Value(), channels, 0, y)
    {
      for x := 0 to w
        invariant result.Valid() && result.width == w && result.height == h
        invariant Converted(source, result.Value(), channels, x, y)
      {
        var px := ConvertPixel(source.At(x, y));
        ghost var before := result.Value();
        result.Put(x, y, px);
        ConvertedOne(source, before, result.Value(), channels, x, y);
      }
      ConvertedRow(source, result.Value(), channels, y);
    }
    ConvertedAll(source, result.Value(), channels);
    return Ok(result.Value());
  }

  /** The rows above y and the first x pixels of row y are converted. */
  ghost predicate Converted(source: Image<Pixel>, target: Image<Pixel>, n: nat, x: nat, y: nat)
    requires HasChannels(source, n) && n >= 3 && target.Valid() && target.SameShape(source)
  {
    forall cx: nat, cy: nat | source.Inside(cx, cy) && (cy < y || (cy == y && cx < x)) ::
      target.At(cx, cy) == Swapped(source.At(cx, cy))
  }

  lemma ConvertedNone(source: Image<Pixel>, target: Image<Pixel>, n: nat)
    requires HasChannels(source, n) && n >= 3 && target.Valid() && target.SameShape(source)
    ensures Converted(source, target, n, 0, 0)
  {
  }

  lemma ConvertedOne(source: Image<Pixel>, before: Image<Pixel>, after: Image<Pixel>, n: nat, x: nat, y: nat)
    requires HasChannels(source, n) && n >= 3 && source.Inside(x, y)
    requires before.Valid() && before.SameShape(source) && after.Valid() && after.SameShape(source)
    requires Converted(source, before, n, x, y) && after.At(x, y) == Swapped(source.At(x, y))
    requires forall cx: nat, cy: nat | after.Inside(cx, cy) && (cx, cy) != (x, y) :: after.At(cx, cy) == before.At(cx, cy)
    ensures Converted(source, after, n, x + 1, y)
  {
    hide Swapped;
  }

  lemma ConvertedRow(source: Image<Pixel>, target: Image<Pixel>, n: nat, y: nat)
    requires HasChannels(source, n) && n >= 3 && target.Valid() && target.SameShape(source)
    requires Converted(source, target, n, source.width, y)
    ensures Converted(source, target, n, 0, y + 1)
  {
    hide Swapped;
  }

  lemma ConvertedAll(source: Image<Pixel>, target: Image<Pixel>, n: nat)
    requires HasChannels(source, n) && n >= 3 && target.Valid() && target.SameShape(source)
    requires Converted(source, target, n, 0, source.height)
    ensures target == SwappedImage(source, n)
  {
    hide Swapped;
    SameCells(target, SwappedImage(source, n));
  }
}
