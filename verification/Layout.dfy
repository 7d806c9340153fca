/**
Bounds of an interleaved buffer (api/wse/data/wse_ImageInterleaved.h, `isInterleavedLayoutValid`
and `interleavedRowStride`), in the wrapping arithmetic of a size_t with a given maximum.
*/
module Layout {
  import opened Grid

  /** Unsigned arithmetic: the value modulo maximum + 1. */
  function Wrap(maximum: nat, v: int): (r: nat)
    ensures r <= maximum
    ensures 0 <= v <= maximum ==> r == v
  {
    if 0 <= v <= maximum then v else v % (maximum + 1)
  }

  /** The effective row stride; zero selects the packed row. */
  function RowStride(maximum: nat, pixelBytes: nat, w: nat, rowStride: nat): nat {
    if rowStride != 0 then rowStride else Wrap(maximum, w * pixelBytes)
  }

  /** The test as the code performs it, on values of type size_t. */
  predicate LayoutValid(maximum: nat, pixelBytes: nat, w: nat, h: nat, rowStride: nat, accessible: nat)
    requires 0 < pixelBytes <= maximum && w <= maximum && h <= maximum && rowStride <= maximum && accessible <= maximum
  {
    if w == 0 || h == 0 then false
    else if w > maximum / pixelBytes then false
    else
      var packed := Wrap(maximum, w * pixelBytes);
      var stride := if rowStride != 0 then rowStride else packed;
      if stride < packed then false
      else
        PackedPositive(maximum, pixelBytes, w);
        if h > maximum / stride then false
        else
          var span := Wrap(maximum, (h - 1) * stride);
          if span > Wrap(maximum, maximum - packed) then false
          else accessible >= Wrap(maximum, span + packed)
  }

  lemma PackedPositive(maximum: nat, pixelBytes: nat, w: nat)
    requires 0 < pixelBytes && 0 < w <= maximum / pixelBytes
    ensures 0 < w * pixelBytes <= maximum && Wrap(maximum, w * pixelBytes) == w * pixelBytes
  {
    QuotientBound(maximum, pixelBytes, w);
    MulOrder(pixelBytes, 0, w);
    assert pixelBytes * w == w * pixelBytes;
  }

  /** The same test over the integers: positive extent, room in each row, and a last byte that is accessible. */
  ghost predicate LayoutFits(maximum: nat, pixelBytes: nat, w: nat, h: nat, rowStride: nat, accessible: nat) {
    var packed := w * pixelBytes;
    var stride := if rowStride != 0 then rowStride else packed;
    && w > 0 && h > 0 && packed <= maximum && stride >= packed && h * stride <= maximum
    && (h - 1) * stride + packed <= accessible
  }

  /** Once height * stride is representable, so is the end of the last row: line 182 never rejects. */
  lemma SpanNeverDecides(maximum: nat, packed: nat, stride: nat, h: nat)
    requires h > 0 && packed <= stride && h * stride <= maximum
    ensures 0 <= (h - 1) * stride <= maximum - packed
  {
    assert h * stride == (h - 1) * stride + stride;
  }

  /** The wrapping test means exactly what its unbounded reading says. */
  lemma LayoutMeaning(maximum: nat, pixelBytes: nat, w: nat, h: nat, rowStride: nat, accessible: nat)
    requires 0 < pixelBytes <= maximum && w <= maximum && h <= maximum && rowStride <= maximum && accessible <= maximum
    ensures LayoutValid(maximum, pixelBytes, w, h, rowStride, accessible)
            <==> LayoutFits(maximum, pixelBytes, w, h, rowStride, accessible)
    ensures LayoutFits(maximum, pixelBytes, w, h, rowStride, accessible) ==>
              RowStride(maximum, pixelBytes, w, rowStride) == if rowStride != 0 then rowStride else w * pixelBytes
  {
    hide Wrap;
    QuotientBound(maximum, pixelBytes, w);
    if 0 < w && 0 < h && w <= maximum / pixelBytes {
      PackedPositive(maximum, pixelBytes, w);
      var packed := w * pixelBytes;
      var stride := if rowStride != 0 then rowStride else packed;
      if stride >= packed {
        QuotientBound(maximum, stride, h);
        if h * stride <= maximum {
          SpanNeverDecides(maximum, packed, stride, h);
        }
      }
    }
  }

  /** The integers the test computes before it stops, for accepted and rejected layouts alike. */
  function Intermediates(maximum: nat, pixelBytes: nat, w: nat, h: nat, rowStride: nat): seq<int>
    requires pixelBytes > 0
  {
    if w == 0 || h == 0 || w > maximum / pixelBytes then []
    else
      var packed := w * pixelBytes;
      var stride := if rowStride != 0 then rowStride else packed;
      if stride < packed || stride == 0 || h > maximum / stride then [packed]
      else
        var span := (h - 1) * stride;
        [packed, h - 1, span, maximum - packed] + if span > maximum - packed then [] else [span + packed]
  }

  /** Whatever the input, no operation of the test wraps. */
  lemma NothingWraps(maximum: nat, pixelBytes: nat, w: nat, h: nat, rowStride: nat)
    requires 0 < pixelBytes <= maximum && w <= maximum && h <= maximum && rowStride <= maximum
    ensures forall v | v in Intermediates(maximum, pixelBytes, w, h, rowStride) :: 0 <= v <= maximum && Wrap(maximum, v) == v
  {
    if 0 < w && 0 < h && w <= maximum / pixelBytes {
      PackedPositive(maximum, pixelBytes, w);
      var packed := w * pixelBytes;
      var stride := if rowStride != 0 then rowStride else packed;
      if stride >= packed && h <= maximum / stride {
        QuotientBound(maximum, stride, h);
        SpanNeverDecides(maximum, packed, stride, h);
      }
    }
  }

  /** Every byte the copy loops touch lies inside the accessible buffer, and no row offset wraps. */
  lemma RowsInside(maximum: nat, pixelBytes: nat, w: nat, h: nat, rowStride: nat, accessible: nat, y: nat, i: nat)
    requires LayoutFits(maximum, pixelBytes, w, h, rowStride, accessible)
    requires y < h && i < w * pixelBytes && accessible <= maximum
    ensures var stride := if rowStride != 0 then rowStride else w * pixelBytes;
            y * stride + i < accessible && y * stride <= maximum
  {
    var stride := if rowStride != 0 then rowStride else w * pixelBytes;
    MulOrder(stride, y, h - 1);
    assert stride * y == y * stride && stride * (h - 1) == (h - 1) * stride;
  }
}
