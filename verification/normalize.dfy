/** The loader's normalisation step: a decoded image of any colour model is
    copied into an 8-bit RGBA buffer with the same bounds, keeping the top
    byte of each 16-bit colour channel and making every pixel opaque. */
module Normalize {
  import opened Pixels

  /** The four 16-bit values Go's color.Color.RGBA reports for one point. */
  datatype Rgba64 = Rgba64(r: bv16, g: bv16, b: bv16, a: bv16)

  /** A decoded image as the loader sees it: its bounds and, row by row,
      the 16-bit channels of every point. */
  datatype Source = Source(bounds: Rect, rows: seq<seq<Rgba64>>) {

    predicate Valid() {
      && bounds.WellFormed()
      && |rows| == bounds.Dy()
      && forall j :: 0 <= j < |rows| ==> |rows[j]| == bounds.Dx()
    }

    /** The 16-bit channels Go reports for a point inside the bounds. */
    function At(x: int, y: int): Rgba64
      requires Valid() && bounds.Contains(x, y)
    {
      rows[y - bounds.minY][x - bounds.minX]
    }
  }

  /** The top byte of a 16-bit channel: a right shift by 8, truncated to 8 bits. */
  function Top8(c: bv16): (r: byte)
    ensures r as int == c as int / 256
  {
    (c >> 8) as byte
  }

  /** The 8-bit pixel stored for one source point: the top byte of each colour
      channel, the source alpha dropped and replaced by opaque. */
  function ToColor(c: Rgba64): (p: Color)
    ensures p.r as int == c.r as int / 256 && p.g as int == c.g as int / 256 && p.b as int == c.b as int / 256
    ensures p.a == Opaque
  {
    Color(Top8(c.r), Top8(c.g), Top8(c.b), Opaque)
  }

  /** The source point whose pixel holds the k-th four bytes of the buffer. */
  function PointAt(src: Source, k: int): Rgba64
    requires src.Valid() && 0 <= k < src.bounds.Dx() * src.bounds.Dy()
  {
    RowMajorSplit(src.bounds.Dx(), src.bounds.Dy(), k);
    src.rows[k / src.bounds.Dx()][k % src.bounds.Dx()]
  }

  /** The result of imageToRGBA: the source's bounds, and the normalised
      colour of every point in row-major order. */
  function Normalized(src: Source): (img: Image)
    requires src.Valid()
    ensures img.Valid() && img.rect == src.bounds
  {
    var n := src.bounds.Dx() * src.bounds.Dy();
    Image(src.bounds, Encode(seq(n, k requires 0 <= k < n => ToColor(PointAt(src, k)))))
  }

  /** Every point of the normalised image holds the top bytes of the source
      point's colour channels and is opaque, whatever the source alpha was. */
  lemma NormalizedAt(src: Source, x: int, y: int)
    requires src.Valid() && src.bounds.Contains(x, y)
    ensures Normalized(src).At(x, y) == ToColor(src.At(x, y))
  {
    var img := Normalized(src);
    var k := src.bounds.Index(x, y);
    IndexInRange(src.bounds, x, y);
    AtIndex(img, x, y, k);
    RowMajorDivMod(src.bounds.Dx(), y - src.bounds.minY, x - src.bounds.minX);
    assert PointAt(src, k) == src.At(x, y);
  }

  /** How Go's color.RGBA reports an 8-bit channel at 16 bits: the byte repeated. */
  function Widen(v: byte): bv16 {
    (v as bv16) | ((v as bv16) << 8)
  }

  /** Keeping the top byte undoes the widening, so 8-bit channels survive normalisation. */
  lemma Top8Widen(v: byte)
    ensures Top8(Widen(v)) == v
  {
  }

  /** An 8-bit RGBA image as a decoder hands it to the loader: each point reported
      through color.RGBA's 16-bit channels. */
  function View16(img: Image): (src: Source)
    requires img.Valid()
    ensures src.Valid() && src.bounds == img.rect
  {
    var r := img.rect;
    Source(r, seq(r.Dy(), j => seq(r.Dx(), i =>
      var c := img.At(r.minX + i, r.minY + j);
      Rgba64(Widen(c.r), Widen(c.g), Widen(c.b), Widen(c.a)))))
  }

  /** Normalising an opaque 8-bit RGBA image gives back exactly that image. */
  lemma NormalizeView16(img: Image)
    requires img.Valid() && AllOpaque(img.pix)
    ensures Normalized(View16(img)) == img
  {
    var out := Normalized(View16(img));
    AllOpaquePixels(img.pix);
    forall k | 0 <= k && 4 * k + 4 <= |img.pix|
      ensures Pixel(out.pix, k) == Pixel(img.pix, k)
    {
      NormalizeView16Pixel(img, k);
    }
    PixelsDetermineBuffer(out.pix, img.pix);
  }

  lemma NormalizeView16Pixel(img: Image, k: int)
    requires img.Valid() && 0 <= k && 4 * k + 4 <= |img.pix|
    requires Pixel(img.pix, k).a == Opaque
    ensures Pixel(Normalized(View16(img)).pix, k) == Pixel(img.pix, k)
  {
    var src := View16(img);
    var r := img.rect;
    var w := r.Dx();
    RowMajorSplit(w, r.Dy(), k);
    var x, y := r.minX + k % w, r.minY + k / w;
    assert r.Index(x, y) == k;
    AtIndex(img, x, y, k);
    var c := img.At(x, y);
    View16At(img, x, y);
    assert PointAt(src, k) == src.At(x, y);
    Top8Widen(c.r);
    Top8Widen(c.g);
    Top8Widen(c.b);
  }

  lemma View16At(img: Image, x: int, y: int)
    requires img.Valid() && img.rect.Contains(x, y)
    ensures View16(img).At(x, y)
            == Rgba64(Widen(img.At(x, y).r), Widen(img.At(x, y).g), Widen(img.At(x, y).b), Widen(img.At(x, y).a))
  {
  }

  /** imageToRGBA as the program runs it: a zero-filled buffer with the source
      bounds, filled point by point, row by row. */
  method ImageToRGBA(src: Source) returns (dst: Image)
    requires src.Valid()
    ensures dst == Normalized(src)
  {
    var bounds := src.bounds;
    dst := NewImage(bounds);
    var y := bounds.minY;
    while y < bounds.maxY
      invariant bounds.minY <= y <= bounds.maxY
      invariant dst.Valid() && dst.rect == bounds
      invariant AgreeBelow(dst.pix, Normalized(src).pix, 4 * ((y - bounds.minY) * bounds.Dx()))
    {
      dst := FillRow(src, dst, y);
      y := y + 1;
    }
    AllRowsFilled(src, dst);
  }

  lemma AllRowsFilled(src: Source, dst: Image)
    requires src.Valid() && dst.Valid() && dst.rect == src.bounds
    requires AgreeBelow(dst.pix, Normalized(src).pix, 4 * ((src.bounds.maxY - src.bounds.minY) * src.bounds.Dx()))
    ensures dst == Normalized(src)
  {
  }

  /** The inner loop of imageToRGBA: writes every point of row y. */
  method FillRow(src: Source, dst: Image, y: int) returns (out: Image)
    requires src.Valid() && src.bounds.minY <= y < src.bounds.maxY
    requires dst.Valid() && dst.rect == src.bounds
    requires AgreeBelow(dst.pix, Normalized(src).pix, 4 * ((y - src.bounds.minY) * src.bounds.Dx()))
    ensures out.Valid() && out.rect == src.bounds
    ensures AgreeBelow(out.pix, Normalized(src).pix, 4 * ((y + 1 - src.bounds.minY) * src.bounds.Dx()))
  {
    var bounds := src.bounds;
    var spec := Normalized(src);
    out := dst;
    var x := bounds.minX;
    while x < bounds.maxX
      invariant bounds.minX <= x <= bounds.maxX
      invariant out.Valid() && out.rect == bounds
      invariant AgreeBelow(out.pix, spec.pix, 4 * bounds.Index(x, y))
    {
      var c := ToColor(src.At(x, y));
      NormalizedAt(src, x, y);
      SetExtendsPrefix(out, spec, x, y, c);
      out := out.Set(x, y, c);
      x := x + 1;
    }
    assert bounds.Index(x, y) == (y - bounds.minY) * bounds.Dx() + bounds.Dx();
    assert (y - bounds.minY) * bounds.Dx() + bounds.Dx() == (y + 1 - bounds.minY) * bounds.Dx();
  }
}
