/** Pixel buffers in the layout of Go's image.RGBA: a rectangle of points,
    stored row by row, four bytes (red, green, blue, alpha) per point. */
module Pixels {

  /** One 8-bit channel value. */
  type byte = bv8

  /** The alpha value of a fully opaque pixel. */
  const Opaque: byte := 255

  /** Go's image.Rectangle: Min is inclusive, Max is exclusive. */
  datatype Rect = Rect(minX: int, minY: int, maxX: int, maxY: int) {

    predicate WellFormed() {
      minX <= maxX && minY <= maxY
    }

    function Dx(): int {
      maxX - minX
    }

    function Dy(): int {
      maxY - minY
    }

    predicate Contains(x: int, y: int) {
      minX <= x < maxX && minY <= y < maxY
    }

    /** The position of point (x, y) when the rectangle is read row by row. */
    function Index(x: int, y: int): int {
      (y - minY) * Dx() + (x - minX)
    }
  }

  /** The size-by-size square with its corner at the origin. */
  function Square(size: nat): Rect {
    Rect(0, 0, size, size)
  }

  /** Go's color.RGBA. */
  datatype Color = Color(r: byte, g: byte, b: byte, a: byte)

  /** Byte j (0 = red … 3 = alpha) of a colour. */
  function Channel(c: Color, j: int): byte {
    if j == 0 then c.r else if j == 1 then c.g else if j == 2 then c.b else c.a
  }

  /** Pixel k of a buffer: its four bytes starting at 4k. */
  function Pixel(p: seq<byte>, k: int): Color
    requires 0 <= k && 4 * k + 4 <= |p|
  {
    Color(p[4 * k], p[4 * k + 1], p[4 * k + 2], p[4 * k + 3])
  }

  /** The buffer holding the given pixels in order, four bytes each. */
  function Encode(colors: seq<Color>): (p: seq<byte>)
    ensures |p| == 4 * |colors|
    ensures forall k :: 0 <= k < |colors| ==> Pixel(p, k) == colors[k]
    decreases |colors|
  {
    if |colors| == 0 then []
    else
      var c := colors[0];
      var rest := Encode(colors[1..]);
      var p := [c.r, c.g, c.b, c.a] + rest;
      assert forall k :: 1 <= k < |colors| ==> Pixel(p, k) == Pixel(rest, k - 1);
      p
  }

  /** Buffers that hold the same pixels are equal. */
  lemma PixelsDetermineBuffer(p: seq<byte>, q: seq<byte>)
    requires |p| == |q| && |p| % 4 == 0
    requires forall k :: 0 <= k && 4 * k + 4 <= |p| ==> Pixel(p, k) == Pixel(q, k)
    ensures p == q
  {
    forall i | 0 <= i < |p|
      ensures p[i] == q[i]
    {
      var k := i / 4;
      QuadSplit(k, i % 4);
      assert Pixel(p, k) == Pixel(q, k);
    }
  }

  /** Byte i of a pixel buffer is an alpha byte exactly when i % 4 == 3. */
  predicate IsAlpha(i: int) {
    i % 4 == 3
  }

  /** Every alpha byte of the buffer is opaque. */
  predicate AllOpaque(p: seq<byte>) {
    forall i :: 0 <= i < |p| && IsAlpha(i) ==> p[i] == Opaque
  }

  /** A buffer is opaque exactly when each of its pixels is. */
  lemma AllOpaquePixels(p: seq<byte>)
    requires |p| % 4 == 0
    ensures AllOpaque(p) <==> forall k :: 0 <= k && 4 * k + 4 <= |p| ==> Pixel(p, k).a == Opaque
  {
    if AllOpaque(p) {
      forall k | 0 <= k && 4 * k + 4 <= |p|
        ensures Pixel(p, k).a == Opaque
      {
        QuadSplit(k, 3);
      }
    }
    if forall k :: 0 <= k && 4 * k + 4 <= |p| ==> Pixel(p, k).a == Opaque {
      forall i | 0 <= i < |p| && IsAlpha(i)
        ensures p[i] == Opaque
      {
        var k := i / 4;
        assert i == 4 * k + 3;
        assert Pixel(p, k).a == Opaque;
      }
    }
  }

  /** The two buffers agree on every red, green and blue byte; alpha bytes may differ. */
  predicate SameRGB(p: seq<byte>, q: seq<byte>) {
    |p| == |q| && forall i :: 0 <= i < |p| && !IsAlpha(i) ==> p[i] == q[i]
  }

  /** Go's image.RGBA: the bounds and the flat pixel bytes, with Stride = 4 * Dx. */
  datatype Image = Image(rect: Rect, pix: seq<byte>) {

    predicate Valid() {
      rect.WellFormed() && |pix| == 4 * (rect.Dx() * rect.Dy())
    }

    function Stride(): int {
      4 * rect.Dx()
    }

    /** Go's RGBA.PixOffset: where the four bytes of point (x, y) start. */
    function PixOffset(x: int, y: int): int {
      (y - rect.minY) * Stride() + (x - rect.minX) * 4
    }

    /** Go's RGBA.RGBAAt: the colour of a point, transparent black outside the bounds. */
    function At(x: int, y: int): Color
      requires Valid()
    {
      if !rect.Contains(x, y) then Color(0, 0, 0, 0)
      else
        PixOffsetInBounds(this, x, y);
        var i := PixOffset(x, y);
        Color(pix[i], pix[i + 1], pix[i + 2], pix[i + 3])
    }

    /** Go's RGBA.Set with a color.RGBA: a point outside the bounds is ignored;
        otherwise exactly that point's four bytes are replaced. */
    function Set(x: int, y: int, c: Color): (r: Image)
      requires Valid()
      ensures r.Valid() && r.rect == rect
      ensures rect.Contains(x, y) ==> r.At(x, y) == c
      ensures !rect.Contains(x, y) ==> r == this
    {
      if !rect.Contains(x, y) then this
      else
        PixOffsetInBounds(this, x, y);
        Image(rect, Overwrite(pix, PixOffset(x, y), c))
    }
  }

  /** The buffer with the four bytes starting at i replaced by the channels of c. */
  function Overwrite(p: seq<byte>, i: int, c: Color): (q: seq<byte>)
    requires 0 <= i && i + 4 <= |p|
    ensures |q| == |p|
    ensures forall k :: 0 <= k < |p| ==> q[k] == if i <= k < i + 4 then Channel(c, k - i) else p[k]
  {
    p[..i] + [c.r, c.g, c.b, c.a] + p[i + 4..]
  }

  /** Set changes nothing but the written point: every other point keeps its
      colour, and every byte outside the point's four keeps its value. */
  lemma SetFrame(img: Image, x: int, y: int, c: Color)
    requires img.Valid()
    ensures forall xx, yy :: (xx, yy) != (x, y) ==> img.Set(x, y, c).At(xx, yy) == img.At(xx, yy)
    ensures forall i :: 0 <= i < |img.pix| && !(img.rect.Contains(x, y) && img.PixOffset(x, y) <= i < img.PixOffset(x, y) + 4) ==>
              img.Set(x, y, c).pix[i] == img.pix[i]
  {
    if img.rect.Contains(x, y) {
      PixOffsetInBounds(img, x, y);
      SetKeepsOtherPoints(img, x, y, c, img.Set(x, y, c));
    }
  }

  lemma SetKeepsOtherPoints(img: Image, x: int, y: int, c: Color, r: Image)
    requires img.Valid() && img.rect.Contains(x, y)
    requires 0 <= img.PixOffset(x, y) && img.PixOffset(x, y) + 4 <= |img.pix|
    requires r == Image(img.rect, Overwrite(img.pix, img.PixOffset(x, y), c))
    ensures forall xx, yy :: (xx, yy) != (x, y) ==> r.At(xx, yy) == img.At(xx, yy)
  {
    forall xx, yy | (xx, yy) != (x, y) && img.rect.Contains(xx, yy)
      ensures r.At(xx, yy) == img.At(xx, yy)
    {
      PixOffsetsApart(img, x, y, xx, yy);
      PixOffsetInBounds(img, xx, yy);
    }
  }

  /** The two buffers have the same length and agree on their first n bytes. */
  predicate AgreeBelow(p: seq<byte>, q: seq<byte>, n: int) {
    |p| == |q| && forall i :: 0 <= i < |p| && i < n ==> p[i] == q[i]
  }

  /** The colour of a point is read from the four bytes at four times its index. */
  lemma AtIndex(img: Image, x: int, y: int, k: int)
    requires img.Valid() && img.rect.Contains(x, y) && k == img.rect.Index(x, y)
    ensures 0 <= 4 * k && 4 * k + 4 <= |img.pix|
    ensures img.At(x, y) == Pixel(img.pix, k)
  {
    PixOffsetIsIndex(img, x, y);
    PixOffsetInBounds(img, x, y);
  }

  /** Agreement on a prefix at least as long as the buffers is equality. */
  lemma AgreeEverywhere(p: seq<byte>, q: seq<byte>, n: int)
    requires AgreeBelow(p, q, n) && |p| <= n
    ensures p == q
  {
  }

  /** Writing the pixel of point (x, y) with the colour an image spec holds there
      extends a row-major prefix on which the buffer agrees with spec by one pixel. */
  lemma SetExtendsPrefix(img: Image, spec: Image, x: int, y: int, c: Color)
    requires img.Valid() && spec.Valid() && spec.rect == img.rect && img.rect.Contains(x, y)
    requires AgreeBelow(img.pix, spec.pix, 4 * img.rect.Index(x, y))
    requires spec.At(x, y) == c
    ensures AgreeBelow(img.Set(x, y, c).pix, spec.pix, 4 * img.rect.Index(x, y) + 4)
  {
    PixOffsetIsIndex(img, x, y);
    PixOffsetIsIndex(spec, x, y);
    PixOffsetInBounds(img, x, y);
    var o := img.PixOffset(x, y);
    var r := img.Set(x, y, c);
    SetFrame(img, x, y, c);
    assert r.At(x, y) == c;
    assert r.pix[o] == c.r && r.pix[o + 1] == c.g && r.pix[o + 2] == c.b && r.pix[o + 3] == c.a;
    assert spec.pix[o] == c.r && spec.pix[o + 1] == c.g && spec.pix[o + 2] == c.b && spec.pix[o + 3] == c.a;
  }

  /** Go's image.NewRGBA: a zero-filled buffer for the given bounds. */
  function NewImage(r: Rect): (img: Image)
    requires r.WellFormed()
    ensures img.Valid() && img.rect == r
    ensures forall i :: 0 <= i < |img.pix| ==> img.pix[i] == 0
  {
    Image(r, seq(4 * (r.Dx() * r.Dy()), _ => 0))
  }

  /** Byte 4k + j of a buffer is channel j of pixel k. */
  lemma QuadSplit(k: int, j: int)
    requires 0 <= j < 4
    ensures (4 * k + j) / 4 == k && (4 * k + j) % 4 == j
  {
  }

  /** Row-major positions are ordered lexicographically by (row, column). */
  lemma RowMajorLess(w: int, row1: int, col1: int, row2: int, col2: int)
    requires 0 <= col1 < w && 0 <= col2 < w
    ensures row1 * w + col1 < row2 * w + col2 <==> row1 < row2 || (row1 == row2 && col1 < col2)
  {
    if row1 < row2 {
      MulMonotone(row1 + 1, row2, w);
      assert (row1 + 1) * w == row1 * w + w;
    } else if row2 < row1 {
      MulMonotone(row2 + 1, row1, w);
      assert (row2 + 1) * w == row2 * w + w;
    }
  }

  lemma MulMonotone(a: int, b: int, w: int)
    requires a <= b && 0 <= w
    ensures a * w <= b * w
  {
    assert b * w - a * w == (b - a) * w;
  }

  /** A row-major position determines its row and column. */
  lemma RowMajorDivMod(w: int, row: int, col: int)
    requires 0 <= col < w
    ensures (row * w + col) / w == row && (row * w + col) % w == col
  {
    var k := row * w + col;
    var q, m := k / w, k % w;
    assert k == q * w + m;
    RowMajorLess(w, row, col, q, m);
    RowMajorLess(w, q, m, row, col);
  }

  /** Every position below w * h is row-major for some row below h and column below w. */
  lemma RowMajorSplit(w: int, h: int, k: int)
    requires 0 <= w && 0 <= h && 0 <= k < w * h
    ensures 0 < w && 0 <= k / w < h && 0 <= k % w < w
  {
    assert k == (k / w) * w + k % w;
    RowMajorLess(w, k / w, k % w, h, 0);
    if k / w < 0 {
      RowMajorLess(w, k / w, k % w, 0, 0);
    }
  }

  /** The index of a point inside the bounds is below Dx * Dy. */
  lemma IndexInRange(r: Rect, x: int, y: int)
    requires r.WellFormed() && r.Contains(x, y)
    ensures 0 <= r.Index(x, y) < r.Dx() * r.Dy()
  {
    RowMajorLess(r.Dx(), y - r.minY, x - r.minX, r.Dy(), 0);
    RowMajorLess(r.Dx(), 0, 0, y - r.minY, x - r.minX);
  }

  /** PixOffset is four times the point's row-major index. */
  lemma PixOffsetIsIndex(img: Image, x: int, y: int)
    ensures img.PixOffset(x, y) == 4 * img.rect.Index(x, y)
  {
    assert (y - img.rect.minY) * (4 * img.rect.Dx()) == 4 * ((y - img.rect.minY) * img.rect.Dx());
  }

  lemma PixOffsetInBounds(img: Image, x: int, y: int)
    requires img.Valid() && img.rect.Contains(x, y)
    ensures 0 <= img.PixOffset(x, y) && img.PixOffset(x, y) + 4 <= |img.pix|
  {
    PixOffsetIsIndex(img, x, y);
    IndexInRange(img.rect, x, y);
  }

  /** The four-byte slots of two different points do not overlap. */
  lemma PixOffsetsApart(img: Image, x1: int, y1: int, x2: int, y2: int)
    requires img.rect.Contains(x1, y1) && img.rect.Contains(x2, y2) && (x1, y1) != (x2, y2)
    ensures img.PixOffset(x1, y1) + 4 <= img.PixOffset(x2, y2) || img.PixOffset(x2, y2) + 4 <= img.PixOffset(x1, y1)
  {
    PixOffsetIsIndex(img, x1, y1);
    PixOffsetIsIndex(img, x2, y2);
    var w := img.rect.Dx();
    RowMajorLess(w, y1 - img.rect.minY, x1 - img.rect.minX, y2 - img.rect.minY, x2 - img.rect.minX);
    RowMajorLess(w, y2 - img.rect.minY, x2 - img.rect.minX, y1 - img.rect.minY, x1 - img.rect.minX);
  }
}
