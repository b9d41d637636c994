/** The noise generator: a square image whose pixels take their red, green
    and blue bytes, three at a time in row-major order, from a buffer of
    random bytes, and whose alpha is opaque; and the batch of generated
    images with their file names. */
module Noise {
  import opened Pixels
  import Decimal

  /** The pixel that takes its colour from the RGB triple starting at rgb[3k]. */
  function Triple(rgb: seq<byte>, k: int): Color
    requires 0 <= k && 3 * k + 3 <= |rgb|
  {
    Color(rgb[3 * k], rgb[3 * k + 1], rgb[3 * k + 2], Opaque)
  }

  /** The pixel buffer filled from RGB triples, one opaque four-byte pixel per triple. */
  function Expand(rgb: seq<byte>): (pix: seq<byte>)
    requires |rgb| % 3 == 0
    ensures 3 * |pix| == 4 * |rgb|
    ensures forall k :: 0 <= k && 3 * k + 3 <= |rgb| ==> Pixel(pix, k) == Triple(rgb, k)
    decreases |rgb|
  {
    if |rgb| == 0 then []
    else
      var rest := Expand(rgb[3..]);
      var pix := rgb[..3] + [Opaque] + rest;
      assert forall k :: 1 <= k && 3 * k + 3 <= |rgb| ==> Pixel(pix, k) == Pixel(rest, k - 1) && Triple(rgb, k) == Triple(rgb[3..], k - 1);
      pix
  }

  /** The inverse of Expand: the red, green and blue bytes of each pixel, alpha dropped. */
  function DropAlpha(pix: seq<byte>): (rgb: seq<byte>)
    requires |pix| % 4 == 0
    ensures 4 * |rgb| == 3 * |pix|
    decreases |pix|
  {
    if |pix| == 0 then [] else pix[..3] + DropAlpha(pix[4..])
  }

  /** Laying out the bytes and reading the colours back gives the same bytes:
      every random byte lands in the image exactly once, in order. */
  lemma {:induction false} DropAlphaExpand(rgb: seq<byte>)
    requires |rgb| % 3 == 0
    ensures DropAlpha(Expand(rgb)) == rgb
    decreases |rgb|
  {
    if |rgb| > 0 {
      var pix := Expand(rgb);
      assert pix == rgb[..3] + [Opaque] + Expand(rgb[3..]);
      assert pix[..3] == rgb[..3];
      assert pix[4..] == Expand(rgb[3..]);
      DropAlphaExpand(rgb[3..]);
      assert rgb == rgb[..3] + rgb[3..];
    }
  }

  /** An opaque buffer is determined by its colour bytes. */
  lemma {:induction false} ExpandDropAlpha(pix: seq<byte>)
    requires |pix| % 4 == 0 && AllOpaque(pix)
    ensures Expand(DropAlpha(pix)) == pix
    decreases |pix|
  {
    if |pix| > 0 {
      var rgb := DropAlpha(pix);
      assert rgb == pix[..3] + DropAlpha(pix[4..]);
      assert rgb[..3] == pix[..3];
      assert rgb[3..] == DropAlpha(pix[4..]);
      forall i | 0 <= i < |pix[4..]| && IsAlpha(i)
        ensures pix[4..][i] == Opaque
      {
        assert IsAlpha(i + 4);
      }
      ExpandDropAlpha(pix[4..]);
      assert IsAlpha(3);
      assert pix == pix[..3] + [Opaque] + pix[4..];
    }
  }

  /** The image generateRandomImage builds from size * size * 3 random bytes. */
  function RandomImage(size: nat, rgb: seq<byte>): (img: Image)
    requires |rgb| == size * size * 3
    ensures img.Valid() && img.rect == Square(size)
  {
    Image(Square(size), Expand(rgb))
  }

  /** Point (x, y) takes the three bytes starting at 3 * (y * size + x), which
      lie inside the random buffer, and is opaque. */
  lemma RandomImageAt(size: nat, rgb: seq<byte>, x: int, y: int)
    requires |rgb| == size * size * 3 && 0 <= x < size && 0 <= y < size
    ensures 3 * (y * size + x) + 2 < |rgb|
    ensures RandomImage(size, rgb).At(x, y)
            == Color(rgb[3 * (y * size + x)], rgb[3 * (y * size + x) + 1], rgb[3 * (y * size + x) + 2], Opaque)
  {
    var k := y * size + x;
    var n := size * size;
    assert |rgb| == 3 * n;
    RowMajorLess(size, y, x, size, 0);
    RowMajorLess(size, 0, 0, y, x);
    assert 0 <= k < n;
    var img := RandomImage(size, rgb);
    assert img.rect.Index(x, y) == k;
    AtIndex(img, x, y, k);
  }

  /** Every generated image is opaque, and its colour bytes are the random bytes in order. */
  lemma RandomImageCarriesBytes(size: nat, rgb: seq<byte>)
    requires |rgb| == size * size * 3
    ensures AllOpaque(RandomImage(size, rgb).pix)
    ensures DropAlpha(RandomImage(size, rgb).pix) == rgb
  {
    var pix := RandomImage(size, rgb).pix;
    AllOpaquePixels(pix);
    assert forall k :: 0 <= k && 4 * k + 4 <= |pix| ==> Pixel(pix, k) == Triple(rgb, k);
    DropAlphaExpand(rgb);
  }

  /** generateRandomImage as the program runs it, with the random bytes given:
      a zero-filled square buffer filled point by point while an index walks
      through the random bytes three at a time. */
  method GenerateRandomImage(size: nat, randomBytes: seq<byte>) returns (img: Image)
    requires |randomBytes| == size * size * 3
    ensures img == RandomImage(size, randomBytes)
  {
    img := NewImage(Square(size));
    var idx := 0;
    var y := 0;
    while y < size
      invariant 0 <= y <= size
      invariant img.Valid() && img.rect == Square(size)
      invariant idx == 3 * (y * size)
      invariant AgreeBelow(img.pix, RandomImage(size, randomBytes).pix, 4 * (y * size))
    {
      img, idx := FillNoiseRow(size, randomBytes, img, y, idx);
      y := y + 1;
    }
    assert img.pix == RandomImage(size, randomBytes).pix;
  }

  /** The inner loop of generateRandomImage: writes every point of row y. */
  method FillNoiseRow(size: nat, randomBytes: seq<byte>, img: Image, y: int, idx: int) returns (out: Image, idx': int)
    requires |randomBytes| == size * size * 3 && 0 <= y < size
    requires img.Valid() && img.rect == Square(size)
    requires idx == 3 * (y * size)
    requires AgreeBelow(img.pix, RandomImage(size, randomBytes).pix, 4 * (y * size))
    ensures out.Valid() && out.rect == Square(size)
    ensures idx' == 3 * ((y + 1) * size)
    ensures AgreeBelow(out.pix, RandomImage(size, randomBytes).pix, 4 * ((y + 1) * size))
  {
    ghost var spec := RandomImage(size, randomBytes).pix;
    var k := y * size;
    out, idx' := img, idx;
    var x := 0;
    while x < size
      invariant 0 <= x <= size && k == y * size + x
      invariant out.Valid() && out.rect == Square(size)
      invariant idx' == 3 * k
      invariant AgreeBelow(out.pix, spec, 4 * k)
    {
      NoiseBounds(size, randomBytes, x, y, k);
      var c := Color(randomBytes[idx'], randomBytes[idx' + 1], randomBytes[idx' + 2], Opaque);
      NoiseStep(size, randomBytes, out, x, y, k, idx', c);
      out := out.Set(x, y, c);
      idx' := idx' + 3;
      x := x + 1;
      k := k + 1;
    }
  }

  /** The triple for point (x, y) lies inside the random buffer. */
  lemma NoiseBounds(size: nat, rgb: seq<byte>, x: int, y: int, k: int)
    requires |rgb| == size * size * 3 && 0 <= x < size && 0 <= y < size && k == y * size + x
    ensures 0 <= k && 3 * k + 3 <= |rgb|
  {
    RowMajorLess(size, y, x, size, 0);
    RowMajorLess(size, 0, 0, y, x);
  }

  /** One step of the inner loop: writing point (x, y) from the triple at
      3 * (y * size + x) extends the finished prefix by that point. */
  lemma NoiseStep(size: nat, rgb: seq<byte>, img: Image, x: int, y: int, k: int, i: int, c: Color)
    requires |rgb| == size * size * 3 && 0 <= x < size && 0 <= y < size && k == y * size + x
    requires 0 <= k && i == 3 * k && i + 3 <= |rgb| && c == Color(rgb[i], rgb[i + 1], rgb[i + 2], Opaque)
    requires img.Valid() && img.rect == Square(size)
    requires AgreeBelow(img.pix, RandomImage(size, rgb).pix, 4 * k)
    ensures AgreeBelow(img.Set(x, y, c).pix, RandomImage(size, rgb).pix, 4 * (k + 1))
  {
    RandomImageAt(size, rgb, x, y);
    assert img.rect.Index(x, y) == k;
    SetExtendsPrefix(img, RandomImage(size, rgb), x, y, c);
  }

  /** The name of the i-th generated file: "k-", the decimal digits of i, then ".png". */
  function FileName(i: nat): (name: string)
    ensures |name| >= 7
    ensures name[..2] == "k-" && name[|name| - 4..] == ".png"
    ensures name[2..|name| - 4] == Decimal.Format(i)
  {
    "k-" + Decimal.Format(i) + ".png"
  }

  /** Different indices give different file names, so no generated file overwrites another. */
  lemma FileNameInjective(i: nat, j: nat)
    ensures FileName(i) == FileName(j) <==> i == j
  {
    if FileName(i) == FileName(j) {
      var s, t := FileName(i), FileName(j);
      assert s[2..|s| - 4] == Decimal.Format(i);
      assert t[2..|t| - 4] == Decimal.Format(j);
      Decimal.FormatInjective(i, j);
    }
  }

  /** The file names in creation order: k-1.png up to k-count.png, none when count <= 0. */
  function OutputNames(count: int): (names: seq<string>)
    ensures |names| == if count > 0 then count else 0
    ensures forall j :: 0 <= j < |names| ==> names[j] == FileName(j + 1)
    decreases count
  {
    if count <= 0 then [] else OutputNames(count - 1) + [FileName(count)]
  }

  /** The names of one batch are pairwise different. */
  lemma OutputNamesDistinct(count: int)
    ensures forall j, k :: 0 <= j < k < |OutputNames(count)| ==> OutputNames(count)[j] != OutputNames(count)[k]
  {
    var names := OutputNames(count);
    forall j, k | 0 <= j < k < |names|
      ensures names[j] != names[k]
    {
      FileNameInjective(j + 1, k + 1);
    }
  }

  /** One output of the generation mode: the file name and the image encoded into it. */
  datatype Generated = Generated(name: string, image: Image)

  /** saveRandomImages as the program runs it, with the random bytes of the
      i-th image given as draws[i - 1]: for i = 1 .. count, one image named
      k-i.png. */
  method SaveRandomImages(size: nat, count: int, draws: seq<seq<byte>>) returns (out: seq<Generated>)
    requires count <= |draws|
    requires forall j :: 0 <= j < |draws| ==> |draws[j]| == size * size * 3
    ensures |out| == |OutputNames(count)|
    ensures forall j :: 0 <= j < |out| ==> out[j].name == OutputNames(count)[j]
    ensures forall j :: 0 <= j < |out| ==> out[j].image == RandomImage(size, draws[j])
  {
    out := [];
    var i := 1;
    while i <= count
      invariant 1 <= i && (count >= 1 ==> i <= count + 1)
      invariant |out| == i - 1 <= |OutputNames(count)| && |out| <= |draws|
      invariant forall j :: 0 <= j < |out| ==> out[j] == Generated(FileName(j + 1), RandomImage(size, draws[j]))
    {
      var filename := FileName(i);
      var img := GenerateRandomImage(size, draws[i - 1]);
      out := out + [Generated(filename, img)];
      i := i + 1;
    }
  }
}
