/** The XOR combiner: two normalised images of equal size are combined
    byte by byte (red, green and blue exclusive-or'ed, alpha forced opaque). */
module Xor {
  import opened Pixels
  import opened Results

  /** The dimension-mismatch error; it reports both images' width and height. */
  datatype Mismatch = Mismatch(width1: int, height1: int, width2: int, height2: int)

  predicate SameSize(a: Image, b: Image) {
    a.rect.Dx() == b.rect.Dx() && a.rect.Dy() == b.rect.Dy()
  }

  /** Byte j of the combination of buffers p and q: opaque for an alpha byte,
      the exclusive-or of the two inputs' bytes otherwise. */
  function XorByte(p: seq<byte>, q: seq<byte>, j: int): byte
    requires 0 <= j < |p| && |p| == |q|
  {
    if IsAlpha(j) then Opaque else p[j] ^ q[j]
  }

  /** The result bytes of the combining loop, one four-byte pixel per step. */
  function XorPix(p: seq<byte>, q: seq<byte>): (r: seq<byte>)
    requires |p| == |q| && |p| % 4 == 0
    ensures |r| == |p|
    ensures forall i :: 0 <= i < |r| ==> r[i] == XorByte(p, q, i)
    decreases |p|
  {
    if |p| == 0 then []
    else
      var rest := XorPix(p[4..], q[4..]);
      var r := [p[0] ^ q[0], p[1] ^ q[1], p[2] ^ q[2], Opaque] + rest;
      XorPixStep(p, q, rest, r);
      r
  }

  /** One step of the loop extends the per-byte description to one more pixel. */
  lemma XorPixStep(p: seq<byte>, q: seq<byte>, rest: seq<byte>, r: seq<byte>)
    requires |p| == |q| && |p| >= 4 && |rest| == |p| - 4
    requires forall i :: 0 <= i < |rest| ==> rest[i] == XorByte(p[4..], q[4..], i)
    requires r == [p[0] ^ q[0], p[1] ^ q[1], p[2] ^ q[2], Opaque] + rest
    ensures forall i :: 0 <= i < |r| ==> r[i] == XorByte(p, q, i)
  {
  }

  /** The combination of two images: an error when width or height differ,
      otherwise a new image with the first image's bounds. */
  function Combine(a: Image, b: Image): (r: Result<Image, Mismatch>)
    requires a.Valid() && b.Valid()
    ensures r.Failure? <==> !SameSize(a, b)
    ensures r.Failure? ==> r.error == Mismatch(a.rect.Dx(), a.rect.Dy(), b.rect.Dx(), b.rect.Dy())
    ensures r.Success? ==> r.value.Valid() && r.value.rect == a.rect && |r.value.pix| == |a.pix| == |b.pix|
    ensures r.Success? ==> AllOpaque(r.value.pix)
    ensures r.Success? ==> forall i :: 0 <= i < |a.pix| && !IsAlpha(i) ==> r.value.pix[i] == a.pix[i] ^ b.pix[i]
  {
    if a.rect.Dx() != b.rect.Dx() || a.rect.Dy() != b.rect.Dy() then
      Failure(Mismatch(a.rect.Dx(), a.rect.Dy(), b.rect.Dx(), b.rect.Dy()))
    else
      Success(Image(a.rect, XorPix(a.pix, b.pix)))
  }

  /** The dimension check and the combining loop as the program runs them. */
  method CombineLoop(a: Image, b: Image) returns (r: Result<Image, Mismatch>)
    requires a.Valid() && b.Valid()
    ensures r == Combine(a, b)
  {
    if a.rect.Dx() != b.rect.Dx() || a.rect.Dy() != b.rect.Dy() {
      return Failure(Mismatch(a.rect.Dx(), a.rect.Dy(), b.rect.Dx(), b.rect.Dy()));
    }
    var pix := XorLoop(a.pix, b.pix);
    r := Success(Image(a.rect, pix));
  }

  /** The combining loop: a zero-filled result buffer written four bytes at a
      time, red, green and blue exclusive-or'ed and alpha set opaque. */
  method XorLoop(p: seq<byte>, q: seq<byte>) returns (r: seq<byte>)
    requires |p| == |q| && |p| % 4 == 0
    ensures r == XorPix(p, q)
  {
    var n := |p|;
    r := seq(n, _ => 0);
    var i := 0;
    while i < n
      invariant 0 <= i <= n && i % 4 == 0 && |r| == n
      invariant forall j :: 0 <= j < i ==> r[j] == XorByte(p, q, j)
    {
      var r' := r[i := p[i] ^ q[i]][i + 1 := p[i + 1] ^ q[i + 1]][i + 2 := p[i + 2] ^ q[i + 2]][i + 3 := Opaque];
      XorLoopStep(p, q, r, i, r');
      r := r';
      i := i + 4;
    }
    var spec := XorPix(p, q);
    assert forall j :: 0 <= j < |spec| ==> r[j] == spec[j];
  }

  /** One pass of the combining loop extends the finished prefix by a pixel. */
  lemma XorLoopStep(p: seq<byte>, q: seq<byte>, r: seq<byte>, i: int, r': seq<byte>)
    requires |p| == |q| == |r| && 0 <= i && i + 4 <= |p| && i % 4 == 0
    requires forall j :: 0 <= j < i ==> r[j] == XorByte(p, q, j)
    requires r' == r[i := p[i] ^ q[i]][i + 1 := p[i + 1] ^ q[i + 1]][i + 2 := p[i + 2] ^ q[i + 2]][i + 3 := Opaque]
    ensures |r'| == |r|
    ensures forall j :: 0 <= j < i + 4 ==> r'[j] == XorByte(p, q, j)
  {
    var k := i / 4;
    assert i == 4 * k;
    QuadSplit(k, 0);
    QuadSplit(k, 1);
    QuadSplit(k, 2);
    QuadSplit(k, 3);
    forall j | 0 <= j < i + 4
      ensures r'[j] == XorByte(p, q, j)
    {
      if j < i {
        assert r'[j] == r[j];
      } else if j == i {
        assert r'[j] == p[i] ^ q[i];
      } else if j == i + 1 {
        assert r'[j] == p[i + 1] ^ q[i + 1];
      } else if j == i + 2 {
        assert r'[j] == p[i + 2] ^ q[i + 2];
      } else {
        assert r'[j] == Opaque;
      }
    }
  }

  /** Combining the result with the second image again gives back the first image's colours. */
  lemma CombineUndoesSecond(a: Image, b: Image)
    requires a.Valid() && b.Valid() && SameSize(a, b)
    ensures Combine(Combine(a, b).value, b).Success?
    ensures SameRGB(Combine(Combine(a, b).value, b).value.pix, a.pix)
  {
  }

  /** Combining the result with the first image gives back the second image's colours. */
  lemma CombineUndoesFirst(a: Image, b: Image)
    requires a.Valid() && b.Valid() && SameSize(a, b)
    ensures Combine(Combine(a, b).value, a).Success?
    ensures SameRGB(Combine(Combine(a, b).value, a).value.pix, b.pix)
  {
  }

  /** The order of the inputs does not matter: both orders fail or both give the same bytes. */
  lemma CombineCommutes(a: Image, b: Image)
    requires a.Valid() && b.Valid()
    ensures Combine(a, b).Success? <==> Combine(b, a).Success?
    ensures Combine(a, b).Success? ==> Combine(a, b).value.pix == Combine(b, a).value.pix
    ensures a.rect == b.rect ==> Combine(a, b) == Combine(b, a)
  {
  }

  /** An image combined with itself is black and opaque. */
  lemma CombineWithItselfIsBlack(a: Image)
    requires a.Valid()
    ensures Combine(a, a).Success?
    ensures forall i :: 0 <= i < |a.pix| ==> Combine(a, a).value.pix[i] == if IsAlpha(i) then Opaque else 0
  {
  }

  /** The inputs' alpha bytes have no effect on the result. */
  lemma CombineIgnoresAlpha(a: Image, a': Image, b: Image, b': Image)
    requires a.Valid() && b.Valid() && a'.Valid() && b'.Valid()
    requires a'.rect == a.rect && b'.rect == b.rect
    requires SameRGB(a.pix, a'.pix) && SameRGB(b.pix, b'.pix)
    ensures Combine(a, b) == Combine(a', b')
  {
    if SameSize(a, b) {
      var p, q := Combine(a, b).value.pix, Combine(a', b').value.pix;
      assert forall i :: 0 <= i < |p| ==> p[i] == q[i];
      assert p == q;
    }
  }

  /** A 10x20 and a 20x10 image are refused, and the error names both sizes. */
  lemma MismatchNamesBothSizes(a: Image, b: Image)
    requires a.Valid() && b.Valid() && a.rect.Dx() == 10 && a.rect.Dy() == 20 && b.rect.Dx() == 20 && b.rect.Dy() == 10
    ensures Combine(a, b) == Failure(Mismatch(10, 20, 20, 10))
  {
  }
}
