/** Inference of the camera image's channel layout from the device's
    reported frame-buffer size, with the source's 32-bit unsigned arithmetic. */
module Layout {

  const Uint32Modulus: int := 0x1_0000_0000

  type uint32 = x: int | 0 <= x < 0x1_0000_0000

  /** Frame geometry as the device reports it once, before capture starts. */
  datatype Geometry = Geometry(width: uint32, height: uint32, bufferSize: uint32)

  /** CV_8UC4 or CV_8UC3. */
  datatype Channels = Four | Three

  datatype LayoutError =
    | DivisionByZero              // height * width wrapped to 0
    | UnsupportedRatio(quotient: nat)

  datatype Inferred = Ok(channels: Channels) | Err(error: LayoutError)

  const FrameSizeMessage: string := "Error in Frame Size"

  /** `height * width` in uint32: the product wraps modulo 2^32. */
  function PixelCount(g: Geometry): uint32 {
    (g.height * g.width) % Uint32Modulus
  }

  lemma MulMonotone(p: nat, q: nat, a: nat)
    requires p <= q
    ensures p * a <= q * a
  {
    assert q * a == p * a + (q - p) * a;
  }

  /** `k * a <= x < (k + 1) * a` is what `x / a == k` means for a > 0. */
  lemma QuotientBounds(x: nat, a: nat, k: nat)
    requires a > 0
    ensures x / a == k <==> k * a <= x < (k + 1) * a
  {
    var q, r := x / a, x % a;
    assert x == q * a + r && 0 <= r < a;
    assert (q + 1) * a == q * a + a;
    assert (k + 1) * a == k * a + a;
    if q < k {
      MulMonotone(q + 1, k, a);
    } else if q > k {
      MulMonotone(k + 1, q, a);
    }
  }

  /** The layout test of main.cpp: quotient 4 selects four channels,
      quotient 3 three channels, anything else is an error; a zero product
      is a division by zero. */
  function InferLayout(g: Geometry): (r: Inferred)
    ensures r == Err(DivisionByZero) <==> PixelCount(g) == 0
    ensures r == Ok(Four) <==>
      PixelCount(g) > 0 && 4 * PixelCount(g) <= g.bufferSize < 5 * PixelCount(g)
    ensures r == Ok(Three) <==>
      PixelCount(g) > 0 && 3 * PixelCount(g) <= g.bufferSize < 4 * PixelCount(g)
    ensures r.Err? && r.error.UnsupportedRatio? ==>
      var q := r.error.quotient;
      q != 3 && q != 4 && q * PixelCount(g) <= g.bufferSize < (q + 1) * PixelCount(g)
  {
    var area := PixelCount(g);
    if area == 0 then Err(DivisionByZero)
    else
      QuotientBounds(g.bufferSize, area, 4);
      QuotientBounds(g.bufferSize, area, 3);
      var q := g.bufferSize / area;
      QuotientBounds(g.bufferSize, area, q);
      if q == 4 then Ok(Four)
      else if q == 3 then Ok(Three)
      else Err(UnsupportedRatio(q))
  }

  /** The only effect of a failed layout test: one diagnostic line. */
  function LayoutMessages(l: Inferred): (m: seq<string>)
    ensures l.Ok? <==> m == []
    ensures l.Err? ==> m == [FrameSizeMessage]
  {
    if l.Ok? then [] else [FrameSizeMessage]
  }

  /** A buffer of exactly c bytes per pixel yields c channels for c in
      {3, 4}; any other whole ratio is refused. */
  lemma ExactBufferSelectsLayout(g: Geometry, c: nat)
    requires PixelCount(g) > 0 && g.bufferSize == PixelCount(g) * c
    ensures c == 4 ==> InferLayout(g) == Ok(Four)
    ensures c == 3 ==> InferLayout(g) == Ok(Three)
    ensures c != 3 && c != 4 ==> InferLayout(g) == Err(UnsupportedRatio(c))
  {
    QuotientBounds(g.bufferSize, PixelCount(g), c);
  }

  /** Bytes per pixel of the image `image.create` allocates. */
  function BytesPerPixel(c: Channels): nat {
    match c
    case Four => 4
    case Three => 3
  }

  /** Whether the image allocated for layout `c` (height x width pixels of
      `BytesPerPixel(c)` bytes, in plain int arithmetic) can take the
      `bufferSize` bytes the full poll is told it may write. */
  predicate ImageHolds(g: Geometry, c: Channels) {
    g.bufferSize <= BytesPerPixel(c) * (g.height * g.width)
  }

  /** When the product does not wrap, the selected image holds the frame
      buffer exactly when the buffer has no bytes beyond c per pixel; the
      truncating division accepts up to c - 1 + (c * area) more. */
  lemma ImageHoldsExactly(g: Geometry)
    requires g.height * g.width < Uint32Modulus
    requires InferLayout(g).Ok?
    ensures var c := InferLayout(g).channels;
      ImageHolds(g, c) <==> g.bufferSize == BytesPerPixel(c) * PixelCount(g)
  {
    var area := g.height * g.width;
    assert PixelCount(g) == area by {
      assert 0 <= area < Uint32Modulus;
    }
    match InferLayout(g).channels
    case Four =>
      assert 4 * area <= g.bufferSize;
    case Three =>
      assert 3 * area <= g.bufferSize;
  }

  /** Truncating division: one byte more than four per pixel still selects
      four channels once there are at least two pixels. With a single pixel
      the quotient becomes 5 and the layout is refused. */
  lemma OneSpareByteStillFour(g: Geometry)
    requires PixelCount(g) > 0 && g.bufferSize == PixelCount(g) * 4 + 1
    ensures PixelCount(g) > 1 ==> InferLayout(g) == Ok(Four)
    ensures PixelCount(g) == 1 ==> InferLayout(g) == Err(UnsupportedRatio(5))
    ensures g.height * g.width < Uint32Modulus ==> !ImageHolds(g, Four)
  {
    QuotientBounds(g.bufferSize, PixelCount(g), 4);
    QuotientBounds(g.bufferSize, PixelCount(g), 5);
    if g.height * g.width < Uint32Modulus {
      assert PixelCount(g) == g.height * g.width;
    }
  }

  /** The product wraps: a 65536 x 65536 frame makes the test divide by zero. */
  lemma WrappedProductDividesByZero(bufferSize: uint32)
    ensures InferLayout(Geometry(65536, 65536, bufferSize)) == Err(DivisionByZero)
  {
    assert 65536 * 65536 == Uint32Modulus;
  }
}
