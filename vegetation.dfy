/** Vegetation detection: the HSV box test of cv2.inRange that marks green
    pixels, and the masked cv2.bitwise_and that keeps only the pixels the
    mask does not mark. */
module Vegetation {
  import opened Raster

  /** A pixel after OpenCV's 8-bit BGR-to-HSV conversion. OpenCV keeps the
      hue on 0..179; the model does not rely on that bound. */
  datatype Hsv = Hsv(h: Byte, s: Byte, v: Byte)

  /** Lower and upper corners of the green box. */
  const LowerGreen := Hsv(40, 40, 40)
  const UpperGreen := Hsv(80, 255, 255)

  /** cv2.inRange on one pixel: 255 when every channel lies in its closed
      interval, 0 otherwise. The result is binary, and an empty box marks
      nothing. */
  function InRange(p: Hsv, lo: Hsv, hi: Hsv): (m: Byte)
    ensures m == 0 || m == 255
    ensures m == 255 ==> lo.h <= hi.h && lo.s <= hi.s && lo.v <= hi.v
  {
    if lo.h <= p.h <= hi.h && lo.s <= p.s <= hi.s && lo.v <= p.v <= hi.v then 255 else 0
  }

  /** The vegetation test written out with the source's constants. */
  predicate IsGreen(p: Hsv)
  {
    40 <= p.h <= 80 && 40 <= p.s <= 255 && 40 <= p.v <= 255
  }

  /** The mask of green pixels of an HSV image: it has the image's shape, is
      binary, and marks exactly the pixels inside the green box. */
  function GreenMask(hsv: Grid<Hsv>): (mask: Grid<Byte>)
    ensures SameShape(mask, hsv)
    ensures forall i, j :: InBounds(hsv, i, j) ==>
      (mask[i][j] == 0 || mask[i][j] == 255) && (mask[i][j] == 255 <==> IsGreen(hsv[i][j]))
  {
    MapGrid(hsv, p => InRange(p, LowerGreen, UpperGreen))
  }

  /** cv2.bitwise_and on two BGR pixels, channel by channel. */
  function AndPixel(a: Bgr, b: Bgr): (r: Bgr)
  {
    Bgr(And(a.b, b.b), And(a.g, b.g), And(a.r, b.r))
  }

  /** cv2.bitwise_and(a, b, mask=m) into a freshly allocated (zero) output:
      where m is non-zero the pixel is a & b, elsewhere it stays black. */
  function MaskedAnd(a: Grid<Bgr>, b: Grid<Bgr>, m: Grid<Byte>): (r: Grid<Bgr>)
    requires SameShape(a, b) && SameShape(a, m)
  {
    seq(|a|, i requires 0 <= i < |a| =>
      seq(|a[i]|, j requires 0 <= j < |a[i]| =>
        if m[i][j] != 0 then AndPixel(a[i][j], b[i][j]) else Black))
  }

  /** The non-green copy: the image and-ed with itself under the inverted
      mask. It has the image's shape; a pixel whose mask is 255 becomes black
      and any other pixel is copied unchanged. */
  function NonGreen(image: Grid<Bgr>, mask: Grid<Byte>): (r: Grid<Bgr>)
    requires SameShape(image, mask)
    ensures SameShape(r, image)
    ensures forall i, j :: InBounds(image, i, j) ==>
      r[i][j] == if mask[i][j] == 255 then Black else image[i][j]
  {
    var notMask := NotGrid(mask);
    forall i, j | InBounds(image, i, j)
      ensures (if notMask[i][j] != 0 then AndPixel(image[i][j], image[i][j]) else Black)
        == if mask[i][j] == 255 then Black else image[i][j]
    {
      var p := image[i][j];
      assert InBounds(mask, i, j);
      AndSelf(p.b);
      AndSelf(p.g);
      AndSelf(p.r);
    }
    MaskedAnd(image, image, notMask)
  }
}
