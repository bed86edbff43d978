/** The thermal tone mapper of simulate_bw_thermal: decode, mask the
    vegetation, grey and enhance the rest, invert, and force every masked
    pixel to black in place. */
module Thermal {
  import opened Raster
  import opened Vegetation

  /** The enhancement stages between the grey image and the inversion
      (CLAHE, gamma correction, min-max normalisation) are opaque here; all
      that is known of them is that they keep the image's shape. */
  ghost predicate ShapePreserving(enhance: Grid<Byte> -> Grid<Byte>)
  {
    forall g: Grid<Byte> :: SameShape(enhance(g), g)
  }

  /** thermal_bw[mask > 0] = 0, as a value: the image keeps its shape,
      positions whose mask is positive become 0 and all others keep their
      sample. */
  function Blackout(img: Grid<Byte>, mask: Grid<Byte>): (r: Grid<Byte>)
    requires SameShape(img, mask)
    ensures SameShape(r, img)
    ensures forall i, j :: InBounds(img, i, j) && mask[i][j] > 0 ==> r[i][j] == 0
    ensures forall i, j :: InBounds(img, i, j) && mask[i][j] == 0 ==> r[i][j] == img[i][j]
  {
    seq(|img|, i requires 0 <= i < |img| =>
      seq(|img[i]|, j requires 0 <= j < |img[i]| =>
        if mask[i][j] > 0 then 0 else img[i][j]))
  }

  /** Blacking out a second time with the same mask changes nothing. */
  lemma BlackoutIdempotent(img: Grid<Byte>, mask: Grid<Byte>)
    requires SameShape(img, mask)
    ensures Blackout(Blackout(img, mask), mask) == Blackout(img, mask)
  {
    var once := Blackout(img, mask);
    GridExt(Blackout(once, mask), once);
  }

  /** thermal_bw[mask > 0] = 0 on the buffer itself, one pixel at a time. */
  method BlackoutInPlace(a: array2<Byte>, mask: Grid<Byte>)
    requires Rect(mask, a.Length0, a.Length1)
    modifies a
    ensures Pixels(a) == Blackout(old(Pixels(a)), mask)
  {
    ghost var before := Pixels(a);
    var i := 0;
    while i < a.Length0
      invariant 0 <= i <= a.Length0
      invariant forall r, c :: 0 <= r < i && 0 <= c < a.Length1 ==>
        a[r, c] == if mask[r][c] > 0 then 0 else before[r][c]
      invariant forall r, c :: i <= r < a.Length0 && 0 <= c < a.Length1 ==> a[r, c] == before[r][c]
    {
      var j := 0;
      while j < a.Length1
        invariant 0 <= j <= a.Length1
        invariant forall r, c :: 0 <= r < i && 0 <= c < a.Length1 ==>
          a[r, c] == if mask[r][c] > 0 then 0 else before[r][c]
        invariant forall c :: 0 <= c < j ==> a[i, c] == if mask[i][c] > 0 then 0 else before[i][c]
        invariant forall r, c :: i <= r < a.Length0 && 0 <= c < a.Length1 && (r > i || c >= j) ==>
          a[r, c] == before[r][c]
      {
        if mask[i][j] > 0 {
          a[i, j] := 0;
        }
        j := j + 1;
      }
      i := i + 1;
    }
    GridExt(Pixels(a), Blackout(before, mask));
  }

  /** The image simulate_bw_thermal returns, or None when the file could not
      be decoded. toHsv and toGray are OpenCV's per-pixel colour conversions
      and enhance the CLAHE, gamma and normalisation stages. The frame exists
      exactly when the image was decoded and then has the image's shape. */
  function ThermalFrame(decoded: Option<Grid<Bgr>>, toHsv: Bgr -> Hsv, toGray: Bgr -> Byte,
                        enhance: Grid<Byte> -> Grid<Byte>): (r: Option<Grid<Byte>>)
    requires ShapePreserving(enhance)
    ensures r.Some? <==> decoded.Some?
    ensures r.Some? ==> SameShape(r.value, decoded.value)
  {
    match decoded
    case None => None
    case Some(image) =>
      var mask := GreenMask(MapGrid(image, toHsv));
      var gray := MapGrid(NonGreen(image, mask), toGray);
      var thermal := NotGrid(enhance(gray));
      Some(Blackout(thermal, mask))
  }

  /** Whatever the grey and enhancement stages produce, the decoded frame is
      0 at every pixel whose HSV value lies in the green box. */
  lemma ThermalFrameSpec(decoded: Option<Grid<Bgr>>, toHsv: Bgr -> Hsv, toGray: Bgr -> Byte,
                         enhance: Grid<Byte> -> Grid<Byte>)
    requires ShapePreserving(enhance)
    ensures decoded.Some? ==> forall i, j :: InBounds(decoded.value, i, j) && IsGreen(toHsv(decoded.value[i][j])) ==>
      ThermalFrame(decoded, toHsv, toGray, enhance).value[i][j] == 0
  {
    if decoded.Some? {
      var image := decoded.value;
      var hsv := MapGrid(image, toHsv);
      var mask := GreenMask(hsv);
      var gray := MapGrid(NonGreen(image, mask), toGray);
      var thermal := NotGrid(enhance(gray));
      assert SameShape(enhance(gray), gray);
      forall i, j | InBounds(image, i, j) && IsGreen(toHsv(image[i][j]))
        ensures Blackout(thermal, mask)[i][j] == 0
      {
        assert InBounds(hsv, i, j);
        assert InBounds(thermal, i, j);
      }
    }
  }

  /** The pixels the mask leaves alone carry the inverted enhanced grey value
      of the original pixel. */
  lemma ThermalFrameUnmasked(image: Grid<Bgr>, toHsv: Bgr -> Hsv, toGray: Bgr -> Byte,
                             enhance: Grid<Byte> -> Grid<Byte>, i: int, j: int)
    requires ShapePreserving(enhance)
    requires InBounds(image, i, j) && !IsGreen(toHsv(image[i][j]))
    ensures ThermalFrame(Some(image), toHsv, toGray, enhance).value[i][j] as int +
      enhance(MapGrid(NonGreen(image, GreenMask(MapGrid(image, toHsv))), toGray))[i][j] as int == 255
  {
    var hsv := MapGrid(image, toHsv);
    var mask := GreenMask(hsv);
    var gray := MapGrid(NonGreen(image, mask), toGray);
    assert SameShape(enhance(gray), gray);
    var thermal := NotGrid(enhance(gray));
    assert InBounds(hsv, i, j);
    assert InBounds(thermal, i, j);
  }

  /** simulate_bw_thermal: builds the inverted frame in a fresh buffer and
      blacks out the vegetation in place; None when decoding failed. */
  method SimulateBwThermal(decoded: Option<Grid<Bgr>>, h: nat, w: nat, toHsv: Bgr -> Hsv,
                           toGray: Bgr -> Byte, enhance: Grid<Byte> -> Grid<Byte>)
    returns (r: Option<array2<Byte>>)
    requires ShapePreserving(enhance)
    requires decoded.Some? ==> Rect(decoded.value, h, w)
    ensures r.Some? <==> decoded.Some?
    ensures r.Some? ==> fresh(r.value) && ThermalFrame(decoded, toHsv, toGray, enhance) == Some(Pixels(r.value))
  {
    if decoded.None? {
      return None;
    }
    var image := decoded.value;
    var mask := GreenMask(MapGrid(image, toHsv));
    var gray := MapGrid(NonGreen(image, mask), toGray);
    var enhanced := enhance(gray);
    assert SameShape(enhanced, gray);
    var thermal := NewBuffer(NotGrid(enhanced), h, w);
    BlackoutInPlace(thermal, mask);
    return Some(thermal);
  }
}
