/** zoom_and_crop: a centred window of size (w / zoom, h / zoom) is cut out
    of the frame and resized back to the frame's size. */
module Zoom {
  import opened Raster

  /** The zoom factor num / den, a positive rational. */
  datatype Factor = Factor(num: nat, den: nat)

  /** Zoom factors the crop handles: at least 1, so the window fits inside
      the frame. */
  predicate AtLeastOne(z: Factor)
  {
    0 < z.den <= z.num
  }

  /** int(n / zoom): for positive values truncation is the floor, so the
      result is the largest m with m * zoom <= n. */
  function CropSize(n: nat, z: Factor): (m: nat)
    requires AtLeastOne(z)
    ensures m * z.num <= n * z.den < (m + 1) * z.num
  {
    QuotientBounds(n * z.den, z.num);
    (n * z.den) / z.num
  }

  /** Zooming in never asks for more pixels than the frame has. */
  lemma CropSizeAtMost(n: nat, z: Factor)
    requires AtLeastOne(z)
    ensures CropSize(n, z) <= n
  {
  }

  /** Zoom 1 keeps the whole extent. */
  lemma CropSizeUnit(n: nat, z: Factor)
    requires AtLeastOne(z) && z.num == z.den
    ensures CropSize(n, z) == n
  {
  }

  /** The floor quotient q of x by d satisfies q * d <= x < q * d + d. */
  lemma QuotientBounds(x: nat, d: nat)
    requires 0 < d
    ensures (x / d) * d <= x < (x / d) * d + d
  {
  }

  /** A crop window: the rows y .. y + height and the columns x .. x + width. */
  datatype Window = Window(x: int, y: int, width: nat, height: nat)

  /** The crop window of a w-by-h frame, centred with floor division. */
  function CropWindow(w: nat, h: nat, z: Factor): (win: Window)
    requires AtLeastOne(z)
    ensures win.width == CropSize(w, z) && win.height == CropSize(h, z)
    ensures 0 <= win.x && win.x + win.width <= w
    ensures 0 <= win.y && win.y + win.height <= h
    ensures win.x == (w - win.width) / 2 && win.y == (h - win.height) / 2
    ensures w - win.x - win.width == win.x || w - win.x - win.width == win.x + 1
    ensures h - win.y - win.height == win.y || h - win.y - win.height == win.y + 1
  {
    var newW := CropSize(w, z);
    var newH := CropSize(h, z);
    CropSizeAtMost(w, z);
    CropSizeAtMost(h, z);
    Window((w - newW) / 2, (h - newH) / 2, newW, newH)
  }

  /** With zoom 1 the window is the whole frame. */
  lemma CropWindowUnit(w: nat, h: nat, z: Factor)
    requires AtLeastOne(z) && z.num == z.den
    ensures CropWindow(w, h, z) == Window(0, 0, w, h)
  {
    CropSizeUnit(w, z);
    CropSizeUnit(h, z);
  }

  /** image[y : y + height, x : x + width] for a window inside the frame. */
  function Crop<T>(image: Grid<T>, h: nat, w: nat, win: Window): (r: Grid<T>)
    requires Rect(image, h, w)
    requires 0 <= win.x && win.x + win.width <= w && 0 <= win.y && win.y + win.height <= h
    ensures Rect(r, win.height, win.width)
    ensures forall i, j :: 0 <= i < win.height && 0 <= j < win.width ==> r[i][j] == image[win.y + i][win.x + j]
  {
    seq(win.height, i requires 0 <= i < win.height => image[win.y + i][win.x .. win.x + win.width])
  }

  /** Cropping to the whole frame gives the frame back. */
  lemma CropWhole<T>(image: Grid<T>, h: nat, w: nat)
    requires Rect(image, h, w)
    ensures Crop(image, h, w, Window(0, 0, w, h)) == image
  {
    GridExt(Crop(image, h, w, Window(0, 0, w, h)), image);
  }

  /** cv2.resize(src, (w, h)): every output pixel is drawn from the source by
      the interpolation kernel sample (opaque here), so only the output shape
      is fixed. */
  function Resize<T>(src: Grid<T>, w: nat, h: nat, sample: (Grid<T>, nat, nat, nat, nat) -> T): (r: Grid<T>)
    ensures Rect(r, h, w)
  {
    seq(h, i requires 0 <= i < h => seq(w, j requires 0 <= j < w => sample(src, h, w, i, j)))
  }

  /** zoom_and_crop on an h-by-w frame. The window must hold at least one
      pixel, as cv2.resize fails on an empty source. */
  function ZoomAndCrop<T>(image: Grid<T>, h: nat, w: nat, z: Factor,
                          sample: (Grid<T>, nat, nat, nat, nat) -> T): (r: Grid<T>)
    requires Rect(image, h, w) && AtLeastOne(z)
    requires CropSize(w, z) >= 1 && CropSize(h, z) >= 1
    ensures Rect(r, h, w)
  {
    Resize(Crop(image, h, w, CropWindow(w, h, z)), w, h, sample)
  }

  /** What is resized is a window of CropSize(h) rows of CropSize(w) pixels
      of the frame, read from the centred start. */
  lemma ZoomAndCropSpec<T>(image: Grid<T>, h: nat, w: nat, z: Factor,
                           sample: (Grid<T>, nat, nat, nat, nat) -> T)
    requires Rect(image, h, w) && AtLeastOne(z)
    requires CropSize(w, z) >= 1 && CropSize(h, z) >= 1
    ensures Rect(Crop(image, h, w, CropWindow(w, h, z)), CropSize(h, z), CropSize(w, z))
    ensures forall i, j :: 0 <= i < CropSize(h, z) && 0 <= j < CropSize(w, z) ==>
      Crop(image, h, w, CropWindow(w, h, z))[i][j] ==
        image[(h - CropSize(h, z)) / 2 + i][(w - CropSize(w, z)) / 2 + j]
  {
  }

  /** With zoom 1 the resize sees the whole, uncropped frame. */
  lemma ZoomUnit<T>(image: Grid<T>, h: nat, w: nat, z: Factor,
                    sample: (Grid<T>, nat, nat, nat, nat) -> T)
    requires Rect(image, h, w) && AtLeastOne(z) && z.num == z.den
    requires CropSize(w, z) >= 1 && CropSize(h, z) >= 1
    ensures ZoomAndCrop(image, h, w, z, sample) == Resize(image, w, h, sample)
  {
    CropWindowUnit(w, h, z);
    CropWhole(image, h, w);
  }
}
