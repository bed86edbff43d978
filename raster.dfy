/** Shared vocabulary of the pipeline: 8-bit samples, images as rows of
    pixels, the optional result of decoding a file, the two bitwise
    operations OpenCV applies to uint8 data, and the view of a 2-D byte
    buffer as an image. */
module Raster {

  /** An 8-bit unsigned sample (numpy uint8). */
  type Byte = x: int | 0 <= x < 256

  /** The result of a step that may produce nothing (cv2.imread gives None). */
  datatype Option<T> = None | Some(value: T)

  /** An image: a sequence of rows, each a sequence of pixels. */
  type Grid<T> = seq<seq<T>>

  /** A colour pixel in OpenCV's BGR channel order. */
  datatype Bgr = Bgr(b: Byte, g: Byte, r: Byte)

  const Black := Bgr(0, 0, 0)

  /** g has exactly h rows of w pixels (a numpy array of shape (h, w)). */
  predicate Rect<T>(g: Grid<T>, h: nat, w: nat)
  {
    |g| == h && forall i :: 0 <= i < h ==> |g[i]| == w
  }

  /** a and b have the same number of rows, row for row of the same length. */
  predicate SameShape<A, B>(a: Grid<A>, b: Grid<B>)
  {
    |a| == |b| && forall i :: 0 <= i < |a| ==> |a[i]| == |b[i]|
  }

  /** (i, j) is a pixel position of g. */
  predicate InBounds<T>(g: Grid<T>, i: int, j: int)
  {
    0 <= i < |g| && 0 <= j < |g[i]|
  }

  /** Applies f to every pixel; the shape is kept. */
  function MapGrid<A, B>(g: Grid<A>, f: A -> B): (r: Grid<B>)
    ensures SameShape(r, g)
    ensures forall i, j :: InBounds(g, i, j) ==> r[i][j] == f(g[i][j])
  {
    seq(|g|, i requires 0 <= i < |g| => seq(|g[i]|, j requires 0 <= j < |g[i]| => f(g[i][j])))
  }

  /** cv2.bitwise_not on one uint8 sample. */
  function Not(v: Byte): (r: Byte)
  {
    255 - v
  }

  /** Subtracting from 255 is what bitwise_not does: it flips all eight bits
      of every 8-bit word. */
  lemma NotIsBitwise(b: bv8)
    ensures Not(b as int) == (!b) as int
  {
  }

  /** cv2.bitwise_and on two uint8 samples. */
  function And(a: Byte, b: Byte): (r: Byte)
  {
    ((a as bv8) & (b as bv8)) as int
  }

  /** cv2.bitwise_not on a single-channel image. */
  function NotGrid(g: Grid<Byte>): (r: Grid<Byte>)
    ensures SameShape(r, g)
    ensures forall i, j :: InBounds(g, i, j) ==> r[i][j] as int + g[i][j] as int == 255
  {
    MapGrid(g, Not)
  }

  /** Inversion stays a byte and reverses the order of samples. */
  lemma NotAntitone(a: Byte, b: Byte)
    requires a <= b
    ensures Not(b) <= Not(a)
  {
  }

  /** Inversion swaps black and white. */
  lemma NotSwapsExtremes()
    ensures Not(0) == 255 && Not(255) == 0
  {
  }

  /** Inverting twice gives back every sample. */
  lemma NotInvolutive(v: Byte)
    ensures Not(Not(v)) == v
  {
  }

  /** Inverting an image twice gives back the image. */
  lemma NotGridInvolutive(g: Grid<Byte>)
    ensures NotGrid(NotGrid(g)) == g
  {
    var r := NotGrid(NotGrid(g));
    assert |r| == |g|;
    forall i | 0 <= i < |g|
      ensures r[i] == g[i]
    {
      assert |r[i]| == |g[i]|;
      forall j | 0 <= j < |g[i]|
        ensures r[i][j] == g[i][j]
      {
        assert InBounds(NotGrid(g), i, j);
      }
    }
  }

  /** A sample and-ed with itself is unchanged. */
  lemma AndSelf(v: Byte)
    ensures And(v, v) == v
  {
  }

  /** The image held by a 2-D byte buffer, row by row. */
  ghost function Pixels(a: array2<Byte>): (g: Grid<Byte>)
    reads a
    ensures Rect(g, a.Length0, a.Length1)
    ensures forall i, j :: 0 <= i < a.Length0 && 0 <= j < a.Length1 ==> g[i][j] == a[i, j]
  {
    seq(a.Length0, i requires 0 <= i < a.Length0 reads a =>
      seq(a.Length1, j requires 0 <= j < a.Length1 reads a => a[i, j]))
  }

  /** Allocates a fresh buffer holding the h-by-w image g. */
  method NewBuffer(g: Grid<Byte>, h: nat, w: nat) returns (a: array2<Byte>)
    requires Rect(g, h, w)
    ensures fresh(a)
    ensures a.Length0 == h && a.Length1 == w
    ensures Pixels(a) == g
  {
    a := new Byte[h, w];
    for i := 0 to h
      invariant forall r, c :: 0 <= r < i && 0 <= c < w ==> a[r, c] == g[r][c]
    {
      for j := 0 to w
        invariant forall r, c :: 0 <= r < i && 0 <= c < w ==> a[r, c] == g[r][c]
        invariant forall c :: 0 <= c < j ==> a[i, c] == g[i][c]
      {
        a[i, j] := g[i][j];
      }
    }
    GridExt(Pixels(a), g);
  }

  /** Two images of the same shape that agree at every position are equal. */
  lemma GridExt<T>(a: Grid<T>, b: Grid<T>)
    requires SameShape(a, b)
    requires forall i, j :: InBounds(a, i, j) ==> a[i][j] == b[i][j]
    ensures a == b
  {
    forall i | 0 <= i < |a|
      ensures a[i] == b[i]
    {
      assert forall j :: 0 <= j < |a[i]| ==> InBounds(a, i, j);
    }
  }
}
