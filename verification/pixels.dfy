/** The pixel buffer: a width-by-height grid of 24-bit colours, its construction
    and the single-pixel write that every drawing operation goes through. */
module Pixels {
  import opened Bytes

  /** Three independent 8-bit channels, compared by value. */
  datatype Color = Color(r: Byte, g: Byte, b: Byte)

  /** The background used when the caller gives none. */
  const White: Color := Color(255, 255, 255)

  /** The conditions under which the library aborts on a failed assertion. */
  datatype Error =
    | InvalidDimension  // width or height not positive at construction
    | OutOfRange        // coordinate outside the grid where no clipping is asked for

  datatype Result<+T> = Success(value: T) | Failure(error: Error)

  /** A grid point; coordinates are unbounded and may lie outside any image. */
  datatype Point = Point(x: int, y: int)

  function Abs(v: int): int {
    if v < 0 then -v else v
  }

  /** Row-major grid: cells[y][x] is the colour at column x of row y, row 0 on top. */
  datatype Image = Image(w: int, h: int, cells: seq<seq<Color>>) {

    predicate Valid() {
      && w > 0
      && h > 0
      && |cells| == h
      && forall y :: 0 <= y < |cells| ==> |cells[y]| == w
    }

    predicate InRange(x: int, y: int) {
      0 <= x < w && 0 <= y < h
    }

    function At(x: int, y: int): Color
      requires Valid() && InRange(x, y)
    {
      cells[y][x]
    }
  }

  /** Two valid images of the same dimensions. */
  predicate SameShape(a: Image, b: Image) {
    a.Valid() && b.Valid() && a.w == b.w && a.h == b.h
  }

  /** A new image of the given size with every cell set to the background colour;
      non-positive dimensions are the construction-time assertion failure. */
  function Create(w: int, h: int, background: Color): (r: Result<Image>)
    ensures r.Failure? <==> w <= 0 || h <= 0
    ensures r.Failure? ==> r.error == InvalidDimension
    ensures r.Success? ==> r.value.Valid() && r.value.w == w && r.value.h == h
    ensures r.Success? ==> forall x, y :: r.value.InRange(x, y) ==> r.value.At(x, y) == background
  {
    if w <= 0 || h <= 0 then Failure(InvalidDimension)
    else Success(Image(w, h, seq(h, _ => seq(w, _ => background))))
  }

  /** The constructors that take no background colour fill the image with white. */
  function CreateDefault(w: int, h: int): (r: Result<Image>)
    ensures r.Failure? <==> w <= 0 || h <= 0
    ensures r.Success? ==> r.value.Valid() && r.value.w == w && r.value.h == h
    ensures r.Success? ==> forall x, y :: r.value.InRange(x, y) ==> r.value.At(x, y) == Color(255, 255, 255)
  {
    Create(w, h, White)
  }

  /** Writes colour c at (x, y). Out of range, the write is dropped when ignoreErr
      is set and is an assertion failure otherwise. */
  function SetPixel(img: Image, x: int, y: int, c: Color, ignoreErr: bool): (r: Result<Image>)
    requires img.Valid()
    ensures r.Failure? <==> !ignoreErr && !img.InRange(x, y)
    ensures r.Failure? ==> r.error == OutOfRange
    ensures r.Success? ==> SameShape(img, r.value)
    ensures r.Success? && !img.InRange(x, y) ==> r.value == img
    ensures r.Success? ==> forall i, j :: img.InRange(i, j) ==>
      r.value.At(i, j) == if i == x && j == y then c else img.At(i, j)
  {
    if ignoreErr && !img.InRange(x, y) then Success(img)
    else if !img.InRange(x, y) then Failure(OutOfRange)
    else Success(img.(cells := img.cells[y := img.cells[y][x := c]]))
  }

  /** Clipped writes of c at every point of pts, in order: what the rasterisers do
      with the points they compute. */
  function Plot(img: Image, pts: seq<Point>, c: Color): (r: Image)
    requires img.Valid()
    ensures SameShape(img, r)
    ensures forall i, j :: img.InRange(i, j) ==>
      r.At(i, j) == if Point(i, j) in pts then c else img.At(i, j)
    decreases |pts|
  {
    if |pts| == 0 then img
    else
      var next := SetPixel(img, pts[0].x, pts[0].y, c, true).value;
      var r := Plot(next, pts[1..], c);
      assert forall p :: p in pts <==> p == pts[0] || p in pts[1..] by {
        assert pts == [pts[0]] + pts[1..];
      }
      r
  }

  /** The same out-of-range coordinate is dropped when clipping and is an error
      when not. */
  lemma ClipVersusAssert(img: Image, x: int, y: int, c: Color)
    requires img.Valid() && !img.InRange(x, y)
    ensures SetPixel(img, x, y, c, true) == Success(img)
    ensures SetPixel(img, x, y, c, false) == Failure(OutOfRange)
  {
  }
}
