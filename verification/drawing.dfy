/** DrawLine and DrawCircle on an image: clipped pixel writes of one colour at
    the points the rasterisers compute. */
module Drawing {
  import opened Pixels
  import Bresenham
  import Midpoint

  /** DrawLine: every in-range point of the Bresenham line takes colour c and no
      other cell changes; in particular an endpoint inside the image is painted. */
  function DrawLine(img: Image, x0: int, y0: int, x1: int, y1: int, c: Color): (r: Image)
    requires img.Valid()
    ensures SameShape(img, r)
    ensures img.InRange(x0, y0) ==> r.At(x0, y0) == c
    ensures img.InRange(x1, y1) ==> r.At(x1, y1) == c
    ensures forall i, j :: img.InRange(i, j) ==>
      r.At(i, j) == if Point(i, j) in Bresenham.Line(x0, y0, x1, y1) then c else img.At(i, j)
    ensures forall i, j :: img.InRange(i, j) && r.At(i, j) != img.At(i, j) ==>
      r.At(i, j) == c && Point(i, j) in Bresenham.Line(x0, y0, x1, y1)
  {
    Bresenham.LineEnds(x0, y0, x1, y1);
    Plot(img, Bresenham.Line(x0, y0, x1, y1), c)
  }

  /** Swapping the endpoints does not change the drawn image. */
  lemma DrawLineSymmetric(img: Image, x0: int, y0: int, x1: int, y1: int, c: Color)
    requires img.Valid()
    ensures DrawLine(img, x0, y0, x1, y1, c) == DrawLine(img, x1, y1, x0, y0, c)
  {
    Bresenham.LineSymmetric(x0, y0, x1, y1);
  }

  /** DrawCircle. A centre outside the image is an assertion failure. Filled, the
      cells painted are exactly those at squared distance at most r^2 from the
      centre; unfilled, exactly the in-range points of the midpoint outline are
      painted, all of them inside that disk. */
  function DrawCircle(img: Image, x0: int, y0: int, r: int, c: Color, fill: bool): (res: Result<Image>)
    requires img.Valid()
    ensures res.Failure? <==> !img.InRange(x0, y0)
    ensures res.Failure? ==> res.error == OutOfRange
    ensures res.Success? ==> SameShape(img, res.value)
    ensures res.Success? && fill ==> forall i, j :: img.InRange(i, j) ==>
      res.value.At(i, j) == if Midpoint.InDisk(i - x0, j - y0, r) then c else img.At(i, j)
    ensures res.Success? && !fill ==> forall i, j :: img.InRange(i, j) ==>
      res.value.At(i, j) == if Point(i, j) in Midpoint.Outline(x0, y0, r) then c else img.At(i, j)
    ensures res.Success? && !fill ==> forall i, j :: img.InRange(i, j) && res.value.At(i, j) != img.At(i, j) ==>
      res.value.At(i, j) == c && Midpoint.InDisk(i - x0, j - y0, r)
  {
    if !img.InRange(x0, y0) then Failure(OutOfRange)
    else if fill then
      FilledCells(img, x0, y0, r, c);
      Success(Plot(img, Midpoint.Disk(x0, y0, r), c))
    else
      OutlineCells(img, x0, y0, r, c);
      Success(Plot(img, Midpoint.Outline(x0, y0, r), c))
  }

  /** Plotting the filled scan paints exactly the in-range cells of the disk. */
  lemma FilledCells(img: Image, x0: int, y0: int, r: int, c: Color)
    requires img.Valid()
    ensures var out := Plot(img, Midpoint.Disk(x0, y0, r), c);
      forall i, j :: img.InRange(i, j) ==>
        out.At(i, j) == if Midpoint.InDisk(i - x0, j - y0, r) then c else img.At(i, j)
  {
    forall i, j | img.InRange(i, j)
      ensures Plot(img, Midpoint.Disk(x0, y0, r), c).At(i, j) == if Midpoint.InDisk(i - x0, j - y0, r) then c else img.At(i, j)
    {
      FilledCell(img, x0, y0, r, c, i, j);
    }
  }

  lemma FilledCell(img: Image, x0: int, y0: int, r: int, c: Color, i: int, j: int)
    requires img.Valid() && img.InRange(i, j)
    ensures Plot(img, Midpoint.Disk(x0, y0, r), c).At(i, j) == if Midpoint.InDisk(i - x0, j - y0, r) then c else img.At(i, j)
  {
    Midpoint.DiskMembers(x0, y0, r, i, j);
  }

  /** Plotting the outline changes only cells inside the disk. */
  lemma OutlineCells(img: Image, x0: int, y0: int, r: int, c: Color)
    requires img.Valid()
    ensures var out := Plot(img, Midpoint.Outline(x0, y0, r), c);
      forall i, j :: img.InRange(i, j) && out.At(i, j) != img.At(i, j) ==>
        out.At(i, j) == c && Midpoint.InDisk(i - x0, j - y0, r)
  {
    forall i, j | img.InRange(i, j)
      ensures var out := Plot(img, Midpoint.Outline(x0, y0, r), c);
        out.At(i, j) != img.At(i, j) ==> out.At(i, j) == c && Midpoint.InDisk(i - x0, j - y0, r)
    {
      OutlineCell(img, x0, y0, r, c, i, j);
    }
  }

  lemma OutlineCell(img: Image, x0: int, y0: int, r: int, c: Color, i: int, j: int)
    requires img.Valid() && img.InRange(i, j)
    ensures var out := Plot(img, Midpoint.Outline(x0, y0, r), c);
      out.At(i, j) != img.At(i, j) ==> out.At(i, j) == c && Midpoint.InDisk(i - x0, j - y0, r)
  {
    Midpoint.OutlineInDisk(x0, y0, r, i, j);
  }
}
