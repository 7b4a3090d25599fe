/** The abstract content of a pixel buffer: a width x height grid of pixel
    values, addressed (x, y) as BufferedImage addresses it (x < width is the
    column, y < height the row). The filters are specified on this value. */
module Grid {
  import opened Rgb

  datatype Raster = Raster(width: nat, height: nat, columns: seq<seq<Pixel>>) {

    /** columns[x][y] is the pixel at (x, y): width columns, each of height pixels. */
    predicate WellFormed()
    {
      |columns| == width && forall x :: 0 <= x < width ==> |columns[x]| == height
    }

    predicate InBounds(x: int, y: int)
    {
      0 <= x < width && 0 <= y < height
    }

    function At(x: int, y: int): Pixel
      requires WellFormed() && InBounds(x, y)
    {
      columns[x][y]
    }

    /** The grid with the pixel at (x, y) replaced by p and nothing else changed. */
    function Set(x: int, y: int, p: Pixel): (r: Raster)
      requires WellFormed() && InBounds(x, y)
      ensures r.WellFormed() && r.width == width && r.height == height
      ensures r.At(x, y) == p
      ensures forall x', y' {:trigger r.At(x', y')} :: InBounds(x', y') && (x' != x || y' != y) ==> r.At(x', y') == At(x', y')
    {
      Raster(width, height, columns[x := columns[x][y := p]])
    }

    /** Every channel of every pixel is in [0, 255]. */
    ghost predicate AllInRange()
      requires WellFormed()
    {
      forall x, y {:trigger At(x, y)} :: InBounds(x, y) ==> InRange(At(x, y))
    }

    /** Row y, left to right. */
    function Row(y: int): (s: seq<Pixel>)
      requires WellFormed() && 0 <= y < height
      ensures |s| == width && forall x :: 0 <= x < width ==> s[x] == At(x, y)
    {
      seq(width, x requires 0 <= x < width => columns[x][y])
    }
  }

  /** A w x h grid with every pixel p (BufferedImage starts out black). */
  function Filled(w: nat, h: nat, p: Pixel): (r: Raster)
    ensures r.WellFormed() && r.width == w && r.height == h
    ensures forall x, y {:trigger r.At(x, y)} :: r.InBounds(x, y) ==> r.At(x, y) == p
  {
    Raster(w, h, seq(w, x => seq(h, y => p)))
  }

  /** The grid with f applied to every pixel. */
  function MapPixels(r: Raster, f: Pixel -> Pixel): (s: Raster)
    requires r.WellFormed()
    ensures s.WellFormed() && s.width == r.width && s.height == r.height
    ensures forall x, y {:trigger s.At(x, y)} :: r.InBounds(x, y) ==> s.At(x, y) == f(r.At(x, y))
  {
    Raster(r.width, r.height,
      seq(r.width, x requires 0 <= x < r.width =>
        seq(r.height, y requires 0 <= y < r.height => f(r.columns[x][y]))))
  }

  /** Two well-formed grids of the same size that agree at every pixel are equal. */
  lemma Ext(a: Raster, b: Raster)
    requires a.WellFormed() && b.WellFormed()
    requires a.width == b.width && a.height == b.height
    requires forall x, y :: a.InBounds(x, y) ==> a.At(x, y) == b.At(x, y)
    ensures a == b
  {
    forall x | 0 <= x < a.width
      ensures a.columns[x] == b.columns[x]
    {
      assert forall y :: 0 <= y < a.height ==> a.columns[x][y] == a.At(x, y);
    }
  }

  /** The state of an in-place pass that visits pixels row by row, top to bottom,
      each row left to right (the `i`/`j` loops of the filters): the pixels before
      (col, row) in that order already hold target, the others still hold orig. */
  ghost predicate ProcessedUpTo(cur: Raster, target: Raster, orig: Raster, row: int, col: int)
    requires cur.WellFormed() && target.WellFormed() && orig.WellFormed()
  {
    cur.width == target.width == orig.width && cur.height == target.height == orig.height &&
    forall x, y {:trigger cur.At(x, y)} :: cur.InBounds(x, y) ==>
      cur.At(x, y) == if y < row || (y == row && x < col) then target.At(x, y) else orig.At(x, y)
  }

  /** Writing the target pixel at (col, row) advances the pass by one pixel. */
  lemma ProcessedStep(cur: Raster, target: Raster, orig: Raster, row: int, col: int)
    requires cur.WellFormed() && target.WellFormed() && orig.WellFormed()
    requires ProcessedUpTo(cur, target, orig, row, col) && cur.InBounds(col, row)
    ensures ProcessedUpTo(cur.Set(col, row, target.At(col, row)), target, orig, row, col + 1)
  {
  }

  /** A pass that has finished a row continues at the start of the next one. */
  lemma ProcessedNextRow(cur: Raster, target: Raster, orig: Raster, row: int)
    requires cur.WellFormed() && target.WellFormed() && orig.WellFormed()
    requires ProcessedUpTo(cur, target, orig, row, cur.width)
    ensures ProcessedUpTo(cur, target, orig, row + 1, 0)
  {
  }

  /** A pass that has finished every row has produced the target. */
  lemma ProcessedAll(cur: Raster, target: Raster, orig: Raster)
    requires cur.WellFormed() && target.WellFormed() && orig.WellFormed()
    requires ProcessedUpTo(cur, target, orig, cur.height, 0)
    ensures cur == target
  {
    Ext(cur, target);
  }

  /** The first `rows` rows, concatenated top to bottom: the order in which the
      filters' loops visit the pixels. */
  function RowMajor(r: Raster, rows: nat): (s: seq<Pixel>)
    requires r.WellFormed() && rows <= r.height
    ensures |s| == rows * r.width
  {
    if rows == 0 then [] else RowMajor(r, rows - 1) + r.Row(rows - 1)
  }

  /** All pixels in visiting order. */
  function Pixels(r: Raster): seq<Pixel>
    requires r.WellFormed()
  {
    RowMajor(r, r.height)
  }

  /** The pixel at (x, y) sits at position y * width + x of the visiting order,
      so that order lists each pixel exactly once. */
  lemma {:induction false} RowMajorAt(r: Raster, rows: nat, x: int, y: int)
    requires r.WellFormed() && rows <= r.height
    requires 0 <= x < r.width && 0 <= y < rows
    ensures y * r.width + x < |RowMajor(r, rows)|
    ensures RowMajor(r, rows)[y * r.width + x] == r.At(x, y)
  {
    var prefix := RowMajor(r, rows - 1);
    assert RowMajor(r, rows) == prefix + r.Row(rows - 1);
    if y < rows - 1 {
      RowMajorAt(r, rows - 1, x, y);
    } else {
      assert y * r.width == |prefix|;
    }
  }

  /** Visiting a mapped grid visits the mapped pixels. */
  lemma {:induction false} RowMajorMap(r: Raster, f: Pixel -> Pixel, rows: nat)
    requires r.WellFormed() && rows <= r.height
    ensures RowMajor(MapPixels(r, f), rows) == MapSeq(RowMajor(r, rows), f)
  {
    if rows > 0 {
      RowMajorMap(r, f, rows - 1);
      var m := MapPixels(r, f);
      assert m.Row(rows - 1) == MapSeq(r.Row(rows - 1), f);
      MapSeqAppend(RowMajor(r, rows - 1), r.Row(rows - 1), f);
    }
  }

  function MapSeq(s: seq<Pixel>, f: Pixel -> Pixel): (t: seq<Pixel>)
    ensures |t| == |s| && forall k :: 0 <= k < |s| ==> t[k] == f(s[k])
  {
    seq(|s|, k requires 0 <= k < |s| => f(s[k]))
  }

  lemma MapSeqAppend(a: seq<Pixel>, b: seq<Pixel>, f: Pixel -> Pixel)
    ensures MapSeq(a + b, f) == MapSeq(a, f) + MapSeq(b, f)
  {
  }
}
