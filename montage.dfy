/**
 * Grid layout of the montage builder (Form1.MakeMontage): images are placed four
 * per row, each in a cell as large as the widest and the tallest image, on a
 * canvas just large enough for all cells. Image loading and drawing are left out;
 * the layout works on the images' sizes and yields the draw calls in order.
 */
module Montage {
  import opened Arith

  /** Images per montage row. */
  const ColumnsPerRow: int := 4

  datatype Size = Size(width: nat, height: nat)

  /** One `DrawImage` call: image `index` drawn with its top-left corner at (x, y). */
  datatype Draw = Draw(index: nat, x: int, y: int)

  /** The result bitmap's size and the draws made on it, in order. */
  datatype Canvas = Canvas(width: int, height: int, draws: seq<Draw>)

  /** A canvas, or the failure of the bitmap constructor on an empty canvas size. */
  datatype MontageResult = Built(canvas: Canvas) | InvalidCanvasSize

  /** The running maximum, from 0, of a sequence of dimensions. */
  function MaxOf(s: seq<nat>): (m: nat)
    ensures forall i :: 0 <= i < |s| ==> s[i] <= m
    ensures |s| == 0 ==> m == 0
    ensures |s| > 0 ==> exists i :: 0 <= i < |s| && s[i] == m
  {
    if |s| == 0 then 0 else Max(MaxOf(s[..|s| - 1]), s[|s| - 1])
  }

  function Widths(sizes: seq<Size>): seq<nat> {
    seq(|sizes|, i requires 0 <= i < |sizes| => sizes[i].width)
  }

  function Heights(sizes: seq<Size>): seq<nat> {
    seq(|sizes|, i requires 0 <= i < |sizes| => sizes[i].height)
  }

  /** C#'s integer division, which rounds toward zero (Dafny's `/` rounds down). */
  function TruncatedDiv(a: int, b: int): (q: int)
    requires b > 0
    ensures a >= 0 ==> 0 <= a - q * b < b
    ensures a < 0 ==> 0 <= q * b - a < b
  {
    if a >= 0 then a / b else -((-a) / b)
  }

  /** Number of rows: one more than the row of the last image. */
  function Rows(n: nat): int {
    TruncatedDiv(n - 1, ColumnsPerRow) + 1
  }

  /** Number of columns: all images when fewer than four, else four. */
  function Cols(n: nat): int {
    Min(n, 4)
  }

  /** Where image `i` is drawn: column i % 4, row i / 4, in cells of the maximal size. */
  function Placement(i: nat, maxWidth: nat, maxHeight: nat): Draw {
    Draw(i, (i % ColumnsPerRow) * maxWidth, (i / ColumnsPerRow) * maxHeight)
  }

  function CanvasWidth(sizes: seq<Size>): int {
    Cols(|sizes|) * MaxOf(Widths(sizes))
  }

  function CanvasHeight(sizes: seq<Size>): int {
    Rows(|sizes|) * MaxOf(Heights(sizes))
  }

  /**
   * Builds the montage layout: the maxima over all sizes, the canvas size, then
   * one draw per image in input order.
   */
  method MakeMontage(sizes: seq<Size>) returns (r: MontageResult)
    ensures r.Built? <==> CanvasWidth(sizes) > 0 && CanvasHeight(sizes) > 0
    ensures r.Built? ==> r.canvas.width == CanvasWidth(sizes) && r.canvas.height == CanvasHeight(sizes)
    ensures r.Built? ==> |r.canvas.draws| == |sizes|
    ensures r.Built? ==> forall i :: 0 <= i < |sizes| ==>
              r.canvas.draws[i] == Placement(i, MaxOf(Widths(sizes)), MaxOf(Heights(sizes)))
  {
    var maxWidth: nat := 0;
    var maxHeight: nat := 0;
    var i := 0;
    while i < |sizes|
      invariant 0 <= i <= |sizes|
      invariant maxWidth == MaxOf(Widths(sizes)[..i])
      invariant maxHeight == MaxOf(Heights(sizes)[..i])
    {
      assert Widths(sizes)[..i + 1][..i] == Widths(sizes)[..i];
      assert Heights(sizes)[..i + 1][..i] == Heights(sizes)[..i];
      assert Widths(sizes)[i] == sizes[i].width && Heights(sizes)[i] == sizes[i].height;
      maxWidth := Max(maxWidth, sizes[i].width);
      maxHeight := Max(maxHeight, sizes[i].height);
      i := i + 1;
    }
    assert Widths(sizes)[..|sizes|] == Widths(sizes);
    assert Heights(sizes)[..|sizes|] == Heights(sizes);

    var rows := TruncatedDiv(|sizes| - 1, ColumnsPerRow) + 1;
    var cols := Min(|sizes|, 4);
    var width, height := cols * maxWidth, rows * maxHeight;
    if width <= 0 || height <= 0 {
      return InvalidCanvasSize;
    }

    var draws: seq<Draw> := [];
    i := 0;
    while i < |sizes|
      invariant 0 <= i <= |sizes|
      invariant |draws| == i
      invariant forall j :: 0 <= j < i ==> draws[j] == Placement(j, maxWidth, maxHeight)
    {
      var x := (i % ColumnsPerRow) * maxWidth;
      var y := (i / ColumnsPerRow) * maxHeight;
      draws := draws + [Draw(i, x, y)];
      i := i + 1;
    }
    return Built(Canvas(width, height, draws));
  }

  /** The rectangle of image i: [x, x + width) by [y, y + height). */
  predicate TileInside(d: Draw, s: Size, canvasWidth: int, canvasHeight: int) {
    0 <= d.x && d.x + s.width <= canvasWidth && 0 <= d.y && d.y + s.height <= canvasHeight
  }

  predicate TilesApart(d1: Draw, s1: Size, d2: Draw, s2: Size) {
    d1.x + s1.width <= d2.x || d2.x + s2.width <= d1.x ||
    d1.y + s1.height <= d2.y || d2.y + s2.height <= d1.y
  }

  /** For at least one image: at least one row, enough rows for all, and no empty row. */
  lemma RowsCoverImages(n: nat)
    requires n >= 1
    ensures Rows(n) >= 1
    ensures ColumnsPerRow * (Rows(n) - 1) < n <= ColumnsPerRow * Rows(n)
    ensures 1 <= Cols(n) <= ColumnsPerRow && Cols(n) <= n
  {
  }

  /** Without images the truncating division still gives one row, but no column. */
  lemma NoImagesNoColumns()
    ensures Rows(0) == 1 && Cols(0) == 0
  {
  }

  /** A cell of a grid of `count` cells of size `m` holds an extent `w <= m` inside the grid. */
  lemma CellInside(c: int, count: int, m: nat, w: nat)
    requires 0 <= c < count && w <= m
    ensures 0 <= c * m && c * m + w <= count * m
  {
    MulMonotone(0, c, m);
    MulMonotone(c + 1, count, m);
  }

  /** An extent `w <= m` from an earlier cell ends before a later cell starts. */
  lemma CellsApart(c1: int, c2: int, m: nat, w: nat)
    requires c1 < c2 && w <= m
    ensures c1 * m + w <= c2 * m
  {
    MulMonotone(c1 + 1, c2, m);
  }

  /** Image i's column and row are inside the grid. */
  lemma CellInGrid(n: nat, i: nat)
    requires i < n
    ensures 0 <= i % ColumnsPerRow < Cols(n) && 0 <= i / ColumnsPerRow < Rows(n)
  {
  }

  /** Every image lies inside the canvas. */
  lemma TileInsideCanvas(sizes: seq<Size>, i: nat)
    requires i < |sizes|
    ensures TileInside(Placement(i, MaxOf(Widths(sizes)), MaxOf(Heights(sizes))), sizes[i],
                       CanvasWidth(sizes), CanvasHeight(sizes))
  {
    var mw, mh := MaxOf(Widths(sizes)), MaxOf(Heights(sizes));
    assert Widths(sizes)[i] == sizes[i].width && Heights(sizes)[i] == sizes[i].height;
    CellInGrid(|sizes|, i);
    CellInside(i % ColumnsPerRow, Cols(|sizes|), mw, sizes[i].width);
    CellInside(i / ColumnsPerRow, Rows(|sizes|), mh, sizes[i].height);
  }

  /** Distinct images occupy non-overlapping rectangles. */
  lemma TilesDisjoint(sizes: seq<Size>, i: nat, j: nat)
    requires i < |sizes| && j < |sizes| && i != j
    ensures TilesApart(Placement(i, MaxOf(Widths(sizes)), MaxOf(Heights(sizes))), sizes[i],
                       Placement(j, MaxOf(Widths(sizes)), MaxOf(Heights(sizes))), sizes[j])
  {
    var mw, mh := MaxOf(Widths(sizes)), MaxOf(Heights(sizes));
    assert Widths(sizes)[i] == sizes[i].width && Heights(sizes)[i] == sizes[i].height;
    assert Widths(sizes)[j] == sizes[j].width && Heights(sizes)[j] == sizes[j].height;
    var ci, cj := i % ColumnsPerRow, j % ColumnsPerRow;
    var ri, rj := i / ColumnsPerRow, j / ColumnsPerRow;
    if ri < rj {
      CellsApart(ri, rj, mh, sizes[i].height);
    } else if rj < ri {
      CellsApart(rj, ri, mh, sizes[j].height);
    } else {
      assert ci != cj;
      if ci < cj {
        CellsApart(ci, cj, mw, sizes[i].width);
      } else {
        CellsApart(cj, ci, mw, sizes[j].width);
      }
    }
  }

  /** When every image has a positive size, building fails exactly when there is no image. */
  lemma FailsOnlyWithoutImages(sizes: seq<Size>)
    requires forall i :: 0 <= i < |sizes| ==> sizes[i].width > 0 && sizes[i].height > 0
    ensures CanvasWidth(sizes) > 0 && CanvasHeight(sizes) > 0 <==> |sizes| > 0
  {
    if |sizes| > 0 {
      RowsCoverImages(|sizes|);
      assert Widths(sizes)[0] > 0 && Heights(sizes)[0] > 0;
    }
  }
}
