/** `collage_all_images`: the generated images, sorted by file name, are tiled
    row by row into a grid of 200 x 125 thumbnails whose row count is the integer
    square root of the image count, and a time stamp is drawn near the bottom
    right corner. Only the geometry is modelled: a canvas cell holds the name of
    the image pasted there. */
module Collage {
  import opened Strings
  import opened Seqs
  import opened Files
  import opened Arith

  const TileWidth: nat := 200
  const TileHeight: nat := 125

  /** Offset of the time stamp from the right and bottom edges of the canvas. */
  const WatermarkLeft: nat := 150
  const WatermarkUp: nat := 20

  datatype Grid = Grid(rows: nat, cols: nat)

  /** The grid, or the `ZeroDivisionError` raised at line 55 when there is no image. */
  datatype Layout = Tiled(grid: Grid) | DivisionByZero

  /** The largest `r <= k` with `r * r <= n`. */
  function SqrtBelow(n: nat, k: nat): (r: nat)
    requires n < (k + 1) * (k + 1)
    ensures r <= k && r * r <= n < (r + 1) * (r + 1)
  {
    if k * k <= n then k else SqrtBelow(n, k - 1)
  }

  /** `int(n ** 0.5)`, the integer square root. */
  function Isqrt(n: nat): (r: nat)
    ensures r * r <= n < (r + 1) * (r + 1)
  {
    assert (n + 1) * (n + 1) == n * n + 2 * n + 1;
    SqrtBelow(n, n)
  }

  /** Lines 54-55: `isqrt(n)` rows and `ceil(n / rows)` columns; the division
      fails when there are no rows. Whatever grid comes out has room for all images. */
  function GridFor(n: nat): (r: Layout)
    ensures r.Tiled? ==> r.grid.cols > 0 && n <= r.grid.rows * r.grid.cols
  {
    var rows := Isqrt(n);
    if rows == 0 then DivisionByZero else
      CeilDiv(n, rows);
      Tiled(Grid(rows, (n + rows - 1) / rows))
  }

  /** Grid cell of image `i`: row `i div cols`, column `i mod cols` (line 63). */
  function Cell(i: nat, g: Grid): (rc: (nat, nat))
    requires g.cols > 0
    ensures rc.1 < g.cols && rc.0 * g.cols + rc.1 == i
  {
    RowMajor(i, g.cols);
    (i / g.cols, i % g.cols)
  }

  /** Top-left pixel of image `i` on the canvas (line 64). */
  function TileOrigin(i: nat, g: Grid): (xy: (nat, nat))
    requires g.cols > 0
    ensures xy.0 + TileWidth <= CanvasSize(g).0
  {
    MulMonotone(Cell(i, g).1 + 1, g.cols, TileWidth);
    (Cell(i, g).1 * TileWidth, Cell(i, g).0 * TileHeight)
  }

  /** Canvas width and height in pixels (line 59). */
  function CanvasSize(g: Grid): (nat, nat) {
    (TileWidth * g.cols, TileHeight * g.rows)
  }

  /** Where the time stamp is drawn (line 66). */
  function WatermarkAt(g: Grid): (int, int) {
    (CanvasSize(g).0 - WatermarkLeft, CanvasSize(g).1 - WatermarkUp)
  }

  /** The images in the order they are pasted: the collage inputs sorted by name. */
  function CollageOrder(listing: seq<string>): (r: seq<string>)
    ensures Sorted(r) && multiset(r) == multiset(CollageInputs(listing))
  {
    SortNames(CollageInputs(listing))
  }

  // ------------------------------------------------------------ arithmetic

  /** `(n + r - 1) // r` is the least `c` with `r * c >= n`. */
  lemma CeilDiv(n: nat, r: nat)
    requires r > 0
    ensures var c := (n + r - 1) / r; r * c >= n && (n > 0 ==> r * (c - 1) < n)
  {
    var c := (n + r - 1) / r;
    assert c * r + (n + r - 1) % r == n + r - 1;
  }

  /** Position `i` of a row-major grid with `cols` columns. */
  lemma RowMajor(i: nat, cols: nat)
    requires cols > 0
    ensures (i / cols) * cols + i % cols == i
  {
  }

  lemma RowMajorUnique(r: nat, c: nat, cols: nat)
    requires c < cols
    ensures (r * cols + c) / cols == r && (r * cols + c) % cols == c
  {
    var i := r * cols + c;
    RowMajor(i, cols);
    var q := i / cols;
    MulMonotone(q + 1, r, cols);
    MulMonotone(r + 1, q, cols);
  }

  lemma RowBelow(i: nat, rows: nat, cols: nat)
    requires cols > 0 && i < rows * cols
    ensures i / cols < rows
  {
    RowMajor(i, cols);
    MulMonotone(rows, i / cols, cols);
  }

  // ------------------------------------------------------------- properties

  /** There is a grid exactly when there is an image; its row count is the
      integer square root, and its columns are the fewest that hold all images. */
  lemma GridShape(n: nat)
    ensures GridFor(n).DivisionByZero? <==> n == 0
    ensures GridFor(n).Tiled? ==>
      var g := GridFor(n).grid;
      g.rows >= 1 && g.rows * g.rows <= n < (g.rows + 1) * (g.rows + 1) &&
      g.rows * g.cols >= n && g.rows * (g.cols - 1) < n
  {
    var rows := Isqrt(n);
    if rows > 0 {
      CeilDiv(n, rows);
    } else {
      assert n < 1;
    }
  }

  /** The grid is nearly square: at least as many columns as rows, at most two more,
      and fewer empty cells than one full row. */
  lemma GridNearlySquare(n: nat)
    requires n > 0
    ensures var g := GridFor(n).grid;
      g.rows <= g.cols <= g.rows + 2 && g.rows * g.cols - n < g.rows
  {
    GridShape(n);
    var g := GridFor(n).grid;
    NearlySquare(n, g.rows, g.cols);
  }

  lemma NearlySquare(n: nat, r: nat, c: nat)
    requires r >= 1 && r * r <= n < (r + 1) * (r + 1)
    requires r * c >= n && r * (c - 1) < n
    ensures r <= c <= r + 2 && r * c - n < r
  {
    assert r * (c - 1) == r * c - r;
    assert (r + 1) * (r + 1) == r * r + 2 * r + 1;
    assert (c + 1) * r == c * r + r;
    assert r * (r + 2) == r * r + 2 * r;
    MulMonotone(c + 1, r, r);
    MulMonotone(r + 2, c - 1, r);
  }

  /** Three images give one row of three. */
  lemma ThreeImages()
    ensures GridFor(3) == Tiled(Grid(1, 3))
  {
    assert Isqrt(3) == 1 by {
      var r := Isqrt(3);
      MulMonotone(2, r, r);
      MulMonotone(r + 1, 1, r + 1);
    }
  }

  /** Every image lies wholly inside the canvas. */
  lemma TileInsideCanvas(n: nat, i: nat)
    requires GridFor(n).Tiled? && i < n
    ensures var g := GridFor(n).grid;
      TileOrigin(i, g).0 + TileWidth <= CanvasSize(g).0 &&
      TileOrigin(i, g).1 + TileHeight <= CanvasSize(g).1
  {
    GridShape(n);
    var g := GridFor(n).grid;
    RowBelow(i, g.rows, g.cols);
  }

  /** Two different images never overlap: their tiles are a full tile apart
      horizontally or vertically. */
  lemma TilesDisjoint(n: nat, i: nat, j: nat)
    requires GridFor(n).Tiled? && i < n && j < n && i != j
    ensures var g := GridFor(n).grid;
      var (xi, yi) := TileOrigin(i, g);
      var (xj, yj) := TileOrigin(j, g);
      xi + TileWidth <= xj || xj + TileWidth <= xi || yi + TileHeight <= yj || yj + TileHeight <= yi
  {
    var g := GridFor(n).grid;
    CellsDistinct(i, j, g.cols);
  }

  lemma CellsDistinct(i: nat, j: nat, cols: nat)
    requires cols > 0 && i != j
    ensures i / cols != j / cols || i % cols != j % cols
  {
    RowMajor(i, cols);
    RowMajor(j, cols);
  }

  /** The time stamp starts inside the canvas. */
  lemma WatermarkInside(n: nat)
    requires GridFor(n).Tiled?
    ensures var g := GridFor(n).grid;
      0 <= WatermarkAt(g).0 < CanvasSize(g).0 && 0 <= WatermarkAt(g).1 < CanvasSize(g).1
  {
    GridShape(n);
  }

  /** The paste order depends only on which files exist, not on the order
      the directory listing reports them in. */
  lemma CollageOrderDeterministic(a: seq<string>, b: seq<string>)
    requires multiset(a) == multiset(b)
    ensures CollageOrder(a) == CollageOrder(b)
  {
    forall x ensures multiset(CollageInputs(a))[x] == multiset(CollageInputs(b))[x] {
      FilterMultiplicity(a, IsCollageInput, x);
      FilterMultiplicity(b, IsCollageInput, x);
    }
    assert multiset(CollageInputs(a)) == multiset(CollageInputs(b));
    SortedUnique(CollageOrder(a), CollageOrder(b));
  }

  // ---------------------------------------------------------------- pasting

  /** The composite image: one cell per thumbnail, holding the name of the image
      pasted there or nothing (transparent), its size in pixels and the
      position of the time stamp. */
  datatype Composite = Composite(cells: array2<Option<string>>, width: nat, height: nat, watermark: (int, int))

  datatype Outcome = Saved(composite: Composite) | ZeroDivisionError

  /** What cell `(r, k)` of a canvas `cols` cells wide holds once the first `count`
      images are pasted: image `r * cols + k` if that is one of them, else nothing. */
  function Expected(images: seq<string>, count: nat, r: nat, k: nat, cols: nat): Option<string>
    requires count <= |images|
  {
    if r * cols + k < count then Some(images[r * cols + k]) else None
  }

  /** Pasting image `i` changes its own cell and no other. */
  lemma ExpectedStep(images: seq<string>, i: nat, r: nat, k: nat, cols: nat)
    requires i < |images| && k < cols
    ensures Expected(images, i + 1, r, k, cols) ==
            if (r, k) == (i / cols, i % cols) then Some(images[i]) else Expected(images, i, r, k, cols)
  {
    RowMajorUnique(r, k, cols);
  }

  /** The first `count` images sit in row-major order on the canvas `cells`. */
  ghost predicate Filled(cells: array2<Option<string>>, images: seq<string>, count: nat)
    reads cells
  {
    count <= |images| &&
    forall r, k :: 0 <= r < cells.Length0 && 0 <= k < cells.Length1 ==>
      cells[r, k] == Expected(images, count, r, k, cells.Length1)
  }

  /** Lines 60-64: a blank canvas of `rows` by `cols` cells with the images pasted
      row by row. */
  method Paste(images: seq<string>, rows: nat, cols: nat) returns (cells: array2<Option<string>>)
    requires cols > 0 && |images| <= rows * cols
    ensures fresh(cells)
    ensures cells.Length0 == rows && cells.Length1 == cols
    ensures Filled(cells, images, |images|)
  {
    cells := new Option<string>[rows, cols]((_, _) => None);
    for i := 0 to |images|
      invariant fresh(cells)
      invariant Filled(cells, images, i)
    {
      RowBelow(i, rows, cols);
      var row, col := i / cols, i % cols;
      label Before:
      cells[row, col] := Some(images[i]);
      forall r, k | 0 <= r < rows && 0 <= k < cols
        ensures cells[r, k] == Expected(images, i + 1, r, k, cols)
      {
        ExpectedStep(images, i, r, k, cols);
        if (r, k) != (row, col) {
          assert cells[r, k] == old@Before(cells[r, k]);
        }
      }
    }
  }

  /** Lines 50-66 for the names `listing` holds. */
  method CollageAllImages(listing: seq<string>) returns (result: Outcome)
    ensures result.ZeroDivisionError? <==> |CollageInputs(listing)| == 0
    ensures result.Saved? ==> fresh(result.composite.cells)
    ensures result.Saved? ==>
      var images := CollageOrder(listing);
      var g := GridFor(|images|).grid;
      var c := result.composite;
      c.cells.Length0 == g.rows && c.cells.Length1 == g.cols &&
      (c.width, c.height) == CanvasSize(g) && c.watermark == WatermarkAt(g) &&
      Filled(c.cells, images, |images|)
  {
    var images := CollageOrder(listing);
    var layout := GridFor(|images|);
    GridShape(|images|);
    if layout.DivisionByZero? {
      return ZeroDivisionError;
    }
    var g := layout.grid;
    var cells := Paste(images, g.rows, g.cols);
    var size := CanvasSize(g);
    result := Saved(Composite(cells, size.0, size.1, WatermarkAt(g)));
  }
}
