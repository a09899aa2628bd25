/**
  The extraction loop of the canvas component (src/components/Canvas.jsx,
  renderValues): builds every cell of a gridSize x gridSize grid in row-major
  order, classifies its corners, and collects one endpoint list per cell.
  Drawing is not modelled; the stroke loop is modelled only as the segments
  it reads from each list.
 */
module Render {
  import opened Isolines

  datatype Option<T> = None | Some(value: T)

  /** The canvas is 800 x 800 units. */
  const CanvasWidth: real := 800.0
  const CanvasHeight: real := 800.0

  /**
    getResolution: the column and row gaps of a grid of cols x rows cells on
    the canvas. The gaps are positive and spread the grid over exactly the
    whole canvas.
   */
  function GetResolution(cols: nat, rows: nat): (r: Resolution)
    requires cols > 0 && rows > 0
    ensures r.columnGap > 0.0 && r.rowGap > 0.0
    ensures r.columnGap * cols as real == CanvasWidth && r.rowGap * rows as real == CanvasHeight
  {
    Resolution(CanvasWidth / cols as real, CanvasHeight / rows as real)
  }

  /** Every row holds a sample for each of the gridSize + 1 grid columns. */
  predicate RowsWide(grid: seq<seq<real>>, gridSize: nat)
  {
    forall r :: 0 <= r < |grid| ==> |grid[r]| > gridSize
  }

  /** The size guard of renderValues: samples are present and have exactly gridSize + 1 rows. */
  predicate PassesGuard(samples: Option<seq<seq<real>>>, gridSize: nat)
  {
    samples.Some? && |samples.value| == gridSize + 1
  }

  /** A grid that renderValues walks completely. */
  predicate Walkable(grid: seq<seq<real>>, gridSize: nat)
  {
    gridSize > 0 && |grid| == gridSize + 1 && RowsWide(grid, gridSize)
  }

  /** The cell at row i, column j, as renderValues builds it. */
  function CellAt(grid: seq<seq<real>>, gridSize: nat, i: nat, j: nat): (cell: Cell)
    requires Walkable(grid, gridSize) && i < gridSize && j < gridSize
  {
    GetCoordsForCellAt(i, j, GetResolution(gridSize, gridSize), grid)
  }

  /**
    Cell (i, j) covers the i-th of gridSize equal bands of the canvas height and
    the j-th of its width, and carries the samples at its four grid points.
   */
  lemma CellPlacement(grid: seq<seq<real>>, gridSize: nat, i: nat, j: nat)
    requires Walkable(grid, gridSize) && i < gridSize && j < gridSize
    ensures var cell := CellAt(grid, gridSize, i, j);
      && cell.topLeft.x * gridSize as real == j as real * CanvasWidth
      && cell.topLeft.y * gridSize as real == i as real * CanvasHeight
      && IsRectangle(cell, CanvasWidth / gridSize as real, CanvasHeight / gridSize as real)
      && cell.topLeft.v == grid[i][j] && cell.topRight.v == grid[i][j + 1]
      && cell.bottomRight.v == grid[i + 1][j + 1] && cell.bottomLeft.v == grid[i + 1][j]
  {
    var resolution := GetResolution(gridSize, gridSize);
    assert (j as real * resolution.columnGap) * gridSize as real == j as real * CanvasWidth;
    assert (i as real * resolution.rowGap) * gridSize as real == i as real * CanvasHeight;
  }

  /** Rows laid end to end, first row first. */
  function Flatten<T>(rows: seq<seq<T>>): seq<T>
  {
    if rows == [] then [] else Flatten(rows[..|rows| - 1]) + rows[|rows| - 1]
  }

  /** All rows have width columns. */
  predicate Rectangular<T>(rows: seq<seq<T>>, width: nat)
  {
    forall r :: 0 <= r < |rows| ==> |rows[r]| == width
  }

  /** Flattening rows of equal width puts entry (i, j) at index i * width + j. */
  lemma {:induction false} FlattenIndex<T>(rows: seq<seq<T>>, width: nat, i: nat, j: nat)
    requires Rectangular(rows, width) && i < |rows| && j < width
    ensures |Flatten(rows)| == |rows| * width
    ensures i * width + j < |Flatten(rows)|
    ensures Flatten(rows)[i * width + j] == rows[i][j]
  {
    var m := |rows| - 1;
    var front := rows[..m];
    assert Flatten(rows) == Flatten(front) + rows[m];
    FlattenLength(front, width);
    assert (m + 1) * width == m * width + width;
    if i < m {
      FlattenIndex(front, width, i, j);
      assert front[i] == rows[i];
    } else {
      assert i * width + j == |Flatten(front)| + j;
    }
  }

  lemma {:induction false} FlattenLength<T>(rows: seq<seq<T>>, width: nat)
    requires Rectangular(rows, width)
    ensures |Flatten(rows)| == |rows| * width
  {
    if rows != [] {
      FlattenLength(rows[..|rows| - 1], width);
      assert |rows| * width == (|rows| - 1) * width + width;
    }
  }

  /** The endpoint lists of every cell, indexed by row and column. */
  function CellTable(grid: seq<seq<real>>, gridSize: nat, isovalue: real, mode: Placement): seq<seq<seq<Point>>>
    requires Walkable(grid, gridSize)
  {
    seq(gridSize, i requires 0 <= i < gridSize =>
      seq(gridSize, j requires 0 <= j < gridSize => CellEndpoints(CellAt(grid, gridSize, i, j), isovalue, mode)))
  }

  /** What renderValues collects: the endpoint lists of all cells in row-major order. */
  function Contour(grid: seq<seq<real>>, gridSize: nat, isovalue: real, mode: Placement): (ls: seq<seq<Point>>)
    requires Walkable(grid, gridSize)
    ensures |ls| == gridSize * gridSize
  {
    var table := CellTable(grid, gridSize, isovalue, mode);
    assert Rectangular(table, gridSize);
    FlattenLength(table, gridSize);
    Flatten(table)
  }

  /** The first loop of renderValues: the cells of the grid, row by row. */
  method BuildCells(grid: seq<seq<real>>, gridSize: nat) returns (cells: seq<seq<Cell>>)
    requires Walkable(grid, gridSize)
    ensures |cells| == gridSize
    ensures forall a :: 0 <= a < gridSize ==> |cells[a]| == gridSize
    ensures forall a, b :: 0 <= a < gridSize && 0 <= b < gridSize ==> cells[a][b] == CellAt(grid, gridSize, a, b)
  {
    cells := [];
    var resolution := GetResolution(gridSize, gridSize);
    var i := 0;
    while i < gridSize
      invariant 0 <= i <= gridSize && |cells| == i
      invariant forall a :: 0 <= a < i ==> |cells[a]| == gridSize
      invariant forall a, b :: 0 <= a < i && 0 <= b < gridSize ==> cells[a][b] == CellAt(grid, gridSize, a, b)
    {
      var row: seq<Cell> := [];
      var j := 0;
      while j < gridSize
        invariant 0 <= j <= gridSize && |row| == j
        invariant forall b :: 0 <= b < j ==> row[b] == CellAt(grid, gridSize, i, b)
      {
        var c := GetCoordsForCellAt(i, j, resolution, grid);
        row := row + [c];
        j := j + 1;
      }
      cells := cells + [row];
      i := i + 1;
    }
  }

  /**
    The body of the extraction loop for one cell: the corner states in the
    order top-left, top-right, bottom-right, bottom-left, their case code,
    and the endpoints of that case.
   */
  method ExtractCell(cell: Cell, isovalue: real, mode: Placement) returns (list: seq<Point>)
    ensures list == CellEndpoints(cell, isovalue, mode)
  {
    var values := [GetState(cell.topLeft.v, isovalue), GetState(cell.topRight.v, isovalue),
                   GetState(cell.bottomRight.v, isovalue), GetState(cell.bottomLeft.v, isovalue)];
    var bitCode := GetCase(values);
    CellCasePlaceable(cell, isovalue, mode);
    list := GetEndpointsForCase(bitCode.value, cell, isovalue, mode);
  }

  /**
    renderValues, without the drawing: returns None when the size guard
    rejects the samples, and otherwise the endpoint list of every cell.
   */
  method RenderValues(samples: Option<seq<seq<real>>>, gridSize: nat, isovalue: real, mode: Placement)
    returns (endpoints: Option<seq<seq<Point>>>)
    requires gridSize > 0
    requires PassesGuard(samples, gridSize) ==> RowsWide(samples.value, gridSize)
    ensures endpoints.Some? <==> PassesGuard(samples, gridSize)
    ensures endpoints.Some? ==> endpoints.value == Contour(samples.value, gridSize, isovalue, mode)
  {
    if samples.None? || |samples.value| != gridSize + 1 {
      return None;
    }
    var grid := samples.value;

    var cells := BuildCells(grid, gridSize);

    ghost var table := CellTable(grid, gridSize, isovalue, mode);
    var found: seq<seq<Point>> := [];
    var i := 0;
    while i < |cells|
      invariant 0 <= i <= |cells| == gridSize
      invariant found == Flatten(table[..i])
    {
      var j := 0;
      while j < |cells[i]|
        invariant 0 <= j <= |cells[i]| == gridSize
        invariant found == Flatten(table[..i]) + table[i][..j]
      {
        var list := ExtractCell(cells[i][j], isovalue, mode);
        assert table[i][j] == list;
        assert table[i][..j + 1] == table[i][..j] + [list];
        found := found + [list];
        j := j + 1;
      }
      assert table[..i + 1][..i] == table[..i];
      assert table[i][..j] == table[i];
      i := i + 1;
    }
    assert table[..i] == table;
    return Some(found);
  }

  /**
    The output has one list per cell, gridSize * gridSize in all, and the
    list of cell (i, j) is at index i * gridSize + j.
   */
  lemma ContourRowMajor(grid: seq<seq<real>>, gridSize: nat, isovalue: real, mode: Placement, i: nat, j: nat)
    requires Walkable(grid, gridSize) && i < gridSize && j < gridSize
    ensures var ls := Contour(grid, gridSize, isovalue, mode);
      && i * gridSize + j < |ls|
      && ls[i * gridSize + j] == CellEndpoints(CellAt(grid, gridSize, i, j), isovalue, mode)
  {
    var table := CellTable(grid, gridSize, isovalue, mode);
    assert Rectangular(table, gridSize);
    FlattenIndex(table, gridSize, i, j);
  }

  /**
    A field that lies entirely below, or entirely at or above, the isovalue
    gives the degenerate origin pair for every cell.
   */
  lemma UniformFieldDegenerate(grid: seq<seq<real>>, gridSize: nat, isovalue: real, mode: Placement)
    requires Walkable(grid, gridSize)
    requires (forall r, c :: 0 <= r < |grid| && 0 <= c < |grid[r]| ==> grid[r][c] < isovalue)
          || (forall r, c :: 0 <= r < |grid| && 0 <= c < |grid[r]| ==> grid[r][c] >= isovalue)
    ensures forall k :: 0 <= k < |Contour(grid, gridSize, isovalue, mode)| ==> Contour(grid, gridSize, isovalue, mode)[k] == [Origin, Origin]
  {
    var table := CellTable(grid, gridSize, isovalue, mode);
    forall i, j | 0 <= i < gridSize && 0 <= j < gridSize ensures table[i][j] == [Origin, Origin] {
      var cell := CellAt(grid, gridSize, i, j);
      assert forall p :: At(cell, p).v in {cell.topLeft.v, cell.topRight.v, cell.bottomRight.v, cell.bottomLeft.v};
      UniformCellDegenerate(cell, isovalue, mode);
    }
    FlattenUniform(table, [Origin, Origin]);
  }

  /** Flattening rows whose every entry is x gives a sequence of x only. */
  lemma {:induction false} FlattenUniform<T>(rows: seq<seq<T>>, x: T)
    requires forall r, c :: 0 <= r < |rows| && 0 <= c < |rows[r]| ==> rows[r][c] == x
    ensures forall k :: 0 <= k < |Flatten(rows)| ==> Flatten(rows)[k] == x
  {
    if rows != [] {
      FlattenUniform(rows[..|rows| - 1], x);
    }
  }

  // ---------------------------------------------------------------------------
  // The stroke loop's reading of an endpoint list

  /** The segments the stroke loop draws from one list: [0]-[1], and [2]-[3] when it has more than two points. */
  function Strokes(ps: seq<Point>): (s: seq<(Point, Point)>)
    requires |ps| == 2 || |ps| >= 4
    ensures |s| == if |ps| > 2 then 2 else 1
    ensures forall k :: 0 <= k < |s| ==> s[k] == (ps[2 * k], ps[2 * k + 1])
  {
    [(ps[0], ps[1])] + (if |ps| > 2 then [(ps[2], ps[3])] else [])
  }

  /**
    Every list extracted from a cell can be stroked: a uniform cell strokes one
    zero-length segment at the origin, a saddle two segments paired by its
    code, every other cell one segment.
   */
  lemma CellStrokes(cell: Cell, isovalue: real, mode: Placement)
    ensures var ps, code := CellEndpoints(cell, isovalue, mode), CellCase(cell, isovalue);
      && (|ps| == 2 || |ps| == 4)
      && (code == 0 || code == 15 ==> Strokes(ps) == [(Origin, Origin)])
      && (code != 5 && code != 10 ==> |Strokes(ps)| == 1)
      && (code == 5 ==>
            && AllPlaceable(cell, mode)
            && Strokes(ps) == [(PlaceOn(cell, Top, isovalue, mode), PlaceOn(cell, Right, isovalue, mode)),
                               (PlaceOn(cell, Left, isovalue, mode), PlaceOn(cell, Bottom, isovalue, mode))])
      && (code == 10 ==>
            && AllPlaceable(cell, mode)
            && Strokes(ps) == [(PlaceOn(cell, Top, isovalue, mode), PlaceOn(cell, Left, isovalue, mode)),
                               (PlaceOn(cell, Bottom, isovalue, mode), PlaceOn(cell, Right, isovalue, mode))])
  {
    var code := CellCase(cell, isovalue);
    CellCaseSidesBipolar(cell, isovalue);
    CaseEndpointsShape(code, cell, isovalue, mode);
    if code == 5 || code == 10 {
      SaddleSides(code, cell, mode);
      SaddlePairings(cell, isovalue, mode);
    }
  }

  // ---------------------------------------------------------------------------
  // Worked examples

  /** A one-cell grid contributes exactly the endpoint list of its only cell. */
  lemma SingleCellContour(grid: seq<seq<real>>, isovalue: real, mode: Placement)
    requires Walkable(grid, 1)
    ensures Contour(grid, 1, isovalue, mode) == [CellEndpoints(CellAt(grid, 1, 0, 0), isovalue, mode)]
  {
    ContourRowMajor(grid, 1, isovalue, mode, 0, 0);
  }

  /** On a side whose samples are 0 and 1, in either order, t is the isovalue itself. */
  lemma UnitSideT(p0: Corner, p1: Corner, isovalue: real)
    requires (p0.v == 0.0 && p1.v == 1.0) || (p0.v == 1.0 && p1.v == 0.0)
    ensures GetT(p0, p1, isovalue) == isovalue
  {
  }

  /**
    A side whose samples are 0 and 1 is placeable, and its endpoint lies at
    fraction t of the way from its first corner: the isovalue when
    interpolating, one half at the midpoint.
   */
  lemma UnitSidePlaced(cell: Cell, e: Edge, isovalue: real, mode: Placement, x: nat, y: nat)
    requires var p0, p1 := At(cell, Ends(e).0), At(cell, Ends(e).1);
      var t := if mode == Interpolation then isovalue else 0.5;
      && ((p0.v == 0.0 && p1.v == 1.0) || (p0.v == 1.0 && p1.v == 0.0))
      && Lerp(p0.x, p1.x, t) == x as real && Lerp(p0.y, p1.y, t) == y as real
    ensures Placeable(cell, e, mode) && PlaceOn(cell, e, isovalue, mode) == Point(x, y)
  {
    var p0, p1 := At(cell, Ends(e).0), At(cell, Ends(e).1);
    UnitSideT(p0, p1, isovalue);
    PlacedAt(cell, e, isovalue, mode);
  }

  /** The cell of the vertical example: 0 on the left, 1 on the right. */
  lemma VerticalCellEndpoints(cell: Cell, isovalue: real, mode: Placement)
    requires cell == Cell(Corner(0.0, 0.0, 0.0), Corner(800.0, 0.0, 1.0), Corner(800.0, 800.0, 1.0), Corner(0.0, 800.0, 0.0))
    requires isovalue == 0.5
    ensures CellCase(cell, isovalue) == 6
    ensures CellEndpoints(cell, isovalue, mode) == [Point(400, 0), Point(400, 800)]
  {
    assert TableEdges(6) == [Top, Bottom];
    UnitSidePlaced(cell, Top, isovalue, mode, 400, 0);
    UnitSidePlaced(cell, Bottom, isovalue, mode, 400, 800);
    assert CellCase(cell, isovalue) == 6;
    CellCasePlaceable(cell, isovalue, mode);
    PairedSides(6, cell, isovalue, mode);
  }

  /** The one cell of the vertical example's grid spans the whole canvas. */
  lemma VerticalGridCell(grid: seq<seq<real>>)
    requires grid == [[0.0, 1.0], [0.0, 1.0]]
    ensures Walkable(grid, 1)
    ensures CellAt(grid, 1, 0, 0) == Cell(Corner(0.0, 0.0, 0.0), Corner(800.0, 0.0, 1.0), Corner(800.0, 800.0, 1.0), Corner(0.0, 800.0, 0.0))
  {
    assert Walkable(grid, 1);
    CellPlacement(grid, 1, 0, 0);
  }

  /**
    The one-cell grid with samples 0 on the left and 1 on the right, cut at
    0.5, has case code 6, and both modes give one vertical segment down the
    middle of the canvas.
   */
  lemma VerticalContourExample(grid: seq<seq<real>>, isovalue: real, mode: Placement)
    requires grid == [[0.0, 1.0], [0.0, 1.0]] && isovalue == 0.5
    ensures Walkable(grid, 1)
    ensures CellCase(CellAt(grid, 1, 0, 0), isovalue) == 6
    ensures Contour(grid, 1, isovalue, mode) == [[Point(400, 0), Point(400, 800)]]
  {
    VerticalGridCell(grid);
    VerticalCellEndpoints(CellAt(grid, 1, 0, 0), isovalue, mode);
    SingleCellContour(grid, isovalue, mode);
  }

  /**
    getT measures t from the lower sample but the endpoint is laid off from
    the first corner of the side. With 1 at the top left, 0 elsewhere and the
    isovalue at 0.25, the field interpolated linearly along the top and left
    sides falls to 0.25 three quarters of the way along (600 units), yet the
    endpoints land a quarter of the way along (200 units).
   */
  lemma MirroredInterpolationExample(cell: Cell, isovalue: real)
    requires cell == Cell(Corner(0.0, 0.0, 1.0), Corner(800.0, 0.0, 0.0), Corner(800.0, 800.0, 0.0), Corner(0.0, 800.0, 0.0))
    requires isovalue == 0.25
    ensures CellCase(cell, isovalue) == 8
    ensures CellEndpoints(cell, isovalue, Interpolation) == [Point(200, 0), Point(0, 200)]
    ensures Lerp(cell.topLeft.v, cell.topRight.v, 600.0 / 800.0) == isovalue
    ensures Lerp(cell.topLeft.v, cell.bottomLeft.v, 600.0 / 800.0) == isovalue
  {
    assert TableEdges(8) == [Top, Left];
    UnitSidePlaced(cell, Top, isovalue, Interpolation, 200, 0);
    UnitSidePlaced(cell, Left, isovalue, Interpolation, 0, 200);
    assert CellCase(cell, isovalue) == 8;
    CellCasePlaceable(cell, isovalue, Interpolation);
    PairedSides(8, cell, isovalue, Interpolation);
  }

  /**
    The saddle with 1 at the top left and bottom right, cut at 0.5, has code
    10 and strokes top-to-left and bottom-to-right, cutting off each high
    corner on its own.
   */
  lemma SaddleStrokesExample(cell: Cell, isovalue: real, mode: Placement)
    requires cell == Cell(Corner(0.0, 0.0, 1.0), Corner(800.0, 0.0, 0.0), Corner(800.0, 800.0, 1.0), Corner(0.0, 800.0, 0.0))
    requires isovalue == 0.5
    ensures CellCase(cell, isovalue) == 10
    ensures Strokes(CellEndpoints(cell, isovalue, mode)) == [(Point(400, 0), Point(0, 400)), (Point(400, 800), Point(800, 400))]
  {
    UnitSidePlaced(cell, Top, isovalue, mode, 400, 0);
    UnitSidePlaced(cell, Left, isovalue, mode, 0, 400);
    UnitSidePlaced(cell, Bottom, isovalue, mode, 400, 800);
    UnitSidePlaced(cell, Right, isovalue, mode, 800, 400);
    assert CellCase(cell, isovalue) == 10;
    CellStrokes(cell, isovalue, mode);
  }
}
