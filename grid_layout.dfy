/** The grid builder's arithmetic: how many rows and columns cover a viewport,
    where the hexagon at (row, column) sits, and the row-major sequence of
    freshly built cells. */
module GridLayout {
  import opened Cells
  import opened Arith

  /** `Math.ceil` on exact reals: the least integer not below x. */
  function Ceil(x: real): (n: int)
    ensures x <= n as real < x + 1.0
  {
    var f := x.Floor;
    if f as real == x then f else f + 1
  }

  /** Scaling the bounds of a ceiling of x / k back by k. */
  lemma ScaledCeil(x: real, k: real, n: real)
    requires k > 0.0 && x / k <= n < x / k + 1.0
    ensures x <= n * k && (n - 1.0) * k < x
    ensures 0.0 <= x ==> 0.0 <= n
  {
    var q := x / k;
    assert q * k == x;
    assert x <= n * k by {
      ScaleMono(q, n, k);
    }
    var m := n - 1.0;
    assert m < q;
    ScaleMono(m, q, k);
    assert m * k < q * k;
    ScaleMono(0.0, q, k);
  }

  /** Columns for a viewport `width` pixels wide: enough to cover it, plus
      two columns of overscan, and no more. */
  function ColumnCount(width: nat): (columns: nat)
    ensures (columns - 2) as real * HORIZONTAL_SPACING >= width as real
    ensures (columns - 3) as real * HORIZONTAL_SPACING < width as real
  {
    var n := Ceil(width as real / HORIZONTAL_SPACING);
    ScaledCeil(width as real, HORIZONTAL_SPACING, n as real);
    n + 2
  }

  /** Rows for a viewport `height` pixels high when rows are `hexHeight`
      apart: enough to cover it, plus two rows of overscan, and no more. */
  function RowCount(hexHeight: real, height: nat): (rows: nat)
    requires hexHeight > 0.0
    ensures (rows - 2) as real * hexHeight >= height as real
    ensures (rows - 3) as real * hexHeight < height as real
  {
    var n := Ceil(height as real / hexHeight);
    ScaledCeil(height as real, hexHeight, n as real);
    n + 2
  }

  /** The cell built at (row, col): odd columns drop by half a hexagon, and
      the centre lies one edge right of and half a hexagon below the anchor. */
  function NewCell(hexHeight: real, row: nat, col: nat): (c: Cell)
    ensures c.center == Point(c.el.anchor.x + HEX_SIZE, c.el.anchor.y + hexHeight / 2.0)
    ensures !c.active && c.el == Element(c.el.anchor, None, false, None)
  {
    var offsetY := if col % 2 == 0 then 0.0 else hexHeight / 2.0;
    var x := col as real * HORIZONTAL_SPACING - HEX_SIZE;
    var y := row as real * hexHeight + offsetY - HEX_SIZE;
    Cell(Element(Point(x, y), None, false, None), Point(x + HEX_SIZE, y + hexHeight / 2.0), false)
  }

  /** The geometry of a built cell: centre relative to anchor and to the
      (row, col) lattice, with nothing active, pulsing or delayed. */
  lemma NewCellGeometry(hexHeight: real, row: nat, col: nat)
    ensures var c := NewCell(hexHeight, row, col);
      && c.center == Point(c.el.anchor.x + HEX_SIZE, c.el.anchor.y + hexHeight / 2.0)
      && c.center.x == col as real * HORIZONTAL_SPACING
      && c.center.y == row as real * hexHeight + (if col % 2 == 0 then 0.0 else hexHeight / 2.0)
                       - HEX_SIZE + hexHeight / 2.0
      && !c.active && !c.el.activeClass && c.el.pulse == None && c.el.delay == None
  {
  }

  /** Neighbouring columns are HORIZONTAL_SPACING apart, an odd column sits
      half a hexagon below the even column before it, and neighbouring rows
      are one hexagon apart. */
  lemma NewCellSpacing(hexHeight: real, row: nat, col: nat)
    ensures NewCell(hexHeight, row, col + 1).center.x - NewCell(hexHeight, row, col).center.x == HORIZONTAL_SPACING
    ensures col % 2 == 0 ==>
      NewCell(hexHeight, row, col + 1).center.y - NewCell(hexHeight, row, col).center.y == hexHeight / 2.0
    ensures NewCell(hexHeight, row + 1, col).center.y - NewCell(hexHeight, row, col).center.y == hexHeight
  {
  }

  /** Where every built centre lies: not left of the viewport, and at most one
      edge less half a hexagon above it. */
  ghost predicate OnGrid(hexHeight: real, c: Cell) {
    c.center.x >= 0.0 && c.center.y >= hexHeight / 2.0 - HEX_SIZE
  }

  lemma NewCellOnGrid(hexHeight: real, row: nat, col: nat)
    requires hexHeight > 0.0
    ensures OnGrid(hexHeight, NewCell(hexHeight, row, col))
  {
  }

  /** The first n cells of row `row`, in column order. */
  function GridRow(hexHeight: real, row: nat, n: nat): (cs: seq<Cell>)
    ensures |cs| == n
  {
    if n == 0 then [] else GridRow(hexHeight, row, n - 1) + [NewCell(hexHeight, row, n - 1)]
  }

  /** The first `rows` rows of `columns` cells each, row after row. */
  function GridRows(hexHeight: real, rows: nat, columns: nat): (cs: seq<Cell>)
    ensures |cs| == rows * columns
  {
    if rows == 0 then [] else GridRows(hexHeight, rows - 1, columns) + GridRow(hexHeight, rows - 1, columns)
  }

  /** The grid built for a viewport of the given size. */
  function Layout(hexHeight: real, width: nat, height: nat): (cs: seq<Cell>)
    requires hexHeight > 0.0
    ensures |cs| == RowCount(hexHeight, height) * ColumnCount(width)
  {
    GridRows(hexHeight, RowCount(hexHeight, height), ColumnCount(width))
  }

  lemma {:induction false} GridRowAt(hexHeight: real, row: nat, n: nat, col: nat)
    requires col < n
    ensures GridRow(hexHeight, row, n)[col] == NewCell(hexHeight, row, col)
  {
    if col < n - 1 {
      GridRowAt(hexHeight, row, n - 1, col);
    }
  }

  /** Row-major order: the cell at (row, col) is at index row * columns + col. */
  lemma {:induction false} GridRowsAt(hexHeight: real, rows: nat, columns: nat, row: nat, col: nat)
    requires row < rows && col < columns
    ensures row * columns + col < rows * columns
    ensures GridRows(hexHeight, rows, columns)[row * columns + col] == NewCell(hexHeight, row, col)
  {
    var before := GridRows(hexHeight, rows - 1, columns);
    assert (rows - 1) * columns + columns == rows * columns;
    if row < rows - 1 {
      GridRowsAt(hexHeight, rows - 1, columns, row, col);
    } else {
      GridRowAt(hexHeight, row, columns, col);
      assert row * columns + col - |before| == col;
    }
  }

  /** Conversely, index i holds the cell of row i / columns, column i % columns. */
  lemma GridRowsIndex(hexHeight: real, rows: nat, columns: nat, i: nat)
    requires i < rows * columns
    ensures columns > 0 && i / columns < rows
    ensures GridRows(hexHeight, rows, columns)[i] == NewCell(hexHeight, i / columns, i % columns)
  {
    assert columns > 0;
    var row, col := i / columns, i % columns;
    assert row * columns + col == i;
    NatScaleMono(rows, row, columns);
    GridRowsAt(hexHeight, rows, columns, row, col);
  }

  /** Every index of a grid holds the cell of its row and column, on the grid. */
  lemma GridRowsCells(hexHeight: real, rows: nat, columns: nat)
    requires hexHeight > 0.0
    ensures forall i :: 0 <= i < |GridRows(hexHeight, rows, columns)| ==>
      GridRows(hexHeight, rows, columns)[i] == NewCell(hexHeight, i / columns, i % columns)
      && OnGrid(hexHeight, GridRows(hexHeight, rows, columns)[i])
  {
    forall i | 0 <= i < |GridRows(hexHeight, rows, columns)|
      ensures GridRows(hexHeight, rows, columns)[i] == NewCell(hexHeight, i / columns, i % columns)
      ensures OnGrid(hexHeight, GridRows(hexHeight, rows, columns)[i])
    {
      GridRowsIndex(hexHeight, rows, columns, i);
      NewCellOnGrid(hexHeight, i / columns, i % columns);
    }
  }

  /** A freshly built grid: rows * columns cells in row-major order, all of
      them inactive, blank and on the grid. */
  lemma LayoutCells(hexHeight: real, width: nat, height: nat)
    requires hexHeight > 0.0
    ensures |Layout(hexHeight, width, height)| == RowCount(hexHeight, height) * ColumnCount(width)
    ensures forall i :: 0 <= i < |Layout(hexHeight, width, height)| ==>
      Layout(hexHeight, width, height)[i] == NewCell(hexHeight, i / ColumnCount(width), i % ColumnCount(width))
      && OnGrid(hexHeight, Layout(hexHeight, width, height)[i])
  {
    GridRowsCells(hexHeight, RowCount(hexHeight, height), ColumnCount(width));
  }

  /** A 1024-pixel-wide viewport gets ceil(1024 / 39) + 2 = 29 columns. */
  lemma ColumnsFor1024()
    ensures ColumnCount(1024) == 29
  {
    assert 26.0 < 1024.0 / HORIZONTAL_SPACING <= 27.0;
  }

  /** With the exact hexagon height sqrt(3) * 26, a 768-pixel-high viewport
      gets ceil(768 / 45.03...) + 2 = 20 rows. */
  lemma RowsFor768(hexHeight: real)
    requires hexHeight > 0.0 && hexHeight * hexHeight == 3.0 * HEX_SIZE * HEX_SIZE
    ensures RowCount(hexHeight, 768) == 20
  {
    SquareMonotone(hexHeight, 45.1);
    SquareMonotone(45.0, hexHeight);
    var q := 768.0 / hexHeight;
    assert q * hexHeight == 768.0;
    ScaleMono(17.0, q, hexHeight);
    ScaleMono(q, 18.0, hexHeight);
  }
}
