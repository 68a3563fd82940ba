/**
  The view layout of src/components/Game.jsx (`viewLayout`): the bounding
  box, in rows and columns, of the cells the numbers cover, so that the
  board is drawn without its empty rows and columns.
 */
module Layout {
  import opened Wrappers
  import opened Topology
  import opened Puzzles

  /** The bounding box: first and last row and column, and the size. */
  datatype Box = Box(minR: int, maxR: int, minC: int, maxC: int, width: int, height: int)

  /** `numbers.flatMap(n => n.indices)`: a cell is listed when some number covers it. */
  function AllIndices(ns: seq<NumberDef>): (cells: seq<int>)
    ensures forall x :: x in cells <==> exists j :: 0 <= j < |ns| && x in ns[j].indices
  {
    if ns == [] then []
    else
      var cells := AllIndices(ns[..|ns| - 1]) + ns[|ns| - 1].indices;
      assert forall j :: 0 <= j < |ns| - 1 ==> ns[..|ns| - 1][j] == ns[j];
      cells
  }

  /**
    `idx % cols`: the remainder takes the sign of the dividend. For a
    positive divisor `Math.floor(idx / cols)` is Dafny's `idx / cols`.
   */
  function Rem(a: int, b: int): (r: int)
    requires b > 0
    ensures a >= 0 ==> r == a % b
    ensures a == (if a >= 0 then a / b else -((-a) / b)) * b + r
  {
    if a >= 0 then a % b else -((-a) % b)
  }

  /** `Math.min(...s)` of a nonempty sequence: a member no greater than any. */
  function Least(s: seq<int>): (m: int)
    requires s != []
    ensures m in s && forall x :: x in s ==> m <= x
  {
    if |s| == 1 then s[0]
    else
      var rest := Least(s[1..]);
      assert forall x :: x in s ==> x == s[0] || x in s[1..];
      if s[0] <= rest then s[0] else rest
  }

  /** `Math.max(...s)` of a nonempty sequence: a member no less than any. */
  function Greatest(s: seq<int>): (m: int)
    requires s != []
    ensures m in s && forall x :: x in s ==> x <= m
  {
    if |s| == 1 then s[0]
    else
      var rest := Greatest(s[1..]);
      assert forall x :: x in s ==> x == s[0] || x in s[1..];
      if s[0] >= rest then s[0] else rest
  }

  /** The row of each cell. */
  function RowsOf(cells: seq<int>, cols: nat): seq<int>
    requires cols > 0
  {
    seq(|cells|, i requires 0 <= i < |cells| => cells[i] / cols)
  }

  /** The column of each cell. */
  function ColsOf(cells: seq<int>, cols: nat): seq<int>
    requires cols > 0
  {
    seq(|cells|, i requires 0 <= i < |cells| => Rem(cells[i], cols))
  }

  /**
    `b` is the tightest box around `cells`: its size matches its bounds,
    every cell lies inside it, and a cell touches each of its four edges.
   */
  predicate Encloses(b: Box, cells: seq<int>, cols: nat)
    requires cols > 0
  {
    && b.width == b.maxC - b.minC + 1 >= 1
    && b.height == b.maxR - b.minR + 1 >= 1
    && (forall x :: x in cells ==> b.minR <= x / cols <= b.maxR && b.minC <= Rem(x, cols) <= b.maxC)
    && (exists x :: x in cells && x / cols == b.minR)
    && (exists x :: x in cells && x / cols == b.maxR)
    && (exists x :: x in cells && Rem(x, cols) == b.minC)
    && (exists x :: x in cells && Rem(x, cols) == b.maxC)
  }

  /** The box of the rows and columns of some cells. */
  function BoxOf(cells: seq<int>, cols: nat): (b: Box)
    requires cells != [] && cols > 0
    ensures Encloses(b, cells, cols)
  {
    var rows, columns := RowsOf(cells, cols), ColsOf(cells, cols);
    var minR, maxR := Least(rows), Greatest(rows);
    var minC, maxC := Least(columns), Greatest(columns);
    assert forall x :: x in cells ==> x / cols in rows && Rem(x, cols) in columns by {
      forall x | x in cells ensures x / cols in rows && Rem(x, cols) in columns {
        var i :| 0 <= i < |cells| && cells[i] == x;
        assert rows[i] == x / cols && columns[i] == Rem(x, cols);
      }
    }
    var i1 :| 0 <= i1 < |rows| && rows[i1] == minR;
    var i2 :| 0 <= i2 < |rows| && rows[i2] == maxR;
    var i3 :| 0 <= i3 < |columns| && columns[i3] == minC;
    var i4 :| 0 <= i4 < |columns| && columns[i4] == maxC;
    assert cells[i1] in cells && cells[i2] in cells && cells[i3] in cells && cells[i4] in cells;
    Box(minR, maxR, minC, maxC, maxC - minC + 1, maxR - minR + 1)
  }

  /**
    `viewLayout`: the tightest box around every covered cell. With no cell,
    or no column, the source's box is not finite (`Infinity` or `NaN`),
    which is `None` here.
   */
  function ViewLayout(ns: seq<NumberDef>, cols: nat): (b: Option<Box>)
    ensures b.Some? <==> cols > 0 && AllIndices(ns) != []
    ensures b.Some? ==> cols > 0 && Encloses(b.value, AllIndices(ns), cols)
  {
    var cells := AllIndices(ns);
    if cols == 0 || cells == [] then
      None
    else
      assert cells[0] in cells;
      Some(BoxOf(cells, cols))
  }

  /** A cell below `rows * cols` lies in a row below `rows`. */
  lemma RowBelow(x: int, rows: nat, cols: nat)
    requires cols > 0 && 0 <= x < rows * cols
    ensures 0 <= x / cols < rows
  {
    if x / cols >= rows {
      MulMonotone(rows, x / cols, cols);
      assert false;
    }
  }

  /** The box of a generated puzzle exists and lies on its grid. */
  lemma LayoutOnGrid(p: Puzzle)
    requires ValidPuzzle(p)
    ensures ViewLayout(p.numbers, p.cols).Some?
    ensures var b := ViewLayout(p.numbers, p.cols).value;
      0 <= b.minR && b.maxR < p.rows && 0 <= b.minC && b.maxC < p.cols
  {
    TemplateLayout(Template(p.rows, p.cols, p.numbers, p.activeCells));
  }

  /** The box of a well-formed template exists and lies on its grid. */
  lemma TemplateLayout(t: Template)
    requires WellFormed(t)
    ensures ViewLayout(t.numbers, t.cols).Some?
    ensures var b := ViewLayout(t.numbers, t.cols).value;
      0 <= b.minR && b.maxR < t.rows && 0 <= b.minC && b.maxC < t.cols
  {
    assert RunShape(t.numbers[0], t.rows, t.cols);
    assert t.numbers[0].indices[0] in AllIndices(t.numbers);
    ActiveCellsInGrid(t);
    forall x | x in AllIndices(t.numbers) ensures 0 <= x / t.cols < t.rows && 0 <= Rem(x, t.cols) < t.cols {
      var j :| 0 <= j < |t.numbers| && x in t.numbers[j].indices;
      OccupiedHas(t.numbers, j, x);
      RowBelow(x, t.rows, t.cols);
    }
  }
}
