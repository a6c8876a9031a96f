/** The cells of a screen, stored row after row, and what is done to them. */
module ScreenGrid {
  import opened Wrappers

  datatype Color = Default | Indexed(n: nat) | Rgb(r: nat, g: nat, b: nat)

  datatype Attrs = Attrs(bold: bool, italic: bool, underline: bool, blink: bool, reverse: bool, strikethrough: bool)

  datatype Pen = Pen(fg: Color, bg: Color, attrs: Attrs)

  const PLAIN := Pen(Default, Default, Attrs(false, false, false, false, false, false))

  datatype Cell = Cell(character: nat, pen: Pen)

  const BLANK := Cell(0x20, PLAIN)

  lemma IndexInGrid(r: nat, c: nat, rows: nat, cols: nat)
    requires r < rows && c < cols
    ensures 0 <= r * cols + c < rows * cols
  {
    assert (r + 1) * cols <= rows * cols;
  }

  lemma RowsApart(r: nat, i: nat, cols: nat)
    requires r < i
    ensures r * cols + cols <= i * cols
  {
    assert (r + 1) * cols <= i * cols;
  }

  /** Two places with the same index are the same place. */
  lemma IndexIsUnique(r: nat, c: nat, i: nat, j: nat, cols: nat)
    requires c < cols && j < cols && r * cols + c == i * cols + j
    ensures r == i && c == j
  {
    if r < i { RowsApart(r, i, cols); }
    if i < r { RowsApart(i, r, cols); }
  }

  datatype Grid = Grid(rows: nat, cols: nat, cells: seq<Cell>) {
    predicate Valid() { |cells| == rows * cols }

    function At(r: nat, c: nat): Cell
      requires Valid() && r < rows && c < cols
    {
      IndexInGrid(r, c, rows, cols);
      cells[r * cols + c]
    }

    function Put(r: nat, c: nat, x: Cell): (g: Grid)
      requires Valid() && r < rows && c < cols
      ensures g.Valid() && g.rows == rows && g.cols == cols
      ensures forall i, j :: 0 <= i < rows && 0 <= j < cols ==> g.At(i, j) == if i == r && j == c then x else At(i, j)
    {
      IndexInGrid(r, c, rows, cols);
      var g := Grid(rows, cols, cells[r * cols + c := x]);
      assert forall i, j :: 0 <= i < rows && 0 <= j < cols ==> g.At(i, j) == if i == r && j == c then x else At(i, j) by {
        forall i, j | 0 <= i < rows && 0 <= j < cols
          ensures g.At(i, j) == if i == r && j == c then x else At(i, j)
        {
          IndexInGrid(i, j, rows, cols);
          if i * cols + j == r * cols + c { IndexIsUnique(i, j, r, c, cols); }
        }
      }
      g
    }
  }

  function BlankGrid(rows: nat, cols: nat): (g: Grid)
    ensures g.Valid() && g.rows == rows && g.cols == cols
    ensures forall r, c :: 0 <= r < rows && 0 <= c < cols ==> g.At(r, c) == BLANK
  {
    var g := Grid(rows, cols, seq(rows * cols, _ => BLANK));
    assert forall r, c :: 0 <= r < rows && 0 <= c < cols ==> g.At(r, c) == BLANK by {
      forall r, c | 0 <= r < rows && 0 <= c < cols
        ensures g.At(r, c) == BLANK
      {
        IndexInGrid(r, c, rows, cols);
      }
    }
    g
  }

  lemma IndexSplits(r: nat, c: nat, cols: nat)
    requires c < cols
    ensures (r * cols + c) / cols == r && (r * cols + c) % cols == c
  {
    var n := r * cols + c;
    IndexIsUnique(n / cols, n % cols, r, c, cols);
  }

  lemma IndexHasPlace(n: nat, rows: nat, cols: nat)
    requires n < rows * cols
    ensures cols > 0 && n / cols < rows && n % cols < cols && n == n / cols * cols + n % cols
  {
    assert n / cols * cols <= n < rows * cols;
  }

  /** The grid with the given cells. */
  function GridOf(rows: nat, cols: nat, f: (nat, nat) --> Cell): (g: Grid)
    requires forall r, c :: 0 <= r < rows && 0 <= c < cols ==> f.requires(r, c)
    ensures g.Valid() && g.rows == rows && g.cols == cols
    ensures forall r, c :: 0 <= r < rows && 0 <= c < cols ==> g.At(r, c) == f(r, c)
  {
    assert forall n :: 0 <= n < rows * cols ==> cols > 0 && n / cols < rows && n % cols < cols by {
      forall n | 0 <= n < rows * cols ensures cols > 0 && n / cols < rows && n % cols < cols {
        IndexHasPlace(n, rows, cols);
      }
    }
    var g := Grid(rows, cols, seq(rows * cols, n requires 0 <= n < rows * cols => f(n / cols, n % cols)));
    assert forall r, c :: 0 <= r < rows && 0 <= c < cols ==> g.At(r, c) == f(r, c) by {
      forall r, c | 0 <= r < rows && 0 <= c < cols
        ensures g.At(r, c) == f(r, c)
      {
        IndexInGrid(r, c, rows, cols);
        IndexSplits(r, c, cols);
      }
    }
    g
  }

  lemma SameCellsSameGrid(g: Grid, h: Grid)
    requires Alike(g, h) && forall r, c :: 0 <= r < g.rows && 0 <= c < g.cols ==> g.At(r, c) == h.At(r, c)
    ensures g == h
  {
    forall n | 0 <= n < |g.cells|
      ensures g.cells[n] == h.cells[n]
    {
      IndexHasPlace(n, g.rows, g.cols);
      assert g.At(n / g.cols, n % g.cols) == h.At(n / g.cols, n % g.cols);
    }
  }

  /** `h` has the shape of `g`. */
  ghost predicate Alike(g: Grid, h: Grid) {
    g.Valid() && h.Valid() && g.rows == h.rows && g.cols == h.cols
  }

  // ---- Blanking -----------------------------------------------------------

  method BlankCells(g: Grid, r: nat, from: nat, to: nat) returns (h: Grid)
    requires g.Valid() && r < g.rows && to <= g.cols
    ensures Alike(g, h)
    ensures forall i, j :: 0 <= i < g.rows && 0 <= j < g.cols ==>
              h.At(i, j) == if i == r && from <= j < to then BLANK else g.At(i, j)
  {
    hide Grid.At, Grid.Put, Grid.Valid;
    h := g;
    for c := from to Max(from, to)
      invariant Alike(g, h)
      invariant forall i, j :: 0 <= i < g.rows && 0 <= j < g.cols ==>
                  h.At(i, j) == if i == r && from <= j < c then BLANK else g.At(i, j)
    {
      h := h.Put(r, c, BLANK);
    }
  }

  method BlankRows(g: Grid, from: nat, to: nat) returns (h: Grid)
    requires g.Valid() && to <= g.rows
    ensures Alike(g, h)
    ensures forall i, j :: 0 <= i < g.rows && 0 <= j < g.cols ==>
              h.At(i, j) == if from <= i < to then BLANK else g.At(i, j)
  {
    hide Grid.At, Grid.Put, Grid.Valid;
    h := g;
    for r := from to Max(from, to)
      invariant Alike(g, h)
      invariant forall i, j :: 0 <= i < g.rows && 0 <= j < g.cols ==>
                  h.At(i, j) == if from <= i < r then BLANK else g.At(i, j)
    {
      h := BlankCells(h, r, 0, g.cols);
    }
  }

  // ---- Moving rows --------------------------------------------------------

  method CopyRow(g: Grid, src: nat, dst: nat) returns (h: Grid)
    requires g.Valid() && src < g.rows && dst < g.rows
    ensures Alike(g, h)
    ensures forall i, j :: 0 <= i < g.rows && 0 <= j < g.cols ==>
              h.At(i, j) == if i == dst then g.At(src, j) else g.At(i, j)
  {
    hide Grid.At, Grid.Put, Grid.Valid;
    h := g;
    for c := 0 to g.cols
      invariant Alike(g, h)
      invariant forall i, j :: 0 <= i < g.rows && 0 <= j < g.cols ==>
                  h.At(i, j) == if i == dst && j < c then g.At(src, j) else g.At(i, j)
    {
      h := h.Put(dst, c, h.At(src, c));
    }
  }

  /** Cell `(r, c)` after rows `[top, bottom)` moved up by `n`. */
  function MovedUp(g: Grid, n: nat, top: nat, bottom: nat, r: nat, c: nat): Cell
    requires g.Valid() && r < g.rows && c < g.cols && bottom <= g.rows
  {
    if !(top <= r < bottom) then g.At(r, c) else if r + n < bottom then g.At(r + n, c) else BLANK
  }

  function MovedDown(g: Grid, n: nat, top: nat, bottom: nat, r: nat, c: nat): Cell
    requires g.Valid() && r < g.rows && c < g.cols && bottom <= g.rows
  {
    if !(top <= r < bottom) then g.At(r, c) else if r >= top + n then g.At(r - n, c) else BLANK
  }

  /** Moves rows in place, from the top down, and blanks the rows left behind. */
  method MoveUp(g: Grid, n: nat, top: nat, bottom: nat) returns (h: Grid)
    requires g.Valid() && top < bottom <= g.rows && n <= bottom - top
    ensures Alike(g, h)
    ensures forall i, j :: 0 <= i < g.rows && 0 <= j < g.cols ==> h.At(i, j) == MovedUp(g, n, top, bottom, i, j)
  {
    hide Grid.At, Grid.Put, Grid.Valid;
    h := g;
    for r := top to bottom - n
      invariant Alike(g, h)
      invariant forall i, j :: top <= i < r && 0 <= j < g.cols ==> h.At(i, j) == g.At(i + n, j)
      invariant forall i, j :: 0 <= i < g.rows && !(top <= i < r) && 0 <= j < g.cols ==> h.At(i, j) == g.At(i, j)
    {
      var src := r + n;
      assert forall j :: 0 <= j < g.cols ==> h.At(src, j) == g.At(src, j);
      h := CopyRow(h, src, r);
    }
    h := BlankRows(h, bottom - n, bottom);
  }

  /** The same downwards, from the bottom up. */
  method MoveDown(g: Grid, n: nat, top: nat, bottom: nat) returns (h: Grid)
    requires g.Valid() && top < bottom <= g.rows && n <= bottom - top
    ensures Alike(g, h)
    ensures forall i, j :: 0 <= i < g.rows && 0 <= j < g.cols ==> h.At(i, j) == MovedDown(g, n, top, bottom, i, j)
  {
    hide Grid.At, Grid.Put, Grid.Valid;
    h := g;
    for r := bottom downto top + n
      invariant Alike(g, h)
      invariant forall i, j :: r <= i < bottom && 0 <= j < g.cols ==> h.At(i, j) == g.At(i - n, j)
      invariant forall i, j :: 0 <= i < g.rows && !(r <= i < bottom) && 0 <= j < g.cols ==> h.At(i, j) == g.At(i, j)
    {
      var src := r - n;
      assert forall j :: 0 <= j < g.cols ==> h.At(src, j) == g.At(src, j);
      h := CopyRow(h, src, r);
    }
    h := BlankRows(h, top, top + n);
  }

  // ---- Moving cells within a row ------------------------------------------

  /** Cell `(r, c)` after `n` blanks were put in at `(row, col)`. */
  function MovedRight(g: Grid, row: nat, col: nat, n: nat, r: nat, c: nat): Cell
    requires g.Valid() && r < g.rows && c < g.cols
  {
    if r != row || c < col then g.At(r, c) else if c >= col + n then g.At(r, c - n) else BLANK
  }

  /** Cell `(r, c)` after `n` cells were taken out at `(row, col)`. */
  function MovedLeft(g: Grid, row: nat, col: nat, n: nat, r: nat, c: nat): Cell
    requires g.Valid() && r < g.rows && c < g.cols
  {
    if r != row || c < col then g.At(r, c) else if c + n < g.cols then g.At(r, c + n) else BLANK
  }

  method MoveRight(g: Grid, row: nat, col: nat, n: nat) returns (h: Grid)
    requires g.Valid() && row < g.rows && col < g.cols
    ensures Alike(g, h)
    ensures forall i, j :: 0 <= i < g.rows && 0 <= j < g.cols ==> h.At(i, j) == MovedRight(g, row, col, n, i, j)
  {
    hide Grid.At, Grid.Put, Grid.Valid;
    h := g;
    for c := g.cols downto Min(col + n, g.cols)
      invariant Alike(g, h)
      invariant forall j :: c <= j < g.cols ==> h.At(row, j) == g.At(row, j - n)
      invariant forall i, j :: 0 <= i < g.rows && 0 <= j < g.cols && !(i == row && c <= j) ==> h.At(i, j) == g.At(i, j)
    {
      assert h.At(row, c - n) == g.At(row, c - n);
      h := h.Put(row, c, h.At(row, c - n));
    }
    h := BlankCells(h, row, col, Min(col + n, g.cols));
  }

  method MoveLeft(g: Grid, row: nat, col: nat, n: nat) returns (h: Grid)
    requires g.Valid() && row < g.rows && col < g.cols
    ensures Alike(g, h)
    ensures forall i, j :: 0 <= i < g.rows && 0 <= j < g.cols ==> h.At(i, j) == MovedLeft(g, row, col, n, i, j)
  {
    hide Grid.At, Grid.Put, Grid.Valid;
    h := g;
    for c := col to g.cols
      invariant Alike(g, h)
      invariant forall i, j :: 0 <= i < g.rows && 0 <= j < g.cols ==>
                  h.At(i, j) == if j < c then MovedLeft(g, row, col, n, i, j) else g.At(i, j)
    {
      if c + n < g.cols {
        h := h.Put(row, c, h.At(row, c + n));
      } else {
        h := h.Put(row, c, BLANK);
      }
    }
  }

  // ---- A new size ---------------------------------------------------------

  /** As much of `g` as fits a grid of the given size, and blanks elsewhere. */
  method Refit(g: Grid, rows: nat, cols: nat) returns (h: Grid)
    requires g.Valid()
    ensures h.Valid() && h.rows == rows && h.cols == cols
    ensures forall i, j :: 0 <= i < rows && 0 <= j < cols ==>
              h.At(i, j) == if i < g.rows && j < g.cols then g.At(i, j) else BLANK
  {
    hide Grid.At, Grid.Put, Grid.Valid;
    h := BlankGrid(rows, cols);
    for r := 0 to Min(g.rows, rows)
      invariant h.Valid() && h.rows == rows && h.cols == cols
      invariant forall i, j :: 0 <= i < rows && 0 <= j < cols ==>
                  h.At(i, j) == if i < r && j < g.cols then g.At(i, j) else BLANK
    {
      for c := 0 to Min(g.cols, cols)
        invariant h.Valid() && h.rows == rows && h.cols == cols
        invariant forall i, j :: 0 <= i < rows && 0 <= j < cols ==>
                    h.At(i, j) == if (i < r && j < g.cols) || (i == r && j < c) then g.At(i, j) else BLANK
      {
        h := h.Put(r, c, g.At(r, c));
      }
    }
  }
}
