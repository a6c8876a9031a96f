/** The screen buffer of the terminal, and the painter that repaints dirty rows. */
module ScreenSurface {
  import opened Wrappers
  import opened ScreenGrid

  /** What the painter sees: the active grid and which of its rows to repaint. */
  datatype Surface = Surface(grid: Grid, dirty: seq<bool>) {
    predicate Valid() { grid.Valid() && |dirty| == grid.rows }

    predicate IsClean(r: nat) { r < |dirty| && !dirty[r] }
  }

  /** Row `r` looks the same in both grids. */
  ghost predicate SameRow(g: Grid, h: Grid, r: nat)
    requires g.Valid() && h.Valid()
  {
    r < g.rows && r < h.rows && g.cols == h.cols && forall c :: 0 <= c < g.cols ==> g.At(r, c) == h.At(r, c)
  }

  /** Every row that changed from `s` to `t` is dirty in `t`, and so is every
      row that was dirty before. */
  ghost predicate Marks(s: Surface, t: Surface) {
    && s.Valid() && t.Valid()
    && forall r: nat :: t.IsClean(r) ==> s.IsClean(r) && SameRow(s.grid, t.grid, r)
  }

  /** The picture is right in every clean row. */
  ghost predicate InSync(shown: Grid, s: Surface) {
    shown.Valid() && s.Valid() && forall r: nat :: s.IsClean(r) ==> SameRow(shown, s.grid, r)
  }

  lemma MarksThenMarks(s: Surface, t: Surface, u: Surface)
    requires Marks(s, t) && Marks(t, u)
    ensures Marks(s, u)
  {
    hide Grid.At, Grid.Valid;
  }

  lemma SyncIsKept(shown: Grid, s: Surface, t: Surface)
    requires InSync(shown, s) && Marks(s, t)
    ensures InSync(shown, t)
  {
    hide Grid.At, Grid.Valid;
  }

  /** A run of changes, each of which marks the rows it touches. */
  ghost predicate IsRun(states: seq<Surface>) {
    forall i :: 0 <= i < |states| - 1 ==> Marks(states[i], states[i + 1])
  }

  /** The picture stays right in every clean row, however many changes are made
      before the next repaint. */
  lemma {:induction false} RunKeepsSync(shown: Grid, states: seq<Surface>)
    requires states != [] && IsRun(states) && InSync(shown, states[0])
    ensures InSync(shown, states[|states| - 1])
  {
    hide Marks, InSync;
    if |states| > 1 {
      var n := |states| - 2;
      RunKeepsSync(shown, states[..n + 1]);
      assert Marks(states[n], states[n + 1]);
      SyncIsKept(shown, states[n], states[n + 1]);
    }
  }

  function AllDirty(n: nat): seq<bool> { seq(n, _ => true) }

  /** The dirty flags after rows `[from, to)` have been marked. */
  function MarkRows(dirty: seq<bool>, from: nat, to: nat): (r: seq<bool>)
    ensures |r| == |dirty| && forall i :: 0 <= i < |r| ==> r[i] == (dirty[i] || from <= i < to)
  {
    seq(|dirty|, i requires 0 <= i < |dirty| => dirty[i] || from <= i < to)
  }

  /** Marking the rows that changed is enough. */
  lemma ChangedRowsAreMarked(s: Surface, t: Surface, from: nat, to: nat)
    requires s.Valid() && Alike(s.grid, t.grid) && t.dirty == MarkRows(s.dirty, from, to)
    requires forall r, c :: 0 <= r < s.grid.rows && 0 <= c < s.grid.cols && !(from <= r < to) ==>
               t.grid.At(r, c) == s.grid.At(r, c)
    ensures Marks(s, t)
  {
    hide Grid.At, Grid.Valid;
  }

  // ---- Scrollback ---------------------------------------------------------

  function Pushed(lines: seq<seq<Cell>>, line: seq<Cell>, limit: nat): seq<seq<Cell>> {
    var more := lines + [line];
    if |more| > limit then more[1..] else more
  }

  function PushedAll(lines: seq<seq<Cell>>, more: seq<seq<Cell>>, limit: nat): seq<seq<Cell>> {
    if more == [] then lines else Pushed(PushedAll(lines, more[..|more| - 1], limit), more[|more| - 1], limit)
  }

  /** The last `limit` lines, or all if they are fewer. */
  function LastLines(lines: seq<seq<Cell>>, limit: nat): seq<seq<Cell>> {
    if |lines| <= limit then lines else lines[|lines| - limit..]
  }

  /** Pushing line by line keeps the most recent lines. */
  lemma {:induction false} ScrollbackKeepsLast(lines: seq<seq<Cell>>, more: seq<seq<Cell>>, limit: nat)
    requires |lines| <= limit
    ensures PushedAll(lines, more, limit) == LastLines(lines + more, limit)
  {
    if more == [] {
      assert lines + more == lines;
    } else {
      var front, last := more[..|more| - 1], more[|more| - 1];
      ScrollbackKeepsLast(lines, front, limit);
      assert lines + more == lines + front + [last];
      if |lines + front| >= limit && limit > 0 {
        assert LastLines(lines + front, limit) + [last] == (lines + more)[|lines + front| - limit..];
      }
    }
  }

  class ScreenBuffer {
    var rows: nat
    var cols: nat
    var primary: seq<Cell>
    var alternate: seq<Cell>
    var usingAlternate: bool
    var scrollback: seq<seq<Cell>>
    var scrollbackLimit: nat
    var dirty: seq<bool>

    ghost predicate Valid()
      reads this
    {
      && rows > 0 && cols > 0 && |dirty| == rows
      && |primary| == rows * cols && |alternate| == rows * cols
    }

    /** The grid that is drawn on and shown. */
    function Active(): (g: Grid)
      requires Valid()
      reads this
      ensures g.Valid() && g.rows == rows && g.cols == cols
    {
      Grid(rows, cols, if usingAlternate then alternate else primary)
    }

    /** The other one. */
    function Hidden(): (g: Grid)
      requires Valid()
      reads this
      ensures g.Valid() && g.rows == rows && g.cols == cols
    {
      Grid(rows, cols, if usingAlternate then primary else alternate)
    }

    function View(): (s: Surface)
      requires Valid()
      reads this
      ensures s.Valid()
    {
      Surface(Active(), dirty)
    }

    constructor (rows: nat, cols: nat)
      requires rows > 0 && cols > 0
      ensures Valid() && this.rows == rows && this.cols == cols && !usingAlternate
      ensures Active() == BlankGrid(rows, cols) && dirty == AllDirty(rows) && scrollback == []
    {
      this.rows, this.cols := rows, cols;
      primary := BlankGrid(rows, cols).cells;
      alternate := BlankGrid(rows, cols).cells;
      usingAlternate := false;
      scrollback, scrollbackLimit := [], 10_000;
      dirty := AllDirty(rows);
    }

    /** Replaces the active grid and marks rows `[from, to)`. */
    method Redraw(g: Grid, from: nat, to: nat)
      requires Valid() && Alike(Active(), g)
      requires forall r, c :: 0 <= r < rows && 0 <= c < cols && !(from <= r < to) ==> g.At(r, c) == Active().At(r, c)
      modifies this`primary, this`alternate, this`dirty
      ensures Valid() && Marks(old(View()), View())
      ensures Active() == g && Hidden() == old(Hidden()) && dirty == MarkRows(old(dirty), from, to)
    {
      hide Grid.At;
      ChangedRowsAreMarked(View(), Surface(g, MarkRows(dirty, from, to)), from, to);
      if usingAlternate {
        alternate := g.cells;
      } else {
        primary := g.cells;
      }
      dirty := MarkRows(dirty, from, to);
    }

    method PutChar(row: nat, col: nat, ch: nat, pen: Pen)
      requires Valid()
      modifies this`primary, this`alternate, this`dirty
      ensures Valid() && Marks(old(View()), View()) && Hidden() == old(Hidden())
      ensures forall r, c :: 0 <= r < rows && 0 <= c < cols ==>
                Active().At(r, c) == if r == row && c == col then Cell(ch, pen) else old(Active()).At(r, c)
    {
      hide Grid.At, Grid.Valid;
      if row < rows && col < cols {
        Redraw(Active().Put(row, col, Cell(ch, pen)), row, row + 1);
      }
    }

    /** Blanks the whole screen. */
    method Clear()
      requires Valid()
      modifies this`primary, this`alternate, this`dirty
      ensures Valid() && Marks(old(View()), View()) && Hidden() == old(Hidden())
      ensures forall r, c :: 0 <= r < rows && 0 <= c < cols ==>
                Active().At(r, c) == BLANK
    {
      hide Grid.At, Grid.Valid;
      Redraw(BlankGrid(rows, cols), 0, rows);
    }

    /** From the cursor to the end of the screen. */
    method ClearBelow(row: nat, col: nat)
      requires Valid() && row < rows
      modifies this`primary, this`alternate, this`dirty
      ensures Valid() && Marks(old(View()), View()) && Hidden() == old(Hidden())
      ensures forall r, c :: 0 <= r < rows && 0 <= c < cols ==>
                Active().At(r, c) == if r > row || (r == row && c >= col) then BLANK else old(Active()).At(r, c)
    {
      hide Grid.At, Grid.Valid;
      var g := BlankCells(Active(), row, col, cols);
      g := BlankRows(g, row + 1, rows);
      Redraw(g, if col < cols then row else row + 1, rows);
    }

    /** From the start of the screen to the cursor. */
    method ClearAbove(row: nat, col: nat)
      requires Valid() && row < rows
      modifies this`primary, this`alternate, this`dirty
      ensures Valid() && Marks(old(View()), View()) && Hidden() == old(Hidden())
      ensures forall r, c :: 0 <= r < rows && 0 <= c < cols ==>
                Active().At(r, c) == if r < row || (r == row && c <= col) then BLANK else old(Active()).At(r, c)
    {
      hide Grid.At, Grid.Valid;
      var g := BlankRows(Active(), 0, row);
      g := BlankCells(g, row, 0, Min(col, cols - 1) + 1);
      Redraw(g, 0, row + 1);
    }

    /** Part of one line. */
    method ClearLine(row: nat, from: nat, to: nat)
      requires Valid()
      modifies this`primary, this`alternate, this`dirty
      ensures Valid() && Marks(old(View()), View()) && Hidden() == old(Hidden())
      ensures forall r, c :: 0 <= r < rows && 0 <= c < cols ==>
                Active().At(r, c) == if r == row && from <= c < to then BLANK else old(Active()).At(r, c)
    {
      hide Grid.At, Grid.Valid;
      if row < rows {
        var g := BlankCells(Active(), row, from, Min(to, cols));
        Redraw(g, row, row + 1);
      }
    }

    /** Moves the rows of the region up. Lines that leave at the top of the main
        screen go to the scrollback. */
    method ScrollUp(n: nat, top: nat, bottom: nat)
      requires Valid()
      modifies this`primary, this`alternate, this`dirty, this`scrollback
      ensures Valid() && Marks(old(View()), View()) && Hidden() == old(Hidden())
      ensures forall r, c :: 0 <= r < rows && 0 <= c < cols ==>
                Active().At(r, c) == MovedUp(old(Active()), n, Min(top, rows - 1), Min(bottom, rows), r, c)
      ensures
        var lost := ScrolledOut(old(Active()), Min(n, bottom));
        scrollback == if Min(top, rows - 1) == 0 && !usingAlternate && scrollbackLimit > 0
                      then PushedAll(old(scrollback), lost, scrollbackLimit) else old(scrollback)
    {
      hide Grid.At, Grid.Valid, PushedAll, MovedUp;
      CapUp(Active(), n, Min(top, rows - 1), Min(bottom, rows));
      var top', bottom' := Min(top, rows - 1), Min(bottom, rows);
      ScrolledOutIsCapped(Active(), n, bottom);
      if top' >= bottom' {
        NothingPushed(scrollback, scrollbackLimit);
        return;
      }
      var n' := Min(n, bottom' - top');
      if !usingAlternate && top' == 0 && scrollbackLimit > 0 {
        SaveLines(n');
      }
      var g := MoveUp(Active(), n', top', bottom');
      Redraw(g, top', bottom');
    }

    /** Saves the first `n` lines of the main screen. */
    method SaveLines(n: nat)
      requires Valid() && !usingAlternate && n <= rows
      modifies this`scrollback
      ensures scrollback == PushedAll(old(scrollback), ScrolledOut(Active(), n), scrollbackLimit)
    {
      hide Grid.At, Grid.Valid;
      var lines := scrollback;
      for i := 0 to n
        invariant lines == PushedAll(scrollback, ScrolledOut(Active(), i), scrollbackLimit)
      {
        assert ScrolledOut(Active(), i + 1)[..i] == ScrolledOut(Active(), i);
        lines := lines + [Line(Active(), i)];
        if |lines| > scrollbackLimit {
          lines := lines[1..];
        }
      }
      scrollback := lines;
    }

    /** Moves the rows of the region down. */
    method ScrollDown(n: nat, top: nat, bottom: nat)
      requires Valid()
      modifies this`primary, this`alternate, this`dirty
      ensures Valid() && Marks(old(View()), View()) && Hidden() == old(Hidden())
      ensures forall r, c :: 0 <= r < rows && 0 <= c < cols ==>
                Active().At(r, c) == MovedDown(old(Active()), n, Min(top, rows - 1), Min(bottom, rows), r, c)
    {
      hide Grid.At, Grid.Valid, MovedDown;
      CapDown(Active(), n, Min(top, rows - 1), Min(bottom, rows));
      var top', bottom' := Min(top, rows - 1), Min(bottom, rows);
      if top' >= bottom' {
        return;
      }
      var n' := Min(n, bottom' - top');
      var g := MoveDown(Active(), n', top', bottom');
      Redraw(g, top', bottom');
    }

    /** Lines put in at `row` push the others down, out of the region. */
    method InsertLines(row: nat, n: nat, bottom: nat)
      requires Valid()
      modifies this`primary, this`alternate, this`dirty
      ensures Valid() && Marks(old(View()), View()) && Hidden() == old(Hidden())
      ensures forall r, c :: 0 <= r < rows && 0 <= c < cols ==>
                Active().At(r, c) == if row >= bottom then old(Active()).At(r, c)
                                     else MovedDown(old(Active()), n, Min(row, rows - 1), Min(bottom, rows), r, c)
    {
      hide Grid.At, Grid.Valid;
      if row < bottom {
        ScrollDown(n, row, bottom);
      }
    }

    /** Lines taken out at `row` pull the others up. */
    method DeleteLines(row: nat, n: nat, bottom: nat)
      requires Valid()
      modifies this`primary, this`alternate, this`dirty, this`scrollback
      ensures Valid() && Marks(old(View()), View()) && Hidden() == old(Hidden())
      ensures forall r, c :: 0 <= r < rows && 0 <= c < cols ==>
                Active().At(r, c) == if row >= bottom then old(Active()).At(r, c)
                                     else MovedUp(old(Active()), n, Min(row, rows - 1), Min(bottom, rows), r, c)
    {
      hide Grid.At, Grid.Valid;
      if row < bottom {
        ScrollUp(n, row, bottom);
      }
    }

    /** Opens a gap in a line. */
    method InsertChars(row: nat, col: nat, n: nat)
      requires Valid()
      modifies this`primary, this`alternate, this`dirty
      ensures Valid() && Marks(old(View()), View()) && Hidden() == old(Hidden())
      ensures forall r, c :: 0 <= r < rows && 0 <= c < cols ==>
                Active().At(r, c) == if col < cols then MovedRight(old(Active()), row, col, n, r, c) else old(Active()).At(r, c)
    {
      hide Grid.At, Grid.Valid;
      if row >= rows || col >= cols {
        return;
      }
      var g := MoveRight(Active(), row, col, n);
      Redraw(g, row, row + 1);
    }

    /** Closes up a line. */
    method DeleteChars(row: nat, col: nat, n: nat)
      requires Valid()
      modifies this`primary, this`alternate, this`dirty
      ensures Valid() && Marks(old(View()), View()) && Hidden() == old(Hidden())
      ensures forall r, c :: 0 <= r < rows && 0 <= c < cols ==>
                Active().At(r, c) == if col < cols then MovedLeft(old(Active()), row, col, n, r, c) else old(Active()).At(r, c)
    {
      hide Grid.At, Grid.Valid;
      if row >= rows || col >= cols {
        return;
      }
      var g := MoveLeft(Active(), row, col, n);
      Redraw(g, row, row + 1);
    }

    /** Blanks cells without moving others. */
    method EraseChars(row: nat, col: nat, n: nat)
      requires Valid()
      modifies this`primary, this`alternate, this`dirty
      ensures Valid() && Marks(old(View()), View()) && Hidden() == old(Hidden())
      ensures forall r, c :: 0 <= r < rows && 0 <= c < cols ==>
                Active().At(r, c) == if r == row && col <= c < col + n then BLANK else old(Active()).At(r, c)
    {
      hide Grid.At, Grid.Valid;
      if row >= rows {
        return;
      }
      var g := BlankCells(Active(), row, col, Min(col + n, cols));
      Redraw(g, row, row + 1);
    }

    /** A gap that is opened and closed again costs the cells that were pushed
        out at the end of the line, and nothing else. */
    method InsertThenDelete(row: nat, col: nat, n: nat)
      requires Valid()
      modifies this`primary, this`alternate, this`dirty
      ensures Valid() && Marks(old(View()), View())
      ensures forall r, c :: 0 <= r < rows && 0 <= c < cols ==>
                Active().At(r, c) == if r == row && col <= c && c + n >= cols then BLANK else old(Active()).At(r, c)
    {
      hide Grid.At, Grid.Valid;
      ghost var s := View();
      InsertChars(row, col, n);
      ghost var t := View();
      DeleteChars(row, col, n);
      MarksThenMarks(s, t, View());
    }

    method EnableAlternate()
      requires Valid()
      modifies this`usingAlternate, this`alternate, this`dirty
      ensures Valid() && usingAlternate && Marks(old(View()), View())
      ensures primary == old(primary)
      ensures !old(usingAlternate) ==> Active() == BlankGrid(rows, cols)
      ensures old(usingAlternate) ==> View() == old(View())
    {
      if !usingAlternate {
        usingAlternate := true;
        alternate := BlankGrid(rows, cols).cells;
        dirty := AllDirty(|dirty|);
      }
    }

    /** The main screen comes back as it was left. */
    method DisableAlternate()
      requires Valid()
      modifies this`usingAlternate, this`dirty
      ensures Valid() && !usingAlternate && Marks(old(View()), View())
      ensures Active() == Grid(rows, cols, old(primary))
      ensures !old(usingAlternate) ==> View() == old(View())
    {
      if usingAlternate {
        usingAlternate := false;
        dirty := AllDirty(|dirty|);
      }
    }

    method Resize(newRows: nat, newCols: nat)
      requires Valid() && newRows > 0 && newCols > 0
      modifies this`rows, this`cols, this`primary, this`alternate, this`dirty
      ensures Valid() && rows == newRows && cols == newCols && Marks(old(View()), View())
      ensures forall r, c :: 0 <= r < rows && 0 <= c < cols ==>
                Active().At(r, c) == if r < old(rows) && c < old(cols) then old(Active()).At(r, c) else BLANK
      ensures forall r, c :: 0 <= r < rows && 0 <= c < cols ==>
                Hidden().At(r, c) == if r < old(rows) && c < old(cols) then old(Hidden()).At(r, c) else BLANK
      ensures dirty == AllDirty(newRows)
    {
      hide Grid.At;
      var p := Refit(Grid(rows, cols, primary), newRows, newCols);
      var a := Refit(Grid(rows, cols, alternate), newRows, newCols);
      primary, alternate := p.cells, a.cells;
      rows, cols := newRows, newCols;
      dirty := AllDirty(newRows);
    }

    predicate IsDirty(row: nat)
      reads this
    {
      row < |dirty| && dirty[row]
    }

    method ClearDirty(row: nat)
      requires Valid()
      modifies this`dirty
      ensures Valid() && |dirty| == old(|dirty|)
      ensures forall r :: 0 <= r < |dirty| ==> dirty[r] == (r != row && old(dirty)[r])
    {
      if row < |dirty| {
        dirty := dirty[row := false];
      }
    }

    /** Repaints the dirty rows of the picture and marks them clean: the result
        is what repainting every row would have given. */
    method RenderDirty(shown: Grid) returns (picture: Grid)
      requires Valid() && InSync(shown, View()) && shown.rows == rows && shown.cols == cols
      modifies this`dirty
      ensures Valid() && InSync(picture, View()) && Active() == old(Active())
      ensures Alike(picture, Active())
      ensures forall r, c :: 0 <= r < rows && 0 <= c < cols ==> picture.At(r, c) == Active().At(r, c)
      ensures forall r :: 0 <= r < rows ==> !dirty[r]
    {
      hide Grid.At, Grid.Valid;
      picture := shown;
      assert forall r: nat :: r < rows && !dirty[r] ==> View().IsClean(r);
      for row := 0 to rows
        invariant Valid() && Alike(picture, Active())
        invariant forall r, c :: 0 <= r < rows && 0 <= c < cols && (r < row || !dirty[r]) ==>
                    picture.At(r, c) == Active().At(r, c)
        invariant forall r :: 0 <= r < row ==> !dirty[r]
      {
        if IsDirty(row) {
          picture := RenderRow(picture, row);
          ClearDirty(row);
        }
      }
    }

    method RenderRow(shown: Grid, row: nat) returns (picture: Grid)
      requires Valid() && Alike(shown, Active()) && row < rows
      ensures Alike(picture, Active())
      ensures forall r, c :: 0 <= r < rows && 0 <= c < cols ==>
                picture.At(r, c) == if r == row then Active().At(r, c) else shown.At(r, c)
    {
      hide Grid.At, Grid.Valid;
      picture := shown;
      for col := 0 to cols
        invariant Alike(picture, Active())
        invariant forall r, c :: 0 <= r < rows && 0 <= c < cols ==>
                    picture.At(r, c) == if r == row && c < col then Active().At(r, c) else shown.At(r, c)
      {
        picture := picture.Put(row, col, Active().At(row, col));
      }
    }
  }

  /** Rows outside of the region stay, and moving further than its height makes
      no difference. */
  lemma CapUp(g: Grid, n: nat, top: nat, bottom: nat)
    requires g.Valid() && bottom <= g.rows
    ensures forall r, c :: 0 <= r < g.rows && 0 <= c < g.cols ==>
              && (!(top <= r < bottom) ==> MovedUp(g, n, top, bottom, r, c) == g.At(r, c))
              && (top < bottom ==> MovedUp(g, n, top, bottom, r, c) == MovedUp(g, Min(n, bottom - top), top, bottom, r, c))
  {
    hide Grid.At, Grid.Valid;
  }

  lemma CapDown(g: Grid, n: nat, top: nat, bottom: nat)
    requires g.Valid() && bottom <= g.rows
    ensures forall r, c :: 0 <= r < g.rows && 0 <= c < g.cols ==>
              && (!(top <= r < bottom) ==> MovedDown(g, n, top, bottom, r, c) == g.At(r, c))
              && (top < bottom ==> MovedDown(g, n, top, bottom, r, c) == MovedDown(g, Min(n, bottom - top), top, bottom, r, c))
  {
    hide Grid.At, Grid.Valid;
  }

  /** One line of a grid, and the first `n` lines. */
  function Line(g: Grid, r: nat): seq<Cell>
    requires g.Valid() && r < g.rows
  {
    LineInGrid(r, g.rows, g.cols);
    g.cells[r * g.cols..r * g.cols + g.cols]
  }

  lemma LineInGrid(r: nat, rows: nat, cols: nat)
    requires r < rows
    ensures 0 <= r * cols <= r * cols + cols <= rows * cols
  {
    assert (r + 1) * cols <= rows * cols;
  }

  function ScrolledOut(g: Grid, n: int): (lines: seq<seq<Cell>>)
    requires g.Valid()
    ensures |lines| == Max(0, Min(n, g.rows))
  {
    seq(Max(0, Min(n, g.rows)), i requires 0 <= i < Max(0, Min(n, g.rows)) => Line(g, i))
  }

  lemma ScrolledOutIsCapped(g: Grid, n: nat, bottom: nat)
    requires g.Valid()
    ensures ScrolledOut(g, Min(n, bottom)) == ScrolledOut(g, Min(n, Min(bottom, g.rows)))
    ensures Min(n, bottom) == 0 ==> ScrolledOut(g, Min(n, bottom)) == []
  {
  }

  lemma NothingPushed(lines: seq<seq<Cell>>, limit: nat)
    ensures PushedAll(lines, [], limit) == lines
  {
  }
}
