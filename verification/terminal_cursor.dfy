/** The cursor of the terminal. */
module CursorMachine {
  import opened Wrappers

  datatype CursorState = CursorState(row: nat, col: nat, visible: bool, savedRow: nat, savedCol: nat,
                                     scrollTop: nat, scrollBottom: nat, maxRows: nat, maxCols: nat, wrapPending: bool) {
    /** The cursor is inside the grid, the scroll region is a non-empty part of
        it, and only in the last column can a wrap be pending. */
    ghost predicate Valid() {
      && row < maxRows && col < maxCols
      && scrollTop < scrollBottom <= maxRows
      && (wrapPending ==> col == maxCols - 1)
    }

    function At(r: int, c: int): (s: CursorState)
      requires 0 <= r < maxRows && 0 <= c < maxCols && scrollTop < scrollBottom <= maxRows
      ensures s.Valid()
    {
      this.(row := r, col := c, wrapPending := false)
    }

    /** Up, but not above the top of the region; down likewise. */
    function Up(n: nat): (s: CursorState)
      requires Valid()
      ensures s.Valid()
    {
      At(Max(row - n, scrollTop), col)
    }

    function Down(n: nat): (s: CursorState)
      requires Valid()
      ensures s.Valid()
    {
      At(Min(row + n, scrollBottom - 1), col)
    }

    function Forward(n: nat): (s: CursorState)
      requires Valid()
      ensures s.Valid()
    {
      At(row, Min(col + n, maxCols - 1))
    }

    function Back(n: nat): (s: CursorState)
      requires Valid()
      ensures s.Valid()
    {
      At(row, Max(col - n, 0))
    }

    /** A position counted from one, brought into the grid. */
    function Goto(r: nat, c: nat): (s: CursorState)
      requires Valid()
      ensures s.Valid()
    {
      At(Min(Max(r - 1, 0), maxRows - 1), Min(Max(c - 1, 0), maxCols - 1))
    }

    /** The next tab stop, of which there is one every eight columns. */
    function Tabbed(): (s: CursorState)
      requires Valid()
      ensures s.Valid() && s.row == row && col <= s.col
      ensures s.col % 8 == 0 || s.col == maxCols - 1
      ensures forall c :: col < c < s.col ==> c % 8 != 0
    {
      At(row, Min((col / 8 + 1) * 8, maxCols - 1))
    }

    /** A line feed scrolls instead of moving at the end of the region or below. */
    predicate FeedScrolls() { row + 1 >= scrollBottom }

    function Fed(): (s: CursorState)
      requires Valid()
      ensures s.Valid()
    {
      At(if FeedScrolls() then row else row + 1, col)
    }

    predicate ReverseScrolls() { row <= scrollTop }

    function Reversed(): (s: CursorState)
      requires Valid()
      ensures s.Valid()
    {
      At(if ReverseScrolls() then row else row - 1, col)
    }

    /** After a character: one column on, or a pending wrap in the last one. */
    function Advanced(): (s: CursorState)
      requires Valid()
      ensures s.Valid()
    {
      if col + 1 >= maxCols then this.(wrapPending := true) else this.(col := col + 1)
    }

    function Restored(): (s: CursorState)
      requires Valid()
      ensures s.Valid()
    {
      At(Min(savedRow, maxRows - 1), Min(savedCol, maxCols - 1))
    }

    /** A scroll region of lines `top` to `bottom`, counted from one, is taken if
        it is not empty; the cursor goes to its start. */
    function Region(top: nat, bottom: nat): (s: CursorState)
      requires Valid()
      ensures s.Valid()
    {
      var first := Max(top - 1, 0);
      var end := if bottom == 0 then maxRows else Min(bottom, maxRows);
      if first < end
      then this.(scrollTop := first, scrollBottom := end, row := first, col := 0, wrapPending := false)
      else this
    }

    function Resized(rows: nat, cols: nat): (s: CursorState)
      requires Valid() && rows > 0 && cols > 0
      ensures s.Valid() && s.maxRows == rows && s.maxCols == cols
    {
      this.(row := Min(row, rows - 1), col := Min(col, cols - 1), wrapPending := false,
      scrollTop := 0, scrollBottom := rows, maxRows := rows, maxCols := cols)
    }
  }

  function Home(rows: nat, cols: nat): (s: CursorState)
    requires rows > 0 && cols > 0
    ensures s.Valid() && s.maxRows == rows && s.maxCols == cols
  {
    CursorState(0, 0, true, 0, 0, 0, rows, rows, cols, false)
  }

  class Cursor {
    var row: nat
    var col: nat
    var visible: bool
    var savedRow: nat
    var savedCol: nat
    var scrollTop: nat
    var scrollBottom: nat
    var maxRows: nat
    var maxCols: nat
    var wrapPending: bool

    function View(): CursorState
      reads this
    {
      CursorState(row, col, visible, savedRow, savedCol, scrollTop, scrollBottom, maxRows, maxCols, wrapPending)
    }

    constructor (rows: nat, cols: nat)
      requires rows > 0 && cols > 0
      ensures View() == Home(rows, cols)
    {
      row, col, visible, savedRow, savedCol := 0, 0, true, 0, 0;
      scrollTop, scrollBottom, maxRows, maxCols, wrapPending := 0, rows, rows, cols, false;
    }

    method Reset(rows: nat, cols: nat)
      requires rows > 0 && cols > 0
      modifies this
      ensures View() == Home(rows, cols)
    {
      row, col, visible, savedRow, savedCol := 0, 0, true, 0, 0;
      scrollTop, scrollBottom, maxRows, maxCols, wrapPending := 0, rows, rows, cols, false;
    }

    method MoveUp(n: nat)
      requires View().Valid()
      modifies this`row, this`wrapPending
      ensures View() == old(View()).Up(n)
    {
      row := if row > n then row - n else 0;
      if row < scrollTop {
        row := scrollTop;
      }
      wrapPending := false;
    }

    method MoveDown(n: nat)
      requires View().Valid()
      modifies this`row, this`wrapPending
      ensures View() == old(View()).Down(n)
    {
      row := Min(row + n, scrollBottom - 1);
      wrapPending := false;
    }

    method MoveForward(n: nat)
      requires View().Valid()
      modifies this`col, this`wrapPending
      ensures View() == old(View()).Forward(n)
    {
      col := Min(col + n, maxCols - 1);
      wrapPending := false;
    }

    method MoveBack(n: nat)
      requires View().Valid()
      modifies this`col, this`wrapPending
      ensures View() == old(View()).Back(n)
    {
      col := if col > n then col - n else 0;
      wrapPending := false;
    }

    method SetPosition(r: nat, c: nat)
      requires View().Valid()
      modifies this`row, this`col, this`wrapPending
      ensures View() == old(View()).Goto(r, c)
    {
      row := Min(if r > 1 then r - 1 else 0, maxRows - 1);
      col := Min(if c > 1 then c - 1 else 0, maxCols - 1);
      wrapPending := false;
    }

    method CarriageReturn()
      requires View().Valid()
      modifies this`col, this`wrapPending
      ensures View() == old(View()).At(old(row), 0)
    {
      col := 0;
      wrapPending := false;
    }

    method LineFeed() returns (scroll: bool)
      requires View().Valid()
      modifies this`row, this`wrapPending
      ensures View() == old(View()).Fed() && scroll == old(View()).FeedScrolls()
    {
      wrapPending := false;
      if row + 1 >= scrollBottom {
        scroll := true;
      } else {
        row := row + 1;
        scroll := false;
      }
    }

    method ReverseIndex() returns (scroll: bool)
      requires View().Valid()
      modifies this`row, this`wrapPending
      ensures View() == old(View()).Reversed() && scroll == old(View()).ReverseScrolls()
    {
      wrapPending := false;
      if row <= scrollTop {
        scroll := true;
      } else {
        row := row - 1;
        scroll := false;
      }
    }

    method AdvanceAfterPrint()
      requires View().Valid()
      modifies this`col, this`wrapPending
      ensures View() == old(View()).Advanced()
    {
      if col + 1 >= maxCols {
        wrapPending := true;
      } else {
        col := col + 1;
      }
    }

    method DoWrap() returns (scroll: bool)
      requires View().Valid()
      modifies this`row, this`col, this`wrapPending
      ensures View() == old(View()).At(old(row), 0).Fed() && scroll == old(View()).FeedScrolls()
    {
      wrapPending := false;
      col := 0;
      scroll := LineFeed();
    }

    method Backspace()
      requires View().Valid()
      modifies this`col, this`wrapPending
      ensures View() == old(View()).Back(1)
    {
      if col > 0 {
        col := col - 1;
      }
      wrapPending := false;
    }

    method Tab()
      requires View().Valid()
      modifies this`col, this`wrapPending
      ensures View() == old(View()).Tabbed()
    {
      col := (col / 8 + 1) * 8;
      if col >= maxCols {
        col := maxCols - 1;
      }
      wrapPending := false;
    }

    method Save()
      requires View().Valid()
      modifies this`savedRow, this`savedCol
      ensures View() == old(View()).(savedRow := old(row), savedCol := old(col))
      ensures View().Restored().row == old(row) && View().Restored().col == old(col)
    {
      savedRow, savedCol := row, col;
    }

    method Restore()
      requires View().Valid()
      modifies this`row, this`col, this`wrapPending
      ensures View() == old(View()).Restored()
    {
      row := Min(savedRow, maxRows - 1);
      col := Min(savedCol, maxCols - 1);
      wrapPending := false;
    }

    method SetScrollRegion(top: nat, bottom: nat)
      requires View().Valid()
      modifies this`scrollTop, this`scrollBottom, this`row, this`col, this`wrapPending
      ensures View() == old(View()).Region(top, bottom)
    {
      var first := if top > 1 then top - 1 else 0;
      var end := if bottom == 0 then maxRows else Min(bottom, maxRows);
      if first < end {
        scrollTop, scrollBottom := first, end;
        row, col, wrapPending := first, 0, false;
      }
    }

    method Resize(rows: nat, cols: nat)
      requires View().Valid() && rows > 0 && cols > 0
      modifies this
      ensures View() == old(View()).Resized(rows, cols)
    {
      maxRows, maxCols, scrollTop, scrollBottom := rows, cols, 0, rows;
      row := Min(row, rows - 1);
      col := Min(col, cols - 1);
      wrapPending := false;
    }
  }
}
