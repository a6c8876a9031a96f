/**
 What is erased, what moves and what changes its looks: the sequences other than
 those that only move the cursor.
 */
module TerminalEdits {
  import opened Wrappers
  import opened ScreenGrid
  import opened CursorMachine
  import opened EscapeParser
  import opened TerminalSgr
  import opened TerminalScreen
  import opened TerminalLaws

  /** The final bytes of sequences that change cells and nothing else. */
  predicate IsEdit(final: Byte7) {
    final in {0x40, 0x4A, 0x4B, 0x4C, 0x4D, 0x50, 0x53, 0x54, 0x58}
  }

  /** They leave the cursor, the pen, the replies and the other screen alone. */
  lemma EditsOnlyCells(s: Screen, params: seq<nat>, final: Byte7)
    requires s.Valid() && IsEdit(final)
    ensures
      var t := Csi(s, params, final);
      && t == s.(shown := t.shown)
      && forall r, k :: 0 <= r < s.shown.rows && 0 <= k < s.shown.cols ==>
           t.shown.At(r, k) == CsiCell(s.shown, s.cursor, params, final, r, k)
  {
    hide Grid.At, Grid.Valid, ShownAfter, CsiCell, Sgr;
    assert s.replies + [] == s.replies;
  }

  /** Cell `(r, k)` of the screen that is shown. */
  ghost function Shown(s: Screen, r: nat, k: nat): Cell
    requires s.Valid() && r < s.shown.rows && k < s.shown.cols
  {
    s.shown.At(r, k)
  }

  // ---- Erasing ------------------------------------------------------------

  /** Place `(r, k)` is read at or after place `(i, j)`. */
  predicate AtOrAfter(r: nat, k: nat, i: nat, j: nat) {
    r > i || (r == i && k >= j)
  }

  /** `J` erases, in reading order, from the cursor on, up to the cursor, or all. */
  lemma EraseDisplayMeans(s: Screen, mode: nat, r: nat, k: nat)
    requires s.Valid() && r < s.shown.rows && k < s.shown.cols
    ensures
      var c := s.cursor;
      var erased := match mode
        case 0 => AtOrAfter(r, k, c.row, c.col)
        case 1 => AtOrAfter(c.row, c.col, r, k)
        case 2 => true
        case 3 => true
        case _ => false;
      Shown(Csi(s, [mode], 0x4A), r, k) == if erased then BLANK else Shown(s, r, k)
  {
    hide Csi, Grid.At, Grid.Valid;
    EditsOnlyCells(s, [mode], 0x4A);
  }

  /** `K` does so within the row of the cursor. */
  lemma EraseLineMeans(s: Screen, mode: nat, r: nat, k: nat)
    requires s.Valid() && r < s.shown.rows && k < s.shown.cols
    ensures
      var c := s.cursor;
      var erased := match mode case 0 => k >= c.col case 1 => k <= c.col case 2 => true case _ => false;
      Shown(Csi(s, [mode], 0x4B), r, k) == if r == c.row && erased then BLANK else Shown(s, r, k)
  {
    hide Csi, Grid.At, Grid.Valid;
    EditsOnlyCells(s, [mode], 0x4B);
  }

  /** `X` erases `n` cells from the cursor on. */
  lemma EraseCharsMeans(s: Screen, n: nat, r: nat, k: nat)
    requires s.Valid() && n > 0 && r < s.shown.rows && k < s.shown.cols
    ensures Shown(Csi(s, [n], 0x58), r, k) ==
            if r == s.cursor.row && s.cursor.col <= k < s.cursor.col + n then BLANK else Shown(s, r, k)
  {
    hide Csi, Grid.At, Grid.Valid;
    EditsOnlyCells(s, [n], 0x58);
  }

  // ---- Moving -------------------------------------------------------------

  /** `L` moves the rows of the region from the cursor on down by `n`, and `M`
      brings the rows `n` further down up to the cursor. Rows that come in are
      blank, and no other row changes. */
  lemma InsertDeleteLinesMean(s: Screen, n: nat, r: nat, k: nat)
    requires s.Valid() && n > 0 && r < s.shown.rows && k < s.shown.cols
    ensures
      var top, bottom := s.cursor.row, s.cursor.scrollBottom;
      && (!(top <= r < bottom) ==>
            Shown(Csi(s, [n], 0x4C), r, k) == Shown(Csi(s, [n], 0x4D), r, k) == Shown(s, r, k))
      && (top <= r < bottom ==>
            && Shown(Csi(s, [n], 0x4C), r, k) == (if r < top + n then BLANK else Shown(s, r - n, k))
            && Shown(Csi(s, [n], 0x4D), r, k) == if r + n >= bottom then BLANK else Shown(s, r + n, k))
  {
    hide Csi, Grid.At, Grid.Valid;
    EditsOnlyCells(s, [n], 0x4C);
    EditsOnlyCells(s, [n], 0x4D);
  }

  /** `S` and `T` do so with the whole region, wherever the cursor is. */
  lemma ScrollMeans(s: Screen, n: nat, r: nat, k: nat)
    requires s.Valid() && n > 0 && r < s.shown.rows && k < s.shown.cols
    ensures
      var top, bottom := s.cursor.scrollTop, s.cursor.scrollBottom;
      && (!(top <= r < bottom) ==>
            Shown(Csi(s, [n], 0x53), r, k) == Shown(Csi(s, [n], 0x54), r, k) == Shown(s, r, k))
      && (top <= r < bottom ==>
            && Shown(Csi(s, [n], 0x53), r, k) == (if r + n >= bottom then BLANK else Shown(s, r + n, k))
            && Shown(Csi(s, [n], 0x54), r, k) == if r < top + n then BLANK else Shown(s, r - n, k))
  {
    hide Csi, Grid.At, Grid.Valid;
    EditsOnlyCells(s, [n], 0x53);
    EditsOnlyCells(s, [n], 0x54);
  }

  /** `@` and `P` move the rest of the row right or left by `n`. */
  lemma InsertDeleteCharsMean(s: Screen, n: nat, r: nat, k: nat)
    requires s.Valid() && n > 0 && r < s.shown.rows && k < s.shown.cols
    ensures
      var c := s.cursor;
      && (r != c.row || k < c.col ==>
            Shown(Csi(s, [n], 0x40), r, k) == Shown(Csi(s, [n], 0x50), r, k) == Shown(s, r, k))
      && (r == c.row && k >= c.col ==>
            && Shown(Csi(s, [n], 0x40), r, k) == (if k < c.col + n then BLANK else Shown(s, r, k - n))
            && Shown(Csi(s, [n], 0x50), r, k) == if k + n >= s.shown.cols then BLANK else Shown(s, r, k + n))
  {
    hide Csi, Grid.At, Grid.Valid;
    EditsOnlyCells(s, [n], 0x40);
    EditsOnlyCells(s, [n], 0x50);
  }

  /** Without a number, or with zero, a sequence that counts counts one. */
  lemma NothingMeansOne(s: Screen, final: Byte7)
    requires s.Valid() && final in {0x40, 0x41, 0x42, 0x43, 0x44, 0x4C, 0x4D, 0x50, 0x53, 0x54, 0x58}
    ensures Csi(s, [0], final) == Csi(s, [1], final) == Csi(s, [], final)
  {
    hide Csi, Grid.At, Grid.Valid;
    if IsEdit(final) {
      EditsOnlyCells(s, [0], final);
      EditsOnlyCells(s, [1], final);
      EditsOnlyCells(s, [], final);
      SameCellsSameGrid(Csi(s, [0], final).shown, Csi(s, [1], final).shown);
      SameCellsSameGrid(Csi(s, [], final).shown, Csi(s, [1], final).shown);
    } else {
      MovesOnlyCursor(s, [0], final);
      MovesOnlyCursor(s, [1], final);
      MovesOnlyCursor(s, [], final);
    }
  }

  // ---- Line feeds and other controls --------------------------------------

  /** A cell after the region has moved by one row, if it has. */
  ghost function Scrolled(s: Screen, up: bool, yes: bool, r: nat, k: nat): Cell
    requires s.Valid() && r < s.shown.rows && k < s.shown.cols
  {
    if !yes || !(s.cursor.scrollTop <= r < s.cursor.scrollBottom) then Shown(s, r, k)
    else if up then (if r + 1 == s.cursor.scrollBottom then BLANK else Shown(s, r + 1, k))
    else if r == s.cursor.scrollTop then BLANK else Shown(s, r - 1, k)
  }

  ghost predicate Scrolls(s: Screen, t: Screen, up: bool, yes: bool)
    requires s.Valid() && t.Valid() && Alike(s.shown, t.shown)
  {
    forall r, k :: 0 <= r < s.shown.rows && 0 <= k < s.shown.cols ==> Shown(t, r, k) == Scrolled(s, up, yes, r, k)
  }

  /** All but the cursor and the cells of the screen that is shown. */
  predicate SameElse(s: Screen, t: Screen) {
    t == s.(shown := t.shown, cursor := t.cursor)
  }

  /** An action that is no control sequence, and what it leaves in the cells. */
  lemma CellsAfter(s: Screen, a: Action, up: bool, yes: bool)
    requires s.Valid() && (a.Execute? || (a.EscDispatch? && a.byte != 0x63))
    requires forall r, k :: 0 <= r < s.shown.rows && 0 <= k < s.shown.cols ==>
      ActionCell(s.shown, s.cursor, s.pen, a, r, k) ==
      if !yes then s.shown.At(r, k)
      else if up then MovedUp(s.shown, 1, s.cursor.scrollTop, s.cursor.scrollBottom, r, k)
      else MovedDown(s.shown, 1, s.cursor.scrollTop, s.cursor.scrollBottom, r, k)
    ensures SameElse(s, ScreenAfterOne(s, a)) && Scrolls(s, ScreenAfterOne(s, a), up, yes)
  {
    hide Grid.At, Grid.Valid, ShownAfter, ActionCell, ActionCursor;
    assert s.replies + [] == s.replies;
    var t := ScreenAfterOne(s, a);
    assert t.shown == ShownAfter(s, a);
    forall r, k | 0 <= r < s.shown.rows && 0 <= k < s.shown.cols
      ensures t.shown.At(r, k) ==
              if !yes then s.shown.At(r, k)
              else if up then MovedUp(s.shown, 1, s.cursor.scrollTop, s.cursor.scrollBottom, r, k)
              else MovedDown(s.shown, 1, s.cursor.scrollTop, s.cursor.scrollBottom, r, k)
    {
    }
    MovedIsScrolled(s, t, up, yes);
  }

  lemma MovedIsScrolled(s: Screen, t: Screen, up: bool, yes: bool)
    requires s.Valid() && t.Valid() && Alike(s.shown, t.shown)
    requires forall r, k :: 0 <= r < s.shown.rows && 0 <= k < s.shown.cols ==>
      t.shown.At(r, k) ==
      if !yes then s.shown.At(r, k)
      else if up then MovedUp(s.shown, 1, s.cursor.scrollTop, s.cursor.scrollBottom, r, k)
      else MovedDown(s.shown, 1, s.cursor.scrollTop, s.cursor.scrollBottom, r, k)
    ensures Scrolls(s, t, up, yes)
  {
    hide Grid.At, Grid.Valid;
  }

  /** A line feed goes to the next row, or scrolls the region in its last row; a
      carriage return goes to the first column, a backspace one column back, and a
      tab to the next multiple of eight. Other controls do nothing. */
  lemma ControlsMean(s: Screen, byte: Byte7)
    requires s.Valid()
    ensures
      var c, t, still := s.cursor, ScreenAfterOne(s, Execute(byte)), s.cursor.(wrapPending := false);
      var feeds, last := 0x0A <= byte <= 0x0C, c.row + 1 >= c.scrollBottom;
      && SameElse(s, t) && Scrolls(s, t, true, feeds && last)
      && (feeds ==> t.cursor == if last then still else still.(row := c.row + 1))
      && (byte == 0x0D ==> t.cursor == still.(col := 0))
      && (byte == 0x08 ==> t.cursor == still.(col := Max(c.col - 1, 0)))
      && (byte == 0x09 ==> t.cursor == still.(col := Min(c.col - c.col % 8 + 8, c.maxCols - 1)))
      && (!feeds && byte !in {0x08, 0x09, 0x0D} ==> t.cursor == c)
  {
    hide Grid.At, Grid.Valid, ShownAfter, MovedUp, MovedDown, Scrolls;
    CellsAfter(s, Execute(byte), true, 0x0A <= byte <= 0x0C && s.cursor.row + 1 >= s.cursor.scrollBottom);
  }

  /** `ESC D`, `ESC E` and `ESC M`: a row down, to the start of the row below, a row
      up, scrolling at the edge of the region. */
  lemma IndexMeans(s: Screen)
    requires s.Valid()
    ensures
      var c, still := s.cursor, s.cursor.(wrapPending := false);
      var down, next, up :=
        ScreenAfterOne(s, EscDispatch(0x44)), ScreenAfterOne(s, EscDispatch(0x45)), ScreenAfterOne(s, EscDispatch(0x4D));
      var last, first := c.row + 1 >= c.scrollBottom, c.row <= c.scrollTop;
      && SameElse(s, down) && Scrolls(s, down, true, last)
      && SameElse(s, next) && Scrolls(s, next, true, last)
      && SameElse(s, up) && Scrolls(s, up, false, first)
      && down.cursor == (if last then still else still.(row := c.row + 1))
      && next.cursor == (if last then still.(col := 0) else still.(row := c.row + 1, col := 0))
      && up.cursor == if first then still else still.(row := c.row - 1)
  {
    hide Grid.At, Grid.Valid, ShownAfter, MovedUp, MovedDown, Scrolls;
    CellsAfter(s, EscDispatch(0x44), true, s.cursor.row + 1 >= s.cursor.scrollBottom);
    CellsAfter(s, EscDispatch(0x45), true, s.cursor.row + 1 >= s.cursor.scrollBottom);
    CellsAfter(s, EscDispatch(0x4D), false, s.cursor.row <= s.cursor.scrollTop);
  }

  /** `ESC 7` and `ESC 8` save and restore the position; `ESC c` starts afresh. */
  lemma SaveResetMean(s: Screen)
    requires s.Valid()
    ensures
      var saved, reset := ScreenAfterOne(s, EscDispatch(0x37)), ScreenAfterOne(s, EscDispatch(0x63));
      var back := ScreenAfterOne(saved, EscDispatch(0x38)).cursor;
      && back == saved.cursor.(wrapPending := false) && back.row == s.cursor.row && back.col == s.cursor.col
      && reset.cursor == Home(s.cursor.maxRows, s.cursor.maxCols) && reset.pen == PLAIN
      && forall r, k :: 0 <= r < s.shown.rows && 0 <= k < s.shown.cols ==> Shown(reset, r, k) == BLANK
  {
    hide Grid.At, Grid.Valid, ShownAfter;
  }

  // ---- The alternate screen -----------------------------------------------

  /** The action switches between the two screens. */
  predicate MaySwitch(a: Action) {
    a.CsiDispatch? && a.private && Param(a.params, 0) == 1049
  }

  lemma {:induction false} OtherIsKept(s: Screen, actions: seq<Action>)
    requires s.Valid() && forall i :: 0 <= i < |actions| ==> !MaySwitch(actions[i])
    ensures
      var t := ScreenAfter(s, actions);
      t.other == s.other && t.alternate == s.alternate
  {
    hide ShownAfter, ActionCursor, ActionPen, ActionReply;
    if actions != [] { OtherIsKept(s, actions[..|actions| - 1]); }
  }

  /** Whatever happens on the alternate screen, the main one comes back as it was;
      the alternate one begins blank. */
  lemma MainScreenComesBack(s: Screen, actions: seq<Action>)
    requires s.Valid() && !s.alternate && forall i :: 0 <= i < |actions| ==> !MaySwitch(actions[i])
    ensures
      var entered := ScreenAfterOne(s, CsiDispatch([1049], [], 0x68, true));
      var left := ScreenAfterOne(ScreenAfter(entered, actions), CsiDispatch([1049], [], 0x6C, true));
      && (forall r, k :: 0 <= r < s.shown.rows && 0 <= k < s.shown.cols ==> Shown(entered, r, k) == BLANK)
      && entered.alternate && !left.alternate && left.shown == s.shown
  {
    hide ScreenAfter, Grid.At, Grid.Valid, ActionCursor, ActionPen, ActionReply;
    OtherIsKept(ScreenAfterOne(s, CsiDispatch([1049], [], 0x68, true)), actions);
  }

  // ---- Looks --------------------------------------------------------------

  /** What each parameter of `m` asks for. */
  lemma LooksMean(pen: Pen, n: nat)
    ensures
      var p, a := Sgr(pen, [n]), pen.attrs;
      match n
      case 0 => p == PLAIN
      case 1 => p == pen.(attrs := a.(bold := true))
      case 3 => p == pen.(attrs := a.(italic := true))
      case 4 => p == pen.(attrs := a.(underline := true))
      case 5 => p == pen.(attrs := a.(blink := true))
      case 7 => p == pen.(attrs := a.(reverse := true))
      case 9 => p == pen.(attrs := a.(strikethrough := true))
      case 22 => p == pen.(attrs := a.(bold := false))
      case 23 => p == pen.(attrs := a.(italic := false))
      case 24 => p == pen.(attrs := a.(underline := false))
      case 25 => p == pen.(attrs := a.(blink := false))
      case 27 => p == pen.(attrs := a.(reverse := false))
      case 29 => p == pen.(attrs := a.(strikethrough := false))
      case 39 => p == pen.(fg := Default)
      case 49 => p == pen.(bg := Default)
      case _ =>
        if 30 <= n <= 37 then p == pen.(fg := Indexed(n - 30))
        else if 40 <= n <= 47 then p == pen.(bg := Indexed(n - 40))
        else if 90 <= n <= 97 then p == pen.(fg := Indexed(n - 82))
        else if 100 <= n <= 107 then p == pen.(bg := Indexed(n - 92))
        else p == pen
  {
    var r := SgrOne(pen, [n]);
    assert SgrAll(r.0, Rest([n], r.1)) == r.0;
  }

  /** `m` changes the pen and nothing else. */
  lemma LooksOnly(s: Screen, params: seq<nat>)
    requires s.Valid()
    ensures Csi(s, params, 0x6D) == s.(pen := Sgr(s.pen, params))
  {
    hide Grid.At, Grid.Valid, ShownAfter, Sgr;
    ShownIs(s, CsiDispatch(params, [], 0x6D, false), s.shown);
    assert s.replies + [] == s.replies;
  }

  /** `?25h` and `?25l` show and hide the cursor. */
  lemma VisibilityMeans(s: Screen, final: Byte7)
    requires s.Valid() && (final == 0x68 || final == 0x6C)
    ensures ScreenAfterOne(s, CsiDispatch([25], [], final, true)) == s.(cursor := s.cursor.(visible := final == 0x68))
  {
    assert s.replies + [] == s.replies;
  }

  /** `5n` is answered with `0n`, and `c` with `?1;2c`. */
  lemma AnswersMean(s: Screen)
    requires s.Valid()
    ensures Csi(s, [5], 0x6E).replies == s.replies + CsiBytes([0], false, 0x6E)
    ensures Csi(s, [0], 0x63).replies == Csi(s, [], 0x63).replies == s.replies + CsiBytes([1, 2], true, 0x63)
  {
    hide CsiBytes, ShownAfter;
  }
}
