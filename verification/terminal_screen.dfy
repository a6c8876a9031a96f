/** What each action of the terminal does to the screen, the cursor and the pen. */
module TerminalScreen {
  import opened Wrappers
  import opened ScreenGrid
  import opened CursorMachine
  import opened EscapeParser
  import opened TerminalSgr

  function Param(params: seq<nat>, i: nat): nat {
    if i < |params| then params[i] else 0
  }

  /** The first parameter as a count: nothing and zero mean one. */
  function Count(params: seq<nat>): nat {
    Max(Param(params, 0), 1)
  }

  // ---- What a control sequence does ---------------------------------------

  /** Where a control sequence leaves the cursor. */
  function CsiCursor(c: CursorState, params: seq<nat>, final: Byte7): (s: CursorState)
    requires c.Valid()
    ensures s.Valid() && s.maxRows == c.maxRows && s.maxCols == c.maxCols
  {
    var n, p2 := Count(params), Param(params, 1);
    if final == 0x41 then c.Up(n)
    else if final == 0x42 then c.Down(n)
    else if final == 0x43 then c.Forward(n)
    else if final == 0x44 then c.Back(n)
    else if final == 0x48 || final == 0x66 then c.Goto(n, Max(p2, 1))
    else if final == 0x47 then c.Goto(c.row + 1, n)
    else if final == 0x73 then c.(savedRow := c.row, savedCol := c.col)
    else if final == 0x75 then c.Restored()
    else if final == 0x72 then c.Region(n, if p2 == 0 then c.maxRows else p2)
    else c
  }

  /** What a control sequence leaves in a cell. */
  function CsiCell(g: Grid, c: CursorState, params: seq<nat>, final: Byte7, r: nat, k: nat): Cell
    requires g.Valid() && c.Valid() && g.rows == c.maxRows && g.cols == c.maxCols && r < g.rows && k < g.cols
  {
    var p1, n := Param(params, 0), Count(params);
    if final == 0x4A && ErasesScreen(c, p1, r, k) then BLANK
    else if final == 0x4B && r == c.row && ErasesLine(c, p1, k) then BLANK
    else if final == 0x4C then MovedDown(g, n, c.row, c.scrollBottom, r, k)
    else if final == 0x4D then MovedUp(g, n, c.row, c.scrollBottom, r, k)
    else if final == 0x53 then MovedUp(g, n, c.scrollTop, c.scrollBottom, r, k)
    else if final == 0x54 then MovedDown(g, n, c.scrollTop, c.scrollBottom, r, k)
    else if final == 0x40 then MovedRight(g, c.row, c.col, n, r, k)
    else if final == 0x50 then MovedLeft(g, c.row, c.col, n, r, k)
    else if final == 0x58 && r == c.row && c.col <= k < c.col + n then BLANK
    else g.At(r, k)
  }

  /** From the cursor on, up to the cursor, or everything. */
  predicate ErasesScreen(c: CursorState, mode: nat, r: nat, k: nat) {
    || (mode == 0 && (r > c.row || (r == c.row && k >= c.col)))
    || (mode == 1 && (r < c.row || (r == c.row && k <= c.col)))
    || mode == 2 || mode == 3
  }

  predicate ErasesLine(c: CursorState, mode: nat, k: nat) {
    (mode == 0 && k >= c.col) || (mode == 1 && k <= c.col) || mode == 2
  }

  /** What a control sequence is answered with. */
  function CsiReply(c: CursorState, params: seq<nat>, final: Byte7): seq<Byte7> {
    var p1 := Param(params, 0);
    if final == 0x6E && p1 == 6 then CsiBytes([c.row + 1, c.col + 1], false, 0x52)
    else if final == 0x6E && p1 == 5 then CsiBytes([0], false, 0x6E)
    else if final == 0x63 && p1 == 0 then CsiBytes([1, 2], true, 0x63)
    else []
  }

  /** The position report reads back as the position, counted from one and
      capped at the largest 16-bit number, if it fits the ten digits that the
      terminal has for each number. */
  lemma ReportRoundTrip(p: Parser, c: CursorState)
    requires p.state == Ground && c.Valid() && c.maxRows < 10_000_000_000 && c.maxCols < 10_000_000_000
    ensures Run(p, CsiReply(c, [6], 0x6E)).1
         == [CsiDispatch([Min(c.row + 1, MAX_PARAM), Min(c.col + 1, MAX_PARAM)], [], 0x52, false)]
  {
    RenderIsShort(c.row + 1, 10_000_000_000, 10);
    RenderIsShort(c.col + 1, 10_000_000_000, 10);
    TwoParams(c.row + 1, c.col + 1);
    CsiRoundTrip(p, [c.row + 1, c.col + 1], false, 0x52);
    assert Capped([c.row + 1, c.col + 1]) == [Min(c.row + 1, MAX_PARAM), Min(c.col + 1, MAX_PARAM)];
  }

  lemma TwoParams(a: nat, b: nat)
    ensures Join([a, b]) == Render(a) + [SEMICOLON] + Render(b)
  {
    assert [a, b][..1] == [a];
  }

  lemma {:induction false} RenderIsShort(n: nat, bound: nat, digits: nat)
    requires n < bound && bound == Power10(digits) && digits > 0
    ensures |Render(n)| <= digits
  {
    if n >= 10 { RenderIsShort(n / 10, bound / 10, digits - 1); }
  }

  function Power10(digits: nat): nat {
    if digits == 0 then 1 else 10 * Power10(digits - 1)
  }

  // ---- Where each action leaves the cursor --------------------------------

  function ControlCursor(c: CursorState, byte: Byte7): (s: CursorState)
    requires c.Valid()
    ensures s.Valid() && s.maxRows == c.maxRows && s.maxCols == c.maxCols
  {
    if byte == 0x08 then c.Back(1)
    else if byte == 0x09 then c.Tabbed()
    else if 0x0A <= byte <= 0x0C then c.Fed()
    else if byte == 0x0D then c.At(c.row, 0)
    else c
  }

  function EscCursor(c: CursorState, byte: Byte7): (s: CursorState)
    requires c.Valid()
    ensures s.Valid() && s.maxRows == c.maxRows && s.maxCols == c.maxCols
  {
    if byte == 0x63 then Home(c.maxRows, c.maxCols)
    else if byte == 0x37 then c.(savedRow := c.row, savedCol := c.col)
    else if byte == 0x38 then c.Restored()
    else if byte == 0x44 then c.Fed()
    else if byte == 0x45 then c.At(c.row, 0).Fed()
    else if byte == 0x4D then c.Reversed()
    else c
  }

  function PrivateCursor(c: CursorState, params: seq<nat>, final: Byte7): (s: CursorState)
    requires c.Valid()
    ensures s.Valid() && s.maxRows == c.maxRows && s.maxCols == c.maxCols
  {
    var p1 := Param(params, 0);
    if p1 == 25 && final in {0x68, 0x6C} then c.(visible := final == 0x68)
    else if p1 == 1049 && final == 0x68 then c.(savedRow := c.row, savedCol := c.col)
    else if p1 == 1049 && final == 0x6C then c.Restored()
    else c
  }

  /** Where the next character goes: a pending wrap is carried out first. */
  function PrintAt(c: CursorState): (s: CursorState)
    requires c.Valid()
    ensures s.Valid() && s.maxRows == c.maxRows && s.maxCols == c.maxCols
  {
    if c.wrapPending then c.At(c.row, 0).Fed() else c
  }

  function ActionCursor(c: CursorState, a: Action): (s: CursorState)
    requires c.Valid()
    ensures s.Valid() && s.maxRows == c.maxRows && s.maxCols == c.maxCols
  {
    match a
    case Print(_) => PrintAt(c).Advanced()
    case Execute(byte) => ControlCursor(c, byte)
    case CsiDispatch(params, _, final, private) =>
      if private then PrivateCursor(c, params, final) else CsiCursor(c, params, final)
    case OscDispatch(_) => c
    case EscDispatch(byte) => EscCursor(c, byte)
  }

  /** Where any number of actions leaves the cursor: always inside the grid. */
  function CursorAfter(c: CursorState, actions: seq<Action>): (s: CursorState)
    requires c.Valid()
    ensures s.Valid() && s.maxRows == c.maxRows && s.maxCols == c.maxCols
  {
    if actions == [] then c else ActionCursor(CursorAfter(c, actions[..|actions| - 1]), actions[|actions| - 1])
  }

  lemma {:induction false} CursorAfterConcat(c: CursorState, a: seq<Action>, b: seq<Action>)
    requires c.Valid()
    ensures CursorAfter(c, a + b) == CursorAfter(CursorAfter(c, a), b)
    decreases |b|
  {
    hide ActionCursor;
    if b == [] {
      assert a + b == a;
    } else {
      assert (a + b)[..|a + b| - 1] == a + b[..|b| - 1];
      CursorAfterConcat(c, a, b[..|b| - 1]);
    }
  }

  // ---- Scrolling on a line feed -------------------------------------------

  /** A cell after the region has scrolled up by one, if it has. */
  function FedCell(g: Grid, c: CursorState, scrolls: bool, r: nat, k: nat): Cell
    requires g.Valid() && c.Valid() && g.rows == c.maxRows && g.cols == c.maxCols && r < g.rows && k < g.cols
  {
    if scrolls then MovedUp(g, 1, c.scrollTop, c.scrollBottom, r, k) else g.At(r, k)
  }

  function PrintCell(g: Grid, c: CursorState, ch: nat, pen: Pen, r: nat, k: nat): Cell
    requires g.Valid() && c.Valid() && g.rows == c.maxRows && g.cols == c.maxCols && r < g.rows && k < g.cols
  {
    if r == PrintAt(c).row && k == PrintAt(c).col then Cell(ch, pen)
    else FedCell(g, c, c.wrapPending && c.FeedScrolls(), r, k)
  }

  function EscCell(g: Grid, c: CursorState, byte: Byte7, r: nat, k: nat): Cell
    requires g.Valid() && c.Valid() && g.rows == c.maxRows && g.cols == c.maxCols && r < g.rows && k < g.cols
  {
    if byte == 0x63 then BLANK
    else if byte == 0x4D && c.ReverseScrolls() then MovedDown(g, 1, c.scrollTop, c.scrollBottom, r, k)
    else FedCell(g, c, (byte == 0x44 || byte == 0x45) && c.FeedScrolls(), r, k)
  }

  /** What an action leaves in a cell, unless it may switch screens. */
  function ActionCell(g: Grid, c: CursorState, pen: Pen, a: Action, r: nat, k: nat): Cell
    requires g.Valid() && c.Valid() && g.rows == c.maxRows && g.cols == c.maxCols && r < g.rows && k < g.cols
  {
    match a
    case Print(ch) => PrintCell(g, c, ch, pen, r, k)
    case Execute(byte) => FedCell(g, c, 0x0A <= byte <= 0x0C && c.FeedScrolls(), r, k)
    case CsiDispatch(params, _, final, _) => CsiCell(g, c, params, final, r, k)
    case OscDispatch(_) => g.At(r, k)
    case EscDispatch(byte) => EscCell(g, c, byte, r, k)
  }

  function ActionReply(c: CursorState, a: Action): seq<Byte7> {
    if a.CsiDispatch? && !a.private then CsiReply(c, a.params, a.final) else []
  }

  /** What an action makes of the pen. */
  function ActionPen(pen: Pen, a: Action): Pen {
    if a.CsiDispatch? && !a.private && a.final == 0x6D then Sgr(pen, a.params)
    else if a == EscDispatch(0x63) then PLAIN
    else pen
  }

  // ---- The whole screen ---------------------------------------------------

  /** All that the terminal shows, is about to show and has answered: which of the
      two screens is shown, that one and the other, the cursor, the pen and the
      replies. */
  datatype Screen = Screen(alternate: bool, shown: Grid, other: Grid, cursor: CursorState, pen: Pen, replies: seq<Byte7>) {
    ghost predicate Valid() {
      && shown.Valid() && other.Valid() && cursor.Valid()
      && shown.rows == other.rows == cursor.maxRows && shown.cols == other.cols == cursor.maxCols
    }
  }

  /** The cells after an action that does not switch screens. */
  ghost function ShownAfter(s: Screen, a: Action): (g: Grid)
    requires s.Valid()
    ensures Alike(s.shown, g)
    ensures forall r, k :: 0 <= r < g.rows && 0 <= k < g.cols ==> g.At(r, k) == ActionCell(s.shown, s.cursor, s.pen, a, r, k)
  {
    GridOf(s.shown.rows, s.shown.cols,
           (r: nat, k: nat) requires r < s.shown.rows && k < s.shown.cols => ActionCell(s.shown, s.cursor, s.pen, a, r, k))
  }

  /** Entering the alternate screen shows it blank and keeps the main screen;
      leaving it shows the main screen as it was; no other private sequence
      switches. */
  ghost function Switched(s: Screen, params: seq<nat>, final: Byte7): (t: Screen)
    requires s.Valid()
    ensures t.shown.Valid() && t.other.Valid() && t.shown.rows == t.other.rows == s.shown.rows
    ensures t.shown.cols == t.other.cols == s.shown.cols
  {
    if Param(params, 0) == 1049 && final == 0x68 && !s.alternate then
      s.(alternate := true, shown := BlankGrid(s.shown.rows, s.shown.cols), other := s.shown)
    else if Param(params, 0) == 1049 && final == 0x6C && s.alternate then
      s.(alternate := false, shown := s.other, other := s.shown)
    else s
  }

  ghost function ScreenAfterOne(s: Screen, a: Action): (t: Screen)
    requires s.Valid()
    ensures t.Valid() && Alike(s.shown, t.shown)
  {
    var screens := if a.CsiDispatch? && a.private then Switched(s, a.params, a.final) else s.(shown := ShownAfter(s, a));
    screens.(cursor := ActionCursor(s.cursor, a), pen := ActionPen(s.pen, a), replies := s.replies + ActionReply(s.cursor, a))
  }

  /** The screen after any number of actions. */
  ghost function ScreenAfter(s: Screen, actions: seq<Action>): (t: Screen)
    requires s.Valid()
    ensures t.Valid() && Alike(s.shown, t.shown)
  {
    if actions == [] then s else ScreenAfterOne(ScreenAfter(s, actions[..|actions| - 1]), actions[|actions| - 1])
  }

  lemma {:induction false} ScreenAfterConcat(s: Screen, a: seq<Action>, b: seq<Action>)
    requires s.Valid()
    ensures ScreenAfter(s, a + b) == ScreenAfter(ScreenAfter(s, a), b)
    decreases |b|
  {
    hide ScreenAfterOne;
    if b == [] {
      assert a + b == a;
    } else {
      assert (a + b)[..|a + b| - 1] == a + b[..|b| - 1];
      ScreenAfterConcat(s, a, b[..|b| - 1]);
    }
  }

  /** Its cursor is where the actions lead. */
  lemma {:induction false} ScreenAfterCursor(s: Screen, actions: seq<Action>)
    requires s.Valid()
    ensures ScreenAfter(s, actions).cursor == CursorAfter(s.cursor, actions)
  {
    hide ActionCursor;
    if actions != [] { ScreenAfterCursor(s, actions[..|actions| - 1]); }
  }

  /** Two grids with the same cells are the same grid. */
  lemma ShownIs(s: Screen, a: Action, g: Grid)
    requires s.Valid() && Alike(s.shown, g)
    requires forall r, k :: 0 <= r < g.rows && 0 <= k < g.cols ==> g.At(r, k) == ActionCell(s.shown, s.cursor, s.pen, a, r, k)
    ensures g == ShownAfter(s, a)
  {
    hide Grid.At, Grid.Valid, ActionCell, ShownAfter;
    SameCellsSameGrid(g, ShownAfter(s, a));
  }

  /** The log has grown from `was` to `now`, and the screen with it. */
  ghost predicate Follows(s: Screen, was: seq<Action>, t: Screen, now: seq<Action>) {
    s.Valid() && was <= now && t == ScreenAfter(s, now[|was|..])
  }

  lemma FollowsOne(s: Screen, was: seq<Action>, a: Action)
    requires s.Valid()
    ensures Follows(s, was, s, was) && Follows(s, was, ScreenAfterOne(s, a), was + [a])
  {
    hide ScreenAfterOne;
    assert (was + [a])[|was|..] == [a] && [a][..0] == [];
    assert was[|was|..] == [];
  }

  lemma FollowsThen(s: Screen, was: seq<Action>, s1: Screen, mid: seq<Action>, s2: Screen, now: seq<Action>)
    requires Follows(s, was, s1, mid) && Follows(s1, mid, s2, now)
    ensures Follows(s, was, s2, now)
  {
    hide ScreenAfter;
    ScreenAfterConcat(s, mid[|was|..], now[|mid|..]);
    assert now[|was|..] == mid[|was|..] + now[|mid|..];
  }
}
