/** The virtual terminal: what a process writes goes through the output rules of
    the tty to the terminal, and the rows that changed are painted. */
module VirtualTerminal {
  import opened Wrappers
  import opened ScreenGrid
  import opened ScreenSurface
  import opened EscapeParser
  import opened TerminalScreen
  import opened TerminalActions
  import opened TerminalCore
  import Utf8 = Utf8Decoder

  const LF := 0x0A
  const CR := 0x0D

  // ---- Output processing --------------------------------------------------

  /** Every line feed with a carriage return before it. */
  function Crlf(data: seq<Byte>): seq<Byte> {
    if data == [] then [] else (if data[0] == LF then [CR, LF] else [data[0]]) + Crlf(data[1..])
  }

  /** The length of the run before the next line feed. */
  function RunLength(data: seq<Byte>): (n: nat)
    ensures n <= |data| && (n < |data| ==> data[n] == LF) && forall i :: 0 <= i < n ==> data[i] != LF
  {
    if data == [] || data[0] == LF then 0 else 1 + RunLength(data[1..])
  }

  /** The pieces in which the bytes are handed to the terminal: runs without a
      line feed, uncut, and a pair for each line feed. */
  function Pieces(data: seq<Byte>): seq<seq<Byte>> {
    if data == [] then []
    else if data[0] == LF then [[CR, LF]] + Pieces(data[1..])
    else [data[..RunLength(data)]] + Pieces(data[RunLength(data)..])
  }

  lemma {:induction false} CrlfOfRun(data: seq<Byte>, n: nat)
    requires n <= |data| && forall i :: 0 <= i < n ==> data[i] != LF
    ensures Crlf(data) == data[..n] + Crlf(data[n..])
  {
    if n == 0 {
      assert data[..0] + Crlf(data[0..]) == Crlf(data);
    } else {
      CrlfOfRun(data[1..], n - 1);
      assert data[1..][n - 1..] == data[n..] && [data[0]] + data[1..][..n - 1] == data[..n];
    }
  }

  /** Together the pieces are the bytes with the carriage returns added. */
  lemma {:induction false} PiecesAreCrlf(data: seq<Byte>)
    ensures Utf8.Flatten(Pieces(data)) == Crlf(data)
    decreases |data|
  {
    if data != [] {
      if data[0] == LF {
        PiecesAreCrlf(data[1..]);
        assert Pieces(data)[1..] == Pieces(data[1..]);
      } else {
        var n := RunLength(data);
        PiecesAreCrlf(data[n..]);
        CrlfOfRun(data, n);
        assert Pieces(data)[1..] == Pieces(data[n..]);
      }
    }
  }

  // ---- The picture --------------------------------------------------------

  /** A cell in which foreground and background are swapped. */
  function Inverted(c: Cell): Cell {
    c.(pen := c.pen.(attrs := c.pen.attrs.(reverse := !c.pen.attrs.reverse)))
  }

  /** What is to be seen: the cells, with the cursor, if it is visible, as an
      inverted cell. */
  ghost function Picture(s: Screen): (g: Grid)
    requires s.Valid()
    ensures Alike(s.shown, g)
  {
    if s.cursor.visible then
      s.shown.Put(s.cursor.row, s.cursor.col, Inverted(s.shown.At(s.cursor.row, s.cursor.col)))
    else s.shown
  }

  /** Every clean row but `row` is painted right. */
  ghost predicate InSyncBut(picture: Grid, s: Surface, row: nat) {
    && Alike(picture, s.grid) && s.Valid()
    && forall r, k :: 0 <= r < picture.rows && 0 <= k < picture.cols && r != row && s.IsClean(r) ==>
         picture.At(r, k) == s.grid.At(r, k)
  }

  class Vt {
    const term: Terminal
    /** What the display shows. */
    var picture: Grid
    /** The row in which the cursor was painted last. */
    var lastRow: nat

    ghost predicate Valid()
      reads this, term, term.buffer, term.cursor, term.parser
    {
      term.Valid() && InSyncBut(picture, term.buffer.View(), lastRow)
    }

    /** The display shows the terminal's screen and cursor, and nothing else. */
    ghost predicate Painted()
      requires Valid()
      reads this, term, term.buffer, term.cursor, term.parser
    {
      picture == Picture(term.Seen())
    }

    /** At first the display shows anything at all. */
    constructor (rows: nat, cols: nat, boot: Grid)
      requires rows > 0 && cols > 0 && boot.Valid() && boot.rows == rows && boot.cols == cols
      ensures Valid() && fresh(term) && fresh(term.buffer) && fresh(term.cursor) && fresh(term.parser)
    {
      term := new Terminal(rows, cols);
      picture, lastRow := boot, 0;
    }

    /** Output of a process: the terminal gets the bytes with the carriage returns
        added, and the display then shows exactly its screen and its cursor: no
        row is stale and no earlier cursor is left behind. */
    method Write(data: seq<Byte>)
      requires Valid()
      modifies this, term, term.buffer, term.cursor, term.parser
      ensures Valid() && Painted() && term.State() == Fed(old(term.State()), Crlf(data))
    {
      hide Grid.At, Grid.Valid, Grid.Put, Marks, InSync, InSyncBut, Fed, IsParser, Picture, Surface.Valid;
      var row := lastRow;
      ghost var before := term.buffer.View();
      FeedPieces(data);
      ghost var after := term.buffer.View();
      StillInSync(picture, row, before, after);
      var shown := picture;
      if row < term.buffer.rows {
        shown := term.buffer.RenderRow(shown, row);
      }
      RowRepainted(shown, picture, row, after);
      shown := term.buffer.RenderDirty(shown);
      SameCellsSameGrid(shown, term.buffer.Active());
      if term.cursor.visible {
        shown := shown.Put(term.cursor.row, term.cursor.col, Inverted(shown.At(term.cursor.row, term.cursor.col)));
      }
      PictureIs(term.Seen(), shown, term.buffer.View());
      picture, lastRow := shown, term.cursor.row;
    }

    /** Hands the pieces to the terminal one by one. */
    method FeedPieces(data: seq<Byte>)
      requires term.Valid()
      modifies term, term.buffer, term.cursor, term.parser
      ensures term.Valid() && term.State() == Fed(old(term.State()), Crlf(data))
      ensures Marks(old(term.buffer.View()), term.buffer.View())
      ensures term.buffer.rows == old(term.buffer.rows) && term.buffer.cols == old(term.buffer.cols)
    {
      hide Grid.At, Grid.Valid, Marks, Fed, IsParser, Interpret, Untagged, Utf8.Run;
      ghost var t0, s := term.State(), term.buffer.View();
      MarksItself(s);
      var rest := data;
      while rest != []
        invariant term.Valid() && Marks(s, term.buffer.View())
        invariant term.buffer.rows == old(term.buffer.rows) && term.buffer.cols == old(term.buffer.cols)
        invariant FedAll(term.State(), Pieces(rest)) == FedAll(t0, Pieces(data))
        decreases |rest|
      {
        ghost var t, was := term.buffer.View(), rest;
        var piece: seq<Byte>;
        if rest[0] == LF {
          piece, rest := [CR, LF], rest[1..];
        } else {
          var n := RunLength(rest);
          piece, rest := rest[..n], rest[n..];
        }
        assert Pieces(was)[0] == piece && Pieces(was)[1..] == Pieces(rest);
        term.Feed(piece);
        MarksThenMarks(s, t, term.buffer.View());
      }
      CutsDoNotMatter(t0, Pieces(data));
      PiecesAreCrlf(data);
    }
  }

  /** Rows that are clean after marked changes were clean before. */
  lemma StillInSync(picture: Grid, row: nat, before: Surface, after: Surface)
    requires InSyncBut(picture, before, row) && Marks(before, after) && Alike(before.grid, after.grid)
    ensures InSyncBut(picture, after, row) && Alike(picture, after.grid)
  {
    hide Grid.At, Grid.Valid;
  }

  lemma RowRepainted(shown: Grid, picture: Grid, row: nat, s: Surface)
    requires InSyncBut(picture, s, row) && Alike(shown, s.grid)
    requires if row >= s.grid.rows then shown == picture
             else forall r, k :: 0 <= r < shown.rows && 0 <= k < shown.cols ==>
                    shown.At(r, k) == if r == row then s.grid.At(r, k) else picture.At(r, k)
    ensures InSync(shown, s) && shown.rows == s.grid.rows && shown.cols == s.grid.cols
  {
    hide Grid.At, Grid.Valid;
  }

  lemma PictureIs(s: Screen, g: Grid, surface: Surface)
    requires s.Valid() && surface.Valid() && surface.grid == s.shown
    requires g == if s.cursor.visible
                  then s.shown.Put(s.cursor.row, s.cursor.col, Inverted(s.shown.At(s.cursor.row, s.cursor.col)))
                  else s.shown
    ensures g == Picture(s) && InSyncBut(g, surface, s.cursor.row)
  {
    hide Grid.At, Grid.Put, Grid.Valid;
  }
}
