/**
 What the bytes that programs write mean to someone who looks at the screen:
 where text appears, where the cursor goes, what is erased and what moves.
 */
module TerminalLaws {
  import opened Wrappers
  import opened ScreenGrid
  import opened CursorMachine
  import opened EscapeParser
  import opened TerminalActions
  import opened TerminalSgr
  import opened TerminalScreen
  import opened TerminalCore
  import Utf8 = Utf8Decoder

  /** No character and no sequence is half read. */
  ghost predicate Calm(t: TermState) {
    t.utf8 == Utf8.IDLE && t.parser.state == Ground && t.screen.Valid()
  }

  // ---- From bytes to actions ----------------------------------------------

  lemma {:induction false} AsciiIsText(bytes: seq<Byte7>)
    ensures Utf8.IsText(bytes) && Utf8.EncodeAll(bytes) == bytes
  {
    if bytes != [] {
      AsciiIsText(bytes[1..]);
      assert bytes == [bytes[0]] + bytes[1..];
    }
  }

  lemma {:induction false} AsciiActions(p: Parser, bytes: seq<Byte7>)
    ensures Interpret(p, Utf8.Items(bytes)).0 == Run(p, bytes).0
    ensures Untagged(Interpret(p, Utf8.Items(bytes)).1) == Run(p, bytes).1
    decreases |bytes|
  {
    hide Step, Untagged, InterpretOne;
    if bytes == [] {
      NoItems(p);
    } else {
      var first, items := [Utf8.Ascii(bytes[0])], Utf8.Items(bytes[1..]);
      assert Utf8.Items(bytes) == first + items;
      InterpretConcat(p, first, items);
      OneAscii(p, bytes[0]);
      AsciiActions(Step(p, bytes[0]).0, bytes[1..]);
      UntaggedConcat(Interpret(p, first).1, Interpret(Interpret(p, first).0, items).1);
    }
  }

  /** A whole control sequence is carried out. */
  lemma SequenceActs(t: TermState, ps: seq<nat>, private: bool, final: Byte7)
    requires Calm(t) && ps != [] && |Join(ps)| <= MAX_PARAM_BYTES && IsFinal(final)
    ensures
      var t' := Fed(t, CsiBytes(ps, private, final));
      Calm(t') && t'.screen == ScreenAfterOne(t.screen, CsiDispatch(Capped(ps), [], final, private))
  {
    hide ScreenAfterOne, Run, Interpret, Untagged, Utf8.Run, CsiBytes, Join, Capped;
    var bytes := CsiBytes(ps, private, final);
    AsciiIsText(bytes);
    Utf8.EncodedTextDecodes(bytes);
    AsciiActions(t.parser, bytes);
    CsiRoundTrip(t.parser, ps, private, final);
    OneAction(t.screen, CsiDispatch(Capped(ps), [], final, private));
  }

  lemma OneAction(s: Screen, a: Action)
    requires s.Valid()
    ensures ScreenAfter(s, [a]) == ScreenAfterOne(s, a)
  {
    hide ScreenAfterOne;
    assert [a][..0] == [];
  }

  // ---- Where the cursor goes ----------------------------------------------

  ghost function Csi(s: Screen, params: seq<nat>, final: Byte7): (t: Screen)
    requires s.Valid()
    ensures t.Valid() && Alike(s.shown, t.shown)
  {
    ScreenAfterOne(s, CsiDispatch(params, [], final, false))
  }

  /** The final bytes of sequences that move the cursor and do nothing else. */
  predicate IsMove(final: Byte7) {
    final in {0x41, 0x42, 0x43, 0x44, 0x47, 0x48, 0x66, 0x72, 0x73, 0x75}
  }

  /** They leave both screens, the pen and the replies alone. */
  lemma MovesOnlyCursor(s: Screen, params: seq<nat>, final: Byte7)
    requires s.Valid() && IsMove(final)
    ensures Csi(s, params, final) == s.(cursor := CsiCursor(s.cursor, params, final))
  {
    hide Grid.At, Grid.Valid, ShownAfter, CsiCursor, Sgr;
    var a := CsiDispatch(params, [], final, false);
    ShownIs(s, a, s.shown);
    assert s.replies + [] == s.replies;
  }

  /** `H` and `f` put the cursor into the row and column they name, counted from
      one; a number beyond the last row or column means the last one. */
  lemma PositionMeans(s: Screen, r: nat, k: nat, final: Byte7)
    requires s.Valid() && (final == 0x48 || final == 0x66)
    ensures
      var c, t := s.cursor, Csi(s, [r, k], final);
      && (1 <= r <= c.maxRows && 1 <= k <= c.maxCols ==>
            t == s.(cursor := c.(row := r - 1, col := k - 1, wrapPending := false)))
      && (r > c.maxRows ==> t.cursor.row == c.maxRows - 1) && (k > c.maxCols ==> t.cursor.col == c.maxCols - 1)
      && (r == 0 ==> t.cursor.row == 0) && (k == 0 ==> t.cursor.col == 0)
  {
    hide Csi;
    MovesOnlyCursor(s, [r, k], final);
  }

  /** `G` moves within the row. */
  lemma ColumnMeans(s: Screen, k: nat)
    requires s.Valid() && 1 <= k <= s.cursor.maxCols
    ensures Csi(s, [k], 0x47) == s.(cursor := s.cursor.(col := k - 1, wrapPending := false))
  {
    hide Csi;
    MovesOnlyCursor(s, [k], 0x47);
  }

  /** `A`, `B`, `C` and `D` move the cursor by as many rows or columns as they
      say, as long as it stays in the region and in the grid, and to the edge
      otherwise. */
  lemma StepsMean(s: Screen, n: nat)
    requires s.Valid() && n > 0
    ensures
      var c, still := s.cursor, s.cursor.(wrapPending := false);
      && (c.row >= c.scrollTop + n ==> Csi(s, [n], 0x41) == s.(cursor := still.(row := c.row - n)))
      && (c.row < c.scrollTop + n ==> Csi(s, [n], 0x41) == s.(cursor := still.(row := c.scrollTop)))
      && (c.row + n < c.scrollBottom ==> Csi(s, [n], 0x42) == s.(cursor := still.(row := c.row + n)))
      && (c.row + n >= c.scrollBottom ==> Csi(s, [n], 0x42) == s.(cursor := still.(row := c.scrollBottom - 1)))
      && (c.col + n < c.maxCols ==> Csi(s, [n], 0x43) == s.(cursor := still.(col := c.col + n)))
      && (c.col + n >= c.maxCols ==> Csi(s, [n], 0x43) == s.(cursor := still.(col := c.maxCols - 1)))
      && (c.col >= n ==> Csi(s, [n], 0x44) == s.(cursor := still.(col := c.col - n)))
      && (c.col < n ==> Csi(s, [n], 0x44) == s.(cursor := still.(col := 0)))
  {
    hide Csi;
    MovesOnlyCursor(s, [n], 0x41);
    MovesOnlyCursor(s, [n], 0x42);
    MovesOnlyCursor(s, [n], 0x43);
    MovesOnlyCursor(s, [n], 0x44);
  }

  /** A step up takes the cursor down exactly when it is above the region, and a
      step down takes it up exactly when it is below. */
  lemma UpMovesDownExactly(s: Screen, n: nat)
    requires s.Valid() && n > 0
    ensures Csi(s, [n], 0x41).cursor.row > s.cursor.row <==> s.cursor.row < s.cursor.scrollTop
    ensures Csi(s, [n], 0x42).cursor.row < s.cursor.row <==> s.cursor.row >= s.cursor.scrollBottom
  {
    hide Csi;
    StepsMean(s, n);
  }

  /** `r` names the first and the last row of the region, counted from one, and
      puts the cursor at its start; a region that is empty or that the grid does
      not have is not taken. */
  lemma RegionMeans(s: Screen, top: nat, bottom: nat)
    requires s.Valid() && top > 0 && bottom > 0
    ensures
      var end := Min(bottom, s.cursor.maxRows);
      Csi(s, [top, bottom], 0x72) ==
      if top <= end
      then s.(cursor := s.cursor.(scrollTop := top - 1, scrollBottom := end, row := top - 1, col := 0, wrapPending := false))
      else s
  {
    hide Csi;
    MovesOnlyCursor(s, [top, bottom], 0x72);
  }

  /** Rows 5 to 10 are the region, the cursor is put to the first row, and a step up
      takes it to the fifth. */
  lemma UpMovesDownExample(s: Screen)
    requires s.Valid() && s.cursor == Home(24, 80)
    ensures Csi(Csi(Csi(s, [5, 10], 0x72), [1, 1], 0x48), [1], 0x41).cursor.row == 4
  {
    hide Csi;
    RegionMeans(s, 5, 10);
    var s1 := Csi(s, [5, 10], 0x72);
    PositionMeans(s1, 1, 1, 0x48);
    StepsMean(Csi(s1, [1, 1], 0x48), 1);
  }

  /** `s` remembers the position and `u` returns to it, from wherever the cursor
      has been put meanwhile. */
  lemma ReturnsToSaved(s: Screen, r: nat, k: nat)
    requires s.Valid()
    ensures
      var away := Csi(Csi(s, [0], 0x73), [r, k], 0x48);
      var back := Csi(away, [0], 0x75).cursor;
      back.row == s.cursor.row && back.col == s.cursor.col && !back.wrapPending
  {
    hide Csi;
    MovesOnlyCursor(s, [0], 0x73);
    var saved := Csi(s, [0], 0x73);
    MovesOnlyCursor(saved, [r, k], 0x48);
    var away := Csi(saved, [r, k], 0x48);
    MovesOnlyCursor(away, [0], 0x75);
  }

  /** `6n` is answered with the row and the column, counted from one, and changes
      nothing. */
  lemma ReportMeans(s: Screen)
    requires s.Valid()
    ensures Csi(s, [6], 0x6E) ==
            s.(replies := s.replies + CsiBytes([s.cursor.row + 1, s.cursor.col + 1], false, 0x52))
  {
    hide Grid.At, Grid.Valid, ShownAfter, CsiBytes;
    ShownIs(s, CsiDispatch([6], [], 0x6E, false), s.shown);
  }

  lemma ShortParams(a: nat, b: nat)
    requires a <= MAX_PARAM && b <= MAX_PARAM
    ensures |Join([a, b])| <= MAX_PARAM_BYTES && Capped([a, b]) == [a, b]
  {
    hide Join;
    RenderIsShort(a, 100_000, 5);
    RenderIsShort(b, 100_000, 5);
    TwoParams(a, b);
  }

  lemma ShortParam(a: nat)
    requires a <= MAX_PARAM
    ensures |Join([a])| <= MAX_PARAM_BYTES && Capped([a]) == [a]
  {
    RenderIsShort(a, 100_000, 5);
    assert Join([a]) == Render(a);
  }

  /** Bytes that put the cursor somewhere. */
  function PositionBytes(r: nat, k: nat): seq<Byte7> {
    CsiBytes([r, k], false, 0x48)
  }

  lemma CursorIsPut(t: TermState, r: nat, k: nat)
    requires Calm(t) && 1 <= r <= t.screen.cursor.maxRows && 1 <= k <= t.screen.cursor.maxCols
    requires r <= MAX_PARAM && k <= MAX_PARAM
    ensures
      var t' := Fed(t, PositionBytes(r, k));
      && Calm(t')
      && t'.screen == t.screen.(cursor := t.screen.cursor.(row := r - 1, col := k - 1, wrapPending := false))
  {
    hide Fed, CsiBytes, Join, Csi;
    ShortParams(r, k);
    SequenceActs(t, [r, k], false, 0x48);
    PositionMeans(t.screen, r, k, 0x48);
    assert Csi(t.screen, [r, k], 0x48) == ScreenAfterOne(t.screen, CsiDispatch([r, k], [], 0x48, false)) by {
      CsiIs(t.screen, [r, k], 0x48);
    }
  }

  lemma CsiIs(s: Screen, params: seq<nat>, final: Byte7)
    requires s.Valid()
    ensures Csi(s, params, final) == ScreenAfterOne(s, CsiDispatch(params, [], final, false))
  {
  }

  /** A terminal that is told a position and asked for it answers with the same
      position, and shows what it showed. */
  lemma ReportsWhereItWasPut(t: TermState, r: nat, k: nat)
    requires Calm(t) && 1 <= r <= t.screen.cursor.maxRows && 1 <= k <= t.screen.cursor.maxCols
    requires r <= MAX_PARAM && k <= MAX_PARAM
    ensures
      var s := Fed(t, PositionBytes(r, k) + CsiBytes([6], false, 0x6E)).screen;
      && s.replies == t.screen.replies + CsiBytes([r, k], false, 0x52)
      && s.shown == t.screen.shown && s.other == t.screen.other && s.pen == t.screen.pen
  {
    hide Fed, CsiBytes, Join, Csi, PositionBytes;
    CursorIsPut(t, r, k);
    FedConcat(t, PositionBytes(r, k), CsiBytes([6], false, 0x6E));
    var t1 := Fed(t, PositionBytes(r, k));
    ShortParam(6);
    SequenceActs(t1, [6], false, 0x6E);
    CsiIs(t1.screen, [6], 0x6E);
    ReportMeans(t1.screen);
  }

  // ---- Where text appears -------------------------------------------------

  /** Characters that are shown, as opposed to controls. */
  ghost predicate IsShown(text: seq<nat>) {
    Utf8.IsText(text) && forall i :: 0 <= i < |text| ==> text[i] >= 0x20 && text[i] != 0x7F
  }

  function Prints(text: seq<nat>): seq<Action> {
    if text == [] then [] else Prints(text[..|text| - 1]) + [Print(text[|text| - 1])]
  }

  lemma {:induction false} ShownItems(p: Parser, text: seq<nat>)
    requires p.state == Ground && IsShown(text)
    ensures Interpret(p, Utf8.Items(text)).0 == p
    ensures Untagged(Interpret(p, Utf8.Items(text)).1) == Prints(text)
    decreases |text|
  {
    hide Untagged, InterpretOne, Utf8.Items, Interpret;
    if text == [] {
      NoItems(p);
      ItemsOfConcat([], []);
    } else {
      var first, c := text[..|text| - 1], text[|text| - 1];
      assert text == first + [c];
      ShownItems(p, first);
      ItemsOfConcat(first, [c]);
      ShownItem(p, c);
      InterpretConcat(p, Utf8.Items(first), Utf8.Items([c]));
      UntaggedConcat(Interpret(p, Utf8.Items(first)).1, Interpret(p, Utf8.Items([c])).1);
    }
  }

  lemma ShownItem(p: Parser, c: nat)
    requires p.state == Ground && c >= 0x20 && c != 0x7F
    ensures Interpret(p, Utf8.Items([c])).0 == p
    ensures Untagged(Interpret(p, Utf8.Items([c])).1) == [Print(c)]
  {
    hide Interpret, Untagged;
    assert [c][1..] == [];
    assert Utf8.Items([c]) == [if c < 0x80 then Utf8.Ascii(c) else Utf8.Char(c)];
    if c < 0x80 { OneAscii(p, c); } else { OneChar(p, c); }
  }

  lemma {:induction false} ItemsOfConcat(a: seq<nat>, b: seq<nat>)
    ensures Utf8.Items(a + b) == Utf8.Items(a) + Utf8.Items(b)
    ensures Utf8.Items([]) == []
  {
    if a == [] {
      assert a + b == b;
    } else {
      assert (a + b)[1..] == a[1..] + b;
      ItemsOfConcat(a[1..], b);
    }
  }

  /** The cursor after `n` characters that fit into the row. */
  function Past(c: CursorState, n: nat): CursorState {
    if n == 0 then c
    else if c.col + n < c.maxCols then c.(col := c.col + n)
    else c.(col := Max(c.maxCols - 1, 0), wrapPending := true)
  }

  /** Screen `t` is screen `s` with the text written from the cursor on. */
  ghost predicate IsWritten(s: Screen, t: Screen, text: seq<nat>)
    requires s.Valid() && t.Valid() && Alike(s.shown, t.shown)
  {
    && t == s.(shown := t.shown, cursor := Past(s.cursor, |text|))
    && forall r, k :: 0 <= r < s.shown.rows && 0 <= k < s.shown.cols ==>
         t.shown.At(r, k) ==
         if r == s.cursor.row && s.cursor.col <= k < s.cursor.col + |text|
         then Cell(text[k - s.cursor.col], s.pen) else s.shown.At(r, k)
  }

  lemma {:induction false} PrintsAppear(s: Screen, text: seq<nat>)
    requires s.Valid() && !s.cursor.wrapPending && s.cursor.col + |text| <= s.cursor.maxCols
    ensures IsWritten(s, ScreenAfter(s, Prints(text)), text)
    decreases |text|
  {
    hide ScreenAfterOne, Grid.At, Grid.Valid;
    if text != [] {
      var first, c := text[..|text| - 1], text[|text| - 1];
      PrintsAppear(s, first);
      var prints := Prints(text);
      assert prints[..|prints| - 1] == Prints(first);
      OneMorePrinted(s, ScreenAfter(s, Prints(first)), first, c);
      assert first + [c] == text;
    }
  }

  lemma OneMorePrinted(s: Screen, t: Screen, text: seq<nat>, c: nat)
    requires s.Valid() && !s.cursor.wrapPending && s.cursor.col + |text| < s.cursor.maxCols
    requires t.Valid() && Alike(s.shown, t.shown) && IsWritten(s, t, text)
    ensures IsWritten(s, ScreenAfterOne(t, Print(c)), text + [c])
  {
    hide Grid.At, Grid.Valid, ShownAfter;
    assert t.replies + [] == t.replies;
    var u := ScreenAfterOne(t, Print(c));
    assert u.cursor == Past(s.cursor, |text| + 1);
    forall r, k | 0 <= r < s.shown.rows && 0 <= k < s.shown.cols
      ensures u.shown.At(r, k) ==
              if r == s.cursor.row && s.cursor.col <= k < s.cursor.col + |text| + 1
              then Cell((text + [c])[k - s.cursor.col], s.pen) else s.shown.At(r, k)
    {
      assert u.shown.At(r, k) == PrintCell(t.shown, t.cursor, c, t.pen, r, k);
    }
  }

  /** Text that fits into the rest of the row appears there, character by character
      and with the pen in use, and nothing else on either screen changes. */
  lemma TextAppears(t: TermState, text: seq<nat>)
    requires Calm(t) && IsShown(text)
    requires !t.screen.cursor.wrapPending && t.screen.cursor.col + |text| <= t.screen.cursor.maxCols
    ensures
      var t' := Fed(t, Utf8.EncodeAll(text));
      Calm(t') && Alike(t.screen.shown, t'.screen.shown) && IsWritten(t.screen, t'.screen, text)
  {
    hide Interpret, Untagged, Utf8.Run, Utf8.EncodeAll, ScreenAfter, IsWritten;
    Utf8.EncodedTextDecodes(text);
    ShownItems(t.parser, text);
    PrintsAppear(t.screen, text);
  }

  /** Text can be written anywhere: the bytes that put the cursor to row `r` and
      column `k`, followed by those of the text, show it there and nowhere else. */
  lemma TextAppearsAnywhere(t: TermState, r: nat, k: nat, text: seq<nat>)
    requires Calm(t) && IsShown(text) && r <= MAX_PARAM && k <= MAX_PARAM
    requires 1 <= r <= t.screen.cursor.maxRows && 1 <= k && k - 1 + |text| <= t.screen.cursor.maxCols
    requires k <= t.screen.cursor.maxCols
    ensures
      var t' := Fed(t, PositionBytes(r, k) + Utf8.EncodeAll(text));
      && Calm(t') && Alike(t.screen.shown, t'.screen.shown)
      && t'.screen.other == t.screen.other && t'.screen.pen == t.screen.pen
      && forall i, j :: 0 <= i < t.screen.shown.rows && 0 <= j < t.screen.shown.cols ==>
           t'.screen.shown.At(i, j) ==
           if i == r - 1 && k - 1 <= j < k - 1 + |text| then Cell(text[j - (k - 1)], t.screen.pen)
           else t.screen.shown.At(i, j)
  {
    hide Fed, PositionBytes, Utf8.EncodeAll, Grid.At, Grid.Valid;
    CursorIsPut(t, r, k);
    FedConcat(t, PositionBytes(r, k), Utf8.EncodeAll(text));
    TextAppears(Fed(t, PositionBytes(r, k)), text);
  }

  /** A character after one in the last column goes to the start of the next row,
      for which the region scrolls if that was its last. */
  lemma WrapMeans(s: Screen, c: nat)
    requires s.Valid() && s.cursor.wrapPending && s.cursor.maxCols > 1
    ensures
      var t := ScreenAfterOne(s, Print(c));
      var row := if s.cursor.row + 1 >= s.cursor.scrollBottom then s.cursor.row else s.cursor.row + 1;
      && t.cursor == s.cursor.(row := row, col := 1, wrapPending := false)
      && t.shown.At(row, 0) == Cell(c, s.pen)
      && (row > s.cursor.row ==> forall i, j :: 0 <= i < s.shown.rows && 0 <= j < s.shown.cols && !(i == row && j == 0) ==>
            t.shown.At(i, j) == s.shown.At(i, j))
  {
    hide Grid.At, Grid.Valid, ShownAfter;
    var t := ScreenAfterOne(s, Print(c));
    assert forall i, j :: 0 <= i < t.shown.rows && 0 <= j < t.shown.cols ==>
      t.shown.At(i, j) == PrintCell(s.shown, s.cursor, c, s.pen, i, j);
  }
}
