/** The terminal: it feeds bytes through the decoder and the parser, and carries
    out the actions on the screen buffer and the cursor. */
module TerminalCore {
  import opened Wrappers
  import opened ScreenGrid
  import opened ScreenSurface
  import opened CursorMachine
  import opened EscapeParser
  import opened TerminalActions
  import opened TerminalSgr
  import opened TerminalScreen
  import Utf8 = Utf8Decoder

  datatype TermState = TermState(utf8: Utf8.Decoder, parser: Parser, screen: Screen)

  /** What any bytes make of a terminal: they are decoded, interpreted, and the
      actions carried out one after the other. */
  ghost function Fed(t: TermState, data: seq<Byte>): (r: TermState)
    requires t.screen.Valid()
    ensures r.screen.Valid()
  {
    var (d, items) := Utf8.Run(t.utf8, data);
    var (p, actions) := Interpret(t.parser, items);
    TermState(d, p, ScreenAfter(t.screen, Untagged(actions)))
  }

  /** Feeding bytes in two calls is feeding them in one. */
  lemma FedConcat(t: TermState, a: seq<Byte>, b: seq<Byte>)
    requires t.screen.Valid()
    ensures Fed(t, a + b) == Fed(Fed(t, a), b)
  {
    hide Utf8.Run, Interpret, Untagged, ScreenAfter;
    var (d1, items1) := Utf8.Run(t.utf8, a);
    var (d2, items2) := Utf8.Run(d1, b);
    Utf8.RunConcat(t.utf8, a, b);
    InterpretConcat(t.parser, items1, items2);
    var (p1, actions1) := Interpret(t.parser, items1);
    var (p2, actions2) := Interpret(p1, items2);
    UntaggedConcat(actions1, actions2);
    ScreenAfterConcat(t.screen, Untagged(actions1), Untagged(actions2));
  }

  ghost function FedAll(t: TermState, chunks: seq<seq<Byte>>): (r: TermState)
    requires t.screen.Valid()
    ensures r.screen.Valid()
    decreases |chunks|
  {
    if chunks == [] then t else FedAll(Fed(t, chunks[0]), chunks[1..])
  }

  /** However bytes are cut into calls, the screen, the cursor, the pen and the
      replies are the same in the end. */
  lemma {:induction false} CutsDoNotMatter(t: TermState, chunks: seq<seq<Byte>>)
    requires t.screen.Valid()
    ensures FedAll(t, chunks) == Fed(t, Utf8.Flatten(chunks))
    decreases |chunks|
  {
    hide Fed;
    if chunks == [] {
      FedNothing(t);
    } else {
      CutsDoNotMatter(Fed(t, chunks[0]), chunks[1..]);
      FedConcat(t, chunks[0], Utf8.Flatten(chunks[1..]));
    }
  }

  lemma FedNothing(t: TermState)
    requires t.screen.Valid()
    ensures Fed(t, []) == t
  {
  }

  class Terminal {
    const buffer: ScreenBuffer
    const cursor: Cursor
    const parser: EscParser
    var utf8: Utf8.Decoder
    var pen: Pen
    var response: seq<Byte7>
    ghost var executed: seq<Action>

    ghost predicate ScreenValid()
      reads this, buffer, cursor
    {
      && buffer.Valid() && cursor.View().Valid()
      && buffer.rows == cursor.maxRows && buffer.cols == cursor.maxCols
    }

    /** All that a viewer or the peer can see, now or later. */
    ghost function Seen(): (s: Screen)
      requires ScreenValid()
      reads this, buffer, cursor
      ensures s.Valid()
    {
      Screen(buffer.usingAlternate, buffer.Active(), buffer.Hidden(), cursor.View(), pen, response)
    }

    /** The cursor is inside the grid, its region is sound, and the parser is
        within its bounds. */
    ghost predicate Valid()
      reads this, buffer, cursor, parser
    {
      ScreenValid() && IsParser(parser.View())
    }

    /** The whole state of the terminal, but for dirty flags and the scrollback. */
    ghost function State(): (t: TermState)
      requires ScreenValid()
      reads this, buffer, cursor, parser
      ensures t.screen.Valid()
    {
      TermState(utf8, parser.View(), Seen())
    }

    constructor (rows: nat, cols: nat)
      requires rows > 0 && cols > 0
      ensures Valid() && fresh(buffer) && fresh(cursor) && fresh(parser) && buffer.dirty == AllDirty(rows)
      ensures cursor.View() == Home(rows, cols) && buffer.Active() == BlankGrid(rows, cols)
      ensures utf8 == Utf8.IDLE && parser.View() == START && executed == []
    {
      buffer := new ScreenBuffer(rows, cols);
      cursor := new Cursor(rows, cols);
      parser := new EscParser();
      utf8, pen, response, executed := Utf8.IDLE, PLAIN, [], [];
    }

    /** The wrap that is made before a character is printed. */
    method WrapPending()
      requires ScreenValid()
      modifies buffer, cursor
      ensures ScreenValid() && Marks(old(buffer.View()), buffer.View())
      ensures buffer.usingAlternate == old(buffer.usingAlternate) && buffer.Hidden() == old(buffer.Hidden())
      ensures cursor.View() == PrintAt(old(cursor.View()))
      ensures forall r, k :: 0 <= r < buffer.rows && 0 <= k < buffer.cols ==>
                buffer.Active().At(r, k)
                == FedCell(old(buffer.Active()), old(cursor.View()),
                           old(cursor.wrapPending && cursor.View().FeedScrolls()), r, k)
    {
      hide Grid.At, Grid.Valid, Marks, MovedUp;
      MarksItself(buffer.View());
      if cursor.wrapPending {
        var scroll := cursor.DoWrap();
        if scroll {
          buffer.ScrollUp(1, cursor.scrollTop, cursor.scrollBottom);
        }
      }
    }

    /** Prints one character at the cursor, after a pending wrap. */
    method PrintChar(ch: nat)
      requires ScreenValid()
      modifies buffer, cursor
      ensures ScreenValid() && Marks(old(buffer.View()), buffer.View())
      ensures buffer.usingAlternate == old(buffer.usingAlternate) && buffer.Hidden() == old(buffer.Hidden())
      ensures cursor.View() == PrintAt(old(cursor.View())).Advanced()
      ensures forall r, k :: 0 <= r < buffer.rows && 0 <= k < buffer.cols ==>
                buffer.Active().At(r, k) == PrintCell(old(buffer.Active()), old(cursor.View()), ch, pen, r, k)
    {
      hide Grid.At, Grid.Valid, Marks, FedCell, CursorState.Fed, CursorState.Advanced, CursorState.FeedScrolls;
      ghost var s := buffer.View();
      WrapPending();
      ghost var t := buffer.View();
      buffer.PutChar(cursor.row, cursor.col, ch, pen);
      MarksThenMarks(s, t, buffer.View());
      cursor.AdvanceAfterPrint();
    }

    /** One line down, scrolling at the end of the region. */
    method LineFeed()
      requires ScreenValid()
      modifies buffer, cursor
      ensures ScreenValid() && Marks(old(buffer.View()), buffer.View())
      ensures buffer.usingAlternate == old(buffer.usingAlternate) && buffer.Hidden() == old(buffer.Hidden())
      ensures cursor.View() == old(cursor.View()).Fed()
      ensures forall r, k :: 0 <= r < buffer.rows && 0 <= k < buffer.cols ==>
                buffer.Active().At(r, k)
                == FedCell(old(buffer.Active()), old(cursor.View()), old(cursor.View()).FeedScrolls(), r, k)
    {
      hide Grid.At, Grid.Valid, Marks, MovedUp;
      MarksItself(buffer.View());
      var scroll := cursor.LineFeed();
      if scroll {
        buffer.ScrollUp(1, cursor.scrollTop, cursor.scrollBottom);
      }
    }

    /** The C0 controls: backspace, tab, line feed and carriage return. */
    method ExecuteControl(byte: Byte7)
      requires ScreenValid()
      modifies buffer, cursor
      ensures ScreenValid() && Marks(old(buffer.View()), buffer.View())
      ensures buffer.usingAlternate == old(buffer.usingAlternate) && buffer.Hidden() == old(buffer.Hidden())
      ensures
        var c := old(cursor.View());
        && cursor.View() == ControlCursor(c, byte)
        && forall r, k :: 0 <= r < buffer.rows && 0 <= k < buffer.cols ==>
             buffer.Active().At(r, k)
             == FedCell(old(buffer.Active()), c, 0x0A <= byte <= 0x0C && c.FeedScrolls(), r, k)
    {
      hide Grid.At, Grid.Valid, Marks, MovedUp;
      MarksItself(buffer.View());
      if byte == 0x08 {
        cursor.Backspace();
      } else if byte == 0x09 {
        cursor.Tab();
      } else if 0x0A <= byte <= 0x0C {
        LineFeed();
      } else if byte == 0x0D {
        cursor.CarriageReturn();
      }
    }

    /** Control sequences that move the cursor. */
    method MoveCursor(params: seq<nat>, final: Byte7)
      requires ScreenValid()
      modifies cursor
      ensures ScreenValid() && cursor.View() == CsiCursor(old(cursor.View()), params, final)
    {
      var n, p2 := Count(params), Param(params, 1);
      if final == 0x41 {
        cursor.MoveUp(n);
      } else if final == 0x42 {
        cursor.MoveDown(n);
      } else if final == 0x43 {
        cursor.MoveForward(n);
      } else if final == 0x44 {
        cursor.MoveBack(n);
      } else if final == 0x48 || final == 0x66 {
        cursor.SetPosition(n, Max(p2, 1));
      } else if final == 0x47 {
        cursor.SetPosition(cursor.row + 1, n);
      } else if final == 0x73 {
        cursor.Save();
      } else if final == 0x75 {
        cursor.Restore();
      } else if final == 0x72 {
        cursor.SetScrollRegion(n, if p2 == 0 then buffer.rows else p2);
      }
    }

    /** Control sequences that erase. */
    method Erase(params: seq<nat>, final: Byte7)
      requires ScreenValid() && (final == 0x4A || final == 0x4B || final == 0x58)
      modifies buffer
      ensures ScreenValid() && Marks(old(buffer.View()), buffer.View())
      ensures buffer.usingAlternate == old(buffer.usingAlternate) && buffer.Hidden() == old(buffer.Hidden())
      ensures forall r, k :: 0 <= r < buffer.rows && 0 <= k < buffer.cols ==>
                buffer.Active().At(r, k) == CsiCell(old(buffer.Active()), cursor.View(), params, final, r, k)
    {
      hide Grid.At, Grid.Valid, Marks;
      MarksItself(buffer.View());
      var p1 := Param(params, 0);
      if final == 0x4A {
        if p1 == 0 {
          buffer.ClearBelow(cursor.row, cursor.col);
        } else if p1 == 1 {
          buffer.ClearAbove(cursor.row, cursor.col);
        } else if p1 == 2 || p1 == 3 {
          buffer.Clear();
        }
      } else if final == 0x4B {
        if p1 == 0 {
          buffer.ClearLine(cursor.row, cursor.col, buffer.cols);
        } else if p1 == 1 {
          buffer.ClearLine(cursor.row, 0, cursor.col + 1);
        } else if p1 == 2 {
          buffer.ClearLine(cursor.row, 0, buffer.cols);
        }
      } else {
        buffer.EraseChars(cursor.row, cursor.col, Count(params));
      }
    }

    /** Control sequences that shift lines or characters. */
    method Shift(params: seq<nat>, final: Byte7)
      requires ScreenValid() && final in {0x4C, 0x4D, 0x53, 0x54, 0x40, 0x50}
      modifies buffer
      ensures ScreenValid() && Marks(old(buffer.View()), buffer.View())
      ensures buffer.usingAlternate == old(buffer.usingAlternate) && buffer.Hidden() == old(buffer.Hidden())
      ensures forall r, k :: 0 <= r < buffer.rows && 0 <= k < buffer.cols ==>
                buffer.Active().At(r, k) == CsiCell(old(buffer.Active()), cursor.View(), params, final, r, k)
    {
      hide Grid.At, Grid.Valid, Marks, MovedLeft, MovedRight;
      var n := Count(params);
      if final == 0x4C {
        buffer.InsertLines(cursor.row, n, cursor.scrollBottom);
      } else if final == 0x4D {
        buffer.DeleteLines(cursor.row, n, cursor.scrollBottom);
      } else if final == 0x53 {
        buffer.ScrollUp(n, cursor.scrollTop, cursor.scrollBottom);
      } else if final == 0x54 {
        buffer.ScrollDown(n, cursor.scrollTop, cursor.scrollBottom);
      } else if final == 0x40 {
        buffer.InsertChars(cursor.row, cursor.col, n);
      } else {
        buffer.DeleteChars(cursor.row, cursor.col, n);
      }
    }

    /** Status and attribute requests. */
    method Reply(params: seq<nat>, final: Byte7)
      requires ScreenValid()
      modifies this`response
      ensures response == old(response) + CsiReply(cursor.View(), params, final)
    {
      var p1 := Param(params, 0);
      if final == 0x6E && p1 == 6 {
        var row := WriteNumber(cursor.row + 1);
        var col := WriteNumber(cursor.col + 1);
        TwoParams(cursor.row + 1, cursor.col + 1);
        response := response + ([ESC, BRACKET] + [] + (row + [SEMICOLON] + col) + [0x52]);
      } else if final == 0x6E && p1 == 5 {
        response := response + ([ESC, BRACKET] + [] + [0x30] + [0x6E]);
      } else if final == 0x63 && p1 == 0 {
        TwoParams(1, 2);
        response := response + ([ESC, BRACKET] + [QUESTION] + ([0x31] + [SEMICOLON] + [0x32]) + [0x63]);
      } else {
        assert response + [] == response;
      }
    }

    /** A control sequence. */
    method ExecuteCsi(params: seq<nat>, final: Byte7)
      requires ScreenValid()
      modifies this`pen, this`response, buffer, cursor
      ensures ScreenValid() && Marks(old(buffer.View()), buffer.View())
      ensures buffer.usingAlternate == old(buffer.usingAlternate) && buffer.Hidden() == old(buffer.Hidden())
      ensures cursor.View() == CsiCursor(old(cursor.View()), params, final)
      ensures forall r, k :: 0 <= r < buffer.rows && 0 <= k < buffer.cols ==>
                buffer.Active().At(r, k) == CsiCell(old(buffer.Active()), old(cursor.View()), params, final, r, k)
      ensures response == old(response) + CsiReply(old(cursor.View()), params, final)
      ensures pen == if final == 0x6D then Sgr(old(pen), params) else old(pen)
    {
      hide Grid.At, Grid.Valid, Marks, MovedUp, MovedDown, MovedLeft, MovedRight, CsiBytes;
      MarksItself(buffer.View());
      if final in {0x4A, 0x4B, 0x58} {
        Erase(params, final);
      } else if final in {0x4C, 0x4D, 0x53, 0x54, 0x40, 0x50} {
        Shift(params, final);
      } else if final == 0x6D {
        pen := ExecuteSgr(pen, params);
      } else if final == 0x6E || final == 0x63 {
        Reply(params, final);
      } else {
        MoveCursor(params, final);
      }
    }

    /** Private sequences: cursor visibility and the alternate screen. */
    method ExecuteCsiPrivate(params: seq<nat>, final: Byte7)
      requires ScreenValid()
      modifies buffer, cursor
      ensures ScreenValid() && Marks(old(buffer.View()), buffer.View())
      ensures
        var p1 := Param(params, 0);
        && cursor.View() == PrivateCursor(old(cursor.View()), params, final)
        && (var t := Switched(old(Seen()), params, final);
            buffer.usingAlternate == t.alternate && buffer.Active() == t.shown && buffer.Hidden() == t.other)
        && (!(p1 == 1049 && final in {0x68, 0x6C}) ==> buffer.View() == old(buffer.View()))
    {
      hide Grid.At, Grid.Valid, Marks;
      MarksItself(buffer.View());
      var p1 := Param(params, 0);
      if p1 == 25 && final == 0x68 {
        cursor.visible := true;
      } else if p1 == 25 && final == 0x6C {
        cursor.visible := false;
      } else if p1 == 1049 && final == 0x68 {
        cursor.Save();
        buffer.EnableAlternate();
      } else if p1 == 1049 && final == 0x6C {
        buffer.DisableAlternate();
        cursor.Restore();
      }
    }

    /** The short escape sequences. */
    method ExecuteEsc(byte: Byte7)
      requires ScreenValid()
      modifies this`pen, buffer, cursor
      ensures ScreenValid() && Marks(old(buffer.View()), buffer.View())
      ensures buffer.usingAlternate == old(buffer.usingAlternate) && buffer.Hidden() == old(buffer.Hidden())
      ensures cursor.View() == EscCursor(old(cursor.View()), byte)
      ensures forall r, k :: 0 <= r < buffer.rows && 0 <= k < buffer.cols ==>
                buffer.Active().At(r, k) == EscCell(old(buffer.Active()), old(cursor.View()), byte, r, k)
      ensures pen == if byte == 0x63 then PLAIN else old(pen)
    {
      hide Grid.At, Grid.Valid, Marks, MovedUp, MovedDown;
      MarksItself(buffer.View());
      if byte == 0x63 {
        buffer.Clear();
        cursor.Reset(buffer.rows, buffer.cols);
        pen := PLAIN;
      } else if byte == 0x37 {
        cursor.Save();
      } else if byte == 0x38 {
        cursor.Restore();
      } else if byte == 0x44 {
        LineFeed();
      } else if byte == 0x45 {
        cursor.CarriageReturn();
        LineFeed();
      } else if byte == 0x4D {
        var scroll := cursor.ReverseIndex();
        if scroll {
          buffer.ScrollDown(1, cursor.scrollTop, cursor.scrollBottom);
        }
      }
    }

    /** Carries out one action. */
    method ExecuteAction(a: Action)
      requires ScreenValid()
      modifies this`pen, this`response, this`executed, buffer, cursor
      ensures ScreenValid() && Marks(old(buffer.View()), buffer.View())
      ensures executed == old(executed) + [a] && Seen() == ScreenAfterOne(old(Seen()), a)
    {
      hide Grid.At, Grid.Valid, Marks, CsiCell, FedCell, PrintCell, EscCell, CsiCursor, EscCursor, ControlCursor, PrivateCursor,
        CsiReply, Switched, ShownAfter, Sgr;
      ghost var s := Seen();
      MarksItself(buffer.View());
      match a {
        case Print(c) =>
          PrintChar(c);
        case Execute(byte) =>
          ExecuteControl(byte);
        case CsiDispatch(params, _, final, private) =>
          if private {
            ExecuteCsiPrivate(params, final);
          } else {
            ExecuteCsi(params, final);
          }
        case OscDispatch(_) =>
        case EscDispatch(byte) =>
          ExecuteEsc(byte);
      }
      if !(a.CsiDispatch? && a.private) { ShownIs(s, a, buffer.Active()); }
      executed := executed + [a];
    }

    /** Hands one ASCII byte to the parser and carries out what it asks for. */
    method ParseByte(byte: Byte7)
      requires Valid()
      modifies this`pen, this`response, this`executed, buffer, cursor, parser
      ensures Valid() && Marks(old(buffer.View()), buffer.View())
      ensures parser.View() == Step(old(parser.View()), byte).0
      ensures executed == old(executed) + Emit(Step(old(parser.View()), byte).1)
      ensures Follows(old(Seen()), old(executed), Seen(), executed)
    {
      hide Grid.At, Grid.Valid, Marks, Step, IsParser, IsAction, ScreenAfterOne, Follows;
      MarksItself(buffer.View());
      var a := parser.Feed(byte);
      FollowsOne(Seen(), executed, if a.Some? then a.value else Print(0));
      if a.Some? {
        ExecuteAction(a.value);
      }
    }

    /** One byte. The call to itself is made in the idle state only, so it goes
        at most one level deep. */
    method FeedByte(byte: Byte)
      requires Valid()
      modifies this, buffer, cursor, parser
      ensures Valid() && Marks(old(buffer.View()), buffer.View())
      ensures utf8 == Utf8.Step(old(utf8), byte).0
      ensures
        var (p, actions) := Interpret(old(parser.View()), Utf8.Step(old(utf8), byte).1);
        parser.View() == p && executed == old(executed) + Untagged(actions)
      ensures Follows(old(Seen()), old(executed), Seen(), executed)
      decreases utf8.need > 0
    {
      hide Grid.At, Grid.Valid, Marks, Step, IsParser, Interpret, Untagged, Follows, ScreenAfterOne;
      ghost var p, done, s, c := parser.View(), executed, buffer.View(), Seen();
      MarksItself(s);
      FollowsOne(c, done, Print(Utf8.REPLACEMENT));
      if byte < 0x80 {
        FewItems(p, byte);
        if utf8.need > 0 {
          utf8 := Utf8.IDLE;
          ExecuteAction(Print(Utf8.REPLACEMENT));
        }
        ghost var t, c1, mid := buffer.View(), Seen(), executed;
        ParseByte(byte);
        MarksThenMarks(s, t, buffer.View());
        FollowsThen(c, done, c1, mid, Seen(), executed);
        return;
      }
      var acc, seen, need := utf8.acc, utf8.seen, utf8.need;
      if need == 0 {
        match Utf8.Lead(byte)
        case None =>
          OneChar(p, Utf8.REPLACEMENT);
          ExecuteAction(Print(Utf8.REPLACEMENT));
        case Some(d) =>
          NoItems(p);
          utf8 := d;
      } else if byte <= 0xBF {
        var acc' := Utf8.Six(acc, byte);
        if seen + 1 == need {
          utf8 := Utf8.IDLE;
          OneChar(p, Utf8.FromU32(acc'));
          FollowsOne(c, done, Print(Utf8.FromU32(acc')));
          ExecuteAction(Print(Utf8.FromU32(acc')));
        } else {
          NoItems(p);
          utf8 := Utf8.Decoder(acc', seen + 1, need);
        }
      } else {
        utf8 := Utf8.IDLE;
        ExecuteAction(Print(Utf8.REPLACEMENT));
        ghost var t, c1, mid := buffer.View(), Seen(), executed;
        FeedByte(byte);
        MarksThenMarks(s, t, buffer.View());
        FollowsThen(c, done, c1, mid, Seen(), executed);
        CharFirst(p, Utf8.REPLACEMENT, Utf8.Step(Utf8.IDLE, byte).1);
      }
    }

    /** Any bytes at all: the screen stays sound, every changed row is marked, the
        actions carried out are those the decoder and the parser call for, and the
        screen is what these actions make of it. */
    method Feed(data: seq<Byte>)
      requires Valid()
      modifies this, buffer, cursor, parser
      ensures Valid() && Marks(old(buffer.View()), buffer.View())
      ensures utf8 == Utf8.Run(old(utf8), data).0
      ensures
        var (p, actions) := Interpret(old(parser.View()), Utf8.Run(old(utf8), data).1);
        parser.View() == p && executed == old(executed) + Untagged(actions)
      ensures State() == Fed(old(State()), data)
      ensures buffer.rows == old(buffer.rows) && buffer.cols == old(buffer.cols)
    {
      hide Grid.At, Grid.Valid, Marks, Step, IsParser, Interpret, Untagged, Utf8.Step, Utf8.Run, Follows, ScreenAfterOne;
      ghost var d, p, s, c := utf8, parser.View(), buffer.View(), Seen();
      MarksItself(s);
      FollowsOne(c, executed, Print(0));
      NothingRun(d, p);
      for i := 0 to |data|
        invariant Valid() && Marks(s, buffer.View()) && Follows(c, old(executed), Seen(), executed)
        invariant utf8 == Utf8.Run(d, data[..i]).0
        invariant parser.View() == Interpret(p, Utf8.Run(d, data[..i]).1).0
        invariant executed == old(executed) + Untagged(Interpret(p, Utf8.Run(d, data[..i]).1).1)
      {
        ghost var t, c1, mid := buffer.View(), Seen(), executed;
        OneByteMore(d, p, data, i);
        FeedByte(data[i]);
        MarksThenMarks(s, t, buffer.View());
        FollowsThen(c, old(executed), c1, mid, Seen(), executed);
      }
      assert data[..|data|] == data;
      LogTells(c, old(executed), Seen(), executed, Untagged(Interpret(p, Utf8.Run(d, data).1).1));
    }

    method Resize(rows: nat, cols: nat)
      requires Valid() && rows > 0 && cols > 0
      modifies buffer, cursor
      ensures Valid() && Marks(old(buffer.View()), buffer.View())
      ensures cursor.View() == old(cursor.View()).Resized(rows, cols)
      ensures buffer.rows == rows && buffer.cols == cols
      ensures forall r, k :: 0 <= r < rows && 0 <= k < cols ==>
                buffer.Active().At(r, k)
                == if r < old(buffer.rows) && k < old(buffer.cols) then old(buffer.Active()).At(r, k) else BLANK
    {
      hide Grid.At, Grid.Valid, Marks;
      buffer.Resize(rows, cols);
      cursor.Resize(rows, cols);
    }
  }

  lemma MarksItself(s: Surface)
    requires s.Valid()
    ensures Marks(s, s)
  {
  }

  lemma LogTells(s: Screen, was: seq<Action>, t: Screen, now: seq<Action>, actions: seq<Action>)
    requires Follows(s, was, t, now) && now == was + actions
    ensures t == ScreenAfter(s, actions) && Alike(s.shown, t.shown)
  {
    assert now[|was|..] == actions;
  }

  /** The actions without their tags. */
  function Untagged(actions: seq<Tagged>): seq<Action> {
    if actions == [] then [] else Untagged(actions[..|actions| - 1]) + [actions[|actions| - 1].action]
  }

  lemma {:induction false} UntaggedConcat(a: seq<Tagged>, b: seq<Tagged>)
    ensures Untagged(a + b) == Untagged(a) + Untagged(b)
    decreases |b|
  {
    if b == [] {
      assert a + b == a;
    } else {
      assert (a + b)[..|a + b| - 1] == a + b[..|b| - 1];
      UntaggedConcat(a, b[..|b| - 1]);
    }
  }

  lemma NoItems(p: Parser)
    ensures Interpret(p, []) == (p, []) && Untagged([]) == []
  {
  }

  lemma OneChar(p: Parser, c: nat)
    ensures Interpret(p, [Utf8.Char(c)]) == (p, [Tagged(false, Print(c))])
    ensures Untagged([Tagged(false, Print(c))]) == [Print(c)]
  {
    InterpretSingle(p, Utf8.Char(c));
    assert [Tagged(false, Print(c))][..0] == [];
  }

  lemma OneAscii(p: Parser, byte: Byte7)
    ensures Interpret(p, [Utf8.Ascii(byte)]).0 == Step(p, byte).0
    ensures Untagged(Interpret(p, [Utf8.Ascii(byte)]).1) == Emit(Step(p, byte).1)
  {
    hide Step;
    InterpretSingle(p, Utf8.Ascii(byte));
    var a := Step(p, byte).1;
    if a.Some? { assert [Tagged(true, a.value)][..0] == []; }
  }

  lemma CharFirst(p: Parser, c: nat, items: seq<Utf8.Item>)
    ensures Interpret(p, [Utf8.Char(c)] + items).0 == Interpret(p, items).0
    ensures Untagged(Interpret(p, [Utf8.Char(c)] + items).1) == [Print(c)] + Untagged(Interpret(p, items).1)
  {
    hide Interpret, Untagged;
    InterpretConcat(p, [Utf8.Char(c)], items);
    OneChar(p, c);
    UntaggedConcat([Tagged(false, Print(c))], Interpret(p, items).1);
  }

  lemma FewItems(p: Parser, byte: Byte7)
    ensures Interpret(p, [Utf8.Ascii(byte)]).0 == Step(p, byte).0
    ensures Untagged(Interpret(p, [Utf8.Ascii(byte)]).1) == Emit(Step(p, byte).1)
    ensures
      var items := [Utf8.Char(Utf8.REPLACEMENT), Utf8.Ascii(byte)];
      && Interpret(p, items).0 == Step(p, byte).0
      && Untagged(Interpret(p, items).1) == [Print(Utf8.REPLACEMENT)] + Emit(Step(p, byte).1)
  {
    hide Interpret, Untagged, Step;
    OneAscii(p, byte);
    CharFirst(p, Utf8.REPLACEMENT, [Utf8.Ascii(byte)]);
    assert [Utf8.Char(Utf8.REPLACEMENT), Utf8.Ascii(byte)] == [Utf8.Char(Utf8.REPLACEMENT)] + [Utf8.Ascii(byte)];
  }

  lemma NothingRun(d: Utf8.Decoder, p: Parser)
    ensures Utf8.Run(d, []) == (d, []) && Interpret(p, []) == (p, []) && Untagged([]) == []
  {
  }

  lemma OneByteMore(d: Utf8.Decoder, p: Parser, data: seq<Byte>, i: nat)
    requires i < |data|
    ensures
      var (d1, items1) := Utf8.Run(d, data[..i]);
      var (d2, items2) := Utf8.Step(d1, data[i]);
      var (p1, actions1) := Interpret(p, items1);
      var (p2, actions2) := Interpret(p1, items2);
      && Utf8.Run(d, data[..i + 1]) == (d2, items1 + items2)
      && Interpret(p, items1 + items2) == (p2, actions1 + actions2)
      && Untagged(actions1 + actions2) == Untagged(actions1) + Untagged(actions2)
  {
    hide Interpret, Untagged, Utf8.Step, Utf8.Run;
    var (d1, items1) := Utf8.Run(d, data[..i]);
    var (d2, items2) := Utf8.Step(d1, data[i]);
    assert data[..i + 1] == data[..i] + [data[i]];
    Utf8.RunConcat(d, data[..i], [data[i]]);
    Utf8.RunOne(d1, data[i]);
    InterpretConcat(p, items1, items2);
    UntaggedConcat(Interpret(p, items1).1, Interpret(Interpret(p, items1).0, items2).1);
  }
}
