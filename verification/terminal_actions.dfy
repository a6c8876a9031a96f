/**
 What the terminal is to do for a stream of bytes: the decoder hands ASCII bytes
 to the escape parser and prints every other character.
 */
module TerminalActions {
  import opened Wrappers
  import opened EscapeParser
  import Utf8 = Utf8Decoder

  /** An action, and whether the parser asked for it or the decoder. */
  datatype Tagged = Tagged(parsed: bool, action: Action)

  function Interpret(p: Parser, items: seq<Utf8.Item>): (Parser, seq<Tagged>)
    decreases |items|
  {
    if items == [] then (p, [])
    else
      var (p1, now) := InterpretOne(p, items[0]);
      var (p2, rest) := Interpret(p1, items[1..]);
      (p2, now + rest)
  }

  function InterpretOne(p: Parser, item: Utf8.Item): (Parser, seq<Tagged>) {
    match item
    case Ascii(byte) =>
      var (p1, a) := Step(p, byte);
      (p1, if a.Some? then [Tagged(true, a.value)] else [])
    case Char(c) => (p, [Tagged(false, Print(c))])
  }

  lemma {:induction false} InterpretConcat(p: Parser, a: seq<Utf8.Item>, b: seq<Utf8.Item>)
    ensures Interpret(p, a + b) == (Interpret(Interpret(p, a).0, b).0, Interpret(p, a).1 + Interpret(Interpret(p, a).0, b).1)
    decreases |a|
  {
    hide InterpretOne;
    if a == [] {
      assert a + b == b;
      assert [] + Interpret(p, b).1 == Interpret(p, b).1;
    } else {
      assert (a + b)[1..] == a[1..] + b;
      var (p1, now) := InterpretOne(p, a[0]);
      InterpretConcat(p1, a[1..], b);
      var (p2, rest) := Interpret(p1, a[1..]);
      assert now + (rest + Interpret(p2, b).1) == now + rest + Interpret(p2, b).1;
    }
  }

  lemma InterpretSingle(p: Parser, item: Utf8.Item)
    ensures Interpret(p, [item]) == InterpretOne(p, item)
  {
    hide InterpretOne;
    assert [item][1..] == [];
    assert InterpretOne(p, item).1 + [] == InterpretOne(p, item).1;
  }

  /** The actions that the parser, or the decoder, asked for. */
  function Only(actions: seq<Tagged>, parsed: bool): seq<Action> {
    if actions == [] then []
    else (if actions[0].parsed == parsed then [actions[0].action] else []) + Only(actions[1..], parsed)
  }

  lemma {:induction false} OnlyConcat(a: seq<Tagged>, b: seq<Tagged>, parsed: bool)
    ensures Only(a + b, parsed) == Only(a, parsed) + Only(b, parsed)
    decreases |a|
  {
    if a == [] {
      assert a + b == b;
      assert [] + Only(b, parsed) == Only(b, parsed);
    } else {
      assert (a + b)[1..] == a[1..] + b;
      OnlyConcat(a[1..], b, parsed);
      var first := if a[0].parsed == parsed then [a[0].action] else [];
      assert first + (Only(a[1..], parsed) + Only(b, parsed)) == first + Only(a[1..], parsed) + Only(b, parsed);
    }
  }

  /** The ASCII characters of a text, and prints of all the others. */
  function AsciiOf(text: seq<nat>): seq<Byte7> {
    if text == [] then [] else (if text[0] < 0x80 then [text[0]] else []) + AsciiOf(text[1..])
  }

  function PrintsOf(text: seq<nat>): seq<Action> {
    if text == [] then [] else (if text[0] < 0x80 then [] else [Print(text[0])]) + PrintsOf(text[1..])
  }

  /** The characters of a text other than ASCII are each printed once, in order;
      the ASCII bytes cause exactly the actions they cause by themselves. */
  lemma {:induction false} ItemsActions(p: Parser, text: seq<nat>)
    ensures Interpret(p, Utf8.Items(text)).0 == Run(p, AsciiOf(text)).0
    ensures Only(Interpret(p, Utf8.Items(text)).1, true) == Run(p, AsciiOf(text)).1
    ensures Only(Interpret(p, Utf8.Items(text)).1, false) == PrintsOf(text)
    decreases |text|
  {
    hide Step;
    if text != [] {
      var items := Utf8.Items(text);
      var (p1, now) := InterpretOne(p, items[0]);
      assert items[1..] == Utf8.Items(text[1..]);
      ItemsActions(p1, text[1..]);
      var rest := Interpret(p1, items[1..]).1;
      OnlyConcat(now, rest, true);
      OnlyConcat(now, rest, false);
      OnlyFew(now, true);
      OnlyFew(now, false);
      AsciiStep(p, text);
    }
  }

  lemma OnlyFew(now: seq<Tagged>, parsed: bool)
    requires |now| <= 1
    ensures Only(now, parsed) == if now != [] && now[0].parsed == parsed then [now[0].action] else []
  {
    if now != [] { assert now[1..] == []; }
  }

  lemma AsciiStep(p: Parser, text: seq<nat>)
    requires text != []
    ensures text[0] < 0x80 ==>
              && Run(p, AsciiOf(text)).0 == Run(Step(p, text[0]).0, AsciiOf(text[1..])).0
              && Run(p, AsciiOf(text)).1 == Emit(Step(p, text[0]).1) + Run(Step(p, text[0]).0, AsciiOf(text[1..])).1
    ensures text[0] >= 0x80 ==> AsciiOf(text) == AsciiOf(text[1..])
  {
    hide Step;
    if text[0] < 0x80 {
      assert AsciiOf(text)[1..] == AsciiOf(text[1..]);
    }
  }

  /** However a well-formed text is cut into calls, each of its characters from
      U+0080 on is printed exactly once, and the ASCII bytes cause what they
      would cause alone. */
  lemma TextActions(p: Parser, text: seq<nat>, chunks: seq<seq<Byte>>)
    requires Utf8.IsText(text) && Utf8.Flatten(chunks) == Utf8.EncodeAll(text)
    ensures
      var actions := Interpret(p, Utf8.RunChunks(Utf8.IDLE, chunks).1);
      && Utf8.RunChunks(Utf8.IDLE, chunks).0 == Utf8.IDLE
      && actions.0 == Run(p, AsciiOf(text)).0
      && Only(actions.1, true) == Run(p, AsciiOf(text)).1
      && Only(actions.1, false) == PrintsOf(text)
  {
    Utf8.ChunkedTextDecodes(text, chunks);
    ItemsActions(p, text);
  }
}
