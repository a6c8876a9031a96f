/**
 The UTF-8 decoder of the terminal, which stands above the escape parser: it
 hands on ASCII bytes as they are and every other character as a code point.
 */
module Utf8Decoder {
  import opened Wrappers

  const REPLACEMENT: nat := 0xFFFD

  predicate IsScalar(c: nat) { c < 0xD800 || 0xE000 <= c < 0x110000 }

  /** What has been read of a multibyte sequence. */
  datatype Decoder = Decoder(acc: nat, seen: nat, need: nat)

  const IDLE := Decoder(0, 0, 0)

  /** What the decoder hands on. */
  datatype Item = Ascii(byte: Byte7) | Char(c: nat)

  function FromU32(c: nat): nat {
    if IsScalar(c) then c else REPLACEMENT
  }

  /** The state after a lead byte, if it is one. */
  function Lead(byte: Byte): Option<Decoder> {
    if 0xC2 <= byte <= 0xDF then Some(Decoder(byte - 0xC0, 1, 2))
    else if 0xE0 <= byte <= 0xEF then Some(Decoder(byte - 0xE0, 1, 3))
    else if 0xF0 <= byte <= 0xF4 then Some(Decoder(byte - 0xF0, 1, 4))
    else None
  }

  /** Six more bits. */
  function Six(acc: nat, cont: Byte): nat
    requires cont >= 0x80
  {
    acc * 64 + (cont - 0x80)
  }

  /** One byte. A lead byte in the middle of a sequence is looked at again from
      the idle state, so the recursion is at most one level deep. */
  function Step(d: Decoder, byte: Byte): (Decoder, seq<Item>)
    decreases d.need > 0
  {
    if byte < 0x80 then
      if d.need > 0 then (IDLE, [Char(REPLACEMENT), Ascii(byte)]) else (d, [Ascii(byte)])
    else if d.need == 0 then
      match Lead(byte)
      case None => (d, [Char(REPLACEMENT)])
      case Some(d') => (d', [])
    else if byte <= 0xBF then
      var acc := Six(d.acc, byte);
      if d.seen + 1 == d.need then (IDLE, [Char(FromU32(acc))])
      else (Decoder(acc, d.seen + 1, d.need), [])
    else
      var (d', items) := Step(IDLE, byte);
      (d', [Char(REPLACEMENT)] + items)
  }

  function Run(d: Decoder, bytes: seq<Byte>): (Decoder, seq<Item>)
    decreases |bytes|
  {
    if bytes == [] then (d, [])
    else
      var (d1, items1) := Step(d, bytes[0]);
      var (d2, items2) := Run(d1, bytes[1..]);
      (d2, items1 + items2)
  }

  // ---- The encoding -------------------------------------------------------

  function Cont(x: nat): Byte { 0x80 + x % 64 }

  /** The encoding of a code point, section 3 of RFC 3629. */
  function Encode(c: nat): seq<Byte>
    requires IsScalar(c)
  {
    if c < 0x80 then [c]
    else if c < 0x800 then [0xC0 + c / 64, Cont(c)]
    else if c < 0x10000 then [0xE0 + c / 4096, Cont(c / 64), Cont(c)]
    else [0xF0 + c / 262144, Cont(c / 4096), Cont(c / 64), Cont(c)]
  }

  ghost predicate IsText(text: seq<nat>) {
    forall i :: 0 <= i < |text| ==> IsScalar(text[i])
  }

  function EncodeAll(text: seq<nat>): seq<Byte>
    requires IsText(text)
  {
    if text == [] then [] else Encode(text[0]) + EncodeAll(text[1..])
  }

  /** What a text should come to: every character by itself. */
  function Items(text: seq<nat>): seq<Item> {
    if text == [] then [] else [if text[0] < 0x80 then Ascii(text[0]) else Char(text[0])] + Items(text[1..])
  }

  // ---- Decoding is the inverse of encoding --------------------------------

  lemma {:induction false} RunConcat(d: Decoder, a: seq<Byte>, b: seq<Byte>)
    ensures Run(d, a + b) == (Run(Run(d, a).0, b).0, Run(d, a).1 + Run(Run(d, a).0, b).1)
    decreases |a|
  {
    if a == [] {
      assert a + b == b;
      assert [] + Run(d, b).1 == Run(d, b).1;
    } else {
      assert (a + b)[1..] == a[1..] + b;
      var (d1, items1) := Step(d, a[0]);
      RunConcat(d1, a[1..], b);
      var (d2, items2) := Run(d1, a[1..]);
      assert items1 + (items2 + Run(d2, b).1) == items1 + items2 + Run(d2, b).1;
    }
  }

  lemma RunOne(d: Decoder, byte: Byte)
    ensures Run(d, [byte]) == Step(d, byte)
  {
    assert [byte][1..] == [];
    assert Step(d, byte).1 + [] == Step(d, byte).1;
  }

  lemma RunTwo(d: Decoder, x: Byte, y: Byte)
    ensures
      var (d1, i1) := Step(d, x);
      var (d2, i2) := Step(d1, y);
      Run(d, [x, y]) == (d2, i1 + i2)
  {
    assert [x, y][1..] == [y];
    RunOne(Step(d, x).0, y);
  }

  // ---- Multibyte sequences ------------------------------------------------

  /** A lead byte with as many continuation bytes as it asks for. */
  predicate IsComplete(bytes: seq<Byte>) {
    && bytes != [] && Lead(bytes[0]).Some? && |bytes| == Lead(bytes[0]).value.need
    && forall i :: 1 <= i < |bytes| ==> 0x80 <= bytes[i] <= 0xBF
  }

  /** The value that a complete sequence spells. */
  function Value(bytes: seq<Byte>): nat
    requires IsComplete(bytes)
  {
    if |bytes| == 2 then Six(bytes[0] - 0xC0, bytes[1])
    else if |bytes| == 3 then Six(Six(bytes[0] - 0xE0, bytes[1]), bytes[2])
    else Six(Six(Six(bytes[0] - 0xF0, bytes[1]), bytes[2]), bytes[3])
  }

  lemma CompleteDecodes(bytes: seq<Byte>)
    requires IsComplete(bytes)
    ensures Run(IDLE, bytes) == (IDLE, [Char(FromU32(Value(bytes)))])
  {
    hide FromU32, Six, Run;
    RunTwo(IDLE, bytes[0], bytes[1]);
    var d := Run(IDLE, [bytes[0], bytes[1]]).0;
    if |bytes| == 2 {
      assert bytes == [bytes[0], bytes[1]];
      assert Run(IDLE, bytes).1 == [Char(FromU32(Value(bytes)))];
    } else if |bytes| == 3 {
      assert bytes == [bytes[0], bytes[1]] + [bytes[2]];
      RunConcat(IDLE, [bytes[0], bytes[1]], [bytes[2]]);
      RunOne(d, bytes[2]);
      assert Run(d, [bytes[2]]).1 == [Char(FromU32(Value(bytes)))];
      assert Run(IDLE, bytes).1 == [Char(FromU32(Value(bytes)))];
    } else {
      assert d == Decoder(Six(bytes[0] - 0xF0, bytes[1]), 2, 4);
      assert bytes == [bytes[0], bytes[1]] + [bytes[2], bytes[3]];
      RunConcat(IDLE, [bytes[0], bytes[1]], [bytes[2], bytes[3]]);
      RunTwo(d, bytes[2], bytes[3]);
      assert Run(d, [bytes[2], bytes[3]]).1 == [Char(FromU32(Value(bytes)))];
      assert Run(IDLE, bytes).1 == [Char(FromU32(Value(bytes)))];
    }
  }

  /** The encoding of a code point spells that code point. */
  lemma EncodeIsComplete(c: nat)
    requires IsScalar(c) && c >= 0x80
    ensures IsComplete(Encode(c)) && Value(Encode(c)) == c
  {
    DivisionSteps(c);
  }

  lemma EncodedCharDecodes(c: nat)
    requires IsScalar(c)
    ensures Run(IDLE, Encode(c)) == (IDLE, Items([c]))
  {
    assert Items([c]) == [if c < 0x80 then Ascii(c) else Char(c)];
    if c < 0x80 {
      RunOne(IDLE, c);
    } else {
      hide Encode, Run, Value, IsComplete;
      EncodeIsComplete(c);
      CompleteDecodes(Encode(c));
    }
  }

  /** Every well-formed text comes through character by character. */
  lemma {:induction false} EncodedTextDecodes(text: seq<nat>)
    requires IsText(text)
    ensures Run(IDLE, EncodeAll(text)) == (IDLE, Items(text))
  {
    if text != [] {
      EncodedCharDecodes(text[0]);
      RunConcat(IDLE, Encode(text[0]), EncodeAll(text[1..]));
      EncodedTextDecodes(text[1..]);
      assert Items([text[0]]) + Items(text[1..]) == Items(text) by { assert [text[0]][1..] == []; }
    }
  }

  // ---- Cutting the stream into calls --------------------------------------

  function Flatten(chunks: seq<seq<Byte>>): seq<Byte> {
    if chunks == [] then [] else chunks[0] + Flatten(chunks[1..])
  }

  function RunChunks(d: Decoder, chunks: seq<seq<Byte>>): (Decoder, seq<Item>)
    decreases |chunks|
  {
    if chunks == [] then (d, [])
    else
      var (d1, items1) := Run(d, chunks[0]);
      var (d2, items2) := RunChunks(d1, chunks[1..]);
      (d2, items1 + items2)
  }

  lemma {:induction false} ChunksDoNotMatter(d: Decoder, chunks: seq<seq<Byte>>)
    ensures RunChunks(d, chunks) == Run(d, Flatten(chunks))
    decreases |chunks|
  {
    if chunks != [] {
      RunConcat(d, chunks[0], Flatten(chunks[1..]));
      ChunksDoNotMatter(Run(d, chunks[0]).0, chunks[1..]);
    }
  }

  /** However a well-formed text is cut into calls, each character yields itself. */
  lemma ChunkedTextDecodes(text: seq<nat>, chunks: seq<seq<Byte>>)
    requires IsText(text) && Flatten(chunks) == EncodeAll(text)
    ensures RunChunks(IDLE, chunks) == (IDLE, Items(text))
  {
    ChunksDoNotMatter(IDLE, chunks);
    EncodedTextDecodes(text);
  }

  // ---- What else the decoder takes for a character ------------------------

  /** The second byte shows that a shorter encoding exists. */
  predicate IsOverlong(bytes: seq<Byte>) {
    |bytes| >= 2 && ((bytes[0] == 0xE0 && bytes[1] < 0xA0) || (bytes[0] == 0xF0 && bytes[1] < 0x90))
  }

  /** The sequence spells a surrogate, or a value above the last code point. */
  predicate IsOutOfRange(bytes: seq<Byte>) {
    || (|bytes| == 3 && bytes[0] == 0xED && bytes[1] >= 0xA0)
    || (|bytes| == 4 && bytes[0] == 0xF0 && bytes[1] == 0x8D && bytes[2] >= 0xA0)
    || (|bytes| == 4 && bytes[0] == 0xF4 && bytes[1] >= 0x90)
  }

  /** A complete sequence is printed as the character it encodes exactly when it
      is neither overlong nor out of range; out of range it shows up as the
      replacement character, overlong it passes for the shorter one. */
  lemma CompleteIsEncoding(bytes: seq<Byte>)
    requires IsComplete(bytes)
    ensures IsOutOfRange(bytes) ==> Run(IDLE, bytes).1 == [Char(REPLACEMENT)]
    ensures !IsOutOfRange(bytes) ==> IsScalar(Value(bytes)) && Run(IDLE, bytes).1 == [Char(Value(bytes))]
    ensures !IsOutOfRange(bytes) ==> (Encode(Value(bytes)) == bytes <==> !IsOverlong(bytes))
  {
    hide Run, Encode;
    CompleteDecodes(bytes);
    RangeOfValue(bytes);
    if !IsOutOfRange(bytes) { EncodeOfValue(bytes); }
  }

  lemma RangeOfValue(bytes: seq<Byte>)
    requires IsComplete(bytes)
    ensures IsScalar(Value(bytes)) <==> !IsOutOfRange(bytes)
  {
  }

  lemma EncodeOfValue(bytes: seq<Byte>)
    requires IsComplete(bytes) && IsScalar(Value(bytes))
    ensures Encode(Value(bytes)) == bytes <==> !IsOverlong(bytes)
  {
    hide Encode, Six, IsScalar;
    if |bytes| == 2 {
      EncodeOfTwo(bytes[0], bytes[1]);
      assert bytes == [bytes[0], bytes[1]];
    } else if |bytes| == 3 {
      EncodeOfThree(bytes[0], bytes[1], bytes[2]);
      assert bytes == [bytes[0], bytes[1], bytes[2]];
    } else {
      EncodeOfFour(bytes[0], bytes[1], bytes[2], bytes[3]);
      assert bytes == [bytes[0], bytes[1], bytes[2], bytes[3]];
    }
  }

  lemma EncodeOfTwo(w: Byte, x: Byte)
    requires 0xC2 <= w <= 0xDF && 0x80 <= x <= 0xBF
    ensures IsScalar(Six(w - 0xC0, x)) && Encode(Six(w - 0xC0, x)) == [w, x]
  {
    Digits(w - 0xC0, x);
  }

  lemma EncodeOfThree(w: Byte, x: Byte, y: Byte)
    requires 0xE0 <= w <= 0xEF && 0x80 <= x <= 0xBF && 0x80 <= y <= 0xBF
    requires IsScalar(Six(Six(w - 0xE0, x), y))
    ensures Encode(Six(Six(w - 0xE0, x), y)) == [w, x, y] <==> !(w == 0xE0 && x < 0xA0)
  {
    var a := Six(w - 0xE0, x);
    var v := Six(a, y);
    assert v < 0x10000 && (v < 0x800 <==> w == 0xE0 && x < 0xA0);
    Digits(w - 0xE0, x);
    Digits(a, y);
    DivisionSteps(v);
  }

  lemma EncodeOfFour(w: Byte, x: Byte, y: Byte, z: Byte)
    requires 0xF0 <= w <= 0xF4 && 0x80 <= x <= 0xBF && 0x80 <= y <= 0xBF && 0x80 <= z <= 0xBF
    requires IsScalar(Six(Six(Six(w - 0xF0, x), y), z))
    ensures Encode(Six(Six(Six(w - 0xF0, x), y), z)) == [w, x, y, z] <==> !(w == 0xF0 && x < 0x90)
  {
    hide Six, Cont, IsScalar;
    var a := Six(w - 0xF0, x);
    var b := Six(a, y);
    var v := Six(b, z);
    FourIsOverlong(w, x, y, z);
    Digits(w - 0xF0, x);
    Digits(a, y);
    Digits(b, z);
    DivisionSteps(v);
  }

  lemma FourIsOverlong(w: Byte, x: Byte, y: Byte, z: Byte)
    requires 0xF0 <= w <= 0xF4 && 0x80 <= x <= 0xBF && 0x80 <= y <= 0xBF && 0x80 <= z <= 0xBF
    ensures Six(Six(Six(w - 0xF0, x), y), z) < 0x10000 <==> w == 0xF0 && x < 0x90
  {
  }

  lemma DivisionSteps(v: nat)
    ensures v / 4096 == v / 64 / 64 && v / 262144 == v / 64 / 64 / 64
  {
  }

  lemma Digits(acc: nat, cont: Byte)
    requires 0x80 <= cont <= 0xBF
    ensures Six(acc, cont) / 64 == acc && Cont(Six(acc, cont)) == cont
  {
  }

  lemma OverlongExample()
    ensures IsComplete([0xE0, 0x81, 0x81]) && IsOverlong([0xE0, 0x81, 0x81])
    ensures Run(IDLE, [0xE0, 0x81, 0x81]).1 == [Char(0x41)] && Encode(0x41) == [0x41]
  {
    CompleteDecodes([0xE0, 0x81, 0x81]);
  }
}
