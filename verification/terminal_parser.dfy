/**
 The escape-sequence parser of the terminal. It sees only ASCII bytes: the
 decoder above it keeps everything else away.
 */
module EscapeParser {
  import opened Wrappers

  const ESC: Byte7 := 0x1B
  const BEL: Byte7 := 0x07
  const DEL: Byte7 := 0x7F
  const SEMICOLON: Byte7 := 0x3B
  const QUESTION: Byte7 := 0x3F
  const BRACKET: Byte7 := 0x5B
  const CLOSE_BRACKET: Byte7 := 0x5D

  const MAX_PARAM_BYTES := 64
  const MAX_OSC_BYTES := 256
  const MAX_PARAM := 65535

  datatype State = Ground | Escape | CsiEntry | CsiParam | OscString

  datatype Action =
    | Print(c: nat)
    | Execute(byte: Byte7)
    | CsiDispatch(params: seq<nat>, intermediates: seq<Byte7>, final: Byte7, private: bool)
    | OscDispatch(text: seq<Byte7>)
    | EscDispatch(byte: Byte7)

  datatype Parser = Parser(state: State, params: seq<Byte7>, intermediates: seq<Byte7>, private: bool, osc: seq<Byte7>)

  const START := Parser(Ground, [], [], false, [])

  predicate IsDigit(b: Byte7) { 0x30 <= b <= 0x39 }

  predicate IsParamByte(b: Byte7) { IsDigit(b) || b == SEMICOLON }

  predicate IsFinal(b: Byte7) { 0x40 <= b <= 0x7E }

  predicate IsIntermediate(b: Byte7) { 0x20 <= b <= 0x2F }

  // ---- Parameters ---------------------------------------------------------

  /** One more digit, saturating at the largest 16-bit number. */
  function MoreDigits(n: nat, digit: nat): nat {
    Min(Min(n * 10, MAX_PARAM) + digit, MAX_PARAM)
  }

  /** The numbers read so far, and the one being read. */
  datatype Numbers = Numbers(done: seq<nat>, current: nat)

  function Read(bytes: seq<Byte7>): (r: Numbers)
    ensures |r.done| <= |bytes| && r.current <= MAX_PARAM
    ensures forall i :: 0 <= i < |r.done| ==> r.done[i] <= MAX_PARAM
  {
    if bytes == [] then Numbers([], 0) else ReadOne(Read(bytes[..|bytes| - 1]), bytes[|bytes| - 1])
  }

  function ReadOne(n: Numbers, byte: Byte7): Numbers {
    if byte == SEMICOLON then Numbers(n.done + [n.current], 0)
    else if IsDigit(byte) then Numbers(n.done, MoreDigits(n.current, byte - 0x30))
    else n
  }

  /** The numbers between the semicolons; none at all in an empty string. */
  function Params(bytes: seq<Byte7>): seq<nat> {
    if bytes == [] then [] else Read(bytes).done + [Read(bytes).current]
  }

  // ---- The parser ---------------------------------------------------------

  function Dispatch(p: Parser, final: Byte7): Action {
    CsiDispatch(Params(p.params), p.intermediates, final, p.private)
  }

  function Step(p: Parser, byte: Byte7): (Parser, Option<Action>) {
    match p.state
    case Ground =>
      if byte == ESC then (p.(state := Escape), None)
      else if byte < 0x20 then (p, Some(Execute(byte)))
      else if byte == DEL then (p, None)
      else (p, Some(Print(byte)))
    case Escape =>
      if byte == BRACKET then (p.(state := CsiEntry, params := [], intermediates := [], private := false), None)
      else if byte == CLOSE_BRACKET then (p.(state := OscString, osc := []), None)
      else if byte == ESC then (p, None)
      else (p.(state := Ground), Some(EscDispatch(byte)))
    case CsiEntry =>
      if byte == QUESTION then (p.(state := CsiParam, private := true), None)
      else if IsParamByte(byte) then (p.(state := CsiParam, params := p.params + [byte]), None)
      else if IsFinal(byte) then (p.(state := Ground), Some(Dispatch(p, byte)))
      else if IsIntermediate(byte) then (p.(state := CsiParam, intermediates := p.intermediates + [byte]), None)
      else if byte == ESC then (p.(state := Escape), None)
      else (p.(state := Ground), None)
    case CsiParam =>
      if IsParamByte(byte) then (if |p.params| < MAX_PARAM_BYTES then p.(params := p.params + [byte]) else p, None)
      else if IsIntermediate(byte) then (p.(intermediates := p.intermediates + [byte]), None)
      else if IsFinal(byte) then (p.(state := Ground), Some(Dispatch(p, byte)))
      else if byte == ESC then (p.(state := Escape), None)
      else (p.(state := Ground), None)
    case OscString =>
      if byte == BEL || byte == ESC then (p.(state := Ground), Some(OscDispatch(p.osc)))
      else (if |p.osc| < MAX_OSC_BYTES then p.(osc := p.osc + [byte]) else p, None)
  }

  function Emit(a: Option<Action>): seq<Action> {
    if a.Some? then [a.value] else []
  }

  function Run(p: Parser, bytes: seq<Byte7>): (Parser, seq<Action>)
    decreases |bytes|
  {
    if bytes == [] then (p, [])
    else
      var (p1, a) := Step(p, bytes[0]);
      var (p2, rest) := Run(p1, bytes[1..]);
      (p2, Emit(a) + rest)
  }

  lemma {:induction false} RunConcat(p: Parser, a: seq<Byte7>, b: seq<Byte7>)
    ensures Run(p, a + b) == (Run(Run(p, a).0, b).0, Run(p, a).1 + Run(Run(p, a).0, b).1)
    decreases |a|
  {
    hide Step;
    if a == [] {
      assert a + b == b;
      assert [] + Run(p, b).1 == Run(p, b).1;
    } else {
      assert (a + b)[1..] == a[1..] + b;
      var (p1, x) := Step(p, a[0]);
      RunConcat(p1, a[1..], b);
      var (p2, rest) := Run(p1, a[1..]);
      assert Emit(x) + (rest + Run(p2, b).1) == Emit(x) + rest + Run(p2, b).1;
    }
  }

  lemma RunOne(p: Parser, byte: Byte7)
    ensures Run(p, [byte]) == (Step(p, byte).0, Emit(Step(p, byte).1))
  {
    hide Step;
    assert [byte][1..] == [];
    assert Emit(Step(p, byte).1) + [] == Emit(Step(p, byte).1);
  }

  // ---- What every run keeps -----------------------------------------------

  ghost predicate IsParser(p: Parser) {
    && |p.params| <= MAX_PARAM_BYTES && |p.osc| <= MAX_OSC_BYTES
    && (p.state == CsiEntry ==> p.params == [] && !p.private)
    && (forall i :: 0 <= i < |p.params| ==> IsParamByte(p.params[i]))
  }

  /** A dispatched sequence has at most 65 parameters, each of sixteen bits. */
  ghost predicate IsAction(a: Action) {
    match a
    case CsiDispatch(params, _, final, _) =>
      |params| <= MAX_PARAM_BYTES + 1 && IsFinal(final) && forall i :: 0 <= i < |params| ==> params[i] <= MAX_PARAM
    case OscDispatch(text) => |text| <= MAX_OSC_BYTES
    case Print(c) => 0x20 <= c < 0x7F
    case Execute(byte) => byte < 0x20 && byte != ESC
    case EscDispatch(byte) => byte != ESC
  }

  lemma StepKeeps(p: Parser, byte: Byte7)
    requires IsParser(p)
    ensures IsParser(Step(p, byte).0)
    ensures Step(p, byte).1.Some? ==> IsAction(Step(p, byte).1.value)
  {
    hide Read;
  }

  // ---- Round trips --------------------------------------------------------

  /** A number in decimal digits. */
  function Render(n: nat): (r: seq<Byte7>)
    ensures r != [] && forall i :: 0 <= i < |r| ==> IsDigit(r[i])
  {
    if n < 10 then [0x30 + n] else Render(n / 10) + [0x30 + n % 10]
  }

  function Join(ps: seq<nat>): seq<Byte7>
    requires ps != []
  {
    if |ps| == 1 then Render(ps[0]) else Join(ps[..|ps| - 1]) + [SEMICOLON] + Render(ps[|ps| - 1])
  }

  lemma ReadMore(bytes: seq<Byte7>, byte: Byte7)
    ensures Read(bytes + [byte]) == ReadOne(Read(bytes), byte)
  {
    assert (bytes + [byte])[..|bytes|] == bytes;
  }

  /** The largest 16-bit number stands for all larger ones. */
  function Capped(ps: seq<nat>): (r: seq<nat>)
    ensures |r| == |ps| && forall i :: 0 <= i < |ps| ==> r[i] == Min(ps[i], MAX_PARAM)
  {
    seq(|ps|, i requires 0 <= i < |ps| => Min(ps[i], MAX_PARAM))
  }

  /** Reading the digits of a number gives that number, or the largest one. */
  lemma {:induction false} ReadOfRender(bytes: seq<Byte7>, n: nat)
    requires Read(bytes).current == 0
    ensures Read(bytes + Render(n)) == Numbers(Read(bytes).done, Min(n, MAX_PARAM))
    decreases n
  {
    if n < 10 {
      ReadMore(bytes, 0x30 + n);
    } else {
      ReadOfRender(bytes, n / 10);
      ReadMore(bytes + Render(n / 10), 0x30 + n % 10);
      assert bytes + Render(n) == bytes + Render(n / 10) + [0x30 + n % 10];
    }
  }

  lemma {:induction false} ReadOfJoin(ps: seq<nat>)
    requires ps != []
    ensures Read(Join(ps)) == Numbers(Capped(ps)[..|ps| - 1], Capped(ps)[|ps| - 1])
  {
    hide Read, ReadOne, Render;
    var last := ps[|ps| - 1];
    if |ps| == 1 {
      ReadNothing();
      ReadOfRender([], last);
      assert [] + Render(last) == Render(last);
    } else {
      var front := ps[..|ps| - 1];
      ReadOfJoin(front);
      ReadMore(Join(front), SEMICOLON);
      ReadSemicolon(Read(Join(front)));
      ReadOfRender(Join(front) + [SEMICOLON], last);
      LastApart(Capped(front));
      assert Capped(ps)[..|front|] == Capped(front);
    }
  }

  lemma ReadNothing()
    ensures Read([]) == Numbers([], 0)
  {
  }

  lemma ReadSemicolon(n: Numbers)
    ensures ReadOne(n, SEMICOLON) == Numbers(n.done + [n.current], 0)
  {
  }

  /** The parameters of a rendered list are that list, capped. */
  lemma ParamsOfJoin(ps: seq<nat>)
    requires ps != []
    ensures Params(Join(ps)) == Capped(ps)
  {
    hide Read, Join, IsParamByte;
    ReadOfJoin(ps);
    JoinIsParams(ps);
    LastApart(Capped(ps));
  }

  lemma LastApart(ps: seq<nat>)
    requires ps != []
    ensures ps == ps[..|ps| - 1] + [ps[|ps| - 1]]
  {
  }

  lemma {:induction false} JoinIsParams(ps: seq<nat>)
    requires ps != []
    ensures Join(ps) != [] && forall i :: 0 <= i < |Join(ps)| ==> IsParamByte(Join(ps)[i])
  {
    if |ps| > 1 { JoinIsParams(ps[..|ps| - 1]); }
  }

  lemma {:induction false} CollectParams(p: Parser, bytes: seq<Byte7>)
    requires p.state == CsiParam && |p.params| + |bytes| <= MAX_PARAM_BYTES
    requires forall i :: 0 <= i < |bytes| ==> IsParamByte(bytes[i])
    ensures Run(p, bytes) == (p.(params := p.params + bytes), [])
    decreases |bytes|
  {
    if bytes == [] {
      assert p.params + [] == p.params;
    } else {
      var p1 := p.(params := p.params + [bytes[0]]);
      assert Step(p, bytes[0]) == (p1, None);
      CollectParams(p1, bytes[1..]);
      assert p.params + [bytes[0]] + bytes[1..] == p.params + bytes;
      assert Run(p, bytes).1 == [];
    }
  }

  /** The bytes of a control sequence. */
  function CsiBytes(ps: seq<nat>, private: bool, final: Byte7): seq<Byte7>
    requires ps != []
  {
    [ESC, BRACKET] + (if private then [QUESTION] else []) + Join(ps) + [final]
  }

  /** A control sequence with up to 64 parameter bytes is dispatched with exactly
      its parameters, capped at the largest 16-bit number. */
  lemma CsiRoundTrip(p: Parser, ps: seq<nat>, private: bool, final: Byte7)
    requires p.state == Ground && ps != [] && |Join(ps)| <= MAX_PARAM_BYTES && IsFinal(final)
    ensures Run(p, CsiBytes(ps, private, final)).0.state == Ground
    ensures Run(p, CsiBytes(ps, private, final)).1 == [CsiDispatch(Capped(ps), [], final, private)]
  {
    hide Run, Params, Join, Capped, IsParamByte;
    var intro := [ESC, BRACKET] + if private then [QUESTION] else [];
    var bytes := Join(ps);
    JoinIsParams(ps);
    ParamsOfJoin(ps);
    var p1 := Introduced(p, private);
    var p2 := ParamsRead(p1, bytes);
    RunConcat(p, intro, bytes);
    RunConcat(p, intro + bytes, [final]);
    FinalDispatches(p2, final);
    assert Run(p, intro + bytes).1 == [];
    assert CsiBytes(ps, private, final) == intro + bytes + [final];
    assert Run(p, intro + bytes + [final]).1 == [Dispatch(p2, final)];
  }

  lemma FinalDispatches(p: Parser, final: Byte7)
    requires p.state == CsiParam && IsFinal(final)
    ensures Run(p, [final]) == (p.(state := Ground), [Dispatch(p, final)])
  {
    RunOne(p, final);
  }

  lemma Introduced(p: Parser, private: bool) returns (p': Parser)
    requires p.state == Ground
    ensures Run(p, [ESC, BRACKET] + if private then [QUESTION] else []) == (p', [])
    ensures p'.state == (if private then CsiParam else CsiEntry)
    ensures p'.params == [] && p'.intermediates == [] && p'.private == private
  {
    var p1 := p.(state := CsiEntry, params := [], intermediates := [], private := false);
    var p0 := p.(state := Escape);
    RunOne(p, ESC);
    RunOne(p0, BRACKET);
    RunConcat(p, [ESC], [BRACKET]);
    assert [ESC] + [BRACKET] == [ESC, BRACKET];
    assert Run(p, [ESC, BRACKET]) == (p1, []) by { assert Run(p, [ESC, BRACKET]).1 == []; }
    if private {
      RunConcat(p, [ESC, BRACKET], [QUESTION]);
      RunOne(p1, QUESTION);
      assert Run(p, [ESC, BRACKET] + [QUESTION]).1 == [];
      p' := p1.(state := CsiParam, private := true);
    } else {
      assert [ESC, BRACKET] + [] == [ESC, BRACKET];
      p' := p1;
    }
  }

  lemma ParamsRead(p: Parser, bytes: seq<Byte7>) returns (p': Parser)
    requires p.state == CsiParam || p.state == CsiEntry
    requires p.params == [] && 0 < |bytes| <= MAX_PARAM_BYTES
    requires forall i :: 0 <= i < |bytes| ==> IsParamByte(bytes[i])
    ensures Run(p, bytes) == (p', []) && p' == p.(state := CsiParam, params := bytes)
  {
    p' := p.(state := CsiParam, params := bytes);
    var p1 := p.(state := CsiParam, params := [bytes[0]]);
    assert [] + [bytes[0]] == [bytes[0]];
    assert Step(p, bytes[0]) == (p1, None);
    CollectParams(p1, bytes[1..]);
    assert [bytes[0]] + bytes[1..] == bytes;
    assert Run(p, bytes).1 == [];
  }

  /** Printable characters outside of escape sequences print themselves. */
  lemma {:induction false} PlainTextPrints(p: Parser, text: seq<Byte7>)
    requires p.state == Ground && forall i :: 0 <= i < |text| ==> 0x20 <= text[i] < 0x7F
    ensures Run(p, text).0 == p && |Run(p, text).1| == |text|
    ensures forall i :: 0 <= i < |text| ==> Run(p, text).1[i] == Print(text[i])
    decreases |text|
  {
    if text != [] { PlainTextPrints(p, text[1..]); }
  }

  lemma {:induction false} RunKeeps(p: Parser, bytes: seq<Byte7>)
    requires IsParser(p)
    ensures IsParser(Run(p, bytes).0)
    ensures forall i :: 0 <= i < |Run(p, bytes).1| ==> IsAction(Run(p, bytes).1[i])
    decreases |bytes|
  {
    hide Step, IsAction, IsParser;
    if bytes != [] {
      StepKeeps(p, bytes[0]);
      RunKeeps(Step(p, bytes[0]).0, bytes[1..]);
    }
  }

  class EscParser {
    var state: State
    var paramsBuf: seq<Byte7>
    var intermediates: seq<Byte7>
    var private: bool
    var oscBuf: seq<Byte7>

    ghost function View(): Parser
      reads this
    {
      Parser(state, paramsBuf, intermediates, private, oscBuf)
    }

    constructor ()
      ensures View() == START && IsParser(View())
    {
      state, paramsBuf, intermediates, private, oscBuf := Ground, [], [], false, [];
    }

    /** One byte; the buffers stay within their bounds. */
    method Feed(byte: Byte7) returns (r: Option<Action>)
      requires IsParser(View())
      modifies this
      ensures (View(), r) == Step(old(View()), byte)
      ensures IsParser(View()) && (r.Some? ==> IsAction(r.value))
    {
      hide Params, IsParser, IsAction;
      StepKeeps(View(), byte);
      match state
      case Ground => r := FeedGround(byte);
      case Escape => r := FeedEscape(byte);
      case CsiEntry => r := FeedCsiEntry(byte);
      case CsiParam => r := FeedCsiParam(byte);
      case OscString => r := FeedOscString(byte);
    }

    method FeedGround(byte: Byte7) returns (r: Option<Action>)
      requires state == Ground
      modifies this`state
      ensures (View(), r) == Step(old(View()), byte)
    {
      if byte == ESC {
        state := Escape;
        return None;
      } else if byte <= 0x1A || 0x1C <= byte <= 0x1F {
        return Some(Execute(byte));
      } else if byte == DEL {
        return None;
      }
      r := Some(Print(byte));
    }

    method FeedEscape(byte: Byte7) returns (r: Option<Action>)
      requires state == Escape
      modifies this
      ensures (View(), r) == Step(old(View()), byte)
    {
      if byte == BRACKET {
        state, paramsBuf, intermediates, private := CsiEntry, [], [], false;
        return None;
      } else if byte == CLOSE_BRACKET {
        state, oscBuf := OscString, [];
        return None;
      } else if byte == ESC {
        return None;
      }
      state := Ground;
      r := Some(EscDispatch(byte));
    }

    method FeedCsiEntry(byte: Byte7) returns (r: Option<Action>)
      requires state == CsiEntry
      modifies this
      ensures (View(), r) == Step(old(View()), byte)
    {
      r := None;
      if byte == QUESTION {
        private, state := true, CsiParam;
      } else if IsParamByte(byte) {
        paramsBuf, state := paramsBuf + [byte], CsiParam;
      } else if IsFinal(byte) {
        state := Ground;
        r := DispatchCsi(byte);
      } else if IsIntermediate(byte) {
        intermediates, state := intermediates + [byte], CsiParam;
      } else if byte == ESC {
        state := Escape;
      } else {
        state := Ground;
      }
    }

    method FeedCsiParam(byte: Byte7) returns (r: Option<Action>)
      requires state == CsiParam
      modifies this
      ensures (View(), r) == Step(old(View()), byte)
    {
      r := None;
      if IsParamByte(byte) {
        if |paramsBuf| < MAX_PARAM_BYTES {
          paramsBuf := paramsBuf + [byte];
        }
      } else if IsIntermediate(byte) {
        intermediates := intermediates + [byte];
      } else if IsFinal(byte) {
        state := Ground;
        r := DispatchCsi(byte);
      } else if byte == ESC {
        state := Escape;
      } else {
        state := Ground;
      }
    }

    method FeedOscString(byte: Byte7) returns (r: Option<Action>)
      requires state == OscString
      modifies this`state, this`oscBuf
      ensures (View(), r) == Step(old(View()), byte)
    {
      r := None;
      if byte == BEL || byte == ESC {
        state := Ground;
        r := Some(OscDispatch(oscBuf));
      } else if |oscBuf| < MAX_OSC_BYTES {
        oscBuf := oscBuf + [byte];
      }
    }

    method DispatchCsi(final: Byte7) returns (r: Option<Action>)
      ensures r == Some(CsiDispatch(Params(paramsBuf), intermediates, final, private))
    {
      var params := ParseParams();
      r := Some(CsiDispatch(params, intermediates, final, private));
    }

    /** The collected parameter bytes as numbers. */
    method ParseParams() returns (result: seq<nat>)
      ensures result == Params(paramsBuf)
    {
      if paramsBuf == [] {
        return [];
      }
      result := [];
      var current: nat := 0;
      var hasCurrent := false;
      for k := 0 to |paramsBuf|
        invariant Numbers(result, current) == Read(paramsBuf[..k])
        invariant !hasCurrent ==> current == 0
      {
        var b := paramsBuf[k];
        assert paramsBuf[..k + 1] == paramsBuf[..k] + [b];
        ReadMore(paramsBuf[..k], b);
        if b == SEMICOLON {
          result := result + [if hasCurrent then current else 0];
          current, hasCurrent := 0, false;
        } else if IsDigit(b) {
          current, hasCurrent := Min(Min(current * 10, MAX_PARAM) + (b - 0x30), MAX_PARAM), true;
        }
      }
      assert paramsBuf[..|paramsBuf|] == paramsBuf;
      result := result + [if hasCurrent then current else 0];
    }
  }

  /** A number in decimal, written back to front and then turned round. */
  method WriteNumber(n: nat) returns (r: seq<Byte7>)
    ensures r == Render(n)
  {
    if n == 0 {
      return [0x30];
    }
    var buf: seq<Byte7> := [];
    var m: nat := n;
    assert Render(n) + Reversed(buf) == Render(n);
    while m > 0
      invariant Render(n) == if m > 0 then Render(m) + Reversed(buf) else Reversed(buf)
    {
      RenderStep(m, buf);
      buf := buf + [0x30 + m % 10];
      m := m / 10;
    }
    r := Turn(buf);
  }

  lemma RenderStep(m: nat, buf: seq<Byte7>)
    requires m > 0
    ensures
      var buf' := buf + [0x30 + m % 10];
      Render(m) + Reversed(buf) == if m / 10 > 0 then Render(m / 10) + Reversed(buf') else Reversed(buf')
  {
    ReversedMore(buf, 0x30 + m % 10);
    if m >= 10 {
      assert Render(m) + Reversed(buf) == Render(m / 10) + ([0x30 + m % 10] + Reversed(buf));
    }
  }

  method Turn(buf: seq<Byte7>) returns (r: seq<Byte7>)
    ensures r == Reversed(buf)
  {
    r := [];
    var j: nat := |buf|;
    assert buf[..j] == buf && r + Reversed(buf) == Reversed(buf);
    while j > 0
      invariant 0 <= j <= |buf| && r + Reversed(buf[..j]) == Reversed(buf)
    {
      j := j - 1;
      assert buf[..j + 1] == buf[..j] + [buf[j]];
      ReversedMore(buf[..j], buf[j]);
      assert r + ([buf[j]] + Reversed(buf[..j])) == r + [buf[j]] + Reversed(buf[..j]);
      r := r + [buf[j]];
    }
    assert r + Reversed(buf[..0]) == r;
  }

  function Reversed(s: seq<Byte7>): seq<Byte7> {
    if s == [] then [] else [s[|s| - 1]] + Reversed(s[..|s| - 1])
  }

  lemma ReversedMore(s: seq<Byte7>, b: Byte7)
    ensures Reversed(s + [b]) == [b] + Reversed(s)
  {
    assert (s + [b])[..|s|] == s;
  }
}
