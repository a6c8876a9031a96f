/** Select Graphic Rendition: how the parameters of `m` set colours and attributes. */
module TerminalSgr {
  import opened Wrappers
  import opened ScreenGrid

  /** The colour after 38 or 48, and how many parameters it takes with the 38 or
      48 itself. A colour that is cut short takes what is there of it and changes
      nothing, except that 2 with too few numbers leaves them to be read again. */
  function Extended(params: seq<nat>, was: Color): (r: (Color, nat))
    requires params != []
    ensures 1 <= r.1
  {
    if |params| == 1 then (was, 2)
    else if params[1] == 5 then (if |params| > 2 then Indexed(params[2] % 256) else was, 3)
    else if params[1] == 2 && |params| > 4 then (Rgb(params[2] % 256, params[3] % 256, params[4] % 256), 5)
    else (was, 2)
  }

  /** What one parameter, or one colour, does to the pen, and how many parameters
      it takes. */
  function SgrOne(pen: Pen, params: seq<nat>): (r: (Pen, nat))
    requires params != []
    ensures 1 <= r.1
  {
    var n, a := params[0], pen.attrs;
    if n == 0 then (PLAIN, 1)
    else if n == 1 || n == 22 then (pen.(attrs := a.(bold := n == 1)), 1)
    else if n == 3 || n == 23 then (pen.(attrs := a.(italic := n == 3)), 1)
    else if n == 4 || n == 24 then (pen.(attrs := a.(underline := n == 4)), 1)
    else if n == 5 || n == 25 then (pen.(attrs := a.(blink := n == 5)), 1)
    else if n == 7 || n == 27 then (pen.(attrs := a.(reverse := n == 7)), 1)
    else if n == 9 || n == 29 then (pen.(attrs := a.(strikethrough := n == 9)), 1)
    else if 30 <= n <= 37 then (pen.(fg := Indexed(n - 30)), 1)
    else if n == 38 then (pen.(fg := Extended(params, pen.fg).0), Extended(params, pen.fg).1)
    else if n == 39 then (pen.(fg := Default), 1)
    else if 40 <= n <= 47 then (pen.(bg := Indexed(n - 40)), 1)
    else if n == 48 then (pen.(bg := Extended(params, pen.bg).0), Extended(params, pen.bg).1)
    else if n == 49 then (pen.(bg := Default), 1)
    else if 90 <= n <= 97 then (pen.(fg := Indexed(n - 90 + 8)), 1)
    else if 100 <= n <= 107 then (pen.(bg := Indexed(n - 100 + 8)), 1)
    else (pen, 1)
  }

  function Rest(params: seq<nat>, n: nat): seq<nat> {
    if n <= |params| then params[n..] else []
  }

  function SgrAll(pen: Pen, params: seq<nat>): Pen
    decreases |params|
  {
    if params == [] then pen
    else
      var (pen', n) := SgrOne(pen, params);
      SgrAll(pen', Rest(params, n))
  }

  /** The pen after `m`: without parameters it is reset. */
  function Sgr(pen: Pen, params: seq<nat>): Pen {
    if params == [] then PLAIN else SgrAll(pen, params)
  }

  // ---- Every pen can be asked for -----------------------------------------

  predicate IsColor(c: Color) {
    match c
    case Default => true
    case Indexed(n) => n < 256
    case Rgb(r, g, b) => r < 256 && g < 256 && b < 256
  }

  predicate IsPen(pen: Pen) { IsColor(pen.fg) && IsColor(pen.bg) }

  function ColorParams(c: Color, base: nat): seq<nat> {
    match c
    case Default => [base + 9]
    case Indexed(n) => [base + 8, 5, n]
    case Rgb(r, g, b) => [base + 8, 2, r, g, b]
  }

  function Maybe(wanted: bool, n: nat): seq<nat> {
    if wanted then [n] else []
  }

  function AttrParams(a: Attrs, rest: seq<nat>): seq<nat> {
    Maybe(a.bold, 1) + (Maybe(a.italic, 3) + (Maybe(a.underline, 4)
    + (Maybe(a.blink, 5) + (Maybe(a.reverse, 7) + (Maybe(a.strikethrough, 9) + rest)))))
  }

  /** Parameters that ask for a pen, whatever it was before. */
  function PenParams(pen: Pen): seq<nat> {
    [0] + AttrParams(pen.attrs, ColorParams(pen.fg, 30) + ColorParams(pen.bg, 40))
  }

  /** A whole command in front of others is carried out before them. */
  lemma SgrCommand(pen: Pen, command: seq<nat>, rest: seq<nat>, pen': Pen)
    requires command != [] && SgrOne(pen, command + rest) == (pen', |command|)
    ensures SgrAll(pen, command + rest) == SgrAll(pen', rest)
  {
    assert Rest(command + rest, |command|) == rest;
  }

  /** One attribute that may be asked for. */
  lemma SgrMaybe(pen: Pen, wanted: bool, n: nat, rest: seq<nat>, pen': Pen)
    requires !wanted ==> pen' == pen
    requires wanted ==> SgrOne(pen, [n] + rest) == (pen', 1)
    ensures SgrAll(pen, Maybe(wanted, n) + rest) == SgrAll(pen', rest)
  {
    hide SgrOne, SgrAll;
    if wanted { SgrCommand(pen, [n], rest, pen'); } else { assert [] + rest == rest; }
  }

  lemma SgrForeground(pen: Pen, c: Color, rest: seq<nat>)
    requires IsColor(c)
    ensures SgrOne(pen, ColorParams(c, 30) + rest) == (pen.(fg := c), |ColorParams(c, 30)|)
  {
  }

  lemma SgrBackground(pen: Pen, c: Color, rest: seq<nat>)
    requires IsColor(c)
    ensures SgrOne(pen, ColorParams(c, 40) + rest) == (pen.(bg := c), |ColorParams(c, 40)|)
  {
  }

  lemma SgrColors(pen: Pen, fg: Color, bg: Color)
    requires IsColor(fg) && IsColor(bg)
    ensures SgrAll(pen, ColorParams(fg, 30) + ColorParams(bg, 40)) == pen.(fg := fg, bg := bg)
  {
    hide SgrOne;
    var first, second := ColorParams(fg, 30), ColorParams(bg, 40);
    SgrForeground(pen, fg, second);
    SgrCommand(pen, first, second, pen.(fg := fg));
    assert second + [] == second;
    SgrBackground(pen.(fg := fg), bg, []);
    SgrCommand(pen.(fg := fg), second, [], pen.(fg := fg, bg := bg));
  }

  /** The attributes are switched on one after the other. */
  lemma SgrAttrs(a: Attrs, rest: seq<nat>)
    ensures SgrAll(PLAIN, AttrParams(a, rest)) == SgrAll(PLAIN.(attrs := a), rest)
  {
    hide SgrAll, Maybe;
    var r6 := Maybe(a.strikethrough, 9) + rest;
    var r5 := Maybe(a.reverse, 7) + r6;
    var r4 := Maybe(a.blink, 5) + r5;
    var r3 := Maybe(a.underline, 4) + r4;
    var r2 := Maybe(a.italic, 3) + r3;
    var off := PLAIN.attrs;
    var p1 := PLAIN.(attrs := off.(bold := a.bold));
    var p2 := p1.(attrs := p1.attrs.(italic := a.italic));
    var p3 := p2.(attrs := p2.attrs.(underline := a.underline));
    var p4 := p3.(attrs := p3.attrs.(blink := a.blink));
    var p5 := p4.(attrs := p4.attrs.(reverse := a.reverse));
    SgrMaybe(PLAIN, a.bold, 1, r2, p1);
    SgrMaybe(p1, a.italic, 3, r3, p2);
    SgrMaybe(p2, a.underline, 4, r4, p3);
    SgrMaybe(p3, a.blink, 5, r5, p4);
    SgrMaybe(p4, a.reverse, 7, r6, p5);
    SgrMaybe(p5, a.strikethrough, 9, rest, PLAIN.(attrs := a));
  }

  /** Asking for a pen gives that pen. */
  lemma SgrRoundTrip(was: Pen, pen: Pen)
    requires IsPen(pen)
    ensures Sgr(was, PenParams(pen)) == pen
  {
    hide SgrAll, AttrParams, ColorParams;
    var colors := ColorParams(pen.fg, 30) + ColorParams(pen.bg, 40);
    SgrCommand(was, [0], AttrParams(pen.attrs, colors), PLAIN);
    SgrAttrs(pen.attrs, colors);
    SgrColors(PLAIN.(attrs := pen.attrs), pen.fg, pen.bg);
  }

  /** Every pen that parameters can give has colours of eight bits. */
  lemma {:induction false} SgrKeepsPen(pen: Pen, params: seq<nat>)
    requires IsPen(pen)
    ensures IsPen(SgrAll(pen, params))
    decreases |params|
  {
    if params != [] {
      var (pen', n) := SgrOne(pen, params);
      SgrKeepsPen(pen', Rest(params, n));
    }
  }

  /** The loop over the parameters. */
  method ExecuteSgr(pen: Pen, params: seq<nat>) returns (r: Pen)
    ensures r == Sgr(pen, params)
  {
    if params == [] {
      return PLAIN;
    }
    r := pen;
    var i := 0;
    assert Rest(params, 0) == params;
    while i < |params|
      invariant 0 <= i && SgrAll(r, Rest(params, i)) == SgrAll(pen, params)
    {
      ghost var was, at := r, i;
      var a, n := r.attrs, params[i];
      if n == 0 {
        r := PLAIN;
      } else if n == 1 || n == 22 {
        r := r.(attrs := a.(bold := n == 1));
      } else if n == 3 || n == 23 {
        r := r.(attrs := a.(italic := n == 3));
      } else if n == 4 || n == 24 {
        r := r.(attrs := a.(underline := n == 4));
      } else if n == 5 || n == 25 {
        r := r.(attrs := a.(blink := n == 5));
      } else if n == 7 || n == 27 {
        r := r.(attrs := a.(reverse := n == 7));
      } else if n == 9 || n == 29 {
        r := r.(attrs := a.(strikethrough := n == 9));
      } else if 30 <= n <= 37 {
        r := r.(fg := Indexed(n - 30));
      } else if n == 38 {
        var color;
        color, i := ExtendedColor(params, i, r.fg);
        r := r.(fg := color);
      } else if n == 39 {
        r := r.(fg := Default);
      } else if 40 <= n <= 47 {
        r := r.(bg := Indexed(n - 40));
      } else if n == 48 {
        var color;
        color, i := ExtendedColor(params, i, r.bg);
        r := r.(bg := color);
      } else if n == 49 {
        r := r.(bg := Default);
      } else if 90 <= n <= 97 {
        r := r.(fg := Indexed(n - 90 + 8));
      } else if 100 <= n <= 107 {
        r := r.(bg := Indexed(n - 100 + 8));
      }
      i := i + 1;
      OneMore(was, params, at, r, i);
    }
  }

  lemma OneMore(pen: Pen, params: seq<nat>, i: nat, pen': Pen, i': nat)
    requires i < |params| && i < i' && SgrOne(pen, params[i..]) == (pen', i' - i)
    ensures SgrAll(pen, Rest(params, i)) == SgrAll(pen', Rest(params, i'))
  {
    if i' <= |params| { assert params[i..][i' - i..] == params[i'..]; }
  }

  /** The numbers after the 38 or 48 at `start`; `i` is the last one taken. */
  method ExtendedColor(params: seq<nat>, start: nat, was: Color) returns (color: Color, i: nat)
    requires start < |params|
    ensures start <= i && Extended(params[start..], was) == (color, i + 1 - start)
  {
    color, i := was, start + 1;
    if i < |params| {
      if params[i] == 5 {
        i := i + 1;
        if i < |params| {
          color := Indexed(params[i] % 256);
        }
      } else if params[i] == 2 {
        if i + 3 < |params| {
          color := Rgb(params[i + 1] % 256, params[i + 2] % 256, params[i + 3] % 256);
          i := i + 3;
        }
      }
    }
  }
}
