/**
 What the frame allocator finds: alone, a call takes the lowest free frame or run
 and fails only when there is none; among others, a call that fails has been kept
 from every frame or run by one that was taken when it looked.
 */
module FrameSearch {
  import opened Wrappers
  import opened FrameProtocol

  // ---- A call that nobody disturbs ----------------------------------------

  /** Thread `t` takes `n` steps and nobody else any. */
  function Solo(s: System, t: nat, n: nat): (s': System)
    requires t < |s.threads|
    ensures |s'.threads| == |s.threads|
    decreases n
  {
    if n == 0 then s else Solo(StepOf(s, t), t, n - 1)
  }

  /** The frames that `alloc` looks at. */
  function SearchEnd(s: System): nat {
    Min(s.total, 64 * BITMAP_SIZE)
  }

  /** Thread `t` has finished its call and now holds these frames besides. */
  function Given(s: System, t: nat, frames: set<nat>): System
    requires t < |s.threads|
  {
    Put(s.(bits := s.bits + frames), t, Thread(Idle, s.threads[t].held + frames))
  }

  predicate LowestClear(bits: set<nat>, f: nat, end: nat) {
    f < end && f !in bits && forall g :: 0 <= g < f ==> g in bits
  }

  /** What a lone `alloc` comes to. */
  ghost predicate AllocDone(s: System, t: nat, s': System)
    requires t < |s.threads|
  {
    && (forall f :: LowestClear(s.bits, f, SearchEnd(s)) ==> s' == Given(s, t, {f}))
    && ((forall f :: 0 <= f < SearchEnd(s) ==> f in s.bits) ==> s' == Given(s, t, {}))
  }

  lemma {:induction false} IdleForGood(s: System, t: nat, n: nat)
    requires t < |s.threads| && s.threads[t].pc.Idle?
    ensures Solo(s, t, n) == s
  {
    if n > 0 { IdleForGood(s, t, n - 1); }
  }

  lemma {:induction false} ScanFinds(s: System, t: nat, idx: nat, n: nat)
    requires t < |s.threads| && idx <= BITMAP_SIZE && forall f :: 0 <= f < 64 * idx && f < s.total ==> f in s.bits
    requires Solo(Goto(s, t, WordScan(idx)), t, n).threads[t].pc.Idle?
    ensures AllocDone(s, t, Solo(Goto(s, t, WordScan(idx)), t, n))
    decreases n
  {
    hide StepOf, AllocDone;
    var s1 := StepOf(Goto(s, t, WordScan(idx)), t);
    assert n > 0;
    WordLooked(s, t, idx);
    if s1.threads[t].pc.Idle? {
      IdleForGood(s1, t, n - 1);
    } else if s1.threads[t].pc.WordScan? {
      ScanFinds(s, t, idx + 1, n - 1);
    } else {
      assert n > 1;
      IdleForGood(StepOf(s1, t), t, n - 2);
    }
  }

  /** What a lone thread finds in one word, all before it being taken. */
  lemma WordLooked(s: System, t: nat, idx: nat)
    requires t < |s.threads| && idx <= BITMAP_SIZE && forall f :: 0 <= f < 64 * idx && f < s.total ==> f in s.bits
    ensures
      var s1 := StepOf(Goto(s, t, WordScan(idx)), t);
      match s1.threads[t].pc
      case Idle => AllocDone(s, t, s1)
      case WordScan(i) =>
        && i == idx + 1 <= BITMAP_SIZE && s1 == Goto(s, t, WordScan(i))
        && forall f :: 0 <= f < 64 * i && f < s.total ==> f in s.bits
      case WordClaim(_, frame) => StepOf(s1, t).threads[t].pc.Idle? && AllocDone(s, t, StepOf(s1, t))
      case _ => false
  {
    assert s.bits + {} == s.bits && s.threads[t].held + {} == s.threads[t].held;
    var s1 := StepOf(Goto(s, t, WordScan(idx)), t);
    if s1.threads[t].pc.Idle? {
      assert s1 == Given(s, t, {});
    } else if s1.threads[t].pc.WordClaim? {
      assert StepOf(s1, t) == Given(s, t, {s1.threads[t].pc.frame});
    }
  }

  /** A lone `alloc` takes the lowest free frame, and nothing exactly when there is
      none; nothing else changes. */
  lemma AllocFindsLowest(s: System, t: nat, n: nat)
    requires Enabled(s, StartAlloc(t)) && Solo(Apply(s, StartAlloc(t)), t, n).threads[t].pc.Idle?
    ensures AllocDone(s, t, Solo(Apply(s, StartAlloc(t)), t, n))
  {
    ScanFinds(s, t, 0, n);
  }

  // ---- A run that nobody disturbs -----------------------------------------

  predicate ClearRun(bits: set<nat>, a: nat, count: nat) {
    forall f :: a <= f < a + count ==> f !in bits
  }

  predicate LowestRun(bits: set<nat>, a: nat, count: nat, total: nat) {
    a + count <= total && ClearRun(bits, a, count) && forall b :: 0 <= b < a ==> !ClearRun(bits, b, count)
  }

  /** What a lone search for `count` frames in a row comes to. */
  ghost predicate RunDone(s: System, t: nat, count: nat, s': System)
    requires t < |s.threads|
  {
    && (forall a: nat :: LowestRun(s.bits, a, count, s.total) ==> s' == Given(s, t, Interval(a, a + count)))
    && ((forall a: nat :: a + count <= s.total ==> !ClearRun(s.bits, a, count)) ==> s' == Given(s, t, {}))
  }

  /** The run has been claimed up to `f`. */
  function Claimed(s: System, t: nat, count: nat, start: nat, f: nat): System
    requires t < |s.threads|
  {
    Put(s.(bits := s.bits + Interval(start, f)), t, s.threads[t].(pc := RunClaim(count, 0, start, f)))
  }

  lemma {:induction false} ClaimTakes(s: System, t: nat, count: nat, start: nat, f: nat, n: nat)
    requires t < |s.threads| && start <= f < start + count && ClearRun(s.bits, start, count)
    requires Solo(Claimed(s, t, count, start, f), t, n).threads[t].pc.Idle?
    ensures Solo(Claimed(s, t, count, start, f), t, n) == Given(s, t, Interval(start, start + count))
    decreases n
  {
    var s0 := Claimed(s, t, count, start, f);
    var s1 := StepOf(s0, t);
    assert f !in s0.bits;
    assert s.bits + Interval(start, f) + {f} == s.bits + Interval(start, f + 1);
    if f + 1 == start + count {
      assert s1 == Given(s, t, Interval(start, start + count));
      IdleForGood(s1, t, n - 1);
    } else {
      assert s1 == Claimed(s, t, count, start, f + 1);
      ClaimTakes(s, t, count, start, f + 1, n - 1);
    }
  }

  /** Frame `f` lies in every run that begins between `a` and itself. */
  lemma SetFrameRefutes(bits: set<nat>, a: nat, f: nat, count: nat)
    requires f in bits && f < a + count
    ensures forall b :: a <= b <= f ==> !ClearRun(bits, b, count)
  {
  }

  lemma NothingGiven(s: System, t: nat)
    requires t < |s.threads|
    ensures Given(s, t, {}) == Goto(s, t, Idle)
  {
    assert s.bits + {} == s.bits && s.threads[t].held + {} == s.threads[t].held;
    assert s.(bits := s.bits) == s;
  }

  lemma OneLowestRun(s: System, t: nat, count: nat, a: nat)
    requires t < |s.threads| && LowestRun(s.bits, a, count, s.total)
    ensures RunDone(s, t, count, Given(s, t, Interval(a, a + count)))
  {
    hide ClearRun, Interval;
    forall b: nat | LowestRun(s.bits, b, count, s.total)
      ensures b == a
    {
    }
  }

  lemma NoRunIsLowest(s: System, t: nat, count: nat)
    requires t < |s.threads| && forall a: nat :: a + count <= s.total ==> !ClearRun(s.bits, a, count)
    ensures RunDone(s, t, count, Given(s, t, {}))
  {
    hide ClearRun, Interval;
  }

  lemma {:induction false} RunScanFinds(s: System, t: nat, count: nat, runStart: nat, frame: nat, n: nat)
    requires t < |s.threads| && runStart <= frame <= s.total && frame < runStart + count
    requires forall b :: 0 <= b < runStart ==> !ClearRun(s.bits, b, count)
    requires ClearRun(s.bits, runStart, frame - runStart)
    requires Solo(Goto(s, t, RunScan(count, 0, runStart, frame - runStart, frame)), t, n).threads[t].pc.Idle?
    ensures RunDone(s, t, count, Solo(Goto(s, t, RunScan(count, 0, runStart, frame - runStart, frame)), t, n))
    decreases n
  {
    hide Interval, RunDone, Given;
    var s0 := Goto(s, t, RunScan(count, 0, runStart, frame - runStart, frame));
    var s1 := StepOf(s0, t);
    if frame >= s.total {
      assert s1 == Given(s, t, {}) by { NothingGiven(s, t); }
      IdleForGood(s1, t, n - 1);
      NoRunIsLowest(s, t, count);
    } else if frame in s.bits {
      SetFrameRefutes(s.bits, runStart, frame, count);
      assert s1 == Goto(s, t, RunScan(count, 0, frame + 1, 0, frame + 1));
      RunScanFinds(s, t, count, frame + 1, frame + 1, n - 1);
    } else if frame - runStart + 1 == count {
      assert s.bits + Interval(runStart, runStart) == s.bits by { assert Interval(runStart, runStart) == {}; }
      assert s1 == Claimed(s, t, count, runStart, runStart);
      ClaimTakes(s, t, count, runStart, runStart, n - 1);
      OneLowestRun(s, t, count, runStart);
    } else {
      assert s1 == Goto(s, t, RunScan(count, 0, runStart, frame - runStart + 1, frame + 1));
      RunScanFinds(s, t, count, runStart, frame + 1, n - 1);
    }
  }

  /** A lone search takes the lowest free run of that length, and nothing exactly
      when there is none or the length is zero; nothing else changes. A single
      frame is looked for where `alloc` looks. */
  lemma RunFindsLowest(s: System, t: nat, count: nat, n: nat)
    requires Enabled(s, StartRun(t, count)) && Solo(Apply(s, StartRun(t, count)), t, n).threads[t].pc.Idle?
    ensures
      var s' := Solo(Apply(s, StartRun(t, count)), t, n);
      if count == 0 then s' == Given(s, t, {})
      else if count == 1 then AllocDone(s, t, s')
      else RunDone(s, t, count, s')
  {
    assert s.bits + {} == s.bits && s.threads[t].held + {} == s.threads[t].held;
    if count == 1 {
      ScanFinds(s, t, 0, n);
    } else if count == 0 || count > s.total {
      IdleForGood(Apply(s, StartRun(t, count)), t, n);
    } else {
      RunScanFinds(s, t, count, 0, 0, n);
    }
  }

  lemma {:induction false} SoloEnds(s: System, t: nat, n: nat)
    requires Invariant(s) && t < |s.threads| && n >= StepsLeft(s.total, s.threads[t].pc)
    ensures Solo(s, t, n).threads[t].pc.Idle?
    decreases n
  {
    hide Invariant, StepsLeft, StepOf;
    if s.threads[t].pc.Idle? {
      IdleForGood(s, t, n);
    } else {
      StepIsProgress(s, t);
      EventKeeps(s, Step(t));
      StepStays(s, Step(t), t);
      SoloEnds(StepOf(s, t), t, n - 1);
    }
  }

  /** In any reachable state, a thread that is left alone gets what there is. */
  lemma AloneInTime(s0: System, before: seq<Event>, s: System, t: nat, count: nat, n: nat)
    requires Initial(s0) && Leads(s0, before, s) && Enabled(s, StartRun(t, count)) && count > 0
    requires n >= StepsLeft(s.total, Apply(s, StartRun(t, count)).threads[t].pc)
    ensures
      var s' := Solo(Apply(s, StartRun(t, count)), t, n);
      && s'.threads[t].pc.Idle?
      && (if count == 1 then AllocDone(s, t, s') else RunDone(s, t, count, s'))
  {
    InitialIsInvariant(s0);
    hide Invariant, Initial, StepsLeft, StepOf;
    RunKeeps(s0, before, s);
    EventKeeps(s, StartRun(t, count));
    SoloEnds(Apply(s, StartRun(t, count)), t, n);
    RunFindsLowest(s, t, count, n);
  }

  // ---- A call among others ------------------------------------------------

  /** The next step of `t` ends its call with success. */
  predicate Succeeds(s: System, t: nat)
    requires t < |s.threads|
  {
    match s.threads[t].pc
    case WordClaim(_, frame) => frame !in s.bits
    case RunClaim(count, _, start, f) => f !in s.bits && f + 1 == start + count
    case _ => false
  }

  /** No step of `t` in this run does. */
  ghost predicate EmptyHanded(s: System, events: seq<Event>, t: nat)
    requires t < |s.threads|
    decreases |events|
  {
    events == [] ||
    (&& Enabled(s, events[0]) && (events[0] == Step(t) ==> !Succeeds(s, t))
     && EmptyHanded(Apply(s, events[0]), events[1..], t))
  }

  /** The next step of `t` finds no free frame in word `idx`: all of them taken, or
      the one it wanted taken since. */
  predicate FindsWordTaken(s: System, t: nat, idx: nat)
    requires t < |s.threads|
  {
    match s.threads[t].pc
    case WordScan(i) => i == idx && forall f :: 64 * idx <= f < 64 * idx + 64 && f < s.total ==> f in s.bits
    case WordClaim(i, frame) => i == idx && 64 * idx <= frame < 64 * idx + 64 && frame in s.bits
    case _ => false
  }

  /** At some step of this run it does. */
  ghost predicate WordWasTaken(s: System, events: seq<Event>, t: nat, idx: nat)
    requires t < |s.threads|
    decreases |events|
  {
    && events != [] && Enabled(s, events[0])
    && ((events[0] == Step(t) && FindsWordTaken(s, t, idx)) || WordWasTaken(Apply(s, events[0]), events[1..], t, idx))
  }

  predicate StillAtWord(s: System, pc: Pc, idx: nat) {
    match pc
    case WordScan(i) => i <= idx
    case WordClaim(i, frame) => i <= idx && 64 * i <= frame < 64 * i + 64
    case _ => false
  }

  lemma WordStep(s: System, t: nat, idx: nat)
    requires t < |s.threads| && idx < Min((s.total + 63) / 64, BITMAP_SIZE)
    requires StillAtWord(s, s.threads[t].pc, idx) && !Succeeds(s, t)
    ensures FindsWordTaken(s, t, idx) || StillAtWord(s, StepOf(s, t).threads[t].pc, idx)
  {
  }

  lemma {:induction false} WordsWereTaken(s: System, events: seq<Event>, s': System, t: nat, idx: nat)
    requires Leads(s, events, s') && t < |s.threads| && idx < Min((s.total + 63) / 64, BITMAP_SIZE)
    requires (forall ev :: ev in events ==> !StartsCall(ev, t)) && EmptyHanded(s, events, t)
    requires StillAtWord(s, s.threads[t].pc, idx) && |s'.threads| == |s.threads| && s'.threads[t].pc.Idle?
    ensures WordWasTaken(s, events, t, idx)
    decreases |events|
  {
    hide StepOf, FindsWordTaken, Succeeds;
    assert events != [];
    assert events[0] in events;
    StepStays(s, events[0], t);
    if events[0] == Step(t) { WordStep(s, t, idx); } else { OthersDoNotInterfere(s, events[0], t); }
    if !(events[0] == Step(t) && FindsWordTaken(s, t, idx)) {
      assert forall ev :: ev in events[1..] ==> ev in events;
      WordsWereTaken(Apply(s, events[0]), events[1..], s', t, idx);
    }
  }

  /** In any interleaving: an `alloc` that ends with nothing has found every word
      taken when it looked. */
  lemma FailedAllocFoundAllTaken(s: System, events: seq<Event>, s': System, t: nat, idx: nat)
    requires Enabled(s, StartAlloc(t)) && Leads(Apply(s, StartAlloc(t)), events, s')
    requires (forall ev :: ev in events ==> !StartsCall(ev, t)) && EmptyHanded(Apply(s, StartAlloc(t)), events, t)
    requires |s'.threads| == |s.threads| && s'.threads[t].pc.Idle? && idx < Min((s.total + 63) / 64, BITMAP_SIZE)
    ensures WordWasTaken(Apply(s, StartAlloc(t)), events, t, idx)
  {
    WordsWereTaken(Apply(s, StartAlloc(t)), events, s', t, idx);
  }

  /** The next step of `t` looks at a frame of the run at `a` and finds it taken. */
  predicate FindsRunTaken(s: System, t: nat, a: nat, count: nat)
    requires t < |s.threads|
  {
    match s.threads[t].pc
    case RunScan(_, _, _, _, frame) => a <= frame < a + count && frame in s.bits
    case RunClaim(_, _, _, f) => a <= f < a + count && f in s.bits
    case _ => false
  }

  ghost predicate RunWasTaken(s: System, events: seq<Event>, t: nat, a: nat, count: nat)
    requires t < |s.threads|
    decreases |events|
  {
    && events != [] && Enabled(s, events[0])
    && (|| (events[0] == Step(t) && FindsRunTaken(s, t, a, count))
        || RunWasTaken(Apply(s, events[0]), events[1..], t, a, count))
  }

  /** The run at `a` is still to be looked at. */
  predicate StillBefore(pc: Pc, a: nat, count: nat) {
    match pc
    case RunScan(c, _, runStart, _, _) => c == count && runStart <= a
    case RunClaim(c, _, start, _) => c == count && start <= a
    case RunUndo(c, _, _, _, conflict) => c == count && conflict < a
    case _ => false
  }

  lemma RunStep(s: System, t: nat, a: nat, count: nat)
    requires Invariant(s) && t < |s.threads| && a + count <= s.total
    requires StillBefore(s.threads[t].pc, a, count) && !Succeeds(s, t)
    ensures FindsRunTaken(s, t, a, count) || StillBefore(StepOf(s, t).threads[t].pc, a, count)
  {
    OwnFacts(s, t);
    hide Invariant, Interval;
  }

  lemma {:induction false} RunsWereTaken(s: System, events: seq<Event>, s': System, t: nat, a: nat, count: nat)
    requires Invariant(s) && Leads(s, events, s') && t < |s.threads| && a + count <= s.total
    requires (forall ev :: ev in events ==> !StartsCall(ev, t)) && EmptyHanded(s, events, t)
    requires StillBefore(s.threads[t].pc, a, count) && |s'.threads| == |s.threads| && s'.threads[t].pc.Idle?
    ensures RunWasTaken(s, events, t, a, count)
    decreases |events|
  {
    hide Invariant, StepOf, FindsRunTaken, Succeeds;
    assert events != [];
    assert events[0] in events;
    StepStays(s, events[0], t);
    EventKeeps(s, events[0]);
    if events[0] == Step(t) { RunStep(s, t, a, count); } else { OthersDoNotInterfere(s, events[0], t); }
    if !(events[0] == Step(t) && FindsRunTaken(s, t, a, count)) {
      assert forall ev :: ev in events[1..] ==> ev in events;
      RunsWereTaken(Apply(s, events[0]), events[1..], s', t, a, count);
    }
  }

  /** In any interleaving: a search for several frames in a row that ends with
      nothing has found each possible run taken, in one of its frames, when it
      looked. */
  lemma FailedRunFoundAllTaken(s0: System, before: seq<Event>, s: System, events: seq<Event>, s': System,
                               t: nat, a: nat, count: nat)
    requires Initial(s0) && Leads(s0, before, s) && count >= 2 && a + count <= s.total
    requires Enabled(s, StartRun(t, count)) && Leads(Apply(s, StartRun(t, count)), events, s')
    requires (forall ev :: ev in events ==> !StartsCall(ev, t)) && EmptyHanded(Apply(s, StartRun(t, count)), events, t)
    requires |s'.threads| == |s.threads| && s'.threads[t].pc.Idle?
    ensures RunWasTaken(Apply(s, StartRun(t, count)), events, t, a, count)
  {
    InitialIsInvariant(s0);
    hide Invariant, Initial, StepOf;
    RunKeeps(s0, before, s);
    EventKeeps(s, StartRun(t, count));
    RunsWereTaken(Apply(s, StartRun(t, count)), events, s', t, a, count);
  }

  /** Two threads ask for a frame, and 64 are free. The one that loses the race
      for the first frame goes on to the next word, of which there is none, and
      ends with nothing while 63 frames are free. */
  lemma LostRaceFails()
    ensures
      var s := System(64, {}, {}, [Thread(Idle, {}), Thread(Idle, {})]);
      var run := [StartAlloc(0), Step(0), StartAlloc(1), Step(1), Step(1), Step(0), Step(0)];
      Initial(s) && Leads(s, run, System(64, {0}, {}, [Thread(Idle, {}), Thread(Idle, {0})]))
  {
    hide Leads, StepOf;
    var a, b := Thread(Idle, {}), Thread(Idle, {0});
    var s0 := System(64, {}, {}, [a, a]);
    var s1 := System(64, {}, {}, [Thread(WordScan(0), {}), a]);
    var s2 := System(64, {}, {}, [Thread(WordClaim(0, 0), {}), a]);
    var s3 := System(64, {}, {}, [Thread(WordClaim(0, 0), {}), Thread(WordScan(0), {})]);
    var s4 := System(64, {}, {}, [Thread(WordClaim(0, 0), {}), Thread(WordClaim(0, 0), {})]);
    var s5 := System(64, {0}, {}, [Thread(WordClaim(0, 0), {}), b]);
    var s6 := System(64, {0}, {}, [Thread(WordScan(1), {}), b]);
    var s7 := System(64, {0}, {}, [a, b]);
    assert StepOf(s1, 0) == s2 && StepOf(s5, 0) == s6 && StepOf(s6, 0) == s7 by { FirstThread(); }
    assert StepOf(s3, 1) == s4 && StepOf(s4, 1) == s5 by { SecondThread(); }
    OneMoreEvent(s7, [], s7);
    OneMoreEvent(s6, [Step(0)], s7);
    OneMoreEvent(s5, [Step(0), Step(0)], s7);
    OneMoreEvent(s4, [Step(1), Step(0), Step(0)], s7);
    OneMoreEvent(s3, [Step(1), Step(1), Step(0), Step(0)], s7);
    assert Apply(s2, StartAlloc(1)).threads == s3.threads && Apply(s0, StartAlloc(0)).threads == s1.threads;
    OneMoreEvent(s2, [StartAlloc(1), Step(1), Step(1), Step(0), Step(0)], s7);
    OneMoreEvent(s1, [Step(0), StartAlloc(1), Step(1), Step(1), Step(0), Step(0)], s7);
    OneMoreEvent(s0, [StartAlloc(0), Step(0), StartAlloc(1), Step(1), Step(1), Step(0), Step(0)], s7);
  }

  lemma FirstThread()
    ensures
      var a, b := Thread(Idle, {}), Thread(Idle, {0});
      && StepOf(System(64, {}, {}, [Thread(WordScan(0), {}), a]), 0)
         == System(64, {}, {}, [Thread(WordClaim(0, 0), {}), a])
      && StepOf(System(64, {0}, {}, [Thread(WordClaim(0, 0), {}), b]), 0)
         == System(64, {0}, {}, [Thread(WordScan(1), {}), b])
      && StepOf(System(64, {0}, {}, [Thread(WordScan(1), {}), b]), 0) == System(64, {0}, {}, [a, b])
  {
    assert FirstClear({}, 0, 64) == 0;
  }

  lemma SecondThread()
    ensures
      var c := Thread(WordClaim(0, 0), {});
      && StepOf(System(64, {}, {}, [c, Thread(WordScan(0), {})]), 1) == System(64, {}, {}, [c, c])
      && StepOf(System(64, {}, {}, [c, c]), 1) == System(64, {0}, {}, [c, Thread(Idle, {0})])
  {
    var c := Thread(WordClaim(0, 0), {});
    assert FirstClear({}, 0, 64) == 0;
    assert [c, Thread(WordScan(0), {})][1 := c] == [c, c] && [c, c][1 := Thread(Idle, {0})] == [c, Thread(Idle, {0})];
    assert {} + {0} == {0};
  }

  lemma OneMoreEvent(s: System, events: seq<Event>, s': System)
    requires events == [] ==> s == s'
    requires events != [] ==> Enabled(s, events[0]) && Leads(Apply(s, events[0]), events[1..], s')
    ensures Leads(s, events, s')
  {
  }
}
