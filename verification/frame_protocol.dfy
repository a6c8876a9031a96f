/**
 The lock-free physical frame allocator under every interleaving.

 Any number of threads allocate single frames, allocate runs of frames and free
 frames they own. Each atomic load, `fetch_or` and `fetch_and` is one step, and
 steps of different threads interleave freely.
 */
module FrameProtocol {
  import opened Wrappers

  const BITMAP_SIZE := 16384

  /** Where a thread is: the arguments and local variables of the call it is
      in, at the point before its next atomic access. */
  datatype Pc =
    | Idle
      // alloc: about to load word `idx`, or to claim `frame` in it
    | WordScan(idx: nat)
    | WordClaim(idx: nat, frame: nat)
      // alloc_contiguous: looking at `frame` in a scan that began at `from`,
      // claiming frame `f` of the run at `start`, or giving `f` back
    | RunScan(count: nat, from: nat, runStart: nat, runLen: nat, frame: nat)
    | RunClaim(count: nat, from: nat, start: nat, f: nat)
    | RunUndo(count: nat, from: nat, start: nat, f: nat, conflict: nat)
      // free
    | Freeing(frame: nat)

  /** A thread and the frames that its finished allocations gave it. */
  datatype Thread = Thread(pc: Pc, held: set<nat>)

  datatype System = System(total: nat, bits: set<nat>, reserved: set<nat>, threads: seq<Thread>)

  datatype Event =
    | StartAlloc(t: nat)
    | StartRun(t: nat, count: nat)
    | StartFree(t: nat, frame: nat)
    | HandOver(t: nat, u: nat, frame: nat)
    | Step(t: nat)

  /** What the call that a thread is in has claimed, or has not given up yet. */
  function InProgress(pc: Pc): set<nat> {
    match pc
    case RunClaim(_, _, start, f) => Interval(start, f)
    case RunUndo(_, _, _, f, conflict) => Interval(f, conflict)
    case Freeing(frame) => {frame}
    case _ => {}
  }

  function Owns(th: Thread): set<nat> {
    th.held + InProgress(th.pc)
  }

  // ---- The atomic steps ---------------------------------------------------

  /** The first frame from `f` on whose bit is clear, or `end`. */
  function FirstClear(bits: set<nat>, f: nat, end: nat): (r: nat)
    requires f <= end
    ensures f <= r <= end
    ensures r < end ==> r !in bits
    ensures forall g :: f <= g < r ==> g in bits
    decreases end - f
  {
    if f == end || f !in bits then f else FirstClear(bits, f + 1, end)
  }

  function StartOfRun(s: System, count: nat): Pc {
    if count == 0 then Idle
    else if count == 1 then WordScan(0)
    else if count > s.total then Idle
    else RunScan(count, 0, 0, 0, 0)
  }

  /** The scan that follows a lost race for `conflict`. */
  function Resume(s: System, count: nat, conflict: nat): Pc {
    var from := conflict + 1;
    if from + count > s.total then Idle else RunScan(count, from, from, 0, from)
  }

  function Put(s: System, t: nat, th: Thread): System
    requires t < |s.threads|
  {
    s.(threads := s.threads[t := th])
  }

  function Goto(s: System, t: nat, pc: Pc): System
    requires t < |s.threads|
  {
    Put(s, t, s.threads[t].(pc := pc))
  }

  /** One atomic access of thread `t` and the local work that follows it. */
  function StepOf(s: System, t: nat): System
    requires t < |s.threads|
  {
    var th := s.threads[t];
    match th.pc
    case Idle => s
    case WordScan(idx) =>
      if idx >= (s.total + 63) / 64 || idx >= BITMAP_SIZE then Goto(s, t, Idle)
      else
        var frame := FirstClear(s.bits, idx * 64, idx * 64 + 64);
        if frame == idx * 64 + 64 then Goto(s, t, WordScan(idx + 1))
        else if frame >= s.total then Goto(s, t, Idle)
        else Goto(s, t, WordClaim(idx, frame))
    case WordClaim(idx, frame) =>
      if frame in s.bits then Goto(s, t, WordScan(idx + 1))
      else Put(s.(bits := s.bits + {frame}), t, Thread(Idle, th.held + {frame}))
    case RunScan(count, from, runStart, runLen, frame) =>
      if frame >= s.total then Goto(s, t, Idle)
      else if frame in s.bits then Goto(s, t, RunScan(count, from, frame + 1, 0, frame + 1))
      else if runLen + 1 == count then Goto(s, t, RunClaim(count, from, runStart, runStart))
      else Goto(s, t, RunScan(count, from, runStart, runLen + 1, frame + 1))
    case RunClaim(count, from, start, f) =>
      if f in s.bits then
        Goto(s, t, if start == f then Resume(s, count, f) else RunUndo(count, from, start, start, f))
      else
        var s' := s.(bits := s.bits + {f});
        if f + 1 == start + count
        then Put(s', t, Thread(Idle, th.held + Interval(start, start + count)))
        else Goto(s', t, RunClaim(count, from, start, f + 1))
    case RunUndo(count, from, start, f, conflict) =>
      Goto(s.(bits := s.bits - {f}), t,
           if f + 1 == conflict then Resume(s, count, conflict) else RunUndo(count, from, start, f + 1, conflict))
    case Freeing(frame) =>
      Goto(s.(bits := s.bits - {frame}), t, Idle)
  }

  /** A thread starts a call only when it is in none, and frees or hands over
      only a frame it owns. */
  predicate Enabled(s: System, ev: Event) {
    match ev
    case StartAlloc(t) => t < |s.threads| && s.threads[t].pc.Idle?
    case StartRun(t, _) => t < |s.threads| && s.threads[t].pc.Idle?
    case StartFree(t, frame) => t < |s.threads| && s.threads[t].pc.Idle? && frame in s.threads[t].held
    case HandOver(t, u, frame) => t < |s.threads| && u < |s.threads| && t != u && frame in s.threads[t].held
    case Step(t) => t < |s.threads|
  }

  function Apply(s: System, ev: Event): System
    requires Enabled(s, ev)
  {
    match ev
    case StartAlloc(t) => Goto(s, t, WordScan(0))
    case StartRun(t, count) => Goto(s, t, StartOfRun(s, count))
    case StartFree(t, frame) => Put(s, t, Thread(Freeing(frame), s.threads[t].held - {frame}))
    case HandOver(t, u, frame) =>
      var s' := Put(s, t, s.threads[t].(held := s.threads[t].held - {frame}));
      Put(s', u, s.threads[u].(held := s.threads[u].held + {frame}))
    case Step(t) => StepOf(s, t)
  }

  // ---- The invariant ------------------------------------------------------

  predicate Sensible(s: System, pc: Pc) {
    match pc
    case WordClaim(idx, frame) => idx < BITMAP_SIZE && frame < s.total
    case RunScan(count, from, runStart, runLen, frame) =>
      from <= runStart && runStart + runLen == frame <= s.total && runLen < count
    case RunClaim(count, from, start, f) => from <= start <= f < start + count <= s.total
    case RunUndo(count, from, start, f, conflict) => from <= start <= f < conflict < start + count <= s.total
    case _ => true
  }

  /** Every set bit has exactly one owner: a reservation, a finished allocation
      or a call in progress. */
  ghost predicate Invariant(s: System) {
    && (forall t :: 0 <= t < |s.threads| ==> Sensible(s, s.threads[t].pc))
    && (forall t :: 0 <= t < |s.threads| ==> Owns(s.threads[t]) <= s.bits)
    && s.reserved <= s.bits
    && (forall f :: f in s.bits && f !in s.reserved ==> exists t :: 0 <= t < |s.threads| && f in Owns(s.threads[t]))
    && (forall t :: 0 <= t < |s.threads| ==> s.threads[t].held !! InProgress(s.threads[t].pc))
    && (forall t :: 0 <= t < |s.threads| ==> Owns(s.threads[t]) !! s.reserved)
    && (forall t, u :: 0 <= t < u < |s.threads| ==> Owns(s.threads[t]) !! Owns(s.threads[u]))
  }

  // ---- Every event keeps it -----------------------------------------------

  /** A change of one thread and of bits that nobody else owns. */
  lemma LocalChange(s: System, t: nat, bits: set<nat>, th: Thread)
    requires Invariant(s) && t < |s.threads|
    requires Sensible(s, th.pc) && th.held !! InProgress(th.pc)
    requires forall f :: f in bits <==> f in Owns(th) || (f in s.bits && f !in Owns(s.threads[t]))
    requires forall f :: f in Owns(th) ==> f in Owns(s.threads[t]) || f !in s.bits
    ensures Invariant(Put(s.(bits := bits), t, th))
  {
    hide InProgress, Interval;
    var s' := Put(s.(bits := bits), t, th);
    forall f | f in s'.bits && f !in s'.reserved
      ensures exists u :: 0 <= u < |s'.threads| && f in Owns(s'.threads[u])
    {
      if f in Owns(th) {
        assert s'.threads[t] == th;
      } else {
        var u :| 0 <= u < |s.threads| && f in Owns(s.threads[u]);
        assert s'.threads[u] == s.threads[u];
      }
    }
    forall u, v | 0 <= u < v < |s'.threads|
      ensures Owns(s'.threads[u]) !! Owns(s'.threads[v])
    {
    }
  }

  lemma OwnFacts(s: System, t: nat)
    requires Invariant(s) && t < |s.threads|
    ensures Sensible(s, s.threads[t].pc)
    ensures s.threads[t].held !! InProgress(s.threads[t].pc)
    ensures forall f :: f in Owns(s.threads[t]) ==> f in s.bits
  {
  }

  /** A step that only moves on. */
  lemma MoveKeeps(s: System, t: nat, pc: Pc)
    requires Invariant(s) && t < |s.threads|
    requires Sensible(s, pc) && InProgress(pc) == InProgress(s.threads[t].pc)
    ensures Invariant(Goto(s, t, pc))
  {
    hide Invariant;
    OwnFacts(s, t);
    LocalChange(s, t, s.bits, s.threads[t].(pc := pc));
    assert s.(bits := s.bits) == s;
  }

  lemma ScanKeeps(s: System, t: nat)
    requires Invariant(s) && t < |s.threads|
    requires s.threads[t].pc.Idle? || s.threads[t].pc.WordScan? || s.threads[t].pc.RunScan?
    ensures Invariant(StepOf(s, t))
  {
    hide Invariant;
    OwnFacts(s, t);
    if !s.threads[t].pc.Idle? {
      MoveKeeps(s, t, StepOf(s, t).threads[t].pc);
    }
  }

  lemma WordClaimKeeps(s: System, t: nat)
    requires Invariant(s) && t < |s.threads| && s.threads[t].pc.WordClaim?
    ensures Invariant(StepOf(s, t))
  {
    hide Invariant;
    OwnFacts(s, t);
    var th := s.threads[t];
    if th.pc.frame in s.bits {
      MoveKeeps(s, t, WordScan(th.pc.idx + 1));
    } else {
      LocalChange(s, t, s.bits + {th.pc.frame}, Thread(Idle, th.held + {th.pc.frame}));
    }
  }

  lemma RunClaimKeeps(s: System, t: nat)
    requires Invariant(s) && t < |s.threads| && s.threads[t].pc.RunClaim?
    ensures Invariant(StepOf(s, t))
  {
    hide Invariant;
    OwnFacts(s, t);
    var th := s.threads[t];
    var RunClaim(count, from, start, f) := th.pc;
    if f in s.bits {
      if start == f {
        MoveKeeps(s, t, Resume(s, count, f));
      } else {
        MoveKeeps(s, t, RunUndo(count, from, start, start, f));
      }
    } else if f + 1 == start + count {
      LocalChange(s, t, s.bits + {f}, Thread(Idle, th.held + Interval(start, start + count)));
    } else {
      LocalChange(s, t, s.bits + {f}, th.(pc := RunClaim(count, from, start, f + 1)));
    }
  }

  lemma GiveBackKeeps(s: System, t: nat)
    requires Invariant(s) && t < |s.threads|
    requires s.threads[t].pc.RunUndo? || s.threads[t].pc.Freeing?
    ensures Invariant(StepOf(s, t))
  {
    hide Invariant;
    OwnFacts(s, t);
    var th := s.threads[t];
    if th.pc.Freeing? {
      LocalChange(s, t, s.bits - {th.pc.frame}, th.(pc := Idle));
    } else {
      var RunUndo(count, from, start, f, conflict) := th.pc;
      var pc := if f + 1 == conflict then Resume(s, count, conflict) else RunUndo(count, from, start, f + 1, conflict);
      LocalChange(s, t, s.bits - {f}, th.(pc := pc));
    }
  }

  lemma HandOverKeeps(s: System, t: nat, u: nat, frame: nat)
    requires Invariant(s) && Enabled(s, HandOver(t, u, frame))
    ensures Invariant(Apply(s, HandOver(t, u, frame)))
  {
    hide Invariant;
    OwnFacts(s, t);
    var giver := s.threads[t].(held := s.threads[t].held - {frame});
    var s1 := Put(s.(bits := s.bits - {frame}), t, giver);
    LocalChange(s, t, s.bits - {frame}, giver);
    OwnFacts(s1, u);
    var taker := s.threads[u].(held := s.threads[u].held + {frame});
    LocalChange(s1, u, s1.bits + {frame}, taker);
    assert s1.bits + {frame} == s.bits;
    assert Put(s1.(bits := s1.bits + {frame}), u, taker) == Apply(s, HandOver(t, u, frame));
  }

  lemma EventKeeps(s: System, ev: Event)
    requires Invariant(s) && Enabled(s, ev)
    ensures Invariant(Apply(s, ev))
  {
    hide Invariant;
    match ev
    case StartAlloc(t) => MoveKeeps(s, t, WordScan(0));
    case StartRun(t, count) => MoveKeeps(s, t, StartOfRun(s, count));
    case StartFree(t, frame) =>
      OwnFacts(s, t);
      LocalChange(s, t, s.bits, Thread(Freeing(frame), s.threads[t].held - {frame}));
      assert s.(bits := s.bits) == s;
    case HandOver(t, u, frame) => HandOverKeeps(s, t, u, frame);
    case Step(t) =>
      match s.threads[t].pc {
        case WordClaim(_, _) => WordClaimKeeps(s, t);
        case RunClaim(_, _, _, _) => RunClaimKeeps(s, t);
        case RunUndo(_, _, _, _, _) => GiveBackKeeps(s, t);
        case Freeing(_) => GiveBackKeeps(s, t);
        case _ => ScanKeeps(s, t);
      }
  }

  // ---- Theorems about every interleaving ----------------------------------

  /** The boot state: some frames reserved, nobody allocating yet. */
  predicate Initial(s: System) {
    s.bits == s.reserved && forall t :: 0 <= t < |s.threads| ==> s.threads[t] == Thread(Idle, {})
  }

  lemma InitialIsInvariant(s: System)
    requires Initial(s)
    ensures Invariant(s)
  {
  }

  ghost predicate Leads(s: System, events: seq<Event>, s': System)
    decreases |events|
  {
    if events == [] then s == s'
    else Enabled(s, events[0]) && Leads(Apply(s, events[0]), events[1..], s')
  }

  lemma {:induction false} RunKeeps(s: System, events: seq<Event>, s': System)
    requires Invariant(s) && Leads(s, events, s')
    ensures Invariant(s')
    decreases |events|
  {
    hide Invariant;
    if events != [] {
      EventKeeps(s, events[0]);
      RunKeeps(Apply(s, events[0]), events[1..], s');
    }
  }

  /** The number of owners of frame `f` among the first `n` threads. */
  function Owners(threads: seq<Thread>, f: nat, n: nat): nat
    requires n <= |threads|
  {
    if n == 0 then 0 else Owners(threads, f, n - 1) + if f in Owns(threads[n - 1]) then 1 else 0
  }

  /** In every interleaving a set bit has exactly one owner and a clear bit has
      none; no frame is both held and in progress in its owner. */
  lemma EveryBitHasOneOwner(s0: System, events: seq<Event>, s: System, f: nat)
    requires Initial(s0) && Leads(s0, events, s)
    ensures Owners(s.threads, f, |s.threads|) + (if f in s.reserved then 1 else 0) == if f in s.bits then 1 else 0
    ensures forall t :: 0 <= t < |s.threads| ==> !(f in s.threads[t].held && f in InProgress(s.threads[t].pc))
  {
    InitialIsInvariant(s0);
    hide Invariant, Initial, Owns, InProgress, Owners;
    RunKeeps(s0, events, s);
    OwnersCounted(s, f);
    forall t | 0 <= t < |s.threads|
      ensures !(f in s.threads[t].held && f in InProgress(s.threads[t].pc))
    {
      HeldIsNotInProgress(s, t);
    }
  }

  lemma HeldIsNotInProgress(s: System, t: nat)
    requires Invariant(s) && t < |s.threads|
    ensures s.threads[t].held !! InProgress(s.threads[t].pc)
  {
  }

  lemma OwnersCounted(s: System, f: nat)
    requires Invariant(s)
    ensures Owners(s.threads, f, |s.threads|) + (if f in s.reserved then 1 else 0) == if f in s.bits then 1 else 0
  {
    hide InProgress, Sensible;
    if exists t :: 0 <= t < |s.threads| && f in Owns(s.threads[t]) {
      var t :| 0 <= t < |s.threads| && f in Owns(s.threads[t]);
      OneOwner(s.threads, f, |s.threads|, t);
    } else {
      NoOwner(s.threads, f, |s.threads|);
    }
  }

  lemma {:induction false} NoOwner(threads: seq<Thread>, f: nat, n: nat)
    requires n <= |threads| && forall t :: 0 <= t < n ==> f !in Owns(threads[t])
    ensures Owners(threads, f, n) == 0
  {
    if n > 0 { NoOwner(threads, f, n - 1); }
  }

  lemma {:induction false} OneOwner(threads: seq<Thread>, f: nat, n: nat, t: nat)
    requires n <= |threads| && t < n && f in Owns(threads[t])
    requires forall u :: 0 <= u < n && u != t ==> f !in Owns(threads[u])
    ensures Owners(threads, f, n) == 1
  {
    if t == n - 1 { NoOwner(threads, f, n - 1); } else { OneOwner(threads, f, n - 1, t); }
  }

  /** The back-out loop and `free` clear only a bit that their own thread owns
      and that nobody else owns or has reserved. */
  lemma BackOutClearsOnlyItsOwn(s0: System, events: seq<Event>, s: System, t: nat, f: nat)
    requires Initial(s0) && Leads(s0, events, s) && t < |s.threads|
    requires f in s.bits && f !in StepOf(s, t).bits
    ensures f in InProgress(s.threads[t].pc) && f !in s.reserved
    ensures forall u :: 0 <= u < |s.threads| && u != t ==> f !in Owns(s.threads[u])
  {
    RunKeeps(s0, events, s);
    assert Owns(s.threads[t]) !! s.reserved;
  }

  /** A frame that a step hands to a thread was free or claimed by that very
      call: no frame is allocated twice. */
  lemma AllocationIsFresh(s0: System, events: seq<Event>, s: System, t: nat, f: nat)
    requires Initial(s0) && Leads(s0, events, s) && t < |s.threads|
    requires f in StepOf(s, t).threads[t].held && f !in s.threads[t].held
    ensures f !in s.reserved && f < s.total
    ensures forall u :: 0 <= u < |s.threads| ==> f !in s.threads[u].held && (u != t ==> f !in Owns(s.threads[u]))
  {
    InitialIsInvariant(s0);
    hide Invariant, Initial, StepOf, Owns, InProgress;
    RunKeeps(s0, events, s);
    HandedOutWasClaimed(s, t, f);
    if f in s.bits {
      OwnedByOne(s, t, f);
    } else {
      NotOwned(s, f);
    }
  }

  lemma HandedOutWasClaimed(s: System, t: nat, f: nat)
    requires Invariant(s) && t < |s.threads|
    requires f in StepOf(s, t).threads[t].held && f !in s.threads[t].held
    ensures f < s.total && (f in s.bits ==> f in Owns(s.threads[t]))
  {
    OwnFacts(s, t);
    hide Invariant;
  }

  lemma OwnedByOne(s: System, t: nat, f: nat)
    requires Invariant(s) && t < |s.threads| && f in Owns(s.threads[t])
    ensures f !in s.reserved && forall u :: 0 <= u < |s.threads| && u != t ==> f !in Owns(s.threads[u])
    ensures forall u :: 0 <= u < |s.threads| && u != t ==> f !in s.threads[u].held
  {
    hide InProgress, Sensible;
    assert Owns(s.threads[t]) !! s.reserved;
  }

  lemma NotOwned(s: System, f: nat)
    requires Invariant(s) && f !in s.bits
    ensures f !in s.reserved
    ensures forall u :: 0 <= u < |s.threads| ==> f !in Owns(s.threads[u]) && f !in s.threads[u].held
  {
    hide InProgress, Sensible;
  }

  // ---- Every call finishes ------------------------------------------------

  function Left(end: nat, at: nat): nat {
    if at < end then end - at else 0
  }

  /** A bound for the rounds of scanning, claiming and backing out that begin
      after `from`. */
  function RoundsAfter(total: nat, from: nat): nat {
    Left(total, from) * (3 * total + 4)
  }

  /** How many more steps of its own a thread needs at most. */
  function StepsLeft(total: nat, pc: Pc): nat {
    match pc
    case Idle => 0
    case WordScan(idx) => 1 + 2 * Left(BITMAP_SIZE, idx)
    case WordClaim(idx, _) => 2 * Left(BITMAP_SIZE, idx)
    case RunScan(_, from, _, _, frame) => RoundsAfter(total, from) + 2 * total + 3 + Left(total, frame)
    case RunClaim(count, from, start, f) => RoundsAfter(total, from) + total + 2 + Left(start + count, f)
    case RunUndo(_, from, _, f, conflict) => RoundsAfter(total, from) + Left(conflict, f)
    case Freeing(_) => 1
  }

  lemma FewerTimes(a: nat, b: nat, k: nat)
    requires b < a
    ensures b * k + k <= a * k
  {
    var d := a - b - 1;
    assert a * k == (b + 1 + d) * k == b * k + k + d * k;
  }

  lemma LaterRoundIsShorter(total: nat, from: nat, from': nat)
    requires from < from' <= total
    ensures RoundsAfter(total, from') + 3 * total + 4 <= RoundsAfter(total, from)
  {
    FewerTimes(Left(total, from), Left(total, from'), 3 * total + 4);
  }

  lemma ResumeIsShorter(s: System, count: nat, from: nat, conflict: nat)
    requires from <= conflict < s.total
    ensures StepsLeft(s.total, Resume(s, count, conflict)) <= RoundsAfter(s.total, from)
  {
    hide RoundsAfter;
    if conflict + 1 + count <= s.total {
      LaterRoundIsShorter(s.total, from, conflict + 1);
    }
  }

  /** Each step of a call brings it nearer to its end. */
  lemma StepIsProgress(s: System, t: nat)
    requires Invariant(s) && t < |s.threads| && !s.threads[t].pc.Idle?
    ensures StepsLeft(s.total, StepOf(s, t).threads[t].pc) < StepsLeft(s.total, s.threads[t].pc)
  {
    OwnFacts(s, t);
    hide RoundsAfter, Invariant, FirstClear, Interval;
    match s.threads[t].pc
    case RunClaim(count, from, start, f) => ResumeIsShorter(s, count, from, f);
    case RunUndo(count, from, start, f, conflict) => ResumeIsShorter(s, count, from, conflict);
    case _ =>
  }

  predicate StartsCall(ev: Event, t: nat) {
    match ev
    case StartAlloc(u) => u == t
    case StartRun(u, _) => u == t
    case StartFree(u, _) => u == t
    case _ => false
  }

  /** Nothing that the other threads do moves a call. */
  lemma OthersDoNotInterfere(s: System, ev: Event, t: nat)
    requires Enabled(s, ev) && t < |s.threads| && !StartsCall(ev, t) && ev != Step(t)
    ensures Apply(s, ev).threads[t].pc == s.threads[t].pc
    ensures Apply(s, ev).total == s.total && |Apply(s, ev).threads| == |s.threads|
  {
  }

  /** How many of the events are steps of thread `t`. */
  function StepsTaken(events: seq<Event>, t: nat): nat {
    if events == [] then 0 else (if events[0] == Step(t) then 1 else 0) + StepsTaken(events[1..], t)
  }

  /** Along a run in which `t` starts no new call, it either finishes the one it
      is in or is nearer to its end by as many steps as it has taken. */
  lemma {:induction false} RunIsProgress(s: System, events: seq<Event>, s': System, t: nat)
    requires Invariant(s) && Leads(s, events, s') && t < |s.threads|
    requires forall ev :: ev in events ==> !StartsCall(ev, t)
    ensures |s'.threads| == |s.threads|
    ensures || s'.threads[t].pc.Idle?
            || StepsTaken(events, t) + StepsLeft(s'.total, s'.threads[t].pc) <= StepsLeft(s.total, s.threads[t].pc)
    decreases |events|
  {
    hide Invariant, StepsLeft, StepOf;
    if events != [] {
      var s1 := Apply(s, events[0]);
      EventKeeps(s, events[0]);
      assert events[0] in events;
      StepStays(s, events[0], t);
      assert forall ev :: ev in events[1..] ==> ev in events;
      RunIsProgress(s1, events[1..], s', t);
      if events[0] != Step(t) {
        OthersDoNotInterfere(s, events[0], t);
      } else if s.threads[t].pc.Idle? {
        IdleStays(s1, events[1..], s', t);
      } else {
        StepIsProgress(s, t);
      }
    }
  }

  lemma StepStays(s: System, ev: Event, t: nat)
    requires Enabled(s, ev) && t < |s.threads|
    ensures Apply(s, ev).total == s.total && |Apply(s, ev).threads| == |s.threads|
    ensures ev == Step(t) && s.threads[t].pc.Idle? ==> Apply(s, ev) == s
    ensures ev == Step(t) ==> Apply(s, ev) == StepOf(s, t)
  {
  }

  lemma {:induction false} IdleStays(s: System, events: seq<Event>, s': System, t: nat)
    requires Leads(s, events, s') && t < |s.threads| && s.threads[t].pc.Idle?
    requires forall ev :: ev in events ==> !StartsCall(ev, t)
    ensures |s'.threads| == |s.threads| && s'.threads[t].pc.Idle?
    decreases |events|
  {
    hide StepOf;
    if events != [] {
      assert events[0] in events;
      StepStays(s, events[0], t);
      if events[0] != Step(t) { OthersDoNotInterfere(s, events[0], t); }
      assert forall ev :: ev in events[1..] ==> ev in events;
      IdleStays(Apply(s, events[0]), events[1..], s', t);
    }
  }

  /** `alloc`, `alloc_contiguous` and `free` are wait-free: from any reachable
      state, in any interleaving with any calls of other threads, a call has
      finished as soon as its thread has taken `StepsLeft` steps. */
  lemma EveryCallFinishes(s0: System, before: seq<Event>, s: System, events: seq<Event>, s': System, t: nat)
    requires Initial(s0) && Leads(s0, before, s) && Leads(s, events, s') && t < |s.threads|
    requires forall ev :: ev in events ==> !StartsCall(ev, t)
    ensures |s'.threads| == |s.threads|
    ensures StepsTaken(events, t) >= StepsLeft(s.total, s.threads[t].pc) ==> s'.threads[t].pc.Idle?
  {
    InitialIsInvariant(s0);
    hide Invariant, Initial, StepsLeft, StepOf;
    RunKeeps(s0, before, s);
    RunKeeps(s, events, s');
    RunIsProgress(s, events, s', t);
    if !s'.threads[t].pc.Idle? {
      StepIsProgress(s', t);
    }
  }
}
