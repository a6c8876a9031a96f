/** When segments that nobody acknowledges are sent again, and when the
    connection gives up. */
module TcpTimer {
  import opened Wrappers
  import opened Tcp

  // ---- One tick -----------------------------------------------------------

  /** How long a segment waits, by the number of times it has been sent again. */
  function WaitAfter(retries: nat): nat {
    [200, 400, 800, 1600, 3200][Min(retries, 4)]
  }

  predicate IsDue(p: Pending, now: nat) {
    now >= p.lastTx + WaitAfter(p.retries)
  }

  lemma Timeouts(retries: nat)
    ensures Timeout(retries) == WaitAfter(retries)
  {
    assert Shifted(200, 1) == 400 && Shifted(200, 2) == 800;
    assert Shifted(200, 3) == 1600 && Shifted(200, 4) == 3200;
  }

  lemma TimedOutIsDue(p: Pending, now: nat)
    ensures TimedOut(p, now) <==> IsDue(p, now)
  {
    Timeouts(p.retries);
  }

  /** The segments that are due and may go out again, in order. */
  function DueAgain(queue: seq<Pending>, now: nat): seq<Pending> {
    if queue == [] then []
    else (if IsDue(queue[0], now) && queue[0].retries < 5 then [queue[0]] else []) + DueAgain(queue[1..], now)
  }

  lemma {:induction false} ResentAreDue(queue: seq<Pending>, now: nat)
    ensures Resent(queue, now) == DueAgain(queue, now)
  {
    if queue != [] {
      TimedOutIsDue(queue[0], now);
      ResentAreDue(queue[1..], now);
    }
  }

  /** A tick looks at each segment of the queue alone: one that is due goes out as
      it is and is counted, unless it has gone out five times before, in which
      case the connection is closed. Nothing else changes. */
  lemma TickActsOnEach(c: Conn, now: nat)
    requires c.state != Closed
    ensures
      var (c', sent) := Tick(c, now);
      && c'.Some? && c'.value == c.(pending := c'.value.pending, state := c'.value.state)
      && |c'.value.pending| == |c.pending|
      && (forall i :: 0 <= i < |c.pending| ==>
            c'.value.pending[i] ==
            if IsDue(c.pending[i], now) && c.pending[i].retries < 5
            then c.pending[i].(lastTx := now, retries := c.pending[i].retries + 1) else c.pending[i])
      && sent == DueAgain(c.pending, now)
      && c'.value.state ==
         if exists i :: 0 <= i < |c.pending| && IsDue(c.pending[i], now) && c.pending[i].retries >= 5 then Closed
         else c.state
  {
    hide TimedOut, IsDue;
    ResentAreDue(c.pending, now);
    forall i | 0 <= i < |c.pending|
      ensures TimedOut(c.pending[i], now) <==> IsDue(c.pending[i], now)
    {
      TimedOutIsDue(c.pending[i], now);
    }
  }

  // ---- A whole life -------------------------------------------------------

  /** The connection `elapsed` ticks after time `t0`, if the timer runs at
      every tick and nothing else happens; None once it has been dropped. */
  function AfterTicks(c: Conn, t0: nat, elapsed: nat): Option<Conn> {
    if elapsed == 0 then Some(c)
    else
      var before := AfterTicks(c, t0, elapsed - 1);
      if before.None? then None else Tick(before.value, t0 + elapsed).0
  }

  /** What goes out at exactly that tick. */
  function SentAt(c: Conn, t0: nat, elapsed: nat): seq<Pending>
    requires elapsed > 0
  {
    var before := AfterTicks(c, t0, elapsed - 1);
    if before.None? then [] else Tick(before.value, t0 + elapsed).1
  }

  /** The retransmissions of a segment made by that age, and the age at which the
      last one was made. */
  function RetriesBy(age: int): nat {
    if age < 200 then 0
    else if age < 600 then 1
    else if age < 1400 then 2
    else if age < 3000 then 3
    else if age < 6200 then 4
    else 5
  }

  function LastSentBy(age: int): nat {
    [0, 200, 600, 1400, 3000, 6200][RetriesBy(age)]
  }

  predicate GoesOutAt(age: int) {
    age in {200, 600, 1400, 3000, 6200}
  }

  /** The segments of an age at which they go out again, in order. */
  function OfThatAge(queue: seq<Pending>, now: nat): seq<Pending> {
    if queue == [] then []
    else (if GoesOutAt(now - queue[0].lastTx) then [queue[0]] else []) + OfThatAge(queue[1..], now)
  }

  /** A connection whose segments have been sent once each, the last of them now
      or a short while ago. */
  predicate Waits(c: Conn, t0: nat) {
    && c.state != Closed
    && forall i :: 0 <= i < |c.pending| ==> c.pending[i].retries == 0 && c.pending[i].lastTx <= t0 < c.pending[i].lastTx + 200
  }

  /** No segment has reached that age. */
  predicate AllYounger(queue: seq<Pending>, now: nat, age: nat) {
    forall i :: 0 <= i < |queue| ==> now < queue[i].lastTx + age
  }

  function Aged(p: Pending, now: nat): Pending {
    p.(lastTx := p.lastTx + LastSentBy(now - p.lastTx), retries := RetriesBy(now - p.lastTx))
  }

  function AgedQueue(queue: seq<Pending>, now: nat): seq<Pending> {
    seq(|queue|, i requires 0 <= i < |queue| => Aged(queue[i], now))
  }

  lemma OneTick(p: Pending, now: nat)
    requires p.retries == 0 && p.lastTx < now <= p.lastTx + 9400
    ensures
      var q := Aged(p, now - 1);
      && (Retransmits(q, now) <==> GoesOutAt(now - p.lastTx))
      && (GivesUp(q, now) <==> now == p.lastTx + 9400)
      && (now < p.lastTx + 9400 ==> TickSegment(q, now) == Aged(p, now))
  {
    TimedOutIsDue(Aged(p, now - 1), now);
  }

  lemma AgedNone(now: nat)
    ensures AgedQueue([], now) == []
  {
  }

  lemma AgedFirst(p: Pending, later: seq<Pending>, now: nat)
    ensures AgedQueue([p] + later, now) == [Aged(p, now)] + AgedQueue(later, now)
  {
    hide Aged;
  }

  lemma NotYetOld(c: Conn, t0: nat)
    requires Waits(c, t0)
    ensures AllYounger(c.pending, t0, 9400)
  {
  }

  lemma YoungerBefore(queue: seq<Pending>, now: nat)
    requires now > 0
    ensures AllYounger(queue, now, 9400) ==> AllYounger(queue, now - 1, 9400)
  {
  }

  lemma {:induction false} DueGoOut(queue: seq<Pending>, now: nat)
    requires now > 0
    requires forall i :: 0 <= i < |queue| ==> queue[i].retries == 0 && queue[i].lastTx < now <= queue[i].lastTx + 9400
    ensures Resent(AgedQueue(queue, now - 1), now) ==
            AgedQueue(OfThatAge(queue, now), now - 1)
  {
    hide GoesOutAt, Aged, AgedQueue, Retransmits;
    AgedNone(now - 1);
    if queue != [] {
      var p, later := queue[0], queue[1..];
      assert queue == [p] + later;
      OneTick(p, now);
      DueGoOut(later, now);
      AgedFirst(p, later, now - 1);
      AgedFirst(p, OfThatAge(later, now), now - 1);
      var aged := AgedQueue(queue, now - 1);
      assert aged[0] == Aged(p, now - 1) && aged[1..] == AgedQueue(later, now - 1);
      assert Resent(aged, now) == (if Retransmits(aged[0], now) then [aged[0]] else []) + Resent(aged[1..], now);
      assert [] + OfThatAge(later, now) == OfThatAge(later, now);
    }
  }

  lemma {:induction false} WaitingState(c: Conn, t0: nat, elapsed: nat)
    requires Waits(c, t0) && AllYounger(c.pending, t0 + elapsed, 9400)
    ensures AfterTicks(c, t0, elapsed) == Some(c.(pending := AgedQueue(c.pending, t0 + elapsed)))
  {
    if elapsed == 0 {
      assert AgedQueue(c.pending, t0) == c.pending;
    } else {
      WaitingState(c, t0, elapsed - 1);
      TickOnce(c, t0, elapsed);
    }
  }

  lemma TickOnce(c: Conn, t0: nat, elapsed: nat)
    requires Waits(c, t0) && elapsed > 0 && AllYounger(c.pending, t0 + elapsed - 1, 9400)
    ensures
      var now := t0 + elapsed;
      var c0 := c.(pending := AgedQueue(c.pending, now - 1));
      var (c1, sent) := Tick(c0, now);
      && c1.Some?
      && (AllYounger(c.pending, now, 9400) ==> c1.value == c.(pending := AgedQueue(c.pending, now)))
      && (!AllYounger(c.pending, now, 9400) ==> c1.value.state == Closed)
      && sent == AgedQueue(OfThatAge(c.pending, now), now - 1)
  {
    hide TickSegment, GivesUp, Aged, GoesOutAt;
    var now := t0 + elapsed;
    var aged := AgedQueue(c.pending, now - 1);
    DueGoOut(c.pending, now);
    forall i | 0 <= i < |c.pending|
      ensures GivesUp(aged[i], now) <==> now == c.pending[i].lastTx + 9400
      ensures now < c.pending[i].lastTx + 9400 ==> TickSegment(aged[i], now) == Aged(c.pending[i], now)
    {
      OneTick(c.pending[i], now);
    }
    if AllYounger(c.pending, now, 9400) {
      assert TickQueue(aged, now) == AgedQueue(c.pending, now);
    } else {
      var i :| 0 <= i < |c.pending| && now >= c.pending[i].lastTx + 9400;
      assert GivesUp(aged[i], now);
    }
  }

  /** Whatever the queue: a segment that nobody acknowledges goes out again when it
      is exactly 200, 600, 1400, 3000 and 6200 ticks old, each time with its
      sequence number, flags and data, and those that go out at one tick do so in
      order. The connection stays as it is until its oldest segment is 9400 ticks
      old, is closed then and dropped at the next tick. */
  lemma {:induction false} UnansweredQueue(c: Conn, t0: nat, elapsed: nat)
    requires Waits(c, t0) && elapsed > 0
    ensures AllYounger(c.pending, t0 + elapsed - 1, 9400) ==>
      var sent, due := SentAt(c, t0, elapsed), OfThatAge(c.pending, t0 + elapsed);
      && |sent| == |due|
      && forall k :: 0 <= k < |due| ==>
           sent[k].seqNo == due[k].seqNo && sent[k].data == due[k].data && sent[k].flags == due[k].flags
    ensures AllYounger(c.pending, t0 + elapsed, 9400) ==>
      var c' := AfterTicks(c, t0, elapsed);
      c'.Some? && c'.value == c.(pending := c'.value.pending) && |c'.value.pending| == |c.pending|
    ensures AllYounger(c.pending, t0 + elapsed - 1, 9400) && !AllYounger(c.pending, t0 + elapsed, 9400) ==>
      AfterTicks(c, t0, elapsed).Some? && AfterTicks(c, t0, elapsed).value.state == Closed
    ensures !AllYounger(c.pending, t0 + elapsed - 1, 9400) ==>
      AfterTicks(c, t0, elapsed).None? && SentAt(c, t0, elapsed) == []
    decreases elapsed
  {
    hide Tick, OfThatAge, AgedQueue, AllYounger;
    NotYetOld(c, t0);
    YoungerBefore(c.pending, t0 + elapsed);
    OnlyTimes(c.pending, t0 + elapsed);
    OnlyTimes(OfThatAge(c.pending, t0 + elapsed), t0 + elapsed - 1);
    if AllYounger(c.pending, t0 + elapsed - 1, 9400) {
      WaitingState(c, t0, elapsed - 1);
      TickOnce(c, t0, elapsed);
    } else {
      UnansweredQueue(c, t0, elapsed - 1);
      if AfterTicks(c, t0, elapsed - 1).Some? { ClosedIsDropped(AfterTicks(c, t0, elapsed - 1).value, t0 + elapsed); }
    }
  }

  lemma OnlyTimes(queue: seq<Pending>, now: nat)
    ensures
      var aged := AgedQueue(queue, now);
      && |aged| == |queue|
      && forall k :: 0 <= k < |queue| ==>
           aged[k].seqNo == queue[k].seqNo && aged[k].data == queue[k].data && aged[k].flags == queue[k].flags
  {
  }

  lemma ClosedIsDropped(c: Conn, now: nat)
    requires c.state == Closed
    ensures Tick(c, now) == (None, [])
  {
  }
}
