/**
 The send side over whole runs: the queue of unacknowledged segments tiles the
 send space, whatever the peer answers and whenever the timer fires.
 */
module TcpSend {
  import opened Wrappers
  import opened Tcp

  // ---- 32-bit comparisons and unbounded positions -------------------------

  /** The wrapped comparison is the comparison of positions, for positions less
      than half the sequence space apart. */
  lemma SeqLtIsLess(x: int, y: int)
    requires -HALF <= x - y < HALF
    ensures SeqLt(Wrap(x), Wrap(y)) <==> x < y
    ensures SeqLe(Wrap(x), Wrap(y)) <==> x <= y
  {
    WrapDifference(x, y);
    if Wrap(x) == Wrap(y) { assert x == y; }
  }

  lemma WrapDifference(x: int, y: int)
    ensures (Wrap(x) - Wrap(y)) % MODULUS == (x - y) % MODULUS
  {
    var i, j := x / MODULUS, y / MODULUS;
    assert x - y == (Wrap(x) - Wrap(y)) + MODULUS * (i - j);
    ModAddMultiple(Wrap(x) - Wrap(y), i - j);
  }

  lemma ModAddMultiple(a: int, k: int)
    ensures (a + MODULUS * k) % MODULUS == a % MODULUS
  {
  }

  lemma WrapAdd(x: int, n: int)
    ensures WrappingAdd(Wrap(x), n) == Wrap(x + n)
  {
    var k := x / MODULUS;
    assert x + n == Wrap(x) + n + MODULUS * k;
    ModAddMultiple(Wrap(x) + n, k);
  }

  /** Positions less than the sequence space apart have equal numbers only if
      they are equal. */
  lemma WrapIsInjective(x: int, y: int)
    requires -MODULUS < x - y < MODULUS
    ensures Wrap(x) == Wrap(y) <==> x == y
  {
    WrapDifference(x, y);
  }

  /** How far an acknowledgement number lies ahead of `sndUna`. */
  function AckDistance(una: SeqNum, ackNo: SeqNum): nat {
    (ackNo - una) % MODULUS
  }

  /** The code takes an acknowledgement exactly when it lies in the send window,
      or half the sequence space ahead of an empty one. */
  lemma AckWindow(position: nat, outstanding: nat, ackNo: SeqNum)
    requires outstanding < HALF
    ensures
      var una, nxt := Wrap(position), Wrap(position + outstanding);
      var d := AckDistance(una, ackNo);
      && ackNo == Wrap(position + d)
      && (SeqLt(una, ackNo) && SeqLe(ackNo, nxt) <==>
            1 <= d <= outstanding || (outstanding == 0 && d == HALF))
  {
    hide Wrap, SeqLt, SeqLe;
    AckPosition(position, ackNo);
    var d := AckDistance(Wrap(position), ackNo);
    AheadBy(position, d);
    if d <= HALF { NotBeyond(position, d, outstanding); }
  }

  lemma AckPosition(position: nat, ackNo: SeqNum)
    ensures ackNo == Wrap(position + AckDistance(Wrap(position), ackNo))
  {
    var una := Wrap(position);
    var d := AckDistance(una, ackNo);
    WrapAdd(position, d);
    var k := (ackNo - una) / MODULUS;
    assert una + d == ackNo + MODULUS * (-k);
    ModAddMultiple(ackNo, -k);
  }

  lemma AheadBy(x: int, d: nat)
    requires d < MODULUS
    ensures SeqLt(Wrap(x), Wrap(x + d)) <==> 1 <= d <= HALF
  {
    WrapDifference(x, x + d);
  }

  lemma NotBeyond(x: int, d: nat, o: nat)
    requires d <= HALF && o < HALF
    ensures SeqLe(Wrap(x + d), Wrap(x + o)) <==> d <= o || d - o == HALF
  {
    WrapDifference(x + d, x + o);
    WrapIsInjective(x + d, x + o);
  }

  // ---- Runs ---------------------------------------------------------------

  datatype Event =
    | SendData(data: seq<Byte>, now: nat)
    | CloseConn(now: nat)
    | Segment(hdr: Header, options: seq<Byte>, data: seq<Byte>)
    | ReadData(space: nat)
    | Timer(now: nat)

  /** A connection together with what it has been through: the position of
      `sndUna` counted from the SYN, the bytes accepted from the application
      and whether a FIN has been queued. */
  datatype World = World(conn: Conn, una: nat, accepted: seq<Byte>, finQueued: bool) {
    /** The position of `sndNxt`. */
    function Nxt(): nat {
      1 + |accepted| + if finQueued then 1 else 0
    }

    function Outstanding(): int { Nxt() - una }
  }

  function Begin(iss: SeqNum, now: nat): World {
    World(Connect(iss, now), 0, [], false)
  }

  /** The connection after one event. A closed connection that the timer drops
      is not touched again. */
  function StepConn(c: Conn, ev: Event): Conn
    requires c.mss > 0
  {
    match ev
    case SendData(data, now) => Send(c, data, now).0
    case CloseConn(now) => Close(c, now).0
    case Segment(hdr, options, data) => Process(c, hdr, options, data).conn
    case ReadData(space) => Read(c, space).0
    case Timer(now) =>
      var t := Tick(c, now).0;
      if t.Some? then t.value else c
  }

  function Next(w: World, ev: Event): World
    requires w.conn.mss > 0
  {
    var c := StepConn(w.conn, ev);
    match ev
    case SendData(data, now) =>
      w.(conn := c, accepted := if Send(w.conn, data, now).1.Ok? then w.accepted + data else w.accepted)
    case CloseConn(now) =>
      w.(conn := c, finQueued := w.finQueued || Close(w.conn, now).1.Ok?)
    case Segment(_, _, _) =>
      w.(conn := c, una := w.una + AckDistance(w.conn.sndUna, c.sndUna))
    case _ =>
      w.(conn := c)
  }

  /** The stray acknowledgement that the code mistakes for a new one. */
  predicate HalfSpaceAck(c: Conn, hdr: Header) {
    hdr.flags.ack && c.sndUna == c.sndNxt && hdr.ackNo == WrappingAdd(c.sndUna, HALF)
  }

  /** Less than half the sequence space is ever outstanding, and no stray
      acknowledgement is exactly half of it away. */
  predicate Admissible(w: World, ev: Event) {
    match ev
    case SendData(data, _) => w.Outstanding() + |data| + 1 < HALF
    case Segment(hdr, _, _) => !HalfSpaceAck(w.conn, hdr)
    case _ => true
  }

  // ---- The invariant ------------------------------------------------------

  function TotalLen(pending: seq<Pending>): nat {
    if pending == [] then 0 else pending[0].seqLen + TotalLen(pending[1..])
  }

  /** What a segment at position `at` must carry. */
  predicate Carries(p: Pending, at: nat, accepted: seq<Byte>, finQueued: bool) {
    if at == 0 then
      p.seqLen == 1 && p.data == [] && p.flags.syn && !p.flags.fin
    else if at == 1 + |accepted| then
      finQueued && p.seqLen == 1 && p.data == [] && p.flags.fin && !p.flags.syn
    else
      && 0 < p.seqLen && at + p.seqLen <= 1 + |accepted|
      && p.data == accepted[at - 1..at - 1 + p.seqLen] && !p.flags.fin && !p.flags.syn
  }

  /** The queue covers the positions from `at` to `end` without gap or overlap. */
  predicate Tiles(pending: seq<Pending>, iss: SeqNum, at: nat, end: nat, accepted: seq<Byte>, finQueued: bool) {
    if pending == [] then at == end
    else
      && at < end
      && pending[0].seqNo == Wrap(iss + at)
      && Carries(pending[0], at, accepted, finQueued)
      && Tiles(pending[1..], iss, at + pending[0].seqLen, end, accepted, finQueued)
  }

  /** Where the queue begins. */
  function Start(w: World): int {
    w.Nxt() - TotalLen(w.conn.pending)
  }

  predicate QueueInvariant(w: World) {
    && 0 <= Start(w) <= w.una <= w.Nxt()
    && Tiles(w.conn.pending, w.conn.iss, Start(w), w.Nxt(), w.accepted, w.finQueued)
    && (w.conn.pending == [] ==> w.una == w.Nxt())
    && (w.conn.pending != [] ==> w.una < Start(w) + w.conn.pending[0].seqLen)
  }

  predicate StateInvariant(w: World) {
    && (w.conn.state == SynSent ==> w.una == 0 && w.accepted == [] && !w.finQueued)
    && (w.conn.state != SynSent && w.conn.state != Closed ==> w.una > 0)
    && (w.conn.state == Established || w.conn.state == CloseWait ==> !w.finQueued)
    && (w.conn.state in {FinWait1, FinWait2, LastAck, TimeWait} ==> w.finQueued)
    && (w.conn.state == FinWait1 ==> w.conn.pending != [])
    && (w.conn.state == FinWait2 ==> w.conn.pending == [])
  }

  predicate SendInvariant(w: World) {
    && w.conn.mss > 0
    && w.conn.sndUna == Wrap(w.conn.iss + w.una)
    && w.conn.sndNxt == Wrap(w.conn.iss + w.Nxt())
    && w.Outstanding() < HALF
    && (!w.finQueued ==> w.Outstanding() + 1 < HALF)
    && QueueInvariant(w)
    && StateInvariant(w)
  }

  // ---- Lemmas about tilings -----------------------------------------------

  lemma {:induction false} TotalLenAppend(a: seq<Pending>, p: Pending)
    ensures TotalLen(a + [p]) == TotalLen(a) + p.seqLen
  {
    if a != [] {
      assert (a + [p])[1..] == a[1..] + [p];
      TotalLenAppend(a[1..], p);
    }
  }

  lemma {:induction false} TilesLen(pending: seq<Pending>, iss: SeqNum, at: nat, end: nat, accepted: seq<Byte>, fin: bool)
    requires Tiles(pending, iss, at, end, accepted, fin)
    ensures at + TotalLen(pending) == end
    decreases |pending|
  {
    if pending != [] { TilesLen(pending[1..], iss, at + pending[0].seqLen, end, accepted, fin); }
  }

  /** Accepting more bytes, or the FIN, does not disturb what is queued. */
  lemma {:induction false} TilesGrow(pending: seq<Pending>, iss: SeqNum, at: nat, end: nat,
                                     accepted: seq<Byte>, fin: bool, more: seq<Byte>, fin': bool)
    requires Tiles(pending, iss, at, end, accepted, fin) && !fin && end <= 1 + |accepted|
    ensures Tiles(pending, iss, at, end, accepted + more, fin')
    decreases |pending|
  {
    if pending != [] {
      TilesLen(pending[1..], iss, at + pending[0].seqLen, end, accepted, fin);
      TilesGrow(pending[1..], iss, at + pending[0].seqLen, end, accepted, fin, more, fin');
    }
  }

  lemma {:induction false} TilesAppend(pending: seq<Pending>, p: Pending, iss: SeqNum, at: nat, end: nat,
                                       accepted: seq<Byte>, fin: bool)
    requires Tiles(pending, iss, at, end, accepted, fin)
    requires p.seqNo == Wrap(iss + end) && Carries(p, end, accepted, fin)
    ensures Tiles(pending + [p], iss, at, end + p.seqLen, accepted, fin)
    decreases |pending|
  {
    if pending != [] {
      assert (pending + [p])[1..] == pending[1..] + [p];
      TilesLen(pending[1..], iss, at + pending[0].seqLen, end, accepted, fin);
      TilesAppend(pending[1..], p, iss, at + pending[0].seqLen, end, accepted, fin);
    }
  }

  /** An acknowledgement removes exactly the segments that end at or before it. */
  lemma {:induction false} AckTrims(pending: seq<Pending>, iss: SeqNum, at: nat, end: nat,
                                    accepted: seq<Byte>, fin: bool, una: nat, ack: nat)
    requires Tiles(pending, iss, at, end, accepted, fin)
    requires at <= ack && una <= ack <= end && end - una < HALF
    requires pending != [] ==> una < at + pending[0].seqLen
    ensures
      var left := Unacked(pending, Wrap(iss + ack));
      var from := end - TotalLen(left);
      && at <= from <= ack && Tiles(left, iss, from, end, accepted, fin)
      && (left == [] ==> ack == end)
      && (left != [] ==> ack < from + left[0].seqLen)
    decreases |pending|
  {
    hide Wrap, WrappingAdd, SeqLt, Carries;
    if pending != [] {
      var next := at + pending[0].seqLen;
      TilesLen(pending, iss, at, end, accepted, fin);
      WrapAdd(iss + at, pending[0].seqLen);
      SeqLtIsLess(iss + ack, iss + next);
      if ack < next {
        AckKeeps(pending[1..], iss, next, end, accepted, fin, ack);
        assert [pending[0]] + pending[1..] == pending;
      } else {
        AckTrims(pending[1..], iss, next, end, accepted, fin, una, ack);
      }
    }
  }

  lemma {:induction false} AckKeeps(pending: seq<Pending>, iss: SeqNum, at: nat, end: nat,
                                    accepted: seq<Byte>, fin: bool, ack: nat)
    requires Tiles(pending, iss, at, end, accepted, fin)
    requires ack < at && end - ack < HALF
    ensures Unacked(pending, Wrap(iss + ack)) == pending
    decreases |pending|
  {
    if pending != [] {
      var next := at + pending[0].seqLen;
      TilesLen(pending, iss, at, end, accepted, fin);
      WrapAdd(iss + at, pending[0].seqLen);
      SeqLtIsLess(iss + ack, iss + next);
      AckKeeps(pending[1..], iss, next, end, accepted, fin, ack);
    }
  }

  /** The FIN is the last segment: the queue holds no FIN only when it is empty. */
  lemma {:induction false} FinIsLast(pending: seq<Pending>, iss: SeqNum, at: nat, accepted: seq<Byte>)
    requires Tiles(pending, iss, at, 2 + |accepted|, accepted, true)
    ensures HasNoFin(pending) <==> pending == []
    decreases |pending|
  {
    if pending != [] {
      FinIsLast(pending[1..], iss, at + pending[0].seqLen, accepted);
      if pending[1..] == [] {
        assert pending[0].flags.fin;
      } else {
        var i :| 0 <= i < |pending[1..]| && pending[1..][i].flags.fin;
        assert pending[i + 1].flags.fin;
      }
    }
  }

  /** Only sequence number, data, flags and length of a segment matter. */
  lemma {:induction false} TilesIgnoreTimes(pending: seq<Pending>, other: seq<Pending>, iss: SeqNum, at: nat, end: nat,
                                            accepted: seq<Byte>, fin: bool)
    requires Tiles(pending, iss, at, end, accepted, fin)
    requires |other| == |pending|
    requires forall i :: 0 <= i < |pending| ==>
      other[i] == pending[i].(lastTx := other[i].lastTx, retries := other[i].retries)
    ensures Tiles(other, iss, at, end, accepted, fin)
    ensures TotalLen(other) == TotalLen(pending)
    decreases |pending|
  {
    if pending != [] {
      TilesIgnoreTimes(pending[1..], other[1..], iss, at + pending[0].seqLen, end, accepted, fin);
    }
  }

  // ---- Every step keeps the invariant -------------------------------------

  lemma BeginIsInvariant(iss: SeqNum, now: nat)
    ensures SendInvariant(Begin(iss, now))
  {
    var w := Begin(iss, now);
    assert w.conn.pending[1..] == [];
    assert TotalLen(w.conn.pending) == 1;
    WrapAdd(iss, 1);
  }

  lemma SendChunkKeeps(w: World, chunk: seq<Byte>, now: nat)
    requires SendInvariant(w) && w.conn.state == Established && chunk != []
    requires w.Outstanding() + |chunk| + 1 < HALF
    ensures SendInvariant(w.(conn := SendChunk(w.conn, chunk, now), accepted := w.accepted + chunk))
  {
    hide Wrap, WrappingAdd, Tiles, TotalLen;
    var w' := w.(conn := SendChunk(w.conn, chunk, now), accepted := w.accepted + chunk);
    var p := Pending(w.conn.sndNxt, chunk, PSH_ACK, |chunk|, now, 0);
    EmptyQueue(w.conn.pending, w.conn.iss, Start(w), w.Nxt(), w.accepted, w.finQueued);
    WrapAdd(w.conn.iss + w.Nxt(), |chunk|);
    TotalLenAppend(w.conn.pending, p);
    TilesGrow(w.conn.pending, w.conn.iss, Start(w), w.Nxt(), w.accepted, false, chunk, false);
    TilesAppend(w.conn.pending, p, w.conn.iss, Start(w), w.Nxt(), w'.accepted, false);
  }

  lemma {:induction false} SendChunksKeeps(w: World, data: seq<Byte>, now: nat)
    requires SendInvariant(w) && w.conn.state == Established
    requires w.Outstanding() + |data| + 1 < HALF
    ensures SendInvariant(w.(conn := SendChunks(w.conn, data, now), accepted := w.accepted + data))
    decreases |data|
  {
    hide QueueInvariant, Wrap, WrappingAdd;
    if data == [] {
      assert w.accepted + data == w.accepted;
    } else {
      var n := Min(|data|, w.conn.mss);
      var w' := w.(conn := SendChunk(w.conn, data[..n], now), accepted := w.accepted + data[..n]);
      SendChunkKeeps(w, data[..n], now);
      SendChunksKeeps(w', data[n..], now);
      assert w'.accepted + data[n..] == w.accepted + data;
    }
  }

  lemma CloseKeeps(w: World, now: nat)
    requires SendInvariant(w)
    ensures SendInvariant(Next(w, CloseConn(now)))
  {
    hide Wrap, WrappingAdd, Tiles, TotalLen;
    if w.conn.state == Established || w.conn.state == CloseWait {
      var p := Pending(w.conn.sndNxt, [], FIN_ACK, 1, now, 0);
      WrapAdd(w.conn.iss + w.Nxt(), 1);
      TotalLenAppend(w.conn.pending, p);
      TilesGrow(w.conn.pending, w.conn.iss, Start(w), w.Nxt(), w.accepted, false, [], true);
      assert w.accepted + [] == w.accepted;
      TilesAppend(w.conn.pending, p, w.conn.iss, Start(w), w.Nxt(), w.accepted, true);
      EmptyQueue(w.conn.pending, w.conn.iss, Start(w), w.Nxt(), w.accepted, w.finQueued);
    }
  }

  lemma EmptyQueue(pending: seq<Pending>, iss: SeqNum, at: nat, end: nat, accepted: seq<Byte>, fin: bool)
    requires Tiles(pending, iss, at, end, accepted, fin)
    ensures pending == [] ==> at == end
  {
  }

  lemma TimesOnly(pending: seq<Pending>, now: nat)
    ensures
      var other := TickQueue(pending, now);
      && |other| == |pending|
      && (forall i :: 0 <= i < |pending| ==>
            other[i] == pending[i].(lastTx := other[i].lastTx, retries := other[i].retries))
  {
  }

  lemma TickKeeps(w: World, now: nat)
    requires SendInvariant(w)
    ensures SendInvariant(Next(w, Timer(now)))
  {
    hide Wrap, Tiles, TotalLen, TickSegment;
    if w.conn.state != Closed {
      TimesOnly(w.conn.pending, now);
      TilesIgnoreTimes(w.conn.pending, TickQueue(w.conn.pending, now), w.conn.iss, Start(w), w.Nxt(),
                       w.accepted, w.finQueued);
    }
  }

  /** The world after the acknowledgement part of a segment. */
  function AfterAck(w: World, hdr: Header): World {
    var c := ProcessAck(w.conn, hdr);
    w.(conn := c, una := w.una + AckDistance(w.conn.sndUna, c.sndUna))
  }

  lemma AckMovesForward(w: World, hdr: Header)
    requires SendInvariant(w) && IsSynchronised(w.conn.state) && !HalfSpaceAck(w.conn, hdr) && AckAdvances(w.conn, hdr)
    ensures
      var w' := AfterAck(w, hdr);
      w.una < w'.una <= w.Nxt() && w'.conn.sndUna == Wrap(w.conn.iss + w'.una)
  {
    hide Wrap, WrappingAdd, SeqLt, SeqLe, AckDistance, QueueInvariant, StateInvariant;
    UnaIsSent(w);
    AckWindow(w.conn.iss + w.una, w.Outstanding(), hdr.ackNo);
    WrapAdd(w.conn.iss + w.una, HALF);
  }

  lemma UnaIsSent(w: World)
    requires QueueInvariant(w)
    ensures w.una <= w.Nxt()
  {
  }

  lemma AckKeepsQueue(w: World, hdr: Header)
    requires SendInvariant(w) && IsSynchronised(w.conn.state) && !HalfSpaceAck(w.conn, hdr) && AckAdvances(w.conn, hdr)
    ensures QueueInvariant(AfterAck(w, hdr)) && StateInvariant(AfterAck(w, hdr))
  {
    hide Wrap, AckDistance, Tiles, TotalLen, Unacked, HasNoFin, AckAdvances;
    var w' := AfterAck(w, hdr);
    AckMovesForward(w, hdr);
    AckTrims(w.conn.pending, w.conn.iss, Start(w), w.Nxt(), w.accepted, w.finQueued, w.una, w'.una);
    if w.finQueued {
      FinIsLast(w'.conn.pending, w.conn.iss, Start(w'), w.accepted);
    }
  }

  lemma AcknowledgementKeeps(w: World, hdr: Header)
    requires SendInvariant(w) && IsSynchronised(w.conn.state) && !HalfSpaceAck(w.conn, hdr)
    ensures SendInvariant(AfterAck(w, hdr))
  {
    if AckAdvances(w.conn, hdr) {
      hide Wrap, AckDistance, QueueInvariant, StateInvariant, Unacked, HasNoFin;
      AckMovesForward(w, hdr);
      AckKeepsQueue(w, hdr);
    } else {
      assert AckDistance(w.conn.sndUna, w.conn.sndUna) == 0;
      assert AfterAck(w, hdr) == w;
    }
  }

  /** A segment changes the send side through its acknowledgement only. */
  lemma SegmentKeeps(w: World, hdr: Header, options: seq<Byte>, data: seq<Byte>)
    requires SendInvariant(w) && !HalfSpaceAck(w.conn, hdr)
    ensures SendInvariant(Next(w, Segment(hdr, options, data)))
  {
    hide SendInvariant, AckDistance, ProcessAck, ProcessData, ProcessFin, ProcessSynAck;
    NoDistance(w.conn.sndUna);
    if hdr.flags.rst {
      ClosedKeeps(w);
    } else if w.conn.state == SynSent {
      SynAckKeeps(w, hdr, options);
    } else if IsSynchronised(w.conn.state) {
      AcknowledgementKeeps(w, hdr);
      ReceivingKeeps(AfterAck(w, hdr), hdr, data);
    } else {
      ClosedKeeps(w);
    }
  }

  lemma NoDistance(s: SeqNum)
    ensures AckDistance(s, s) == 0
  {
  }

  lemma ClosedKeeps(w: World)
    requires SendInvariant(w)
    ensures SendInvariant(w.(conn := w.conn.(state := Closed))) && w.(conn := w.conn) == w
  {
    hide Wrap, Tiles, TotalLen;
  }

  lemma ReceivingKeeps(w: World, hdr: Header, data: seq<Byte>)
    requires SendInvariant(w)
    ensures
      var c := ProcessFin(ProcessData(w.conn, hdr, data), hdr, data);
      c.sndUna == w.conn.sndUna && SendInvariant(w.(conn := c))
  {
    hide Wrap, Tiles, TotalLen, WrappingAdd, HasNoFin;
  }

  lemma SynAckKeeps(w: World, hdr: Header, options: seq<Byte>)
    requires SendInvariant(w) && w.conn.state == SynSent
    ensures
      var c := ProcessSynAck(w.conn, hdr, options).conn;
      SendInvariant(w.(conn := c, una := w.una + AckDistance(w.conn.sndUna, c.sndUna)))
  {
    var c := ProcessSynAck(w.conn, hdr, options).conn;
    if c.state == Established {
      WrapAdd(w.conn.iss, 1);
      AckPosition(w.conn.iss, c.sndUna);
      WrapIsInjective(w.conn.iss + AckDistance(w.conn.sndUna, c.sndUna), w.conn.iss + 1);
      var p := w.conn.pending;
      assert Start(w) == 0 && p != [] && p[0].flags.syn;
      assert Tiles(p[1..], w.conn.iss, 1, 1, w.accepted, w.finQueued);
      assert p[1..] == [] && WithoutSyn(p[1..]) == [];
      assert c.pending == [];
    }
  }

  // ---- Theorems about every run -------------------------------------------

  lemma StepKeeps(w: World, ev: Event)
    requires SendInvariant(w) && Admissible(w, ev)
    ensures SendInvariant(Next(w, ev))
  {
    match ev
    case SendData(data, now) =>
      if data == [] {
        assert w.accepted + data == w.accepted;
      } else if w.conn.state == Established {
        SendChunksKeeps(w, data, now);
      }
    case CloseConn(now) => CloseKeeps(w, now);
    case Segment(hdr, options, data) => SegmentKeeps(w, hdr, options, data);
    case ReadData(space) =>
    case Timer(now) => TickKeeps(w, now);
  }

  /** The world that a sequence of admissible events leads to. */
  ghost predicate Leads(w: World, events: seq<Event>, w': World)
    decreases |events|
  {
    if events == [] then w == w'
    else w.conn.mss > 0 && Admissible(w, events[0]) && Leads(Next(w, events[0]), events[1..], w')
  }

  lemma {:induction false} RunKeeps(w: World, events: seq<Event>, w': World)
    requires SendInvariant(w) && Leads(w, events, w')
    ensures SendInvariant(w')
    decreases |events|
  {
    if events != [] {
      StepKeeps(w, events[0]);
      RunKeeps(Next(w, events[0]), events[1..], w');
    }
  }

  /** In every run, from the SYN on: each queued segment ends where the next
      begins and the last one ends at `sndNxt`; the queue is empty exactly when
      everything is acknowledged; every accepted byte that is not acknowledged
      is queued at its own sequence number; and in FinWait2 nothing is queued. */
  lemma EveryRunTilesTheSendSpace(iss: SeqNum, now: nat, events: seq<Event>, w: World)
    requires Leads(Begin(iss, now), events, w)
    ensures
      var c := w.conn;
      && (forall i :: 0 <= i < |c.pending| - 1 ==> c.pending[i].End() == c.pending[i + 1].seqNo)
      && (c.pending != [] ==> c.pending[|c.pending| - 1].End() == c.sndNxt)
      && (c.pending == [] <==> c.sndUna == c.sndNxt)
      && (c.state == FinWait2 ==> c.pending == [])
      && (forall k :: w.una - 1 <= k < |w.accepted| && 0 <= k ==> IsQueued(w, k))
  {
    hide Tiles, Wrap, WrappingAdd, TotalLen, StateInvariant;
    BeginIsInvariant(iss, now);
    RunKeeps(Begin(iss, now), events, w);
    InvariantMeansTiling(w);
    forall k | w.una - 1 <= k < |w.accepted| && 0 <= k
      ensures IsQueued(w, k)
    {
      InvariantMeansQueued(w, k);
    }
  }

  /** Accepted byte `k` is queued at its own sequence number. */
  ghost predicate IsQueued(w: World, k: nat)
    requires k < |w.accepted|
  {
    var c := w.conn;
    exists i, j :: 0 <= i < |c.pending| && 0 <= j < |c.pending[i].data|
      && c.pending[i].data[j] == w.accepted[k]
      && WrappingAdd(c.pending[i].seqNo, j) == Wrap(c.iss + 1 + k)
  }

  lemma InvariantMeansTiling(w: World)
    requires SendInvariant(w)
    ensures
      var c := w.conn;
      && (forall i :: 0 <= i < |c.pending| - 1 ==> c.pending[i].End() == c.pending[i + 1].seqNo)
      && (c.pending != [] ==> c.pending[|c.pending| - 1].End() == c.sndNxt)
      && (c.pending == [] <==> c.sndUna == c.sndNxt)
      && (c.state == FinWait2 ==> c.pending == [])
  {
    var c := w.conn;
    TilesAreAdjacent(c.pending, c.iss, Start(w), w.Nxt(), w.accepted, w.finQueued);
    WrapIsInjective(c.iss + w.una, c.iss + w.Nxt());
    if c.pending != [] {
      TilesLen(c.pending[1..], c.iss, Start(w) + c.pending[0].seqLen, w.Nxt(), w.accepted, w.finQueued);
    }
  }

  lemma InvariantMeansQueued(w: World, k: nat)
    requires SendInvariant(w) && w.una - 1 <= k < |w.accepted|
    ensures IsQueued(w, k)
  {
    var i, j := ByteIsQueued(w.conn.pending, w.conn.iss, Start(w), w.Nxt(), w.accepted, w.finQueued, k);
  }

  lemma {:induction false} TilesAreAdjacent(pending: seq<Pending>, iss: SeqNum, at: nat, end: nat,
                                            accepted: seq<Byte>, fin: bool)
    requires Tiles(pending, iss, at, end, accepted, fin)
    ensures forall i :: 0 <= i < |pending| - 1 ==> pending[i].End() == pending[i + 1].seqNo
    ensures pending != [] ==> pending[|pending| - 1].End() == Wrap(iss + end)
    decreases |pending|
  {
    if pending != [] {
      var rest := pending[1..];
      WrapAdd(iss + at, pending[0].seqLen);
      TilesAreAdjacent(rest, iss, at + pending[0].seqLen, end, accepted, fin);
      forall i | 0 <= i < |pending| - 1
        ensures pending[i].End() == pending[i + 1].seqNo
      {
        if i > 0 { assert rest[i - 1].End() == rest[i].seqNo; }
      }
      if rest != [] { assert pending[|pending| - 1] == rest[|rest| - 1]; }
    }
  }

  /** The segment and the offset at which an unacknowledged byte is queued. */
  lemma {:induction false} ByteIsQueued(pending: seq<Pending>, iss: SeqNum, at: nat, end: nat,
                                        accepted: seq<Byte>, fin: bool, k: nat) returns (i: nat, j: nat)
    requires Tiles(pending, iss, at, end, accepted, fin)
    requires at <= k + 1 < end && k < |accepted|
    ensures i < |pending| && j < |pending[i].data|
    ensures pending[i].data[j] == accepted[k]
    ensures WrappingAdd(pending[i].seqNo, j) == Wrap(iss + 1 + k)
    decreases |pending|
  {
    var next := at + pending[0].seqLen;
    if k + 1 < next {
      i, j := 0, k + 1 - at;
      WrapAdd(iss + at, j);
    } else {
      i, j := ByteIsQueued(pending[1..], iss, next, end, accepted, fin, k);
      i := i + 1;
    }
  }

  // ---- The acknowledgement that must not arrive ---------------------------

  /** In any state that a run can reach, processing an acknowledgement keeps
      "empty exactly when all is acknowledged" exactly when it is not half the
      sequence space ahead of an empty queue. */
  lemma AckIsSoundExactlyUnlessHalfSpace(w: World, hdr: Header)
    requires SendInvariant(w) && IsSynchronised(w.conn.state)
    ensures
      var c := ProcessAck(w.conn, hdr);
      (c.pending == [] <==> c.sndUna == c.sndNxt) <==> !HalfSpaceAck(w.conn, hdr)
  {
    var position := w.conn.iss + w.una;
    WrapIsInjective(position, w.conn.iss + w.Nxt());
    if HalfSpaceAck(w.conn, hdr) {
      WrapAdd(position, HALF);
      AheadBy(position, HALF);
      NotBeyond(position, HALF, 0);
      WrapIsInjective(position, position + HALF);
      assert w.conn.pending == [];
    } else {
      AcknowledgementKeeps(w, hdr);
      var w' := AfterAck(w, hdr);
      WrapIsInjective(w.conn.iss + w'.una, w.conn.iss + w.Nxt());
    }
  }

  /** A freshly established connection and such an acknowledgement. */
  lemma HalfSpaceAckExample()
    ensures
      var syn := Header(900, 101, Flags(false, true, false, false, true), 8192);
      var c := Process(Connect(100, 0), syn, [], []).conn;
      var stray := Header(901, 0x8000_0065, ACK, 8192);
      var c' := Process(c, stray, [], []).conn;
      c.state == Established && c'.pending == [] && c'.sndUna == 0x8000_0065 && c'.sndNxt == 101
  {
    var syn := Header(900, 101, Flags(false, true, false, false, true), 8192);
    var c0 := Connect(100, 0);
    assert c0.pending[1..] == [];
    var c := Process(c0, syn, [], []).conn;
    assert c.pending == [];
  }
}
