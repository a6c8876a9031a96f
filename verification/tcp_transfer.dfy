/**
 What becomes of data: how it is cut into segments, and how two connections that
 exchange them in order bring it across and take leave of each other.
 */
module TcpTransfer {
  import opened Wrappers
  import opened Tcp
  import opened TcpSend

  // ---- Cutting ------------------------------------------------------------

  /** The bytes that a queue carries. */
  function Payload(queue: seq<Pending>): seq<Byte> {
    if queue == [] then [] else queue[0].data + Payload(queue[1..])
  }

  /** A fresh segment of the data that began at `from`. */
  predicate IsChunk(p: Pending, from: SeqNum, offset: nat, now: nat) {
    p.seqNo == WrappingAdd(from, offset) && p.flags == PSH_ACK && p.seqLen == |p.data| && p.lastTx == now && p.retries == 0
  }

  /** Fresh segments of 1 to `mss` bytes, all but the last one full, numbered one
      after the other from `from` on. */
  predicate CutAtMss(queue: seq<Pending>, mss: nat, from: SeqNum, now: nat) {
    forall i :: 0 <= i < |queue| ==>
      && IsChunk(queue[i], from, i * mss, now)
      && 1 <= |queue[i].data| <= mss && (i < |queue| - 1 ==> |queue[i].data| == mss)
  }

  /** The data has been queued behind what was there. */
  predicate Queued(c: Conn, c': Conn, data: seq<Byte>, now: nat) {
    && |c.pending| <= |c'.pending| && c'.pending[..|c.pending|] == c.pending
    && Payload(c'.pending[|c.pending|..]) == data
    && CutAtMss(c'.pending[|c.pending|..], c.mss, c.sndNxt, now)
    && c' == c.(pending := c'.pending, sndNxt := WrappingAdd(c.sndNxt, |data|))
  }

  lemma AddTwice(s: SeqNum, m: nat, n: nat)
    ensures WrappingAdd(WrappingAdd(s, m), n) == WrappingAdd(s, m + n)
  {
    assert Wrap(s) == s;
    WrapAdd(s, m);
    WrapAdd(s + m, n);
    WrapAdd(s, m + n);
  }

  lemma {:induction false} ChunksAreCut(c: Conn, data: seq<Byte>, now: nat)
    requires c.mss > 0
    ensures Queued(c, SendChunks(c, data, now), data, now)
    decreases |data|
  {
    if data == [] {
      assert c.pending[|c.pending|..] == [];
      AddTwice(c.sndNxt, 0, 0);
    } else {
      var n := Min(|data|, c.mss);
      var c1 := SendChunk(c, data[..n], now);
      var c' := SendChunks(c1, data[n..], now);
      ChunksAreCut(c1, data[n..], now);
      OneMoreChunk(c, c1, c', data, n, now);
    }
  }

  lemma OneMoreChunk(c: Conn, c1: Conn, c': Conn, data: seq<Byte>, n: nat, now: nat)
    requires c.mss > 0 && data != [] && n == Min(|data|, c.mss) && c1 == SendChunk(c, data[..n], now)
    requires Queued(c1, c', data[n..], now)
    ensures Queued(c, c', data, now)
  {
    hide WrappingAdd;
    var queue, later := c'.pending[|c.pending|..], c'.pending[|c1.pending|..];
    var first := Pending(c.sndNxt, data[..n], PSH_ACK, n, now, 0);
    assert c1.pending == c.pending + [first];
    assert c'.pending[..|c.pending|] == c'.pending[..|c1.pending|][..|c.pending|];
    assert queue[0] == c'.pending[..|c1.pending|][|c.pending|] == first;
    assert queue[1..] == later;
    assert data[..n] + data[n..] == data;
    AddTwice(c.sndNxt, n, |data| - n);
    assert WrappingAdd(c.sndNxt, 0) == c.sndNxt by { ZeroMore(c.sndNxt); }
    forall i | 0 <= i < |queue|
      ensures IsChunk(queue[i], c.sndNxt, i * c.mss, now)
      ensures 1 <= |queue[i].data| <= c.mss && (i < |queue| - 1 ==> |queue[i].data| == c.mss)
    {
      if i > 0 {
        assert queue[i] == later[i - 1];
        assert |Payload(later)| >= |later[0].data|;
        AddTwice(c.sndNxt, n, (i - 1) * c.mss);
        assert c.mss + (i - 1) * c.mss == i * c.mss;
      } else if |queue| > 1 {
        assert later[0] == queue[1] && |Payload(later)| >= |later[0].data|;
      }
    }
  }

  lemma ZeroMore(s: SeqNum)
    ensures WrappingAdd(s, 0) == s
  {
  }

  /** Sending queues all of the data, cut at the MSS, behind what was queued; only
      an established connection sends, and no connection minds sending nothing. */
  lemma SendCutsAtMss(c: Conn, data: seq<Byte>, now: nat)
    requires c.mss > 0
    ensures
      var (c', r) := Send(c, data, now);
      if data == [] || c.state == Established then r == Ok(Unit) && Queued(c, c', data, now)
      else r == Err(NotConnected) && c' == c
  {
    ChunksAreCut(c, data, now);
    assert SendChunks(c, [], now) == c;
  }

  // ---- Delivering ---------------------------------------------------------

  /** A queued segment as it goes out. */
  function HeaderOf(c: Conn, p: Pending): Header {
    Header(p.seqNo, c.rcvNxt, p.flags, c.rcvWnd)
  }

  /** The receiver after the queued segments of `a` have come in order. */
  function Delivered(b: Conn, a: Conn, queue: seq<Pending>): Conn {
    if queue == [] then b
    else Process(Delivered(b, a, queue[..|queue| - 1]), HeaderOf(a, queue[|queue| - 1]), [], queue[|queue| - 1].data).conn
  }

  /** The acknowledgement that the receiver sends. */
  function Answer(b: Conn): Header {
    Header(b.sndNxt, b.rcvNxt, ACK, b.rcvWnd)
  }

  lemma {:induction false} PayloadAppend(queue: seq<Pending>, p: Pending)
    ensures Payload(queue + [p]) == Payload(queue) + p.data
  {
    if queue == [] {
      assert queue + [p] == [p];
    } else {
      assert (queue + [p])[1..] == queue[1..] + [p];
      PayloadAppend(queue[1..], p);
    }
  }

  /** How much full segments carry. */
  lemma {:induction false} PayloadIsFull(queue: seq<Pending>, mss: nat, n: nat)
    requires n <= |queue| && forall i :: 0 <= i < n ==> |queue[i].data| == mss
    ensures |Payload(queue[..n])| == n * mss
  {
    if n > 0 {
      PayloadIsFull(queue, mss, n - 1);
      assert queue[..n] == queue[..n - 1] + [queue[n - 1]];
      PayloadAppend(queue[..n - 1], queue[n - 1]);
    }
  }

  lemma {:induction false} PayloadGrows(queue: seq<Pending>, n: nat)
    requires n <= |queue|
    ensures |Payload(queue[..n])| <= |Payload(queue)|
    decreases |queue| - n
  {
    if n < |queue| {
      assert queue[..n + 1] == queue[..n] + [queue[n]];
      PayloadAppend(queue[..n], queue[n]);
      PayloadGrows(queue, n + 1);
    } else {
      assert queue[..n] == queue;
    }
  }

  /** The first `n` of these segments, received in order. */
  lemma {:induction false} ChunksArrive(a: Conn, b: Conn, queue: seq<Pending>, mss: nat, from: SeqNum, now: nat, n: nat)
    requires CutAtMss(queue, mss, from, now) && n <= |queue|
    requires b.state == Established && b.rcvNxt == from && a.rcvNxt == b.sndUna
    requires |b.recvBuf| + |Payload(queue)| <= RECV_BUF_LIMIT
    ensures
      var bytes := Payload(queue[..n]);
      Delivered(b, a, queue[..n]) == b.(recvBuf := b.recvBuf + bytes, rcvNxt := WrappingAdd(from, |bytes|))
    decreases n
  {
    hide WrappingAdd, SeqLt, SeqLe, CutAtMss;
    ZeroMore(from);
    if n > 0 {
      ChunksArrive(a, b, queue, mss, from, now, n - 1);
      ChunkArrives(a, b, queue, mss, from, now, n);
    }
  }

  lemma ChunkArrives(a: Conn, b: Conn, queue: seq<Pending>, mss: nat, from: SeqNum, now: nat, n: nat)
    requires CutAtMss(queue, mss, from, now) && 0 < n <= |queue|
    requires b.state == Established && a.rcvNxt == b.sndUna && |b.recvBuf| + |Payload(queue)| <= RECV_BUF_LIMIT
    requires
      var bytes := Payload(queue[..n - 1]);
      Delivered(b, a, queue[..n - 1]) == b.(recvBuf := b.recvBuf + bytes, rcvNxt := WrappingAdd(from, |bytes|))
    ensures
      var bytes := Payload(queue[..n]);
      Delivered(b, a, queue[..n]) == b.(recvBuf := b.recvBuf + bytes, rcvNxt := WrappingAdd(from, |bytes|))
  {
    hide WrappingAdd, Payload, Process;
    var p, rest := queue[n - 1], queue[..n - 1];
    assert queue[..n] == rest + [p] && queue[..n][..n - 1] == rest;
    PayloadAppend(rest, p);
    PayloadGrows(queue, n);
    PayloadIsFull(queue, mss, n - 1);
    assert IsChunk(p, from, (n - 1) * mss, now);
    AddTwice(from, |Payload(rest)|, |p.data|);
    DataTaken(Delivered(b, a, rest), HeaderOf(a, p), p.data);
    assert b.recvBuf + Payload(rest) + p.data == b.recvBuf + (Payload(rest) + p.data);
  }

  lemma DataTaken(c: Conn, hdr: Header, data: seq<Byte>)
    requires c.state == Established && hdr.flags == PSH_ACK && hdr.ackNo == c.sndUna && hdr.seqNo == c.rcvNxt
    requires data != [] && |c.recvBuf| + |data| <= RECV_BUF_LIMIT
    ensures Process(c, hdr, [], data).conn == c.(recvBuf := c.recvBuf + data, rcvNxt := WrappingAdd(c.rcvNxt, |data|))
  {
    hide WrappingAdd, SeqLt, SeqLe, Unacked;
    NotAhead(c.sndUna);
    assert ProcessAck(c, hdr) == c;
    assert data[..|data|] == data;
  }

  // ---- Acknowledging ------------------------------------------------------

  /** An acknowledgement of all of these segments leaves none of them. */
  lemma {:induction false} AllAcknowledged(queue: seq<Pending>, mss: nat, from: SeqNum, now: nat, k: nat)
    requires CutAtMss(queue, mss, from, now) && k <= |queue| && |Payload(queue)| < HALF
    ensures Unacked(queue[k..], WrappingAdd(from, |Payload(queue)|)) == []
    decreases |queue| - k
  {
    if k < |queue| {
      AllAcknowledged(queue, mss, from, now, k + 1);
      assert queue[k..][1..] == queue[k + 1..] && queue[..k + 1] == queue[..k] + [queue[k]];
      PayloadIsFull(queue, mss, k);
      PayloadAppend(queue[..k], queue[k]);
      PayloadGrows(queue, k + 1);
      var end := k * mss + |queue[k].data|;
      AddTwice(from, k * mss, |queue[k].data|);
      SeqLtIsLess(from + |Payload(queue)|, from + end);
    }
  }

  lemma NotAhead(s: SeqNum)
    ensures !SeqLt(s, s)
  {
  }

  /** The answer to `n` positions is taken as such. */
  lemma AnswerAdvances(s: SeqNum, n: nat)
    requires 0 < n < HALF
    ensures SeqLt(s, WrappingAdd(s, n)) && SeqLe(WrappingAdd(s, n), WrappingAdd(s, n)) && WrappingAdd(s, n) != s
  {
    SeqLtIsLess(s, s + n);
  }

  // ---- Two connections ----------------------------------------------------

  /** Two established connections, each of which has all that the other sent and
      knows it. */
  predicate InTouch(a: Conn, b: Conn) {
    && a.state == Established && b.state == Established && a.mss > 0 && b.mss > 0
    && a.pending == [] && b.pending == [] && !a.peerFin && !b.peerFin
    && a.sndUna == a.sndNxt == b.rcvNxt && b.sndUna == b.sndNxt == a.rcvNxt
  }

  /** What one of them sends the other receives, if there is room for it, and
      after its answer they are in touch again. */
  lemma TransferArrives(a: Conn, b: Conn, data: seq<Byte>, now: nat)
    requires InTouch(a, b) && |b.recvBuf| + |data| <= RECV_BUF_LIMIT
    ensures
      var a1 := Send(a, data, now).0;
      var b1 := Delivered(b, a1, a1.pending);
      var a2 := Process(a1, Answer(b1), [], []).conn;
      && b1.recvBuf == b.recvBuf + data && b1 == b.(recvBuf := b1.recvBuf, rcvNxt := b1.rcvNxt)
      && a2.recvBuf == a.recvBuf && InTouch(a2, b1)
  {
    hide Send, WrappingAdd, SeqLt, SeqLe, Payload, CutAtMss, Unacked, Delivered, Process;
    SendCutsAtMss(a, data, now);
    var a1 := Send(a, data, now).0;
    var queue := a1.pending;
    assert queue[|a.pending|..] == queue && queue[..|queue|] == queue && queue[0..] == queue;
    ChunksArrive(a1, b, queue, a.mss, a.sndNxt, now, |queue|);
    AllAcknowledged(queue, a.mss, a.sndNxt, now, 0);
    if data == [] {
      ZeroMore(a.sndNxt);
      NotAhead(a.sndNxt);
      assert queue == [] by { NothingQueued(queue, a.mss, a.sndNxt, now); }
    } else {
      AnswerAdvances(a.sndNxt, |data|);
    }
    var b1 := Delivered(b, a1, queue);
    PureAnswer(a1, Answer(b1));
  }

  /** An acknowledgement without data does what its number says. */
  lemma PureAnswer(c: Conn, hdr: Header)
    requires IsSynchronised(c.state) && hdr.flags == ACK
    ensures Process(c, hdr, [], []).conn == ProcessAck(c, hdr)
  {
    hide WrappingAdd, SeqLt, SeqLe, Unacked;
    ZeroMore(c.rcvNxt);
    NoData(c.recvBuf);
  }

  lemma NoData(buffer: seq<Byte>)
    ensures buffer + [][..0] == buffer
  {
  }

  lemma NothingQueued(queue: seq<Pending>, mss: nat, from: SeqNum, now: nat)
    requires CutAtMss(queue, mss, from, now) && Payload(queue) == []
    ensures queue == []
  {
  }

  /** When one of them closes and then the other, each is told, the first ends in
      TimeWait and the second is closed, with nothing left to send. */
  lemma ReleaseCompletes(a: Conn, b: Conn, now: nat, later: nat)
    requires InTouch(a, b)
    ensures
      var a1 := Close(a, now).0;
      var b1 := Delivered(b, a1, a1.pending);
      var a2 := Process(a1, Answer(b1), [], []).conn;
      var b2 := Close(b1, later).0;
      var a3 := Delivered(a2, b2, b2.pending);
      var b3 := Process(b2, Answer(a3), [], []);
      && a1.state == FinWait1 && b1.state == CloseWait && b1.peerFin && b1.recvBuf == b.recvBuf
      && a2.state == FinWait2 && a2.pending == [] && b2.state == LastAck
      && a3.state == TimeWait && a3.peerFin && a3.pending == [] && a3.recvBuf == a.recvBuf
      && b3.conn.state == Closed && b3.notify == NowClosed
  {
    hide SendChunks, WrappingAdd, SeqLt, SeqLe;
    FinArrives(a, b, now);
    var a1 := Close(a, now).0;
    var b1 := Delivered(b, a1, a1.pending);
    FinAcknowledged(a1, Answer(b1));
    var a2 := Process(a1, Answer(b1), [], []).conn;
    FinArrives(b1, a2, later);
  }

  /** The FIN of `a` reaches `b`. */
  lemma FinArrives(a: Conn, b: Conn, now: nat)
    requires a.state in {Established, CloseWait} && b.state in {Established, FinWait2} && a.pending == []
    requires a.sndNxt == b.rcvNxt && a.rcvNxt == b.sndUna
    ensures
      var a1 := Close(a, now).0;
      var b1 := Delivered(b, a1, a1.pending);
      && b1 == b.(state := b1.state, peerFin := true, rcvNxt := a1.sndNxt)
      && b1.state == if b.state == Established then CloseWait else TimeWait
  {
    hide WrappingAdd, Process, Delivered;
    var a1 := Close(a, now).0;
    var fin := Pending(a.sndNxt, [], FIN_ACK, 1, now, 0);
    assert a1.pending == [fin];
    OneDelivered(b, a1, fin);
    FinTaken(b, HeaderOf(a1, fin));
  }

  lemma OneDelivered(b: Conn, a: Conn, p: Pending)
    ensures Delivered(b, a, [p]) == Process(b, HeaderOf(a, p), [], p.data).conn
  {
    hide Process;
    assert [p][..0] == [] && Delivered(b, a, []) == b;
  }

  lemma FinTaken(c: Conn, hdr: Header)
    requires c.state in {Established, FinWait2} && hdr.flags == FIN_ACK && hdr.ackNo == c.sndUna && hdr.seqNo == c.rcvNxt
    ensures Process(c, hdr, [], []).conn ==
            c.(state := if c.state == Established then CloseWait else TimeWait, peerFin := true,
               rcvNxt := WrappingAdd(c.rcvNxt, 1))
  {
    hide WrappingAdd, SeqLt, SeqLe, Unacked;
    NotAhead(c.sndUna);
    assert ProcessAck(c, hdr) == c;
    ZeroMore(c.rcvNxt);
    NoData(c.recvBuf);
  }

  lemma FinAcknowledged(a: Conn, hdr: Header)
    requires a.state == FinWait1 && |a.pending| == 1 && a.pending[0].seqNo == a.sndUna && a.pending[0].seqLen == 1
    requires a.sndNxt == WrappingAdd(a.sndUna, 1) && hdr.ackNo == a.sndNxt && hdr.flags == ACK
    ensures Process(a, hdr, [], []).conn == a.(state := FinWait2, pending := [], sndUna := a.sndNxt, sndWnd := hdr.window)
  {
    hide WrappingAdd, SeqLt, SeqLe;
    AnswerAdvances(a.sndUna, 1);
    NotAhead(a.sndNxt);
    PureAnswer(a, hdr);
    assert Unacked(a.pending, hdr.ackNo) == Unacked(a.pending[1..], hdr.ackNo) == [];
  }

  // ---- Opening ------------------------------------------------------------

  /** What a SYN may say besides: padding, the MSS, or something else. */
  datatype Told = Padding | Mss(value: nat) | Other(kind: Byte, body: seq<Byte>) {
    predicate Valid() {
      match this
      case Padding => true
      case Mss(value) => value < 0x1_0000
      case Other(kind, body) => kind > 1 && |body| < 254 && !(kind == 2 && |body| == 2)
    }

    function Bytes(): seq<Byte>
      requires Valid()
    {
      match this
      case Padding => [1]
      case Mss(value) => [2, 4, value / 256, value % 256]
      case Other(kind, body) => [kind, |body| + 2] + body
    }
  }

  function OptionBytes(told: seq<Told>): seq<Byte>
    requires forall i :: 0 <= i < |told| ==> told[i].Valid()
  {
    if told == [] then [] else told[0].Bytes() + OptionBytes(told[1..])
  }

  /** The MSS that was told first, or the default. */
  function ToldMss(told: seq<Told>): nat {
    if told == [] then DEFAULT_MSS else if told[0].Mss? then told[0].value else ToldMss(told[1..])
  }

  /** The options are the bytes of these, up to the end or to a zero byte. */
  predicate Tells(options: seq<Byte>, from: nat, told: seq<Told>) {
    && (forall i :: 0 <= i < |told| ==> told[i].Valid())
    && from <= |options| && OptionBytes(told) <= options[from..]
    && (|options| > from + |OptionBytes(told)| ==> options[from + |OptionBytes(told)|] == 0)
  }

  /** Whatever comes before it, the MSS is found. */
  lemma {:induction false} MssIsFound(options: seq<Byte>, from: nat, told: seq<Told>)
    requires Tells(options, from, told)
    ensures ParseMss(options, from) == ToldMss(told)
    decreases |told|
  {
    hide OptionBytes, Tells;
    OneMoreTold(options, from, told);
    if told != [] {
      var bytes := told[0].Bytes();
      assert options[from + 0] == bytes[0];
      if told[0].Mss? {
        assert options[from + 1] == bytes[1] && options[from + 2] == bytes[2] && options[from + 3] == bytes[3];
      } else {
        if told[0].Other? { assert options[from + 1] == bytes[1]; }
        MssIsFound(options, from + |bytes|, told[1..]);
      }
    }
  }

  lemma OneMoreTold(options: seq<Byte>, from: nat, told: seq<Told>)
    requires Tells(options, from, told)
    ensures told == [] ==> from >= |options| || options[from] == 0
    ensures told != [] ==>
      && told[0].Valid() && from + |told[0].Bytes()| <= |options|
      && (forall k :: 0 <= k < |told[0].Bytes()| ==> options[from + k] == told[0].Bytes()[k])
      && Tells(options, from + |told[0].Bytes()|, told[1..])
  {
    hide Told.Bytes;
    if told != [] {
      var first, rest := told[0].Bytes(), OptionBytes(told[1..]);
      assert OptionBytes(told) == first + rest;
      assert forall k :: 0 <= k < |first| ==> options[from..][k] == (first + rest)[k];
      assert options[from..][|first|..] == options[from + |first|..];
      assert (first + rest)[|first|..] == rest;
    }
  }

  /** A new connection opens exactly on a SYN that acknowledges its own; it then
      has nothing to send, expects the byte behind that SYN, says so, and keeps to
      the MSS it was told. A SYN with another acknowledgement is answered with a
      reset, and all else is ignored. */
  lemma OpensExactly(iss: SeqNum, now: nat, hdr: Header, options: seq<Byte>, told: seq<Told>, data: seq<Byte>)
    requires Tells(options, 0, told) && !hdr.flags.rst
    ensures
      var c := Connect(iss, now);
      var o := Process(c, hdr, options, data);
      if hdr.flags.syn && hdr.flags.ack && hdr.ackNo == WrappingAdd(iss, 1) then
        && o.conn.state == Established && o.notify == NowEstablished
        && o.conn.pending == [] && o.conn.sndUna == o.conn.sndNxt == WrappingAdd(iss, 1) && o.conn.sndWnd == hdr.window
        && o.conn.rcvNxt == WrappingAdd(hdr.seqNo, 1) && o.conn.recvBuf == [] && !o.conn.peerFin
        && o.conn.mss == Max(ToldMss(told), 536)
        && o.ack == Some(AckParams(o.conn.sndNxt, o.conn.rcvNxt, 8192, ACK))
      else
        && o.conn == c && o.notify == Nothing
        && o.ack == if hdr.flags.syn && hdr.flags.ack then Some(AckParams(hdr.ackNo, 0, 0, RST_ACK)) else None
  {
    hide WrappingAdd, ParseMss, ToldMss;
    MssIsFound(options, 0, told);
    assert WithoutSyn([Pending(iss, [], SYN, 1, now, 0)]) == WithoutSyn([]) == [];
  }

  /** A reset closes a connection in any state and does nothing else to it. The last
      acknowledgement closes one that waits for it. Otherwise a connection that
      has been left by both sides takes no notice. */
  lemma ClosesExactly(c: Conn, hdr: Header, options: seq<Byte>, data: seq<Byte>)
    requires hdr.flags.rst || c.state in {LastAck, TimeWait, Closed}
    ensures
      var o := Process(c, hdr, options, data);
      var last := c.state == LastAck && hdr.flags.ack && hdr.ackNo == c.sndNxt;
      && o.ack == None
      && (if hdr.flags.rst || last then o.conn == c.(state := Closed) && o.notify == NowClosed
          else o.conn == c && o.notify == Nothing)
  {
  }

  /** An acknowledgement that is taken moves the window to where it says. */
  lemma AcknowledgementMoves(c: Conn, hdr: Header)
    requires AckAdvances(c, hdr)
    ensures
      var c' := ProcessAck(c, hdr);
      c'.sndUna == hdr.ackNo && c'.sndWnd == hdr.window && c' == c.(sndUna := c'.sndUna, sndWnd := c'.sndWnd,
                                                                    pending := c'.pending, state := c'.state)
  {
  }
}
