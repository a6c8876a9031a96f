/**
 The receive side over whole runs: what the application has read, followed by
 what is buffered, is always a prefix of what the peer sent, however the network
 loses, repeats and reorders segments.
 */
module TcpRecv {
  import opened Wrappers
  import opened Tcp
  import opened TcpSend

  /** An event, and for a segment the position of its first byte in the peer's
      stream; the SYN has position -1. */
  datatype Arrival = Arrival(ev: Event, position: int)

  /** A connection, the bytes the application has read from it, and whether the
      peer's SYN has been taken. */
  datatype Receiver = Receiver(conn: Conn, read: seq<Byte>, synced: bool) {
    /** How many bytes of the peer's stream have been taken. */
    function Taken(): nat { |read| + |conn.recvBuf| }

    /** The position that `rcvNxt` stands for. */
    function Expects(): nat { Taken() + if conn.peerFin then 1 else 0 }
  }

  /** The peer: the bytes it will send, and its initial sequence number. */
  datatype Peer = Peer(stream: seq<Byte>, irs: SeqNum)

  function Take(w: Receiver, ev: Event): Receiver
    requires w.conn.mss > 0
  {
    var c := StepConn(w.conn, ev);
    match ev
    case ReadData(space) => w.(conn := c, read := w.read + Read(w.conn, space).1)
    case Segment(_, _, _) => w.(conn := c, synced := w.synced || (w.conn.state == SynSent && c.state == Established))
    case _ => w.(conn := c)
  }

  /** The segment is a reset, of which nothing is asked, or a piece of the peer's
      stream, less than half the sequence space away from what is expected. A SYN
      may carry data, but not a FIN besides. */
  predicate FromPeer(w: Receiver, peer: Peer, hdr: Header, data: seq<Byte>, position: int) {
    || hdr.flags.rst
    || (&& hdr.seqNo == Wrap(peer.irs + 1 + position)
        && -HALF < position - w.Expects() < HALF
        && |data| <= 65535
        && (hdr.flags.syn ==> position == -1)
        && (hdr.flags.syn && hdr.flags.fin ==> data == [])
        && (data != [] && !hdr.flags.syn ==> 0 <= position && position + |data| <= |peer.stream|
                                             && data == peer.stream[position..position + |data|])
        && (hdr.flags.fin && !hdr.flags.syn ==> position + |data| == |peer.stream|))
  }

  predicate Arrives(w: Receiver, peer: Peer, a: Arrival) {
    match a.ev
    case Segment(hdr, _, data) => FromPeer(w, peer, hdr, data, a.position)
    case _ => true
  }

  predicate RecvInvariant(w: Receiver, peer: Peer) {
    && w.conn.mss > 0 && |w.conn.recvBuf| <= RECV_BUF_LIMIT
    && (w.synced ==> w.conn.state != SynSent)
    && (w.conn.state != SynSent && w.conn.state != Closed ==> w.synced)
    && (!w.synced ==> w.read == [] && w.conn.recvBuf == [] && !w.conn.peerFin)
    && (w.synced ==>
          && w.Taken() <= |peer.stream|
          && w.read + w.conn.recvBuf == peer.stream[..w.Taken()]
          && w.conn.rcvNxt == Wrap(peer.irs + 1 + w.Expects())
          && (w.conn.peerFin ==> w.Taken() == |peer.stream|))
  }

  // ---- One segment --------------------------------------------------------

  lemma DataKeeps(w: Receiver, peer: Peer, hdr: Header, data: seq<Byte>, position: int)
    requires RecvInvariant(w, peer) && w.synced && FromPeer(w, peer, hdr, data, position) && !hdr.flags.rst
    ensures RecvInvariant(w.(conn := ProcessData(w.conn, hdr, data)), peer)
    ensures ProcessData(w.conn, hdr, data).peerFin == w.conn.peerFin
    ensures Deliverable(w.conn, hdr, data) > 0 ==> !w.conn.peerFin
  {
    var n := Deliverable(w.conn, hdr, data);
    WrapIsInjective(peer.irs + 1 + position, peer.irs + 1 + w.Expects());
    WrapAdd(peer.irs + 1 + w.Expects(), n);
    if n > 0 {
      assert position == w.Taken();
      assert data[..n] == peer.stream[position..position + n];
      assert peer.stream[..position] + peer.stream[position..position + n] == peer.stream[..position + n];
      assert w.read + (w.conn.recvBuf + data[..n]) == (w.read + w.conn.recvBuf) + data[..n];
    } else {
      assert w.conn.recvBuf + data[..n] == w.conn.recvBuf;
    }
  }

  /** `w` is the receiver after the payload part, `w0` before it. */
  lemma FinKeeps(w0: Receiver, w: Receiver, peer: Peer, hdr: Header, data: seq<Byte>, position: int)
    requires RecvInvariant(w, peer) && w.synced && FromPeer(w0, peer, hdr, data, position) && !hdr.flags.rst
    requires w0.Expects() <= w.Expects() <= w0.Expects() + |data|
    ensures RecvInvariant(w.(conn := ProcessFin(w.conn, hdr, data)), peer)
    ensures w.conn.peerFin ==> !FinInOrder(w.conn, hdr, data)
  {
    if hdr.flags.fin {
      WrapAdd(peer.irs + 1 + position, |data|);
      WrapIsInjective(peer.irs + 1 + position + |data|, peer.irs + 1 + w.Expects());
      WrapAdd(peer.irs + 1 + w.Expects(), 1);
    }
  }

  lemma SynchronisedKeeps(w: Receiver, peer: Peer, hdr: Header, data: seq<Byte>, position: int)
    requires RecvInvariant(w, peer) && IsSynchronised(w.conn.state) && FromPeer(w, peer, hdr, data, position)
    requires !hdr.flags.rst
    ensures
      var o := ProcessSynchronised(w.conn, hdr, data);
      RecvInvariant(w.(conn := o.conn), peer)
  {
    hide Wrap, WrappingAdd;
    var w1 := w.(conn := ProcessAck(w.conn, hdr));
    assert RecvInvariant(w1, peer);
    DataKeeps(w1, peer, hdr, data, position);
    var w2 := w1.(conn := ProcessData(w1.conn, hdr, data));
    FinKeeps(w1, w2, peer, hdr, data, position);
  }

  lemma SegmentKeeps(w: Receiver, peer: Peer, hdr: Header, options: seq<Byte>, data: seq<Byte>, position: int)
    requires RecvInvariant(w, peer) && FromPeer(w, peer, hdr, data, position)
    ensures RecvInvariant(Take(w, Segment(hdr, options, data)), peer)
  {
    if hdr.flags.rst {
    } else if w.conn.state == SynSent {
      WrapAdd(peer.irs, 1);
    } else if IsSynchronised(w.conn.state) {
      SynchronisedKeeps(w, peer, hdr, data, position);
    }
  }

  // ---- Every other step ---------------------------------------------------

  lemma {:induction false} SendKeepsReceiveSide(c: Conn, data: seq<Byte>, now: nat)
    requires c.mss > 0
    ensures
      var c' := SendChunks(c, data, now);
      c' == c.(pending := c'.pending, sndNxt := c'.sndNxt)
    decreases |data|
  {
    if data != [] {
      var n := Min(|data|, c.mss);
      SendKeepsReceiveSide(SendChunk(c, data[..n], now), data[n..], now);
    }
  }

  lemma StepKeeps(w: Receiver, peer: Peer, a: Arrival)
    requires RecvInvariant(w, peer) && Arrives(w, peer, a)
    ensures RecvInvariant(Take(w, a.ev), peer)
  {
    match a.ev
    case SendData(data, now) => SendKeepsReceiveSide(w.conn, data, now);
    case CloseConn(now) =>
    case Segment(hdr, options, data) => SegmentKeeps(w, peer, hdr, options, data, a.position);
    case ReadData(space) =>
      var n := Min(space, |w.conn.recvBuf|);
      assert w.read + w.conn.recvBuf[..n] + w.conn.recvBuf[n..] == w.read + w.conn.recvBuf;
    case Timer(now) =>
  }

  // ---- Theorems about every run -------------------------------------------

  ghost predicate Leads(w: Receiver, peer: Peer, arrivals: seq<Arrival>, w': Receiver)
    decreases |arrivals|
  {
    if arrivals == [] then w == w'
    else
      && w.conn.mss > 0 && Arrives(w, peer, arrivals[0])
      && Leads(Take(w, arrivals[0].ev), peer, arrivals[1..], w')
  }

  lemma {:induction false} RunKeeps(w: Receiver, peer: Peer, arrivals: seq<Arrival>, w': Receiver)
    requires RecvInvariant(w, peer) && Leads(w, peer, arrivals, w')
    ensures RecvInvariant(w', peer)
    decreases |arrivals|
  {
    if arrivals != [] {
      StepKeeps(w, peer, arrivals[0]);
      RunKeeps(Take(w, arrivals[0].ev), peer, arrivals[1..], w');
    }
  }

  /** In every run: what has been read and what is buffered are together a
      prefix of the peer's stream, `rcvNxt` counts that prefix and the FIN, the
      FIN has been taken only if all the data has, and the receive buffer is
      within its limit. */
  lemma EveryRunDeliversAPrefix(iss: SeqNum, now: nat, peer: Peer, arrivals: seq<Arrival>, w: Receiver)
    requires Leads(Receiver(Connect(iss, now), [], false), peer, arrivals, w)
    ensures w.read + w.conn.recvBuf <= peer.stream && |w.conn.recvBuf| <= RECV_BUF_LIMIT
    ensures w.conn.peerFin ==> w.read + w.conn.recvBuf == peer.stream
    ensures w.synced ==>
      w.conn.rcvNxt == Wrap(peer.irs + 1 + |w.read + w.conn.recvBuf| + if w.conn.peerFin then 1 else 0)
  {
    RunKeeps(Receiver(Connect(iss, now), [], false), peer, arrivals, w);
    if w.synced {
      assert |w.read + w.conn.recvBuf| == w.Taken();
    } else {
      assert w.read + w.conn.recvBuf == [];
    }
  }

  /** Once taken, the FIN is not taken again: nothing the peer may still repeat
      moves `rcvNxt` or adds a byte. */
  lemma FinIsTakenOnce(w: Receiver, peer: Peer, a: Arrival)
    requires RecvInvariant(w, peer) && Arrives(w, peer, a) && w.conn.peerFin
    ensures
      var w' := Take(w, a.ev);
      w'.conn.peerFin && w'.conn.rcvNxt == w.conn.rcvNxt && w'.read + w'.conn.recvBuf == w.read + w.conn.recvBuf
  {
    match a.ev
    case SendData(data, now) => SendKeepsReceiveSide(w.conn, data, now);
    case Segment(hdr, options, data) =>
      if !hdr.flags.rst && IsSynchronised(w.conn.state) {
        var w1 := w.(conn := ProcessAck(w.conn, hdr));
        DataKeeps(w1, peer, hdr, data, a.position);
        FinKeeps(w1, w1.(conn := ProcessData(w1.conn, hdr, data)), peer, hdr, data, a.position);
        assert w.conn.recvBuf + data[..0] == w.conn.recvBuf;
      }
    case ReadData(space) =>
      var n := Min(space, |w.conn.recvBuf|);
      assert w.read + w.conn.recvBuf[..n] + w.conn.recvBuf[n..] == w.read + w.conn.recvBuf;
    case _ =>
  }

  // ---- What one segment brings --------------------------------------------

  /** How many bytes of a segment at `position` are the next ones and fit. */
  function BytesTaken(w: Receiver, data: seq<Byte>, position: int): nat {
    if position == w.Taken() && !w.conn.peerFin then Min(|data|, Max(RECV_BUF_LIMIT - |w.conn.recvBuf|, 0)) else 0
  }

  /** The segment ends the stream where the receiver has got to. */
  predicate EndsStream(w: Receiver, hdr: Header, data: seq<Byte>, position: int) {
    hdr.flags.fin && !w.conn.peerFin && position + |data| == w.Taken() + BytesTaken(w, data, position)
  }

  lemma DataTaken(w: Receiver, peer: Peer, hdr: Header, data: seq<Byte>, position: int)
    requires RecvInvariant(w, peer) && w.synced && FromPeer(w, peer, hdr, data, position)
    requires !hdr.flags.rst && !hdr.flags.syn
    ensures Deliverable(w.conn, hdr, data) == BytesTaken(w, data, position)
    ensures
      var c := ProcessData(w.conn, hdr, data);
      FinInOrder(c, hdr, data) <==> EndsStream(w, hdr, data, position)
  {
    var n := Deliverable(w.conn, hdr, data);
    WrapIsInjective(peer.irs + 1 + position, peer.irs + 1 + w.Expects());
    WrapAdd(peer.irs + 1 + w.Expects(), n);
    WrapAdd(peer.irs + 1 + position, |data|);
    WrapIsInjective(peer.irs + 1 + position + |data|, peer.irs + 1 + w.Expects() + n);
  }

  /** A segment of the peer brings exactly those of its bytes that are the next
      ones and fit; its FIN is taken exactly when it ends the stream there, and
      moves the connection on; the stack is told how much has come, and an
      acknowledgement is sent exactly when something was taken. */
  lemma SegmentTakesExactly(w: Receiver, peer: Peer, hdr: Header, options: seq<Byte>, data: seq<Byte>, position: int)
    requires RecvInvariant(w, peer) && IsSynchronised(w.conn.state) && FromPeer(w, peer, hdr, data, position)
    requires !hdr.flags.rst && !hdr.flags.syn
    ensures
      var o, w' := Process(w.conn, hdr, options, data), Take(w, Segment(hdr, options, data));
      var n, fin := BytesTaken(w, data, position), EndsStream(w, hdr, data, position);
      && w'.read == w.read && w'.conn.recvBuf == w.conn.recvBuf + data[..n]
      && w'.conn.peerFin == (w.conn.peerFin || fin)
      && o.ack.Some? == (n > 0 || fin)
      && o.notify == (if n > 0 then DataReady(n) else if fin then NowClosed else Nothing)
      && (fin ==> w'.conn.state == if w.conn.state in {Established, CloseWait} then CloseWait else TimeWait)
      && (!fin ==> w'.conn.state == w.conn.state || (w.conn.state == FinWait1 && w'.conn.state == FinWait2))
  {
    hide Wrap, WrappingAdd, SeqLt, SeqLe;
    var w1 := w.(conn := ProcessAck(w.conn, hdr));
    assert RecvInvariant(w1, peer);
    DataTaken(w1, peer, hdr, data, position);
  }

  /** Every acknowledgement sent confirms exactly what has been taken. */
  lemma AcknowledgesWhatWasTaken(w: Receiver, peer: Peer, hdr: Header, options: seq<Byte>, data: seq<Byte>, position: int)
    requires RecvInvariant(w, peer) && FromPeer(w, peer, hdr, data, position)
    ensures
      var o := Process(w.conn, hdr, options, data);
      var w' := Take(w, Segment(hdr, options, data));
      o.ack.Some? && !o.ack.value.flags.rst ==>
        w'.synced && o.ack.value.ackNo == Wrap(peer.irs + 1 + w'.Expects())
  {
    SegmentKeeps(w, peer, hdr, options, data, position);
  }

  /** Why a SYN must not carry data and a FIN: the FIN is looked for one byte
      too early, so a repeated SYN with `n` bytes and a FIN is taken for the end
      of the stream exactly when `n - 1` bytes have arrived. */
  lemma FinOnSynIsMisplaced(w: Receiver, peer: Peer, hdr: Header, options: seq<Byte>, data: seq<Byte>)
    requires RecvInvariant(w, peer) && IsSynchronised(w.conn.state) && !w.conn.peerFin && w.Taken() < HALF - 1
    requires hdr.flags.syn && hdr.flags.fin && !hdr.flags.rst && hdr.seqNo == peer.irs && |data| < HALF
    ensures Take(w, Segment(hdr, options, data)).conn.peerFin <==> w.Taken() + 1 == |data|
  {
    WrapIsInjective(peer.irs, peer.irs + 1 + w.Expects());
    WrapIsInjective(peer.irs + |data|, peer.irs + 1 + w.Expects());
    WrapAdd(peer.irs, |data|);
    assert Wrap(peer.irs) == peer.irs;
    var c := ProcessAck(w.conn, hdr);
    assert Deliverable(c, hdr, data) == 0;
    WrapAdd(peer.irs + 1 + w.Expects(), 0);
  }

  /** One SYN with a byte and a FIN, taken twice: the connection is established by
      the first and takes the FIN from the second, although nothing of the
      peer's one-byte stream has been delivered. */
  lemma FinOnSynExample(byte: Byte, window: nat)
    ensures
      var w0 := Receiver(Connect(100, 0), [], false);
      var syn := Segment(Header(900, 101, Flags(true, true, false, false, true), window), [], [byte]);
      var w := Take(Take(w0, syn), syn);
      && w.conn.state == CloseWait && w.conn.peerFin && w.read + w.conn.recvBuf == [] != [byte]
      && w.conn.rcvNxt == Wrap(900 + 2)
  {
  }
}
