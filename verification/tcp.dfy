/**
 The TCP connection machine of the kernel: active open, send queue, in-order
 receive, FIN handling and timer-driven retransmission (sections 3.3, 3.5, 3.7
 and 3.9 of RFC 793).

 A connection is a value here and each operation a function on it; the class in
 `TcpConnection` performs the same operations in place.
 */
module Tcp {
  import opened Wrappers

  // ---- Sequence numbers ---------------------------------------------------

  const MODULUS := 0x1_0000_0000
  const HALF := 0x8000_0000

  type SeqNum = s: nat | s < 0x1_0000_0000

  /** The 32-bit sequence number of a position in the stream. */
  function Wrap(position: int): SeqNum {
    position % MODULUS
  }

  function WrappingAdd(a: SeqNum, n: int): SeqNum {
    (a + n) % MODULUS
  }

  /** The wrapped difference, read as a signed 32-bit number, is negative. */
  predicate SeqLt(a: SeqNum, b: SeqNum) {
    (a - b) % MODULUS >= HALF
  }

  predicate SeqLe(a: SeqNum, b: SeqNum) {
    a == b || (a - b) % MODULUS >= HALF
  }

  // ---- Segments and connections -------------------------------------------

  datatype Flags = Flags(fin: bool, syn: bool, rst: bool, psh: bool, ack: bool)

  const SYN := Flags(false, true, false, false, false)
  const ACK := Flags(false, false, false, false, true)
  const RST_ACK := Flags(false, false, true, false, true)
  const PSH_ACK := Flags(false, false, false, true, true)
  const FIN_ACK := Flags(true, false, false, false, true)

  const DEFAULT_MSS := 1460
  const MIN_MSS := 536
  const DEFAULT_WINDOW := 8192
  const RTO_INITIAL_TICKS := 200
  const RTO_MAX_TICKS := 3200
  const MAX_RETRANSMITS := 5
  const RECV_BUF_LIMIT := 16384

  datatype Header = Header(seqNo: SeqNum, ackNo: SeqNum, flags: Flags, window: nat)

  datatype State =
    | Closed | SynSent | Established | FinWait1 | FinWait2 | CloseWait | LastAck | TimeWait

  datatype Pending = Pending(seqNo: SeqNum, data: seq<Byte>, flags: Flags, seqLen: nat, lastTx: nat, retries: nat) {
    function End(): SeqNum { WrappingAdd(seqNo, seqLen) }
  }

  datatype Conn = Conn(
    state: State,
    sndUna: SeqNum, sndNxt: SeqNum, sndWnd: nat, iss: SeqNum,
    rcvNxt: SeqNum, rcvWnd: nat, irs: SeqNum,
    mss: nat, pending: seq<Pending>, recvBuf: seq<Byte>, peerFin: bool)

  datatype AckParams = AckParams(seqNo: SeqNum, ackNo: SeqNum, window: nat, flags: Flags)

  datatype Notify = Nothing | NowEstablished | DataReady(bytes: nat) | NowClosed

  datatype Outcome = Outcome(conn: Conn, ack: Option<AckParams>, notify: Notify)

  datatype TcpError = NotConnected | AlreadyClosed

  // ---- Operations ---------------------------------------------------------

  /** The connection after its SYN has been sent. */
  function Connect(iss: SeqNum, now: nat): Conn {
    Conn(SynSent, iss, WrappingAdd(iss, 1), DEFAULT_WINDOW, iss, 0, DEFAULT_WINDOW, 0, DEFAULT_MSS,
         [Pending(iss, [], SYN, 1, now, 0)], [], false)
  }

  /** One chunk appended to the send queue. */
  function SendChunk(c: Conn, chunk: seq<Byte>, now: nat): Conn {
    c.(pending := c.pending + [Pending(c.sndNxt, chunk, PSH_ACK, |chunk|, now, 0)],
       sndNxt := WrappingAdd(c.sndNxt, |chunk|))
  }

  function SendChunks(c: Conn, data: seq<Byte>, now: nat): Conn
    requires c.mss > 0
    decreases |data|
  {
    if data == [] then c
    else
      var n := Min(|data|, c.mss);
      SendChunks(SendChunk(c, data[..n], now), data[n..], now)
  }

  function Send(c: Conn, data: seq<Byte>, now: nat): (Conn, Result<Unit, TcpError>)
    requires c.mss > 0
  {
    if data == [] then (c, Ok(Unit))
    else if c.state != Established then (c, Err(NotConnected))
    else (SendChunks(c, data, now), Ok(Unit))
  }

  function Close(c: Conn, now: nat): (Conn, Result<Unit, TcpError>) {
    if c.state != Established && c.state != CloseWait then (c, Err(AlreadyClosed))
    else
      (c.(pending := c.pending + [Pending(c.sndNxt, [], FIN_ACK, 1, now, 0)],
          sndNxt := WrappingAdd(c.sndNxt, 1),
          state := if c.state == Established then FinWait1 else LastAck),
       Ok(Unit))
  }

  function Read(c: Conn, space: nat): (Conn, seq<Byte>) {
    var n := Min(space, |c.recvBuf|);
    (c.(recvBuf := c.recvBuf[n..]), c.recvBuf[..n])
  }

  /** The segments that an acknowledgement up to `ackNo` leaves in the queue. */
  function Unacked(pending: seq<Pending>, ackNo: SeqNum): seq<Pending> {
    if pending == [] then []
    else if SeqLt(ackNo, pending[0].End()) then [pending[0]] + Unacked(pending[1..], ackNo)
    else Unacked(pending[1..], ackNo)
  }

  function WithoutSyn(pending: seq<Pending>): seq<Pending> {
    if pending == [] then []
    else if !pending[0].flags.syn then [pending[0]] + WithoutSyn(pending[1..])
    else WithoutSyn(pending[1..])
  }

  predicate HasNoFin(pending: seq<Pending>) {
    forall i :: 0 <= i < |pending| ==> !pending[i].flags.fin
  }

  predicate AckAdvances(c: Conn, hdr: Header) {
    hdr.flags.ack && SeqLt(c.sndUna, hdr.ackNo) && SeqLe(hdr.ackNo, c.sndNxt)
  }

  function ProcessAck(c: Conn, hdr: Header): Conn {
    if !AckAdvances(c, hdr) then c
    else
      var left := Unacked(c.pending, hdr.ackNo);
      c.(sndUna := hdr.ackNo, sndWnd := hdr.window, pending := left,
         state := if c.state == FinWait1 && HasNoFin(left) then FinWait2 else c.state)
  }

  /** How many bytes of an in-order payload fit into the receive buffer. */
  function Deliverable(c: Conn, hdr: Header, data: seq<Byte>): nat {
    if data != [] && hdr.seqNo == c.rcvNxt
    then Min(|data|, Max(RECV_BUF_LIMIT - |c.recvBuf|, 0))
    else 0
  }

  function ProcessData(c: Conn, hdr: Header, data: seq<Byte>): Conn {
    var n := Deliverable(c, hdr, data);
    c.(recvBuf := c.recvBuf + data[..n], rcvNxt := WrappingAdd(c.rcvNxt, n))
  }

  predicate FinInOrder(c: Conn, hdr: Header, data: seq<Byte>) {
    hdr.flags.fin && WrappingAdd(hdr.seqNo, |data|) == c.rcvNxt
  }

  function ProcessFin(c: Conn, hdr: Header, data: seq<Byte>): Conn {
    if !FinInOrder(c, hdr, data) then c
    else
      c.(rcvNxt := WrappingAdd(c.rcvNxt, 1), peerFin := true,
         state := match c.state
           case Established => CloseWait
           case FinWait1 => TimeWait
           case FinWait2 => TimeWait
           case s => s)
  }

  function AckFor(c: Conn): AckParams {
    AckParams(c.sndNxt, c.rcvNxt, c.rcvWnd, ACK)
  }

  predicate IsSynchronised(s: State) {
    s == Established || s == FinWait1 || s == FinWait2 || s == CloseWait
  }

  function ProcessSynchronised(c: Conn, hdr: Header, data: seq<Byte>): Outcome {
    var c1 := ProcessAck(c, hdr);
    var n := Deliverable(c1, hdr, data);
    var c2 := ProcessData(c1, hdr, data);
    var fin := FinInOrder(c2, hdr, data);
    var c3 := ProcessFin(c2, hdr, data);
    Outcome(c3,
            if n > 0 || fin || hdr.flags.syn then Some(AckFor(c3)) else None,
            if fin && n == 0 then NowClosed else if n > 0 then DataReady(n) else Nothing)
  }

  function ProcessSynAck(c: Conn, hdr: Header, options: seq<Byte>): Outcome {
    if !hdr.flags.syn || !hdr.flags.ack then Outcome(c, None, Nothing)
    else if hdr.ackNo != WrappingAdd(c.iss, 1) then
      Outcome(c, Some(AckParams(hdr.ackNo, 0, 0, RST_ACK)), Nothing)
    else
      var c' := c.(irs := hdr.seqNo, rcvNxt := WrappingAdd(hdr.seqNo, 1), sndUna := hdr.ackNo,
                   sndWnd := hdr.window, mss := Max(ParseMss(options, 0), MIN_MSS), state := Established,
                   pending := WithoutSyn(c.pending));
      Outcome(c', Some(AckFor(c')), NowEstablished)
  }

  /** The MSS option of a SYN, or the default if there is none. */
  function ParseMss(options: seq<Byte>, i: nat): nat
    decreases |options| - i
  {
    if i >= |options| || options[i] == 0 then DEFAULT_MSS
    else if options[i] == 1 then ParseMss(options, i + 1)
    else if i + 1 >= |options| || options[i + 1] < 2 || i + options[i + 1] as nat > |options| then DEFAULT_MSS
    else if options[i] == 2 && options[i + 1] == 4 then options[i + 2] as nat * 256 + options[i + 3]
    else ParseMss(options, i + options[i + 1] as nat)
  }

  /** The connection after one inbound segment, the segment it answers with
      and what the stack is told. */
  function Process(c: Conn, hdr: Header, options: seq<Byte>, data: seq<Byte>): Outcome {
    if hdr.flags.rst then Outcome(c.(state := Closed), None, NowClosed)
    else if c.state == SynSent then ProcessSynAck(c, hdr, options)
    else if IsSynchronised(c.state) then ProcessSynchronised(c, hdr, data)
    else if c.state == LastAck && hdr.flags.ack && hdr.ackNo == c.sndNxt then
      Outcome(c.(state := Closed), None, NowClosed)
    else Outcome(c, None, Nothing)
  }

  // ---- The retransmission timer -------------------------------------------

  function Shifted(ticks: nat, places: nat): nat {
    if places == 0 then ticks else 2 * Shifted(ticks, places - 1)
  }

  /** How long a segment waits after its `retries`-th retransmission. */
  function Timeout(retries: nat): nat {
    Min(Shifted(RTO_INITIAL_TICKS, Min(retries, 4)), RTO_MAX_TICKS)
  }

  predicate TimedOut(p: Pending, now: nat) {
    Max(now - p.lastTx, 0) >= Timeout(p.retries)
  }

  predicate GivesUp(p: Pending, now: nat) {
    TimedOut(p, now) && p.retries >= MAX_RETRANSMITS
  }

  predicate Retransmits(p: Pending, now: nat) {
    TimedOut(p, now) && p.retries < MAX_RETRANSMITS
  }

  function TickSegment(p: Pending, now: nat): Pending {
    if Retransmits(p, now) then p.(lastTx := now, retries := p.retries + 1) else p
  }

  function TickQueue(pending: seq<Pending>, now: nat): seq<Pending> {
    seq(|pending|, i requires 0 <= i < |pending| => TickSegment(pending[i], now))
  }

  predicate AnyGivesUp(pending: seq<Pending>, now: nat) {
    exists i :: 0 <= i < |pending| && GivesUp(pending[i], now)
  }

  /** The segments that go out again at one tick. */
  function Resent(pending: seq<Pending>, now: nat): seq<Pending> {
    if pending == [] then []
    else (if Retransmits(pending[0], now) then [pending[0]] else []) + Resent(pending[1..], now)
  }

  /** One timer tick: the connection, or None once a closed one is dropped. */
  function Tick(c: Conn, now: nat): (Option<Conn>, seq<Pending>) {
    if c.state == Closed then (None, [])
    else
      (Some(c.(pending := TickQueue(c.pending, now),
               state := if AnyGivesUp(c.pending, now) then Closed else c.state)),
       Resent(c.pending, now))
  }
}
