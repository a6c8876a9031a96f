/** The connection as the kernel keeps it: fields that every operation updates
    in place. Each operation does exactly what its function in `Tcp` says. */
module TcpConnection {
  import opened Wrappers
  import opened Tcp
  import opened TcpTransfer

  class TcpConn {
    var state: State
    var sndUna: SeqNum
    var sndNxt: SeqNum
    var sndWnd: nat
    const iss: SeqNum
    var rcvNxt: SeqNum
    const rcvWnd: nat
    var irs: SeqNum
    var mss: nat
    var pending: seq<Pending>
    var recvBuf: seq<Byte>
    var peerFin: bool

    function View(): Conn
      reads this
    {
      Conn(state, sndUna, sndNxt, sndWnd, iss, rcvNxt, rcvWnd, irs, mss, pending, recvBuf, peerFin)
    }

    constructor (iss: SeqNum, now: nat)
      ensures View() == Connect(iss, now)
    {
      state := SynSent;
      this.iss, sndUna, sndNxt, sndWnd := iss, iss, WrappingAdd(iss, 1), DEFAULT_WINDOW;
      rcvNxt, rcvWnd, irs := 0, DEFAULT_WINDOW, 0;
      mss := DEFAULT_MSS;
      pending := [Pending(iss, [], SYN, 1, now, 0)];
      recvBuf, peerFin := [], false;
    }

    /** Queues `data` in chunks of at most `mss` bytes. */
    method SendBytes(data: seq<Byte>, now: nat) returns (r: Result<Unit, TcpError>)
      requires mss > 0
      modifies this`pending, this`sndNxt
      ensures (View(), r) == Send(old(View()), data, now)
      ensures r.Ok? <==> data == [] || state == Established
      ensures r.Ok? ==> Queued(old(View()), View(), data, now)
    {
      hide Queued;
      SendCutsAtMss(View(), data, now);
      if data == [] {
        return Ok(Unit);
      }
      if state != Established {
        return Err(NotConnected);
      }
      var offset := 0;
      while offset < |data|
        invariant 0 <= offset <= |data|
        invariant SendChunks(View(), data[offset..], now) == SendChunks(old(View()), data, now)
      {
        var chunkLen := Min(|data| - offset, mss);
        var chunk := data[offset..offset + chunkLen];
        assert data[offset..][..chunkLen] == chunk && data[offset..][chunkLen..] == data[offset + chunkLen..];
        pending := pending + [Pending(sndNxt, chunk, PSH_ACK, chunkLen, now, 0)];
        sndNxt := WrappingAdd(sndNxt, chunkLen);
        offset := offset + chunkLen;
      }
      return Ok(Unit);
    }

    method CloseConn(now: nat) returns (r: Result<Unit, TcpError>)
      modifies this`pending, this`sndNxt, this`state
      ensures (View(), r) == Close(old(View()), now)
      ensures r.Ok? <==> old(state) == Established || old(state) == CloseWait
      ensures r.Ok? ==>
        && state == (if old(state) == Established then FinWait1 else LastAck)
        && pending == old(pending) + [Pending(old(sndNxt), [], FIN_ACK, 1, now, 0)]
        && sndNxt == WrappingAdd(old(sndNxt), 1)
    {
      if state != Established && state != CloseWait {
        return Err(AlreadyClosed);
      }
      pending := pending + [Pending(sndNxt, [], FIN_ACK, 1, now, 0)];
      sndNxt := WrappingAdd(sndNxt, 1);
      state := if state == Established then FinWait1 else LastAck;
      return Ok(Unit);
    }

    method ReadBytes(space: nat) returns (out: seq<Byte>)
      modifies this`recvBuf
      ensures (View(), out) == Read(old(View()), space)
      ensures out + recvBuf == old(recvBuf) && |out| == Min(space, |old(recvBuf)|)
    {
      if recvBuf == [] {
        return [];
      }
      var n := Min(space, |recvBuf|);
      out := recvBuf[..n];
      recvBuf := recvBuf[n..];
    }

    /** Keeps the queued segments that end after `ackNo`. */
    method RetainUnacked(ackNo: SeqNum)
      modifies this`pending
      ensures pending == Unacked(old(pending), ackNo)
    {
      var left := [];
      for i := 0 to |pending|
        invariant left + Unacked(pending[i..], ackNo) == Unacked(pending, ackNo)
        invariant pending == old(pending)
      {
        assert pending[i..][1..] == pending[i + 1..];
        if SeqLt(ackNo, pending[i].End()) {
          left := left + [pending[i]];
        }
      }
      assert pending[|pending|..] == [];
      pending := left;
    }

    method RetainWithoutSyn()
      modifies this`pending
      ensures pending == WithoutSyn(old(pending))
    {
      var left := [];
      for i := 0 to |pending|
        invariant left + WithoutSyn(pending[i..]) == WithoutSyn(pending)
        invariant pending == old(pending)
      {
        assert pending[i..][1..] == pending[i + 1..];
        if !pending[i].flags.syn {
          left := left + [pending[i]];
        }
      }
      assert pending[|pending|..] == [];
      pending := left;
    }

    method TakeAck(hdr: Header)
      modifies this`sndUna, this`sndWnd, this`pending, this`state
      ensures View() == ProcessAck(old(View()), hdr)
    {
      hide Unacked, SeqLt, SeqLe;
      if hdr.flags.ack && SeqLt(sndUna, hdr.ackNo) && SeqLe(hdr.ackNo, sndNxt) {
        sndUna := hdr.ackNo;
        sndWnd := hdr.window;
        RetainUnacked(hdr.ackNo);
        if state == FinWait1 && HasNoFin(pending) {
          state := FinWait2;
        }
      }
    }

    method TakeData(hdr: Header, data: seq<Byte>) returns (delivered: nat)
      modifies this`recvBuf, this`rcvNxt
      ensures View() == ProcessData(old(View()), hdr, data)
      ensures delivered == Deliverable(old(View()), hdr, data)
    {
      delivered := 0;
      if data != [] && hdr.seqNo == rcvNxt {
        var room := Max(RECV_BUF_LIMIT - |recvBuf|, 0);
        delivered := Min(|data|, room);
        recvBuf := recvBuf + data[..delivered];
        rcvNxt := WrappingAdd(rcvNxt, delivered);
      } else {
        assert recvBuf + data[..0] == recvBuf;
      }
    }

    method TakeFin(hdr: Header, data: seq<Byte>) returns (justClosed: bool)
      modifies this`rcvNxt, this`peerFin, this`state
      ensures View() == ProcessFin(old(View()), hdr, data)
      ensures justClosed == FinInOrder(old(View()), hdr, data)
    {
      hide WrappingAdd;
      justClosed := false;
      if hdr.flags.fin && WrappingAdd(hdr.seqNo, |data|) == rcvNxt {
        rcvNxt := WrappingAdd(rcvNxt, 1);
        peerFin := true;
        justClosed := true;
        match state {
          case Established => state := CloseWait;
          case FinWait1 => state := TimeWait;
          case FinWait2 => state := TimeWait;
          case _ =>
        }
      }
    }

    /** Looks for the MSS among the options of a SYN. */
    method ReadMss(options: seq<Byte>) returns (mss: nat)
      ensures mss == ParseMss(options, 0)
    {
      var i := 0;
      while i < |options|
        invariant ParseMss(options, i) == ParseMss(options, 0)
        decreases |options| - i
      {
        var kind := options[i];
        if kind == 0 {
          return DEFAULT_MSS;
        }
        if kind == 1 {
          i := i + 1;
        } else {
          if i + 1 >= |options| {
            break;
          }
          var len := options[i + 1];
          if len < 2 || i + len > |options| {
            break;
          }
          if kind == 2 && len == 4 {
            return options[i + 2] as nat * 256 + options[i + 3];
          }
          i := i + len;
        }
      }
      return DEFAULT_MSS;
    }

    /** One inbound segment. */
    method ProcessSegment(hdr: Header, options: seq<Byte>, data: seq<Byte>)
      returns (ack: Option<AckParams>, notify: Notify)
      modifies this
      ensures Outcome(View(), ack, notify) == Process(old(View()), hdr, options, data)
    {
      hide ParseMss, WithoutSyn, WrappingAdd, ProcessAck, ProcessData, ProcessFin, FinInOrder, Deliverable;
      if hdr.flags.rst {
        state := Closed;
        return None, NowClosed;
      }
      if state == SynSent {
        if !hdr.flags.syn || !hdr.flags.ack {
          return None, Nothing;
        }
        if hdr.ackNo != WrappingAdd(iss, 1) {
          return Some(AckParams(hdr.ackNo, 0, 0, RST_ACK)), Nothing;
        }
        irs := hdr.seqNo;
        rcvNxt := WrappingAdd(hdr.seqNo, 1);
        sndUna := hdr.ackNo;
        sndWnd := hdr.window;
        var told := ReadMss(options);
        mss := Max(told, MIN_MSS);
        state := Established;
        RetainWithoutSyn();
        return Some(AckParams(sndNxt, rcvNxt, rcvWnd, ACK)), NowEstablished;
      }
      if state in {Established, FinWait1, FinWait2, CloseWait} {
        TakeAck(hdr);
        var delivered := TakeData(hdr, data);
        var justClosed := TakeFin(hdr, data);
        if delivered > 0 || justClosed || hdr.flags.syn {
          ack := Some(AckParams(sndNxt, rcvNxt, rcvWnd, ACK));
        } else {
          ack := None;
        }
        if justClosed && delivered == 0 {
          notify := NowClosed;
        } else if delivered > 0 {
          notify := DataReady(delivered);
        } else {
          notify := Nothing;
        }
        return;
      }
      if state == LastAck && hdr.flags.ack && hdr.ackNo == sndNxt {
        state := Closed;
        return None, NowClosed;
      }
      return None, Nothing;
    }

    /** The timer looks at one queued segment. */
    method TickOne(i: nat, now: nat) returns (sent: seq<Pending>)
      requires i < |pending|
      modifies this`pending, this`state
      ensures pending == old(pending)[i := TickSegment(old(pending)[i], now)]
      ensures state == if GivesUp(old(pending)[i], now) then Closed else old(state)
      ensures sent == if Retransmits(old(pending)[i], now) then [old(pending)[i]] else []
    {
      var seg := pending[i];
      var elapsed := Max(now - seg.lastTx, 0);
      var rto := Min(Shifted(RTO_INITIAL_TICKS, Min(seg.retries, 4)), RTO_MAX_TICKS);
      if elapsed < rto {
        return [];
      }
      if seg.retries >= MAX_RETRANSMITS {
        state := Closed;
        return [];
      }
      pending := pending[i := seg.(lastTx := now, retries := seg.retries + 1)];
      return [seg];
    }

    /** One timer tick. `drop` asks for the connection to be forgotten. */
    method TimerTick(now: nat) returns (drop: bool, sent: seq<Pending>)
      modifies this`pending, this`state
      ensures (if drop then None else Some(View()), sent) == Tick(old(View()), now)
      ensures drop ==> View() == old(View())
    {
      hide TickSegment, GivesUp, Retransmits, AnyGivesUp, Resent;
      NoneTicked(pending, now);
      sent := [];
      if state == Closed {
        return true, [];
      }
      ghost var was := pending;
      for i := 0 to |pending|
        invariant |pending| == |was|
        invariant forall k :: 0 <= k < |was| ==> pending[k] == if k < i then TickSegment(was[k], now) else was[k]
        invariant sent + Resent(was[i..], now) == Resent(was, now)
        invariant state == if AnyGivesUp(was[..i], now) then Closed else old(state)
      {
        OneMoreTicked(was, i, now);
        var again := TickOne(i, now);
        sent := sent + again;
      }
      assert was[..|was|] == was;
      assert pending == TickQueue(was, now);
      assert sent == Resent(was, now);
      assert View() == old(View()).(pending := pending, state := state);
      return false, sent;
    }
  }

  lemma NoneTicked(pending: seq<Pending>, now: nat)
    ensures !AnyGivesUp(pending[..0], now) && pending[0..] == pending
    ensures Resent(pending[|pending|..], now) == []
  {
  }

  lemma OneMoreTicked(pending: seq<Pending>, i: nat, now: nat)
    requires i < |pending|
    ensures AnyGivesUp(pending[..i + 1], now) <==> AnyGivesUp(pending[..i], now) || GivesUp(pending[i], now)
    ensures Resent(pending[i..], now) ==
            (if Retransmits(pending[i], now) then [pending[i]] else []) + Resent(pending[i + 1..], now)
  {
    var more := pending[..i + 1];
    assert more == pending[..i] + [pending[i]] && pending[i..][1..] == pending[i + 1..];
    if GivesUp(pending[i], now) { assert GivesUp(more[i], now); }
    if AnyGivesUp(pending[..i], now) {
      var k :| 0 <= k < i && GivesUp(pending[..i][k], now);
      assert GivesUp(more[k], now);
    }
  }
}
