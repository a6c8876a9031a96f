/**
 The receive side of the network driver: sixteen buffers that circulate
 between the driver and the device.
 */
module VirtioNetDriver {
  import opened Wrappers
  import opened Virtqueues

  const VIRTIO_NET_HDR_LEN := 10
  const MTU_BYTES := 1514
  const RX_BUF_BYTES := VIRTIO_NET_HDR_LEN + MTU_BYTES + 2
  const RX_BUF_COUNT := 16

  datatype RxBuf = RxBuf(phys: nat, descHead: nat)

  /** The first `n` buffers are each posted as a chain of one descriptor, under
      different heads, and the queue has no other chains. */
  ghost predicate Posted(bufs: seq<RxBuf>, n: nat, chains: Chains, desc: seq<Desc>) {
    && n <= |bufs|
    && (forall i :: 0 <= i < n ==> PostedAt(bufs[i], chains, desc))
    && (forall i, j :: 0 <= i < j < n ==> bufs[i].descHead != bufs[j].descHead)
    && (forall h :: h in chains ==> exists i :: 0 <= i < n && bufs[i].descHead == h)
  }

  ghost predicate PostedAt(b: RxBuf, chains: Chains, desc: seq<Desc>) {
    && b.descHead in chains && chains[b.descHead] == [b.descHead]
    && Describes(desc, b.descHead, Buf(b.phys, RX_BUF_BYTES, true))
  }

  lemma PostedMore(bufs: seq<RxBuf>, n: nat, b: RxBuf, chains: Chains, chains': Chains, desc: seq<Desc>, desc': seq<Desc>)
    requires Posted(bufs, n, chains, desc) && n < |bufs|
    requires b.descHead !in chains && chains' == chains[b.descHead := [b.descHead]]
    requires PostedAt(b, chains', desc')
    requires |desc'| == |desc| && forall d :: 0 <= d < |desc| && d != b.descHead ==> desc'[d] == desc[d]
    ensures Posted(bufs[n := b], n + 1, chains', desc')
  {
    var bufs' := bufs[n := b];
    forall h | h in chains'
      ensures exists i :: 0 <= i < n + 1 && bufs'[i].descHead == h
    {
      if h == b.descHead {
        assert bufs'[n].descHead == h;
      } else {
        var i :| 0 <= i < n && bufs[i].descHead == h;
        assert bufs'[i].descHead == h;
      }
    }
    forall i | 0 <= i < n + 1
      ensures PostedAt(bufs'[i], chains', desc')
    {
      assert i < n ==> PostedAt(bufs[i], chains, desc);
    }
  }

  lemma PostedAgain(bufs: seq<RxBuf>, n: nat, i: nat, chains: Chains, desc: seq<Desc>, desc': seq<Desc>)
    requires Posted(bufs, n, chains, desc) && i < n
    requires PostedAt(bufs[i], chains, desc')
    requires |desc'| == |desc| && forall d :: 0 <= d < |desc| && d != bufs[i].descHead ==> desc'[d] == desc[d]
    ensures Posted(bufs, n, chains, desc')
  {
  }

  class VirtioNet {
    const rx: Virtqueue
    var rxBufs: seq<RxBuf>

    /** Every buffer is posted and no chain is left with the driver. */
    ghost predicate Valid()
      reads this, rx, rx.desc, rx.availRing, rx.usedRing
    {
      && rx.Valid() && |rxBufs| == RX_BUF_COUNT && Posted(rxBufs, RX_BUF_COUNT, rx.chains, rx.desc[..])
      && (forall h :: h in rx.stage ==> rx.stage[h] != Popped)
    }

    /** Sets up the receive queue over sixteen frames and posts every buffer:
        the posting cannot fail. */
    constructor (frames: seq<nat>)
      requires |frames| == RX_BUF_COUNT
      ensures Valid()
      ensures forall i :: 0 <= i < RX_BUF_COUNT ==> rxBufs[i].phys == frames[i]
    {
      rx := new Virtqueue();
      rxBufs := seq(RX_BUF_COUNT, i requires 0 <= i < RX_BUF_COUNT => RxBuf(frames[i], 0));
      new;
      var posted := PostInitialRx();
      assert posted;
    }

    method PostInitialRx() returns (posted: bool)
      requires rx.Valid() && rx.chains == map[] && |rxBufs| == RX_BUF_COUNT && rx.numFree == QUEUE_SIZE
      modifies this`rxBufs, rx, rx.desc, rx.availRing
      ensures posted && Valid()
      ensures forall i :: 0 <= i < RX_BUF_COUNT ==> rxBufs[i].phys == old(rxBufs[i].phys)
    {
      for i := 0 to RX_BUF_COUNT
        invariant rx.Valid() && |rxBufs| == RX_BUF_COUNT && Posted(rxBufs, i, rx.chains, rx.desc[..])
        invariant rx.numFree == QUEUE_SIZE - i
        invariant forall h :: h in rx.stage ==> rx.stage[h] != Popped
        invariant forall i :: 0 <= i < RX_BUF_COUNT ==> rxBufs[i].phys == old(rxBufs[i].phys)
      {
        posted := PostOne(i);
        if !posted {
          return;
        }
      }
      posted := true;
    }

    method PostOne(i: nat) returns (posted: bool)
      requires rx.Valid() && i < |rxBufs| && Posted(rxBufs, i, rx.chains, rx.desc[..])
      requires forall h :: h in rx.stage ==> rx.stage[h] != Popped
      modifies this`rxBufs, rx, rx.desc, rx.availRing
      ensures rx.Valid() && posted == (old(rx.numFree) > 0)
      ensures posted ==> |rxBufs| == old(|rxBufs|) && Posted(rxBufs, i + 1, rx.chains, rx.desc[..]) && rx.numFree == old(rx.numFree) - 1
      ensures posted ==> forall h :: h in rx.stage ==> rx.stage[h] != Popped
      ensures posted ==> forall k :: 0 <= k < |rxBufs| ==> rxBufs[k].phys == old(rxBufs[k].phys)
    {
      hide Partitioned, FreeListLinked, ChainLinked, Tracked, Ring, Posted;
      ghost var chains, desc := rx.chains, rx.desc[..];
      var phys := rxBufs[i].phys;
      var r := rx.AddBuf([Buf(phys, RX_BUF_BYTES, true)]);
      if r.Err? {
        return false;
      }
      assert rx.chains[r.value] == [r.value];
      assert Describes(rx.desc[..], rx.chains[r.value][0], Buf(phys, RX_BUF_BYTES, true));
      assert rx.chains == chains[r.value := [r.value]];
      PostedMore(rxBufs, i, RxBuf(phys, r.value), chains, rx.chains, desc, rx.desc[..]);
      rxBufs := rxBufs[i := RxBuf(phys, r.value)];
      posted := true;
    }

    /** The buffer that was posted under `head`. */
    method FindBuf(head: nat) returns (r: Option<nat>)
      ensures r.Some? ==> r.value < |rxBufs| && rxBufs[r.value].descHead == head
      ensures r.Some? ==> forall k :: 0 <= k < r.value ==> rxBufs[k].descHead != head
      ensures r.None? ==> forall k :: 0 <= k < |rxBufs| ==> rxBufs[k].descHead != head
    {
      var i: nat := 0;
      while i < |rxBufs|
        invariant i <= |rxBufs|
        invariant forall k :: 0 <= k < i ==> rxBufs[k].descHead != head
      {
        if rxBufs[i].descHead == head {
          return Some(i);
        }
        i := i + 1;
      }
      r := None;
    }

    /** Releases the chain of a buffer and posts the buffer again: it gets back
        the descriptor it had. */
    method Recycle(i: nat)
      requires rx.Valid() && |rxBufs| == RX_BUF_COUNT && Posted(rxBufs, RX_BUF_COUNT, rx.chains, rx.desc[..]) && i < RX_BUF_COUNT
      requires forall h :: h in rx.stage ==> (rx.stage[h] == Popped <==> h == rxBufs[i].descHead)
      modifies this`rxBufs, rx, rx.desc, rx.availRing
      ensures Valid()
      ensures rxBufs == old(rxBufs) && rx.chains == old(rx.chains) && rx.free == old(rx.free)
      ensures rx.used == old(rx.used) && rx.published == old(rx.published) + [rxBufs[i].descHead]
    {
      hide Partitioned, FreeListLinked, ChainLinked, Tracked, Ring;
      ghost var bufs, chains, desc := rxBufs, rx.chains, rx.desc[..];
      var b := rxBufs[i];
      assert PostedAt(b, chains, desc);
      var posted := Repost(b);
      if posted.Ok? {
        rxBufs := rxBufs[i := RxBuf(b.phys, posted.value)];
      }
      assert rxBufs == bufs;
      PostedAgain(bufs, RX_BUF_COUNT, i, chains, desc, rx.desc[..]);
    }

    method Repost(b: RxBuf) returns (r: Result<nat, VqError>)
      requires rx.Valid() && b.descHead in rx.chains && rx.chains[b.descHead] == [b.descHead]
      requires rx.stage[b.descHead] == Popped
      modifies rx, rx.desc, rx.availRing
      ensures rx.Valid() && r == Ok(b.descHead)
      ensures rx.chains == old(rx.chains) && rx.free == old(rx.free) && rx.used == old(rx.used)
      ensures rx.published == old(rx.published) + [b.descHead]
      ensures rx.stage == old(rx.stage)[b.descHead := Published]
      ensures Describes(rx.desc[..], b.descHead, Buf(b.phys, RX_BUF_BYTES, true))
      ensures forall d :: 0 <= d < QUEUE_SIZE && d != b.descHead ==> rx.desc[d] == old(rx.desc[d])
    {
      hide Partitioned, FreeListLinked, ChainLinked, Tracked, Ring;
      rx.FreeChain(b.descHead);
      r := rx.AddBuf([Buf(b.phys, RX_BUF_BYTES, true)]);
      assert Describes(rx.desc[..], rx.chains[b.descHead][0], Buf(b.phys, RX_BUF_BYTES, true));
      assert rx.chains[b.descHead] == [b.descHead];
    }

    /** The device fetches the next published buffer: every buffer stays posted
        where it is. */
    method DeviceFetches() returns (head: nat)
      requires Valid() && rx.published != []
      modifies rx
      ensures Valid()
      ensures rx.chains == old(rx.chains) && rx.free == old(rx.free) && rx.used == old(rx.used)
      ensures head == old(rx.published)[0] && rx.published == old(rx.published)[1..]
      ensures head in rx.stage && rx.stage[head] == AtDevice
    {
      hide Partitioned, FreeListLinked, ChainLinked, Tracked, Ring, Posted;
      head := rx.DeviceFetch();
    }

    /** The device fills any buffer it has fetched: every buffer stays posted
        where it is. */
    method DeviceFills(head: nat, len: nat)
      requires Valid() && head in rx.stage && rx.stage[head] == AtDevice
      modifies rx, rx.usedRing
      ensures Valid()
      ensures rx.chains == old(rx.chains) && rx.free == old(rx.free) && rx.published == old(rx.published)
      ensures rx.used == old(rx.used) + [UsedElem(head, len)]
    {
      hide Partitioned, FreeListLinked, ChainLinked, Tracked, Ring, Posted;
      rx.DeviceComplete(head, len);
    }

    /** Takes one received frame, of which `outLen` bytes fit the caller's
        buffer, and posts its buffer again, under the head it had before. */
    method PollRx(outLen: nat) returns (r: Option<nat>)
      requires Valid()
      modifies this`rxBufs, rx, rx.desc, rx.availRing
      ensures Valid()
      ensures r.None? <==> old(rx.used) == []
      ensures rxBufs == old(rxBufs) && rx.chains == old(rx.chains) && rx.free == old(rx.free)
      ensures r.Some? ==>
                var elem := old(rx.used)[0];
                && r.value == Min(if elem.len > VIRTIO_NET_HDR_LEN then elem.len - VIRTIO_NET_HDR_LEN else 0, outLen)
                && rx.used == old(rx.used)[1..] && rx.published == old(rx.published) + [elem.id]
    {
      hide Partitioned, FreeListLinked, ChainLinked, Tracked, Ring, PostedAt;
      var elem := rx.PopUsed();
      if elem.None? {
        return None;
      }
      var head := elem.value.id;
      var buf := FindBuf(head);
      if buf.None? {
        return None;
      }
      var phys := rxBufs[buf.value].phys;
      var frameLen := if elem.value.len > VIRTIO_NET_HDR_LEN then elem.value.len - VIRTIO_NET_HDR_LEN else 0;
      var n := Min(frameLen, outLen);
      Recycle(buf.value);
      r := Some(n);
    }
  }
}
