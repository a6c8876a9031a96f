/**
 The split virtqueue that the network driver shares with its device.

 Descriptors are linked into a free list and into the chains handed to the
 device through the same `next` fields. The device is an adversary: it fetches
 published chains and completes fetched ones in any order and at any time.
 */
module Virtqueues {
  import opened Wrappers
  import opened Distinctness

  const QUEUE_SIZE := 256
  const MAX_CHAIN := 8
  const IDX_MODULUS := 65536

  datatype Desc = Desc(addr: nat, len: nat, hasNext: bool, write: bool, next: nat)

  datatype Buf = Buf(addr: nat, len: nat, write: bool)

  datatype UsedElem = UsedElem(id: nat, len: nat)

  datatype VqError = NoFreeDescriptors

  /** Who has a descriptor: the free list, a chain, or a call that is building
      or releasing one; and at which position there. */
  datatype Owner = Free(pos: nat) | InChain(head: nat, pos: nat) | Loose(pos: nat)

  /** Where a chain is on its way through the device. */
  datatype Stage = Published | AtDevice | Used | Popped

  /** The slot of a ring that a 16-bit index selects. */
  function Slot(idx: nat): (s: nat)
    ensures s < QUEUE_SIZE
  {
    idx % QUEUE_SIZE
  }

  function WrapIdx(idx: nat): (w: nat)
    ensures w < IDX_MODULUS
  {
    idx % IDX_MODULUS
  }

  lemma WrapKeepsSlot(idx: nat)
    ensures Slot(WrapIdx(idx)) == Slot(idx)
  {
    assert idx == IDX_MODULUS * (idx / IDX_MODULUS) + WrapIdx(idx);
    assert idx == QUEUE_SIZE * (256 * (idx / IDX_MODULUS)) + WrapIdx(idx);
  }

  lemma WrapNext(idx: nat)
    ensures WrapIdx(WrapIdx(idx) + 1) == WrapIdx(idx + 1)
  {
  }

  /** The free list, top last: each descriptor links to the one below it, and
      the link of the lowest is not looked at. */
  ghost predicate FreeListLinked(desc: seq<Desc>, free: seq<nat>, freeHead: nat) {
    && (forall i :: 0 <= i < |free| ==> free[i] < |desc|)
    && (forall i :: 1 <= i < |free| ==> desc[free[i]].next == free[i - 1])
    && (free != [] ==> freeHead == free[|free| - 1])
  }

  /** A chain: each descriptor but the last links to the next one. */
  ghost predicate ChainLinked(desc: seq<Desc>, chain: seq<nat>) {
    && (forall i :: 0 <= i < |chain| ==> chain[i] < |desc|)
    && (forall i :: 0 <= i < |chain| ==> desc[chain[i]].hasNext == (i + 1 < |chain|))
    && (forall i :: 0 <= i < |chain| - 1 ==> desc[chain[i]].next == chain[i + 1])
  }

  type Chains = map<nat, seq<nat>>

  /** Every descriptor has exactly one owner; `loose[from..]` are those in the
      hands of a running call. */
  ghost predicate Partitioned(owner: seq<Owner>, free: seq<nat>, chains: Chains, loose: seq<nat>, from: nat) {
    && |owner| == QUEUE_SIZE
    && (forall i :: 0 <= i < |free| ==> free[i] < QUEUE_SIZE && owner[free[i]] == Free(i))
    && (forall i :: from <= i < |loose| ==> loose[i] < QUEUE_SIZE && owner[loose[i]] == Loose(i))
    && (forall h :: h in chains ==> chains[h] != [] && chains[h][0] == h)
    && (forall h, i :: h in chains && 0 <= i < |chains[h]| ==>
          chains[h][i] < QUEUE_SIZE && owner[chains[h][i]] == InChain(h, i))
    && (forall d :: 0 <= d < QUEUE_SIZE ==> Owns(owner[d], d, free, chains, loose, from))
  }

  ghost predicate Owns(o: Owner, d: nat, free: seq<nat>, chains: Chains, loose: seq<nat>, from: nat) {
    match o
    case Free(i) => i < |free| && free[i] == d
    case Loose(i) => from <= i < |loose| && loose[i] == d
    case InChain(h, i) => h in chains && i < |chains[h]| && chains[h][i] == d
  }

  /** Free list and chains partition the descriptors. */
  lemma SlotsArePartitioned(owner: seq<Owner>, free: seq<nat>, chains: Chains)
    requires Partitioned(owner, free, chains, [], 0)
    ensures NoRepeats(free)
    ensures forall h :: h in chains ==> NoRepeats(chains[h])
    ensures forall d :: 0 <= d < QUEUE_SIZE ==> (d in free <==> !exists h :: h in chains && d in chains[h])
    ensures forall g, h, d :: g in chains && h in chains && d in chains[g] && d in chains[h] ==> g == h
  {
    forall d | 0 <= d < QUEUE_SIZE
      ensures d in free <==> !exists h :: h in chains && d in chains[h]
    {
      assert Owns(owner[d], d, free, chains, [], 0);
    }
  }

  lemma Taken(owner: seq<Owner>, free: seq<nat>, chains: Chains, loose: seq<nat>)
    requires Partitioned(owner, free, chains, loose, 0) && free != []
    ensures var d := free[|free| - 1];
            Partitioned(owner[d := Loose(|loose|)], free[..|free| - 1], chains, loose + [d], 0)
  {
    var d := free[|free| - 1];
    var owner' := owner[d := Loose(|loose|)];
    var free' := free[..|free| - 1];
    forall e | 0 <= e < QUEUE_SIZE
      ensures Owns(owner'[e], e, free', chains, loose + [d], 0)
    {
      assert Owns(owner[e], e, free, chains, loose, 0);
    }
  }

  lemma Given(owner: seq<Owner>, free: seq<nat>, chains: Chains, loose: seq<nat>, k: nat)
    requires Partitioned(owner, free, chains, loose, k) && k < |loose|
    ensures Partitioned(owner[loose[k] := Free(|free|)], free + [loose[k]], chains, loose, k + 1)
  {
    var d := loose[k];
    var owner' := owner[d := Free(|free|)];
    forall e | 0 <= e < QUEUE_SIZE
      ensures Owns(owner'[e], e, free + [d], chains, loose, k + 1)
    {
      assert Owns(owner[e], e, free, chains, loose, k);
    }
  }

  /** Owners after the loose descriptors become the chain `head`. */
  ghost function Chained(owner: seq<Owner>, head: nat): (r: seq<Owner>) {
    seq(|owner|, d requires 0 <= d < |owner| => if owner[d].Loose? then InChain(head, owner[d].pos) else owner[d])
  }

  /** Owners after the descriptors of the chain `head` are taken apart. */
  ghost function Unchained(owner: seq<Owner>, head: nat): (r: seq<Owner>) {
    seq(|owner|, d requires 0 <= d < |owner| =>
      if owner[d].InChain? && owner[d].head == head then Loose(owner[d].pos) else owner[d])
  }

  lemma ChainedIsPartitioned(owner: seq<Owner>, free: seq<nat>, chains: Chains, loose: seq<nat>)
    requires Partitioned(owner, free, chains, loose, 0) && loose != []
    ensures loose[0] !in chains
    ensures Partitioned(Chained(owner, loose[0]), free, chains[loose[0] := loose], [], 0)
  {
    var h := loose[0];
    assert owner[h] == Loose(0);
    forall e | 0 <= e < QUEUE_SIZE
      ensures Owns(Chained(owner, h)[e], e, free, chains[h := loose], [], 0)
    {
      assert Owns(owner[e], e, free, chains, loose, 0);
    }
  }

  lemma UnchainedIsPartitioned(owner: seq<Owner>, free: seq<nat>, chains: Chains, head: nat)
    requires Partitioned(owner, free, chains, [], 0) && head in chains
    ensures chains[head] != [] && chains[head][0] == head
    ensures Partitioned(Unchained(owner, head), free, chains - {head}, chains[head], 0)
  {
    forall e | 0 <= e < QUEUE_SIZE
      ensures Owns(Unchained(owner, head)[e], e, free, chains - {head}, chains[head], 0)
    {
      assert Owns(owner[e], e, free, chains, [], 0);
    }
  }

  lemma LooseIsOwned(owner: seq<Owner>, free: seq<nat>, chains: Chains, loose: seq<nat>, from: nat, k: nat)
    requires Partitioned(owner, free, chains, loose, from) && from <= k < |loose|
    ensures loose[k] < |owner| == QUEUE_SIZE && owner[loose[k]] == Loose(k)
    ensures loose[k] !in free
  {
  }

  /** Writing a descriptor that a call holds disturbs no list. */
  lemma LooseWrite(desc: seq<Desc>, x: Desc, d: nat, owner: seq<Owner>, free: seq<nat>, freeHead: nat,
                   chains: Chains, loose: seq<nat>, from: nat)
    requires Partitioned(owner, free, chains, loose, from) && |desc| == QUEUE_SIZE
    requires d < QUEUE_SIZE && owner[d].Loose?
    requires FreeListLinked(desc, free, freeHead)
    requires forall h :: h in chains ==> ChainLinked(desc, chains[h])
    ensures FreeListLinked(desc[d := x], free, freeHead)
    ensures forall h :: h in chains ==> ChainLinked(desc[d := x], chains[h])
  {
    forall h | h in chains
      ensures ChainLinked(desc[d := x], chains[h])
    {
      assert forall i :: 0 <= i < |chains[h]| ==> owner[chains[h][i]] == InChain(h, i);
    }
  }

  ghost function AllFree(): (r: seq<nat>)
    ensures |r| == QUEUE_SIZE && forall i :: 0 <= i < QUEUE_SIZE ==> r[i] == QUEUE_SIZE - 1 - i
  {
    seq(QUEUE_SIZE, i requires 0 <= i < QUEUE_SIZE => QUEUE_SIZE - 1 - i)
  }

  ghost function AllFreeOwners(): (r: seq<Owner>)
    ensures Partitioned(r, AllFree(), map[], [], 0)
  {
    seq(QUEUE_SIZE, d requires 0 <= d < QUEUE_SIZE => Free(QUEUE_SIZE - 1 - d))
  }

  /** A ring whose slots from index `base` on hold a queue. */
  ghost predicate Ring<T>(ring: seq<T>, base: nat, queue: seq<T>) {
    && |ring| == QUEUE_SIZE && |queue| <= QUEUE_SIZE
    && forall i :: 0 <= i < |queue| ==> ring[Slot(base + i)] == queue[i]
  }

  lemma RingPush<T>(ring: seq<T>, base: nat, queue: seq<T>, x: T)
    requires Ring(ring, base, queue) && |queue| < QUEUE_SIZE
    ensures |ring| == QUEUE_SIZE
    ensures Ring(ring[Slot(base + |queue|) := x], base, queue + [x])
  {
    var ring', queue' := ring[Slot(base + |queue|) := x], queue + [x];
    forall i | 0 <= i < |queue'|
      ensures ring'[Slot(base + i)] == queue'[i]
    {
      if i < |queue| {
        assert Slot(base + i) != Slot(base + |queue|);
      }
    }
  }

  lemma RingPop<T>(ring: seq<T>, base: nat, queue: seq<T>)
    requires Ring(ring, base, queue) && queue != []
    ensures |ring| == QUEUE_SIZE && ring[Slot(base)] == queue[0]
    ensures Ring(ring, base + 1, queue[1..])
  {
    assert ring[Slot(base + 0)] == queue[0];
    forall i | 0 <= i < |queue| - 1
      ensures ring[Slot(base + 1 + i)] == queue[1..][i]
    {
      assert ring[Slot(base + (i + 1))] == queue[i + 1];
    }
  }

  /** The two queues hold exactly the chains of their stage, each once. */
  ghost predicate Tracked(stage: map<nat, Stage>, published: seq<nat>, used: seq<UsedElem>) {
    && (forall h :: h in stage ==> h < QUEUE_SIZE)
    && NoRepeats(published)
    && (forall h :: h in published <==> h in stage && stage[h] == Published)
    && (forall i, j :: 0 <= i < j < |used| ==> used[i].id != used[j].id)
    && (forall i :: 0 <= i < |used| ==> used[i].id in stage && stage[used[i].id] == Used)
    && (forall h :: h in stage && stage[h] == Used ==> exists i :: 0 <= i < |used| && used[i].id == h)
  }

  lemma TrackPublished(stage: map<nat, Stage>, published: seq<nat>, used: seq<UsedElem>, head: nat)
    requires Tracked(stage, published, used) && head !in stage && head < QUEUE_SIZE
    ensures |published| < QUEUE_SIZE
    ensures Tracked(stage[head := Published], published + [head], used)
  {
    assert forall i :: 0 <= i < |published| ==> published[i] in published;
    NoRepeatsBound(published + [head], QUEUE_SIZE);
  }

  lemma TrackFetched(stage: map<nat, Stage>, published: seq<nat>, used: seq<UsedElem>)
    requires Tracked(stage, published, used) && published != []
    ensures published[0] in stage
    ensures Tracked(stage[published[0] := AtDevice], published[1..], used)
  {
    assert published[0] in published;
    assert forall h :: h in published[1..] <==> h in published && h != published[0];
  }

  lemma TrackUsed(stage: map<nat, Stage>, published: seq<nat>, used: seq<UsedElem>, head: nat, len: nat)
    requires Tracked(stage, published, used) && head in stage && stage[head] == AtDevice
    ensures |used| < QUEUE_SIZE
    ensures Tracked(stage[head := Used], published, used + [UsedElem(head, len)])
  {
    var stage', used' := stage[head := Used], used + [UsedElem(head, len)];
    forall h | h in stage' && stage'[h] == Used
      ensures exists i :: 0 <= i < |used'| && used'[i].id == h
    {
      if h == head {
        assert used'[|used|].id == h;
      } else {
        var i :| 0 <= i < |used| && used[i].id == h;
        assert used'[i].id == h;
      }
    }
    var ids := seq(|used'|, i requires 0 <= i < |used'| => used'[i].id);
    NoRepeatsBound(ids, QUEUE_SIZE);
  }

  lemma TrackPopped(stage: map<nat, Stage>, published: seq<nat>, used: seq<UsedElem>)
    requires Tracked(stage, published, used) && used != []
    ensures used[0].id in stage && stage[used[0].id] == Used
    ensures Tracked(stage[used[0].id := Popped], published, used[1..])
  {
    var stage', used' := stage[used[0].id := Popped], used[1..];
    forall h | h in stage' && stage'[h] == Used
      ensures exists i :: 0 <= i < |used'| && used'[i].id == h
    {
      var i :| 0 <= i < |used| && used[i].id == h;
      assert used'[i - 1].id == h;
    }
  }

  lemma TrackFreed(stage: map<nat, Stage>, published: seq<nat>, used: seq<UsedElem>, head: nat)
    requires Tracked(stage, published, used) && head in stage && stage[head] == Popped
    ensures Tracked(stage - {head}, published, used)
  {
  }

  class Virtqueue {
    // Shared with the device
    const desc: array<Desc>
    const availRing: array<nat>
    var availIdx: nat
    const usedRing: array<UsedElem>
    var usedIdx: nat
    // The driver's own
    var freeHead: nat
    var numFree: nat
    var lastUsedIdx: nat
    // The device's own
    var deviceIdx: nat

    ghost var free: seq<nat>
    ghost var chains: Chains
    ghost var owner: seq<Owner>
    ghost var stage: map<nat, Stage>
    /** Chains published and not fetched yet, and used and not popped yet. */
    ghost var published: seq<nat>
    ghost var used: seq<UsedElem>
    /** How many chains were fetched and popped so far. */
    ghost var fetched: nat
    ghost var popped: nat

    ghost predicate Shaped()
      reads this
    {
      && desc.Length == QUEUE_SIZE && availRing.Length == QUEUE_SIZE && usedRing.Length == QUEUE_SIZE
      && usedRing as object != desc as object && usedRing as object != availRing as object
      && desc as object != availRing as object
    }

    /** The descriptor table, while `loose[from..]` are in the hands of a call. */
    ghost predicate DescValid(loose: seq<nat>, from: nat)
      reads this, desc
    {
      && desc.Length == QUEUE_SIZE
      && Partitioned(owner, free, chains, loose, from)
      && FreeListLinked(desc[..], free, freeHead)
      && (forall h :: h in chains ==> ChainLinked(desc[..], chains[h]))
      && numFree == |free|
    }

    ghost predicate RingsValid()
      reads this, availRing, usedRing
    {
      && Ring(availRing[..], fetched, published) && Ring(usedRing[..], popped, used)
      && deviceIdx == WrapIdx(fetched) && availIdx == WrapIdx(fetched + |published|)
      && lastUsedIdx == WrapIdx(popped) && usedIdx == WrapIdx(popped + |used|)
    }

    ghost predicate Valid()
      reads this, desc, availRing, usedRing
    {
      && Shaped() && DescValid([], 0) && RingsValid()
      && stage.Keys == chains.Keys && Tracked(stage, published, used)
    }

    constructor ()
      ensures Valid() && fresh(desc) && fresh(availRing) && fresh(usedRing)
      ensures chains == map[] && numFree == QUEUE_SIZE
      ensures free == AllFree()
    {
      hide Partitioned, Owns;
      desc := new Desc[QUEUE_SIZE](_ => Desc(0, 0, false, false, 0));
      availRing := new nat[QUEUE_SIZE](_ => 0);
      usedRing := new UsedElem[QUEUE_SIZE](_ => UsedElem(0, 0));
      availIdx, usedIdx, deviceIdx, lastUsedIdx, freeHead, numFree := 0, 0, 0, 0, 0, QUEUE_SIZE;
      free, owner := AllFree(), AllFreeOwners();
      chains, stage, published, used, fetched, popped := map[], map[], [], [], 0, 0;
      new;
      LinkAll();
    }

    /** Threads the free list through the whole table. */
    method LinkAll()
      requires desc.Length == QUEUE_SIZE
      modifies desc
      ensures FreeListLinked(desc[..], AllFree(), 0)
    {
      for i := 0 to QUEUE_SIZE
        invariant forall k :: 0 <= k < i ==> desc[k].next == k + 1
      {
        desc[i] := desc[i].(next := i + 1, hasNext := true);
      }
      desc[QUEUE_SIZE - 1] := desc[QUEUE_SIZE - 1].(hasNext := false, next := 0);
    }

    /** Takes the top of the free list. */
    method AllocDesc(ghost loose: seq<nat>) returns (r: Option<nat>)
      requires DescValid(loose, 0)
      modifies this`freeHead, this`numFree, this`free, this`owner
      ensures r.None? <==> old(free) == []
      ensures r.None? ==> unchanged(this) && DescValid(loose, 0)
      ensures r.Some? ==> r.value == old(free)[|old(free)| - 1] && free == old(free)[..|old(free)| - 1]
      ensures r.Some? ==> DescValid(loose + [r.value], 0)
    {
      if numFree == 0 {
        return None;
      }
      var head := freeHead;
      Taken(owner, free, chains, loose);
      var next := desc[head].next;
      freeHead := next;
      numFree := numFree - 1;
      owner := owner[head := Loose(|loose|)];
      free := free[..|free| - 1];
      r := Some(head);
    }

    /** Puts one loose descriptor on top of the free list. */
    method FreeDesc(idx: nat, ghost loose: seq<nat>, ghost k: nat)
      requires DescValid(loose, k) && k < |loose| && idx == loose[k]
      modifies this`freeHead, this`numFree, this`free, this`owner, desc
      ensures DescValid(loose, k + 1)
      ensures free == old(free) + [idx]
      ensures forall d :: 0 <= d < QUEUE_SIZE && d != idx ==> desc[d] == old(desc[d])
    {
      hide Partitioned, Owns, ChainLinked;
      LooseIsOwned(owner, free, chains, loose, k, k);
      Given(owner, free, chains, loose, k);
      ghost var d := desc[idx].(hasNext := true, write := false, next := freeHead);
      LooseWrite(desc[..], d, idx, owner, free, freeHead, chains, loose, k);
      ghost var was := desc[..];
      desc[idx] := desc[idx].(hasNext := true, write := false, next := freeHead);
      assert desc[..] == was[idx := d];
      freeHead := idx;
      numFree := numFree + 1;
      owner := owner[idx := Free(|free|)];
      free := free + [idx];
    }

    /** Releases the chain `head`, which the driver has taken back. */
    method FreeChain(head: nat)
      requires Valid() && head in chains && stage[head] == Popped
      modifies this`freeHead, this`numFree, this`free, this`owner, this`chains, this`stage, desc
      ensures Valid()
      ensures free == old(free) + old(chains[head])
      ensures chains == old(chains) - {head} && stage == old(stage) - {head}
      ensures forall d :: 0 <= d < QUEUE_SIZE && d !in old(chains[head]) ==> desc[d] == old(desc[d])
    {
      hide Partitioned, Owns, FreeListLinked, ChainLinked, Tracked, Ring;
      ghost var chain := chains[head];
      TrackFreed(stage, published, used, head);
      UnchainedIsPartitioned(owner, free, chains, head);
      assert ChainLinked(desc[..], chain);
      chains, stage, owner := chains - {head}, stage - {head}, Unchained(owner, head);
      ReleaseAll(head, chain);
      Emptied(owner, free, chains, chain);
    }

    /** Walks the links of a chain and frees each descriptor on the way. */
    method ReleaseAll(head: nat, ghost chain: seq<nat>)
      requires DescValid(chain, 0) && chain != [] && chain[0] == head && ChainLinked(desc[..], chain)
      modifies this`freeHead, this`numFree, this`free, this`owner, desc
      ensures DescValid(chain, |chain|)
      ensures free == old(free) + chain
      ensures forall d :: 0 <= d < QUEUE_SIZE && d !in chain ==> desc[d] == old(desc[d])
    {
      hide Partitioned, Owns, FreeListLinked;
      var cur := head;
      ghost var k: nat := 0;
      while true
        invariant DescValid(chain, k) && k < |chain| && cur == chain[k]
        invariant ChainLinked(old(desc[..]), chain)
        invariant free == old(free) + chain[..k]
        invariant forall d :: 0 <= d < QUEUE_SIZE && d !in chain[..k] ==> desc[d] == old(desc[d])
        decreases |chain| - k
      {
        assert cur !in chain[..k] by { NotYetFreed(owner, free, chains, chain, k); }
        var hasNext, next := desc[cur].hasNext, desc[cur].next;
        FreeDesc(cur, chain, k);
        assert chain[..k + 1] == chain[..k] + [cur];
        k := k + 1;
        if !hasNext {
          break;
        }
        cur := next;
      }
      assert chain[..k] == chain;
    }

    /** Takes the descriptors of a chain from the free list. */
    method AllocAll(n: nat) returns (indices: seq<nat>)
      requires DescValid([], 0) && n <= numFree
      modifies this`freeHead, this`numFree, this`free, this`owner
      ensures DescValid(indices, 0) && |indices| == n
      ensures free == old(free)[..|old(free)| - n]
      ensures forall i :: 0 <= i < n ==> indices[i] == old(free)[|old(free)| - 1 - i]
    {
      hide Partitioned, Owns, FreeListLinked, ChainLinked;
      indices := [];
      for k := 0 to n
        invariant DescValid(indices, 0) && |indices| == k
        invariant free == old(free)[..|old(free)| - k]
        invariant forall i :: 0 <= i < k ==> indices[i] == old(free)[|old(free)| - 1 - i]
      {
        var d := AllocDesc(indices);
        indices := indices + [d.value];
      }
    }

    /** Fills in the descriptors of a chain. */
    method Populate(bufs: seq<Buf>, indices: seq<nat>)
      requires DescValid(indices, 0) && |indices| == |bufs| > 0
      modifies desc
      ensures DescValid(indices, 0) && ChainLinked(desc[..], indices)
      ensures forall i :: 0 <= i < |bufs| ==> Describes(desc[..], indices[i], bufs[i])
      ensures forall d :: 0 <= d < QUEUE_SIZE && d !in indices ==> desc[d] == old(desc[d])
    {
      hide Partitioned, Owns, FreeListLinked, ChainLinked, Filled;
      LooseBounds(owner, free, chains, indices);
      ghost var base := desc[..];
      FilledNone(base, bufs, indices);
      for i := 0 to |bufs|
        invariant DescValid(indices, 0) && Filled(desc[..], base, bufs, indices, i)
      {
        var last := i + 1 == |bufs|;
        FilledMore(desc[..], base, bufs, indices, i);
        PopulateOne(bufs[i], last, if last then 0 else indices[i + 1], indices, i);
      }
      FilledAll(desc[..], base, bufs, indices);
    }

    method PopulateOne(buf: Buf, last: bool, next: nat, indices: seq<nat>, i: nat)
      requires DescValid(indices, 0) && i < |indices| && indices[i] < QUEUE_SIZE
      modifies desc
      ensures DescValid(indices, 0)
      ensures desc[..] == old(desc[..])[indices[i] := Desc(buf.addr, buf.len, !last, buf.write, next)]
    {
      hide Partitioned, Owns, FreeListLinked, ChainLinked;
      LooseIsOwned(owner, free, chains, indices, 0, i);
      LooseWrite(desc[..], Desc(buf.addr, buf.len, !last, buf.write, next), indices[i], owner, free, freeHead,
                 chains, indices, 0);
      ghost var was := desc[..];
      desc[indices[i]] := Desc(buf.addr, buf.len, !last, buf.write, next);
      assert desc[..] == was[indices[i] := Desc(buf.addr, buf.len, !last, buf.write, next)];
    }

    /** Publishes a chain of buffers. It is refused exactly when it is empty,
        too long, or longer than the free list. */
    method AddBuf(bufs: seq<Buf>) returns (r: Result<nat, VqError>)
      requires Valid()
      modifies this`freeHead, this`numFree, this`free, this`owner, this`chains, this`stage,
               this`published, this`availIdx, desc, availRing
      ensures Valid()
      ensures r.Err? <==> bufs == [] || |bufs| > old(numFree) || |bufs| > MAX_CHAIN
      ensures r.Err? ==> unchanged(this) && unchanged(desc) && unchanged(availRing)
      ensures r.Ok? ==>
                var n := |old(free)|;
                && r.value == old(free)[n - 1] && r.value !in old(chains)
                && free == old(free)[..n - |bufs|]
                && published == old(published) + [r.value] && stage == old(stage)[r.value := Published]
                && chains.Keys == old(chains).Keys + {r.value}
                && (forall h :: h in old(chains) ==> chains[h] == old(chains[h]))
                && |chains[r.value]| == |bufs|
                && (forall i :: 0 <= i < |bufs| ==>
                      chains[r.value][i] == old(free)[n - 1 - i] && Describes(desc[..], chains[r.value][i], bufs[i]))
                && (forall d :: 0 <= d < QUEUE_SIZE && d !in chains[r.value] ==> desc[d] == old(desc[d]))
    {
      hide Partitioned, Owns, FreeListLinked, ChainLinked, Tracked, Ring, WrapIdx, Describes, Chained;
      if bufs == [] || |bufs| > numFree || |bufs| > MAX_CHAIN {
        return Err(NoFreeDescriptors);
      }
      var indices := AllocAll(|bufs|);
      Populate(bufs, indices);
      var head := indices[0];
      ChainedIsPartitioned(owner, free, chains, indices);
      LooseBounds(owner, free, chains, indices);
      owner, chains := Chained(owner, head), chains[head := indices];
      assert DescValid([], 0);
      Publish(head);
      r := Ok(head);
    }

    /** Hands a chain to the device through the available ring. */
    method Publish(head: nat)
      requires Shaped() && RingsValid() && Tracked(stage, published, used) && head !in stage && head < QUEUE_SIZE
      modifies this`stage, this`published, this`availIdx, availRing
      ensures RingsValid() && Tracked(stage, published, used)
      ensures published == old(published) + [head] && stage == old(stage)[head := Published]
    {
      hide Tracked, Ring;
      TrackPublished(stage, published, used, head);
      RingPush(availRing[..], fetched, published, head);
      WrapNext(fetched + |published|);
      WrapKeepsSlot(fetched + |published|);
      ghost var was := availRing[..];
      var slot := Slot(availIdx);
      availRing[slot] := head;
      assert availRing[..] == was[slot := head];
      availIdx := WrapIdx(availIdx + 1);
      published := published + [head];
      stage := stage[head := Published];
    }

    /** Takes back the oldest chain that the device has used, if any. */
    method PopUsed() returns (r: Option<UsedElem>)
      requires Valid()
      modifies this`lastUsedIdx, this`stage, this`used, this`popped
      ensures Valid()
      ensures r.None? <==> old(used) == []
      ensures r.None? ==> unchanged(this)
      ensures r.Some? ==> r.value == old(used)[0] && used == old(used)[1..]
      ensures r.Some? ==> r.value.id in old(stage) && old(stage[r.value.id]) == Used
      ensures r.Some? ==> stage == old(stage)[r.value.id := Popped]
    {
      hide Tracked, Partitioned, FreeListLinked, ChainLinked;
      if usedIdx == lastUsedIdx {
        assert used == [];
        return None;
      }
      hide Ring;
      TrackPopped(stage, published, used);
      RingPop(usedRing[..], popped, used);
      WrapNext(popped);
      WrapKeepsSlot(popped);
      var slot := Slot(lastUsedIdx);
      var elem := usedRing[slot];
      lastUsedIdx := WrapIdx(lastUsedIdx + 1);
      stage, used, popped := stage[elem.id := Popped], used[1..], popped + 1;
      r := Some(elem);
    }

    /** The device fetches the next published chain. */
    method DeviceFetch() returns (head: nat)
      requires Valid() && published != []
      modifies this`deviceIdx, this`stage, this`published, this`fetched
      ensures Valid()
      ensures head == old(published)[0] && published == old(published)[1..]
      ensures head in old(stage) && stage == old(stage)[head := AtDevice]
    {
      hide Tracked, Partitioned, FreeListLinked, ChainLinked, Ring;
      TrackFetched(stage, published, used);
      RingPop(availRing[..], fetched, published);
      WrapNext(fetched);
      WrapKeepsSlot(fetched);
      head := availRing[Slot(deviceIdx)];
      deviceIdx := WrapIdx(deviceIdx + 1);
      stage, published, fetched := stage[head := AtDevice], published[1..], fetched + 1;
    }

    /** The device reports a chain it has fetched, whichever it likes, as used. */
    method DeviceComplete(head: nat, len: nat)
      requires Valid() && head in stage && stage[head] == AtDevice
      modifies this`usedIdx, this`stage, this`used, usedRing
      ensures Valid()
      ensures used == old(used) + [UsedElem(head, len)] && stage == old(stage)[head := Used]
    {
      hide Tracked, Partitioned, FreeListLinked, ChainLinked, Ring;
      TrackUsed(stage, published, used, head, len);
      RingPush(usedRing[..], popped, used, UsedElem(head, len));
      WrapNext(popped + |used|);
      WrapKeepsSlot(popped + |used|);
      ghost var was := usedRing[..];
      var slot := Slot(usedIdx);
      usedRing[slot] := UsedElem(head, len);
      assert usedRing[..] == was[slot := UsedElem(head, len)];
      usedIdx := WrapIdx(usedIdx + 1);
      stage, used := stage[head := Used], used + [UsedElem(head, len)];
    }
  }

  /** The descriptor `d` is that of the buffer `b`. */
  predicate Describes(desc: seq<Desc>, d: nat, b: Buf) {
    d < |desc| && desc[d].addr == b.addr && desc[d].len == b.len && desc[d].write == b.write
  }

  /** The first `i` descriptors of a chain have been filled in, and nothing else
      has been written. */
  ghost predicate Filled(desc: seq<Desc>, base: seq<Desc>, bufs: seq<Buf>, indices: seq<nat>, i: nat) {
    && |desc| == |base| && |indices| == |bufs| && i <= |bufs|
    && (forall k :: 0 <= k < |bufs| ==> indices[k] < |desc|)
    && (forall k :: 0 <= k < i ==> desc[indices[k]] == ChainDesc(bufs, indices, k))
    && (forall d :: 0 <= d < |desc| && d !in indices ==> desc[d] == base[d])
  }

  function ChainDesc(bufs: seq<Buf>, indices: seq<nat>, k: nat): Desc
    requires k < |bufs| == |indices|
  {
    var last := k + 1 == |bufs|;
    Desc(bufs[k].addr, bufs[k].len, !last, bufs[k].write, if last then 0 else indices[k + 1])
  }

  lemma FilledNone(base: seq<Desc>, bufs: seq<Buf>, indices: seq<nat>)
    requires |indices| == |bufs| && forall k :: 0 <= k < |bufs| ==> indices[k] < |base|
    ensures Filled(base, base, bufs, indices, 0)
  {
  }

  lemma FilledMore(desc: seq<Desc>, base: seq<Desc>, bufs: seq<Buf>, indices: seq<nat>, i: nat)
    requires Filled(desc, base, bufs, indices, i) && i < |bufs| && NoRepeats(indices)
    ensures |indices| == |bufs| && indices[i] < |desc|
    ensures Filled(desc[indices[i] := ChainDesc(bufs, indices, i)], base, bufs, indices, i + 1)
  {
    hide ChainDesc;
  }

  lemma FilledAll(desc: seq<Desc>, base: seq<Desc>, bufs: seq<Buf>, indices: seq<nat>)
    requires Filled(desc, base, bufs, indices, |bufs|)
    ensures ChainLinked(desc, indices) && |desc| == |base| && |indices| == |bufs|
    ensures forall i :: 0 <= i < |bufs| ==> Describes(desc, indices[i], bufs[i])
    ensures forall d :: 0 <= d < |desc| && d !in indices ==> desc[d] == base[d]
  {
  }

  lemma LooseBounds(owner: seq<Owner>, free: seq<nat>, chains: Chains, loose: seq<nat>)
    requires Partitioned(owner, free, chains, loose, 0)
    ensures NoRepeats(loose) && forall i :: 0 <= i < |loose| ==> loose[i] < QUEUE_SIZE
  {
  }

  lemma NotYetFreed(owner: seq<Owner>, free: seq<nat>, chains: Chains, loose: seq<nat>, k: nat)
    requires Partitioned(owner, free, chains, loose, k) && k < |loose|
    requires exists before: seq<nat> :: free == before + loose[..k]
    ensures loose[k] !in loose[..k]
  {
    var before: seq<nat> :| free == before + loose[..k];
    forall i | 0 <= i < k
      ensures loose[i] != loose[k]
    {
      assert free[|before| + i] == loose[i];
    }
  }

  lemma Emptied(owner: seq<Owner>, free: seq<nat>, chains: Chains, loose: seq<nat>)
    requires Partitioned(owner, free, chains, loose, |loose|)
    ensures Partitioned(owner, free, chains, [], 0)
  {
    forall d | 0 <= d < QUEUE_SIZE
      ensures Owns(owner[d], d, free, chains, [], 0)
    {
      assert Owns(owner[d], d, free, chains, loose, |loose|);
    }
  }
}
