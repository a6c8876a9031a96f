/** The heap allocator at work on its linked list. */
module HeapAllocator {
  import opened Wrappers
  import opened HeapBlocks
  import opened Heap
  import opened HeapPlaces

  /** The header at the start of each free block. */
  datatype Header = Header(size: nat, next: nat)

  // ---- Linked segments ----------------------------------------------------

  /** Following the links from address `a` meets the blocks `bs` and then `z`. */
  ghost predicate Links(a: nat, memory: map<nat, Header>, bs: seq<Block>, z: nat)
    decreases |bs|
  {
    if bs == [] then a == z
    else
      && a == bs[0].addr && a != NULL && a in memory
      && memory[a].size == bs[0].size
      && Links(memory[a].next, memory, bs[1..], z)
  }

  ghost predicate Elsewhere(addr: nat, bs: seq<Block>) {
    forall i :: 0 <= i < |bs| ==> bs[i].addr != addr
  }

  /** No two blocks have the same address. */
  ghost predicate Distinct(bs: seq<Block>) {
    forall i, j :: 0 <= i < j < |bs| ==> bs[i].addr != bs[j].addr
  }

  lemma {:induction false} LinksSplit(a: nat, memory: map<nat, Header>, bs: seq<Block>, cs: seq<Block>, z: nat)
    returns (y: nat)
    requires Links(a, memory, bs + cs, z)
    ensures Links(a, memory, bs, y) && Links(y, memory, cs, z)
    decreases |bs|
  {
    if bs == [] {
      assert bs + cs == cs;
      y := a;
    } else {
      assert (bs + cs)[1..] == bs[1..] + cs;
      y := LinksSplit(memory[a].next, memory, bs[1..], cs, z);
    }
  }

  lemma {:induction false} LinksConcat(a: nat, memory: map<nat, Header>, bs: seq<Block>, y: nat, cs: seq<Block>, z: nat)
    requires Links(a, memory, bs, y) && Links(y, memory, cs, z)
    ensures Links(a, memory, bs + cs, z)
    decreases |bs|
  {
    if bs == [] {
      assert bs + cs == cs;
    } else {
      assert (bs + cs)[1..] == bs[1..] + cs;
      LinksConcat(memory[a].next, memory, bs[1..], y, cs, z);
    }
  }

  lemma {:induction false} LinksFrame(a: nat, memory: map<nat, Header>, bs: seq<Block>, z: nat, addr: nat, h: Header)
    requires Links(a, memory, bs, z) && Elsewhere(addr, bs)
    ensures Links(a, memory[addr := h], bs, z)
    decreases |bs|
  {
    if bs != [] { LinksFrame(memory[a].next, memory, bs[1..], z, addr, h); }
  }

  /** Redirecting the last link. */
  lemma {:induction false} LinksRedirect(a: nat, memory: map<nat, Header>, bs: seq<Block>, z: nat, z': nat)
    requires Links(a, memory, bs, z) && Distinct(bs) && bs != []
    ensures
      var last := bs[|bs| - 1];
      last.addr in memory && memory[last.addr].size == last.size
      && Links(a, memory[last.addr := Header(last.size, z')], bs, z')
    decreases |bs|
  {
    if |bs| > 1 {
      assert bs[1..][|bs| - 2] == bs[|bs| - 1];
      LinksRedirect(memory[a].next, memory, bs[1..], z, z');
    }
  }

  lemma CanonicalIsDistinct(bs: seq<Block>)
    requires Canonical(bs)
    ensures Distinct(bs)
  {
  }

  // ---- The three ways the list is relinked --------------------------------

  /** Linking the block `b` in between `p` and `s`. */
  lemma LinkIn(head: nat, memory: map<nat, Header>, p: seq<Block>, here: nat, s: seq<Block>, b: Block)
    requires Links(head, memory, p, here) && Links(here, memory, s, NULL) && Distinct(p) && b.addr != NULL
    requires Elsewhere(b.addr, p) && Elsewhere(b.addr, s)
    requires p != [] ==> Elsewhere(p[|p| - 1].addr, s)
    ensures
      var linked := memory[b.addr := Header(b.size, here)];
      if p == [] then Links(b.addr, linked, p + [b] + s, NULL)
      else
        var last := p[|p| - 1];
        last.addr in memory && memory[last.addr].size == last.size
        && Links(head, linked[last.addr := Header(last.size, b.addr)], p + [b] + s, NULL)
  {
    var linked := memory[b.addr := Header(b.size, here)];
    LinksFrame(here, memory, s, NULL, b.addr, linked[b.addr]);
    assert ([b] + s)[1..] == s;
    assert Links(b.addr, linked, [b] + s, NULL);
    assert p + [b] + s == p + ([b] + s);
    if p == [] {
      assert p + [b] + s == [b] + s;
    } else {
      var last := p[|p| - 1];
      LinksFrame(head, memory, p, here, b.addr, linked[b.addr]);
      LinksRedirect(head, linked, p, here, b.addr);
      LinksFrame(b.addr, linked, [b] + s, NULL, last.addr, Header(last.size, b.addr));
      LinksConcat(head, linked[last.addr := Header(last.size, b.addr)], p, b.addr, [b] + s, NULL);
    }
  }

  /** Joining two neighbours `x` and `y`. */
  lemma JoinNext(head: nat, memory: map<nat, Header>, p: seq<Block>, x: Block, y: Block, s: seq<Block>)
    requires Links(head, memory, p + [x, y] + s, NULL)
    requires Elsewhere(x.addr, p) && Elsewhere(x.addr, s) && x.addr != y.addr
    ensures x.addr in memory && memory[x.addr].size == x.size && y.addr in memory && memory[y.addr].size == y.size
    ensures
      Links(head, memory[x.addr := Header(x.size + y.size, memory[y.addr].next)],
            p + [Block(x.addr, x.size + y.size)] + s, NULL)
  {
    assert p + [x, y] + s == p + ([x, y] + s);
    var at := LinksSplit(head, memory, p, [x, y] + s, NULL);
    assert ([x, y] + s)[1..] == [y] + s && ([y] + s)[1..] == s;
    var h := Header(x.size + y.size, memory[y.addr].next);
    var xy := Block(x.addr, x.size + y.size);
    LinksFrame(head, memory, p, x.addr, x.addr, h);
    LinksFrame(h.next, memory, s, NULL, x.addr, h);
    assert ([xy] + s)[1..] == s;
    assert p + [xy] + s == p + ([xy] + s);
    LinksConcat(head, memory[x.addr := h], p, x.addr, [xy] + s, NULL);
  }

  /** Unlinking the block `x`. */
  lemma Unlink(head: nat, memory: map<nat, Header>, p: seq<Block>, x: Block, s: seq<Block>)
    requires Links(head, memory, p, x.addr) && Links(x.addr, memory, [x] + s, NULL) && Distinct(p)
    requires p != [] ==> Elsewhere(p[|p| - 1].addr, s)
    ensures x.addr in memory && memory[x.addr].size == x.size
    ensures
      var next := memory[x.addr].next;
      if p == [] then Links(next, memory, p + s, NULL)
      else
        var last := p[|p| - 1];
        last.addr in memory && memory[last.addr].size == last.size
        && Links(head, memory[last.addr := Header(last.size, next)], p + s, NULL)
  {
    assert ([x] + s)[1..] == s;
    var next := memory[x.addr].next;
    if p == [] {
      assert p + s == s;
    } else {
      var last := p[|p| - 1];
      LinksRedirect(head, memory, p, x.addr, next);
      LinksFrame(next, memory, s, NULL, last.addr, Header(last.size, next));
      LinksConcat(head, memory[last.addr := Header(last.size, next)], p, next, s, NULL);
    }
  }

  /** One step along the list. */
  lemma Advance(head: nat, memory: map<nat, Header>, bs: seq<Block>, i: nat, at: nat)
    requires i < |bs| && Links(head, memory, bs[..i], at) && Links(at, memory, bs[i..], NULL)
    ensures at == bs[i].addr && at != NULL && at in memory && memory[at].size == bs[i].size
    ensures Links(head, memory, bs[..i + 1], memory[at].next) && Links(memory[at].next, memory, bs[i + 1..], NULL)
  {
    assert bs[i..][1..] == bs[i + 1..];
    assert [bs[i]][1..] == [];
    LinksConcat(head, memory, bs[..i], at, [bs[i]], memory[at].next);
    assert bs[..i] + [bs[i]] == bs[..i + 1];
  }

  class KernelHeap {
    var head: nat
    /** The memory of the heap, as far as it holds headers. */
    var memory: map<nat, Header>
    var heapSize: nat
    /** The blocks on the free list, those handed out, and the slivers that
        were too small to keep. */
    ghost var free: seq<Block>
    ghost var live: seq<Block>
    ghost var lost: seq<Block>

    ghost predicate Linked()
      reads this
    {
      Links(head, memory, free, NULL)
    }

    /** The neighbours between which `block` belongs. */
    method FindPlace(block: nat) returns (prev: nat, current: nat)
      requires Linked()
      ensures
        var i := Below(free, block);
        && Links(head, memory, free[..i], current) && Links(current, memory, free[i..], NULL)
        && prev == (if i == 0 then NULL else free[i - 1].addr)
        && current == (if i == |free| then NULL else free[i].addr)
        && (i < |free| ==> current != NULL) && (i > 0 ==> prev != NULL)
    {
      prev, current := NULL, head;
      ghost var i: nat := 0;
      assert free[..0] == [] && free[0..] == free;
      while current != NULL && current < block
        invariant i <= |free| && Links(head, memory, free[..i], current) && Links(current, memory, free[i..], NULL)
        invariant prev == if i == 0 then NULL else free[i - 1].addr
        invariant i > 0 ==> prev != NULL
        invariant forall j :: 0 <= j < i ==> free[j].addr < block
        decreases |free| - i
      {
        Advance(head, memory, free, i, current);
        prev := current;
        current := memory[current].next;
        i := i + 1;
      }
      if i < |free| { Advance(head, memory, free, i, current); }
      assert i == Below(free, block);
    }

    /** Joins two neighbours on the list if they touch. */
    method Coalesce(first: nat, second: nat, ghost p: seq<Block>, ghost x: Block, ghost y: Block, ghost s: seq<Block>)
      requires Links(head, memory, p + [x, y] + s, NULL) && x.addr == first && y.addr == second
      requires Elsewhere(first, p) && Elsewhere(first, s) && first != second
      modifies this`memory
      ensures Links(head, memory, if x.End() == second then p + [Block(first, x.size + y.size)] + s
                                  else p + [x, y] + s, NULL)
    {
      hide Links;
      JoinNext(head, memory, p, x, y, s);
      var end := first + memory[first].size;
      if end == second {
        memory := memory[first := Header(memory[first].size + memory[second].size, memory[second].next)];
      }
    }

    /** Links the block at `block` in between its neighbours. */
    method LinkBlock(block: nat, prev: nat, current: nat, ghost p: seq<Block>, ghost s: seq<Block>, ghost b: Block)
      requires Links(head, memory, p, current) && Links(current, memory, s, NULL) && Distinct(p)
      requires Elsewhere(block, p) && Elsewhere(block, s) && (p != [] ==> Elsewhere(p[|p| - 1].addr, s))
      requires block != NULL && block in memory && b == Block(block, memory[block].size)
      requires prev == (if p == [] then NULL else p[|p| - 1].addr) && (p != [] ==> prev != NULL)
      modifies this`head, this`memory
      ensures Links(head, memory, p + [b] + s, NULL)
    {
      hide Links;
      LinkIn(head, memory, p, current, s, b);
      memory := memory[block := Header(memory[block].size, current)];
      if prev == NULL {
        head := block;
      } else {
        memory := memory[prev := Header(memory[prev].size, block)];
      }
    }

    /** Joins `block` to its successor if they touch. */
    method JoinWithNext(block: nat, current: nat, ghost p: seq<Block>, ghost b: Block, ghost s: seq<Block>)
      requires Links(head, memory, p + [b] + s, NULL) && b.addr == block
      requires Elsewhere(block, p) && (s != [] ==> Elsewhere(block, s[1..]) && block != s[0].addr)
      requires current == (if s == [] then NULL else s[0].addr) && (s != [] ==> current != NULL)
      modifies this`memory
      ensures s != [] && b.End() == s[0].addr ==>
        Links(head, memory, p + [Block(block, b.size + s[0].size)] + s[1..], NULL)
      ensures !(s != [] && b.End() == s[0].addr) ==> Links(head, memory, p + [b] + s, NULL)
    {
      hide Links, Elsewhere;
      if current != NULL {
        assert p + [b] + s == p + [b, s[0]] + s[1..];
        Coalesce(block, current, p, b, s[0], s[1..]);
      }
    }

    /** Joins `block` to its predecessor if they touch. */
    method JoinWithPrev(prev: nat, block: nat, ghost p: seq<Block>, ghost b: Block, ghost s: seq<Block>)
      requires Links(head, memory, p + [b] + s, NULL) && b.addr == block
      requires p != [] ==>
        var x := p[|p| - 1];
        x.addr != block && Elsewhere(x.addr, p[..|p| - 1]) && Elsewhere(x.addr, s)
      requires prev == (if p == [] then NULL else p[|p| - 1].addr) && (p != [] ==> prev != NULL)
      modifies this`memory
      ensures p != [] && p[|p| - 1].End() == block ==>
        Links(head, memory, p[..|p| - 1] + [Block(prev, p[|p| - 1].size + b.size)] + s, NULL)
      ensures !(p != [] && p[|p| - 1].End() == block) ==> Links(head, memory, p + [b] + s, NULL)
    {
      hide Links, Elsewhere;
      if prev != NULL {
        assert p + [b] + s == p[..|p| - 1] + [p[|p| - 1], b] + s;
        Coalesce(prev, block, p[..|p| - 1], p[|p| - 1], b, s);
      }
    }

    /** Puts the block at `block`, whose header gives its size, on the list. */
    method InsertFreeBlock(block: nat)
      requires Linked() && Canonical(free)
      requires block != NULL && block in memory && memory[block].size > 0
      requires ApartFromAll(Block(block, memory[block].size), free)
      modifies this`head, this`memory, this`free
      ensures Linked()
      ensures free == Insert(old(free), Block(block, old(memory)[block].size))
    {
      hide Links, Below, Insert, Canonical, After, Grown, ApartFromAll, Arranged;
      ghost var b := Block(block, memory[block].size);
      ghost var i := Below(free, block);
      InsertIsArranged(free, b);
      var prev, current := FindPlace(block);
      InsertBetween(block, prev, current, free[..i], free[i..], b, Grown(free, b), free[After(free, b)..], Insert(free, b));
      free := Insert(free, b);
    }

    /** Links `block` in between its neighbours and joins it to them. */
    method InsertBetween(block: nat, prev: nat, current: nat, ghost p: seq<Block>, ghost s: seq<Block>, ghost b: Block,
                         ghost grown: Block, ghost rest: seq<Block>, ghost result: seq<Block>)
      requires Links(head, memory, p, current) && Links(current, memory, s, NULL)
      requires block != NULL && block in memory && b == Block(block, memory[block].size)
      requires prev == (if p == [] then NULL else p[|p| - 1].addr) && (p != [] ==> prev != NULL)
      requires current == (if s == [] then NULL else s[0].addr) && (s != [] ==> current != NULL)
      requires Arranged(p, s, b, grown, rest, result)
      modifies this`head, this`memory
      ensures Links(head, memory, result, NULL)
    {
      hide Links, Elsewhere, Distinct;
      LinkBlock(block, prev, current, p, s, b);
      JoinBoth(block, prev, current, p, s, b, grown, rest);
    }

    /** Joins `block` to its neighbours, first behind and then in front. */
    method JoinBoth(block: nat, prev: nat, current: nat, ghost p: seq<Block>, ghost s: seq<Block>, ghost b: Block,
                    ghost grown: Block, ghost rest: seq<Block>)
      requires Links(head, memory, p + [b] + s, NULL) && b.addr == block
      requires prev == (if p == [] then NULL else p[|p| - 1].addr) && (p != [] ==> prev != NULL)
      requires current == (if s == [] then NULL else s[0].addr) && (s != [] ==> current != NULL)
      requires Elsewhere(block, p) && (s != [] ==> Elsewhere(block, s[1..]) && block != s[0].addr)
      requires p != [] ==>
        var x := p[|p| - 1];
        x.addr != block && Elsewhere(x.addr, p[..|p| - 1]) && Elsewhere(x.addr, rest)
      requires s != [] && b.End() == s[0].addr ==> grown == Block(block, b.size + s[0].size) && rest == s[1..]
      requires !(s != [] && b.End() == s[0].addr) ==> grown == b && rest == s
      modifies this`memory
      ensures p != [] && p[|p| - 1].End() == block ==>
        Links(head, memory, p[..|p| - 1] + [Block(prev, p[|p| - 1].size + grown.size)] + rest, NULL)
      ensures !(p != [] && p[|p| - 1].End() == block) ==> Links(head, memory, p + [grown] + rest, NULL)
    {
      hide Links, Elsewhere;
      JoinWithNext(block, current, p, b, s);
      JoinWithPrev(prev, block, p, grown, rest);
    }

    /** Writes a header at `addr` and puts the block on the list. */
    method AddFreeBlock(addr: nat, size: nat)
      requires Linked() && Canonical(free)
      requires addr != NULL && size > 0 && ApartFromAll(Block(addr, size), free)
      modifies this`head, this`memory, this`free
      ensures Linked() && free == Insert(old(free), Block(addr, size))
    {
      HeaderIsElsewhere(free, Block(addr, size));
      LinksFrame(head, memory, free, NULL, addr, Header(size, NULL));
      memory := memory[addr := Header(size, NULL)];
      InsertFreeBlock(addr);
    }

    // ---- The whole heap ---------------------------------------------------

    ghost predicate Valid()
      reads this
    {
      && Linked() && Separate(free, live, lost)
      && Regular(free) && Regular(live)
      && (forall i :: 0 <= i < |lost| ==> lost[i].size == 8)
      && Total(free) + Total(live) + Total(lost) == heapSize
      && heapSize <= MAX_HEAP_SIZE && heapSize % FRAME_SIZE == 0
    }

    /** The initial heap is one free block. */
    constructor (start: nat)
      requires start > 0 && start % FRAME_SIZE == 0
      ensures Valid() && heapSize == INITIAL_HEAP_SIZE
      ensures free == [Block(start, INITIAL_HEAP_SIZE)] && live == [] && lost == []
    {
      head := start;
      memory := map[start := Header(INITIAL_HEAP_SIZE, NULL)];
      heapSize := INITIAL_HEAP_SIZE;
      free, live, lost := [Block(start, INITIAL_HEAP_SIZE)], [], [];
      new;
      InitialFacts(start);
    }

    /** Takes the block at `current`, which has position `k` on the list and the
        predecessor `prev`, off the list. */
    method UnlinkBlock(prev: nat, current: nat, ghost k: nat)
      requires Linked() && Canonical(free) && k < |free| && current == free[k].addr
      requires Links(head, memory, free[..k], current) && Links(current, memory, free[k..], NULL)
      requires prev == (if k == 0 then NULL else free[k - 1].addr) && (k > 0 ==> prev != NULL)
      modifies this`head, this`memory, this`free
      ensures Linked() && free == Without(old(free), k)
    {
      hide Links, Canonical;
      BlockUnlinks(head, memory, free, k);
      var next := memory[current].next;
      if prev == NULL {
        head := next;
      } else {
        memory := memory[prev := Header(memory[prev].size, next)];
      }
      free := Without(free, k);
    }

    /** Puts a left-over piece back on the list if it can hold a header. */
    method KeepPiece(addr: nat, size: nat)
      requires Linked() && Canonical(free) && addr != NULL
      requires size > 0 ==> ApartFromAll(Block(addr, size), free)
      modifies this`head, this`memory, this`free
      ensures Linked() && free == Kept(old(free), Block(addr, size))
    {
      hide Links, Canonical, ApartFromAll, Insert;
      if size >= MIN_BLOCK_SIZE {
        AddFreeBlock(addr, size);
      }
    }

    /** Takes `size` bytes at `at` out of that block. */
    method Carve(prev: nat, current: nat, at: nat, size: nat, ghost k: nat)
      requires Linked() && Canonical(free) && k < |free| && current == free[k].addr
      requires Links(head, memory, free[..k], current) && Links(current, memory, free[k..], NULL)
      requires prev == (if k == 0 then NULL else free[k - 1].addr) && (k > 0 ==> prev != NULL)
      requires free[k].addr <= at && at + size <= free[k].End() && size > 0
      modifies this`head, this`memory, this`free
      ensures Linked() && free == Carved(old(free), k, at, size)
    {
      hide Links, Canonical, ApartFromAll, Kept, Without;
      Advance(head, memory, free, k, current);
      var blockEnd := current + memory[current].size;
      var frontPadding := at - current;
      var remaining := blockEnd - (at + size);
      CarveFacts(free, k, at, size);
      UnlinkBlock(prev, current, k);
      KeepPiece(at + size, remaining);
      KeepPiece(current, frontPadding);
    }

    /** Allocates from the block at `current`, in which the request fits. */
    method TakeFrom(prev: nat, current: nat, size: nat, align: nat, ghost k: nat) returns (r: nat)
      requires Valid() && k < |free| && current == free[k].addr
      requires Links(head, memory, free[..k], current) && Links(current, memory, free[k..], NULL)
      requires prev == (if k == 0 then NULL else free[k - 1].addr) && (k > 0 ==> prev != NULL)
      requires align >= 8 && align % 8 == 0 && size % 8 == 0 && size >= MIN_BLOCK_SIZE && Fits(free[k], size, align)
      modifies this
      ensures Valid() && heapSize == old(heapSize)
      ensures r == AlignUp(old(free)[k].addr, align) && r != NULL && r % align == 0
      ensures old(free)[k].addr <= r && r + size <= old(free)[k].End()
      ensures free == Carved(old(free), k, r, size)
      ensures live == old(live) + [Block(r, size)] && lost == old(lost) + Slivers(old(free)[k], r, size)
      ensures LosesOnlySlivers(old(lost), lost, Block(r, size))
    {
      hide Links, Separate, Regular, AlignUp, Carved, Canonical, Slivers, LosesOnlySlivers;
      ghost var b := free[k];
      r := AlignUp(current, align);
      AllocationFacts(free, live, lost, k, size, align);
      SeparateIsCanonical(free, live, lost);
      Carve(prev, current, r, size, k);
      live := live + [Block(r, size)];
      lost := lost + Slivers(b, r, size);
    }

    /** Finds the first block in which the request fits. */
    method FindFit(size: nat, align: nat) returns (prev: nat, current: nat)
      requires Linked() && align > 0
      ensures
        var k := FirstFit(free, size, align);
        && (current == NULL <==> k == |free|)
        && (k < |free| ==>
              && current == free[k].addr && Links(head, memory, free[..k], current)
              && Links(current, memory, free[k..], NULL)
              && prev == (if k == 0 then NULL else free[k - 1].addr) && (k > 0 ==> prev != NULL))
    {
      prev, current := NULL, head;
      ghost var k: nat := 0;
      assert free[..0] == [] && free[0..] == free;
      while current != NULL
        invariant k <= |free| && Links(head, memory, free[..k], current) && Links(current, memory, free[k..], NULL)
        invariant prev == if k == 0 then NULL else free[k - 1].addr
        invariant k > 0 ==> prev != NULL
        invariant forall j :: 0 <= j < k ==> !Fits(free[j], size, align)
        decreases |free| - k
      {
        Advance(head, memory, free, k, current);
        var blockEnd := current + memory[current].size;
        var allocEnd := AlignUp(current, align) + size;
        if allocEnd <= blockEnd {
          return;
        }
        prev := current;
        current := memory[current].next;
        k := k + 1;
      }
      if k < |free| { Advance(head, memory, free, k, current); }
    }

    /** Adds at least `minBytes` to the heap; `region` is what the frame
        allocator answers. */
    method TryGrow(minBytes: nat, region: Option<nat>) returns (grown: bool)
      requires Valid()
      requires region.Some? ==> IsFreshRegion(region.value, minBytes, free, live, lost)
      modifies this`head, this`memory, this`free, this`heapSize
      ensures Valid()
      ensures grown <==> region.Some? && old(heapSize) + Max(minBytes, MIN_GROWTH) <= MAX_HEAP_SIZE
      ensures !grown ==> free == old(free) && heapSize == old(heapSize)
      ensures grown ==>
        && free == Insert(old(free), Block(region.value, GrowthFrames(minBytes) * FRAME_SIZE))
        && heapSize == old(heapSize) + GrowthFrames(minBytes) * FRAME_SIZE
    {
      hide Links, Separate, Regular, Insert;
      var growSize := Max(minBytes, MIN_GROWTH);
      if heapSize + growSize > MAX_HEAP_SIZE {
        return false;
      }
      var framesNeeded := (growSize + FRAME_SIZE - 1) / FRAME_SIZE;
      if region.None? {
        return false;
      }
      GrowthFacts(free, live, lost, heapSize, region.value, minBytes);
      AddFreeBlock(region.value, framesNeeded * FRAME_SIZE);
      heapSize := heapSize + framesNeeded * FRAME_SIZE;
      return true;
    }

    /** Allocates for `layout`; null when nothing fits and the heap cannot grow.
        The call re-enters itself only after growing, and then the request fits,
        so it does so at most once. */
    method AllocInner(layout: Layout, region: Option<nat>) returns (r: nat)
      requires Valid() && layout.Valid()
      requires region.Some? ==> IsFreshRegion(region.value, layout.Size() + layout.Align(), free, live, lost)
      modifies this
      ensures Valid()
      ensures r == NULL <==>
        && FirstFit(old(free), layout.Size(), layout.Align()) == |old(free)|
        && (region.None? || old(heapSize) + Max(layout.Size() + layout.Align(), MIN_GROWTH) > MAX_HEAP_SIZE)
      ensures r == NULL ==> free == old(free) && live == old(live) && lost == old(lost) && heapSize == old(heapSize)
      ensures r == NULL ==> forall x: nat :: !IsPlace(old(free), x, layout.Size(), layout.Align())
      ensures forall x: nat :: IsPlace(old(free), x, layout.Size(), layout.Align()) ==>
                IsLowestPlace(old(free), r, layout.Size(), layout.Align())
      ensures r != NULL ==>
        && r % layout.Align() == 0 && r % layout.align == 0 && live == old(live) + [Block(r, layout.Size())]
        && LosesOnlySlivers(old(lost), lost, Block(r, layout.Size()))
      ensures
        var k := FirstFit(old(free), layout.Size(), layout.Align());
        k < |old(free)| ==>
          && r == AlignUp(old(free)[k].addr, layout.Align()) && heapSize == old(heapSize)
          && old(free)[k].addr <= r && r + layout.Size() <= old(free)[k].End()
          && free == Carved(old(free), k, r, layout.Size())
          && lost == old(lost) + Slivers(old(free)[k], r, layout.Size())
      decreases if FirstFit(free, layout.Size(), layout.Align()) < |free| then 0 else 1
    {
      hide Links, Separate, Regular, AlignUp, Insert, Carved, Slivers, LosesOnlySlivers, GrowthFrames, Fits, IsPowerOfTwo,
        IsPlace, IsLowestPlace;
      LayoutFacts(layout);
      LayoutIsLeast(layout);
      LowestPlace(free, live, lost, layout.Size(), layout.Align());
      var size, align := layout.Size(), layout.Align();
      var prev, current := FindFit(size, align);
      if current != NULL {
        r := TakeFrom(prev, current, size, align, FirstFit(free, size, align));
        return r;
      }
      var grown := TryGrow(size + align, region);
      if grown {
        ghost var more := Block(region.value, GrowthFrames(size + align) * FRAME_SIZE);
        GrowthGivesFit(old(free), live, lost, more, size, align);
        r := AllocInner(layout, None);
        return r;
      }
      return NULL;
    }

    /** Frees what an earlier allocation of the same layout returned. */
    method DeallocInner(ptr: nat, layout: Layout, ghost i: nat)
      requires Valid() && layout.Valid() && i < |live| && live[i] == Block(ptr, layout.Size())
      modifies this`head, this`memory, this`free, this`live
      ensures Valid()
      ensures free == Insert(old(free), Block(ptr, layout.Size()))
      ensures live == old(live)[..i] + old(live)[i + 1..]
    {
      hide Insert, Links, Separate, Regular, Total;
      var size := layout.Size();
      ReleaseFacts(free, live, lost, i);
      AddFreeBlock(ptr, size);
      live := live[..i] + live[i + 1..];
    }

    /** When the request fits, allocating and freeing at once loses the slivers
        before and after the place where it fits, and restores the free list
        exactly when there are none. */
    method AllocThenFree(layout: Layout)
      requires Valid() && layout.Valid() && FirstFit(free, layout.Size(), layout.Align()) < |free|
      modifies this
      ensures Valid() && live == old(live) && heapSize == old(heapSize)
      ensures
        var b := old(free)[FirstFit(old(free), layout.Size(), layout.Align())];
        var at := AlignUp(b.addr, layout.Align());
        && b.addr <= at && at + layout.Size() <= b.End()
        && lost == old(lost) + Slivers(b, at, layout.Size())
        && (free == old(free) <==> Slivers(b, at, layout.Size()) == [])
    {
      LayoutFacts(layout);
      ghost var k := FirstFit(free, layout.Size(), layout.Align());
      ghost var free0, live0 := free, live;
      var r := AllocInner(layout, None);
      CarveThenFree(free0, k, r, layout.Size());
      hide Insert, Links, Separate, Carved, AlignUp;
      DeallocInner(r, layout, |live0|);
      assert live == live0;
    }
  }

  /** On a new heap: 24 bytes are allocated, and then 16 bytes at alignment 16
      are allocated and freed at once. Eight bytes are lost by it. */
  method AllocThenFreeLosesBytes(start: nat) returns (h: KernelHeap, ghost before: seq<Block>)
    requires start > 0 && start % FRAME_SIZE == 0
    ensures h.Valid() && h.live == [Block(start, 24)]
    ensures before == [Block(start + 24, INITIAL_HEAP_SIZE - 24)] && h.free != before
    ensures h.lost == [Block(start + 24, 8)]
  {
    hide Separate, Regular, Links, Total, LosesOnlySlivers, AlignUp, Fits, Carved, Slivers, IsPowerOfTwo, Layout.Valid,
      Layout.Size, Layout.Align;
    h := new KernelHeap(start);
    var small, aligned := Layout(24, 8), Layout(16, 16);
    ExampleLayouts();
    ExampleFits(start);
    var r := h.AllocInner(small, None);
    before := h.free;
    h.AllocThenFree(aligned);
  }

  lemma ExampleLayouts()
    ensures Layout(24, 8).Valid() && Layout(24, 8).Size() == 24 && Layout(24, 8).Align() == 8
    ensures Layout(16, 16).Valid() && Layout(16, 16).Size() == 16 && Layout(16, 16).Align() == 16
  {
    assert IsPowerOfTwo(1) && IsPowerOfTwo(2) && IsPowerOfTwo(4) && IsPowerOfTwo(8) && IsPowerOfTwo(16);
  }

  lemma ExampleAddresses(start: nat)
    requires start % FRAME_SIZE == 0
    ensures AlignUp(start, 8) == start && AlignUp(start + 24, 16) == start + 32
  {
    var q := start / FRAME_SIZE;
    assert start == 16 * (256 * q);
    assert (start + 7) / 8 == 2 * (256 * q);
    assert (start + 39) / 16 == 256 * q + 2;
  }

  /** Where the two requests fit, and what is left over. */
  lemma ExampleFits(start: nat)
    requires start > 0 && start % FRAME_SIZE == 0
    ensures AlignUp(start, 8) == start && AlignUp(start + 24, 16) == start + 32
    ensures Fits(Block(start, INITIAL_HEAP_SIZE), 24, 8) && Fits(Block(start + 24, INITIAL_HEAP_SIZE - 24), 16, 16)
    ensures Carved([Block(start, INITIAL_HEAP_SIZE)], 0, start, 24) == [Block(start + 24, INITIAL_HEAP_SIZE - 24)]
    ensures Slivers(Block(start, INITIAL_HEAP_SIZE), start, 24) == []
    ensures Slivers(Block(start + 24, INITIAL_HEAP_SIZE - 24), start + 32, 16) == [Block(start + 24, 8)]
  {
    hide AlignUp;
    ExampleAddresses(start);
  }

  lemma HeaderIsElsewhere(bs: seq<Block>, b: Block)
    requires Canonical(bs) && b.size > 0 && ApartFromAll(b, bs)
    ensures Elsewhere(b.addr, bs)
  {
    forall i | 0 <= i < |bs|
      ensures bs[i].addr != b.addr
    {
      assert Apart(b, bs[i]);
    }
  }

  /** Memory that the heap does not have yet. */
  ghost predicate IsFreshRegion(base: nat, minBytes: nat, free: seq<Block>, live: seq<Block>, lost: seq<Block>) {
    && base > 0 && base % FRAME_SIZE == 0
    && Clear(Block(base, GrowthFrames(minBytes) * FRAME_SIZE), free, live, lost)
  }

  lemma BlockUnlinks(head: nat, memory: map<nat, Header>, free: seq<Block>, k: nat)
    requires Canonical(free) && k < |free|
    requires Links(head, memory, free[..k], free[k].addr) && Links(free[k].addr, memory, free[k..], NULL)
    ensures free[k].addr in memory
    ensures
      var next, rest := memory[free[k].addr].next, Without(free, k);
      && (k == 0 ==> Links(next, memory, rest, NULL))
      && (k > 0 ==>
            var last := free[k - 1];
            last.addr in memory && memory[last.addr].size == last.size
            && Links(head, memory[last.addr := Header(last.size, next)], rest, NULL))
  {
    CanonicalIsDistinct(free);
    assert free[k..] == [free[k]] + free[k + 1..];
    Unlink(head, memory, free[..k], free[k], free[k + 1..]);
  }

  /** The pieces of a carved block are apart from the rest of the list. */
  lemma CarveFacts(free: seq<Block>, k: nat, at: nat, size: nat)
    requires Canonical(free) && k < |free| && size > 0
    requires free[k].addr <= at && at + size <= free[k].End()
    ensures
      var b, rest := free[k], Without(free, k);
      var front, back := Front(b, at), Back(b, at + size);
      && Canonical(rest)
      && (back.size > 0 ==> ApartFromAll(back, rest))
      && (front.size > 0 ==> ApartFromAll(front, Kept(rest, back)))
      && Canonical(Kept(rest, back))
  {
    hide Insert;
    var b, rest := free[k], Without(free, k);
    var front, back := Front(b, at), Back(b, at + size);
    SeparateAlone(free);
    FreeLess(free, [], [], k);
    if front.size > 0 { PieceIsClear(front, b, rest, [], []); }
    if back.size > 0 { PieceIsClear(back, b, rest, [], []); }
    PutAway(rest, [], [], back);
  }

  /** What freeing the block `live[i]` does to the ledger. */
  lemma ReleaseFacts(free: seq<Block>, live: seq<Block>, lost: seq<Block>, i: nat)
    requires Separate(free, live, lost) && Regular(free) && Regular(live) && i < |live|
    ensures
      var b, rest := live[i], live[..i] + live[i + 1..];
      && Canonical(free) && b.addr != NULL && b.size > 0 && ApartFromAll(b, free)
      && Separate(Insert(free, b), rest, lost) && Regular(Insert(free, b)) && Regular(rest)
      && Total(Insert(free, b)) + Total(rest) == Total(free) + Total(live)
  {
    hide Insert, Total, PairwiseApart;
    var b, rest := live[i], live[..i] + live[i + 1..];
    LiveLess(free, live, lost, i);
    FreeMore(free, rest, lost, b);
    InsertIsRegular(free, b);
    InsertTotal(free, b);
    forall j | 0 <= j < |rest|
      ensures IsRegular(rest[j])
    {
      assert rest[j] == live[if j < i then j else j + 1];
    }
  }

  lemma InitialFacts(start: nat)
    requires start > 0 && start % FRAME_SIZE == 0
    ensures
      var free := [Block(start, INITIAL_HEAP_SIZE)];
      && Links(start, map[start := Header(INITIAL_HEAP_SIZE, NULL)], free, NULL)
      && Separate(free, [], []) && Regular(free) && Total(free) + Total([]) + Total([]) == INITIAL_HEAP_SIZE
  {
    hide Total;
    var free := [Block(start, INITIAL_HEAP_SIZE)];
    assert free[1..] == [];
    TotalOfFew(free);
    TotalOfFew([]);
    assert start % 8 == 0 by { assert start == 8 * (512 * (start / FRAME_SIZE)); }
  }

  /** What an allocation from block `k` does to the ledger. */
  lemma AllocationFacts(free: seq<Block>, live: seq<Block>, lost: seq<Block>, k: nat, size: nat, align: nat)
    requires Separate(free, live, lost) && Regular(free) && Regular(live) && k < |free|
    requires forall i :: 0 <= i < |lost| ==> lost[i].size == 8
    requires align >= 8 && align % 8 == 0 && size % 8 == 0 && size >= MIN_BLOCK_SIZE && Fits(free[k], size, align)
    ensures
      var at, b := AlignUp(free[k].addr, align), free[k];
      && b.addr <= at && at + size <= b.End() && at > 0 && at % align == 0
      && (var slivers := Slivers(b, at, size);
          && Separate(Carved(free, k, at, size), live + [Block(at, size)], lost + slivers)
          && Regular(Carved(free, k, at, size)) && Regular(live + [Block(at, size)])
          && (forall i :: 0 <= i < |lost + slivers| ==> (lost + slivers)[i].size == 8)
          && Total(Carved(free, k, at, size)) + Total(live + [Block(at, size)]) + Total(lost + slivers)
             == Total(free) + Total(live) + Total(lost)
          && LosesOnlySlivers(lost, lost + slivers, Block(at, size)))
  {
    hide Insert, Carved, AlignUp, Separate, Lost, Canonical, Total, LosesOnlySlivers;
    var b := free[k];
    CarvingIsRegular(free, k, size, align);
    var at := AlignUp(b.addr, align);
    assert b.addr <= at < b.addr + align && at % align == 0 by { AlignUpIsLeast(b.addr, align); }
    CarvingKeeps(free, live, lost, k, at, size);
    SliversAreSmall(lost, Lost(Back(b, at + size)), Lost(Front(b, at)), Block(at, size));
    assert IsRegular(Block(at, size));
  }

  lemma SliversAreSmall(lost: seq<Block>, behind: seq<Block>, ahead: seq<Block>, b: Block)
    requires forall i :: 0 <= i < |lost| ==> lost[i].size == 8
    requires b.addr >= 8 && b.size > 0
    requires behind == [] || behind == [Block(b.End(), 8)]
    requires ahead == [] || ahead == [Block(b.addr - 8, 8)]
    ensures LosesOnlySlivers(lost, lost + (behind + ahead), b)
    ensures forall i :: 0 <= i < |lost + (behind + ahead)| ==> (lost + (behind + ahead))[i].size == 8
  {
  }

  lemma SeparateIsCanonical(free: seq<Block>, live: seq<Block>, lost: seq<Block>)
    requires Separate(free, live, lost)
    ensures Canonical(free)
  {
  }

  /** An allocation `b` loses at most one sliver of eight bytes right before it
      and one right behind it. */
  ghost predicate LosesOnlySlivers(was: seq<Block>, now: seq<Block>, b: Block) {
    && was <= now && |now| <= |was| + 2
    && (forall i :: |was| <= i < |now| ==> now[i].size == 8 && (now[i].End() == b.addr || now[i].addr == b.End()))
    && (|now| == |was| + 2 ==> now[|was|] != now[|was| + 1])
  }

  lemma GrowthFacts(free: seq<Block>, live: seq<Block>, lost: seq<Block>, heapSize: nat, base: nat, minBytes: nat)
    requires Separate(free, live, lost) && Regular(free) && IsFreshRegion(base, minBytes, free, live, lost)
    requires heapSize % FRAME_SIZE == 0 && heapSize + Max(minBytes, MIN_GROWTH) <= MAX_HEAP_SIZE
    ensures
      var b := Block(base, GrowthFrames(minBytes) * FRAME_SIZE);
      && Canonical(free) && b.size > 0 && ApartFromAll(b, free)
      && Separate(Insert(free, b), live, lost) && Regular(Insert(free, b))
      && Total(Insert(free, b)) == Total(free) + b.size
      && heapSize + b.size <= MAX_HEAP_SIZE && (heapSize + b.size) % FRAME_SIZE == 0
  {
    hide Insert, Regular, IsRegular, Canonical, ApartFromAll, GrowthFrames, PairwiseApart;
    var b := Block(base, GrowthFrames(minBytes) * FRAME_SIZE);
    GrowthStaysWithinLimit(heapSize, minBytes);
    RegionIsRegular(free, live, lost, base, minBytes);
    FreeMore(free, live, lost, b);
    InsertTotal(free, b);
    InsertIsRegular(free, b);
  }

  lemma RegionIsRegular(free: seq<Block>, live: seq<Block>, lost: seq<Block>, base: nat, minBytes: nat)
    requires IsFreshRegion(base, minBytes, free, live, lost)
    ensures IsRegular(Block(base, GrowthFrames(minBytes) * FRAME_SIZE))
  {
    hide Clear, GrowthFrames;
    assert GrowthFrames(minBytes) > 0 by { SomeFrames(minBytes); }
    FramesAreEights(base / FRAME_SIZE);
    FramesAreEights(GrowthFrames(minBytes));
  }

  lemma SomeFrames(minBytes: nat)
    ensures GrowthFrames(minBytes) > 0
  {
  }

  lemma FramesAreEights(n: nat)
    ensures n * FRAME_SIZE % 8 == 0
  {
    MultipleMod(n * 512, 8);
  }

  lemma GrowthGivesFit(free: seq<Block>, live: seq<Block>, lost: seq<Block>, more: Block, size: nat, align: nat)
    requires Separate(free, live, lost) && Clear(more, free, live, lost) && align > 0
    requires more.size == GrowthFrames(size + align) * FRAME_SIZE
    ensures FirstFit(Insert(free, more), size, align) < |Insert(free, more)|
  {
    GrownHeapFits(free, more, size, align);
  }

  /** What joining `b` to its successor makes of it, and what then follows. */
  ghost function Grown(bs: seq<Block>, b: Block): Block {
    var i := Below(bs, b.addr);
    if TouchesNext(bs, b) then Block(b.addr, b.size + bs[i].size) else b
  }

  /** The list that linking in and joining on both sides gives. */
  lemma InsertInParts(bs: seq<Block>, b: Block)
    ensures
      var i, grown, rest := Below(bs, b.addr), Grown(bs, b), bs[After(bs, b)..];
      var p, s := bs[..i], bs[i..];
      && (s != [] && b.End() == s[0].addr ==> grown == Block(b.addr, b.size + s[0].size) && rest == s[1..])
      && (!(s != [] && b.End() == s[0].addr) ==> grown == b && rest == s)
      && (p != [] && p[|p| - 1].End() == b.addr ==>
            Insert(bs, b) == p[..|p| - 1] + [Block(p[|p| - 1].addr, p[|p| - 1].size + grown.size)] + rest)
      && (!(p != [] && p[|p| - 1].End() == b.addr) ==> Insert(bs, b) == p + [grown] + rest)
  {
    hide Below;
    var i := Below(bs, b.addr);
    if TouchesPrev(bs, b) {
      assert Before(bs, b) == i - 1 && bs[..i][..i - 1] == bs[..i - 1];
      assert Joined(bs, b) == Block(bs[i - 1].addr, bs[i - 1].size + Grown(bs, b).size);
    } else {
      assert Before(bs, b) == i;
      assert Joined(bs, b) == Grown(bs, b);
    }
    if TouchesNext(bs, b) { assert bs[i..][1..] == bs[i + 1..]; }
  }

  /** `b` belongs between `p` and `s`; joined to what follows it is `grown` with
      `rest` after it, and joined on both sides the list is `result`. */
  ghost predicate Arranged(p: seq<Block>, s: seq<Block>, b: Block, grown: Block, rest: seq<Block>, result: seq<Block>) {
    && Distinct(p) && Elsewhere(b.addr, p) && Elsewhere(b.addr, s)
    && (s != [] ==> Elsewhere(b.addr, s[1..]) && b.addr != s[0].addr)
    && (p != [] ==>
          var x := p[|p| - 1];
          x.addr != b.addr && Elsewhere(x.addr, p[..|p| - 1]) && Elsewhere(x.addr, s) && Elsewhere(x.addr, rest))
    && (s != [] && b.End() == s[0].addr ==> grown == Block(b.addr, b.size + s[0].size) && rest == s[1..])
    && (!(s != [] && b.End() == s[0].addr) ==> grown == b && rest == s)
    && (p != [] && p[|p| - 1].End() == b.addr ==>
          result == p[..|p| - 1] + [Block(p[|p| - 1].addr, p[|p| - 1].size + grown.size)] + rest)
    && (!(p != [] && p[|p| - 1].End() == b.addr) ==> result == p + [grown] + rest)
  }

  lemma InsertIsArranged(bs: seq<Block>, b: Block)
    requires Canonical(bs) && b.size > 0 && ApartFromAll(b, bs)
    ensures
      var i := Below(bs, b.addr);
      Arranged(bs[..i], bs[i..], b, Grown(bs, b), bs[After(bs, b)..], Insert(bs, b))
  {
    hide Below, Insert, Canonical, Elsewhere, Distinct, After, Grown, ApartFromAll;
    NeighboursAreElsewhere(bs, b);
    InsertInParts(bs, b);
  }

  /** No header on the list lies where another block's does. */
  lemma NeighboursAreElsewhere(bs: seq<Block>, b: Block)
    requires Canonical(bs) && b.size > 0 && ApartFromAll(b, bs)
    ensures
      var i := Below(bs, b.addr);
      var p, s, rest := bs[..i], bs[i..], bs[After(bs, b)..];
      && Distinct(p) && Elsewhere(b.addr, p) && Elsewhere(b.addr, s)
      && (s != [] ==> Elsewhere(b.addr, s[1..]) && b.addr != s[0].addr)
      && (p != [] ==>
            var x := p[|p| - 1];
            x.addr != b.addr && Elsewhere(x.addr, p[..|p| - 1]) && Elsewhere(x.addr, s) && Elsewhere(x.addr, rest))
  {
    hide Canonical, ApartFromAll, Below, After;
    CanonicalIsDistinct(bs);
    HeaderIsElsewhere(bs, b);
  }
}
