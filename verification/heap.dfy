/**
 The kernel heap: a list of free blocks linked through the free memory itself,
 kept in address order and coalesced, that grows by whole frames.
 */
module Heap {
  import opened Wrappers
  import opened HeapBlocks

  const FRAME_SIZE := 4096
  const INITIAL_HEAP_SIZE := 8 * 1024 * 1024
  const MAX_HEAP_SIZE := 32 * 1024 * 1024
  const MIN_BLOCK_SIZE := 16
  const NULL: nat := 0

  /** What is asked for: a size and a power of two as alignment. */
  datatype Layout = Layout(size: nat, align: nat) {
    predicate Valid() { IsPowerOfTwo(align) }

    /** The size and the alignment that the heap uses instead. */
    function Size(): nat { AlignUp(Max(size, MIN_BLOCK_SIZE), 8) }
    function Align(): nat { Max(align, 8) }
  }

  predicate IsPowerOfTwo(n: nat) {
    n == 1 || (n > 0 && n % 2 == 0 && IsPowerOfTwo(n / 2))
  }

  /** The least multiple of `align` that is not below `value`. For a power of
      two this is what masking the low bits of `value + align - 1` gives. */
  function AlignUp(value: nat, align: nat): nat
    requires align > 0
  {
    (value + align - 1) / align * align
  }

  lemma AlignUpIsLeast(value: nat, align: nat)
    requires align > 0
    ensures value <= AlignUp(value, align) < value + align
    ensures AlignUp(value, align) % align == 0
  {
    var q := (value + align - 1) / align;
    assert q * align % align == 0 by { MultipleMod(q, align); }
  }

  lemma MultipleMod(q: nat, m: nat)
    requires m > 0
    ensures (q * m) % m == 0
  {
    var d, r := (q * m) / m, (q * m) % m;
    assert q * m == d * m + r;
    assert (q - d) * m == r;
    if q - d >= 1 { AtLeastOnce(q - d, m); }
    if q - d <= -1 { AtLeastOnce(d - q, m); }
  }

  lemma AtLeastOnce(k: nat, m: nat)
    requires k >= 1
    ensures k * m >= m
  {
  }

  lemma {:induction false} PowersOfTwo(n: nat)
    requires IsPowerOfTwo(n) && n >= 8
    ensures n % 8 == 0
  {
    if n >= 16 {
      PowersOfTwo(n / 2);
    } else {
      assert IsPowerOfTwo(n / 2) && IsPowerOfTwo(n / 2 / 2) && IsPowerOfTwo(n / 2 / 2 / 2);
    }
  }

  lemma LayoutFacts(l: Layout)
    requires l.Valid()
    ensures l.Align() >= 8 && l.Align() % 8 == 0
    ensures l.Size() >= MIN_BLOCK_SIZE && l.Size() % 8 == 0 && l.size <= l.Size()
  {
    AlignUpIsLeast(Max(l.size, MIN_BLOCK_SIZE), 8);
    if l.align >= 8 { PowersOfTwo(l.align); }
  }

  /** Aligning an address that is a multiple of eight skips whole multiples. */
  lemma AlignSkipsEights(addr: nat, align: nat)
    requires addr % 8 == 0 && align > 0 && align % 8 == 0
    ensures (AlignUp(addr, align) - addr) % 8 == 0 && AlignUp(addr, align) % 8 == 0
  {
    AlignUpIsLeast(addr, align);
    var q, k := (addr + align - 1) / align, align / 8;
    assert q * align == q * k * 8 by { assert align == k * 8; }
    MultipleMod(q * k, 8);
  }

  // ---- The ledger of all heap bytes ---------------------------------------

  /** Free, live and lost blocks: non-empty, and no two of them overlap. */
  ghost predicate Separate(free: seq<Block>, live: seq<Block>, lost: seq<Block>) {
    && Canonical(free) && PairwiseApart(live) && PairwiseApart(lost)
    && (forall i :: 0 <= i < |live| ==> live[i].size > 0 && ApartFromAll(live[i], free) && ApartFromAll(live[i], lost))
    && (forall i :: 0 <= i < |lost| ==> lost[i].size > 0 && ApartFromAll(lost[i], free))
  }

  ghost predicate Clear(b: Block, free: seq<Block>, live: seq<Block>, lost: seq<Block>) {
    b.size > 0 && ApartFromAll(b, free) && ApartFromAll(b, live) && ApartFromAll(b, lost)
  }

  lemma FreeMore(free: seq<Block>, live: seq<Block>, lost: seq<Block>, b: Block)
    requires Separate(free, live, lost) && Clear(b, free, live, lost)
    ensures Separate(Insert(free, b), live, lost)
  {
    hide Insert;
    InsertIsCanonical(free, b);
    forall i | 0 <= i < |live|
      ensures ApartFromAll(live[i], Insert(free, b))
    {
      InsertKeepsApart(free, b, live[i]);
    }
    forall i | 0 <= i < |lost|
      ensures ApartFromAll(lost[i], Insert(free, b))
    {
      InsertKeepsApart(free, b, lost[i]);
    }
  }

  lemma LiveMore(free: seq<Block>, live: seq<Block>, lost: seq<Block>, b: Block)
    requires Separate(free, live, lost) && Clear(b, free, live, lost)
    ensures Separate(free, live + [b], lost)
  {
  }

  lemma LostMore(free: seq<Block>, live: seq<Block>, lost: seq<Block>, b: Block)
    requires Separate(free, live, lost) && Clear(b, free, live, lost)
    ensures Separate(free, live, lost + [b])
  {
  }

  lemma LiveLess(free: seq<Block>, live: seq<Block>, lost: seq<Block>, i: nat)
    requires Separate(free, live, lost) && i < |live|
    ensures Separate(free, live[..i] + live[i + 1..], lost)
    ensures Clear(live[i], free, live[..i] + live[i + 1..], lost)
    ensures Total(live[..i] + live[i + 1..]) + live[i].size == Total(live)
  {
    hide Canonical, PairwiseApart, Total, ApartFromAll;
    TotalWithout(live, i);
    PairwiseWithout(live, i);
    var rest := live[..i] + live[i + 1..];
    forall j | 0 <= j < |rest|
      ensures rest[j] == live[if j < i then j else j + 1]
    {
    }
  }

  lemma PairwiseWithout(bs: seq<Block>, k: nat)
    requires PairwiseApart(bs) && k < |bs|
    ensures PairwiseApart(bs[..k] + bs[k + 1..]) && ApartFromAll(bs[k], bs[..k] + bs[k + 1..])
  {
    var rest := bs[..k] + bs[k + 1..];
    forall j | 0 <= j < |rest|
      ensures rest[j] == bs[if j < k then j else j + 1]
    {
    }
  }

  lemma TotalWithout(bs: seq<Block>, k: nat)
    requires k < |bs|
    ensures Total(bs[..k] + bs[k + 1..]) + bs[k].size == Total(bs)
  {
    hide Total;
    assert bs == bs[..k] + [bs[k]] + bs[k + 1..];
    TotalConcat(bs[..k] + [bs[k]], bs[k + 1..]);
    TotalConcat(bs[..k], [bs[k]]);
    TotalConcat(bs[..k], bs[k + 1..]);
    TotalOfFew([bs[k]]);
  }

  lemma CanonicalWithout(bs: seq<Block>, k: nat)
    requires Canonical(bs) && k < |bs|
    ensures Canonical(bs[..k] + bs[k + 1..]) && ApartFromAll(bs[k], bs[..k] + bs[k + 1..])
  {
    var rest := bs[..k] + bs[k + 1..];
    forall j | 0 <= j < |rest|
      ensures rest[j] == bs[if j < k then j else j + 1]
    {
    }
  }

  lemma ApartWithout(o: Block, bs: seq<Block>, k: nat)
    requires ApartFromAll(o, bs) && k < |bs|
    ensures ApartFromAll(o, bs[..k] + bs[k + 1..]) && Apart(bs[k], o)
  {
    var rest := bs[..k] + bs[k + 1..];
    forall j | 0 <= j < |rest|
      ensures rest[j] == bs[if j < k then j else j + 1]
    {
    }
  }

  lemma FreeLess(free: seq<Block>, live: seq<Block>, lost: seq<Block>, k: nat)
    requires Separate(free, live, lost) && k < |free|
    ensures Separate(free[..k] + free[k + 1..], live, lost)
    ensures Clear(free[k], free[..k] + free[k + 1..], live, lost)
    ensures Total(free[..k] + free[k + 1..]) + free[k].size == Total(free)
  {
    TotalWithout(free, k);
    CanonicalWithout(free, k);
    assert free[k].size > 0;
    forall i | 0 <= i < |live|
      ensures ApartFromAll(live[i], free[..k] + free[k + 1..]) && Apart(free[k], live[i])
    {
      ApartWithout(live[i], free, k);
    }
    forall i | 0 <= i < |lost|
      ensures ApartFromAll(lost[i], free[..k] + free[k + 1..]) && Apart(free[k], lost[i])
    {
      ApartWithout(lost[i], free, k);
    }
    assert ApartFromAll(free[k], live) && ApartFromAll(free[k], lost);
    hide Canonical, PairwiseApart, Total;
  }

  // ---- Carving an allocation out of a free block --------------------------

  predicate Fits(b: Block, size: nat, align: nat)
    requires align > 0
  {
    AlignUp(b.addr, align) + size <= b.End()
  }

  /** The first block in which the request fits, or the length of the list. */
  function FirstFit(free: seq<Block>, size: nat, align: nat): (k: nat)
    requires align > 0
    ensures k <= |free|
    ensures k < |free| ==> Fits(free[k], size, align)
    ensures forall i :: 0 <= i < k ==> !Fits(free[i], size, align)
  {
    if free == [] || Fits(free[0], size, align) then 0 else 1 + FirstFit(free[1..], size, align)
  }

  /** A left-over piece goes back on the list if it can hold a header... */
  function Kept(free: seq<Block>, piece: Block): seq<Block> {
    if piece.size >= MIN_BLOCK_SIZE then Insert(free, piece) else free
  }

  /** ...and is lost otherwise. */
  function Lost(piece: Block): seq<Block> {
    if 0 < piece.size < MIN_BLOCK_SIZE then [piece] else []
  }

  function Front(b: Block, at: nat): Block
    requires b.addr <= at
  {
    Block(b.addr, at - b.addr)
  }

  function Back(b: Block, end: nat): Block
    requires end <= b.End()
  {
    Block(end, b.End() - end)
  }

  function Without(free: seq<Block>, k: nat): seq<Block>
    requires k < |free|
  {
    free[..k] + free[k + 1..]
  }

  lemma PieceIsClear(piece: Block, b: Block, free: seq<Block>, live: seq<Block>, lost: seq<Block>)
    requires Clear(b, free, live, lost) && b.addr <= piece.addr && piece.End() <= b.End() && piece.size > 0
    ensures Clear(piece, free, live, lost)
  {
  }

  /** Putting one piece away leaves any other piece clear. */
  lemma PutAway(free: seq<Block>, live: seq<Block>, lost: seq<Block>, piece: Block)
    requires Separate(free, live, lost) && (piece.size > 0 ==> Clear(piece, free, live, lost))
    ensures Separate(Kept(free, piece), live, lost + Lost(piece))
    ensures Total(Kept(free, piece)) + Total(lost + Lost(piece)) == Total(free) + Total(lost) + piece.size
    ensures forall o: Block :: Clear(o, free, live, lost) && Apart(o, piece) ==>
              Clear(o, Kept(free, piece), live, lost + Lost(piece))
  {
    hide Insert;
    assert lost + [] == lost;
    TotalConcat(lost, Lost(piece));
    TotalOfFew(Lost(piece));
    if piece.size >= MIN_BLOCK_SIZE {
      FreeMore(free, live, lost, piece);
      InsertTotal(free, piece);
      forall o: Block | Clear(o, free, live, lost) && Apart(o, piece)
        ensures ApartFromAll(o, Insert(free, piece))
      {
        InsertKeepsApart(free, piece, o);
      }
    } else if piece.size > 0 {
      LostMore(free, live, lost, piece);
    }
  }

  /** The free list after an allocation of `size` bytes at `at` from block `k`. */
  function Carved(free: seq<Block>, k: nat, at: nat, size: nat): seq<Block>
    requires k < |free| && free[k].addr <= at && at + size <= free[k].End()
  {
    Kept(Kept(Without(free, k), Back(free[k], at + size)), Front(free[k], at))
  }

  /** The bytes around it that are lost. */
  function Slivers(b: Block, at: nat, size: nat): seq<Block>
    requires b.addr <= at && at + size <= b.End()
  {
    Lost(Back(b, at + size)) + Lost(Front(b, at))
  }

  lemma CarvingKeeps(free: seq<Block>, live: seq<Block>, lost: seq<Block>, k: nat, at: nat, size: nat)
    requires Separate(free, live, lost) && k < |free| && size > 0
    requires free[k].addr <= at && at + size <= free[k].End()
    ensures
      var slivers := Slivers(free[k], at, size);
      && Separate(Carved(free, k, at, size), live + [Block(at, size)], lost + slivers)
      && Total(Carved(free, k, at, size)) + Total(live + [Block(at, size)]) + Total(lost + slivers)
         == Total(free) + Total(live) + Total(lost)
  {
    hide Separate, Clear, Insert;
    var b, mid := free[k], Block(at, size);
    var front, back, rest := Front(b, at), Back(b, at + size), Without(free, k);
    FreeLess(free, live, lost, k);
    PieceIsClear(mid, b, rest, live, lost);
    if front.size > 0 { PieceIsClear(front, b, rest, live, lost); }
    if back.size > 0 { PieceIsClear(back, b, rest, live, lost); }
    PutAway(rest, live, lost, back);
    var free1, lost1 := Kept(rest, back), lost + Lost(back);
    PutAway(free1, live, lost1, front);
    var free2, lost2 := Kept(free1, front), lost1 + Lost(front);
    LiveMore(free2, live, lost2, mid);
    TotalConcat(live, [mid]);
    TotalOfFew([mid]);
    assert lost2 == lost + Slivers(b, at, size);
  }

  /** Allocating and then freeing gives back the very same free list exactly
      when no sliver was lost. */
  lemma CarveThenFree(free: seq<Block>, k: nat, at: nat, size: nat)
    requires Canonical(free) && k < |free| && size > 0
    requires free[k].addr <= at && at + size <= free[k].End()
    ensures Insert(Carved(free, k, at, size), Block(at, size)) == free <==> Slivers(free[k], at, size) == []
  {
    hide Insert;
    var b, mid, rest := free[k], Block(at, size), Without(free, k);
    var front, back := Front(b, at), Back(b, at + size);
    var free1 := Kept(rest, back);
    var free2 := Kept(free1, front);
    assert Separate(free, [], []);
    FreeLess(free, [], [], k);
    CarvingKeeps(free, [], [], k, at, size);
    assert [] + [mid] == [mid];
    assert ApartFromAll(mid, free2) by { assert [mid][0] == mid; }
    InsertIsCanonical(free2, mid);
    InsertTotal(free2, mid);
    TotalOfFew([mid]);
    TotalOfFew([] + Slivers(b, at, size));
    if Slivers(b, at, size) == [] {
      forall x: int
        ensures Covers(Insert(free2, mid), x) <==> Covers(free, x)
      {
        PiecesCover(free, k, at, size, x);
      }
      CoverageDetermines(Insert(free2, mid), free);
    }
  }

  lemma SeparateAlone(free: seq<Block>)
    requires Canonical(free)
    ensures Separate(free, [], [])
  {
  }

  /** The kept pieces and the allocation together cover what the list covered. */
  lemma PiecesCover(free: seq<Block>, k: nat, at: nat, size: nat, x: int)
    requires Canonical(free) && k < |free| && size > 0
    requires free[k].addr <= at && at + size <= free[k].End()
    requires Slivers(free[k], at, size) == []
    ensures Covers(Insert(Carved(free, k, at, size), Block(at, size)), x) <==> Covers(free, x)
  {
    hide Insert, Covers, Separate, Clear;
    var b, mid, rest := free[k], Block(at, size), Without(free, k);
    var front, back := Front(b, at), Back(b, at + size);
    SeparateAlone(free);
    FreeLess(free, [], [], k);
    PieceIsClear(mid, b, rest, [], []);
    if front.size > 0 { PieceIsClear(front, b, rest, [], []); }
    if back.size > 0 { PieceIsClear(back, b, rest, [], []); }
    assert Lost(back) == [] && Lost(front) == [];
    PutAway(rest, [], [], back);
    var free1 := Kept(rest, back);
    PutAway(free1, [], [], front);
    var free2 := Kept(free1, front);
    if back.size > 0 { ClearInsertCovers(rest, back, x); }
    if front.size > 0 { ClearInsertCovers(free1, front, x); }
    ClearInsertCovers(free2, mid, x);
    CoversConcat(free[..k], free[k + 1..], x);
    CoversConcat(free[..k], [b], x);
    CoversConcat(free[..k] + [b], free[k + 1..], x);
    assert free == free[..k] + [b] + free[k + 1..];
    CoversOne(b, x);
  }

  lemma ClearInsertCovers(free: seq<Block>, b: Block, x: int)
    requires Separate(free, [], []) && Clear(b, free, [], [])
    ensures Covers(Insert(free, b), x) <==> Covers(free, x) || b.addr <= x < b.End()
  {
    InsertCovers(free, b, x);
  }

  lemma CoversOne(b: Block, x: int)
    ensures Covers([b], x) <==> b.addr <= x < b.End()
  {
    assert b.addr <= x < b.End() ==> [b][0].addr <= x < [b][0].End();
  }

  // ---- Growing ------------------------------------------------------------

  const MIN_GROWTH := FRAME_SIZE * 64

  /** How many frames a growth by at least `minBytes` asks for. */
  function GrowthFrames(minBytes: nat): nat {
    (Max(minBytes, MIN_GROWTH) + FRAME_SIZE - 1) / FRAME_SIZE
  }

  /** Checking the limit before rounding up to whole frames is safe, because
      the heap and its limit are whole frames. */
  lemma GrowthStaysWithinLimit(heapSize: nat, minBytes: nat)
    requires heapSize % FRAME_SIZE == 0 && heapSize + Max(minBytes, MIN_GROWTH) <= MAX_HEAP_SIZE
    ensures heapSize + GrowthFrames(minBytes) * FRAME_SIZE <= MAX_HEAP_SIZE
    ensures (heapSize + GrowthFrames(minBytes) * FRAME_SIZE) % FRAME_SIZE == 0
    ensures GrowthFrames(minBytes) * FRAME_SIZE >= minBytes
  {
  }

  /** A region of `size + align` more bytes always holds the aligned request,
      also after it has been joined to its neighbours. */
  lemma GrownHeapFits(free: seq<Block>, region: Block, size: nat, align: nat)
    requires Canonical(free) && ApartFromAll(region, free) && align > 0
    requires region.size >= size + align
    ensures FirstFit(Insert(free, region), size, align) < |Insert(free, region)|
  {
    var j, joined := Before(free, region), Joined(free, region);
    assert joined.addr <= region.addr && region.End() <= joined.End();
    AlignUpIsLeast(joined.addr, align);
    assert Insert(free, region)[j] == joined;
    assert Fits(joined, size, align);
  }

  // ---- Sizes and addresses ------------------------------------------------

  predicate IsRegular(b: Block) {
    b.addr > 0 && b.addr % 8 == 0 && b.size % 8 == 0 && b.size >= MIN_BLOCK_SIZE
  }

  /** Every block can hold a header, at an address that is aligned for it. */
  ghost predicate Regular(bs: seq<Block>) {
    forall i :: 0 <= i < |bs| ==> IsRegular(bs[i])
  }

  lemma InsertIsRegular(bs: seq<Block>, b: Block)
    requires Regular(bs) && IsRegular(b)
    ensures Regular(Insert(bs, b))
  {
    var joined := Joined(bs, b);
    assert IsRegular(joined);
  }

  /** What is left of a regular block around an allocation comes in multiples
      of eight bytes. */
  lemma PiecesAreEights(b: Block, size: nat, align: nat)
    requires IsRegular(b) && align >= 8 && align % 8 == 0 && size % 8 == 0 && Fits(b, size, align)
    ensures
      var at := AlignUp(b.addr, align);
      && b.addr <= at && at % 8 == 0 && at + size <= b.End()
      && Front(b, at).size % 8 == 0 && Front(b, at).addr == b.addr
      && Back(b, at + size).size % 8 == 0 && Back(b, at + size).addr % 8 == 0
  {
    hide AlignUp;
    AlignUpIsLeast(b.addr, align);
    AlignSkipsEights(b.addr, align);
    EightsAround(b, AlignUp(b.addr, align), size);
  }

  lemma EightsAround(b: Block, at: nat, size: nat)
    requires b.addr % 8 == 0 && b.size % 8 == 0 && at % 8 == 0 && size % 8 == 0
    requires b.addr <= at && at + size <= b.End()
    ensures Front(b, at).size % 8 == 0 && Back(b, at + size).size % 8 == 0 && Back(b, at + size).addr % 8 == 0
  {
  }

  lemma PiecesAreRegular(b: Block, at: nat, size: nat)
    requires IsRegular(b) && b.addr <= at && at + size <= b.End()
    requires Front(b, at).size % 8 == 0 && Back(b, at + size).size % 8 == 0 && (at + size) % 8 == 0
    ensures Front(b, at).size >= MIN_BLOCK_SIZE ==> IsRegular(Front(b, at))
    ensures Back(b, at + size).size >= MIN_BLOCK_SIZE ==> IsRegular(Back(b, at + size))
  {
  }

  lemma LostIsEightBytes(piece: Block)
    requires piece.size % 8 == 0
    ensures Lost(piece) == [] || (piece.size == 8 && Lost(piece) == [piece])
  {
  }

  /** An allocation from regular blocks leaves regular blocks, and loses at most
      one sliver of eight bytes in front of it and one behind. */
  lemma CarvingIsRegular(free: seq<Block>, k: nat, size: nat, align: nat)
    requires Regular(free) && k < |free|
    requires align >= 8 && align % 8 == 0 && size % 8 == 0 && Fits(free[k], size, align)
    ensures
      var b := free[k];
      var at := AlignUp(b.addr, align);
      && b.addr <= at && at + size <= b.End() && at % 8 == 0
      && Regular(Carved(free, k, at, size))
      && (Lost(Front(b, at)) == [] || Lost(Front(b, at)) == [Block(at - 8, 8)])
      && (Lost(Back(b, at + size)) == [] || Lost(Back(b, at + size)) == [Block(at + size, 8)])
  {
    hide Insert, AlignUp, Lost, IsRegular;
    var b, rest := free[k], Without(free, k);
    PiecesAreEights(b, size, align);
    var at := AlignUp(b.addr, align);
    var front, back := Front(b, at), Back(b, at + size);
    LostIsEightBytes(front);
    LostIsEightBytes(back);
    PiecesAreRegular(b, at, size);
    assert Regular(rest);
    if back.size >= MIN_BLOCK_SIZE { InsertIsRegular(rest, back); }
    if front.size >= MIN_BLOCK_SIZE { InsertIsRegular(Kept(rest, back), front); }
  }
}
