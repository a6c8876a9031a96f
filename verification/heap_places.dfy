/**
 Where an allocation may go, told from the free memory alone: the heap takes the
 lowest place that there is.
 */
module HeapPlaces {
  import opened Wrappers
  import opened HeapBlocks
  import opened Heap

  /** `size` bytes at `at` lie in one free block, and `at` is a multiple of
      `align`. */
  ghost predicate IsPlace(free: seq<Block>, at: nat, size: nat, align: nat) {
    && align > 0 && at % align == 0
    && exists k :: 0 <= k < |free| && free[k].addr <= at && at + size <= free[k].End()
  }

  ghost predicate IsLowestPlace(free: seq<Block>, at: nat, size: nat, align: nat) {
    IsPlace(free, at, size, align) && forall x: nat :: IsPlace(free, x, size, align) ==> at <= x
  }

  /** No multiple of `align` lies between a value and its alignment. */
  lemma NoneBetween(value: nat, align: nat, m: nat)
    requires align > 0 && m >= value && m % align == 0
    ensures AlignUp(value, align) <= m
  {
    AlignUpIsLeast(value, align);
    var q, a := (value + align - 1) / align, m / align;
    assert m == a * align;
    assert q * align - a * align == (q - a) * align;
    if a < q { AtLeastOnce(q - a, align); }
    if a > q { AtLeastOnce(a - q, align); }
  }

  lemma PlaceFits(b: Block, at: nat, size: nat, align: nat)
    requires align > 0 && at % align == 0 && b.addr <= at && at + size <= b.End()
    ensures Fits(b, size, align) && AlignUp(b.addr, align) <= at
  {
    NoneBetween(b.addr, align, at);
  }

  /** The first block that fits gives the lowest place; if none fits there is no
      place. */
  lemma FirstFitIsLowest(free: seq<Block>, size: nat, align: nat)
    requires Canonical(free) && align > 0
    ensures
      var k := FirstFit(free, size, align);
      if k < |free| then IsLowestPlace(free, AlignUp(free[k].addr, align), size, align)
      else forall x: nat :: !IsPlace(free, x, size, align)
  {
    hide AlignUp;
    var k := FirstFit(free, size, align);
    forall x: nat | IsPlace(free, x, size, align)
      ensures k < |free| && AlignUp(free[k].addr, align) <= x
    {
      var j :| 0 <= j < |free| && free[j].addr <= x && x + size <= free[j].End();
      PlaceFits(free[j], x, size, align);
      assert k <= j;
    }
    if k < |free| { AlignUpIsLeast(free[k].addr, align); }
  }

  lemma LowestPlace(free: seq<Block>, live: seq<Block>, lost: seq<Block>, size: nat, align: nat)
    requires Separate(free, live, lost) && align > 0
    ensures
      var k := FirstFit(free, size, align);
      if k < |free| then IsLowestPlace(free, AlignUp(free[k].addr, align), size, align)
      else forall x: nat :: !IsPlace(free, x, size, align)
  {
    FirstFitIsLowest(free, size, align);
  }

  /** The size used is the least multiple of eight that holds what was asked for,
      and at least 16; the alignment used is a multiple of the one asked for. */
  lemma LayoutIsLeast(l: Layout)
    requires l.Valid()
    ensures l.Size() % 8 == 0 && l.size <= l.Size() && 16 <= l.Size()
    ensures forall n :: n % 8 == 0 && l.size <= n && 16 <= n ==> l.Size() <= n
    ensures l.align > 0 && l.Align() >= 8 && (l.align >= 8 ==> l.Align() == l.align)
    ensures forall x :: x % l.Align() == 0 ==> x % l.align == 0
  {
    hide AlignUp, IsPowerOfTwo;
    LayoutFacts(l);
    forall n | n % 8 == 0 && l.size <= n && 16 <= n
      ensures l.Size() <= n
    {
      NoneBetween(Max(l.size, MIN_BLOCK_SIZE), 8, n);
    }
    if l.align < 8 {
      SmallPowers(l.align);
      forall x | x % 8 == 0
        ensures x % l.align == 0
      {
        EightsDivide(l.align, x);
      }
    }
  }

  lemma SmallPowers(n: nat)
    requires IsPowerOfTwo(n) && n < 8
    ensures n == 1 || n == 2 || n == 4
  {
  }

  lemma EightsDivide(n: nat, x: int)
    requires (n == 1 || n == 2 || n == 4) && x % 8 == 0
    ensures x % n == 0
  {
  }

  /** The heap grows by the least number of whole frames that holds the request,
      and by at least 64. */
  lemma GrowthIsLeast(minBytes: nat)
    ensures GrowthFrames(minBytes) >= 64 && GrowthFrames(minBytes) * 4096 >= minBytes
    ensures forall n: nat :: n >= 64 && n * 4096 >= minBytes ==> GrowthFrames(minBytes) <= n
  {
  }
}
