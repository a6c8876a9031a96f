/** The physical frame allocator as one caller at a time sees it: first fit,
    and out of memory exactly when no free run is long enough. */
module FrameBitmap {
  import opened Wrappers

  const FRAME_SIZE := 4096
  const MAX_FRAMES := 1024 * 1024
  const BITMAP_SIZE := MAX_FRAMES / 64

  datatype FrameError = OutOfMemory | DoubleFree(frame: nat) | OutOfRange(frame: nat)

  /** `count` frames from `start` are all free and below `total`. */
  ghost predicate IsFreeRun(bits: seq<bool>, total: nat, start: nat, count: nat) {
    start + count <= total <= |bits| && forall f :: start <= f < start + count ==> !bits[f]
  }

  /** `bits` with `value` from `start` to `end`. */
  function Filled(bits: seq<bool>, start: nat, end: nat, value: bool): (r: seq<bool>)
    ensures |r| == |bits|
    ensures forall f :: 0 <= f < |bits| ==> r[f] == if start <= f < end then value else bits[f]
  {
    seq(|bits|, f requires 0 <= f < |bits| => if start <= f < end then value else bits[f])
  }

  /** How many of the frames from `from` to just below `to` are free. */
  function ClearIn(bits: seq<bool>, from: nat, to: nat): (n: nat)
    ensures n <= Max(to - from, 0)
  {
    if to <= from then 0
    else ClearIn(bits, from, to - 1) + if to - 1 < |bits| && !bits[to - 1] then 1 else 0
  }

  /** Clearing a range adds the frames that were not clear already... */
  lemma {:induction false} ClearedRange(bits: seq<bool>, start: nat, end: nat, to: nat)
    requires start <= end <= |bits| && to <= |bits|
    ensures ClearIn(Filled(bits, start, end, false), 0, to) + ClearIn(bits, start, Min(end, to))
         == ClearIn(bits, 0, to) + Max(Min(end, to) - start, 0)
  {
    if to > 0 { ClearedRange(bits, start, end, to - 1); }
  }

  /** ...and setting one takes away those that were. */
  lemma {:induction false} SetRange(bits: seq<bool>, start: nat, end: nat, to: nat)
    requires end <= |bits| && to <= |bits|
    ensures ClearIn(Filled(bits, start, end, true), 0, to) + ClearIn(bits, start, Min(end, to)) == ClearIn(bits, 0, to)
  {
    if to > 0 { SetRange(bits, start, end, to - 1); }
  }

  lemma {:induction false} ClearInSplit(bits: seq<bool>, from: nat, mid: nat, to: nat)
    requires from <= mid <= to
    ensures ClearIn(bits, from, to) == ClearIn(bits, from, mid) + ClearIn(bits, mid, to)
  {
    if mid < to { ClearInSplit(bits, from, mid, to - 1); }
  }

  lemma {:induction false} AllClear(bits: seq<bool>, from: nat, to: nat)
    requires from <= to <= |bits|
    ensures ClearIn(bits, from, to) == to - from <==> forall f :: from <= f < to ==> !bits[f]
  {
    if from < to { AllClear(bits, from, to - 1); }
  }

  lemma {:induction false} OneClear(bits: seq<bool>, to: nat)
    requires 1 <= to <= |bits| && !bits[0] && forall f :: 1 <= f < |bits| ==> bits[f]
    ensures ClearIn(bits, 0, to) == 1
  {
    if to > 1 { OneClear(bits, to - 1); }
  }

  /** The end of the last word that holds a bit of a frame below `total`. */
  function WordsEnd(total: nat): (end: nat)
    ensures total <= end < total + 64 && end % 64 == 0
  {
    (total + 63) / 64 * 64
  }

  /** What `free_frame_count` computes; a negative number stands for the
      underflow of its subtraction. */
  function FreeCount(bits: seq<bool>, total: nat): int {
    ClearIn(bits, 0, WordsEnd(total)) - (WordsEnd(total) - total)
  }

  /** The bits beyond the last frame are taken for clear, so the count is right
      exactly when they are. */
  lemma FreeCountIsRightExactly(bits: seq<bool>, total: nat)
    requires WordsEnd(total) <= |bits|
    ensures FreeCount(bits, total) == ClearIn(bits, 0, total) <==> forall f :: total <= f < WordsEnd(total) ==> !bits[f]
  {
    ClearInSplit(bits, 0, total, WordsEnd(total));
    AllClear(bits, total, WordsEnd(total));
  }

  lemma {:induction false} NothingClear(bits: seq<bool>, to: nat)
    requires to <= |bits| && forall f :: 0 <= f < |bits| ==> bits[f]
    ensures ClearIn(bits, 0, to) == 0
  {
    if to > 0 { NothingClear(bits, to - 1); }
  }

  class BitmapAllocator {
    /** One bit per frame, set while the frame is reserved or allocated. */
    const bits: array<bool>
    var totalFrames: nat
    var usableFrames: nat

    ghost predicate Valid()
      reads this
    {
      bits.Length == MAX_FRAMES && totalFrames <= MAX_FRAMES
    }

    /** The counter of usable frames is right. */
    ghost predicate Counted()
      requires Valid()
      reads this, bits
    {
      usableFrames == ClearIn(bits[..], 0, MAX_FRAMES)
    }

    /** At first every frame is reserved. */
    constructor ()
      ensures Valid() && totalFrames == 0 && fresh(bits) && Counted()
      ensures forall f :: 0 <= f < MAX_FRAMES ==> bits[f]
    {
      bits := new bool[MAX_FRAMES](_ => true);
      totalFrames, usableFrames := 0, 0;
      new;
      NothingClear(bits[..], MAX_FRAMES);
    }

    /** The counter stays right exactly when no frame of the range is usable
        already. */
    method MarkUsable(base: nat, size: nat)
      requires Valid()
      modifies this`totalFrames, this`usableFrames, bits
      ensures Valid()
      ensures
        var start, end := (base + FRAME_SIZE - 1) / FRAME_SIZE, Min((base + size) / FRAME_SIZE, MAX_FRAMES);
        && usableFrames == old(usableFrames) + (if size == 0 then 0 else Max(end - start, 0))
        && (old(Counted()) ==> (Counted() <==> size == 0 || ClearIn(old(bits[..]), start, end) == 0))
      ensures
        var start, end := (base + FRAME_SIZE - 1) / FRAME_SIZE, (base + size) / FRAME_SIZE;
        if size == 0 || start >= MAX_FRAMES then bits[..] == old(bits[..]) && totalFrames == old(totalFrames)
        else bits[..] == Filled(old(bits[..]), start, end, false)
             && totalFrames == Max(old(totalFrames), Min(end, MAX_FRAMES))
    {
      if size == 0 {
        return;
      }
      var startFrame := (base + FRAME_SIZE - 1) / FRAME_SIZE;
      var endFrame := (base + size) / FRAME_SIZE;
      if startFrame >= MAX_FRAMES {
        return;
      }
      var end := Min(endFrame, MAX_FRAMES);
      var frame := startFrame;
      while frame < end
        invariant startFrame <= frame && (frame <= end || frame == startFrame)
        invariant forall f :: 0 <= f < MAX_FRAMES ==> bits[f] == if startFrame <= f < frame then false else old(bits[f])
        invariant totalFrames == old(totalFrames) && usableFrames == old(usableFrames) + (frame - startFrame)
      {
        bits[frame] := false;
        usableFrames := usableFrames + 1;
        frame := frame + 1;
      }
      totalFrames := Max(totalFrames, end);
      assert bits[..] == Filled(old(bits[..]), startFrame, endFrame, false);
      if startFrame <= end {
        assert bits[..] == Filled(old(bits[..]), startFrame, end, false);
        ClearedRange(old(bits[..]), startFrame, end, MAX_FRAMES);
      } else {
        assert bits[..] == old(bits[..]);
      }
    }

    /** The counter stays right. */
    method MarkReserved(base: nat, size: nat)
      requires Valid()
      modifies this`usableFrames, bits
      ensures Valid() && (old(Counted()) ==> Counted())
      ensures
        var start, end := base / FRAME_SIZE, Min((base + size + FRAME_SIZE - 1) / FRAME_SIZE, MAX_FRAMES);
        usableFrames == if size == 0 then old(usableFrames)
                        else Max(old(usableFrames) - ClearIn(old(bits[..]), start, end), 0)
      ensures
        bits[..] == if size == 0 then old(bits[..])
                    else Filled(old(bits[..]), base / FRAME_SIZE, (base + size + FRAME_SIZE - 1) / FRAME_SIZE, true)
    {
      if size == 0 {
        return;
      }
      var startFrame := base / FRAME_SIZE;
      var end := Min((base + size + FRAME_SIZE - 1) / FRAME_SIZE, MAX_FRAMES);
      var frame := startFrame;
      while frame < end
        invariant startFrame <= frame && (frame <= end || frame == startFrame)
        invariant forall f :: 0 <= f < MAX_FRAMES ==> bits[f] == if startFrame <= f < frame then true else old(bits[f])
        invariant usableFrames == Max(old(usableFrames) - ClearIn(old(bits[..]), startFrame, frame), 0)
      {
        if !bits[frame] {
          usableFrames := Max(usableFrames - 1, 0);
        }
        bits[frame] := true;
        frame := frame + 1;
      }
      assert bits[..] == Filled(old(bits[..]), startFrame, end, true);
      SetRange(old(bits[..]), startFrame, end, MAX_FRAMES);
    }

    /** The number of free frames, as it is counted. */
    method FreeFrameCount() returns (count: int)
      requires Valid()
      ensures count == FreeCount(bits[..], totalFrames)
    {
      count := 0;
      var limit := Min((totalFrames + 63) / 64, BITMAP_SIZE);
      for idx := 0 to limit
        invariant count == ClearIn(bits[..], 0, idx * 64)
      {
        for bit := 0 to 64
          invariant count == ClearIn(bits[..], 0, idx * 64 + bit)
        {
          if !bits[idx * 64 + bit] {
            count := count + 1;
          }
        }
      }
      var remainder := totalFrames % 64;
      if remainder != 0 {
        count := count - (64 - remainder);
      }
    }

    /** One usable frame after boot: the count of free frames underflows. */
    static method CountUnderflows() returns (a: BitmapAllocator, count: int)
      ensures a.Valid() && a.Counted() && a.usableFrames == 1 && count == -62
    {
      a := new BitmapAllocator();
      NothingClear(a.bits[..], 1);
      NothingClear(a.bits[..], MAX_FRAMES);
      a.MarkUsable(0, FRAME_SIZE);
      count := a.FreeFrameCount();
      assert a.bits[..1] == [false];
      OneClear(a.bits[..], 64);
    }

    /** The first clear bit of a word, or 64. */
    method FirstClearBit(idx: nat) returns (bit: nat)
      requires Valid() && idx < BITMAP_SIZE
      ensures bit <= 64
      ensures bit < 64 ==> !bits[idx * 64 + bit]
      ensures forall f :: idx * 64 <= f < idx * 64 + bit ==> bits[f]
    {
      bit := 0;
      while bit < 64 && bits[idx * 64 + bit]
        invariant bit <= 64
        invariant forall f :: idx * 64 <= f < idx * 64 + bit ==> bits[f]
      {
        bit := bit + 1;
      }
    }

    /** Takes the lowest free frame; fails exactly when there is none. */
    method Alloc() returns (r: Result<nat, FrameError>)
      requires Valid()
      modifies bits
      ensures r.Ok? ==>
        && IsFreeRun(old(bits[..]), totalFrames, r.value, 1)
        && (forall f :: 0 <= f < r.value ==> old(bits[f]))
        && bits[..] == Filled(old(bits[..]), r.value, r.value + 1, true)
      ensures r.Err? ==>
        && r.error == OutOfMemory && bits[..] == old(bits[..])
        && forall f :: 0 <= f < totalFrames ==> bits[f]
    {
      var searchLimit := (totalFrames + 63) / 64;
      var limit := Min(searchLimit, BITMAP_SIZE);
      var idx := 0;
      while idx < limit
        invariant 0 <= idx <= limit
        invariant forall f :: 0 <= f < idx * 64 ==> bits[f]
        invariant bits[..] == old(bits[..])
      {
        var bit := FirstClearBit(idx);
        if bit < 64 {
          var frame := idx * 64 + bit;
          if frame >= totalFrames {
            return Err(OutOfMemory);
          }
          bits[frame] := true;
          return Ok(frame);
        }
        idx := idx + 1;
      }
      return Err(OutOfMemory);
    }

    /** Takes the lowest run of `count` free frames; fails exactly when there is
        none, or when none is asked for. */
    method AllocContiguous(count: nat) returns (r: Result<nat, FrameError>)
      requires Valid()
      modifies bits
      ensures r.Ok? ==>
        && count > 0 && IsFreeRun(old(bits[..]), totalFrames, r.value, count)
        && (forall s :: 0 <= s < r.value ==> !IsFreeRun(old(bits[..]), totalFrames, s, count))
        && bits[..] == Filled(old(bits[..]), r.value, r.value + count, true)
      ensures r.Err? ==>
        && r.error == OutOfMemory && bits[..] == old(bits[..])
        && (count == 0 || forall s :: 0 <= s ==> !IsFreeRun(bits[..], totalFrames, s, count))
    {
      if count == 0 {
        return Err(OutOfMemory);
      }
      if count == 1 {
        ghost var was := bits[..];
        forall s | 0 <= s < totalFrames && was[s]
          ensures !IsFreeRun(was, totalFrames, s, count)
        {
          assert s <= s < s + count;
        }
        r := Alloc();
        return;
      }
      if count > totalFrames {
        return Err(OutOfMemory);
      }
      var found := FindRun(count);
      if found.None? {
        return Err(OutOfMemory);
      }
      var start := found.value;
      var f := start;
      while f < start + count
        invariant start <= f <= start + count
        invariant forall g :: 0 <= g < MAX_FRAMES ==> bits[g] == if start <= g < f then true else old(bits[g])
      {
        bits[f] := true;
        f := f + 1;
      }
      return Ok(start);
    }

    /** Scans for the lowest run of `count` free frames. */
    method FindRun(count: nat) returns (found: Option<nat>)
      requires Valid() && count > 0
      ensures found.Some? ==>
        && IsFreeRun(bits[..], totalFrames, found.value, count)
        && forall s :: 0 <= s < found.value ==> !IsFreeRun(bits[..], totalFrames, s, count)
      ensures found.None? ==> forall s :: 0 <= s ==> !IsFreeRun(bits[..], totalFrames, s, count)
    {
      var runStart, runLen, frame := 0, 0, 0;
      while frame < totalFrames
        invariant 0 <= runStart && runStart + runLen == frame <= totalFrames && runLen < count
        invariant forall f :: runStart <= f < frame ==> !bits[f]
        invariant forall s :: 0 <= s < runStart ==> !IsFreeRun(bits[..], totalFrames, s, count)
      {
        if bits[frame] {
          forall s | runStart <= s <= frame
            ensures !IsFreeRun(bits[..], totalFrames, s, count)
          {
            assert s + count <= totalFrames ==> s <= frame < s + count && bits[..][frame];
          }
          runStart, runLen := frame + 1, 0;
        } else {
          runLen := runLen + 1;
          if runLen == count {
            return Some(runStart);
          }
        }
        frame := frame + 1;
      }
      return None;
    }

    /** Gives a frame back; freeing a free one is reported and changes nothing. */
    method Free(frame: nat) returns (r: Result<Unit, FrameError>)
      requires Valid()
      modifies bits
      ensures frame >= MAX_FRAMES ==> r == Err(OutOfRange(frame)) && bits[..] == old(bits[..])
      ensures frame < MAX_FRAMES ==>
        && r == (if old(bits[frame]) then Ok(Unit) else Err(DoubleFree(frame)))
        && bits[..] == old(bits[..])[frame := false]
    {
      if frame >= MAX_FRAMES {
        return Err(OutOfRange(frame));
      }
      var prev := bits[frame];
      bits[frame] := false;
      if !prev {
        return Err(DoubleFree(frame));
      }
      return Ok(Unit);
    }

    /** Allocating a frame and freeing it leaves the bitmap as it was. */
    method AllocThenFree() returns (r: Result<Unit, FrameError>)
      requires Valid()
      modifies bits
      ensures bits[..] == old(bits[..])
      ensures r.Ok? <==> exists f :: 0 <= f < totalFrames && !old(bits[f])
    {
      var a := Alloc();
      if a.Err? {
        return Err(a.error);
      }
      ghost var taken := bits[..];
      r := Free(a.value);
      assert forall f :: 0 <= f < MAX_FRAMES && f != a.value ==> taken[f] == old(bits[..])[f];
      assert !old(bits[a.value]);
    }
  }
}
