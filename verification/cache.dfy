/**
 The write-back block cache, with the pinning that the journal relies on:
 sectors written while a transaction is recorded do not reach the device before
 the recording ends.
 */
module Cache {
  import opened Wrappers

  const SECTOR_SIZE := 512
  const MAX_CACHED_SECTORS := 256
  const U64_MAX := 0xFFFF_FFFF_FFFF_FFFF

  type Sector = s: seq<Byte> | |s| == 512 witness seq(512, _ => 0)

  datatype BlockError = OutOfRange | InvalidBuffer | Io

  /** A block device. A faulty one may fail any access, and then leaves the
      sector as it was. */
  class BlockDevice {
    var disk: seq<Sector>
    var faulty: bool

    method ReadSector(lba: nat) returns (r: Result<Sector, BlockError>)
      ensures r.Ok? ==> lba < |disk| && r.value == disk[lba]
      ensures r.Err? <==> lba >= |disk| || r == Err(Io)
      ensures r == Err(Io) ==> faulty
    {
      if lba >= |disk| {
        return Err(OutOfRange);
      }
      var fails: bool := *;
      if faulty && fails {
        return Err(Io);
      }
      return Ok(disk[lba]);
    }

    method WriteSector(lba: nat, data: Sector) returns (r: Result<Unit, BlockError>)
      modifies this`disk
      ensures r.Ok? ==> lba < |old(disk)| && disk == old(disk)[lba := data]
      ensures r.Err? ==> disk == old(disk) && (lba >= |disk| || (faulty && r.error == Io))
    {
      if lba >= |disk| {
        return Err(OutOfRange);
      }
      var fails: bool := *;
      if faulty && fails {
        return Err(Io);
      }
      disk := disk[lba := data];
      return Ok(Unit);
    }
  }

  datatype Entry = Entry(lba: nat, data: Sector, dirty: bool, accessed: nat)

  // ---- The flat disk that a cache stands for ------------------------------

  ghost predicate DistinctSectors(es: seq<Entry>) {
    forall i, j :: 0 <= i < j < |es| ==> es[i].lba != es[j].lba
  }

  /** The position of the first entry for `lba`, or the length if there is none. */
  function Position(es: seq<Entry>, lba: nat): (i: nat)
    ensures i <= |es|
    ensures i < |es| ==> es[i].lba == lba
    ensures forall k :: 0 <= k < i ==> es[k].lba != lba
  {
    if es == [] then 0
    else if es[0].lba == lba then 0
    else 1 + Position(es[1..], lba)
  }

  predicate IsCached(es: seq<Entry>, lba: nat) {
    Position(es, lba) < |es|
  }

  predicate IsDirty(es: seq<Entry>, lba: nat) {
    IsCached(es, lba) && es[Position(es, lba)].dirty
  }

  /** The contents of sector `lba` as a reader of the cache sees them. */
  function SectorAt(es: seq<Entry>, disk: seq<Sector>, lba: nat): Sector
    requires lba < |disk|
  {
    if IsCached(es, lba) then es[Position(es, lba)].data else disk[lba]
  }

  function Flat(es: seq<Entry>, disk: seq<Sector>): (flat: seq<Sector>)
    ensures |flat| == |disk|
    ensures forall l :: 0 <= l < |disk| ==> flat[l] == SectorAt(es, disk, l)
  {
    seq(|disk|, l requires 0 <= l < |disk| => SectorAt(es, disk, l))
  }

  /** Unique addresses within the device, and clean entries equal to it. */
  ghost predicate Coherent(es: seq<Entry>, disk: seq<Sector>) {
    && DistinctSectors(es)
    && forall i :: 0 <= i < |es| ==> es[i].lba < |disk| && (!es[i].dirty ==> es[i].data == disk[es[i].lba])
  }

  /** The device has only been given the current contents of sectors that were
      dirty and not pinned. */
  ghost predicate OnlyWroteBack(disk: seq<Sector>, disk': seq<Sector>, es: seq<Entry>, pinned: seq<nat>) {
    && |disk'| == |disk|
    && forall l :: 0 <= l < |disk| ==>
         disk'[l] == disk[l] || (IsDirty(es, l) && l !in pinned && disk'[l] == SectorAt(es, disk, l))
  }

  // ---- Lemmas about entries -----------------------------------------------

  lemma PositionOfEntry(es: seq<Entry>, i: nat)
    requires DistinctSectors(es) && i < |es|
    ensures Position(es, es[i].lba) == i
  {
  }

  /** Changing one entry changes the view of its own sector only. */
  lemma UpdateEntry(es: seq<Entry>, i: nat, e: Entry)
    requires DistinctSectors(es) && i < |es| && e.lba == es[i].lba
    ensures
      var es' := es[i := e];
      && DistinctSectors(es')
      && (forall l :: Position(es', l) == Position(es, l))
  {
    var es' := es[i := e];
    forall l
      ensures Position(es', l) == Position(es, l)
    {
      var p := Position(es, l);
      var p' := Position(es', l);
      if p < |es| { assert es'[p].lba == l; }
      if p' < |es| { assert es[p'].lba == l; }
    }
  }

  /** Appending an entry for a sector that is not cached. */
  lemma AppendEntry(es: seq<Entry>, e: Entry)
    requires DistinctSectors(es) && !IsCached(es, e.lba)
    ensures
      var es' := es + [e];
      && DistinctSectors(es')
      && Position(es', e.lba) == |es|
      && (forall l :: l != e.lba ==> IsCached(es', l) == IsCached(es, l))
      && (forall l :: l != e.lba && IsCached(es, l) ==> Position(es', l) == Position(es, l))
  {
    hide Position;
    var es' := es + [e];
    forall i | 0 <= i < |es|
      ensures es[i].lba != e.lba
    {
    }
    forall l | l != e.lba
      ensures IsCached(es', l) == IsCached(es, l) && (IsCached(es, l) ==> Position(es', l) == Position(es, l))
    {
      var p := Position(es, l);
      if p < |es| { assert es'[p].lba == l; }
      var p' := Position(es', l);
      if p' < |es'| { assert es[p'].lba == l; }
    }
    PositionOfEntry(es', |es|);
  }

  /** The entries after the last one has taken the place of entry `i`. */
  function SwapRemove(es: seq<Entry>, i: nat): (rest: seq<Entry>)
    requires i < |es|
    ensures |rest| == |es| - 1
    ensures forall k :: 0 <= k < |rest| ==> rest[k] == es[if k == i then |es| - 1 else k]
  {
    es[i := es[|es| - 1]][..|es| - 1]
  }

  lemma SwapRemoveEntry(es: seq<Entry>, i: nat)
    requires DistinctSectors(es) && i < |es|
    ensures
      var es' := SwapRemove(es, i);
      && DistinctSectors(es')
      && !IsCached(es', es[i].lba)
      && (forall l :: l != es[i].lba ==> IsCached(es', l) == IsCached(es, l))
      && (forall l :: l != es[i].lba && IsCached(es, l) ==> es'[Position(es', l)] == es[Position(es, l)])
  {
    hide SwapRemove, Position;
    var es' := SwapRemove(es, i);
    SwapRemoveLoses(es, i);
    forall l | l != es[i].lba
      ensures IsCached(es', l) == IsCached(es, l)
      ensures IsCached(es, l) ==> es'[Position(es', l)] == es[Position(es, l)]
    {
      SwapRemoveKeeps(es, i, l);
    }
  }

  lemma SwapRemoveLoses(es: seq<Entry>, i: nat)
    requires DistinctSectors(es) && i < |es|
    ensures DistinctSectors(SwapRemove(es, i)) && !IsCached(SwapRemove(es, i), es[i].lba)
  {
    hide SwapRemove, Position;
    var es' := SwapRemove(es, i);
  }

  lemma SwapRemoveKeeps(es: seq<Entry>, i: nat, l: nat)
    requires DistinctSectors(es) && i < |es| && l != es[i].lba
    requires DistinctSectors(SwapRemove(es, i))
    ensures IsCached(SwapRemove(es, i), l) == IsCached(es, l)
    ensures IsCached(es, l) ==> SwapRemove(es, i)[Position(SwapRemove(es, i), l)] == es[Position(es, l)]
  {
    hide SwapRemove, Position;
    var es' := SwapRemove(es, i);
    var p := Position(es, l);
    if p < |es| {
      var k := if p == |es| - 1 then i else p;
      assert es'[k] == es[p];
      PositionOfEntry(es', k);
    }
  }

  // ---- What an operation on entries does to the view ----------------------

  /** Evicting entry `i`, after writing it back if it was dirty. */
  lemma EvictionKeepsView(es: seq<Entry>, i: nat, disk: seq<Sector>, disk': seq<Sector>)
    requires Coherent(es, disk) && i < |es|
    requires disk' == if es[i].dirty then disk[es[i].lba := es[i].data] else disk
    ensures
      var es' := SwapRemove(es, i);
      && Coherent(es', disk')
      && Flat(es', disk') == Flat(es, disk)
      && (forall l :: IsDirty(es', l) <==> IsDirty(es, l) && l != es[i].lba)
  {
    var es' := SwapRemove(es, i);
    SwapRemoveEntry(es, i);
    PositionOfEntry(es, i);
    forall l | 0 <= l < |disk|
      ensures SectorAt(es', disk', l) == SectorAt(es, disk, l)
    {
    }
    forall k | 0 <= k < |es'|
      ensures es'[k].lba < |disk'| && (!es'[k].dirty ==> es'[k].data == disk'[es'[k].lba])
    {
      var j := if k == i then |es| - 1 else k;
      assert es'[k] == es[j] && es[j].lba != es[i].lba;
    }
  }

  /** The device after entry `i` has been written back, if it was dirty. */
  function WrittenBack(e: Entry, disk: seq<Sector>): seq<Sector>
    requires e.lba < |disk|
  {
    if e.dirty then disk[e.lba := e.data] else disk
  }

  /** All that an eviction does, if the entry is not pinned. */
  lemma EvictionEffect(es: seq<Entry>, i: nat, disk: seq<Sector>, pinned: seq<nat>)
    requires Coherent(es, disk) && i < |es| && !(es[i].dirty && es[i].lba in pinned)
    ensures es[i].lba < |disk|
    ensures
      var es', disk' := SwapRemove(es, i), WrittenBack(es[i], disk);
      && Coherent(es', disk') && Flat(es', disk') == Flat(es, disk) && OnlyWroteBack(disk, disk', es, pinned)
      && (forall l :: IsDirty(es', l) ==> IsDirty(es, l)) && (forall l :: IsCached(es', l) ==> IsCached(es, l))
  {
    hide Flat, SwapRemove;
    EvictionKeepsView(es, i, disk, WrittenBack(es[i], disk));
    SwapRemoveEntry(es, i);
    PositionOfEntry(es, i);
  }

  lemma EvictionMayFail(es: seq<Entry>, disk: seq<Sector>, pinned: seq<nat>)
    requires Coherent(es, disk)
    ensures OnlyWroteBack(disk, disk, es, pinned)
  {
  }

  /** The entries that are left are entries that were there. */
  lemma EvictedEntries(es: seq<Entry>, i: nat)
    requires i < |es|
    ensures |SwapRemove(es, i)| == |es| - 1
    ensures forall k :: 0 <= k < |SwapRemove(es, i)| ==> SwapRemove(es, i)[k] in es
  {
  }

  /** Caching a sector that was not cached: with the device's contents if
      clean, with new contents if dirty. */
  lemma InsertionSetsView(es: seq<Entry>, e: Entry, disk: seq<Sector>)
    requires Coherent(es, disk) && !IsCached(es, e.lba) && e.lba < |disk|
    requires !e.dirty ==> e.data == disk[e.lba]
    ensures
      var es' := es + [e];
      && Coherent(es', disk)
      && Flat(es', disk) == Flat(es, disk)[e.lba := e.data]
      && (forall l :: IsDirty(es', l) <==> IsDirty(es, l) || (l == e.lba && e.dirty))
  {
    AppendEntry(es, e);
  }

  /** Replacing the entry of a cached sector. */
  lemma ReplacementSetsView(es: seq<Entry>, i: nat, e: Entry, disk: seq<Sector>)
    requires Coherent(es, disk) && i < |es| && e.lba == es[i].lba
    requires !e.dirty ==> e.data == disk[e.lba]
    ensures
      var es' := es[i := e];
      && Coherent(es', disk)
      && Flat(es', disk) == Flat(es, disk)[e.lba := e.data]
      && (forall l :: IsDirty(es', l) <==> if l == e.lba then e.dirty else IsDirty(es, l))
  {
    UpdateEntry(es, i, e);
    PositionOfEntry(es, i);
    forall l
      ensures IsDirty(es[i := e], l) <==> if l == e.lba then e.dirty else IsDirty(es, l)
    {
      if l != e.lba { assert Position(es, l) != i; }
    }
  }

  /** Writing one dirty entry back to the device. */
  lemma WriteBackKeepsView(es: seq<Entry>, i: nat, disk: seq<Sector>)
    requires Coherent(es, disk) && i < |es|
    ensures
      var e := es[i];
      var es' := es[i := e.(dirty := false)];
      var disk' := disk[e.lba := e.data];
      && Coherent(es', disk')
      && Flat(es', disk') == Flat(es, disk)
      && (forall l :: IsDirty(es', l) <==> IsDirty(es, l) && l != e.lba)
  {
    var e := es[i];
    UpdateEntry(es, i, e.(dirty := false));
    PositionOfEntry(es, i);
    forall l
      ensures IsDirty(es[i := e.(dirty := false)], l) <==> IsDirty(es, l) && l != e.lba
    {
      if l != e.lba { assert Position(es, l) != i; }
    }
  }

  // ---- Flushing -----------------------------------------------------------

  /** The state after the first `n` entries have been considered. */
  ghost predicate Flushed(es: seq<Entry>, disk: seq<Sector>, es': seq<Entry>, disk': seq<Sector>,
                          pinned: seq<nat>, n: nat)
  {
    && |es'| == |es| && n <= |es| && Coherent(es, disk) && Coherent(es', disk')
    && Flat(es', disk') == Flat(es, disk)
    && OnlyWroteBack(disk, disk', es, pinned)
    && forall k :: 0 <= k < |es| ==>
         es'[k] == es[k].(dirty := es[k].dirty && (k >= n || es[k].lba in pinned))
  }

  lemma FlushBegins(es: seq<Entry>, disk: seq<Sector>, pinned: seq<nat>)
    requires Coherent(es, disk)
    ensures Flushed(es, disk, es, disk, pinned, 0)
  {
  }

  lemma FlushSkips(es: seq<Entry>, disk: seq<Sector>, es': seq<Entry>, disk': seq<Sector>, pinned: seq<nat>, i: nat)
    requires i < |es| && Flushed(es, disk, es', disk', pinned, i)
    ensures !(es'[i].dirty && es'[i].lba !in pinned) ==> Flushed(es, disk, es', disk', pinned, i + 1)
    ensures es'[i].lba < |disk'|
  {
  }

  lemma FlushOneMore(es: seq<Entry>, disk: seq<Sector>, es': seq<Entry>, disk': seq<Sector>, pinned: seq<nat>, i: nat)
    requires i < |es| && Flushed(es, disk, es', disk', pinned, i)
    requires es'[i].dirty && es'[i].lba !in pinned && es'[i].lba < |disk'|
    ensures
      var e := es'[i];
      Flushed(es, disk, es'[i := e.(dirty := false)], disk'[e.lba := e.data], pinned, i + 1)
  {
    WriteBackKeepsView(es', i, disk');
    PositionOfEntry(es, i);
    PositionOfEntry(es', i);
    var lba := es[i].lba;
    assert SectorAt(es', disk', lba) == Flat(es', disk')[lba];
    assert SectorAt(es, disk, lba) == Flat(es, disk)[lba];
  }

  lemma FlushEnds(es: seq<Entry>, disk: seq<Sector>, es': seq<Entry>, disk': seq<Sector>, pinned: seq<nat>, n: nat)
    requires Flushed(es, disk, es', disk', pinned, n)
    ensures Flat(es', disk') == Flat(es, disk) && OnlyWroteBack(disk, disk', es, pinned)
    ensures forall l :: IsDirty(es', l) ==> IsDirty(es, l)
    ensures n == |es| ==> forall l :: IsDirty(es', l) <==> IsDirty(es, l) && l in pinned
    ensures n == |es| && pinned == [] ==> disk' == Flat(es', disk')
  {
    forall l
      ensures Position(es', l) == Position(es, l)
    {
      var p, p' := Position(es, l), Position(es', l);
      if p < |es| { assert es'[p].lba == l; }
      if p' < |es| { assert es[p'].lba == l; }
    }
  }

  // ---- Which entries there are --------------------------------------------

  /** Entry `i` may be evicted, and no other that may has waited longer. */
  ghost predicate IsLeastRecentlyUsed(es: seq<Entry>, i: nat, pinned: seq<nat>) {
    && i < |es| && !(es[i].dirty && es[i].lba in pinned)
    && forall k :: 0 <= k < |es| && !(es[k].dirty && es[k].lba in pinned) ==> es[i].accessed <= es[k].accessed
  }

  /** A full cache has lost its least recently used entry, any other none. */
  ghost predicate RoomMade(es: seq<Entry>, es': seq<Entry>, pinned: seq<nat>) {
    if |es| < MAX_CACHED_SECTORS then es' == es
    else exists i :: 0 <= i < |es| && IsLeastRecentlyUsed(es, i, pinned) && es' == SwapRemove(es, i)
  }

  /** The sector of `e` has been accessed: its entry is `e` now, and if it had none
      room has been made for it; all other entries are as they were. */
  ghost predicate Accessed(es: seq<Entry>, es': seq<Entry>, e: Entry, pinned: seq<nat>) {
    if IsCached(es, e.lba) then es' == es[Position(es, e.lba) := e]
    else exists mid :: RoomMade(es, mid, pinned) && es' == mid + [e]
  }

  /** Sector `lba` is cached and was accessed after all others. */
  ghost predicate IsLatest(es: seq<Entry>, lba: nat) {
    IsCached(es, lba) && forall i :: 0 <= i < |es| && es[i].lba != lba ==> es[i].accessed < es[Position(es, lba)].accessed
  }

  lemma RoomKeepsOthers(es: seq<Entry>, mid: seq<Entry>, pinned: seq<nat>)
    requires RoomMade(es, mid, pinned)
    ensures forall i :: 0 <= i < |mid| ==> mid[i] in es
  {
    hide IsLeastRecentlyUsed, SwapRemove;
  }

  lemma AccessedIsLatest(es: seq<Entry>, es': seq<Entry>, e: Entry, pinned: seq<nat>)
    requires DistinctSectors(es) && Accessed(es, es', e, pinned) && forall i :: 0 <= i < |es| ==> es[i].accessed < e.accessed
    ensures IsLatest(es', e.lba)
  {
    hide RoomMade;
    if IsCached(es, e.lba) {
      var p := Position(es, e.lba);
      assert es'[p] == e;
      LatestAt(es', p);
    } else {
      var mid :| RoomMade(es, mid, pinned) && es' == mid + [e];
      RoomKeepsOthers(es, mid, pinned);
      assert es'[|mid|] == e;
      LatestAt(es', |mid|);
    }
  }

  lemma LatestAt(es: seq<Entry>, p: nat)
    requires p < |es| && forall i :: 0 <= i < |es| && i != p ==> es[i].lba != es[p].lba && es[i].accessed < es[p].accessed
    ensures IsLatest(es, es[p].lba)
  {
    var q := Position(es, es[p].lba);
    assert q == p;
  }

  class BlockCache {
    const device: BlockDevice
    var entries: seq<Entry>
    /** Monotonically increasing access counter. */
    var clock: nat
    var hits: nat
    var misses: nat
    /** The sectors written since the recording began, in write order. */
    var recording: Option<seq<nat>>

    ghost predicate Valid()
      reads this, device
    {
      && Coherent(entries, device.disk)
      && |entries| <= MAX_CACHED_SECTORS
      && clock < U64_MAX
      && forall i :: 0 <= i < |entries| ==> entries[i].accessed <= clock
    }

    /** The flat disk that the cache stands for. */
    ghost function View(): (flat: seq<Sector>)
      reads this, device
      ensures |flat| == |device.disk|
    {
      Flat(entries, device.disk)
    }

    function Recorded(): seq<nat>
      reads this
    {
      if recording.Some? then recording.value else []
    }

    /** No entry can make room: all of them are dirty and recorded. */
    ghost predicate AllPinned()
      reads this
    {
      |entries| == MAX_CACHED_SECTORS
      && forall i :: 0 <= i < |entries| ==> entries[i].dirty && entries[i].lba in Recorded()
    }

    constructor (device: BlockDevice)
      ensures Valid() && fresh(this) && this.device == device
      ensures View() == device.disk && recording == None && entries == [] && clock == 0
    {
      this.device := device;
      entries, clock, hits, misses, recording := [], 0, 0, 0, None;
      new;
      assert Flat(entries, device.disk) == device.disk;
    }

    /** The least recently used entry that is not pinned, if there is one. */
    method FindLru() returns (lru: Option<nat>)
      requires Valid()
      ensures lru.None? ==> forall k :: 0 <= k < |entries| ==> entries[k].dirty && entries[k].lba in Recorded()
      ensures lru.Some? ==> lru.value < |entries| && IsLeastRecentlyUsed(entries, lru.value, Recorded())
    {
      lru := None;
      var lruClock := U64_MAX;
      for i := 0 to |entries|
        invariant lru.None? ==> lruClock == U64_MAX
        invariant lru.None? ==> forall k :: 0 <= k < i ==> entries[k].dirty && entries[k].lba in Recorded()
        invariant lru.Some? ==>
          && lru.value < i && lruClock == entries[lru.value].accessed
          && !(entries[lru.value].dirty && entries[lru.value].lba in Recorded())
          && forall k :: 0 <= k < i && !(entries[k].dirty && entries[k].lba in Recorded()) ==>
               lruClock <= entries[k].accessed
      {
        var e := entries[i];
        if !(e.dirty && e.lba in Recorded()) && e.accessed < lruClock {
          lru, lruClock := Some(i), e.accessed;
        }
      }
    }

    /** Evicts the least recently used entry that is not pinned. */
    method EvictOne() returns (r: Result<Unit, BlockError>)
      requires Valid()
      modifies this`entries, device`disk
      ensures Valid() && View() == old(View())
      ensures OnlyWroteBack(old(device.disk), device.disk, old(entries), Recorded())
      ensures forall l :: IsDirty(entries, l) ==> IsDirty(old(entries), l)
      ensures forall l :: IsCached(entries, l) ==> IsCached(old(entries), l)
      ensures r.Err? ==> entries == old(entries) && device.disk == old(device.disk)
      ensures r.Err? && !device.faulty ==>
        entries != [] && forall i :: 0 <= i < |entries| ==> entries[i].dirty && entries[i].lba in Recorded()
      ensures r.Ok? && old(entries) != [] ==>
        exists i :: 0 <= i < |old(entries)| && entries == SwapRemove(old(entries), i)
          && IsLeastRecentlyUsed(old(entries), i, Recorded())
    {
      hide Flat, Coherent, IsLeastRecentlyUsed, OnlyWroteBack, IsDirty, IsCached, SwapRemove, Position;
      EvictionMayFail(entries, device.disk, Recorded());
      if entries == [] {
        return Ok(Unit);
      }
      var lru := FindLru();
      if lru.None? {
        return Err(OutOfRange);
      }
      var i := lru.value;
      EvictionEffect(entries, i, device.disk, Recorded());
      if entries[i].dirty {
        var w := device.WriteSector(entries[i].lba, entries[i].data);
        if w.Err? {
          return Err(w.error);
        }
      }
      EvictedEntries(entries, i);
      entries := SwapRemove(entries, i);
      assert entries == SwapRemove(old(entries), i) && IsLeastRecentlyUsed(old(entries), i, Recorded());
      return Ok(Unit);
    }

    /** Makes room for one more entry. */
    method MakeRoom() returns (r: Result<Unit, BlockError>)
      requires Valid()
      modifies this`entries, device`disk
      ensures Valid() && View() == old(View())
      ensures OnlyWroteBack(old(device.disk), device.disk, old(entries), Recorded())
      ensures forall l :: IsDirty(entries, l) ==> IsDirty(old(entries), l)
      ensures forall l :: IsCached(entries, l) ==> IsCached(old(entries), l)
      ensures r.Ok? ==> |entries| < MAX_CACHED_SECTORS && RoomMade(old(entries), entries, Recorded())
      ensures r.Err? ==> entries == old(entries) && device.disk == old(device.disk)
      ensures !device.faulty ==> (r.Err? <==> old(AllPinned()))
    {
      hide SwapRemove, Flat, Coherent;
      if |entries| >= MAX_CACHED_SECTORS {
        r := EvictOne();
      } else {
        r := Ok(Unit);
      }
    }

    /** Scans the entries for `lba`. */
    method FindEntry(lba: nat) returns (i: nat)
      ensures i == Position(entries, lba)
    {
      i := 0;
      while i < |entries| && entries[i].lba != lba
        invariant 0 <= i <= |entries|
        invariant forall k :: 0 <= k < i ==> entries[k].lba != lba
      {
        i := i + 1;
      }
    }

    /** Reads a sector through the cache into a buffer of `outLen` bytes. */
    method ReadSector(lba: nat, outLen: nat) returns (r: Result<Sector, BlockError>)
      requires Valid() && clock + 1 < U64_MAX
      modifies this, device`disk
      ensures Valid() && View() == old(View()) && recording == old(recording)
      ensures clock <= old(clock) + 1
      ensures r.Ok? ==> outLen == SECTOR_SIZE && lba < |device.disk| && r.value == old(View())[lba]
      ensures outLen != SECTOR_SIZE ==> r == Err(InvalidBuffer)
      ensures outLen == SECTOR_SIZE && lba >= |device.disk| ==> r == Err(OutOfRange)
      ensures outLen == SECTOR_SIZE && lba < |device.disk| && !device.faulty ==>
        (r.Err? <==> !IsCached(old(entries), lba) && old(AllPinned()))
      ensures OnlyWroteBack(old(device.disk), device.disk, old(entries), Recorded())
      ensures forall l :: IsDirty(entries, l) ==> IsDirty(old(entries), l)
      ensures r.Err? ==> entries == old(entries)
      ensures r.Ok? ==>
        && clock == old(clock) + 1 && IsLatest(entries, lba)
        && Accessed(old(entries), entries, Entry(lba, r.value, IsDirty(old(entries), lba), clock), Recorded())
    {
      hide Position, DistinctSectors, RoomMade, IsLatest;
      if outLen != SECTOR_SIZE {
        return Err(InvalidBuffer);
      }
      if lba >= |device.disk| {
        return Err(OutOfRange);
      }
      clock := clock + 1;
      var i := FindEntry(lba);
      if i < |entries| {
        ReplacementSetsView(entries, i, entries[i].(accessed := clock), device.disk);
        entries := entries[i := entries[i].(accessed := clock)];
        hits := hits + 1;
        AccessedIsLatest(old(entries), entries, entries[i], Recorded());
        return Ok(entries[i].data);
      }
      misses := misses + 1;
      var buf := device.ReadSector(lba);
      if buf.Err? {
        return Err(buf.error);
      }
      var room := MakeRoom();
      if room.Err? {
        return Err(room.error);
      }
      assert device.disk[lba] == View()[lba] == buf.value;
      InsertionSetsView(entries, Entry(lba, buf.value, false, clock), device.disk);
      entries := entries + [Entry(lba, buf.value, false, clock)];
      AccessedIsLatest(old(entries), entries, Entry(lba, buf.value, false, clock), Recorded());
      return Ok(buf.value);
    }

    /** Writes a sector into the cache. */
    method WriteSector(lba: nat, input: seq<Byte>) returns (r: Result<Unit, BlockError>)
      requires Valid() && clock + 1 < U64_MAX
      modifies this, device`disk
      ensures Valid() && clock <= old(clock) + 1 && |device.disk| == |old(device.disk)|
      ensures r.Ok? ==> |input| == SECTOR_SIZE && lba < |device.disk| && View() == old(View())[lba := input]
      ensures r.Err? ==> View() == old(View())
      ensures |input| != SECTOR_SIZE ==> r == Err(InvalidBuffer)
      ensures |input| == SECTOR_SIZE && lba >= |device.disk| ==> r == Err(OutOfRange)
      ensures |input| == SECTOR_SIZE && lba < |device.disk| && !device.faulty ==>
        (r.Err? <==> !IsCached(old(entries), lba) && old(AllPinned()))
      ensures recording.Some? == old(recording.Some?)
      ensures forall l :: l in Recorded() <==>
        l in old(Recorded()) || (l == lba && recording.Some? && |input| == SECTOR_SIZE && lba < |device.disk|)
      ensures OnlyWroteBack(old(device.disk), device.disk, old(entries), Recorded())
      ensures forall l :: IsDirty(entries, l) ==> IsDirty(old(entries), l) || (l == lba && r.Ok?)
      ensures r.Ok? ==> IsDirty(entries, lba)
      ensures r.Err? ==> entries == old(entries)
      ensures r.Ok? ==>
        && clock == old(clock) + 1 && IsLatest(entries, lba)
        && Accessed(old(entries), entries, Entry(lba, input, true, clock), Recorded())
    {
      hide Position, DistinctSectors, RoomMade, IsLatest, Flat;
      if |input| != SECTOR_SIZE {
        return Err(InvalidBuffer);
      }
      if lba >= |device.disk| {
        return Err(OutOfRange);
      }
      clock := clock + 1;
      if recording.Some? && lba !in recording.value {
        recording := Some(recording.value + [lba]);
      }
      var i := FindEntry(lba);
      if i < |entries| {
        ReplacementSetsView(entries, i, Entry(lba, input, true, clock), device.disk);
        entries := entries[i := Entry(lba, input, true, clock)];
        AccessedIsLatest(old(entries), entries, Entry(lba, input, true, clock), Recorded());
        return Ok(Unit);
      }
      var room := MakeRoom();
      if room.Err? {
        return Err(room.error);
      }
      InsertionSetsView(entries, Entry(lba, input, true, clock), device.disk);
      entries := entries + [Entry(lba, input, true, clock)];
      AccessedIsLatest(old(entries), entries, Entry(lba, input, true, clock), Recorded());
      return Ok(Unit);
    }

    /** Writes every dirty entry that is not pinned back to the device. */
    method Flush() returns (r: Result<Unit, BlockError>)
      requires Valid()
      modifies this`entries, device`disk
      ensures Valid() && View() == old(View())
      ensures OnlyWroteBack(old(device.disk), device.disk, old(entries), Recorded())
      ensures forall l :: IsDirty(entries, l) ==> IsDirty(old(entries), l)
      ensures r.Ok? ==> forall l :: IsDirty(entries, l) <==> IsDirty(old(entries), l) && l in Recorded()
      ensures r.Ok? && recording.None? ==> device.disk == View()
      ensures r.Err? ==> device.faulty
    {
      hide Position, Flat, Coherent, IsDirty;
      var pinned := Recorded();
      FlushBegins(entries, device.disk, pinned);
      for i := 0 to |entries|
        invariant Valid() && recording == old(recording)
        invariant Flushed(old(entries), old(device.disk), entries, device.disk, pinned, i)
      {
        var e := entries[i];
        FlushSkips(old(entries), old(device.disk), entries, device.disk, pinned, i);
        if e.dirty && e.lba !in pinned {
          FlushOneMore(old(entries), old(device.disk), entries, device.disk, pinned, i);
          var w := device.WriteSector(e.lba, e.data);
          if w.Err? {
            FlushEnds(old(entries), old(device.disk), entries, device.disk, pinned, i);
            return Err(w.error);
          }
          entries := entries[i := e.(dirty := false)];
        }
      }
      FlushEnds(old(entries), old(device.disk), entries, device.disk, pinned, |entries|);
      return Ok(Unit);
    }

    /** Forgets the sectors of an aborted transaction. */
    method DiscardRecorded()
      requires Valid()
      modifies this`entries, this`recording
      ensures Valid() && recording.None?
      ensures old(recording.None?) ==> entries == old(entries)
      ensures forall l :: 0 <= l < |device.disk| ==>
        View()[l] == if IsDirty(old(entries), l) && l in old(Recorded()) then device.disk[l] else old(View())[l]
      ensures forall l :: IsDirty(entries, l) <==> IsDirty(old(entries), l) && l !in old(Recorded())
    {
      if recording.None? {
        return;
      }
      var pinned := recording.value;
      var keep := (e: Entry) => !(e.dirty && e.lba in pinned);
      var kept := Retain(entries, keep);
      RetentionKeepsView(entries, kept, keep, device.disk);
      entries := kept;
      recording := None;
    }

    /** Flushes and forgets every entry, also those that the flush had to skip:
        sectors of an open transaction fall back to what the device holds. */
    method FlushAndInvalidate() returns (r: Result<Unit, BlockError>)
      requires Valid()
      modifies this`entries, device`disk
      ensures Valid() && |device.disk| == |old(device.disk)|
      ensures r.Ok? ==> entries == [] && View() == device.disk
      ensures r.Ok? ==> forall l :: 0 <= l < |device.disk| ==>
        View()[l] == if IsDirty(old(entries), l) && l in Recorded() then old(device.disk)[l] else old(View())[l]
      ensures r.Err? ==> device.faulty && View() == old(View())
    {
      r := Flush();
      if r.Ok? {
        ghost var disk := device.disk;
        forall l | 0 <= l < |disk| && !IsDirty(entries, l)
          ensures disk[l] == SectorAt(entries, disk, l)
        {
        }
        entries := [];
        assert Flat([], device.disk) == device.disk;
      }
    }

    method BeginRecording()
      modifies this`recording
      ensures recording == Some([])
    {
      recording := Some([]);
    }

    method EndRecording()
      modifies this`recording
      ensures recording == None
    {
      recording := None;
    }

    /** Reads a sector as the cache sees it, without counting an access. */
    method PeekSector(lba: nat) returns (r: Result<Sector, BlockError>)
      requires Valid()
      ensures r.Ok? ==> lba < |device.disk| && r.value == View()[lba]
      ensures r.Err? ==> lba >= |device.disk| || device.faulty
    {
      var i := FindEntry(lba);
      if i < |entries| {
        return Ok(entries[i].data);
      }
      r := device.ReadSector(lba);
    }

    /** Writes past the cache, for the journal's own sectors. */
    method WriteThrough(lba: nat, data: Sector) returns (r: Result<Unit, BlockError>)
      requires Valid()
      modifies this`entries, device`disk
      ensures Valid() && |device.disk| == |old(device.disk)|
      ensures r.Ok? ==> lba < |device.disk| && View() == old(View())[lba := data] && device.disk == old(device.disk)[lba := data]
      ensures r.Err? ==> (lba >= |device.disk| || device.faulty) && device.disk == old(device.disk)
      ensures r.Err? ==> forall l :: 0 <= l < |device.disk| && l != lba ==> View()[l] == old(View())[l]
      ensures forall l :: IsDirty(entries, l) <==> IsDirty(old(entries), l) && l != lba
    {
      var keep := (e: Entry) => e.lba != lba;
      var kept := Retain(entries, keep);
      RetentionKeepsView(entries, kept, keep, device.disk);
      entries := kept;
      ghost var was := device.disk;
      r := device.WriteSector(lba, data);
      if r.Ok? {
        UncachedWrite(entries, was, lba, data);
      }
    }
  }

  /** What is left of `es` when only the entries that `keep` accepts stay. */
  ghost predicate IsRetained(es: seq<Entry>, kept: seq<Entry>, keep: Entry -> bool) {
    && (forall e :: e in kept <==> e in es && keep(e))
    && DistinctSectors(kept)
  }

  lemma RetainOneMore(es: seq<Entry>, i: nat, kept: seq<Entry>, keep: Entry -> bool)
    requires DistinctSectors(es) && i < |es| && IsRetained(es[..i], kept, keep)
    ensures IsRetained(es[..i + 1], if keep(es[i]) then kept + [es[i]] else kept, keep)
  {
    assert es[..i + 1] == es[..i] + [es[i]];
    forall k | 0 <= k < |kept|
      ensures kept[k].lba != es[i].lba
    {
      assert kept[k] in es[..i];
    }
  }

  method Retain(es: seq<Entry>, keep: Entry -> bool) returns (kept: seq<Entry>)
    requires DistinctSectors(es)
    ensures IsRetained(es, kept, keep) && |kept| <= |es|
  {
    kept := [];
    for i := 0 to |es|
      invariant |kept| <= i && IsRetained(es[..i], kept, keep)
    {
      RetainOneMore(es, i, kept, keep);
      if keep(es[i]) {
        kept := kept + [es[i]];
      }
    }
    assert es[..|es|] == es;
  }

  lemma RetainedEntry(es: seq<Entry>, kept: seq<Entry>, keep: Entry -> bool, l: nat)
    requires DistinctSectors(es) && IsRetained(es, kept, keep)
    ensures IsCached(kept, l) <==> IsCached(es, l) && keep(es[Position(es, l)])
    ensures IsCached(kept, l) ==> kept[Position(kept, l)] == es[Position(es, l)]
  {
    var p, q := Position(es, l), Position(kept, l);
    if q < |kept| {
      assert kept[q] in kept;
      var i :| 0 <= i < |es| && es[i] == kept[q];
      PositionOfEntry(es, i);
    }
    if p < |es| && keep(es[p]) {
      assert es[p] in kept;
      var i :| 0 <= i < |kept| && kept[i] == es[p];
      PositionOfEntry(kept, i);
    }
  }

  lemma RetentionKeepsView(es: seq<Entry>, kept: seq<Entry>, keep: Entry -> bool, disk: seq<Sector>)
    requires Coherent(es, disk) && IsRetained(es, kept, keep)
    ensures Coherent(kept, disk)
    ensures forall l :: 0 <= l < |disk| ==>
      SectorAt(kept, disk, l) ==
        if IsCached(es, l) && !keep(es[Position(es, l)]) then disk[l] else SectorAt(es, disk, l)
    ensures forall l :: IsDirty(kept, l) <==> IsDirty(es, l) && keep(es[Position(es, l)])
    ensures forall i :: 0 <= i < |kept| ==> kept[i] in es
  {
    forall l
      ensures 0 <= l < |disk| ==>
        SectorAt(kept, disk, l) ==
          if IsCached(es, l) && !keep(es[Position(es, l)]) then disk[l] else SectorAt(es, disk, l)
      ensures l >= 0 ==> (IsDirty(kept, l) <==> IsDirty(es, l) && keep(es[Position(es, l)]))
    {
      if l >= 0 { RetainedEntry(es, kept, keep, l); }
    }
    forall i | 0 <= i < |kept|
      ensures kept[i] in es && kept[i].lba < |disk| && (!kept[i].dirty ==> kept[i].data == disk[kept[i].lba])
    {
      assert kept[i] in kept;
      var j :| 0 <= j < |es| && es[j] == kept[i];
    }
  }

  /** Giving the device a sector that is not cached. */
  lemma UncachedWrite(es: seq<Entry>, disk: seq<Sector>, lba: nat, data: Sector)
    requires Coherent(es, disk) && lba < |disk| && !IsCached(es, lba)
    ensures Coherent(es, disk[lba := data])
    ensures Flat(es, disk[lba := data]) == Flat(es, disk)[lba := data]
  {
    forall i | 0 <= i < |es|
      ensures es[i].lba != lba
    {
    }
  }
}
