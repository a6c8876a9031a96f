/**
 Which sectors a cache holds: with no transaction open, exactly those that were
 accessed most recently.
 */
module CacheRecency {
  import opened Wrappers
  import opened Cache

  /** When each sector was accessed last. */
  type History = map<nat, nat>

  /** The entries carry the times of the history; a sector that was accessed and is
      not cached had to make room in a full cache, all of whose entries have been
      accessed since. */
  ghost predicate Remembers(es: seq<Entry>, h: History, now: nat) {
    && DistinctSectors(es) && |es| <= MAX_CACHED_SECTORS
    && (forall l :: l in h ==> h[l] <= now)
    && (forall l, m :: l in h && m in h && h[l] == h[m] ==> l == m)
    && (forall i :: 0 <= i < |es| ==> es[i].lba in h && h[es[i].lba] == es[i].accessed)
    && (forall l :: l in h && !IsCached(es, l) ==>
          |es| == MAX_CACHED_SECTORS && forall i :: 0 <= i < |es| ==> h[l] < es[i].accessed)
  }

  lemma RoomKeepsMemory(es: seq<Entry>, mid: seq<Entry>, h: History, now: nat)
    requires Remembers(es, h, now) && RoomMade(es, mid, [])
    ensures DistinctSectors(mid) && |mid| < MAX_CACHED_SECTORS
    ensures forall i :: 0 <= i < |mid| ==> mid[i].lba in h && h[mid[i].lba] == mid[i].accessed
    ensures forall l :: l in h && !IsCached(mid, l) ==>
              |mid| == MAX_CACHED_SECTORS - 1 && forall i :: 0 <= i < |mid| ==> h[l] < mid[i].accessed
  {
    hide Position, SwapRemove;
    if |es| == MAX_CACHED_SECTORS {
      var v :| 0 <= v < |es| && IsLeastRecentlyUsed(es, v, []) && mid == SwapRemove(es, v);
      SwapRemoveEntry(es, v);
      EvictedIsOldest(es, v, h, now);
      forall l | l in h && !IsCached(mid, l)
        ensures forall i :: 0 <= i < |mid| ==> h[l] < mid[i].accessed
      {
        assert IsCached(es, l) ==> l == es[v].lba;
      }
    }
  }

  /** What is left was accessed after what had to go. */
  lemma EvictedIsOldest(es: seq<Entry>, v: nat, h: History, now: nat)
    requires Remembers(es, h, now) && IsLeastRecentlyUsed(es, v, [])
    ensures forall i :: 0 <= i < |SwapRemove(es, v)| ==>
              SwapRemove(es, v)[i] in es && es[v].accessed < SwapRemove(es, v)[i].accessed
  {
    hide Position, SwapRemove, IsCached;
    var mid := SwapRemove(es, v);
    forall i | 0 <= i < |mid|
      ensures mid[i] in es && es[v].accessed < mid[i].accessed
    {
      var k := if i == v then |es| - 1 else i;
      assert mid[i] == es[k] && k != v;
      assert es[v].accessed <= es[k].accessed && es[k].lba != es[v].lba;
    }
  }

  /** An access keeps it so. */
  lemma AccessIsRemembered(es: seq<Entry>, es': seq<Entry>, e: Entry, h: History, now: nat)
    requires Remembers(es, h, now) && Accessed(es, es', e, []) && e.accessed > now
    ensures Remembers(es', h[e.lba := e.accessed], e.accessed)
  {
    hide Position, RoomMade, Remembers;
    if IsCached(es, e.lba) {
      HitIsRemembered(es, e, h, now);
    } else {
      var mid :| RoomMade(es, mid, []) && es' == mid + [e];
      MissIsRemembered(es, mid, e, h, now);
    }
  }

  lemma HitIsRemembered(es: seq<Entry>, e: Entry, h: History, now: nat)
    requires Remembers(es, h, now) && IsCached(es, e.lba) && e.accessed > now
    ensures Remembers(es[Position(es, e.lba) := e], h[e.lba := e.accessed], e.accessed)
  {
    hide Position;
    var p := Position(es, e.lba);
    UpdateEntry(es, p, e);
    forall i | 0 <= i < |es| && i != p
      ensures es[i].lba != e.lba
    {
      PositionOfEntry(es, i);
    }
  }

  lemma MissIsRemembered(es: seq<Entry>, mid: seq<Entry>, e: Entry, h: History, now: nat)
    requires Remembers(es, h, now) && RoomMade(es, mid, []) && !IsCached(es, e.lba) && e.accessed > now
    ensures Remembers(mid + [e], h[e.lba := e.accessed], e.accessed)
  {
    hide Position, RoomMade;
    RoomKeepsMemory(es, mid, h, now);
    RoomKeepsOthers(es, mid, []);
    NotInRoom(es, mid, e.lba);
    AppendEntry(mid, e);
  }

  lemma NotInRoom(es: seq<Entry>, mid: seq<Entry>, lba: nat)
    requires !IsCached(es, lba) && forall i :: 0 <= i < |mid| ==> mid[i] in es
    ensures !IsCached(mid, lba)
  {
    hide Position;
  }

  // ---- Counting -----------------------------------------------------------

  /** The sectors accessed after `l`. */
  function Later(h: History, l: nat): set<nat>
    requires l in h
  {
    set m | m in h && h[m] > h[l]
  }

  function Sectors(es: seq<Entry>): set<nat> {
    set i | 0 <= i < |es| :: es[i].lba
  }

  lemma {:induction false} SectorsCount(es: seq<Entry>)
    requires DistinctSectors(es)
    ensures |Sectors(es)| == |es|
  {
    if es != [] {
      var rest := es[..|es| - 1];
      SectorsCount(rest);
      assert Sectors(es) == Sectors(rest) + {es[|es| - 1].lba};
    }
  }

  lemma PartIsSmaller(a: set<nat>, b: set<nat>)
    requires a <= b
    ensures |a| <= |b|
  {
    assert b == a + (b - a);
  }

  /** A sector is cached exactly when fewer than 256 others have been accessed
      since. */
  lemma CachedExactly(es: seq<Entry>, h: History, now: nat, l: nat)
    requires Remembers(es, h, now) && l in h
    ensures IsCached(es, l) <==> |Later(h, l)| < MAX_CACHED_SECTORS
  {
    hide Position;
    SectorsCount(es);
    if IsCached(es, l) {
      var p := Position(es, l);
      forall m | m in Later(h, l)
        ensures m in Sectors(es) - {l}
      {
        if IsCached(es, m) { assert es[Position(es, m)].lba in Sectors(es); }
      }
      PartIsSmaller(Later(h, l), Sectors(es) - {l});
    } else {
      PartIsSmaller(Sectors(es), Later(h, l));
    }
  }

  // ---- A run of accesses --------------------------------------------------

  /** When each of these sectors was accessed last, if the clock stood at `from`. */
  function HistoryOf(lbas: seq<nat>, from: nat): (h: History)
    ensures forall l :: l in h <==> l in lbas
  {
    if lbas == [] then map[]
    else
      assert lbas == lbas[..|lbas| - 1] + [lbas[|lbas| - 1]];
      HistoryOf(lbas[..|lbas| - 1], from)[lbas[|lbas| - 1] := from + |lbas|]
  }

  /** The sectors that come after the last `l`. */
  function AfterLast(lbas: seq<nat>, l: nat): set<nat> {
    if lbas == [] || lbas[|lbas| - 1] == l then {} else AfterLast(lbas[..|lbas| - 1], l) + {lbas[|lbas| - 1]}
  }

  lemma {:induction false} HistoryIsBounded(lbas: seq<nat>, from: nat)
    ensures forall l :: l in HistoryOf(lbas, from) ==> from < HistoryOf(lbas, from)[l] <= from + |lbas|
  {
    if lbas != [] { HistoryIsBounded(lbas[..|lbas| - 1], from); }
  }

  lemma {:induction false} LaterIsAfter(lbas: seq<nat>, from: nat, l: nat)
    requires l in lbas
    ensures Later(HistoryOf(lbas, from), l) == AfterLast(lbas, l)
  {
    var first, last := lbas[..|lbas| - 1], lbas[|lbas| - 1];
    assert lbas == first + [last];
    HistoryIsBounded(first, from);
    var h, h' := HistoryOf(first, from), HistoryOf(lbas, from);
    if last != l {
      LaterIsAfter(first, from, l);
      forall m
        ensures m in Later(h', l) <==> m in Later(h, l) + {last}
      {
      }
    }
  }

  /** Reads sectors one after the other through a new cache. Afterwards a sector is
      cached exactly when fewer than 256 others were read after it. */
  method ReadMany(cache: BlockCache, lbas: seq<nat>)
    requires cache.Valid() && cache.entries == [] && cache.recording == None && !cache.device.faulty
    requires cache.clock + |lbas| < U64_MAX && forall i :: 0 <= i < |lbas| ==> lbas[i] < |cache.device.disk|
    modifies cache, cache.device`disk
    ensures cache.Valid() && cache.View() == old(cache.View())
    ensures forall l :: l in lbas ==> (IsCached(cache.entries, l) <==> |AfterLast(lbas, l)| < MAX_CACHED_SECTORS)
  {
    hide Accessed, Remembers, IsCached, Flat, OnlyWroteBack, IsDirty;
    ghost var from := cache.clock;
    assert lbas[..0] == [];
    NothingRemembered(from);
    for i := 0 to |lbas|
      invariant cache.Valid() && cache.View() == old(cache.View()) && cache.recording == None
      invariant |cache.device.disk| == |old(cache.device.disk)|
      invariant cache.clock == from + i && Remembers(cache.entries, HistoryOf(lbas[..i], from), from + i)
    {
      ghost var before := cache.entries;
      NotPinned(before);
      var r := cache.ReadSector(lbas[i], SECTOR_SIZE);
      assert lbas[..i + 1][..i] == lbas[..i] && lbas[..i + 1][i] == lbas[i];
      AccessIsRemembered(before, cache.entries, Entry(lbas[i], r.value, IsDirty(before, lbas[i]), cache.clock),
                         HistoryOf(lbas[..i], from), from + i);
    }
    assert lbas[..|lbas|] == lbas;
    forall l | l in lbas
      ensures IsCached(cache.entries, l) <==> |AfterLast(lbas, l)| < MAX_CACHED_SECTORS
    {
      CachedExactly(cache.entries, HistoryOf(lbas, from), from + |lbas|, l);
      LaterIsAfter(lbas, from, l);
    }
  }

  lemma NothingRemembered(now: nat)
    ensures Remembers([], HistoryOf([], now), now)
  {
  }

  lemma NotPinned(es: seq<Entry>)
    ensures |es| == MAX_CACHED_SECTORS ==> !(forall i :: 0 <= i < |es| ==> es[i].dirty && es[i].lba in [])
  {
    if |es| == MAX_CACHED_SECTORS { assert es[0].lba !in []; }
  }
}
