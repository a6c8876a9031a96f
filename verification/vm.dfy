/**
 The record of what a process has mapped where: a sorted list of areas that
 stands for a map from addresses to access rights.
 */
module VmRecord {
  import opened Wrappers

  const PAGE_SIZE := 4096
  const USER_FLOOR := 0x1_0000_0000
  const USER_CEILING := 0x8000_0000_0000

  datatype AreaKind = Elf | Stack | Anon

  datatype Access = Access(prot: nat, kind: AreaKind)

  datatype VmArea = VmArea(start: nat, end: nat, prot: nat, kind: AreaKind) {
    predicate Contains(addr: nat) { start <= addr < end }

    function Grants(): Access { Access(prot, kind) }
  }

  datatype VmError = Invalid | Overlap

  predicate RangeIsValid(start: nat, end: nat) {
    start % PAGE_SIZE == 0 && end % PAGE_SIZE == 0 && start < end && start >= USER_FLOOR && end <= USER_CEILING
  }

  /** Not empty, sorted and disjoint... */
  ghost predicate Ordered(areas: seq<VmArea>) {
    && (forall i :: 0 <= i < |areas| ==> areas[i].start < areas[i].end)
    && (forall i, j :: 0 <= i < j < |areas| ==> areas[i].end <= areas[j].start)
  }

  /** ...and also page-aligned and inside the user's range. */
  ghost predicate WellFormed(areas: seq<VmArea>) {
    Ordered(areas) && forall i :: 0 <= i < |areas| ==> RangeIsValid(areas[i].start, areas[i].end)
  }

  /** The first area that contains `addr`. */
  function Find(areas: seq<VmArea>, addr: nat): (r: Option<VmArea>)
    ensures r.Some? ==> r.value in areas && r.value.Contains(addr)
    ensures r.None? <==> forall i :: 0 <= i < |areas| ==> !areas[i].Contains(addr)
  {
    if areas == [] then None
    else if areas[0].Contains(addr) then Some(areas[0])
    else
      var r := Find(areas[1..], addr);
      assert forall i :: 1 <= i < |areas| ==> areas[i] == areas[1..][i - 1];
      r
  }

  predicate Overlaps(areas: seq<VmArea>, start: nat, end: nat) {
    exists i :: 0 <= i < |areas| && areas[i].start < end && start < areas[i].end
  }

  /** What the record says about the byte at `addr`. */
  function At(areas: seq<VmArea>, addr: nat): Option<Access> {
    match Find(areas, addr)
    case None => None
    case Some(a) => Some(a.Grants())
  }

  /** The area that contains `addr` decides. */
  lemma AtArea(areas: seq<VmArea>, addr: nat, i: nat)
    requires Ordered(areas) && i < |areas| && areas[i].Contains(addr)
    ensures At(areas, addr) == Some(areas[i].Grants())
  {
    var a := Find(areas, addr).value;
    var j :| 0 <= j < |areas| && areas[j] == a;
    assert areas[j].Contains(addr);
  }

  lemma {:induction false} AtConcat(a: seq<VmArea>, b: seq<VmArea>, addr: nat)
    ensures At(a + b, addr) == if At(a, addr).Some? then At(a, addr) else At(b, addr)
    decreases |a|
  {
    if a == [] {
      assert a + b == b;
    } else {
      assert (a + b)[1..] == a[1..] + b;
      AtConcat(a[1..], b, addr);
    }
  }

  /** A range overlaps the areas exactly when one of its bytes is mapped. */
  lemma OverlapsIsMapped(areas: seq<VmArea>, start: nat, end: nat)
    requires Ordered(areas) && start < end
    ensures Overlaps(areas, start, end) <==> exists x: nat :: start <= x < end && At(areas, x).Some?
  {
    if Overlaps(areas, start, end) {
      var i :| 0 <= i < |areas| && areas[i].start < end && start < areas[i].end;
      var x := Max(start, areas[i].start);
      AtArea(areas, x, i);
    }
    if x: nat :| start <= x < end && At(areas, x).Some? {
      var i :| 0 <= i < |areas| && areas[i] == Find(areas, x).value;
      assert areas[i].Contains(x);
    }
  }

  // ---- Insertion ----------------------------------------------------------

  /** The place of an area that starts at `start`. */
  function Place(areas: seq<VmArea>, start: nat): (k: nat)
    ensures k <= |areas|
    ensures forall i :: 0 <= i < k ==> areas[i].start <= start
    ensures k < |areas| ==> areas[k].start > start
  {
    if areas == [] || areas[0].start > start then 0 else 1 + Place(areas[1..], start)
  }

  function Inserted(areas: seq<VmArea>, area: VmArea): seq<VmArea> {
    var k := Place(areas, area.start);
    areas[..k] + [area] + areas[k..]
  }

  lemma InsertedIsWellFormed(areas: seq<VmArea>, area: VmArea)
    requires WellFormed(areas) && RangeIsValid(area.start, area.end) && !Overlaps(areas, area.start, area.end)
    ensures WellFormed(Inserted(areas, area))
  {
    assert area.start < area.end;
    hide RangeIsValid, Overlaps, Place;
    var k, r := Place(areas, area.start), Inserted(areas, area);
    NeighboursFit(areas, area);
    forall i | 0 <= i < |r|
      ensures r[i] == if i < k then areas[i] else if i == k then area else areas[i - 1]
    {
    }
  }

  lemma NeighboursFit(areas: seq<VmArea>, area: VmArea)
    requires WellFormed(areas) && RangeIsValid(area.start, area.end) && !Overlaps(areas, area.start, area.end)
    ensures forall i :: 0 <= i < Place(areas, area.start) ==> areas[i].end <= area.start
    ensures forall i :: Place(areas, area.start) <= i < |areas| ==> area.end <= areas[i].start
  {
    var k := Place(areas, area.start);
    forall i | 0 <= i < |areas|
      ensures i < k ==> areas[i].end <= area.start
      ensures i >= k ==> area.end <= areas[i].start
    {
      assert !(areas[i].start < area.end && area.start < areas[i].end);
      assert RangeIsValid(areas[i].start, areas[i].end);
      if i > k { assert areas[k].end <= areas[i].start && RangeIsValid(areas[k].start, areas[k].end); }
    }
  }

  /** Inserting adds exactly the area's own range. */
  lemma InsertedAt(areas: seq<VmArea>, area: VmArea, x: nat)
    requires WellFormed(areas) && RangeIsValid(area.start, area.end) && !Overlaps(areas, area.start, area.end)
    ensures At(Inserted(areas, area), x) == if area.Contains(x) then Some(area.Grants()) else At(areas, x)
  {
    hide At, Place, Overlaps, Ordered;
    var k := Place(areas, area.start);
    AtConcat(areas[..k] + [area], areas[k..], x);
    AtConcat(areas[..k], [area], x);
    AtConcat(areas[..k], areas[k..], x);
    assert areas == areas[..k] + areas[k..];
    OverlapsIsMapped(areas, area.start, area.end);
    AtOne(area, x);
  }

  lemma AtOne(a: VmArea, x: nat)
    ensures At([a], x) == if a.Contains(x) then Some(a.Grants()) else None
    ensures Find([a], x) == if a.Contains(x) then Some(a) else None
  {
  }

  // ---- Removal and change of access ---------------------------------------

  /** What is left of one area when `[start, end)` is cut out... */
  function Left(a: VmArea, start: nat, end: nat): seq<VmArea> {
    if a.end <= start || a.start >= end then [a]
    else (if a.start < start then [a.(end := start)] else []) + (if a.end > end then [a.(start := end)] else [])
  }

  /** ...and when it gets the access `prot` instead. */
  function Changed(a: VmArea, start: nat, end: nat, prot: nat): seq<VmArea> {
    if a.end <= start || a.start >= end then [a]
    else
      (if a.start < start then [a.(end := start)] else [])
      + [VmArea(Max(a.start, start), Min(a.end, end), prot, a.kind)]
      + (if a.end > end then [a.(start := end)] else [])
  }

  /** The pieces `part` makes of each area, in order. */
  function Pieces(areas: seq<VmArea>, part: VmArea -> seq<VmArea>): seq<VmArea> {
    if areas == [] then [] else Pieces(areas[..|areas| - 1], part) + part(areas[|areas| - 1])
  }

  /** The pieces lie inside the area. */
  ghost predicate Inside(a: VmArea, pieces: seq<VmArea>) {
    forall i :: 0 <= i < |pieces| ==> a.start <= pieces[i].start && pieces[i].end <= a.end
  }

  /** And in order. */
  ghost predicate Cuts(a: VmArea, pieces: seq<VmArea>) {
    Ordered(pieces) && Inside(a, pieces)
  }

  lemma {:induction false} PiecesAreOrdered(areas: seq<VmArea>, part: VmArea -> seq<VmArea>)
    requires Ordered(areas) && forall a :: a in areas ==> Cuts(a, part(a))
    ensures Ordered(Pieces(areas, part))
    ensures areas != [] ==> forall i :: 0 <= i < |Pieces(areas, part)| ==>
              Pieces(areas, part)[i].end <= areas[|areas| - 1].end
  {
    if areas != [] {
      var front, last := areas[..|areas| - 1], areas[|areas| - 1];
      var p, q := Pieces(front, part), part(last);
      PiecesAreOrdered(front, part);
      assert Cuts(last, q);
      forall i | 0 <= i < |p|
        ensures p[i].end <= last.start
      {
        assert p[i].end <= front[|front| - 1].end;
      }
    }
  }

  /** If every area is cut into valid ranges, all pieces are valid ranges. */
  lemma {:induction false} PiecesAreValid(areas: seq<VmArea>, part: VmArea -> seq<VmArea>)
    requires forall a, i :: a in areas && 0 <= i < |part(a)| ==> RangeIsValid(part(a)[i].start, part(a)[i].end)
    ensures forall i :: 0 <= i < |Pieces(areas, part)| ==>
              RangeIsValid(Pieces(areas, part)[i].start, Pieces(areas, part)[i].end)
  {
    hide RangeIsValid;
    if areas != [] {
      PiecesAreValid(areas[..|areas| - 1], part);
      assert areas[|areas| - 1] in areas;
    }
  }

  /** Each piece answers for the bytes of its area. */
  lemma {:induction false} PiecesAt(areas: seq<VmArea>, part: VmArea -> seq<VmArea>, x: nat)
    requires Ordered(areas) && forall a :: a in areas ==> Inside(a, part(a))
    ensures Find(areas, x).None? ==> At(Pieces(areas, part), x).None?
    ensures Find(areas, x).Some? ==> At(Pieces(areas, part), x) == At(part(Find(areas, x).value), x)
  {
    if areas != [] {
      var front, last := areas[..|areas| - 1], areas[|areas| - 1];
      assert areas == front + [last];
      PiecesAt(front, part, x);
      AtConcat(Pieces(front, part), part(last), x);
      FindLast(areas, x);
      assert Inside(last, part(last));
    }
  }

  lemma FindLast(areas: seq<VmArea>, x: nat)
    requires Ordered(areas) && areas != []
    ensures
      var front, last := areas[..|areas| - 1], areas[|areas| - 1];
      && (last.Contains(x) ==> Find(areas, x) == Some(last) && Find(front, x).None?)
      && (!last.Contains(x) ==> Find(areas, x) == Find(front, x))
  {
    hide Find;
    var front, last := areas[..|areas| - 1], areas[|areas| - 1];
    assert forall i :: 0 <= i < |front| ==> front[i].end <= last.start;
    FindConcat(front, [last], x);
    assert areas == front + [last];
    AtOne(last, x);
  }

  lemma {:induction false} FindConcat(a: seq<VmArea>, b: seq<VmArea>, x: nat)
    ensures Find(a + b, x) == if Find(a, x).Some? then Find(a, x) else Find(b, x)
    decreases |a|
  {
    if a == [] {
      assert a + b == b;
    } else {
      assert (a + b)[1..] == a[1..] + b;
      FindConcat(a[1..], b, x);
    }
  }

  lemma LeftCuts(a: VmArea, start: nat, end: nat)
    requires a.start < a.end
    ensures Inside(a, Left(a, start, end)) && (start <= end ==> Cuts(a, Left(a, start, end)))
    ensures RangeIsValid(a.start, a.end) && RangeIsValid(start, end) ==>
              forall i :: 0 <= i < |Left(a, start, end)| ==>
                RangeIsValid(Left(a, start, end)[i].start, Left(a, start, end)[i].end)
  {
  }

  lemma ChangedCuts(a: VmArea, start: nat, end: nat, prot: nat)
    requires a.start < a.end
    ensures Inside(a, Changed(a, start, end, prot)) && (start < end ==> Cuts(a, Changed(a, start, end, prot)))
    ensures RangeIsValid(a.start, a.end) && RangeIsValid(start, end) ==>
              forall i :: 0 <= i < |Changed(a, start, end, prot)| ==>
                RangeIsValid(Changed(a, start, end, prot)[i].start, Changed(a, start, end, prot)[i].end)
  {
  }

  function Cutter(start: nat, end: nat): VmArea -> seq<VmArea> { a => Left(a, start, end) }

  function Changer(start: nat, end: nat, prot: nat): VmArea -> seq<VmArea> { a => Changed(a, start, end, prot) }

  /** The areas that a removal of `[start, end)` leaves. */
  function Removed(areas: seq<VmArea>, start: nat, end: nat): seq<VmArea> { Pieces(areas, Cutter(start, end)) }

  function Reprotected(areas: seq<VmArea>, start: nat, end: nat, prot: nat): seq<VmArea> {
    Pieces(areas, Changer(start, end, prot))
  }

  lemma ValidRangeIsNotEmpty(start: nat, end: nat)
    requires RangeIsValid(start, end)
    ensures start < end
  {
  }

  /** Removal takes out exactly its range. */
  lemma RemovedAt(areas: seq<VmArea>, start: nat, end: nat, x: nat)
    requires Ordered(areas)
    ensures start <= end ==> Ordered(Removed(areas, start, end))
    ensures WellFormed(areas) && RangeIsValid(start, end) ==> WellFormed(Removed(areas, start, end))
    ensures At(Removed(areas, start, end), x) == if start <= x < end then None else At(areas, x)
  {
    hide RangeIsValid;
    if RangeIsValid(start, end) { ValidRangeIsNotEmpty(start, end); }
    var part := Cutter(start, end);
    forall a | a in areas
      ensures Inside(a, part(a)) && (start <= end ==> Cuts(a, part(a)))
    {
      LeftCuts(a, start, end);
    }
    if start <= end { PiecesAreOrdered(areas, part); }
    if WellFormed(areas) && RangeIsValid(start, end) {
      forall a | a in areas
        ensures forall i :: 0 <= i < |part(a)| ==> RangeIsValid(part(a)[i].start, part(a)[i].end)
      {
        LeftCuts(a, start, end);
      }
      PiecesAreValid(areas, part);
    }
    PiecesAt(areas, part, x);
    if Find(areas, x).Some? { LeftAt(Find(areas, x).value, start, end, x); }
  }

  lemma LeftAt(a: VmArea, start: nat, end: nat, x: nat)
    requires a.Contains(x)
    ensures At(Left(a, start, end), x) == if start <= x < end then None else Some(a.Grants())
  {
    AtConcat(if a.start < start then [a.(end := start)] else [], if a.end > end then [a.(start := end)] else [], x);
  }

  /** A change of access touches only the access of mapped bytes in its range. */
  lemma ReprotectedAt(areas: seq<VmArea>, start: nat, end: nat, prot: nat, x: nat)
    requires Ordered(areas)
    ensures start < end ==> Ordered(Reprotected(areas, start, end, prot))
    ensures WellFormed(areas) && RangeIsValid(start, end) ==> WellFormed(Reprotected(areas, start, end, prot))
    ensures At(Reprotected(areas, start, end, prot), x)
         == if start <= x < end && At(areas, x).Some? then Some(Access(prot, At(areas, x).value.kind)) else At(areas, x)
  {
    hide RangeIsValid;
    if RangeIsValid(start, end) { ValidRangeIsNotEmpty(start, end); }
    var part := Changer(start, end, prot);
    forall a | a in areas
      ensures Inside(a, part(a)) && (start < end ==> Cuts(a, part(a)))
    {
      ChangedCuts(a, start, end, prot);
    }
    if start < end { PiecesAreOrdered(areas, part); }
    if WellFormed(areas) && RangeIsValid(start, end) {
      forall a | a in areas
        ensures forall i :: 0 <= i < |part(a)| ==> RangeIsValid(part(a)[i].start, part(a)[i].end)
      {
        ChangedCuts(a, start, end, prot);
      }
      PiecesAreValid(areas, part);
    }
    PiecesAt(areas, part, x);
    if Find(areas, x).Some? { ChangedAt(Find(areas, x).value, start, end, prot, x); }
  }

  lemma ChangedAt(a: VmArea, start: nat, end: nat, prot: nat, x: nat)
    requires a.Contains(x)
    ensures At(Changed(a, start, end, prot), x) == Some(if start <= x < end then Access(prot, a.kind) else a.Grants())
  {
    var front := if a.start < start then [a.(end := start)] else [];
    var mid := [VmArea(Max(a.start, start), Min(a.end, end), prot, a.kind)];
    AtConcat(front + mid, if a.end > end then [a.(start := end)] else [], x);
    AtConcat(front, mid, x);
  }

  lemma PiecesLast(areas: seq<VmArea>, last: VmArea, part: VmArea -> seq<VmArea>)
    ensures Pieces(areas + [last], part) == Pieces(areas, part) + part(last)
    ensures Pieces([], part) == []
  {
    assert (areas + [last])[..|areas|] == areas;
  }

  lemma {:induction false} PiecesConcat(a: seq<VmArea>, b: seq<VmArea>, part: VmArea -> seq<VmArea>)
    ensures Pieces(a + b, part) == Pieces(a, part) + Pieces(b, part)
    decreases |b|
  {
    hide Pieces;
    if b == [] {
      assert a + b == a;
      if a != [] { PiecesLast(a[..|a| - 1], a[|a| - 1], part); } else { PiecesLast([], VmArea(0, 0, 0, Elf), part); }
    } else {
      var front, last := b[..|b| - 1], b[|b| - 1];
      assert a + b == (a + front) + [last] && b == front + [last];
      PiecesLast(a + front, last, part);
      PiecesLast(front, last, part);
      PiecesConcat(a, front, part);
    }
  }

  lemma {:induction false} PiecesAlone(areas: seq<VmArea>, part: VmArea -> seq<VmArea>)
    requires forall a :: a in areas ==> part(a) == [a]
    ensures Pieces(areas, part) == areas
  {
    if areas != [] {
      PiecesAlone(areas[..|areas| - 1], part);
      assert areas[|areas| - 1] in areas;
    }
  }

  /** Removing what was just inserted gives back the very same record. */
  lemma InsertThenRemove(areas: seq<VmArea>, area: VmArea)
    requires WellFormed(areas) && RangeIsValid(area.start, area.end) && !Overlaps(areas, area.start, area.end)
    ensures Removed(Inserted(areas, area), area.start, area.end) == areas
  {
    hide Pieces, Place, WellFormed, Overlaps;
    var part := Cutter(area.start, area.end);
    var k := Place(areas, area.start);
    CutterMisses(areas, area.start, area.end);
    PiecesConcat(areas[..k] + [area], areas[k..], part);
    PiecesConcat(areas[..k], [area], part);
    PiecesAlone(areas[..k], part);
    PiecesAlone(areas[k..], part);
    PiecesOfOne(area, part);
    assert areas == areas[..k] + areas[k..];
  }

  lemma CutterMisses(areas: seq<VmArea>, start: nat, end: nat)
    requires !Overlaps(areas, start, end)
    ensures forall a :: a in areas ==> Cutter(start, end)(a) == [a]
  {
    forall a | a in areas
      ensures Cutter(start, end)(a) == [a]
    {
      var i :| 0 <= i < |areas| && areas[i] == a;
      assert !(areas[i].start < end && start < areas[i].end);
    }
  }

  lemma PiecesOfOne(a: VmArea, part: VmArea -> seq<VmArea>)
    ensures Pieces([a], part) == part(a)
  {
    assert [a][..0] == [];
  }

  // ---- The search for a gap -----------------------------------------------

  /** A gap of `len` bytes that starts at `s`, below `limit`. */
  predicate IsGap(areas: seq<VmArea>, len: nat, limit: nat, s: nat) {
    USER_FLOOR <= s && s + len <= limit && !Overlaps(areas, s, s + len)
  }

  /** The highest gap of `len` bytes below `limit`, if there is one. */
  ghost predicate IsHighestGap(areas: seq<VmArea>, len: nat, limit: nat, r: Option<nat>) {
    match r
    case None => forall s: nat :: !IsGap(areas, len, limit, s)
    case Some(s) => IsGap(areas, len, limit, s) && forall t: nat :: t > s ==> !IsGap(areas, len, limit, t)
  }

  lemma HighestGapIsUnique(areas: seq<VmArea>, len: nat, limit: nat, q: Option<nat>, r: Option<nat>)
    requires IsHighestGap(areas, len, limit, q) && IsHighestGap(areas, len, limit, r)
    ensures q == r
  {
    if q.Some? && r.Some? {
      assert IsGap(areas, len, limit, q.value) && IsGap(areas, len, limit, r.value);
    }
  }

  /** All starts of gaps end at or below `limit`, once the areas from `i` on
      have been looked at. */
  ghost predicate Narrowed(areas: seq<VmArea>, len: nat, top: nat, i: nat, limit: nat)
    requires i <= |areas|
  {
    && limit <= top
    && (forall s: nat :: IsGap(areas, len, top, s) ==> s + len <= limit)
    && (forall k :: i <= k < |areas| ==> areas[k].start >= limit)
  }

  lemma NarrowStep(areas: seq<VmArea>, len: nat, top: nat, i: nat, limit: nat)
    requires WellFormed(areas) && i < |areas| && Narrowed(areas, len, top, i + 1, limit)
    ensures
      var a := areas[i];
      if a.end <= limit then
        if limit - a.end >= len && limit - len >= USER_FLOOR then IsGap(areas, len, top, limit - len)
        else Narrowed(areas, len, top, i, a.start)
      else if a.start < limit then Narrowed(areas, len, top, i, a.start)
      else Narrowed(areas, len, top, i, limit)
  {
    var a := areas[i];
    assert RangeIsValid(a.start, a.end);
    if a.end <= limit && limit - a.end >= len && limit - len >= USER_FLOOR {
      forall k | 0 <= k < |areas|
        ensures !(areas[k].start < limit && limit - len < areas[k].end)
      {
        if k < i { assert areas[k].end <= a.start; }
      }
    } else if a.start < limit {
      forall s: nat | IsGap(areas, len, top, s)
        ensures s + len <= a.start
      {
        assert !(a.start < s + len && s < a.end);
      }
    }
  }

  class VmSpace {
    var areas: seq<VmArea>

    ghost predicate Valid()
      reads this
    {
      WellFormed(areas)
    }

    constructor ()
      ensures Valid() && forall x :: At(areas, x).None?
    {
      areas := [];
    }

    /** Whether every byte of the range is mapped. */
    method Covers(start: nat, end: nat) returns (r: bool)
      ensures r <==> forall x :: start <= x < end ==> At(areas, x).Some?
    {
      var at := start;
      while at < end
        invariant start <= at
        invariant forall x :: start <= x < at && x < end ==> At(areas, x).Some?
        decreases end - at
      {
        match Find(areas, at)
        case Some(a) =>
          forall x | at <= x < a.end
            ensures At(areas, x).Some?
          {
            var i :| 0 <= i < |areas| && areas[i] == a;
            assert areas[i].Contains(x);
          }
          at := a.end;
        case None =>
          assert At(areas, at).None?;
          return false;
      }
      r := true;
    }

    /** Records a new area, if its range is valid and free. */
    method Insert(area: VmArea) returns (r: Result<Unit, VmError>)
      requires Valid()
      modifies this
      ensures Valid()
      ensures r == Err(Invalid) <==> !RangeIsValid(area.start, area.end)
      ensures r == Err(VmError.Overlap) <==>
                RangeIsValid(area.start, area.end) && exists x: nat :: area.Contains(x) && At(old(areas), x).Some?
      ensures r.Err? ==> areas == old(areas)
      ensures r.Ok? <==> RangeIsValid(area.start, area.end) && !Overlaps(old(areas), area.start, area.end)
      ensures r.Ok? ==> areas == Inserted(old(areas), area)
      ensures r.Ok? ==>
                forall x :: At(areas, x) == if area.Contains(x) then Some(area.Grants()) else At(old(areas), x)
    {
      if !RangeIsValid(area.start, area.end) {
        return Err(Invalid);
      }
      OverlapsIsMapped(areas, area.start, area.end);
      if Overlaps(areas, area.start, area.end) {
        var x: nat :| area.start <= x < area.end && At(areas, x).Some?;
        assert area.Contains(x);
        return Err(VmError.Overlap);
      }
      InsertedIsWellFormed(areas, area);
      forall x ensures At(Inserted(areas, area), x) == if area.Contains(x) then Some(area.Grants()) else At(areas, x) {
        InsertedAt(areas, area, x);
      }
      var pos := Place(areas, area.start);
      areas := areas[..pos] + [area] + areas[pos..];
      r := Ok(Unit.Unit);
    }

    /** Records the part of an area that is not mapped yet: it is refused only
        when the range is invalid, and what was mapped stays as it was. */
    method InsertUncovered(area: VmArea) returns (r: Result<Unit, VmError>)
      requires Valid()
      modifies this
      ensures Valid()
      ensures r == if RangeIsValid(area.start, area.end) then Ok(Unit.Unit) else Err(Invalid)
      ensures r.Err? ==> areas == old(areas)
      ensures r.Ok? ==> forall x :: At(areas, x) == Filled(old(areas), area, area.end, x)
    {
      if !RangeIsValid(area.start, area.end) {
        return Err(Invalid);
      }
      ghost var was := areas;
      var at := area.start;
      while at < area.end
        invariant Valid() && area.start <= at && at % PAGE_SIZE == 0
        invariant forall x :: At(areas, x) == Filled(was, area, at, x)
        decreases area.end - at
      {
        match Find(areas, at)
        case Some(a) =>
          SkipMapped(areas, was, area, at);
          at := a.end;
        case None =>
          var next := GapEnd(areas, area, at);
          GapIsFree(areas, area, at);
          var s := Insert(area.(start := at, end := next));
          if s.Err? {
            return s;
          }
          at := next;
      }
      r := Ok(Unit.Unit);
    }

    /** The highest gap of `len` bytes below `top`. */
    method FindFreeBelow(len: nat, top: nat) returns (r: Option<nat>)
      requires Valid()
      ensures IsHighestGap(areas, len, Min(top, USER_CEILING), r)
    {
      ghost var bound: nat := Min(top, USER_CEILING);
      var limit: nat := Min(top, USER_CEILING);
      var i: nat := |areas|;
      while i > 0
        invariant i <= |areas| && Narrowed(areas, len, bound, i, limit)
      {
        i := i - 1;
        var a := areas[i];
        NarrowStep(areas, len, bound, i, limit);
        if a.end <= limit {
          if limit - a.end >= len && limit - len >= USER_FLOOR {
            return Some(limit - len);
          }
          limit := a.start;
        } else if a.start < limit {
          limit := a.start;
        }
      }
      if limit >= USER_FLOOR + len {
        r := Some(limit - len);
      } else {
        r := None;
      }
    }

    /** Cuts a range out of the record. */
    method RemoveRange(start: nat, end: nat)
      requires Ordered(areas)
      modifies this
      ensures (start <= end ==> Ordered(areas)) && (old(Valid()) && RangeIsValid(start, end) ==> Valid())
      ensures areas == Removed(old(areas), start, end)
      ensures forall x: nat :: At(areas, x) == if start <= x < end then None else At(old(areas), x)
    {
      var out := [];
      for i := 0 to |areas|
        invariant areas == old(areas)
        invariant out == Removed(areas[..i], start, end)
      {
        var a := areas[i];
        assert areas[..i + 1][..i] == areas[..i];
        if a.end <= start || a.start >= end {
          out := out + [a];
          continue;
        }
        if a.start < start {
          out := out + [a.(end := start)];
        }
        if a.end > end {
          out := out + [a.(start := end)];
        }
      }
      assert areas[..|areas|] == areas;
      forall x: nat ensures At(out, x) == if start <= x < end then None else At(areas, x) {
        RemovedAt(areas, start, end, x);
      }
      RemovedAt(areas, start, end, 0);
      areas := out;
    }

    /** Gives a range the access `prot`. */
    method SetProt(start: nat, end: nat, prot: nat)
      requires Ordered(areas)
      modifies this
      ensures (start < end ==> Ordered(areas)) && (old(Valid()) && RangeIsValid(start, end) ==> Valid())
      ensures areas == Reprotected(old(areas), start, end, prot)
      ensures forall x: nat :: At(areas, x)
                == if start <= x < end && At(old(areas), x).Some? then Some(Access(prot, At(old(areas), x).value.kind))
                   else At(old(areas), x)
    {
      var out := [];
      for i := 0 to |areas|
        invariant areas == old(areas)
        invariant out == Reprotected(areas[..i], start, end, prot)
      {
        var a := areas[i];
        assert areas[..i + 1][..i] == areas[..i];
        if a.end <= start || a.start >= end {
          out := out + [a];
          continue;
        }
        if a.start < start {
          out := out + [a.(end := start)];
        }
        out := out + [VmArea(Max(a.start, start), Min(a.end, end), prot, a.kind)];
        if a.end > end {
          out := out + [a.(start := end)];
        }
      }
      assert areas[..|areas|] == areas;
      forall x: nat
        ensures At(out, x)
             == if start <= x < end && At(areas, x).Some? then Some(Access(prot, At(areas, x).value.kind)) else At(areas, x)
      {
        ReprotectedAt(areas, start, end, prot, x);
      }
      ReprotectedAt(areas, start, end, prot, 0);
      areas := out;
    }

    /** With page-aligned arguments the gap that was found can be mapped; unmapping
        it again restores the record, and the same gap is found the next time. */
    method MapThenUnmap(len: nat, top: nat, prot: nat) returns (first: Option<nat>, mapped: bool, second: Option<nat>)
      requires Valid() && len > 0 && len % PAGE_SIZE == 0 && top % PAGE_SIZE == 0
      modifies this
      ensures Valid() && areas == old(areas) && mapped == first.Some? && first == second
      ensures IsHighestGap(areas, len, Min(top, USER_CEILING), first)
    {
      first := FindFreeBelow(len, top);
      mapped := false;
      if first.Some? {
        assert IsGap(areas, len, Min(top, USER_CEILING), first.value);
        HighestGapIsAligned(areas, len, Min(top, USER_CEILING), first.value);
        ghost var was := areas;
        var area := VmArea(first.value, first.value + len, prot, Anon);
        InsertThenRemove(areas, area);
        OverlapsIsMapped(areas, area.start, area.end);
        var r := Insert(area);
        mapped := r.Ok?;
        RemoveRange(area.start, area.end);
      }
      second := FindFreeBelow(len, top);
      HighestGapIsUnique(areas, len, Min(top, USER_CEILING), first, second);
    }
  }

  /** What the record says about `x` once the unmapped part of `area` below `to`
      has been added. */
  function Filled(areas: seq<VmArea>, area: VmArea, to: nat, x: nat): Option<Access> {
    if At(areas, x).None? && area.Contains(x) && x < to then Some(area.Grants()) else At(areas, x)
  }

  /** The lowest start of an area above `at`. */
  function NextStart(areas: seq<VmArea>, at: nat): (r: Option<nat>)
    ensures r.Some? ==> exists i :: 0 <= i < |areas| && areas[i].start > at && areas[i].start == r.value
    ensures forall i :: 0 <= i < |areas| && areas[i].start > at ==> r.Some? && r.value <= areas[i].start
  {
    if areas == [] then None
    else
      var r := NextStart(areas[1..], at);
      assert forall i :: 1 <= i < |areas| ==> areas[i] == areas[1..][i - 1];
      if areas[0].start <= at then r
      else if r.None? || areas[0].start <= r.value then Some(areas[0].start)
      else r
  }

  /** Where the gap at `at` ends, as far as it matters for `area`. */
  function GapEnd(areas: seq<VmArea>, area: VmArea, at: nat): nat {
    match NextStart(areas, at)
    case None => area.end
    case Some(next) => Min(next, area.end)
  }

  /** The gap at an unmapped byte is a valid, free range. */
  lemma GapIsFree(areas: seq<VmArea>, area: VmArea, at: nat)
    requires WellFormed(areas) && RangeIsValid(area.start, area.end)
    requires area.start <= at < area.end && at % PAGE_SIZE == 0 && Find(areas, at).None?
    ensures RangeIsValid(at, GapEnd(areas, area, at)) && GapEnd(areas, area, at) <= area.end
    ensures !Overlaps(areas, at, GapEnd(areas, area, at))
    ensures forall x :: at <= x < GapEnd(areas, area, at) ==> At(areas, x).None?
  {
    var end := GapEnd(areas, area, at);
    forall i | 0 <= i < |areas|
      ensures !(areas[i].start < end && at < areas[i].end)
    {
      assert !areas[i].Contains(at);
    }
    OverlapsIsMapped(areas, at, end);
  }

  lemma SkipMapped(areas: seq<VmArea>, was: seq<VmArea>, area: VmArea, at: nat)
    requires WellFormed(areas) && Find(areas, at).Some?
    requires forall x :: At(areas, x) == Filled(was, area, at, x)
    ensures
      var end := Find(areas, at).value.end;
      end > at && end % PAGE_SIZE == 0 && forall x :: At(areas, x) == Filled(was, area, end, x)
  {
    var a := Find(areas, at).value;
    var i :| 0 <= i < |areas| && areas[i] == a;
    assert RangeIsValid(a.start, a.end);
    forall x | at <= x < a.end
      ensures At(areas, x).Some?
    {
      AtArea(areas, x, i);
    }
  }

  lemma HighestGapIsAligned(areas: seq<VmArea>, len: nat, limit: nat, s: nat)
    requires WellFormed(areas) && len % PAGE_SIZE == 0 && limit % PAGE_SIZE == 0
    requires IsHighestGap(areas, len, limit, Some(s))
    ensures s % PAGE_SIZE == 0
  {
    hide WellFormed, RangeIsValid;
    assert !IsGap(areas, len, limit, s + 1);
    if s + len < limit {
      var i :| 0 <= i < |areas| && areas[i].start < s + 1 + len && s + 1 < areas[i].end;
      var a := areas[i];
      assert !(a.start < s + len && s < a.end);
      AlignedDifference(areas, i, s, len);
    } else {
      assert s == limit - len;
    }
  }

  lemma AlignedDifference(areas: seq<VmArea>, i: nat, s: nat, len: nat)
    requires WellFormed(areas) && i < |areas| && len % PAGE_SIZE == 0 && s + len == areas[i].start
    ensures s % PAGE_SIZE == 0
  {
    assert RangeIsValid(areas[i].start, areas[i].end);
  }
}
