/** Mapping, unmapping and forking address spaces, as the kernel performs them. */
module PagingOps {
  import opened Wrappers
  import opened Paging
  import opened PagingGraft
  import opened PagingLeaf
  import opened PagingFork
  import opened PagingCount
  import opened PagingCloning
  import opened PagingAccounts
  import opened PagingTrace
  import opened PagingRights
  import opened PagingEffects

  class PageTables {
    /** Physical memory, all of it reachable through the identity map. */
    var mem: Memory
    /** The frames that the frame allocator can still hand out. */
    var free: set<nat>
    /** The PML4 that the kernel booted with. */
    const kernel: nat
    /** Every live PML4, and those that belong to processes. */
    ghost var roots: set<nat>
    ghost var users: set<nat>
    /** The frames given to processes as pages. */
    ghost var pages: set<nat>

    ghost predicate Valid()
      reads this
    {
      && Consistent(mem, roots, users, free)
      && kernel in roots && kernel !in users
    }

    /** Every address space is fit to be forked. */
    ghost predicate Audited()
      reads this
    {
      Accounted(mem, roots, free, pages)
    }

    /** The state in which the kernel boots: one address space, whose tables
        have no user bit, serve one level each and are not free. */
    constructor (mem: Memory, kernel: nat, free: set<nat>, ghost pages: set<nat>)
      requires Consistent(mem, {kernel}, {}, free)
      ensures Valid()
      ensures this.mem == mem && this.kernel == kernel && this.free == free && this.pages == pages
      ensures roots == {kernel} && users == {}
    {
      this.mem, this.kernel, this.free := mem, kernel, free;
      roots, users, this.pages := {kernel}, {}, pages;
    }

    method AllocFrame() returns (r: Option<nat>)
      modifies this`free
      ensures r.None? <==> old(free) == {}
      ensures r.None? ==> free == old(free)
      ensures r.Some? ==> r.value in old(free) && free == old(free) - {r.value}
    {
      if free == {} {
        return None;
      }
      var f :| f in free;
      free := free - {f};
      return Some(f);
    }

    /** Takes a frame that is to become a page of a process. */
    method AllocPage() returns (r: Option<nat>)
      requires Valid()
      modifies this`free, this`pages
      ensures Valid() && (old(Audited()) ==> Audited())
      ensures r.None? <==> old(free) == {}
      ensures r.None? ==> free == old(free) && pages == old(pages)
      ensures r.Some? ==>
        && r.value in old(free) && r.value < |mem| && free == old(free) - {r.value}
        && pages == old(pages) + {r.value}
    {
      hide Consistent, Accounted;
      PageMayBeTaken(mem, roots, users, free, pages);
      r := AllocFrame();
      if r.Some? {
        pages := pages + {r.value};
      }
    }

    /** Entry `i` of table `t` becomes `Entry(f, flags)`. */
    method SetEntry(t: nat, i: Index, f: nat, flags: set<Flag>)
      requires t < |mem|
      modifies this`mem
      ensures mem == old(mem)[t := old(mem)[t][i := Entry(f, flags)]]
    {
      mem := mem[t := mem[t][i := Entry(f, flags)]];
    }

    /** Replaces the huge page that entry `i` of table `t` maps by a table of
        512 smaller pages. `level` is 2 for a PDPT entry and 1 for a PD entry. */
    method SplitHugeEntry(t: nat, i: Index, tableFlags: set<Flag>, level: nat)
      returns (r: Result<Unit, MapError>, ghost f: nat)
      requires t < |mem| && t !in free
      requires forall f :: f in free ==> f < |mem|
      requires mem[t][i].IsPresent() && Huge in mem[t][i].flags
      modifies this`mem, this`free
      ensures |mem| == |old(mem)|
      ensures r.Err? ==>
        && free <= old(free) && |old(free)| <= |free| + 1
        && (forall x :: 0 <= x < |mem| && x !in old(free) ==> mem[x] == old(mem)[x])
        && if r.error == OutOfFrames then free == old(free) == {} else r.error == InvalidSplitLevel && level !in {1, 2}
      ensures r.Ok? ==>
        && 1 <= level <= 2 && f in old(free) && free == old(free) - {f}
        && var o := old(mem)[t][i];
           mem == GraftedMemory(old(mem), t, i, Entry(f, SplitParentFlags(o, User in tableFlags)),
                                f, SplitFill(o, User in tableFlags, level))
    {
      f := 0;
      var o := mem[t][i];
      var a := AllocFrame();
      if a.None? {
        return Err(OutOfFrames), f;
      }
      f := a.value;
      mem := mem[a.value := ZEROED];
      var userNeeded := User in tableFlags;
      var childFlags := o.flags - {Huge};
      if userNeeded {
        childFlags := childFlags + {User};
      }
      if level == 2 {
        for j := 0 to 512
          invariant free == old(free) - {f}
          invariant |mem| == |old(mem)| && mem == old(mem)[f := mem[f]]
          invariant forall k: Index :: k < j ==> mem[f][k] == SplitFill(o, userNeeded, 2)[k]
        {
          SetEntry(a.value, j, o.frame + j * 512, childFlags + {Huge});
        }
        assert mem[f] == SplitFill(o, userNeeded, 2);
      } else if level == 1 {
        for j := 0 to 512
          invariant free == old(free) - {f}
          invariant |mem| == |old(mem)| && mem == old(mem)[f := mem[f]]
          invariant forall k: Index :: k < j ==> mem[f][k] == SplitFill(o, userNeeded, 1)[k]
        {
          SetEntry(a.value, j, o.frame + j, childFlags);
        }
        assert mem[f] == SplitFill(o, userNeeded, 1);
      } else {
        return Err(InvalidSplitLevel), f;
      }
      var parentFlags := TABLE;
      if User in o.flags || userNeeded {
        parentFlags := parentFlags + {User};
      }
      SetEntry(t, i, a.value, parentFlags);
      return Ok(Unit), f;
    }

    /** Points entry `i` of table `t` at a fresh frame that holds `fill`. */
    method HangTable(t: nat, i: Index, fill: Table, flags: set<Flag>) returns (r: Result<nat, MapError>)
      requires t < |mem| && forall f :: f in free ==> f < |mem|
      modifies this`mem, this`free
      ensures r.Err? <==> old(free) == {}
      ensures r.Err? ==> r.error == OutOfFrames && mem == old(mem) && free == old(free)
      ensures r.Ok? ==>
        && r.value in old(free) && free == old(free) - {r.value}
        && mem == GraftedMemory(old(mem), t, i, Entry(r.value, flags), r.value, fill)
    {
      var a := AllocFrame();
      if a.None? {
        return Err(OutOfFrames);
      }
      mem := mem[a.value := fill];
      SetEntry(t, i, a.value, flags);
      return Ok(a.value);
    }

    /** Makes entry `i` of table `t` point to a table that carries at least
        `tableFlags`: a new one, a split huge page, or a copy of a table that
        lacked a flag. `p` is the path of `t` in the address space `root`. */
    method EnsureTable(t: nat, i: Index, tableFlags: set<Flag>, level: nat, ghost root: nat, ghost p: Path)
      returns (r: Result<nat, MapError>)
      requires Valid() && root in roots && |p| <= 2 && level == 3 - |p|
      requires TableAt(mem, root, p) == Some(t)
      requires tableFlags == TABLE || tableFlags == TABLE + {User}
      requires User in tableFlags ==> Owned(mem, users, root, p)
      modifies this`mem, this`free
      ensures TableEnsured(old(mem), old(free), mem, free, roots, users, pages, root, p, i, tableFlags, r)
    {
      hide Consistent, TableEnsured, TableAt, Owned, SplitFill;
      ghost var g := Graft(mem, roots, users, free, root, p, i, EMPTY, ZEROED);
      TableLiesInMemory(mem, roots, users, free, root, p);
      var entry := mem[t][i];
      if !entry.IsPresent() {
        r := HangTable(t, i, ZEROED, tableFlags);
        if r.Ok? {
          EnsuredByNewTable(g.(e := Entry(r.value, tableFlags)), tableFlags, pages);
        } else {
          EnsuredByNothing(g, mem, free, tableFlags, pages, r.error);
        }
        return r;
      }
      if Huge in entry.flags {
        var s, f := SplitHugeEntry(t, i, tableFlags, level);
        if s.Err? {
          EnsuredByNothing(g, mem, free, tableFlags, pages, s.error);
          return Err(s.error);
        }
        var user := User in tableFlags;
        EnsuredBySplit(g.(e := Entry(f, SplitParentFlags(entry, user)), fill := SplitFill(entry, user, level)),
                       tableFlags, pages);
        assert tableFlags <= mem[t][i].flags;
      } else {
        EnsuredAlready(g, tableFlags, pages);
      }
      entry := mem[t][i];
      if !(tableFlags <= entry.flags) {
        var copy := mem[entry.frame];
        var flags := entry.flags + tableFlags;
        r := HangTable(t, i, copy, flags);
        if r.Ok? {
          EnsuredByCopy(g.(e := Entry(r.value, flags), fill := copy), tableFlags, pages);
        } else {
          EnsuredByNothing(g, mem, free, tableFlags, pages, r.error);
        }
        return r;
      }
      return Ok(entry.frame);
    }

    /** Maps the page at address `virt` to `frame` in the address space `root`. */
    method MapPage(root: nat, virt: nat, frame: nat, flags: set<Flag>) returns (r: Result<Unit, MapError>)
      requires Valid() && root in roots
      requires User in flags ==> root in users
      modifies this`mem, this`free
      ensures Valid() && |mem| == |old(mem)|
      ensures r.Err? ==>
        && SameTranslations(old(mem), mem, roots) && SamePageFlags(old(mem), mem, roots)
        && PointersGrow(old(mem), mem, roots, FlagsAbove(flags))
      ensures r.Err? ==>
        || (r.error == OutOfFrames && free == {}
            && (HugeRoot(old(mem), root, Pml4Index(virt))
                || |old(free)| < Missing(old(mem), root, PageOf(virt), FlagsAbove(flags), 3)))
        || (r.error == InvalidSplitLevel && HugeRoot(old(mem), root, Pml4Index(virt)))
        || (r.error == AlreadyMapped && User !in flags && Translate(old(mem), root, PageOf(virt)).Some?)
      ensures r.Ok? <==>
        && |old(free)| >= Missing(old(mem), root, PageOf(virt), FlagsAbove(flags), 3)
        && !HugeRoot(old(mem), root, Pml4Index(virt))
        && (User in flags || Translate(old(mem), root, PageOf(virt)).None?)
      ensures HugeRoot(old(mem), root, Pml4Index(virt)) ==> r.Err?
      ensures User !in flags && Translate(old(mem), root, PageOf(virt)).Some? ==> r.Err?
      ensures r.Ok? ==>
        && Translate(mem, root, PageOf(virt)) == (if Present in flags then Some(frame) else None)
        && EntryAt(mem, root, PageOf(virt)) == Some(Entry(frame, flags))
        && JoinedBecome(old(mem), mem, roots, root, PageOf(virt), flags, if Present in flags then Some(frame) else None)
        && JoinedAlike(old(mem), roots, root, PageOf(virt), flags)
        && SlotsTraced(old(mem), mem, roots, root, PageOf(virt), FlagsAbove(flags))
        && FlagsTraced(old(mem), mem, roots, root, PageOf(virt), flags)
      ensures r.Ok? && Present in flags && User !in flags ==>
        JoinedChange(old(mem), mem, roots, root, PageOf(virt), flags)
      ensures r.Ok? && User in flags ==>
        OtherPagesSame(old(mem), mem, roots, root, PageOf(virt)) && OffTheWaySame(old(mem), mem, root, PageOf(virt))
      ensures r.Ok? ==> TableAt(mem, root, PageOf(virt)[..3]).Some?
      ensures r.Ok? && User in flags ==> Owned(mem, users, root, PageOf(virt)[..3])
      ensures User in flags ==> OthersSeeNothing(old(mem), mem, roots, root)
      ensures User in flags ==> AccessGrowsAtMost(old(mem), mem, roots, root, PageOf(virt))
      ensures r.Ok? && User in flags ==> AccessGrowsAtLeast(old(mem), mem, roots, root, PageOf(virt))
      ensures r.Ok? && User in flags ==> (Accessible(mem, root, PageOf(virt)) <==> Present in flags)
      ensures User !in flags ==> SameAccess(old(mem), mem, roots)
      ensures free <= old(free) && |old(free)| <= |free| + 3
      ensures r.Ok? ==> |old(free)| == |free| + Missing(old(mem), root, PageOf(virt), FlagsAbove(flags), 3)
      ensures old(Audited()) && MayMap(old(mem), users, pages, root, PageOf(virt), Entry(frame, flags)) ==> Audited()
    {
      hide Consistent, Accounted, TableEnsured, Mapping.Ready, Translate, Accessible, SharesHugePage, MayMap, Owned,
        OthersSeeNothing, SameTranslations, SameAccess, OtherSlotsSame, SlotIsUnshared, OtherPagesSame, OffTheWaySame,
        JoinedBecome, JoinedAlike, JoinedChange, SlotsTraced, AccessGrowsAtMost, AccessGrowsAtLeast, TableAt, EntryAt,
        SamePageFlags, PointersGrow, FlagsTraced;
      var tableFlags := FlagsAbove(flags);
      ghost var m := Mapping(mem, free, roots, users, pages, root, PageOf(virt), Entry(frame, flags));
      m.Begins();
      m.ReadyMeans(mem, free, 0);
      var pdpt := EnsureTable(root, Pml4Index(virt), tableFlags, 3, root, m.v[..0]);
      m.OneMore(m.mem, m.free, mem, free, 0, pdpt);
      if pdpt.Err? {
        return Err(pdpt.error);
      }
      ghost var mem1, free1 := mem, free;
      m.ReadyMeans(mem1, free1, 1);
      var pd := EnsureTable(pdpt.value, PdptIndex(virt), tableFlags, 2, root, m.v[..1]);
      m.OneMore(mem1, free1, mem, free, 1, pd);
      if pd.Err? {
        return Err(pd.error);
      }
      ghost var mem2, free2 := mem, free;
      m.ReadyMeans(mem2, free2, 2);
      var pt := EnsureTable(pd.value, PdIndex(virt), tableFlags, 1, root, m.v[..2]);
      m.OneMore(mem2, free2, mem, free, 2, pt);
      if pt.Err? {
        return Err(pt.error);
      }
      ghost var mem3 := mem;
      m.ReadyMeans(mem3, free, 3);
      m.LeafIsNext(mem3, free);
      if mem[pt.value][PtIndex(virt)].IsPresent() {
        if User in flags {
          m.Written(mem3, free);
          SetEntry(pt.value, PtIndex(virt), frame, flags);
          return Ok(Unit);
        }
        m.Refused(mem3, free);
        return Err(AlreadyMapped);
      }
      m.Written(mem3, free);
      m.WasAbsent(mem3, free);
      if Present in flags {
        EmptySlotFills(m.mem, LeafWrite(mem3, roots, users, free, root, m.v, m.e).After(), roots, root, m.v, flags, frame);
      }
      SetEntry(pt.value, PtIndex(virt), frame, flags);
      return Ok(Unit);
    }

    /** Copies the table `s`, reached by `p` in the parent, and all it owns below. */
    method CloneTableLevel(s: nat, level: nat, ghost c: Cloning, ghost p: Path, ghost owner0: map<nat, Path>)
      returns (r: Result<nat, MapError>, ghost owner: map<nat, Path>)
      requires 1 <= |p| <= 3 && level == 4 - |p|
      requires c.InProgress(CloneState(mem, free, owner0))
      requires TableAt(c.base, c.src, p) == Some(s) && CopiedPath(c.base, c.src, p)
      modifies this`mem, this`free
      ensures c.TableCloned(old(CloneState(mem, free, owner0)), CloneState(mem, free, owner), s,
                            if r.Ok? then r.value else 0, p, r.Ok?)
      ensures |mem| == |old(mem)|
      ensures r.Err? ==> r.error == OutOfFrames && free == {}
      ensures Takes(old(free), free, TableFrames(c.base, c.src, p), r.Ok?)
      decreases level, 1
    {
      hide TableAt, CopiedPath, Takes, EntriesFrames, EntryFrames, Cloning.Copying, Cloning.Progress, Cloning.EntryCloned,
        Cloning.Reached, Cloned;
      owner := owner0;
      ghost var o := CloneState(mem, free, owner0);
      c.NothingBegun(o, p);
      var a := AllocFrame();
      if a.None? {
        TakesNone(TableFrames(c.base, c.src, p));
        return Err(OutOfFrames), owner;
      }
      var d := a.value;
      TakesFirst(old(free), free, c.base, c.src, p);
      owner := owner[d := p];
      mem := mem[d := ZEROED];
      c.TableBegun(o, CloneState(mem, free, owner), s, d, p);
      assert c.Reached(o, CloneState(mem, free, owner), s, d, p, 0) by {
        c.ReachedStart(o, CloneState(mem, free, owner), s, d, p);
      }
      for i := 0 to 512
        invariant c.Reached(o, CloneState(mem, free, owner), s, d, p, i)
        invariant Takes(old(free), free, 1 + EntriesFrames(c.base, c.src, p, i), true)
      {
        ghost var m := CloneState(mem, free, owner);
        var e;
        c.ReachedMeans(o, m, s, d, p, i);
        e, owner := CloneEntry(s, d, i, level, c, p, owner);
        c.ReachedNext(o, m, CloneState(mem, free, owner), s, d, p, i, e.Ok?);
        TakesEntry(c.base, c.src, p, i, 512, old(free), m.free, free, e.Ok?);
        if e.Err? {
          return Err(e.error), owner;
        }
      }
      c.ReachedEnd(o, CloneState(mem, free, owner), s, d, p);
      return Ok(d), owner;
    }

    /** Copies the page that entry `i` of table `s` maps. */
    method ClonePage(s: nat, d: nat, i: Index, ghost c: Cloning, ghost p: Path, ghost owner0: map<nat, Path>)
      returns (r: Result<Unit, MapError>, ghost owner: map<nat, Path>)
      requires |p| == 3 && c.Copying(CloneState(mem, free, owner0), s, d, p)
      requires s < |mem| && d < |mem| && s < |c.base| && mem[d][i] == EMPTY && IsCopied(c.base[s][i])
      modifies this`mem, this`free
      ensures c.EntryCloned(old(CloneState(mem, free, owner0)), CloneState(mem, free, owner), s, d, i, p, r.Ok?)
      ensures r.Err? ==> r.error == OutOfFrames && free == {}
      ensures Takes(old(free), free, 1, r.Ok?)
    {
      hide TableAt, CopiedPath, EntryAt, Takes, Cloning.Copying, Cloning.InProgress, Cloning.EntryCloned;
      owner := owner0;
      ghost var o := CloneState(mem, free, owner0);
      c.Reads(o, s, d, i, p);
      var e := mem[s][i];
      var b := AllocFrame();
      if b.None? {
        TakesNone(1);
        c.EntryShared(o, o, s, d, i, p, false);
        return Err(OutOfFrames), owner;
      }
      TakesOne(old(free), free);
      mem := mem[b.value := mem[e.frame]];
      owner := owner[b.value := p + [i]];
      SetEntry(d, i, b.value, e.flags);
      c.PageCopied(o, CloneState(mem, free, owner), s, d, i, p, b.value);
      return Ok(Unit), owner;
    }

    /** Copies entry `i` of table `s` into table `d`, which is still empty there. */
    method CloneEntry(s: nat, d: nat, i: Index, level: nat, ghost c: Cloning, ghost p: Path, ghost owner0: map<nat, Path>)
      returns (r: Result<Unit, MapError>, ghost owner: map<nat, Path>)
      requires 1 <= |p| <= 3 && level == 4 - |p|
      requires c.Copying(CloneState(mem, free, owner0), s, d, p)
      requires d < |mem| && s < |c.base| && mem[d][i] == EMPTY
      modifies this`mem, this`free
      ensures c.EntryCloned(old(CloneState(mem, free, owner0)), CloneState(mem, free, owner), s, d, i, p, r.Ok?)
      ensures r.Err? ==> r.error == OutOfFrames && free == {}
      ensures Takes(old(free), free, EntryFrames(c.base, c.src, p + [i]), r.Ok?)
      decreases level, 0
    {
      hide TableAt, CopiedPath, EntryAt, Takes, EntryFrames, TableFrames, Cloning.Copying, Cloning.InProgress,
        Cloning.EntryCloned, Cloning.TableCloned;
      owner := owner0;
      ghost var o := CloneState(mem, free, owner0);
      c.Reads(o, s, d, i, p);
      TakesNothing(free);
      var e := mem[s][i];
      EntryFramesByKind(c.base, c.src, p, i, e);
      if !e.IsPresent() {
        c.EntryShared(o, o, s, d, i, p, true);
        return Ok(Unit), owner;
      }
      if User !in e.flags && UserOwned !in e.flags {
        SetEntry(d, i, e.frame, e.flags);
        c.EntryShared(o, CloneState(mem, free, owner), s, d, i, p, true);
        return Ok(Unit), owner;
      }
      if Huge in e.flags {
        // A frame is taken for the copy, and the page is shared after all.
        var b := AllocFrame();
        if b.None? {
          TakesNone(1);
          c.EntryShared(o, o, s, d, i, p, false);
          return Err(OutOfFrames), owner;
        }
        TakesOne(old(free), free);
        SetEntry(d, i, e.frame, e.flags);
        c.EntryShared(o, CloneState(mem, free, owner), s, d, i, p, true);
        return Ok(Unit), owner;
      }
      if level == 1 {
        r, owner := ClonePage(s, d, i, c, p, owner);
        return r, owner;
      }
      var t;
      t, owner := CloneTableLevel(e.frame, level - 1, c, p + [i], owner);
      ghost var m := CloneState(mem, free, owner);
      if t.Err? {
        c.TableCopied(o, m, m, s, d, i, p, 0, false);
        return Err(t.error), owner;
      }
      SetEntry(d, i, t.value, e.flags);
      c.TableCopied(o, m, CloneState(mem, free, owner), s, d, i, p, t.value, true);
      return Ok(Unit), owner;
    }

    /** Copies entry `i` of the user half of the PML4 `src` into the PML4 `dst`. */
    method CloneRootEntry(src: nat, dst: nat, i: Index, ghost c: Cloning, ghost owner0: map<nat, Path>)
      returns (r: Result<Unit, MapError>, ghost owner: map<nat, Path>)
      requires i < 256 && src == c.src && c.Copying(CloneState(mem, free, owner0), src, dst, [])
      requires dst < |mem| && src < |c.base| && mem[dst][i] == EMPTY
      modifies this`mem, this`free
      ensures c.EntryCloned(old(CloneState(mem, free, owner0)), CloneState(mem, free, owner), src, dst, i, [], r.Ok?)
      ensures r.Err? ==> r.error == OutOfFrames && free == {}
      ensures Takes(old(free), free, EntryFrames(c.base, c.src, [i]), r.Ok?)
    {
      hide TableAt, CopiedPath, EntryAt, Takes, TableFrames, Cloning.Copying, Cloning.InProgress, Cloning.EntryCloned,
        Cloning.TableCloned;
      owner := owner0;
      ghost var o := CloneState(mem, free, owner0);
      c.Reads(o, src, dst, i, []);
      TakesNothing(free);
      assert [] + [i] == [i];
      var e := mem[src][i];
      if !e.IsPresent() {
        c.EntryShared(o, o, src, dst, i, [], true);
        return Ok(Unit), owner;
      }
      if User !in e.flags {
        SetEntry(dst, i, e.frame, e.flags);
        c.EntryShared(o, CloneState(mem, free, owner), src, dst, i, [], true);
        return Ok(Unit), owner;
      }
      var t;
      t, owner := CloneTableLevel(e.frame, 3, c, [i], owner);
      ghost var m := CloneState(mem, free, owner);
      if t.Err? {
        c.TableCopied(o, m, m, src, dst, i, [], 0, false);
        return Err(t.error), owner;
      }
      SetEntry(dst, i, t.value, e.flags);
      c.TableCopied(o, m, CloneState(mem, free, owner), src, dst, i, [], t.value, true);
      return Ok(Unit), owner;
    }

    /** The entries of the upper half of the PML4 `src` are shared with `dst`. */
    method CopyUpperHalf(src: nat, dst: nat)
      requires src < |mem| && dst < |mem| && src != dst
      modifies this`mem
      ensures |mem| == |old(mem)| && mem == old(mem)[dst := mem[dst]]
      ensures forall j: Index :: mem[dst][j] == if j >= 256 then mem[src][j] else old(mem)[dst][j]
    {
      for i := 256 to 512
        invariant |mem| == |old(mem)| && mem == old(mem)[dst := mem[dst]]
        invariant forall j: Index :: mem[dst][j] == if 256 <= j < i then mem[src][j] else old(mem)[dst][j]
      {
        SetEntry(dst, i, mem[src][i].frame, mem[src][i].flags);
      }
    }

    /** Copies the lower half of the PML4 `src` into `dst`, and all it owns. */
    method CloneLowerHalf(src: nat, dst: nat, ghost c: Cloning, ghost owner0: map<nat, Path>)
      returns (r: Result<Unit, MapError>, ghost owner: map<nat, Path>)
      requires src == c.src && c.RootReached(CloneState(mem, free, owner0), dst, 0)
      requires Takes(c.free0, free, 1, true)
      modifies this`mem, this`free
      ensures c.InProgress(CloneState(mem, free, owner))
      ensures r.Ok? ==> c.RootReached(CloneState(mem, free, owner), dst, 256)
      ensures r.Err? ==> r.error == OutOfFrames && free == {}
      ensures Takes(c.free0, free, ForkFrames(c.base, c.src), r.Ok?)
    {
      hide Cloning.Copying, Cloning.RootReached, Cloning.EntryCloned, Cloning.InProgress, Takes, EntryFrames, EntriesFrames;
      owner := owner0;
      assert EntriesFrames(c.base, c.src, [], 0) == 0 by { NoEntriesNoFrames(c.base, c.src); }
      for i := 0 to 256
        invariant c.RootReached(CloneState(mem, free, owner), dst, i)
        invariant Takes(c.free0, free, 1 + EntriesFrames(c.base, c.src, [], i), true)
      {
        ghost var m := CloneState(mem, free, owner);
        var e;
        c.RootReachedMeans(m, dst, i);
        e, owner := CloneRootEntry(src, dst, i, c, owner);
        c.RootReachedNext(m, CloneState(mem, free, owner), dst, i, e.Ok?);
        assert [] + [i] == [i];
        TakesEntry(c.base, c.src, [], i, 256, c.free0, m.free, free, e.Ok?);
        if e.Err? {
          return Err(e.error), owner;
        }
      }
      c.RootReachedMeans(CloneState(mem, free, owner), dst, 256);
      return Ok(Unit), owner;
    }

    /** Takes a frame for the PML4 of a fork and fills its upper half. */
    method BeginClone(ghost c: Cloning, src: nat) returns (r: Option<nat>, ghost owner: map<nat, Path>)
      requires c == Cloning(mem, free, src) && c.InProgress(CloneState(mem, free, map[]))
      requires src < |mem| && src !in free && TableAt(mem, src, []) == Some(src) && CopiedPath(mem, src, [])
      modifies this`mem, this`free
      ensures r.None? ==> mem == old(mem) && free == old(free) == {}
      ensures r.Some? ==> c.RootReached(CloneState(mem, free, owner), r.value, 0) && Takes(c.free0, free, 1, true)
    {
      hide TableAt, CopiedPath, CopiedPagesInUse, Cloning.Copying, Cloning.RootReached, Cloning.Progress, Takes;
      ghost var o := CloneState(mem, free, map[]);
      owner := map[];
      r := AllocFrame();
      if r.None? {
        return;
      }
      var dst := r.value;
      mem := mem[dst := ZEROED];
      owner := owner[dst := []];
      TakesOne(c.free0, free);
      CopyUpperHalf(src, dst);
      c.TableBegun(o, CloneState(mem, free, owner), src, dst, []);
      c.RootBegun(CloneState(mem, free, owner), dst);
    }

    /** Forks the address space `src`. */
    method CloneUserPageTable(src: nat) returns (r: Result<nat, MapError>, ghost owner: map<nat, Path>)
      requires Valid() && src in users
      requires CopiedPagesInUse(mem, free, src)
      modifies this
      ensures r.Err? || KernelHalfHasNoUserEntry(old(mem), src) ==> Valid()
      ensures SameTranslations(old(mem), mem, old(roots))
      ensures r.Err? ==>
        && r.error == OutOfFrames && free == {} && roots == old(roots) && users == old(users) && pages == old(pages)
      ensures r.Ok? ==>
        && r.value !in old(roots) && roots == old(roots) + {r.value} && users == old(users) + {r.value}
        && (var k := Fork(old(mem), mem, old(roots), old(users), old(free), free, src, r.value, owner);
            k.Valid() && pages == old(pages) + CopiedPages(k))
      ensures r.Ok? <==> |old(free)| >= ForkFrames(old(mem), src)
      ensures r.Ok? ==> |old(free)| == |free| + ForkFrames(old(mem), src)
      ensures old(Audited()) ==> Audited()
      ensures old(Audited()) && r.Ok? ==> forall z :: z in old(roots) ==> PagesDisjoint(mem, z, r.value)
    {
      hide Consistent, SameTranslations, Accounted, PagesDisjoint, ForkFrames, Takes, TableAt, CopiedPath, CopiedPagesInUse,
        KernelHalfHasNoUserEntry, Cloning.InProgress, Cloning.RootReached, CopiedPages, Fork.Valid;
      ghost var base, free0, c := mem, free, Cloning(mem, free, src);
      ForkMayBegin(mem, roots, users, free, src);
      var a;
      a, owner := BeginClone(c, src);
      if a.None? {
        ForkTakesOne(mem, src);
        TakesMeans(free0, free, ForkFrames(base, src), false);
        return Err(OutOfFrames), owner;
      }
      var dst := a.value;
      var l;
      l, owner := CloneLowerHalf(src, dst, c, owner);
      TakesMeans(free0, free, ForkFrames(base, src), l.Ok?);
      if l.Err? {
        ForkFails(c, CloneState(mem, free, owner), roots, users, pages);
        return Err(l.error), owner;
      }
      ghost var k := Fork(base, mem, roots, users, free0, free, src, dst, owner);
      c.RootEnd(k);
      ForkCompletes(k, pages);
      roots := roots + {dst};
      users := users + {dst};
      pages := pages + CopiedPages(k);
      return Ok(dst), owner;
    }

    /** Removes the 4 KiB mapping of the page at address `virt`. */
    method UnmapPage(root: nat, virt: nat) returns (r: Result<nat, MapError>)
      requires Valid() && root in roots
      modifies this`mem
      ensures Valid()
      ensures r.Ok? <==> TableAt(old(mem), root, PageOf(virt)[..3]).Some? && Translate(old(mem), root, PageOf(virt)).Some?
      ensures r.Ok? ==>
        && Translate(old(mem), root, PageOf(virt)) == Some(r.value)
        && Translate(mem, root, PageOf(virt)) == None
        && SlotBecomes(old(mem), mem, roots, root, PageOf(virt), None)
        && SlotChanges(old(mem), mem, roots, root, PageOf(virt))
        && (var t := TableAt(old(mem), root, PageOf(virt)[..3]).value;
            t < |old(mem)| && mem == old(mem)[t := old(mem)[t][PtIndex(virt) := EMPTY]])
        && (Owned(old(mem), users, root, PageOf(virt)[..3]) ==>
              SlotIsUnshared(mem, roots, root, PageOf(virt)) && OtherPagesSame(old(mem), mem, roots, root, PageOf(virt)))
      ensures r.Err? ==> mem == old(mem) && (r.error == HugePage <==> Translate(mem, root, PageOf(virt)).Some?)
      ensures old(Audited()) ==> Audited()
    {
      hide Consistent, Translate, TableAt, Accessible, Owned, OtherSlotsSame, SlotIsUnshared, OthersSeeNothing, Accounted,
        SlotBecomes, SlotChanges, OtherPagesSame;
      ghost var v := PageOf(virt);
      assert TableAt(mem, root, v[..0]) == Some(root) by { RootIsReached(mem, root, v); }
      EntryOnWalk(mem, roots, users, free, root, v, 0);
      var e4 := mem[root][Pml4Index(virt)];
      if !e4.IsPresent() {
        return Err(NoPdpt);
      }
      EntryOnWalk(mem, roots, users, free, root, v, 1);
      var e3 := mem[e4.frame][PdptIndex(virt)];
      if !e3.IsPresent() {
        return Err(NoPd);
      }
      if Huge in e3.flags {
        return Err(HugePage);
      }
      EntryOnWalk(mem, roots, users, free, root, v, 2);
      var e2 := mem[e3.frame][PdIndex(virt)];
      if !e2.IsPresent() {
        return Err(NoPt);
      }
      if Huge in e2.flags {
        return Err(HugePage);
      }
      EntryOnWalk(mem, roots, users, free, root, v, 3);
      var pte := mem[e2.frame][PtIndex(virt)];
      if !pte.IsPresent() {
        return Err(NotMapped);
      }
      ghost var write := LeafWrite(mem, roots, users, free, root, v, EMPTY);
      LeafWritten(write);
      SlotFromLeaf(write);
      LeafTranslates(write);
      UsedSlotEmpties(mem, write.After(), roots, root, v);
      if Owned(mem, users, root, v[..3]) { OnlyThatPage(mem, write.After(), roots, root, v); }
      if Audited() { LeafKeepsAccounts(write, pages); }
      SetEntry(e2.frame, PtIndex(virt), 0, {});
      return Ok(pte.frame);
    }

    /** Unmapping after mapping gives back the frame and undoes the mapping, in
        every address space that the mapping reached; if the page was not mapped
        before, every translation is restored. */
    method MapThenUnmap(root: nat, virt: nat, frame: nat, flags: set<Flag>)
      returns (m: Result<Unit, MapError>, u: Result<nat, MapError>)
      requires Valid() && root in roots && Present in flags
      requires User in flags ==> root in users
      modifies this`mem, this`free
      ensures Valid()
      ensures m.Ok? ==> u == Ok(frame) && JoinedBecome(old(mem), mem, roots, root, PageOf(virt), flags, None)
      ensures m.Err? ==> u == Err(m.error)
      ensures m.Err? || Translate(old(mem), root, PageOf(virt)) == None ==> SameTranslations(old(mem), mem, roots)
      ensures m.Ok? && User in flags ==> OtherPagesSame(old(mem), mem, roots, root, PageOf(virt))
    {
      hide Consistent, Translate, TableAt, Accessible, Owned, OtherPagesSame, OthersSeeNothing, AccessGrowsAtMost,
        AccessGrowsAtLeast, Accounted, MayMap, SameAccess, SameTranslations, JoinedBecome, JoinedAlike, JoinedChange,
        SlotsTraced, FlagsTraced, SlotBecomes, SlotChanges, OffTheWaySame, SlotIsUnshared;
      ghost var before, v := mem, PageOf(virt);
      m := MapPage(root, virt, frame, flags);
      if m.Err? {
        return m, Err(m.error);
      }
      ghost var mapped := mem;
      u := UnmapPage(root, virt);
      FilledThenEmptied(before, mapped, mem, roots, root, v, flags, frame);
      if User in flags { OtherPagesTwice(before, mapped, mem, roots, root, v); }
    }

    /** Copies the entries of the kernel's PML4 that are not for users. */
    method InheritEntries(dst: nat)
      requires kernel < |mem| && dst < |mem| && dst != kernel && mem[dst] == ZEROED
      modifies this`mem
      ensures |mem| == |old(mem)| && forall x :: 0 <= x < |mem| && x != dst ==> mem[x] == old(mem)[x]
      ensures forall j: Index ::
        mem[dst][j] == if mem[kernel][j].IsPresent() && User !in mem[kernel][j].flags then mem[kernel][j] else EMPTY
    {
      for i := 0 to 512
        invariant |mem| == |old(mem)| && forall x :: 0 <= x < |mem| && x != dst ==> mem[x] == old(mem)[x]
        invariant forall j: Index :: j < i ==>
          mem[dst][j] == if mem[kernel][j].IsPresent() && User !in mem[kernel][j].flags then mem[kernel][j] else EMPTY
        invariant forall j: Index :: j >= i ==> mem[dst][j] == EMPTY
      {
        var e := mem[kernel][i];
        if e.IsPresent() && User !in e.flags {
          SetEntry(dst, i, e.frame, e.flags);
        }
      }
    }

    /** Creates an address space that inherits the kernel's mappings. */
    method CreateUserPageTable() returns (r: Result<nat, MapError>)
      requires Valid()
      modifies this
      ensures Valid()
      ensures r.Err? ==> r.error == OutOfFrames && free == old(free) == {} && mem == old(mem)
                         && roots == old(roots) && users == old(users)
      ensures r.Ok? ==>
        && r.value !in old(roots) && roots == old(roots) + {r.value} && users == old(users) + {r.value}
        && SameTranslations(old(mem), mem, old(roots))
        && Inherited(old(mem), kernel, mem, r.value)
        && (forall s :: s in old(roots) ==> SameEntries(old(mem), mem, s))
      ensures free <= old(free) && |old(free)| <= |free| + 1 && pages == old(pages)
      ensures old(Audited()) ==> Audited()
    {
      hide Consistent, SameTranslations, Inherited, Accounted, SameEntries;
      ghost var base, free0 := mem, free;
      TableLiesInMemory(mem, roots, users, free, kernel, []);
      KernelHasNoUserEntry(mem, roots, users, free, kernel);
      var a := AllocFrame();
      if a.None? {
        return Err(OutOfFrames);
      }
      var dst := a.value;
      mem := mem[dst := ZEROED];
      InheritEntries(dst);
      ghost var k := Fork(base, mem, roots, users, free0, free, kernel, dst, map[dst := []]);
      KernelInherited(k, pages);
      roots := roots + {dst};
      users := users + {dst};
      return Ok(dst);
    }
  }
}
