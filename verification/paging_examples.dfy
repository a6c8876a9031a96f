/** Inputs at which promises about address spaces fail, and what happens there. */
module PagingExamples {
  import opened Wrappers
  import opened Paging
  import opened PagingFork
  import opened PagingCount
  import opened PagingAccounts
  import opened PagingTrace
  import opened PagingEffects
  import opened PagingOps
  import FrameBitmap

  /** Memory after boot, as `n` frames: a PML4, a PDPT and a PD in frames 0, 1
      and 2, a 2 MiB page at frame 512 and a 1 GiB page at frame 0x40000. */
  function BootFrame(f: nat): Table {
    seq(512, (i: nat) => BootEntry(f, i))
  }

  function BootEntry(f: nat, i: nat): Entry {
    if f == 0 && i == 0 then Entry(1, TABLE)
    else if f == 1 && i == 0 then Entry(2, TABLE)
    else if f == 1 && i == 1 then Entry(0x40000, TABLE + {Huge})
    else if f == 2 && i == 0 then Entry(512, TABLE + {Huge})
    else EMPTY
  }

  function Boot(n: nat): Memory {
    seq(n, (f: nat) => BootFrame(f))
  }

  /** As many frames as the frame allocator can have. */
  const FRAMES := FrameBitmap.MAX_FRAMES
  const FREE_FROM := 0x80000

  /** The frames of the first 2 MiB of the 1 GiB page belong to processes. */
  const PAGES := Interval(0x40000, 0x40200)

  lemma BootWord(n: nat, f: nat, i: Index)
    requires f < n
    ensures |Boot(n)| == n && Boot(n)[f][i] == BootEntry(f, i)
  {
  }

  lemma {:induction false} BootTables(n: nat, p: Path)
    requires n >= 3 && |p| <= 3
    ensures TableAt(Boot(n), 0, p) ==
            if p == [] then Some(0) else if p == [0] then Some(1) else if p == [0, 0] then Some(2) else None
  {
    hide Boot, BootFrame;
    BootWord(n, 0, 0);
    if p != [] {
      assert p == Up(p) + [Last(p)];
      BootTables(n, Up(p));
      var t := TableAt(Boot(n), 0, Up(p));
      if t.Some? { BootWord(n, t.value, Last(p)); }
    }
  }

  lemma BootEntries(n: nat, q: Path)
    requires n >= 3 && 1 <= |q| <= 4 && EntryAt(Boot(n), 0, q).Some?
    ensures var flags := EntryAt(Boot(n), 0, q).value.flags; User !in flags && UserOwned !in flags
  {
    hide TableAt;
    var t := TableAt(Boot(n), 0, Up(q)).value;
    var e := Boot(n)[t][Last(q)];
    assert e == BootEntry(t, Last(q));
  }

  /** The model's invariants hold of a memory that has tables. */
  lemma BootIsConsistent(n: nat, free: set<nat>)
    requires n >= 3 && forall x :: x in free ==> 3 <= x < n
    ensures Consistent(Boot(n), {0}, {}, free)
  {
    hide TableAt, EntryAt, BootFrame;
    forall p: Path | |p| <= 3
      ensures TableAt(Boot(n), 0, p) ==
              if p == [] then Some(0) else if p == [0] then Some(1) else if p == [0, 0] then Some(2) else None
    {
      BootTables(n, p);
    }
    forall q: Path | 1 <= |q| <= 4 && EntryAt(Boot(n), 0, q).Some?
      ensures User !in EntryAt(Boot(n), 0, q).value.flags
    {
      BootEntries(n, q);
    }
  }

  lemma BootIsAccounted(n: nat, free: set<nat>)
    requires n >= 0x40200 && forall x :: x in free ==> 0x40200 <= x < n
    ensures Accounted(Boot(n), {0}, free, PAGES)
  {
    hide TableAt, EntryAt, BootFrame;
    forall p: Path | |p| <= 3 && TableAt(Boot(n), 0, p).Some?
      ensures TableAt(Boot(n), 0, p).value !in PAGES
    {
      BootTables(n, p);
    }
    forall q: Path | 1 <= |q| <= 4 && EntryAt(Boot(n), 0, q).Some?
      ensures User !in EntryAt(Boot(n), 0, q).value.flags && UserOwned !in EntryAt(Boot(n), 0, q).value.flags
    {
      BootEntries(n, q);
    }
    BootSharesAll(n);
  }

  lemma BootSharesAll(n: nat)
    requires n >= 3
    ensures KernelHalfHasNoUserEntry(Boot(n), 0)
    ensures forall v: Page :: !CopiedPath(Boot(n), 0, v)
  {
    forall i: Index
      ensures User !in Boot(n)[0][i].flags
    {
      assert Boot(n)[0][i] == BootEntry(0, i);
    }
    forall v: Page
      ensures !CopiedPath(Boot(n), 0, v)
    {
      NothingCopied(Fork(Boot(n), Boot(n), {}, {}, {}, {}, 0, 0, map[]), v);
    }
  }

  lemma {:induction false} IntervalSize(a: nat, b: nat)
    requires a <= b
    ensures |Interval(a, b)| == b - a
    decreases b - a
  {
    if a == b {
      assert Interval(a, b) == {};
    } else {
      IntervalSize(a + 1, b);
      assert Interval(a, b) == {a} + Interval(a + 1, b);
    }
  }

  /** Boots, with almost all frames free, and creates a process. */
  method BootOne() returns (t: PageTables, root: nat)
    ensures fresh(t) && t.Valid() && t.Audited() && root in t.users && root in t.roots && t.pages == PAGES
    ensures t.kernel == 0 && 0 in t.roots && root != 0
    ensures Inherited(Boot(FRAMES), 0, t.mem, root) && SameEntries(Boot(FRAMES), t.mem, 0)
    ensures |t.free| >= FRAMES - FREE_FROM - 1 && forall x :: x in t.free ==> x >= FREE_FROM
  {
    hide Consistent, Accounted, Inherited, BootFrame, SameEntries;
    var free := Interval(FREE_FROM, FRAMES);
    BootIsConsistent(FRAMES, free);
    BootIsAccounted(FRAMES, free);
    IntervalSize(FREE_FROM, FRAMES);
    t := new PageTables(Boot(FRAMES), 0, free, PAGES);
    var r := t.CreateUserPageTable();
    root := r.value;
  }

  /** What the boot page tables say about page [0, 0, 0, j]. */
  lemma BootLargePage(n: nat, j: Index)
    requires n >= 3
    ensures HugeAt(Boot(n), 0, [0, 0, 0]) && Translate(Boot(n), 0, [0, 0, 0, j]) == Some(512 + j)
    ensures !HugeRoot(Boot(n), 0, 0)
  {
    hide TableAt, BootFrame;
    BootTables(n, [0]);
    BootTables(n, [0, 0]);
    BootWords(n);
    var v: Page := [0, 0, 0, j];
    assert v[..2] == [0, 0] && v[..3] == [0, 0, 0] && Up([0, 0, 0]) == [0, 0] && Up([0, 0]) == [0];
  }

  /** And about page [0, 1, i, j]. */
  lemma BootHugePage(n: nat, i: Index, j: Index)
    requires n >= 3
    ensures HugeAt(Boot(n), 0, [0, 1]) && Translate(Boot(n), 0, [0, 1, i, j]) == Some(0x40000 + i * 512 + j)
  {
    hide TableAt, BootFrame;
    BootTables(n, [0]);
    BootWords(n);
    var v: Page := [0, 1, i, j];
    assert v[..2] == [0, 1] && Up([0, 1]) == [0];
  }

  lemma BootWords(n: nat)
    requires n >= 3
    ensures Boot(n)[0][0] == Entry(1, TABLE) && Boot(n)[1][0] == Entry(2, TABLE)
    ensures Boot(n)[1][1] == Entry(0x40000, TABLE + {Huge}) && Boot(n)[2][0] == Entry(512, TABLE + {Huge})
  {
  }

  // ---- Splitting a huge page ----------------------------------------------

  /** A process asks for the one page at address 0, and its whole 2 MiB become
      accessible to it: page [0, 0, 0, 1] was not, and now is, and it is the
      kernel's. */
  method SplitExposesSiblings() returns (t: PageTables, root: nat, ghost before: Memory)
    ensures t.Valid() && root in t.users
    ensures !Accessible(before, root, [0, 0, 0, 1]) && Accessible(t.mem, root, [0, 0, 0, 1])
    ensures Translate(t.mem, root, [0, 0, 0, 1]) == Translate(Boot(FRAMES), 0, [0, 0, 0, 1]) == Some(513)
  {
    hide Consistent, Accounted, Inherited, BootFrame, Translate, Accessible, HugeRoot, OtherPagesSame, OffTheWaySame,
      AccessGrowsAtMost, AccessGrowsAtLeast, SharesHugePage, OthersSeeNothing, SameAccess, SameTranslations, MayMap,
      JoinedBecome, JoinedAlike, JoinedChange, FlagsTraced, SlotsTraced, SameEntries, TableAt, EntryAt, HugeAt, Boot,
      Interval;
    t, root := BootOne();
    before := t.mem;
    var page := t.AllocPage();
    ghost var w: Page := [0, 0, 0, 1];
    BootLargePage(FRAMES, 1);
    InheritedHugePage(Boot(FRAMES), 0, t.mem, root, [0, 0, 0], w);
    var r := t.MapPage(root, 0, page.value, {Present, Writable, User});
    assert PageOf(0) == [0, 0, 0, 0];
    SiblingGrows(before, t.mem, t.roots, root, [0, 0, 0], [0, 0, 0, 0], w);
  }

  lemma InheritedHugePage(mem: Memory, kernel: nat, mem': Memory, root: nat, q: Path, w: Page)
    requires Inherited(mem, kernel, mem', root) && 2 <= |q| <= 3 && q <= w && HugeAt(mem, kernel, q)
    requires !HugeRoot(mem, kernel, q[0])
    ensures HugeAt(mem', root, q) && !HugeRoot(mem', root, q[0])
    ensures !Accessible(mem', root, w) && Translate(mem', root, w) == Translate(mem, kernel, w)
  {
    assert PresentAt(mem', root, q) == PresentAt(mem, kernel, q);
    assert PresentAt(mem', root, [q[0]]) == PresentAt(mem, kernel, [q[0]]);
    assert Up([q[0]]) == [];
  }

  /** A page under the same huge page as `v` becomes accessible with it. */
  lemma SiblingGrows(mem: Memory, mem': Memory, roots: set<nat>, root: nat, q: Path, v: Page, w: Page)
    requires root in roots && w != v && AccessGrowsAtLeast(mem, mem', roots, root, v)
    requires OtherPagesSame(mem, mem', roots, root, v)
    requires 2 <= |q| <= 3 && q <= v && q <= w && HugeAt(mem, root, q)
    ensures Accessible(mem', root, w) && Translate(mem', root, w) == Translate(mem, root, w)
  {
    hide HugeAt, Accessible, Translate, SameSlot;
    assert v[..|q|] == q && w[..|q|] == q;
    assert SharesHugePage(mem, root, v, w);
  }

  // ---- Mapping without access ---------------------------------------------

  /** A process asks for an inaccessible page at address 2 MiB, below a PD that it
      shares with the kernel. The page appears in the kernel's address space too,
      and unmapping it in the process takes it out of the kernel's again. */
  method InaccessiblePageReachesKernel() returns (t: PageTables, root: nat, page: nat, ghost before: Memory, ghost mid: Memory)
    ensures t.Valid() && t.kernel in t.roots && root in t.users && root != t.kernel
    ensures Translate(before, t.kernel, [0, 0, 1, 0]) == None
    ensures Translate(mid, t.kernel, [0, 0, 1, 0]) == Some(page)
    ensures Translate(t.mem, t.kernel, [0, 0, 1, 0]) == None
  {
    hide Consistent, Accounted, Inherited, BootFrame, Translate, Accessible, HugeRoot, OtherPagesSame, OffTheWaySame,
      AccessGrowsAtMost, AccessGrowsAtLeast, OthersSeeNothing, SameAccess, SameTranslations, MayMap, JoinedBecome,
      JoinedAlike, JoinedChange, SlotsTraced, SameEntries, Joins, SlotBecomes, SlotChanges, TableAt, Owned;
    t, root := BootOne();
    before := t.mem;
    var p := t.AllocPage();
    page := p.value;
    var flags := {Present, UserOwned, NoExecute};
    ghost var v := PageOf(0x20_0000);
    assert v == [0, 0, 1, 0];
    KernelJoins(before, root, flags);
    var m := t.MapPage(root, 0x20_0000, page, flags);
    mid := t.mem;
    JoinedPage(before, mid, t.roots, 0, root, v, flags, page);
    var u := t.UnmapPage(root, 0x20_0000);
    SlotPage(mid, t.mem, t.roots, 0, root, v);
  }

  /** What the boot page tables say on the way to page [0, 0, 1, 0]. */
  lemma BootGap(n: nat)
    requires n >= 3
    ensures PresentAt(Boot(n), 0, [0]) == Some(Entry(1, TABLE)) && PresentAt(Boot(n), 0, [0, 0]) == Some(Entry(2, TABLE))
    ensures PresentAt(Boot(n), 0, [0, 0, 1]) == None && Translate(Boot(n), 0, [0, 0, 1, 0]) == None
  {
    hide TableAt, BootFrame;
    BootTables(n, [0, 0, 1]);
    BootTables(n, [0, 0]);
    BootTables(n, [0]);
    BootTables(n, []);
    BootWords(n);
    assert Up([0]) == [] && Up([0, 0]) == [0] && Up([0, 0, 1]) == [0, 0] && Up([0, 0, 1, 0]) == [0, 0, 1];
    var v: Page := [0, 0, 1, 0];
    assert v[..2] == [0, 0] && v[..3] == [0, 0, 1];
    assert Boot(n)[2][1] == BootEntry(2, 1) by { BootWord(n, 2, 1); }
  }

  lemma KernelJoins(mem: Memory, root: nat, flags: set<Flag>)
    requires Inherited(Boot(FRAMES), 0, mem, root) && SameEntries(Boot(FRAMES), mem, 0) && User !in flags
    ensures Joins(mem, 0, [0, 0, 1, 0], root, [0, 0, 1, 0], flags) && !HugeRoot(mem, root, 0)
    ensures Translate(mem, 0, [0, 0, 1, 0]) == Translate(mem, root, [0, 0, 1, 0]) == None
  {
    hide TableAt, EntryAt, Boot, Translate, HugeRoot;
    var v: Page := [0, 0, 1, 0];
    BootGap(FRAMES);
    SameTranslation(Boot(FRAMES), mem, 0, v);
    InheritedTranslates(Boot(FRAMES), 0, mem, root, v);
    assert v[..1] == [0] && v[..2] == [0, 0] && v[..3] == [0, 0, 1];
    assert PresentAt(mem, root, [0, 0, 1]) == None && PresentAt(mem, root, [0, 0]) == Some(Entry(2, TABLE));
    assert EntryAt(mem, 0, [0, 0]) == EntryAt(Boot(FRAMES), 0, [0, 0]);
    PointerIsTable(mem, root, [0, 0]);
    PointerIsTable(mem, 0, [0, 0]);
    assert Anchor(mem, root, v, TABLE, 2) == 2;
    assert Anchor(mem, root, v, TABLE, 3) == 2;
    RootIsNotHuge(mem, root, TABLE);
  }

  lemma RootIsNotHuge(mem: Memory, root: nat, flags: set<Flag>)
    requires PresentAt(mem, root, [0]) == Some(Entry(1, flags)) && Huge !in flags
    ensures !HugeRoot(mem, root, 0)
  {
    assert Up([0]) == [];
  }

  lemma SameTranslation(mem: Memory, mem': Memory, r: nat, w: Page)
    requires SameEntries(mem, mem', r)
    ensures Translate(mem', r, w) == Translate(mem, r, w)
  {
    hide EntryAt;
  }

  lemma JoinedPage(mem: Memory, mem': Memory, roots: set<nat>, s: nat, root: nat, v: Page, flags: set<Flag>, now: nat)
    requires s in roots && JoinedBecome(mem, mem', roots, root, v, flags, Some(now)) && Joins(mem, s, v, root, v, flags)
    requires SlotsTraced(mem, mem', roots, root, v, FlagsAbove(flags))
    ensures Translate(mem', s, v) == Some(now) && SameSlot(mem', s, v, root, v)
  {
    hide Translate, Meets, SameSlot;
  }

  lemma SlotPage(mem: Memory, mem': Memory, roots: set<nat>, s: nat, root: nat, v: Page)
    requires s in roots && SlotBecomes(mem, mem', roots, root, v, None) && SameSlot(mem, s, v, root, v)
    ensures Translate(mem', s, v) == None
  {
    hide Translate, SameSlot;
  }

  // ---- Forking ------------------------------------------------------------

  /** A process asks for the one page at address 1 GiB, in a huge page of the
      kernel, and may now access page [0, 1, 1, 0] as well. */
  method MapInLargePage() returns (t: PageTables, root: nat)
    ensures fresh(t) && t.Valid() && t.Audited() && root in t.users && root in t.roots
    ensures Accessible(t.mem, root, [0, 1, 1, 0]) && Translate(t.mem, root, [0, 1, 1, 0]) == Some(0x40200)
    ensures 0x40200 !in t.pages && |t.free| >= ForkFrames(t.mem, root)
  {
    hide Consistent, Accounted, Inherited, BootFrame, Translate, Accessible, HugeRoot, OtherPagesSame, OffTheWaySame,
      AccessGrowsAtMost, AccessGrowsAtLeast, SharesHugePage, OthersSeeNothing, SameAccess, SameTranslations, MayMap,
      Interval, JoinedBecome, JoinedAlike, JoinedChange, FlagsTraced, SlotsTraced, SameEntries, ForkFrames;
    t, root := BootOne();
    ghost var boot, v, w: Page := t.mem, PageOf(0x4000_0000), [0, 1, 1, 0];
    assert v == [0, 1, 0, 0];
    BootHugePage(FRAMES, 1, 0);
    BootLargePage(FRAMES, 0);
    InheritedHugePage(Boot(FRAMES), 0, boot, root, [0, 1], w);
    var page := t.AllocPage();
    MayMapFirstPage(boot, t.users, t.pages, root, page.value);
    var m := t.MapPage(root, 0x4000_0000, page.value, {Present, Writable, User});
    SiblingGrows(boot, t.mem, t.roots, root, [0, 1], v, w);
    OneDirectoryProcess(boot, t.mem, root, v);
    NotInPages(page.value);
  }

  /** When it forks, that page is not copied but shared with the child. */
  method ForkSharesHugePage() returns (t: PageTables, parent: nat, child: nat)
    ensures t.Valid() && parent in t.users && child in t.users && parent != child
    ensures Accessible(t.mem, parent, [0, 1, 1, 0]) && Accessible(t.mem, child, [0, 1, 1, 0])
    ensures Translate(t.mem, parent, [0, 1, 1, 0]) == Translate(t.mem, child, [0, 1, 1, 0]) == Some(0x40200)
  {
    hide Consistent, Accounted, Translate, Accessible, SameTranslations, CopiedPagesInUse, PagesDisjoint, Fork.Valid,
      CopiedPages, ForkFrames;
    t, parent := MapInLargePage();
    AccountedMeans(t.mem, t.roots, t.free, t.pages, parent);
    ghost var base, roots, users, free, pages := t.mem, t.roots, t.users, t.free, t.pages;
    var c, owner := t.CloneUserPageTable(parent);
    child := c.value;
    NotAPageIsShared(Fork(base, t.mem, roots, users, free, t.free, parent, child, owner), pages, [0, 1, 1, 0]);
  }

  lemma NotInPages(page: nat)
    requires page >= FREE_FROM
    ensures 0x40200 !in PAGES + {page}
  {
  }

  /** Below the root only one PD belongs to the process. */
  lemma OneDirectoryProcess(mem: Memory, mem': Memory, root: nat, v: Page)
    requires Inherited(Boot(FRAMES), 0, mem, root) && OffTheWaySame(mem, mem', root, v)
    ensures ForkFrames(mem', root) <= 262659
  {
    hide TableAt, EntryAt, HugeAt, ForkFrames, BootFrame;
    forall q: Path | 1 <= |q| <= 2 && !(q <= v)
      ensures CostsNothing(mem', root, q)
    {
      assert PresentAt(mem, root, q) == PresentAt(Boot(FRAMES), 0, q);
      if PresentAt(Boot(FRAMES), 0, q).Some? { BootEntries(FRAMES, q); }
    }
    OneDirectoryCosts(mem', root, v);
  }

  /** The first page of the 1 GiB page may be mapped for a process. */
  lemma MayMapFirstPage(mem: Memory, users: set<nat>, pages: set<nat>, root: nat, page: nat)
    requires Inherited(Boot(FRAMES), 0, mem, root) && pages == PAGES + {page}
    ensures MayMap(mem, users, pages, root, [0, 1, 0, 0], Entry(page, {Present, Writable, User}))
  {
    hide Inherited, HugeAt, BootFrame, Translate, Accessible;
    var v: Page := [0, 1, 0, 0];
    forall w: Page | w[..3] == v[..3]
      ensures Translate(mem, root, w).Some? && Translate(mem, root, w).value in pages
    {
      assert w == [0, 1, 0, w[3]] by { assert w[0] == w[..3][0] && w[1] == w[..3][1] && w[2] == w[..3][2]; }
      BootHugePage(FRAMES, 0, w[3]);
      InheritedTranslates(Boot(FRAMES), 0, mem, root, w);
    }
  }

  lemma InheritedTranslates(mem: Memory, kernel: nat, mem': Memory, root: nat, w: Page)
    requires Inherited(mem, kernel, mem', root)
    ensures Translate(mem', root, w) == Translate(mem, kernel, w)
  {
  }

  /** A page that lies in no frame given to processes is not copied. */
  lemma NotAPageIsShared(k: Fork, pages: set<nat>, v: Page)
    requires k.Valid() && Accounted(k.base, k.roots, k.free0, pages) && Accessible(k.base, k.src, v)
    requires Translate(k.base, k.src, v).Some? && Translate(k.base, k.src, v).value !in pages
    ensures Translate(k.mem, k.dst, v) == Translate(k.mem, k.src, v) == Translate(k.base, k.src, v)
    ensures Accessible(k.mem, k.dst, v) && Accessible(k.mem, k.src, v)
  {
    hide Consistent, ClonedRoot;
    SourceIsRoot(k);
    assert Forkable(k.base, pages, k.src);
    if CopiedPath(k.base, k.src, v) {
      CopiedTranslates(k.base, k.src, v);
    }
    SharedExactlyUnlessCopied(k, v);
    k.Access(v, User);
    SourceStillTranslates(k, v);
    OthersSeeSameEntries(k, k.src);
    var w, w' := Walk(k.base, k.src, v), Walk(k.mem, k.src, v);
    assert w == w';
  }

  /** Memory of five frames in which a process, whose PML4 is frame 0, has one
      page: [1, 0, 0, 0], mapped without access as its first page there. */
  function InaccessibleEntry(f: nat, i: nat): Entry {
    if f == 0 && i == 1 then Entry(1, TABLE)
    else if f == 1 && i == 0 then Entry(2, TABLE)
    else if f == 2 && i == 0 then Entry(3, TABLE)
    else if f == 3 && i == 0 then Entry(4, {Present, UserOwned, NoExecute})
    else EMPTY
  }

  function InaccessibleFrame(f: nat): Table {
    seq(512, (i: nat) => InaccessibleEntry(f, i))
  }

  function InaccessibleMemory(): Memory {
    seq(6, (f: nat) => InaccessibleFrame(f))
  }

  lemma InaccessibleTables(p: Path)
    requires |p| <= 3
    ensures TableAt(InaccessibleMemory(), 0, p) ==
            if p == [] then Some(0) else if p == [1] then Some(1) else if p == [1, 0] then Some(2)
            else if p == [1, 0, 0] then Some(3) else None
    ensures Private(InaccessibleMemory(), 0, p) ==> p == []
  {
    if p != [] {
      assert p == Up(p) + [Last(p)];
      InaccessibleTables(Up(p));
      assert forall f, i: Index :: 0 <= f < 6 ==> InaccessibleMemory()[f][i] == InaccessibleEntry(f, i);
    }
  }

  /** The process's fork, whose PML4 is frame 5. */
  function InaccessibleFork(): Fork {
    var base := InaccessibleMemory();
    Fork(base, base[5 := base[0]], {0}, {0}, {5}, {}, 0, 5, map[5 := []])
  }

  lemma InaccessibleWords()
    ensures forall f, i: Index :: 0 <= f < 6 ==> InaccessibleMemory()[f][i] == InaccessibleEntry(f, i)
  {
  }

  lemma InaccessibleEntryAt(q: Path)
    requires 1 <= |q| <= 4 && EntryAt(InaccessibleMemory(), 0, q).Some?
    ensures User !in EntryAt(InaccessibleMemory(), 0, q).value.flags
  {
    hide TableAt, InaccessibleFrame;
    InaccessibleWords();
    var f := TableAt(InaccessibleMemory(), 0, Up(q)).value;
    assert InaccessibleMemory()[f][Last(q)] == InaccessibleEntry(f, Last(q));
  }

  lemma InaccessibleIsConsistent()
    ensures Consistent(InaccessibleMemory(), {0}, {0}, {5})
  {
    hide TableAt, EntryAt, Private, InaccessibleFrame;
    var base := InaccessibleMemory();
    forall p: Path | |p| <= 3
      ensures TableAt(base, 0, p) ==
              if p == [] then Some(0) else if p == [1] then Some(1) else if p == [1, 0] then Some(2)
              else if p == [1, 0, 0] then Some(3) else None
      ensures Private(base, 0, p) ==> p == []
    {
      InaccessibleTables(p);
    }
    forall q: Path | 1 <= |q| <= 4 && EntryAt(base, 0, q).Some?
      ensures User !in EntryAt(base, 0, q).value.flags
    {
      InaccessibleEntryAt(q);
    }
  }

  lemma InaccessibleForkIsValid()
    ensures InaccessibleFork().Valid()
  {
    hide TableAt, EntryAt, InaccessibleFrame, Consistent, CopiedPath;
    var base := InaccessibleMemory();
    InaccessibleIsConsistent();
    InaccessibleWords();
    forall v: Page
      ensures !CopiedPath(base, 0, v)
    {
      NothingCopied(Fork(base, base, {}, {}, {}, {}, 0, 0, map[]), v);
    }
  }

  /** The page is marked as the process's own, and a fork shares it all the same:
      the tables above it were made without the user bit. */
  lemma InaccessiblePageIsShared()
    ensures
      var k, v: Page := InaccessibleFork(), [1, 0, 0, 0];
      && k.Valid() && EntryAt(k.base, k.src, v) == Some(Entry(4, {Present, UserOwned, NoExecute}))
      && Translate(k.mem, k.dst, v) == Translate(k.base, k.src, v) == Some(4)
  {
    hide Fork.Valid, TableAt, InaccessibleFrame;
    var k, v: Page := InaccessibleFork(), [1, 0, 0, 0];
    InaccessibleForkIsValid();
    InaccessibleWords();
    InaccessibleTables([1, 0, 0]);
    InaccessibleTables([1, 0]);
    InaccessibleTables([1]);
    InaccessibleTables([]);
    assert v[..1] == [1] && v[..2] == [1, 0] && v[..3] == [1, 0, 0] && Up(v) == [1, 0, 0];
    assert Up([1, 0, 0]) == [1, 0] && Up([1, 0]) == [1] && Up([1]) == [];
    MarkedPageSharedExactly(k, v);
  }
}
