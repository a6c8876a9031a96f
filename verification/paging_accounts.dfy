/**
 Who has which frame: what makes an address space fit to be forked, and why
 every operation on page tables keeps it so.
 */
module PagingAccounts {
  import opened Wrappers
  import opened Paging
  import opened PagingGraft
  import opened PagingLeaf
  import opened PagingFork

  /** The mark of a process's own page is set in page-table entries only, and
      there only in tables private to the process. */
  ghost predicate MarksArePrivate(mem: Memory, root: nat) {
    forall q: Path :: 1 <= |q| <= 4 && IsMarked(EntryAt(mem, root, q)) ==> |q| == 4 && Private(mem, root, Up(q))
  }

  predicate IsMarked(e: Option<Entry>) {
    e.Some? && e.value.IsPresent() && UserOwned in e.value.flags
  }

  /** The pages that a fork copies lie in frames given to processes. */
  ghost predicate CopiesPages(mem: Memory, pages: set<nat>, root: nat) {
    forall v: Page :: CopiedPath(mem, root, v) ==> EntryAt(mem, root, v).value.frame in pages
  }

  /** Address space `root` is fit to be forked. */
  ghost predicate Forkable(mem: Memory, pages: set<nat>, root: nat) {
    KernelHalfHasNoUserEntry(mem, root) && MarksArePrivate(mem, root) && CopiesPages(mem, pages, root)
  }

  /** Frames given to processes lie in memory, are not free and hold no table. */
  ghost predicate PagesApart(mem: Memory, roots: set<nat>, free: set<nat>, pages: set<nat>) {
    && pages !! free && (forall x :: x in pages ==> x < |mem|)
    && forall r, p: Path :: r in roots && |p| <= 3 && TableAt(mem, r, p).Some? ==> TableAt(mem, r, p).value !in pages
  }

  /** Every frame and every address space is accounted for. */
  ghost predicate Accounted(mem: Memory, roots: set<nat>, free: set<nat>, pages: set<nat>) {
    PagesApart(mem, roots, free, pages) && forall r :: r in roots ==> Forkable(mem, pages, r)
  }

  /** What a fork asks for, and what isolation asks for, follows. */
  lemma AccountedMeans(mem: Memory, roots: set<nat>, free: set<nat>, pages: set<nat>, root: nat)
    requires Accounted(mem, roots, free, pages) && root in roots
    ensures KernelHalfHasNoUserEntry(mem, root)
    ensures CopiedPagesInUse(mem, free, root) && CopiedPagesHoldNoTable(mem, root)
  {
    assert Forkable(mem, pages, root);
  }

  /** The copied paths of a page: every entry above it is a user pointer. */
  lemma {:induction false} CopiedIsPrivate(mem: Memory, root: nat, q: Path)
    requires MarksArePrivate(mem, root) && |q| <= 3 && CopiedPath(mem, root, q)
    ensures Private(mem, root, q)
    decreases |q|
  {
    if q != [] { CopiedIsPrivate(mem, root, Up(q)); }
  }

  // ---- A new table --------------------------------------------------------

  /** A new table neither marks entries nor makes upper-half user entries, and
      the pages that it exposes are frames given to processes. */
  ghost predicate Harmless(g: Graft, pages: set<nat>)
    requires g.Valid()
  {
    && (g.p == [] && User in g.e.flags ==> g.i < 256)
    && (UserOwned in g.e.flags ==> PointsToTable(|g.p|, g.Old().value) && UserOwned in g.Old().value.flags)
    && (MapsHuge(|g.p|, g.Old().value) ==> forall j: Index ::
          && (UserOwned in g.fill[j].flags ==> UserOwned in g.Old().value.flags)
          && (|g.p| == 1 ==> Huge in g.fill[j].flags))
    && (|g.p| == 2 && MapsHuge(2, g.Old().value) && User in g.e.flags ==> LargePageIn(g.Old().value.frame, pages))
  }

  /** All 512 frames of the 2 MiB page at `frame`. */
  ghost predicate LargePageIn(frame: nat, pages: set<nat>) {
    forall x :: frame <= x < frame + 512 ==> x in pages
  }

  lemma GraftEntry(g: Graft, r: nat, q: Path)
    requires g.Valid() && r in g.roots && 1 <= |q| <= 4
    ensures !g.Through(r, q) ==> EntryAt(g.After(), r, q) == EntryAt(g.mem, r, q)
    ensures g.Through(r, q) && |q| == |g.p| + 1 ==>
              EntryAt(g.After(), r, q) == Some(g.e) && EntryAt(g.mem, r, q) == g.Old()
    ensures g.Through(r, q) && |q| == |g.p| + 2 ==>
              && EntryAt(g.After(), r, q) == Some(g.fill[q[|g.p| + 1]])
              && (PointsToTable(|g.p|, g.Old().value) ==> EntryAt(g.mem, r, q) == Some(g.fill[q[|g.p| + 1]]))
    ensures g.Through(r, q) && |q| > |g.p| + 2 ==> EntryAt(g.After(), r, q) == EntryAt(g.mem, r, q)
  {
    g.Entries(r, q);
    if g.Through(r, q) {
      if |q| == |g.p| + 1 {
        g.OldEntry(r, q);
      } else if |q| == |g.p| + 2 {
        var up := Up(q);
        assert up[..|g.p|] == q[..|g.p|];
        g.OldEntry(r, up);
      }
    }
  }

  /** A path through the new table goes through the entry that was redirected. */
  lemma ThroughUp(g: Graft, r: nat, q: Path)
    requires g.Valid() && |q| > |g.p| + 1
    ensures g.Through(r, Up(q)) == g.Through(r, q)
  {
    assert Up(q)[..|g.p|] == q[..|g.p|];
  }

  /** Below the new table nothing is marked. */
  lemma NothingMarkedBelow(g: Graft, pages: set<nat>, r: nat, q: Path)
    requires g.Valid() && Harmless(g, pages) && r in g.roots && MarksArePrivate(g.mem, r)
    requires 1 <= |q| <= 4 && g.Through(r, q)
    ensures !IsMarked(EntryAt(g.After(), r, q))
  {
    hide Consistent, TableAt, EntryAt;
    GraftEntry(g, r, q);
    if |q| > |g.p| + 1 {
      ThroughUp(g, r, q);
      g.Privacy(r, Up(q));
      GraftEntry(g, r, q[..|g.p| + 1]);
      assert q[..|g.p| + 1][..|g.p|] == q[..|g.p|];
    }
  }

  lemma GraftKeepsMarks(g: Graft, pages: set<nat>, r: nat)
    requires g.Valid() && Harmless(g, pages) && r in g.roots && MarksArePrivate(g.mem, r)
    ensures MarksArePrivate(g.After(), r)
  {
    hide Consistent, TableAt, EntryAt, Harmless, Graft.Through;
    forall q: Path | 1 <= |q| <= 4 && IsMarked(EntryAt(g.After(), r, q))
      ensures |q| == 4 && Private(g.After(), r, Up(q))
    {
      if g.Through(r, q) {
        NothingMarkedBelow(g, pages, r, q);
      } else {
        GraftEntry(g, r, q);
        StillPrivate(g, r, q);
      }
    }
  }

  lemma StillPrivate(g: Graft, r: nat, q: Path)
    requires g.Valid() && r in g.roots && 1 <= |q| <= 4 && !g.Through(r, q)
    ensures Private(g.After(), r, Up(q)) == Private(g.mem, r, Up(q))
  {
    hide Consistent, TableAt, EntryAt, Private;
    g.Privacy(r, Up(q));
    if |q| > |g.p| + 1 { ThroughUp(g, r, q); }
  }

  /** The pages that a fork would copy after a new table has been hung. */
  lemma {:induction false} GraftCopies(g: Graft, pages: set<nat>, r: nat, q: Path)
    requires g.Valid() && Harmless(g, pages) && r in g.roots && MarksArePrivate(g.mem, r) && |q| <= 4
    ensures !g.Through(r, q) ==> CopiedPath(g.After(), r, q) == CopiedPath(g.mem, r, q)
    ensures g.Through(r, q) && |q| > |g.p| + 1 && CopiedPath(g.After(), r, q) ==>
              |q| == |g.p| + 2 == 4 && MapsHuge(2, g.Old().value) && User in g.e.flags
    decreases |q|
  {
    hide Consistent, TableAt, EntryAt, Harmless, Graft.Through;
    if q != [] {
      var up := Up(q);
      GraftCopies(g, pages, r, up);
      GraftEntry(g, r, q);
      if |q| > |g.p| + 1 { ThroughUp(g, r, q); }
      if |up| <= |g.p| { NotThrough(g, r, up); }
      if g.Through(r, q) && |q| > |g.p| + 1 {
        if |q| == |g.p| + 2 { BelowNewTable(g, pages, r, q); }
      }
    }
  }

  lemma NotThrough(g: Graft, r: nat, q: Path)
    requires g.Valid() && |q| <= |g.p|
    ensures !g.Through(r, q)
  {
  }

  /** Below the new table only the entries of a split 2 MiB page are copied. */
  lemma BelowNewTable(g: Graft, pages: set<nat>, r: nat, q: Path)
    requires g.Valid() && Harmless(g, pages) && r in g.roots && MarksArePrivate(g.mem, r)
    requires |q| == |g.p| + 2 && g.Through(r, q)
    ensures
      var e := EntryAt(g.After(), r, q);
      && e == Some(g.fill[q[|g.p| + 1]])
      && (IsCopied(e.value) ==> |g.p| == 2 && MapsHuge(2, g.Old().value) && User in g.e.flags)
  {
    hide Consistent, TableAt, EntryAt;
    GraftEntry(g, r, q);
    NothingMarkedBelow(g, pages, r, q);
    g.FillHasNoUserPointer(q[|g.p| + 1]);
  }

  lemma GraftKeepsForkable(g: Graft, pages: set<nat>, r: nat)
    requires g.Valid() && Harmless(g, pages) && r in g.roots && Forkable(g.mem, pages, r)
    ensures Forkable(g.After(), pages, r)
  {
    hide Consistent, TableAt, EntryAt, Harmless, Graft.Through, CopiedPath, MarksArePrivate;
    GraftKeepsMarks(g, pages, r);
    GraftKeepsKernelHalf(g, pages, r);
    forall v: Page | CopiedPath(g.After(), r, v)
      ensures EntryAt(g.After(), r, v).Some? && EntryAt(g.After(), r, v).value.frame in pages
    {
      GraftCopies(g, pages, r, v);
      GraftEntry(g, r, v);
      CopiedHasEntry(g.mem, r, v);
      CopiedHasEntry(g.After(), r, v);
      if g.Through(r, v) {
        DeepEnough(g, r, v);
        BelowNewTable(g, pages, r, v);
        ExposedInPages(g, pages, v[|g.p| + 1]);
      }
    }
  }

  lemma CopiedHasEntry(mem: Memory, r: nat, v: Page)
    ensures CopiedPath(mem, r, v) ==> EntryAt(mem, r, v).Some?
  {
  }

  lemma DeepEnough(g: Graft, r: nat, v: Page)
    requires g.Valid() && g.Through(r, v)
    ensures |v| > |g.p| + 1
  {
  }

  lemma ExposedInPages(g: Graft, pages: set<nat>, j: Index)
    requires g.Valid() && Harmless(g, pages) && |g.p| == 2 && MapsHuge(2, g.Old().value) && User in g.e.flags
    ensures g.fill[j].frame in pages
  {
  }

  lemma GraftKeepsKernelHalf(g: Graft, pages: set<nat>, r: nat)
    requires g.Valid() && Harmless(g, pages) && r in g.roots && KernelHalfHasNoUserEntry(g.mem, r)
    ensures KernelHalfHasNoUserEntry(g.After(), r)
  {
    forall i: Index | i >= 256 && g.After()[r][i].IsPresent()
      ensures User !in g.After()[r][i].flags
    {
      assert Up([i]) == [] && TableAt(g.mem, r, []) == Some(r) && TableAt(g.After(), r, []) == Some(r);
      assert EntryAt(g.mem, r, [i]) == Some(g.mem[r][i]) && EntryAt(g.After(), r, [i]) == Some(g.After()[r][i]);
      GraftEntry(g, r, [i]);
    }
  }

  lemma GraftKeepsSize(g: Graft)
    requires g.Valid()
    ensures |g.After()| == |g.mem|
  {
  }

  lemma GraftKeepsAccounts(g: Graft, pages: set<nat>)
    requires g.Valid() && Harmless(g, pages) && Accounted(g.mem, g.roots, g.free, pages)
    ensures Accounted(g.After(), g.roots, g.free - {g.e.frame}, pages)
  {
    hide Consistent, Harmless, Forkable;
    forall r, q: Path | r in g.roots && |q| <= 3 && TableAt(g.After(), r, q).Some?
      ensures TableAt(g.After(), r, q).value !in pages
    {
      g.Tables(r, q);
    }
    forall r | r in g.roots
      ensures Forkable(g.After(), pages, r)
    {
      GraftKeepsForkable(g, pages, r);
    }
    GraftKeepsSize(g);
    assert PagesApart(g.After(), g.roots, g.free - {g.e.frame}, pages);
  }

  // ---- A new leaf ---------------------------------------------------------

  /** A leaf that a fork would copy maps a frame given to processes, and a mark
      is set in a private table only. */
  ghost predicate HarmlessLeaf(write: LeafWrite, pages: set<nat>) {
    && (IsCopied(write.e) ==> write.e.frame in pages)
    && (IsMarked(Some(write.e)) ==> write.root in write.users && Private(write.mem, write.root, write.v[..3]))
  }

  lemma LeafKeepsSize(write: LeafWrite)
    requires write.Valid()
    ensures |write.After()| == |write.mem|
  {
  }

  lemma LeafKeepsAccounts(write: LeafWrite, pages: set<nat>)
    requires write.Valid() && HarmlessLeaf(write, pages) && Accounted(write.mem, write.roots, write.free, pages)
    ensures Accounted(write.After(), write.roots, write.free, pages)
  {
    hide Consistent, HarmlessLeaf, Forkable;
    forall r, q: Path | r in write.roots && |q| <= 3 && TableAt(write.After(), r, q).Some?
      ensures TableAt(write.After(), r, q).value !in pages
    {
      write.Tables(r, q);
    }
    forall r | r in write.roots
      ensures Forkable(write.After(), pages, r)
    {
      LeafKeepsForkable(write, pages, r);
    }
    LeafKeepsSize(write);
    assert PagesApart(write.After(), write.roots, write.free, pages);
  }

  lemma LeafEntry(write: LeafWrite, r: nat, q: Path)
    requires write.Valid() && r in write.roots && 1 <= |q| <= 4
    ensures EntryAt(write.After(), r, q) ==
            if |q| == 4 && write.SharesSlot(r, q) then Some(write.e) else EntryAt(write.mem, r, q)
    ensures Private(write.After(), r, Up(q)) == Private(write.mem, r, Up(q))
  {
    write.Tables(r, Up(q));
    if |q| == 4 { write.Translations(r, q); } else { write.Tables(r, q); }
  }

  lemma {:induction false} LeafCopies(write: LeafWrite, r: nat, q: Path)
    requires write.Valid() && r in write.roots && |q| <= 4
    ensures |q| <= 3 || !write.SharesSlot(r, q) ==> CopiedPath(write.After(), r, q) == CopiedPath(write.mem, r, q)
    ensures |q| == 4 && write.SharesSlot(r, q) && CopiedPath(write.After(), r, q) ==> IsCopied(write.e)
    decreases |q|
  {
    hide Consistent, TableAt, EntryAt, LeafWrite.SharesSlot;
    if q != [] {
      LeafCopies(write, r, Up(q));
      LeafEntry(write, r, q);
    }
  }

  lemma LeafKeepsForkable(write: LeafWrite, pages: set<nat>, r: nat)
    requires write.Valid() && HarmlessLeaf(write, pages) && r in write.roots && Forkable(write.mem, pages, r)
    ensures Forkable(write.After(), pages, r)
  {
    hide Consistent, TableAt, EntryAt, LeafWrite.SharesSlot, CopiedPath, Private;
    forall q: Path | 1 <= |q| <= 4 && IsMarked(EntryAt(write.After(), r, q))
      ensures |q| == 4 && Private(write.After(), r, Up(q))
    {
      LeafEntry(write, r, q);
      if |q| == 4 && write.SharesSlot(r, q) {
        SlotIsPrivate(write, r, q);
      }
    }
    forall v: Page | CopiedPath(write.After(), r, v)
      ensures EntryAt(write.After(), r, v).Some? && EntryAt(write.After(), r, v).value.frame in pages
    {
      LeafEntry(write, r, v);
      LeafCopies(write, r, v);
      CopiedHasEntry(write.mem, r, v);
    }
    LeafKeepsKernelHalf(write, r);
  }

  lemma SlotIsPrivate(write: LeafWrite, r: nat, w: Page)
    requires write.Valid() && r in write.roots && write.SharesSlot(r, w)
    requires write.root in write.users && Private(write.mem, write.root, write.v[..3])
    ensures Private(write.mem, r, Up(w))
  {
    write.PrivateSlot(r, w);
    assert Up(w) == w[..3];
  }

  lemma LeafKeepsKernelHalf(write: LeafWrite, r: nat)
    requires write.Valid() && r in write.roots && KernelHalfHasNoUserEntry(write.mem, r)
    ensures KernelHalfHasNoUserEntry(write.After(), r)
  {
    forall i: Index | i >= 256 && write.After()[r][i].IsPresent()
      ensures User !in write.After()[r][i].flags
    {
      assert Up([i]) == [] && TableAt(write.mem, r, []) == Some(r) && TableAt(write.After(), r, []) == Some(r);
      assert EntryAt(write.mem, r, [i]) == Some(write.mem[r][i]);
      assert EntryAt(write.After(), r, [i]) == Some(write.After()[r][i]);
      LeafEntry(write, r, [i]);
    }
  }

  // ---- Memory that nobody looks at ----------------------------------------

  /** Two memories in which every walk from `r` meets the same entries. */
  ghost predicate SameEntries(mem: Memory, mem': Memory, r: nat) {
    forall q: Path :: 1 <= |q| <= 4 ==> EntryAt(mem', r, q) == EntryAt(mem, r, q)
  }

  lemma {:induction false} SameEntriesSamePaths(mem: Memory, mem': Memory, r: nat, q: Path)
    requires SameEntries(mem, mem', r) && |q| <= 4
    ensures CopiedPath(mem', r, q) == CopiedPath(mem, r, q)
    ensures |q| <= 3 ==> Private(mem', r, q) == Private(mem, r, q) && TableAt(mem', r, q) == TableAt(mem, r, q)
    decreases |q|
  {
    if q != [] {
      SameEntriesSamePaths(mem, mem', r, Up(q));
      assert EntryAt(mem', r, q) == EntryAt(mem, r, q);
    }
  }

  lemma SameEntriesKeepForkable(mem: Memory, mem': Memory, pages: set<nat>, pages': set<nat>, r: nat)
    requires SameEntries(mem, mem', r) && Forkable(mem, pages, r) && pages <= pages' && r < |mem'|
    ensures Forkable(mem', pages', r)
  {
    hide CopiedPath, Private;
    forall q: Path | |q| <= 4
      ensures CopiedPath(mem', r, q) == CopiedPath(mem, r, q)
      ensures |q| <= 3 ==> Private(mem', r, q) == Private(mem, r, q)
    {
      SameEntriesSamePaths(mem, mem', r, q);
    }
    forall v: Page | CopiedPath(mem', r, v)
      ensures EntryAt(mem', r, v).Some? && EntryAt(mem', r, v).value.frame in pages'
    {
      CopiedHasEntry(mem, r, v);
    }
    forall i: Index
      ensures mem'[r][i] == mem[r][i]
    {
      assert Up([i]) == [] && TableAt(mem, r, []) == Some(r) && TableAt(mem', r, []) == Some(r);
      assert EntryAt(mem', r, [i]) == EntryAt(mem, r, [i]);
    }
  }

  /** Nothing changed for anybody: the accounts stand, with fewer frames free
      and perhaps more given to processes. */
  lemma SameEntriesKeepAccounts(mem: Memory, mem': Memory, roots: set<nat>, free: set<nat>, free': set<nat>, pages: set<nat>)
    requires Accounted(mem, roots, free, pages) && free' <= free && |mem'| == |mem|
    requires forall r :: r in roots ==> SameEntries(mem, mem', r)
    ensures Accounted(mem', roots, free', pages)
  {
    hide Forkable, SameEntries;
    forall r, q: Path | r in roots && |q| <= 3 && TableAt(mem', r, q).Some?
      ensures TableAt(mem', r, q).value !in pages
    {
      SameEntriesSamePaths(mem, mem', r, q);
    }
    forall r | r in roots
      ensures Forkable(mem', pages, r)
    {
      RootInMemory(mem, pages, r);
      SameEntriesKeepForkable(mem, mem', pages, pages, r);
    }
  }

  lemma RootInMemory(mem: Memory, pages: set<nat>, r: nat)
    requires Forkable(mem, pages, r)
    ensures r < |mem|
  {
  }

  // ---- A fork -------------------------------------------------------------

  /** The frames of the copied pages. */
  ghost function CopiedPages(k: Fork): set<nat> {
    set x | x in k.owner && |k.owner[x]| == 4
  }

  /** No page that a fork copies lies in one frame in both address spaces. */
  ghost predicate PagesDisjoint(mem: Memory, x: nat, y: nat) {
    forall v: Page, w: Page :: CopiedPath(mem, x, v) && CopiedPath(mem, y, w) ==>
      EntryAt(mem, x, v).value.frame != EntryAt(mem, y, w).value.frame
  }

  lemma OthersSeeSameEntries(k: Fork, r: nat)
    requires k.Valid() && r in k.roots
    ensures SameEntries(k.base, k.mem, r)
  {
    forall q: Path | 1 <= |q| <= 4
      ensures EntryAt(k.mem, r, q) == EntryAt(k.base, r, q)
    {
      k.OtherTables(r, Up(q));
      assert q == Up(q) + [Last(q)];
    }
  }

  /** The child copies what its parent copied. */
  lemma {:induction false} ChildCopies(k: Fork, q: Path)
    requires k.Valid() && |q| <= 4
    ensures CopiedPath(k.mem, k.dst, q) == CopiedPath(k.base, k.src, q)
    decreases |q|
  {
    hide Consistent, TableAt, EntryAt, ClonedRoot;
    if q != [] {
      ChildCopies(k, Up(q));
      k.Entries(q);
    }
  }

  lemma ChildIsForkable(k: Fork, pages: set<nat>)
    requires k.Valid() && Forkable(k.base, pages, k.src)
    ensures Forkable(k.mem, pages + CopiedPages(k), k.dst)
  {
    hide Consistent, TableAt, EntryAt, ClonedRoot, CopiedPath, Private;
    forall q: Path | 1 <= |q| <= 4 && IsMarked(EntryAt(k.mem, k.dst, q))
      ensures |q| == 4 && Private(k.mem, k.dst, Up(q))
    {
      k.Entries(q);
      k.Privacy(Up(q));
    }
    forall v: Page | CopiedPath(k.mem, k.dst, v)
      ensures EntryAt(k.mem, k.dst, v).Some? && EntryAt(k.mem, k.dst, v).value.frame in pages + CopiedPages(k)
    {
      ChildCopies(k, v);
      k.Entries(v);
    }
    ChildKernelHalf(k);
  }

  lemma ChildKernelHalf(k: Fork)
    requires k.Valid() && KernelHalfHasNoUserEntry(k.base, k.src)
    ensures KernelHalfHasNoUserEntry(k.mem, k.dst)
  {
    k.CopiedInBounds();
    forall i: Index | i >= 256 && k.mem[k.dst][i].IsPresent()
      ensures User !in k.mem[k.dst][i].flags
    {
      assert ClonedRoot(k.base, k.mem, k.src, k.dst, i, k.owner);
    }
  }

  lemma ForkKeepsApart(k: Fork, pages: set<nat>)
    requires k.Valid() && PagesApart(k.base, k.roots, k.free0, pages)
    ensures PagesApart(k.mem, k.roots + {k.dst}, k.free, pages + CopiedPages(k))
  {
    hide Consistent, ClonedRoot, Cloned, CopiedPath;
    k.CopiedInBounds();
    forall r, q: Path | r in k.roots + {k.dst} && |q| <= 3 && TableAt(k.mem, r, q).Some?
      ensures TableAt(k.mem, r, q).value !in pages + CopiedPages(k)
    {
      k.Origin(r, q);
      if r != k.dst { k.InUse(r, q); k.OtherTables(r, q); } else if !CopiedPath(k.base, k.src, q) { k.Tables(q); }
    }
  }

  /** A fork keeps every account, and its child shares no copied page with
      anybody. */
  lemma ForkKeepsAccounts(k: Fork, pages: set<nat>)
    requires k.Valid() && Accounted(k.base, k.roots, k.free0, pages)
    ensures Accounted(k.mem, k.roots + {k.dst}, k.free, pages + CopiedPages(k))
    ensures forall r :: r in k.roots ==> PagesDisjoint(k.mem, r, k.dst)
  {
    hide Consistent, Forkable, PagesApart, PagesDisjoint, Fork.Valid;
    var pages' := pages + CopiedPages(k);
    ForkKeepsApart(k, pages);
    forall r | r in k.roots + {k.dst}
      ensures Forkable(k.mem, pages', r)
    {
      if r == k.dst {
        SourceIsRoot(k);
        ChildIsForkable(k, pages);
      } else {
        OthersSeeSameEntries(k, r);
        RootInMemory(k.base, pages, r);
        ForkKeepsSize(k);
        SameEntriesKeepForkable(k.base, k.mem, pages, pages', r);
      }
    }
    forall r | r in k.roots
      ensures PagesDisjoint(k.mem, r, k.dst)
    {
      ChildIsDisjoint(k, pages, r);
    }
  }

  lemma SourceIsRoot(k: Fork)
    requires k.Valid()
    ensures k.src in k.roots
  {
  }

  lemma ForkKeepsSize(k: Fork)
    requires k.Valid()
    ensures |k.mem| == |k.base|
  {
  }

  lemma ChildIsDisjoint(k: Fork, pages: set<nat>, r: nat)
    requires k.Valid() && Accounted(k.base, k.roots, k.free0, pages) && r in k.roots
    ensures PagesDisjoint(k.mem, r, k.dst)
  {
    hide Consistent, TableAt, EntryAt, ClonedRoot, CopiedPath, MarksArePrivate;
    OthersSeeSameEntries(k, r);
    assert Forkable(k.base, pages, r);
    forall v: Page, w: Page | CopiedPath(k.mem, r, v) && CopiedPath(k.mem, k.dst, w)
      ensures EntryAt(k.mem, r, v).Some? && EntryAt(k.mem, k.dst, w).Some?
      ensures EntryAt(k.mem, r, v).value.frame != EntryAt(k.mem, k.dst, w).value.frame
    {
      SameEntriesSamePaths(k.base, k.mem, r, v);
      CopiedHasEntry(k.base, r, v);
      ChildCopies(k, w);
      k.Entries(w);
    }
  }

  // ---- Isolation ----------------------------------------------------------

  /** Whatever one address space writes to its pages, another that shares none
      of them reads what it would have read without that write. */
  lemma Isolation(mem: Memory, roots: set<nat>, free: set<nat>, pages: set<nat>,
                  x: nat, v: Page, i: Index, word: Entry, y: nat, w: Page, j: Index)
    requires Accounted(mem, roots, free, pages) && x in roots && y in roots && PagesDisjoint(mem, x, y)
    requires CopiedPath(mem, x, v) && CopiedPath(mem, y, w)
    ensures Load(Store(mem, x, v, i, word), y, w, j) == Load(mem, y, w, j)
  {
    assert Forkable(mem, pages, x) && Forkable(mem, pages, y);
    CopiedTranslates(mem, x, v);
    CopiedTranslates(mem, y, w);
    var f := Translate(mem, x, v).value;
    StoreKeepsTranslations(mem, Store(mem, x, v, i, word), y, f, w);
  }

  lemma CopiedTranslates(mem: Memory, r: nat, v: Page)
    requires CopiedPath(mem, r, v)
    ensures EntryAt(mem, r, v).Some? && Translate(mem, r, v) == Some(EntryAt(mem, r, v).value.frame)
  {
    Fork(mem, mem, {}, {}, {}, {}, r, r, map[]).CopiedTranslatesToItsFrame(v);
  }
}
