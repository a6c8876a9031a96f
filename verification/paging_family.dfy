/** Address spaces through their lives: created, filled, and forked again and again. */
module PagingFamily {
  import opened Wrappers
  import opened Paging
  import opened PagingFork
  import opened PagingCount
  import opened PagingAccounts
  import opened PagingTrace
  import opened PagingEffects
  import opened PagingOps

  /** Whatever `x` writes to its own pages, `y` reads in its own what it would
      have read without that write. */
  ghost predicate Isolated(mem: Memory, x: nat, y: nat) {
    forall v: Page, i: Index, word: Entry, w: Page, j: Index :: CopiedPath(mem, x, v) && CopiedPath(mem, y, w) ==>
      Load(Store(mem, x, v, i, word), y, w, j) == Load(mem, y, w, j)
  }

  /** `x` and `y` have the same pages of their own and read the same in them. */
  ghost predicate ReadAlike(mem: Memory, x: nat, y: nat) {
    && (forall v: Page :: CopiedPath(mem, x, v) <==> CopiedPath(mem, y, v))
    && (forall v: Page, j: Index :: CopiedPath(mem, x, v) ==> Load(mem, x, v, j) == Load(mem, y, v, j))
  }

  /** Every page that a process may access is one of its own. */
  ghost predicate AccessIsOwn(mem: Memory, x: nat) {
    forall v: Page :: Accessible(mem, x, v) ==> CopiedPath(mem, x, v)
  }

  lemma ForkKeepsAccessOwn(k: Fork, r: nat)
    requires k.Valid() && r in k.roots && AccessIsOwn(k.base, r)
    ensures AccessIsOwn(k.mem, r)
  {
    hide Fork.Valid, CopiedPath, TableAt, EntryAt;
    OthersSeeSameEntries(k, r);
    forall v: Page | Accessible(k.mem, r, v)
      ensures CopiedPath(k.mem, r, v)
    {
      assert Walk(k.mem, r, v) == Walk(k.base, r, v);
      SameEntriesSamePaths(k.base, k.mem, r, v);
    }
  }

  lemma ChildAccessIsOwn(k: Fork)
    requires k.Valid() && AccessIsOwn(k.base, k.src)
    ensures AccessIsOwn(k.mem, k.dst)
  {
    hide Fork.Valid, CopiedPath, Walk, Grants;
    forall v: Page | Accessible(k.mem, k.dst, v)
      ensures CopiedPath(k.mem, k.dst, v)
    {
      k.Access(v, User);
      assert Accessible(k.base, k.src, v);
      ChildCopies(k, v);
    }
  }

  lemma DisjointMeansIsolated(mem: Memory, roots: set<nat>, free: set<nat>, pages: set<nat>, x: nat, y: nat)
    requires Accounted(mem, roots, free, pages) && x in roots && y in roots && PagesDisjoint(mem, x, y)
    ensures Isolated(mem, x, y) && Isolated(mem, y, x)
  {
    hide Accounted, Load, Store, CopiedPath;
    assert PagesDisjoint(mem, y, x);
    forall v: Page, i: Index, word: Entry, w: Page, j: Index | CopiedPath(mem, x, v) && CopiedPath(mem, y, w)
      ensures Load(Store(mem, x, v, i, word), y, w, j) == Load(mem, y, w, j)
    {
      Isolation(mem, roots, free, pages, x, v, i, word, y, w, j);
    }
    forall v: Page, i: Index, word: Entry, w: Page, j: Index | CopiedPath(mem, y, v) && CopiedPath(mem, x, w)
      ensures Load(Store(mem, y, v, i, word), x, w, j) == Load(mem, x, w, j)
    {
      Isolation(mem, roots, free, pages, y, v, i, word, x, w, j);
    }
  }

  /** At every address, mapped or not, the child reads what the parent reads. */
  lemma ChildReadsAlike(k: Fork, v: Page, j: Index)
    requires k.Valid()
    ensures Load(k.mem, k.dst, v, j) == Load(k.mem, k.src, v, j)
  {
    hide Translate, CopiedPath, ClonedRoot;
    k.Translations(v);
    SourceStillTranslates(k, v);
  }

  /** A fork changes no page that any older address space has of its own. */
  lemma ForkKeepsContents(k: Fork, pages: set<nat>, r: nat, v: Page, j: Index)
    requires k.Valid() && Accounted(k.base, k.roots, k.free0, pages) && r in k.roots
    ensures CopiedPath(k.mem, r, v) <==> CopiedPath(k.base, r, v)
    ensures CopiedPath(k.base, r, v) ==> Load(k.mem, r, v, j) == Load(k.base, r, v, j)
  {
    hide Consistent, ClonedRoot;
    OthersSeeSameEntries(k, r);
    SameEntriesSamePaths(k.base, k.mem, r, v);
    if CopiedPath(k.base, r, v) {
      assert Forkable(k.base, pages, r);
      CopiedTranslates(k.base, r, v);
      CopiedTranslates(k.mem, r, v);
    }
  }

  lemma ForkKeepsDisjoint(k: Fork, x: nat, y: nat)
    requires k.Valid() && x in k.roots && y in k.roots && PagesDisjoint(k.base, x, y)
    ensures PagesDisjoint(k.mem, x, y)
  {
    hide Consistent, ClonedRoot;
    OthersSeeSameEntries(k, x);
    OthersSeeSameEntries(k, y);
    forall v: Page, w: Page | CopiedPath(k.mem, x, v) && CopiedPath(k.mem, y, w)
      ensures EntryAt(k.mem, x, v).value.frame != EntryAt(k.mem, y, w).value.frame
    {
      SameEntriesSamePaths(k.base, k.mem, x, v);
      SameEntriesSamePaths(k.base, k.mem, y, w);
    }
  }

  lemma ForkKeepsAlike(k: Fork, pages: set<nat>, x: nat, y: nat)
    requires k.Valid() && Accounted(k.base, k.roots, k.free0, pages) && x in k.roots && y in k.roots
    requires ReadAlike(k.base, x, y)
    ensures ReadAlike(k.mem, x, y)
  {
    hide Consistent, Accounted, Load, CopiedPath, Fork.Valid;
    forall v: Page
      ensures CopiedPath(k.mem, x, v) <==> CopiedPath(k.mem, y, v)
    {
      ForkKeepsContents(k, pages, x, v, 0);
      ForkKeepsContents(k, pages, y, v, 0);
    }
    forall v: Page, j: Index | CopiedPath(k.mem, x, v)
      ensures Load(k.mem, x, v, j) == Load(k.mem, y, v, j)
    {
      ForkKeepsContents(k, pages, x, v, j);
      ForkKeepsContents(k, pages, y, v, j);
    }
  }

  lemma ParentAndChildAlike(k: Fork, pages: set<nat>)
    requires k.Valid() && Accounted(k.base, k.roots, k.free0, pages)
    ensures ReadAlike(k.mem, k.src, k.dst)
  {
    hide Consistent, Accounted, Load, CopiedPath, Fork.Valid;
    forall v: Page
      ensures CopiedPath(k.mem, k.src, v) <==> CopiedPath(k.mem, k.dst, v)
    {
      SourceIsRoot(k);
      ForkKeepsContents(k, pages, k.src, v, 0);
      ChildCopies(k, v);
    }
    forall v: Page, j: Index
      ensures Load(k.mem, k.src, v, j) == Load(k.mem, k.dst, v, j)
    {
      ChildReadsAlike(k, v, j);
    }
  }

  lemma AlikeThrough(mem: Memory, x: nat, y: nat, z: nat)
    requires ReadAlike(mem, x, y) && ReadAlike(mem, y, z)
    ensures ReadAlike(mem, x, z)
  {
    hide Load, CopiedPath;
  }

  /** A page that a process may access below user tables is one of its own. */
  lemma MappedPageIsOwn(mem: Memory, users: set<nat>, root: nat, v: Page, e: Entry)
    requires Owned(mem, users, root, v[..3]) && EntryAt(mem, root, v) == Some(e) && v[0] < 256 && IsCopied(e)
    ensures CopiedPath(mem, root, v)
  {
    assert Up(v) == v[..3] && Up(v[..3]) == v[..2] && Up(v[..2]) == v[..1] && Up(v[..1]) == [];
    assert Private(mem, root, v[..2]) && Private(mem, root, v[..1]);
    assert CopiedPath(mem, root, v[..1]);
    assert CopiedPath(mem, root, v[..2]);
    assert CopiedPath(mem, root, v[..3]);
  }

  /** Where the kernel maps nothing, no huge page is in the way. */
  lemma NothingInherited(mem: Memory, kernel: nat, mem': Memory, root: nat, v: Page)
    requires Inherited(mem, kernel, mem', root) && Translate(mem, kernel, v).None?
    ensures !HugeAt(mem', root, v[..2]) && !HugeAt(mem', root, v[..3])
    ensures HugeRoot(mem', root, v[0]) ==> HugeRoot(mem, kernel, v[0])
  {
    assert PresentAt(mem', root, v[..2]) == PresentAt(mem, kernel, v[..2]);
    assert PresentAt(mem', root, v[..3]) == PresentAt(mem, kernel, v[..3]);
    assert PresentAt(mem', root, v[..1]) == PresentAt(mem, kernel, v[..1]);
    assert Up(v[..1]) == [];
  }

  /** What the kernel maps costs a fork nothing. */
  lemma KernelCostsNothing(mem: Memory, roots: set<nat>, users: set<nat>, free: set<nat>, pages: set<nat>, kernel: nat, q: Path)
    requires Consistent(mem, roots, users, free) && Accounted(mem, roots, free, pages)
    requires kernel in roots && kernel !in users && 1 <= |q| <= 4
    ensures CostsNothing(mem, kernel, q)
  {
    hide TableAt, EntryAt;
    assert Forkable(mem, pages, kernel);
    if PresentAt(mem, kernel, q).Some? {
      assert EntryIsDisciplined(|q| - 1, Owned(mem, users, kernel, Up(q)), EntryAt(mem, kernel, q).value);
    }
  }

  /** A process with one page: what it may access, and what forking it costs. */
  lemma OnePageProcess(boot: Memory, kernel: nat, mem: Memory, mem': Memory, roots: set<nat>, users: set<nat>,
                       root: nat, v: Page, e: Entry)
    requires Inherited(boot, kernel, mem, root) && root in roots
    requires forall q: Path :: 1 <= |q| <= 4 ==> CostsNothing(boot, kernel, q)
    requires !HugeAt(mem, root, v[..2]) && !HugeAt(mem, root, v[..3])
    requires OffTheWaySame(mem, mem', root, v) && AccessGrowsAtMost(mem, mem', roots, root, v)
    requires Owned(mem', users, root, v[..3]) && EntryAt(mem', root, v) == Some(e) && v[0] < 256 && IsCopied(e)
    ensures CopiedPath(mem', root, v) && AccessIsOwn(mem', root) && ForkFrames(mem', root) == 5
  {
    hide TableAt, EntryAt, HugeAt, Accessible, CopiedPath, ForkFrames, Owned;
    MappedPageIsOwn(mem', users, root, v, e);
    forall q: Path | 1 <= |q| <= 4 && !(q <= v)
      ensures CostsNothing(mem', root, q)
    {
      assert CostsNothing(boot, kernel, q);
      assert PresentAt(mem, root, q) == PresentAt(boot, kernel, q);
    }
    OnePageCosts(mem', root, v);
  }

  datatype Family = Family(parent: nat, child: nat, grandchild: nat)

  /** All that a family of three is promised. */
  ghost predicate FamilyIsSound(mem: Memory, f: Family, v: Page) {
    && f.parent != f.child && f.parent != f.grandchild && f.child != f.grandchild
    && CopiedPath(mem, f.parent, v)
    && AccessIsOwn(mem, f.parent) && AccessIsOwn(mem, f.child) && AccessIsOwn(mem, f.grandchild)
    && ReadAlike(mem, f.parent, f.child) && ReadAlike(mem, f.parent, f.grandchild) && ReadAlike(mem, f.child, f.grandchild)
    && Isolated(mem, f.parent, f.child) && Isolated(mem, f.child, f.parent)
    && Isolated(mem, f.parent, f.grandchild) && Isolated(mem, f.grandchild, f.parent)
    && Isolated(mem, f.child, f.grandchild) && Isolated(mem, f.grandchild, f.child)
  }

  /** The second fork completes the family. */
  lemma FamilyCompletes(k: Fork, roots: set<nat>, pages: set<nat>, pages': set<nat>, parent: nat, v: Page)
    requires k.Valid() && Accounted(k.base, k.roots, k.free0, pages) && parent in k.roots && parent != k.src
    requires PagesDisjoint(k.base, parent, k.src) && ReadAlike(k.base, parent, k.src) && CopiedPath(k.base, parent, v)
    requires Accounted(k.mem, roots, k.free, pages') && roots == k.roots + {k.dst} && k.dst !in k.roots
    requires PagesDisjoint(k.mem, parent, k.dst) && PagesDisjoint(k.mem, k.src, k.dst)
    requires AccessIsOwn(k.base, parent) && AccessIsOwn(k.base, k.src)
    ensures FamilyIsSound(k.mem, Family(parent, k.src, k.dst), v)
  {
    hide Accounted, PagesDisjoint, CopiedPath, Isolated, ReadAlike, Load, Consistent, ClonedRoot, AccessIsOwn;
    SourceIsRoot(k);
    ForkKeepsAccessOwn(k, parent);
    ForkKeepsAccessOwn(k, k.src);
    ChildAccessIsOwn(k);
    ForkKeepsDisjoint(k, parent, k.src);
    ForkKeepsAlike(k, pages, parent, k.src);
    ParentAndChildAlike(k, pages);
    AlikeThrough(k.mem, parent, k.src, k.dst);
    ForkKeepsContents(k, pages, parent, v, 0);
    DisjointMeansIsolated(k.mem, roots, k.free, pages', parent, k.src);
    DisjointMeansIsolated(k.mem, roots, k.free, pages', parent, k.dst);
    DisjointMeansIsolated(k.mem, roots, k.free, pages', k.src, k.dst);
  }

  /** A process is created and given a page, it forks, and its child forks: all
      three have the same pages with the same contents; whatever one of them
      writes to a page it may access, no other sees in any page it may access.
      Nothing is asked but that the kernel's accounts are in order and that it
      does not use the page itself; fifteen frames are enough. */
  method Generations(t: PageTables, virt: nat) returns (r: Result<Family, MapError>)
    requires t.Valid() && t.Audited() && Pml4Index(virt) < 256
    requires Translate(t.mem, t.kernel, PageOf(virt)).None?
    modifies t
    ensures t.Valid() && t.Audited()
    ensures r.Ok? ==> FamilyIsSound(t.mem, r.value, PageOf(virt))
    ensures r.Err? ==> t.free == {} || HugeRoot(old(t.mem), t.kernel, Pml4Index(virt))
    ensures |old(t.free)| >= 15 && !HugeRoot(old(t.mem), t.kernel, Pml4Index(virt)) ==> r.Ok?
  {
    hide Consistent, Accounted, SameTranslations, Inherited, PagesDisjoint, CopiedPath, ReadAlike, FamilyIsSound,
      Fork.Valid, Translate, MayMap, HugeRoot, OtherPagesSame, OffTheWaySame, AccessGrowsAtMost, AccessGrowsAtLeast,
      OthersSeeNothing, SameAccess, Accessible, Owned, TableAt, EntryAt, CopiedPages, CostsNothing, AccessIsOwn, ForkFrames,
      JoinedBecome, JoinedAlike, JoinedChange, FlagsTraced, SlotsTraced, SameEntries;
    ghost var v, boot := PageOf(virt), t.mem;
    forall q: Path | 1 <= |q| <= 4
      ensures CostsNothing(boot, t.kernel, q)
    {
      KernelCostsNothing(boot, t.roots, t.users, t.free, t.pages, t.kernel, q);
    }
    var created := t.CreateUserPageTable();
    if created.Err? {
      return Err(created.error);
    }
    var parent := created.value;
    NothingInherited(boot, t.kernel, t.mem, parent, v);
    ghost var empty := t.mem;
    var page := t.AllocPage();
    if page.None? {
      return Err(OutOfFrames);
    }
    var flags := {Present, Writable, User};
    ghost var e := Entry(page.value, flags);
    MayMapFresh(t.mem, t.users, t.pages, parent, v, e);
    var mapped := t.MapPage(parent, virt, page.value, flags);
    if mapped.Err? {
      return Err(mapped.error);
    }
    OnePageProcess(boot, t.kernel, empty, t.mem, t.roots, t.users, parent, v, e);
    AccountedMeans(t.mem, t.roots, t.free, t.pages, parent);
    ghost var base, roots, users, free0, pages := t.mem, t.roots, t.users, t.free, t.pages;
    var child, owner := t.CloneUserPageTable(parent);
    if child.Err? {
      return Err(child.error);
    }
    ghost var k := Fork(base, t.mem, roots, users, free0, t.free, parent, child.value, owner);
    ParentAndChildAlike(k, pages);
    ForkKeepsContents(k, pages, parent, v, 0);
    ForkKeepsAccessOwn(k, parent);
    ChildAccessIsOwn(k);
    ChildCostsTheSame(k);
    AccountedMeans(t.mem, t.roots, t.free, t.pages, child.value);
    base, roots, users, free0, pages := t.mem, t.roots, t.users, t.free, t.pages;
    var grandchild, owner' := t.CloneUserPageTable(child.value);
    if grandchild.Err? {
      return Err(grandchild.error);
    }
    k := Fork(base, t.mem, roots, users, free0, t.free, child.value, grandchild.value, owner');
    FamilyCompletes(k, t.roots, pages, t.pages, parent, v);
    return Ok(Family(parent, child.value, grandchild.value));
  }

  lemma MayMapFresh(mem: Memory, users: set<nat>, pages: set<nat>, root: nat, v: Page, e: Entry)
    requires e.flags == {Present, Writable, User} && v[0] < 256 && e.frame in pages
    requires !HugeAt(mem, root, v[..2]) && !HugeAt(mem, root, v[..3])
    ensures MayMap(mem, users, pages, root, v, e)
  {
    hide HugeAt;
  }
}
