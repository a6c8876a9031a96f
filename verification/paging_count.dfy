/** How many frames a fork takes: one for every table and every page that it
    copies, and one for every huge entry of a process that it meets. */
module PagingCount {
  import opened Wrappers
  import opened Paging
  import opened PagingFork
  import opened PagingAccounts
  import opened PagingTrace

  /** For the entry at `q`. */
  ghost function EntryFrames(mem: Memory, root: nat, q: Path): nat
    requires 1 <= |q| <= 4
    decreases 4 - |q|, 2
  {
    var e := EntryAt(mem, root, q);
    if e.None? then 0
    else if |q| == 1 then (if IsCopiedRoot(q[0], e.value) then TableFrames(mem, root, q) else 0)
    else if !e.value.IsPresent() || (User !in e.value.flags && UserOwned !in e.value.flags) then 0
    else if Huge in e.value.flags || |q| == 4 then 1
    else TableFrames(mem, root, q)
  }

  /** For the table at `p` and all below it. */
  ghost function TableFrames(mem: Memory, root: nat, p: Path): nat
    requires 1 <= |p| <= 3
    decreases 4 - |p|, 1
  {
    1 + EntriesFrames(mem, root, p, 512)
  }

  /** For the first `n` entries of the table at `p`. */
  ghost function EntriesFrames(mem: Memory, root: nat, p: Path, n: nat): nat
    requires |p| <= 3 && n <= 512
    decreases 4 - |p|, 0, n
  {
    if n == 0 then 0 else EntriesFrames(mem, root, p, n - 1) + EntryFrames(mem, root, p + [n - 1])
  }

  /** For a whole address space. */
  ghost function ForkFrames(mem: Memory, root: nat): nat {
    1 + EntriesFrames(mem, root, [], 256)
  }

  /** What an entry of a table costs, by its kind. */
  lemma EntryFramesByKind(mem: Memory, root: nat, p: Path, i: Index, e: Entry)
    requires 1 <= |p| <= 3 && EntryAt(mem, root, p + [i]) == Some(e)
    ensures !e.IsPresent() || (User !in e.flags && UserOwned !in e.flags) ==> EntryFrames(mem, root, p + [i]) == 0
    ensures e.IsPresent() && (User in e.flags || UserOwned in e.flags) && (Huge in e.flags || |p| == 3) ==>
              EntryFrames(mem, root, p + [i]) == 1
    ensures e.IsPresent() && (User in e.flags || UserOwned in e.flags) && !(Huge in e.flags || |p| == 3) ==>
              EntryFrames(mem, root, p + [i]) == TableFrames(mem, root, p + [i])
  {
    hide TableFrames, EntryAt;
  }

  lemma {:induction false} EntriesFramesGrow(mem: Memory, root: nat, p: Path, m: nat, n: nat)
    requires |p| <= 3 && m <= n <= 512
    ensures EntriesFrames(mem, root, p, m) <= EntriesFrames(mem, root, p, n)
    decreases n - m
  {
    if m < n { EntriesFramesGrow(mem, root, p, m, n - 1); }
  }

  // ---- Before and after ---------------------------------------------------

  /** `ok` tells whether `n` frames could be taken from `before`. */
  ghost predicate Takes(before: set<nat>, after: set<nat>, n: nat, ok: bool) {
    if ok then |before| == |after| + n else |before| < n
  }

  lemma TakesNothing(free: set<nat>)
    ensures Takes(free, free, 0, true)
  {
  }

  lemma TakesOne(before: set<nat>, after: set<nat>)
    requires exists f :: f in before && after == before - {f}
    ensures Takes(before, after, 1, true)
  {
  }

  lemma TakesNone(n: nat)
    requires n > 0
    ensures Takes({}, {}, n, false)
  {
  }

  /** The frame for a table has been taken, and no entry been looked at. */
  lemma TakesFirst(before: set<nat>, after: set<nat>, mem: Memory, root: nat, p: Path)
    requires |p| <= 3 && exists f :: f in before && after == before - {f}
    ensures Takes(before, after, 1 + EntriesFrames(mem, root, p, 0), true)
  {
  }

  lemma NoEntriesNoFrames(mem: Memory, root: nat)
    ensures EntriesFrames(mem, root, [], 0) == 0
  {
  }

  lemma ForkTakesOne(mem: Memory, root: nat)
    ensures ForkFrames(mem, root) >= 1
    ensures Takes({}, {}, ForkFrames(mem, root), false)
  {
  }

  lemma TakesMeans(before: set<nat>, after: set<nat>, n: nat, ok: bool)
    requires Takes(before, after, n, ok)
    ensures ok <==> |before| >= n
    ensures ok ==> |before| == |after| + n
  {
  }

  /** One more entry of the table at `p` has been copied, or could not be. */
  lemma TakesEntry(mem: Memory, root: nat, p: Path, i: nat, n: nat, before: set<nat>, mid: set<nat>, after: set<nat>,
                   ok: bool)
    requires |p| <= 3 && i < n <= 512
    requires Takes(before, mid, 1 + EntriesFrames(mem, root, p, i), true)
    requires Takes(mid, after, EntryFrames(mem, root, p + [i]), ok)
    ensures ok ==> Takes(before, after, 1 + EntriesFrames(mem, root, p, i + 1), true)
    ensures !ok ==> Takes(before, after, 1 + EntriesFrames(mem, root, p, n), false)
  {
    hide EntryFrames;
    EntriesFramesGrow(mem, root, p, i + 1, n);
  }

  // ---- What the count depends on ------------------------------------------

  /** Two address spaces in which a fork meets entries of the same kind. */
  ghost predicate SameKinds(mem: Memory, root: nat, mem': Memory, root': nat) {
    forall q: Path :: 1 <= |q| <= 4 && CopiedPath(mem, root, Up(q)) ==> SameKind(mem, root, mem', root', q)
  }

  ghost predicate SameKind(mem: Memory, root: nat, mem': Memory, root': nat, q: Path)
    requires q != []
  {
    var e, e' := PresentAt(mem, root, q), PresentAt(mem', root', q);
    e.Some? == e'.Some? && (e.Some? ==> e.value.flags == e'.value.flags)
  }

  lemma {:induction false} SameKindsSameEntry(mem: Memory, root: nat, mem': Memory, root': nat, q: Path)
    requires SameKinds(mem, root, mem', root') && 1 <= |q| <= 4 && CopiedPath(mem, root, Up(q))
    ensures EntryFrames(mem', root', q) == EntryFrames(mem, root, q)
    decreases 4 - |q|, 2
  {
    hide EntryAt, TableAt, SameKinds;
    SameKindOf(mem, root, mem', root', q);
    if |q| < 4 && CopiedPath(mem, root, q) { SameKindsSameTable(mem, root, mem', root', q, 512); }
  }

  lemma SameKindOf(mem: Memory, root: nat, mem': Memory, root': nat, q: Path)
    requires SameKinds(mem, root, mem', root') && 1 <= |q| <= 4 && CopiedPath(mem, root, Up(q))
    ensures SameKind(mem, root, mem', root', q)
  {
    hide CopiedPath, SameKind;
  }

  lemma {:induction false} SameKindsSameTable(mem: Memory, root: nat, mem': Memory, root': nat, p: Path, n: nat)
    requires SameKinds(mem, root, mem', root') && |p| <= 3 && n <= 512 && CopiedPath(mem, root, p)
    ensures EntriesFrames(mem', root', p, n) == EntriesFrames(mem, root, p, n)
    decreases 4 - |p|, 0, n
  {
    hide SameKinds, EntryFrames, CopiedPath;
    if n > 0 {
      assert Up(p + [n - 1]) == p;
      SameKindsSameTable(mem, root, mem', root', p, n - 1);
      SameKindsSameEntry(mem, root, mem', root', p + [n - 1]);
    }
  }

  /** Forking the child takes as many frames as forking the parent did. */
  lemma ChildCostsTheSame(k: Fork)
    requires k.Valid()
    ensures ForkFrames(k.mem, k.dst) == ForkFrames(k.base, k.src)
  {
    hide Fork.Valid, TableAt, EntryAt;
    forall q: Path | 1 <= |q| <= 4
      ensures SameKind(k.base, k.src, k.mem, k.dst, q)
    {
      k.Entries(q);
    }
    SameKindsSameTable(k.base, k.src, k.mem, k.dst, [], 256);
  }

  /** And forking any other address space takes as many as before. */
  lemma OthersCostTheSame(k: Fork, r: nat)
    requires k.Valid() && r in k.roots
    ensures ForkFrames(k.mem, r) == ForkFrames(k.base, r)
  {
    hide Fork.Valid, TableAt, EntryAt;
    OthersSeeSameEntries(k, r);
    forall q: Path | 1 <= |q| <= 4
      ensures SameKind(k.base, r, k.mem, r, q)
    {
      assert EntryAt(k.mem, r, q) == EntryAt(k.base, r, q);
    }
    SameKindsSameTable(k.base, r, k.mem, r, [], 256);
  }

  // ---- Counting -----------------------------------------------------------

  /** An entry that a fork shares or skips. */
  ghost predicate CostsNothing(mem: Memory, root: nat, q: Path)
    requires q != []
  {
    var e := PresentAt(mem, root, q);
    e.Some? ==> User !in e.value.flags && UserOwned !in e.value.flags
  }

  /** A table of which one entry at most costs anything. */
  lemma {:induction false} OneEntryCosts(mem: Memory, root: nat, p: Path, i: Index, n: nat)
    requires |p| <= 3 && n <= 512
    requires forall j: Index :: j != i ==> CostsNothing(mem, root, p + [j])
    ensures EntriesFrames(mem, root, p, n) == if i < n then EntryFrames(mem, root, p + [i]) else 0
  {
    if n > 0 {
      OneEntryCosts(mem, root, p, i, n - 1);
      if n - 1 != i { assert CostsNothing(mem, root, p + [n - 1]); }
    }
  }

  /** The entries on the way to `v`, and no others, belong to the process. */
  ghost predicate OnlyTheWay(mem: Memory, root: nat, v: Page, depth: nat) {
    forall q: Path :: 1 <= |q| <= depth && !(q <= v) ==> CostsNothing(mem, root, q)
  }

  lemma TheWayCosts(mem: Memory, root: nat, v: Page, depth: nat, k: nat, n: nat)
    requires k < depth <= 4 && n <= 512 && OnlyTheWay(mem, root, v, depth)
    ensures EntriesFrames(mem, root, v[..k], n) == if v[k] < n then EntryFrames(mem, root, v[..k + 1]) else 0
  {
    hide CostsNothing, EntryFrames;
    forall j: Index | j != v[k]
      ensures CostsNothing(mem, root, v[..k] + [j])
    {
      var q := v[..k] + [j];
      assert q[k] == j;
      assert !(q <= v);
    }
    assert v[..k] + [v[k]] == v[..k + 1];
    OneEntryCosts(mem, root, v[..k], v[k], n);
  }

  /** An address space with one page costs five frames: four tables and it. */
  lemma OnePageCosts(mem: Memory, root: nat, v: Page)
    requires CopiedPath(mem, root, v) && OnlyTheWay(mem, root, v, 4)
    ensures ForkFrames(mem, root) == 5
  {
    hide EntriesFrames, OnlyTheWay, EntryAt;
    assert Up(v) == v[..3] && Up(v[..3]) == v[..2] && Up(v[..2]) == v[..1] && Up(v[..1]) == [] == v[..0] && v == v[..4];
    assert CopiedPath(mem, root, v[..3]) && CopiedPath(mem, root, v[..2]) && CopiedPath(mem, root, v[..1]);
    TheWayCosts(mem, root, v, 4, 3, 512);
    assert EntryFrames(mem, root, v) == 1;
    TheWayCosts(mem, root, v, 4, 2, 512);
    TheWayCosts(mem, root, v, 4, 1, 512);
    TheWayCosts(mem, root, v, 4, 0, 256);
  }

  /** One whole PD below the root costs at most this. */
  lemma OneDirectoryCosts(mem: Memory, root: nat, v: Page)
    requires OnlyTheWay(mem, root, v, 2)
    ensures ForkFrames(mem, root) <= 262659
  {
    hide EntriesFrames, OnlyTheWay, EntryAt;
    assert v[..0] == [];
    TheWayCosts(mem, root, v, 2, 0, 256);
    TheWayCosts(mem, root, v, 2, 1, 512);
    EntriesCostAtMost(mem, root, v[..2], 512);
  }

  lemma {:induction false} PageTableCosts(mem: Memory, root: nat, p: Path, n: nat)
    requires |p| == 3 && n <= 512
    ensures EntriesFrames(mem, root, p, n) <= n
  {
    if n > 0 { PageTableCosts(mem, root, p, n - 1); }
  }

  lemma {:induction false} EntriesCostAtMost(mem: Memory, root: nat, p: Path, n: nat)
    requires |p| == 2 && n <= 512
    ensures EntriesFrames(mem, root, p, n) <= n * 513
  {
    if n > 0 {
      EntriesCostAtMost(mem, root, p, n - 1);
      var q := p + [n - 1];
      PageTableCosts(mem, root, q, 512);
      assert EntryFrames(mem, root, q) <= 513;
    }
  }
}
