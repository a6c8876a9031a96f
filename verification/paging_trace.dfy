/**
 Which walks a new mapping changes, told from the memory before it: a mapping
 may put tables in, split or replace some on the way to its page, and every walk
 that comes to the last table left in place then comes to the page's entry.
 */
module PagingTrace {
  import opened Wrappers
  import opened Paging
  import opened PagingGraft
  import opened PagingLeaf
  import opened PagingAccounts

  ghost predicate HugeAt(mem: Memory, root: nat, q: Path)
    requires q != []
  {
    var e := EntryAt(mem, root, q);
    e.Some? && MapsHuge(|q| - 1, e.value)
  }

  /** The entry at `q`, if there is one and it is present. */
  ghost function PresentAt(mem: Memory, root: nat, q: Path): Option<Entry>
    requires q != []
  {
    var e := EntryAt(mem, root, q);
    if e.Some? && e.value.IsPresent() then e else None
  }

  /** The entry at `q`, if it points to a table. */
  ghost function PointerAt(mem: Memory, root: nat, q: Path): Option<Entry>
    requires q != []
  {
    var e := EntryAt(mem, root, q);
    if e.Some? && PointsToTable(|q| - 1, e.value) then e else None
  }

  lemma PointerIsTable(mem: Memory, root: nat, q: Path)
    requires q != []
    ensures TableAt(mem, root, q) ==
            if PointerAt(mem, root, q).Some? then Some(PointerAt(mem, root, q).value.frame) else None
  {
  }

  // ---- One new table ------------------------------------------------------

  /** The path `q` of `s` goes through entry `i` of the table that `p` reaches
      from `root`. */
  ghost predicate Hits(mem: Memory, s: nat, q: Path, root: nat, p: Path, i: Index) {
    |p| < |q| && TableAt(mem, s, q[..|p|]) == TableAt(mem, root, p) && q[|p|] == i
  }

  /** What has become of the entry at `q` of `s`, when entry `i` of the table at
      `p` has been made to point to the new table `f`. */
  ghost predicate RegraftedAt(mem: Memory, mem': Memory, s: nat, q: Path, root: nat, p: Path, i: Index, f: nat)
    requires q != []
  {
    if Hits(mem, s, q, root, p, i) && |q| == |p| + 1 then TableAt(mem', s, q) == Some(f)
    else
      && PointerAt(mem', s, q) == PointerAt(mem, s, q)
      && (|q| == |p| + 1 ==> TableAt(mem', s, q) != Some(f))
      && (!(Hits(mem, s, q, root, p, i) && HugeAt(mem, root, p + [i])) ==> PresentAt(mem', s, q) == PresentAt(mem, s, q))
  }

  ghost predicate Regrafted(mem: Memory, mem': Memory, roots: set<nat>, root: nat, p: Path, i: Index, f: nat) {
    forall s, q: Path :: s in roots && 1 <= |q| <= 4 ==> RegraftedAt(mem, mem', s, q, root, p, i, f)
  }

  lemma GraftRegrafts(g: Graft)
    requires g.Valid() && (!g.Old().value.IsPresent() ==> g.fill == ZEROED)
    ensures Regrafted(g.mem, g.After(), g.roots, g.root, g.p, g.i, g.e.frame)
  {
    hide Consistent, TableAt;
    forall s, q: Path | s in g.roots && 1 <= |q| <= 4
      ensures RegraftedAt(g.mem, g.After(), s, q, g.root, g.p, g.i, g.e.frame)
    {
      GraftRegraftsAt(g, s, q);
    }
  }

  lemma GraftRegraftsAt(g: Graft, s: nat, q: Path)
    requires g.Valid() && (!g.Old().value.IsPresent() ==> g.fill == ZEROED)
    requires s in g.roots && 1 <= |q| <= 4
    ensures RegraftedAt(g.mem, g.After(), s, q, g.root, g.p, g.i, g.e.frame)
  {
    hide Consistent, TableAt, Represents;
    GraftEntry(g, s, q);
    PointerIsTable(g.After(), s, q);
    TargetIsTheTable(g, s, q);
    if g.Through(s, q) {
      if |q| == |g.p| + 2 { BelowTheEntry(g, s, q); }
    } else if |q| == |g.p| + 1 {
      NewTableIsUnused(g, s, q);
    }
  }

  lemma TargetIsTheTable(g: Graft, s: nat, q: Path)
    requires g.Valid()
    ensures g.Through(s, q) <==> Hits(g.mem, s, q, g.root, g.p, g.i)
    ensures |g.p| <= 2 && PointsToTable(|g.p|, g.e)
  {
  }

  lemma NewTableIsUnused(g: Graft, s: nat, q: Path)
    requires g.Valid() && s in g.roots && 1 <= |q| <= 3
    ensures PointerAt(g.mem, s, q).Some? ==> PointerAt(g.mem, s, q).value.frame != g.e.frame
  {
    PointerIsTable(g.mem, s, q);
    hide TableAt, OneDepthPerTable, PrivateTablesAreExclusive, EntriesAreDisciplined, Represents;
  }

  /** One level below the redirected entry. */
  lemma BelowTheEntry(g: Graft, s: nat, q: Path)
    requires g.Valid() && (!g.Old().value.IsPresent() ==> g.fill == ZEROED)
    requires s in g.roots && |q| == |g.p| + 2 && g.Through(s, q)
    ensures PointerAt(g.After(), s, q) == PointerAt(g.mem, s, q)
    ensures HugeAt(g.mem, g.root, g.p + [g.i]) || PresentAt(g.After(), s, q) == PresentAt(g.mem, s, q)
  {
    hide Consistent, TableAt;
    GraftEntry(g, s, q);
    OldIsHere(g);
    if !PointsToTable(|g.p|, g.Old().value) {
      NothingBelow(g, s, q);
    }
  }

  lemma OldIsHere(g: Graft)
    requires g.Valid()
    ensures g.Old().Some? && EntryAt(g.mem, g.root, g.p + [g.i]) == g.Old()
  {
    assert Up(g.p + [g.i]) == g.p;
  }

  lemma NothingBelow(g: Graft, s: nat, q: Path)
    requires g.Valid() && s in g.roots && |q| == |g.p| + 2 && g.Through(s, q)
    requires !PointsToTable(|g.p|, g.Old().value)
    ensures EntryAt(g.mem, s, q).None?
    ensures MapsHuge(|g.p|, g.Old().value) && |q| <= 3 ==> forall j: Index :: !PointsToTable(|q| - 1, g.fill[j])
  {
    var up := Up(q);
    assert up[..|g.p|] == q[..|g.p|] && up[|g.p|] == g.i;
    ThroughUp(g, s, q);
    g.OldEntry(s, up);
  }

  // ---- All the tables on the way to a page --------------------------------

  /** The entry points to a table and has the flags that the mapping needs, so
      the mapping leaves the table in place. */
  predicate Stays(e: Option<Entry>, depth: nat, flags: set<Flag>) {
    e.Some? && PointsToTable(depth, e.value) && flags <= e.value.flags
  }

  /** The depth of the last table, of the first `k` below the root, that a
      mapping leaves in place. */
  ghost function Anchor(mem: Memory, root: nat, v: Page, flags: set<Flag>, k: nat): (d: nat)
    requires k <= 3
    ensures d <= k
  {
    if k == 0 || Stays(EntryAt(mem, root, v[..k]), k - 1, flags) then k else Anchor(mem, root, v, flags, k - 1)
  }

  /** How many of the first `k` tables it has to put in. */
  ghost function Missing(mem: Memory, root: nat, v: Page, flags: set<Flag>, k: nat): (n: nat)
    requires k <= 3
    ensures n <= k
  {
    if k == 0 then 0
    else Missing(mem, root, v, flags, k - 1) + if Stays(EntryAt(mem, root, v[..k]), k - 1, flags) then 0 else 1
  }

  /** Page `w` of `s` and page `v` of `root` come to the same table at depth `k`
      and have the same indices from there on. */
  ghost predicate Meets(mem: Memory, s: nat, w: Page, root: nat, v: Page, k: nat)
    requires k <= 4
  {
    TableAt(mem, s, w[..k]).Some? && TableAt(mem, s, w[..k]) == TableAt(mem, root, v[..k]) && w[k..] == v[k..]
  }

  /** Once the tables down to depth `k` are there, the pages that meet `v` are
      those that met it at the last table left in place. */
  ghost predicate Traced(mem: Memory, mem': Memory, roots: set<nat>, root: nat, v: Page, flags: set<Flag>, k: nat)
    requires k <= 3
  {
    && (forall s, w: Page :: s in roots ==>
          (Meets(mem', s, w, root, v, k) <==> Meets(mem, s, w, root, v, Anchor(mem, root, v, flags, k))))
    && (forall s, q: Path :: s in roots && k < |q| <= 3 ==> PointerAt(mem', s, q) == PointerAt(mem, s, q))
  }

  /** Whether the next table has to be put in can be told from the start. */
  lemma StaysAsBefore(mem: Memory, mem': Memory, roots: set<nat>, root: nat, v: Page, flags: set<Flag>, k: nat)
    requires k <= 2 && root in roots && Traced(mem, mem', roots, root, v, flags, k)
    ensures Stays(EntryAt(mem', root, v[..k + 1]), k, flags) == Stays(EntryAt(mem, root, v[..k + 1]), k, flags)
  {
    hide TableAt, EntryAt;
    assert PointerAt(mem', root, v[..k + 1]) == PointerAt(mem, root, v[..k + 1]);
  }

  lemma {:induction false} MissingGrows(mem: Memory, root: nat, v: Page, flags: set<Flag>, k: nat, n: nat)
    requires k <= n <= 3
    ensures Missing(mem, root, v, flags, k) <= Missing(mem, root, v, flags, n)
  {
    if k < n { MissingGrows(mem, root, v, flags, k, n - 1); }
  }

  lemma TracedOneMore(mem: Memory, mem': Memory, mem'': Memory, roots: set<nat>, root: nat, v: Page,
                      flags: set<Flag>, k: nat, f: nat)
    requires k <= 2 && root in roots && Traced(mem, mem', roots, root, v, flags, k) && TableAt(mem', root, v[..k]).Some?
    requires if Stays(EntryAt(mem', root, v[..k + 1]), k, flags) then mem'' == mem'
             else Regrafted(mem', mem'', roots, root, v[..k], v[k], f)
    ensures Traced(mem, mem'', roots, root, v, flags, k + 1)
  {
    hide TableAt, EntryAt;
    assert PointerAt(mem', root, v[..k + 1]) == PointerAt(mem, root, v[..k + 1]);
    var stays := Stays(EntryAt(mem', root, v[..k + 1]), k, flags);
    assert stays == Stays(EntryAt(mem, root, v[..k + 1]), k, flags);
    forall s, q: Path | s in roots && k + 1 < |q| <= 3
      ensures PointerAt(mem'', s, q) == PointerAt(mem, s, q)
    {
      if !stays { assert RegraftedAt(mem', mem'', s, q, root, v[..k], v[k], f); }
    }
    var next, anchor := k + 1, Anchor(mem, root, v, flags, k + 1);
    forall s, w: Page | s in roots
      ensures Meets(mem'', s, w, root, v, next) <==> Meets(mem, s, w, root, v, anchor)
    {
      if stays {
        MeetsBelow(mem, mem', s, w, root, v, k);
      } else {
        MeetsNext(mem', mem'', roots, s, w, root, v, k, f);
      }
    }
  }

  /** Where the table stays. */
  lemma MeetsBelow(mem: Memory, mem': Memory, s: nat, w: Page, root: nat, v: Page, k: nat)
    requires k <= 2 && PointerAt(mem', root, v[..k + 1]) == PointerAt(mem, root, v[..k + 1])
    requires PointerAt(mem', s, w[..k + 1]) == PointerAt(mem, s, w[..k + 1])
    ensures Meets(mem', s, w, root, v, k + 1) <==> Meets(mem, s, w, root, v, k + 1)
  {
    PointerIsTable(mem, root, v[..k + 1]);
    PointerIsTable(mem', root, v[..k + 1]);
    PointerIsTable(mem, s, w[..k + 1]);
    PointerIsTable(mem', s, w[..k + 1]);
  }

  /** Where there is a new table. */
  lemma MeetsNext(mem: Memory, mem': Memory, roots: set<nat>, s: nat, w: Page, root: nat, v: Page, k: nat, f: nat)
    requires k <= 2 && s in roots && root in roots && TableAt(mem, root, v[..k]).Some?
    requires Regrafted(mem, mem', roots, root, v[..k], v[k], f)
    ensures Meets(mem', s, w, root, v, k + 1) <==> Meets(mem, s, w, root, v, k)
  {
    hide TableAt, EntryAt, PointerAt, PresentAt;
    var q, x := v[..k + 1], w[..k + 1];
    assert q[..k] == v[..k] && x[..k] == w[..k] && q[k] == v[k] && x[k] == w[k];
    assert RegraftedAt(mem, mem', root, q, root, v[..k], v[k], f);
    assert RegraftedAt(mem, mem', s, x, root, v[..k], v[k], f);
    assert w[k..] == [w[k]] + w[k + 1..] && v[k..] == [v[k]] + v[k + 1..];
  }

  // ---- Entries off the way ------------------------------------------------

  /** The path lies below a huge page that a mapping of `v` splits. */
  ghost predicate BelowSplit(mem: Memory, root: nat, v: Page, q: Path) {
    (v[..2] <= q && HugeAt(mem, root, v[..2])) || (v[..3] <= q && HugeAt(mem, root, v[..3]))
  }

  /** Off the way to `v`, and but for split huge pages, the entries that are
      present in `root` are the same. */
  ghost predicate OffTheWaySame(mem: Memory, mem': Memory, root: nat, v: Page) {
    forall q: Path :: 1 <= |q| <= 4 && !(q <= v) && !BelowSplit(mem, root, v, q) ==>
      PresentAt(mem', root, q) == PresentAt(mem, root, q)
  }

  lemma OffTheWayOneMore(mem: Memory, mem': Memory, mem'': Memory, roots: set<nat>, root: nat, v: Page, k: nat, f: nat)
    requires k <= 2 && root in roots && OffTheWaySame(mem, mem', root, v)
    requires Regrafted(mem', mem'', roots, root, v[..k], v[k], f)
    requires forall p: Path :: |p| == k && TableAt(mem', root, p) == TableAt(mem', root, v[..k]) ==> p == v[..k]
    requires HugeAt(mem', root, v[..k + 1]) ==> HugeAt(mem, root, v[..k + 1]) || (k == 2 && HugeAt(mem, root, v[..2]))
    requires k == 0 ==> !HugeAt(mem', root, v[..1])
    ensures OffTheWaySame(mem, mem'', root, v)
  {
    hide TableAt, EntryAt, PointerAt, PresentAt, HugeAt;
    assert v[..k] + [v[k]] == v[..k + 1];
    forall q: Path | 1 <= |q| <= 4 && !(q <= v) && !BelowSplit(mem, root, v, q)
      ensures PresentAt(mem'', root, q) == PresentAt(mem, root, q)
    {
      assert RegraftedAt(mem', mem'', root, q, root, v[..k], v[k], f);
      if Hits(mem', root, q, root, v[..k], v[k]) {
        assert q[..k] == v[..k];
        assert q[..k + 1] == v[..k + 1];
        if k == 2 { assert v[..2] == q[..2]; }
      }
    }
  }

  lemma OffTheWayLeaf(mem: Memory, write: LeafWrite)
    requires write.Valid() && OffTheWaySame(mem, write.mem, write.root, write.v)
    requires forall w: Page :: write.SharesSlot(write.root, w) ==> w == write.v
    ensures OffTheWaySame(mem, write.After(), write.root, write.v)
  {
    hide TableAt, Consistent;
    forall q: Path | 1 <= |q| <= 4 && !(q <= write.v) && !BelowSplit(mem, write.root, write.v, q)
      ensures PresentAt(write.After(), write.root, q) == PresentAt(mem, write.root, q)
    {
      LeafEntry(write, write.root, q);
    }
  }
}
