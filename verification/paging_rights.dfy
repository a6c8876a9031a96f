/**
 What a new mapping does to the flags of every page and of every table pointer,
 told from the memory before it.
 */
module PagingRights {
  import opened Wrappers
  import opened Paging
  import opened PagingGraft
  import opened PagingLeaf
  import opened PagingAccounts
  import opened PagingTrace

  // ---- The flags of a page ------------------------------------------------

  /** The flags that page `w` is mapped with. The user bit depends on the tables
      above as well, and the huge bit on the size of the page. */
  ghost function PageFlags(mem: Memory, s: nat, w: Page): Option<set<Flag>> {
    var leaf := Leaf(Walk(mem, s, w));
    if leaf.None? then None else Some(leaf.value.flags - {User, Huge})
  }

  ghost predicate SamePageFlags(mem: Memory, mem': Memory, roots: set<nat>) {
    forall s, w: Page :: s in roots ==> PageFlags(mem', s, w) == PageFlags(mem, s, w)
  }

  lemma SplitKeepsLeaf(mem: Memory, d: nat, o: Entry, e: Entry, fill: Table,
                       before: seq<Option<Entry>>, after: seq<Option<Entry>>, v: Page)
    requires d <= 2 && |before| == |after| == 4
    requires Represents(mem, d, o, fill) && PointsToTable(d, e)
    requires CutShort(before) && CutShort(after)
    requires before[d] == Some(o) && after[d] == Some(e)
    requires before[d + 1] == if PointsToTable(d, o) then Some(mem[o.frame][v[d + 1]]) else None
    requires after[d + 1] == Some(fill[v[d + 1]])
    requires forall k :: 0 <= k < 4 && k != d && k != d + 1 ==> after[k] == before[k]
    ensures Leaf(after).Some? <==> Leaf(before).Some?
    ensures Leaf(after).Some? ==> Leaf(after).value.flags - {User, Huge} == Leaf(before).value.flags - {User, Huge}
  {
    if !PointsToTable(d, o) {
      assert before[d + 1].None?;
      if d == 0 {
        assert before[2].None? && before[3].None?;
      } else if d == 1 {
        assert before[3].None?;
      }
    }
  }

  /** A new, split or copied table changes the flags of no page. */
  lemma GraftKeepsPageFlags(g: Graft, s: nat, w: Page)
    requires g.Valid() && s in g.roots
    ensures PageFlags(g.After(), s, w) == PageFlags(g.mem, s, w)
  {
    hide Consistent, TableAt, EntryAt;
    var before, after := Walk(g.mem, s, w), Walk(g.After(), s, w);
    WalkIsCutShort(g.mem, s, w);
    WalkIsCutShort(g.After(), s, w);
    assert w[..4] == w;
    g.WalkEntry(s, w, 1);
    g.WalkEntry(s, w, 2);
    g.WalkEntry(s, w, 3);
    g.WalkEntry(s, w, 4);
    if g.Through(s, w) {
      SplitKeepsLeaf(g.mem, |g.p|, g.Old().value, g.e, g.fill, before, after, w);
    }
  }

  // ---- The flags of a table pointer ---------------------------------------

  /** A pointer keeps its flags and, if it is lifted, gains `flags`; a pointer to
      a table where there was none has these and perhaps the user bit. */
  predicate FlagsBecome(before: Option<Entry>, after: Option<Entry>, lifted: bool, flags: set<Flag>) {
    if before.Some?
    then after.Some? && after.value.flags == before.value.flags + if lifted then flags else {}
    else after.Some? ==> flags <= after.value.flags <= flags + {User}
  }

  /** One entry has been made to point to a table with `flags`. */
  ghost predicate Widened(mem: Memory, mem': Memory, roots: set<nat>, root: nat, p: Path, i: Index, flags: set<Flag>) {
    forall s, q: Path :: s in roots && 1 <= |q| <= 3 ==>
      FlagsBecome(PointerAt(mem, s, q), PointerAt(mem', s, q), |q| == |p| + 1 && Hits(mem, s, q, root, p, i), flags)
  }

  lemma GraftWidens(g: Graft, flags: set<Flag>)
    requires g.Valid() && (!g.Old().value.IsPresent() ==> g.fill == ZEROED)
    requires
      var o := g.Old().value;
      if PointsToTable(|g.p|, o) then g.e.flags == o.flags + flags else flags <= g.e.flags <= flags + {User}
    ensures Widened(g.mem, g.After(), g.roots, g.root, g.p, g.i, flags)
    ensures SamePageFlags(g.mem, g.After(), g.roots)
  {
    hide Consistent, TableAt, EntryAt, Represents, PageFlags;
    forall s, q: Path | s in g.roots && 1 <= |q| <= 3
      ensures FlagsBecome(PointerAt(g.mem, s, q), PointerAt(g.After(), s, q),
                          |q| == |g.p| + 1 && Hits(g.mem, s, q, g.root, g.p, g.i), flags)
    {
      GraftRegraftsAt(g, s, q);
      TargetIsTheTable(g, s, q);
      if |q| == |g.p| + 1 && g.Through(s, q) {
        GraftEntry(g, s, q);
        g.OldEntry(s, q);
      }
    }
    forall s, w: Page | s in g.roots
      ensures PageFlags(g.After(), s, w) == PageFlags(g.mem, s, w)
    {
      GraftKeepsPageFlags(g, s, w);
    }
  }

  lemma NothingWidens(mem: Memory, mem': Memory, roots: set<nat>, root: nat, p: Path, i: Index)
    requires forall s, q: Path :: s in roots && 1 <= |q| <= 4 ==> EntryAt(mem', s, q) == EntryAt(mem, s, q)
    ensures Widened(mem, mem', roots, root, p, i, {}) && SamePageFlags(mem, mem', roots)
  {
    hide TableAt, EntryAt;
  }

  lemma AlreadyWide(mem: Memory, roots: set<nat>, root: nat, p: Path, i: Index, flags: set<Flag>)
    requires TableAt(mem, root, p).Some? && TableAt(mem, root, p).value < |mem|
    requires PointsToTable(|p|, mem[TableAt(mem, root, p).value][i])
    requires flags <= mem[TableAt(mem, root, p).value][i].flags
    ensures Widened(mem, mem, roots, root, p, i, flags) && SamePageFlags(mem, mem, roots)
  {
    forall s, q: Path | s in roots && 1 <= |q| <= 3
      ensures FlagsBecome(PointerAt(mem, s, q), PointerAt(mem, s, q), |q| == |p| + 1 && Hits(mem, s, q, root, p, i), flags)
    {
    }
  }

  // ---- All the tables on the way to a page --------------------------------

  /** The walk of `s` along `q` ends, at its last step, at the entry that the walk
      to `v` of `root` uses at that depth, once the tables above are there. */
  ghost predicate Lifted(mem: Memory, s: nat, q: Path, root: nat, v: Page, flags: set<Flag>)
    requires 1 <= |q| <= 3
  {
    Meets(mem, s, q + v[|q|..], root, v, Anchor(mem, root, v, flags, |q| - 1))
  }

  /** The first `k` tables on the way to `v` are there. */
  ghost predicate PointersWiden(mem: Memory, mem': Memory, roots: set<nat>, root: nat, v: Page, flags: set<Flag>, k: nat) {
    forall s, q: Path :: s in roots && 1 <= |q| <= 3 ==>
      FlagsBecome(PointerAt(mem, s, q), PointerAt(mem', s, q), |q| <= k && Lifted(mem, s, q, root, v, flags), flags)
  }

  /** What meeting `v` at a table says about one index. */
  lemma HitsIsLifted(mem: Memory, mem': Memory, roots: set<nat>, s: nat, q: Path, root: nat, v: Page, flags: set<Flag>)
    requires 1 <= |q| <= 3 && s in roots && Traced(mem, mem', roots, root, v, flags, |q| - 1)
    requires TableAt(mem', root, v[..|q| - 1]).Some?
    ensures Hits(mem', s, q, root, v[..|q| - 1], v[|q| - 1]) <==> Lifted(mem, s, q, root, v, flags)
  {
    hide TableAt, Anchor;
    var k := |q| - 1;
    var w: Page := q + v[|q|..];
    assert Meets(mem', s, w, root, v, k) <==> Lifted(mem, s, q, root, v, flags);
    assert w[..k] == q[..k] && v[k..] == [v[k]] + v[k + 1..] && w[k..] == [q[k]] + v[k + 1..];
    assert w[k..][0] == q[k] && v[k..][0] == v[k];
  }

  lemma PointersWidenOneMore(mem: Memory, mem': Memory, mem'': Memory, roots: set<nat>, root: nat, v: Page,
                             flags: set<Flag>, k: nat)
    requires k <= 2 && Traced(mem, mem', roots, root, v, flags, k) && TableAt(mem', root, v[..k]).Some?
    requires PointersWiden(mem, mem', roots, root, v, flags, k) && Widened(mem', mem'', roots, root, v[..k], v[k], flags)
    ensures PointersWiden(mem, mem'', roots, root, v, flags, k + 1)
  {
    hide TableAt, EntryAt, PointerAt, Hits, Lifted;
    forall s, q: Path | s in roots && 1 <= |q| <= 3
      ensures FlagsBecome(PointerAt(mem, s, q), PointerAt(mem'', s, q),
                          |q| <= k + 1 && Lifted(mem, s, q, root, v, flags), flags)
    {
      if |q| == k + 1 {
        HitsIsLifted(mem, mem', roots, s, q, root, v, flags);
        assert PointerAt(mem', s, q) == PointerAt(mem, s, q);
      }
    }
  }

  /** No pointer loses a flag, and none gains others than `flags`. */
  ghost predicate PointersGrow(mem: Memory, mem': Memory, roots: set<nat>, flags: set<Flag>) {
    forall s, q: Path :: s in roots && 1 <= |q| <= 3 && PointerAt(mem, s, q).Some? ==>
      && PointerAt(mem', s, q).Some?
      && PointerAt(mem, s, q).value.flags <= PointerAt(mem', s, q).value.flags
         <= PointerAt(mem, s, q).value.flags + flags
  }

  lemma PointersAtMost(mem: Memory, mem': Memory, roots: set<nat>, root: nat, v: Page, flags: set<Flag>, k: nat)
    requires PointersWiden(mem, mem', roots, root, v, flags, k)
    ensures PointersGrow(mem, mem', roots, flags)
  {
    hide PointerAt, Lifted;
    forall s, q: Path | s in roots && 1 <= |q| <= 3 && PointerAt(mem, s, q).Some?
      ensures PointerAt(mem', s, q).Some?
      ensures PointerAt(mem, s, q).value.flags <= PointerAt(mem', s, q).value.flags
              <= PointerAt(mem, s, q).value.flags + flags
    {
      assert FlagsBecome(PointerAt(mem, s, q), PointerAt(mem', s, q), |q| <= k && Lifted(mem, s, q, root, v, flags), flags);
    }
  }

  /** The next table could not be had. */
  lemma PointersHaveGrown(mem: Memory, mem': Memory, mem'': Memory, roots: set<nat>, root: nat, v: Page,
                          flags: set<Flag>, k: nat)
    requires k <= 2 && PointersWiden(mem, mem', roots, root, v, flags, k)
    requires Widened(mem', mem'', roots, root, v[..k], v[k], {})
    ensures PointersGrow(mem, mem'', roots, flags)
  {
    hide PointerAt, Lifted, Hits;
    PointersAtMost(mem, mem', roots, root, v, flags, k);
  }

  lemma SamePageFlagsThrough(mem: Memory, mem': Memory, mem'': Memory, roots: set<nat>)
    requires SamePageFlags(mem, mem', roots) && SamePageFlags(mem', mem'', roots)
    ensures SamePageFlags(mem, mem'', roots)
  {
    hide PageFlags;
  }

  // ---- The page itself ----------------------------------------------------

  /** The pages that meet `v` at the last table left in place have the flags
      `now`, and every other page those it had. */
  ghost predicate PageFlagsTraced(mem: Memory, mem': Memory, roots: set<nat>, root: nat, v: Page, above: set<Flag>,
                                  now: Option<set<Flag>>)
  {
    forall s, w: Page :: s in roots ==>
      PageFlags(mem', s, w) ==
      if Meets(mem, s, w, root, v, Anchor(mem, root, v, above, 3)) then now else PageFlags(mem, s, w)
  }

  lemma LeafFlags(write: LeafWrite, s: nat, w: Page)
    requires write.Valid() && s in write.roots
    ensures PageFlags(write.After(), s, w) ==
            if write.SharesSlot(s, w) then if write.e.IsPresent() then Some(write.e.flags - {User, Huge}) else None
            else PageFlags(write.mem, s, w)
  {
    hide Consistent;
    var walk := Walk(write.mem, s, w);
    WalkIsCutShort(write.mem, s, w);
    assert Up(w) == w[..3];
    write.Tables(s, w[..3]);
    write.Tables(s, w[..2]);
    write.Tables(s, w[..1]);
    write.Translations(s, w);
    if write.SharesSlot(s, w) {
      assert walk[2].Some? && PointsToTable(2, walk[2].value);
      assert walk[1].Some? && PointsToTable(1, walk[1].value);
    }
  }

  lemma FlagsAfterLeaf(mem: Memory, write: LeafWrite, above: set<Flag>)
    requires write.Valid() && Traced(mem, write.mem, write.roots, write.root, write.v, above, 3)
    requires SamePageFlags(mem, write.mem, write.roots)
    requires PointersWiden(mem, write.mem, write.roots, write.root, write.v, above, 3)
    ensures PageFlagsTraced(mem, write.After(), write.roots, write.root, write.v, above,
                            if write.e.IsPresent() then Some(write.e.flags - {User, Huge}) else None)
    ensures PointersWiden(mem, write.After(), write.roots, write.root, write.v, above, 3)
  {
    hide Consistent, TableAt, EntryAt, PageFlags, Anchor, Lifted;
    forall s, w: Page | s in write.roots
      ensures write.SharesSlot(s, w) <==> Meets(write.mem, s, w, write.root, write.v, 3)
      ensures PageFlags(write.After(), s, w) ==
              if write.SharesSlot(s, w) then if write.e.IsPresent() then Some(write.e.flags - {User, Huge}) else None
              else PageFlags(mem, s, w)
    {
      LeafFlags(write, s, w);
      assert w[3..] == [w[3]] && write.v[3..] == [write.v[3]];
    }
    forall s, q: Path | s in write.roots && 1 <= |q| <= 3
      ensures PointerAt(write.After(), s, q) == PointerAt(write.mem, s, q)
    {
      write.Tables(s, q);
    }
  }

  // ---- Who may write ------------------------------------------------------

  /** A page is writable exactly when it is mapped so and every pointer above it
      is writable. */
  lemma WritableIs(mem: Memory, s: nat, w: Page)
    ensures Grants(Walk(mem, s, w), Writable) <==>
            && PageFlags(mem, s, w).Some? && Writable in PageFlags(mem, s, w).value
            && forall k :: 1 <= k <= 3 && PointerAt(mem, s, w[..k]).Some? ==>
                 Writable in PointerAt(mem, s, w[..k]).value.flags
  {
    hide TableAt, EntryAt;
    var walk := Walk(mem, s, w);
    WalkIsCutShort(mem, s, w);
    var p1, p2, p3 := PointerAt(mem, s, w[..1]), PointerAt(mem, s, w[..2]), PointerAt(mem, s, w[..3]);
    assert p1 == if walk[0].Some? && PointsToTable(0, walk[0].value) then walk[0] else None;
    assert p2 == if walk[1].Some? && PointsToTable(1, walk[1].value) then walk[1] else None;
    assert p3 == if walk[2].Some? && PointsToTable(2, walk[2].value) then walk[2] else None;
  }

  /** Page `w` of `s` is mapped writable, and so are the pointers above it, but
      for those that a mapping of `v` makes so. */
  ghost predicate BecomesWritable(mem: Memory, s: nat, w: Page, root: nat, v: Page, above: set<Flag>) {
    && PageFlags(mem, s, w).Some? && Writable in PageFlags(mem, s, w).value
    && forall k :: 1 <= k <= 3 && PointerAt(mem, s, w[..k]).Some? ==>
         Writable in PointerAt(mem, s, w[..k]).value.flags || Lifted(mem, s, w[..k], root, v, above)
  }

  /** Which pages other than those that meet `v` can be written afterwards. */
  ghost predicate WritableTraced(mem: Memory, mem': Memory, roots: set<nat>, root: nat, v: Page, above: set<Flag>) {
    forall s, w: Page :: s in roots && !Meets(mem, s, w, root, v, Anchor(mem, root, v, above, 3)) ==>
      (Grants(Walk(mem', s, w), Writable) <==> BecomesWritable(mem, s, w, root, v, above))
  }

  lemma WritableFromFlags(mem: Memory, mem': Memory, roots: set<nat>, root: nat, v: Page, above: set<Flag>,
                          now: Option<set<Flag>>)
    requires PageFlagsTraced(mem, mem', roots, root, v, above, now) && Writable in above && root in roots
    requires PointersWiden(mem, mem', roots, root, v, above, 3)
    ensures WritableTraced(mem, mem', roots, root, v, above)
    ensures Grants(Walk(mem', root, v), Writable) <==> now.Some? && Writable in now.value
  {
    hide TableAt, EntryAt, PageFlags, PointerAt, Anchor, Grants, Lifted, Meets;
    forall s, w: Page | s in roots && !Meets(mem, s, w, root, v, Anchor(mem, root, v, above, 3))
      ensures Grants(Walk(mem', s, w), Writable) <==> BecomesWritable(mem, s, w, root, v, above)
    {
      WritableIs(mem', s, w);
    }
    WritableIs(mem', root, v);
    forall k | 1 <= k <= 3
      ensures Lifted(mem, root, v[..k], root, v, above)
    {
      OwnWayIsLifted(mem, root, v, above, k);
    }
    assert Meets(mem, root, v, root, v, Anchor(mem, root, v, above, 3)) by { OwnWayMeets(mem, root, v, above, 3); }
  }

  lemma OwnWayMeets(mem: Memory, root: nat, v: Page, above: set<Flag>, k: nat)
    requires k <= 3
    ensures Meets(mem, root, v, root, v, Anchor(mem, root, v, above, k))
  {
    var d := Anchor(mem, root, v, above, k);
    if d > 0 {
      AnchorStays(mem, root, v, above, k);
      PointerIsTable(mem, root, v[..d]);
    }
  }

  lemma {:induction false} AnchorStays(mem: Memory, root: nat, v: Page, above: set<Flag>, k: nat)
    requires k <= 3
    ensures
      var d := Anchor(mem, root, v, above, k);
      d > 0 ==> Stays(EntryAt(mem, root, v[..d]), d - 1, above)
  {
    if k > 0 { AnchorStays(mem, root, v, above, k - 1); }
  }

  lemma OwnWayIsLifted(mem: Memory, root: nat, v: Page, above: set<Flag>, k: nat)
    requires 1 <= k <= 3
    ensures Lifted(mem, root, v[..k], root, v, above)
  {
    assert v[..k] + v[k..] == v;
    OwnWayMeets(mem, root, v, above, k - 1);
  }
}
