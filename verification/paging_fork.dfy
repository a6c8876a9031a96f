/**
 What it means for one address space to be a fork of another.

 `base` is physical memory when the fork began and `mem` when it ended. `owner`
 tells, for every frame the fork handed out, which path of the child it serves;
 being a map, it gives distinct paths distinct frames.
 */
module PagingFork {
  import opened Wrappers
  import opened Paging
  import opened PagingGraft

  /** A present entry below the PML4 that the fork copies rather than shares. */
  predicate IsCopied(e: Entry) {
    e.IsPresent() && (User in e.flags || UserOwned in e.flags) && Huge !in e.flags
  }

  /** A PML4 entry whose subtree the fork copies. */
  predicate IsCopiedRoot(i: Index, e: Entry) {
    i < 256 && e.IsPresent() && User in e.flags
  }

  /** Every entry on the way to `q`, the last one included, is copied. */
  ghost predicate CopiedPath(mem: Memory, root: nat, q: Path)
    decreases |q|
  {
    q == [] ||
    (CopiedPath(mem, root, Up(q)) &&
     var e := EntryAt(mem, root, q);
     e.Some? && if |q| == 1 then IsCopiedRoot(q[0], e.value) else IsCopied(e.value))
  }

  /** The pages that a fork copies lie in memory and are not free. */
  ghost predicate CopiedPagesInUse(mem: Memory, free: set<nat>, root: nat) {
    forall v: Page :: CopiedPath(mem, root, v) ==>
      EntryAt(mem, root, v).value.frame < |mem| && EntryAt(mem, root, v).value.frame !in free
  }

  /** User mappings lie in the lower half of the address space. */
  ghost predicate KernelHalfHasNoUserEntry(mem: Memory, root: nat) {
    root < |mem| && forall i: Index :: i >= 256 && mem[root][i].IsPresent() ==> User !in mem[root][i].flags
  }

  // ---- The copy, table by table -------------------------------------------

  ghost predicate Cloned(base: Memory, mem: Memory, s: nat, d: nat, p: Path, owner: map<nat, Path>)
    decreases 4 - |p|, 0
  {
    && 1 <= |p| <= 3 && s < |base| && d < |mem| && d in owner && owner[d] == p
    && forall j: Index :: ClonedEntry(base, mem, base[s][j], mem[d][j], p + [j], owner)
  }

  ghost predicate ClonedEntry(base: Memory, mem: Memory, e: Entry, e': Entry, q: Path, owner: map<nat, Path>)
    decreases 4 - |q|, 1
  {
    if !e.IsPresent() then e' == EMPTY
    else if !IsCopied(e) then e' == e
    else
      && e'.flags == e.flags && e'.frame in owner && owner[e'.frame] == q
      && (if |q| >= 4
          then e.frame < |base| && e'.frame < |mem| && mem[e'.frame] == base[e.frame]
          else Cloned(base, mem, e.frame, e'.frame, q, owner))
  }

  /** A finished copy is not disturbed by later work on other frames. */
  lemma {:induction false} ClonedIsStable(base: Memory, mem: Memory, mem': Memory, s: nat, d: nat, p: Path,
                                          owner: map<nat, Path>, owner': map<nat, Path>)
    requires Cloned(base, mem, s, d, p, owner)
    requires |mem'| == |mem|
    requires forall x :: x in owner ==> x in owner' && owner'[x] == owner[x]
    requires forall x :: x in owner && x < |mem| && p <= owner[x] ==> mem'[x] == mem[x]
    ensures Cloned(base, mem', s, d, p, owner')
    decreases 4 - |p|, 0
  {
    forall j: Index
      ensures ClonedEntry(base, mem', base[s][j], mem'[d][j], p + [j], owner')
    {
      assert mem'[d][j] == mem[d][j];
      assert ClonedEntry(base, mem, base[s][j], mem[d][j], p + [j], owner);
      ClonedEntryIsStable(base, mem, mem', base[s][j], mem[d][j], p + [j], owner, owner');
    }
  }

  lemma {:induction false} ClonedEntryIsStable(base: Memory, mem: Memory, mem': Memory, e: Entry, e': Entry, q: Path,
                                               owner: map<nat, Path>, owner': map<nat, Path>)
    requires 2 <= |q| <= 4 && ClonedEntry(base, mem, e, e', q, owner)
    requires |mem'| == |mem|
    requires forall x :: x in owner ==> x in owner' && owner'[x] == owner[x]
    requires forall x :: x in owner && x < |mem| && Up(q) <= owner[x] && owner[x] != Up(q) ==> mem'[x] == mem[x]
    ensures ClonedEntry(base, mem', e, e', q, owner')
    decreases 4 - |q|, 1
  {
    if IsCopied(e) && |q| < 4 {
      ClonedIsStable(base, mem, mem', e.frame, e'.frame, q, owner, owner');
    }
  }

  lemma ClonedEntriesAreStable(base: Memory, mem: Memory, mem': Memory, from: Table, to: Table, n: nat, p: Path,
                               owner: map<nat, Path>, owner': map<nat, Path>)
    requires 1 <= |p| <= 3 && n <= 512 && |mem'| == |mem|
    requires forall j: Index :: j < n ==> ClonedEntry(base, mem, from[j], to[j], p + [j], owner)
    requires forall x :: x in owner ==> x in owner' && owner'[x] == owner[x]
    requires forall x :: x in owner && x < |mem| && p <= owner[x] && owner[x] != p ==> mem'[x] == mem[x]
    ensures forall j: Index :: j < n ==> ClonedEntry(base, mem', from[j], to[j], p + [j], owner')
  {
    forall j: Index | j < n
      ensures ClonedEntry(base, mem', from[j], to[j], p + [j], owner')
    {
      assert Up(p + [j]) == p;
      ClonedEntryIsStable(base, mem, mem', from[j], to[j], p + [j], owner, owner');
    }
  }

  /** An entry of a table that `p` reaches. */
  lemma TableEntry(mem: Memory, root: nat, p: Path, i: Index)
    requires TableAt(mem, root, p).Some? && TableAt(mem, root, p).value < |mem|
    ensures
      var e := mem[TableAt(mem, root, p).value][i];
      && EntryAt(mem, root, p + [i]) == Some(e)
      && TableAt(mem, root, p + [i]) == (if PointsToTable(|p|, e) then Some(e.frame) else None)
      && (CopiedPath(mem, root, p + [i]) <==>
            CopiedPath(mem, root, p) && if p == [] then IsCopiedRoot(i, e) else IsCopied(e))
  {
    assert Up(p + [i]) == p && Last(p + [i]) == i;
  }

  /** What a fork may rely on when it copies entry `i` of the table at `p`. */
  lemma CopySource(base: Memory, free0: set<nat>, src: nat, p: Path, i: Index)
    requires TablesInUse(base, {src}, free0) && CopiedPagesInUse(base, free0, src)
    requires |p| <= 3 && TableAt(base, src, p).Some? && CopiedPath(base, src, p)
    ensures TableAt(base, src, p).value < |base| && TableAt(base, src, p).value !in free0
    ensures
      var e := base[TableAt(base, src, p).value][i];
      (if p == [] then IsCopiedRoot(i, e) else IsCopied(e)) ==>
        && CopiedPath(base, src, p + [i])
        && (|p| < 3 ==> TableAt(base, src, p + [i]) == Some(e.frame))
        && (|p| == 3 ==> e.frame < |base| && e.frame !in free0)
  {
    TableEntry(base, src, p, i);
  }

  // ---- The copy, path by path ---------------------------------------------

  /** The forked PML4: entries of the kernel half and entries without the user
      bit are shared, the others lead to copies. */
  ghost predicate ClonedRoot(base: Memory, mem: Memory, src: nat, dst: nat, i: Index, owner: map<nat, Path>)
    requires src < |base| && dst < |mem|
  {
    var e, e' := base[src][i], mem[dst][i];
    if IsCopiedRoot(i, e) then
      e'.flags == e.flags && Cloned(base, mem, e.frame, e'.frame, [i], owner)
    else if e.IsPresent() then e' == e
    else !e'.IsPresent()
  }

  /** Address space `dst` has been forked from `src`. */
  datatype Fork = Fork(base: Memory, mem: Memory, roots: set<nat>, users: set<nat>, free0: set<nat>, free: set<nat>,
                       src: nat, dst: nat, owner: map<nat, Path>)
  {
    ghost predicate Valid() {
      && Consistent(base, roots, users, free0)
      && src in roots
      && CopiedPagesInUse(base, free0, src)
      && |mem| == |base| && free <= free0
      && (forall x :: 0 <= x < |mem| && x !in free0 ==> mem[x] == base[x])
      && (forall x :: x in owner ==> x in free0 && x !in free)
      && src < |mem| && dst in owner && owner[dst] == []
      && (forall i: Index :: ClonedRoot(base, mem, src, dst, i, owner))
    }

    lemma {:induction false} CopiedIsReached(q: Path)
      requires |q| <= 3 && CopiedPath(base, src, q)
      ensures TableAt(base, src, q).Some?
      decreases |q|
    {
      if q != [] { CopiedIsReached(Up(q)); }
    }

    /** One step down from a copied table. */
    lemma TableBelowCopy(up: Path, i: Index)
      requires Valid() && |up| <= 2 && CopiedPath(base, src, up)
      requires
        var t, t' := TableAt(base, src, up), TableAt(mem, dst, up);
        t.Some? && t'.Some? && t'.value in owner && owner[t'.value] == up
        && if up == [] then t.value == src && t'.value == dst else Cloned(base, mem, t.value, t'.value, up, owner)
      ensures
        var q := up + [i];
        var t, t' := TableAt(base, src, q), TableAt(mem, dst, q);
        if CopiedPath(base, src, q) then
          t.Some? && t'.Some? && t'.value in owner && owner[t'.value] == q
          && Cloned(base, mem, t.value, t'.value, q, owner)
        else t' == t
    {
      hide Consistent, TableAt, CopiedPath;
      CopiedInBounds();
      var s, d := TableAt(base, src, up).value, TableAt(mem, dst, up).value;
      assert s < |base| by { InUse(src, up); }
      TableEntry(base, src, up, i);
      TableEntry(mem, dst, up, i);
      if up == [] {
        assert ClonedRoot(base, mem, src, dst, i, owner);
        assert up + [i] == [i];
      } else {
        assert ClonedEntry(base, mem, base[s][i], mem[d][i], up + [i], owner);
      }
    }

    /** What was in use when the fork began has not changed. */
    lemma InUse(r: nat, q: Path)
      requires Valid() && r in roots && |q| <= 3 && TableAt(base, r, q).Some?
      ensures
        var x := TableAt(base, r, q).value;
        x < |base| && x !in free0 && mem[x] == base[x]
    {
    }

    /** The table that `q` reaches in the child: a copy that serves `q` alone,
        or the parent's table. */
    lemma {:induction false} Tables(q: Path)
      requires Valid() && |q| <= 3
      ensures
        var t, t' := TableAt(base, src, q), TableAt(mem, dst, q);
        if CopiedPath(base, src, q) then
          t.Some? && t'.Some? && t'.value in owner && owner[t'.value] == q
          && (q == [] || Cloned(base, mem, t.value, t'.value, q, owner))
        else t' == t
      decreases |q|
    {
      hide Consistent, Cloned, ClonedRoot;
      if q != [] {
        var up := Up(q);
        assert q == up + [Last(q)];
        Tables(up);
        if CopiedPath(base, src, up) {
          TableBelowCopy(up, Last(q));
        } else if TableAt(base, src, up).Some? {
          InUse(src, up);
        }
      }
    }

    lemma CopiedInBounds()
      requires Valid()
      ensures forall x :: x in owner ==> x < |mem|
    {
    }

    /** The entry that `q` selects in the child: a copy with the same flags, or
        the parent's entry. */
    lemma Entries(q: Path)
      requires Valid() && 1 <= |q| <= 4
      ensures
        var e, e' := EntryAt(base, src, q), EntryAt(mem, dst, q);
        if CopiedPath(base, src, q) then
          && e.Some? && e'.Some? && e'.value.flags == e.value.flags
          && e'.value.frame in owner && owner[e'.value.frame] == q
          && (|q| == 4 ==>
                e.value.frame < |base| && e'.value.frame < |mem| && mem[e'.value.frame] == base[e.value.frame])
        else if e.Some? && e.value.IsPresent() then e' == e
        else e.Some? == e'.Some? && (e'.Some? ==> !e'.value.IsPresent())
    {
      CopiedInBounds();
      var up, i := Up(q), Last(q);
      assert q == up + [i];
      Tables(up);
      if TableAt(base, src, up).Some? {
        TableEntry(base, src, up, i);
        if CopiedPath(base, src, up) {
          TableEntry(mem, dst, up, i);
          if up == [] {
            assert ClonedRoot(base, mem, src, dst, i, owner);
          } else {
            var s, d := TableAt(base, src, up).value, TableAt(mem, dst, up).value;
            assert ClonedEntry(base, mem, base[s][i], mem[d][i], up + [i], owner);
          }
        }
      }
    }

    // ---- What the child sees ----------------------------------------------

    lemma CopiedPrefix(v: Page, k: nat)
      requires k <= 4 && CopiedPath(base, src, v)
      ensures CopiedPath(base, src, v[..k])
      decreases 4 - k
    {
      if k < 4 {
        CopiedPrefix(v, k + 1);
        assert Up(v[..k + 1]) == v[..k];
      } else {
        assert v[..k] == v;
      }
    }

    lemma CopiedTranslatesToItsFrame(v: Page)
      requires CopiedPath(base, src, v)
      ensures EntryAt(base, src, v).Some?
      ensures Translate(base, src, v) == Some(EntryAt(base, src, v).value.frame)
    {
      hide TableAt;
      CopiedPrefix(v, 3);
      CopiedPrefix(v, 2);
    }

    lemma CopyTranslatesToItsFrame(v: Page)
      requires Valid() && CopiedPath(base, src, v)
      ensures EntryAt(mem, dst, v).Some?
      ensures Translate(mem, dst, v) == Some(EntryAt(mem, dst, v).value.frame)
    {
      hide Consistent, TableAt, ClonedRoot;
      CopiedPrefix(v, 3);
      CopiedPrefix(v, 2);
      Entries(v[..2]);
      Entries(v[..3]);
      Entries(v);
    }

    lemma SameResolution(v: Page)
      requires Valid() && !CopiedPath(base, src, v)
      ensures Translate(mem, dst, v) == Translate(base, src, v)
    {
      hide Consistent, TableAt, ClonedRoot;
      Entries(v[..2]);
      Entries(v[..3]);
      Entries(v);
      assert CopiedPath(base, src, v[..2]) ==> Huge !in EntryAt(base, src, v[..2]).value.flags;
      assert CopiedPath(base, src, v[..3]) ==> Huge !in EntryAt(base, src, v[..3]).value.flags;
    }

    /** The child maps exactly the pages its parent maps. A copied page has a
        frame of its own with the same contents; any other page is shared. */
    lemma Translations(v: Page)
      requires Valid()
      ensures
        var f, f' := Translate(base, src, v), Translate(mem, dst, v);
        if CopiedPath(base, src, v) then
          && f.Some? && f.value < |base| && f.value !in free0
          && f'.Some? && f'.value in owner && owner[f'.value] == v
          && mem[f'.value] == base[f.value]
        else f' == f
    {
      hide Consistent, TableAt, ClonedRoot;
      Entries(v);
      if CopiedPath(base, src, v) {
        CopiedTranslatesToItsFrame(v);
        CopyTranslatesToItsFrame(v);
      } else {
        SameResolution(v);
      }
    }

    /** Every page allows the child exactly what it allows the parent. */
    lemma Access(v: Page, bit: Flag)
      requires Valid()
      ensures Grants(Walk(mem, dst, v), bit) <==> Grants(Walk(base, src, v), bit)
      ensures
        var l, l' := Leaf(Walk(base, src, v)), Leaf(Walk(mem, dst, v));
        l.Some? == l'.Some? && (l.Some? ==> l'.value.flags == l.value.flags)
    {
      hide Consistent, TableAt, ClonedRoot, CopiedPath, Grants, Leaf;
      Entries(v[..1]);
      Entries(v[..2]);
      Entries(v[..3]);
      Entries(v);
      WalkIsCutShort(base, src, v);
      WalkIsCutShort(mem, dst, v);
      SameFlagsSameAccess(Walk(base, src, v), Walk(mem, dst, v), bit);
    }

    /** No two pages of the child share a frame that was copied, and every such
        frame was free before. */
    lemma CopiesAreDistinct(v: Page, w: Page)
      requires Valid() && CopiedPath(base, src, v) && v != w
      ensures Translate(mem, dst, v).Some? && Translate(mem, dst, v).value in free0
      ensures CopiedPath(base, src, w) ==> Translate(mem, dst, v) != Translate(mem, dst, w)
    {
      Translations(v);
      Translations(w);
    }

    // ---- The invariant, with the child added --------------------------------

    lemma {:induction false} OtherTables(r: nat, q: Path)
      requires Valid() && r in roots && |q| <= 3
      ensures TableAt(mem, r, q) == TableAt(base, r, q)
      ensures Private(mem, r, q) == Private(base, r, q)
      ensures forall i: Index :: EntryAt(mem, r, q + [i]) == EntryAt(base, r, q + [i])
      decreases |q|
    {
      if q != [] {
        OtherTables(r, Up(q));
        assert q == Up(q) + [Last(q)];
      }
      forall i: Index
        ensures EntryAt(mem, r, q + [i]) == EntryAt(base, r, q + [i])
      {
        assert Up(q + [i]) == q;
      }
    }

    /** The child's private tables are copies of its parent's private tables. */
    lemma {:induction false} Privacy(q: Path)
      requires Valid() && KernelHalfHasNoUserEntry(base, src) && |q| <= 3
      ensures Private(mem, dst, q) == Private(base, src, q)
      ensures Private(base, src, q) ==> CopiedPath(base, src, q)
      decreases |q|
    {
      if q != [] {
        Privacy(Up(q));
        Entries(q);
        if |q| == 1 { assert Up(q) == []; }
      }
    }

    lemma KeepsTablesInUse()
      requires Valid()
      ensures TablesInUse(mem, roots + {dst}, free)
    {
      CopiedInBounds();
      forall r, q: Path | r in roots + {dst} && |q| <= 3 && TableAt(mem, r, q).Some?
        ensures TableAt(mem, r, q).value < |mem| && TableAt(mem, r, q).value !in free
      {
        if r == dst { Tables(q); } else { OtherTables(r, q); }
      }
    }

    /** The table of the parent, or the path it was made for, behind a table
        of the enlarged system. */
    lemma Origin(r: nat, q: Path)
      requires Valid() && r in roots + {dst} && |q| <= 3 && TableAt(mem, r, q).Some?
      ensures
        var x := TableAt(mem, r, q).value;
        if x in free0 then r == dst && x in owner && owner[x] == q && CopiedPath(base, src, q)
        else
          var r0 := if r == dst then src else r;
          TableAt(base, r0, q) == Some(x) && (r == dst ==> !CopiedPath(base, src, q))
    {
      if r == dst { Tables(q); } else { OtherTables(r, q); }
    }

    lemma KeepsOneDepth()
      requires Valid()
      ensures OneDepthPerTable(mem, roots + {dst})
    {
      forall r, r', q: Path, q': Path |
        r in roots + {dst} && r' in roots + {dst} && |q| <= 3 && |q'| <= 3
        && TableAt(mem, r, q).Some? && TableAt(mem, r', q') == TableAt(mem, r, q)
        ensures |q| == |q'|
      {
        Origin(r, q);
        Origin(r', q');
      }
    }

    lemma KeepsExclusive()
      requires Valid() && KernelHalfHasNoUserEntry(base, src)
      ensures PrivateTablesAreExclusive(mem, roots + {dst}, users + {dst})
    {
      forall r, r', q: Path, q': Path |
        r in users + {dst} && r' in roots + {dst} && |q| <= 3 && |q'| <= 3 && Private(mem, r, q)
        && TableAt(mem, r', q') == TableAt(mem, r, q)
        ensures r == r' && q == q'
      {
        PrivateIsReached(mem, r, q);
        Origin(r, q);
        Origin(r', q');
        if r == dst {
          Privacy(q);
        } else {
          OtherTables(r, q);
          if r' == dst {
            // A table shared with the child is not private to its parent.
            assert r == src && q == q';
            Privacy(q);
            assert false;
          }
        }
      }
    }

    lemma KeepsDiscipline()
      requires Valid() && KernelHalfHasNoUserEntry(base, src)
      ensures EntriesAreDisciplined(mem, roots + {dst}, users + {dst})
    {
      forall r, q: Path | r in roots + {dst} && 1 <= |q| <= 4 && EntryAt(mem, r, q).Some?
        ensures EntryIsDisciplined(|q| - 1, Owned(mem, users + {dst}, r, Up(q)), EntryAt(mem, r, q).value)
      {
        assert q == Up(q) + [Last(q)];
        if r == dst {
          Entries(q);
          Privacy(Up(q));
        } else {
          OtherTables(r, Up(q));
        }
      }
    }

    lemma KeepsConsistent()
      requires Valid() && KernelHalfHasNoUserEntry(base, src)
      ensures Consistent(mem, roots + {dst}, users + {dst}, free)
      ensures dst !in roots
    {
      assert TableAt(base, dst, []) == Some(dst);
      KeepsTablesInUse();
      KeepsOneDepth();
      KeepsExclusive();
      KeepsDiscipline();
    }
  }

  // ---- Reading and writing through an address space -----------------------

  ghost function Load(mem: Memory, root: nat, v: Page, i: Index): Option<Entry> {
    var f := Translate(mem, root, v);
    if f.Some? && f.value < |mem| then Some(mem[f.value][i]) else None
  }

  ghost function Store(mem: Memory, root: nat, v: Page, i: Index, word: Entry): Memory {
    var f := Translate(mem, root, v);
    if f.Some? && f.value < |mem| then mem[f.value := mem[f.value][i := word]] else mem
  }

  /** A write to a frame that holds no table of `r` changes no translation. */
  lemma {:induction false} WritesOutsideTables(mem: Memory, mem': Memory, r: nat, x: nat, q: Path)
    requires |mem'| == |mem| && x < |mem| && forall y :: 0 <= y < |mem| && y != x ==> mem'[y] == mem[y]
    requires forall p: Path :: |p| <= 3 ==> TableAt(mem, r, p) != Some(x)
    requires |q| <= 4
    ensures |q| <= 3 ==> TableAt(mem', r, q) == TableAt(mem, r, q)
    ensures q != [] ==> EntryAt(mem', r, q) == EntryAt(mem, r, q)
    decreases |q|
  {
    if q != [] { WritesOutsideTables(mem, mem', r, x, Up(q)); }
  }

  lemma StoreKeepsTranslations(mem: Memory, mem': Memory, r: nat, x: nat, v: Page)
    requires |mem'| == |mem| && x < |mem| && forall y :: 0 <= y < |mem| && y != x ==> mem'[y] == mem[y]
    requires forall p: Path :: |p| <= 3 ==> TableAt(mem, r, p) != Some(x)
    ensures Translate(mem', r, v) == Translate(mem, r, v)
  {
    WritesOutsideTables(mem, mem', r, x, v[..2]);
    WritesOutsideTables(mem, mem', r, x, v[..3]);
    WritesOutsideTables(mem, mem', r, x, v);
  }

  /** The pages that a fork of `root` copies are not its own page tables. */
  ghost predicate CopiedPagesHoldNoTable(mem: Memory, root: nat) {
    forall v: Page, p: Path :: CopiedPath(mem, root, v) && |p| <= 3 ==>
      TableAt(mem, root, p) != Some(EntryAt(mem, root, v).value.frame)
  }

  /** After a fork, whatever one of the two processes writes to its pages, the
      other reads what it would have read without that write. */
  lemma ForkIsolates(k: Fork, v: Page, i: Index, word: Entry, w: Page, j: Index)
    requires k.Valid() && CopiedPagesHoldNoTable(k.base, k.src)
    requires CopiedPath(k.base, k.src, v) && CopiedPath(k.base, k.src, w)
    ensures Load(Store(k.mem, k.dst, v, i, word), k.src, w, j) == Load(k.base, k.src, w, j)
    ensures Load(Store(k.mem, k.src, v, i, word), k.dst, w, j) == Load(k.base, k.src, w, j)
  {
    k.Translations(v);
    k.Translations(w);
    k.CopiedInBounds();
    SourceStillTranslates(k, v);
    SourceStillTranslates(k, w);
    PageHoldsNoTable(k, v);
    var f, f' := Translate(k.base, k.src, v).value, Translate(k.mem, k.dst, v).value;
    StoreKeepsTranslations(k.mem, Store(k.mem, k.dst, v, i, word), k.src, f', w);
    StoreKeepsTranslations(k.mem, Store(k.mem, k.src, v, i, word), k.dst, f, w);
  }

  lemma SourceStillTranslates(k: Fork, v: Page)
    requires k.Valid()
    ensures Translate(k.mem, k.src, v) == Translate(k.base, k.src, v)
  {
    k.OtherTables(k.src, v[..1]);
    k.OtherTables(k.src, v[..2]);
    k.OtherTables(k.src, v[..3]);
    assert v[..2] == v[..1] + [v[1]] && v[..3] == v[..2] + [v[2]] && v == v[..3] + [v[3]];
  }

  /** Neither copy of a copied page holds a table of the other process. */
  lemma PageHoldsNoTable(k: Fork, v: Page)
    requires k.Valid() && CopiedPagesHoldNoTable(k.base, k.src) && CopiedPath(k.base, k.src, v)
    ensures forall p: Path :: |p| <= 3 ==> TableAt(k.mem, k.src, p) != Translate(k.mem, k.dst, v)
    ensures forall p: Path :: |p| <= 3 ==> TableAt(k.mem, k.dst, p) != Translate(k.base, k.src, v)
  {
    k.Translations(v);
    k.CopiedTranslatesToItsFrame(v);
    forall p: Path | |p| <= 3
      ensures TableAt(k.mem, k.src, p) != Translate(k.mem, k.dst, v)
      ensures TableAt(k.mem, k.dst, p) != Translate(k.base, k.src, v)
    {
      k.Tables(p);
      k.OtherTables(k.src, p);
    }
  }

  /** A mapped page is shared with the child exactly when it is not copied. */
  lemma SharedExactlyUnlessCopied(k: Fork, v: Page)
    requires k.Valid() && Translate(k.base, k.src, v).Some?
    ensures Translate(k.mem, k.dst, v) == Translate(k.base, k.src, v) <==> !CopiedPath(k.base, k.src, v)
  {
    k.Translations(v);
  }

  /** A page that the parent may access is shared with the child exactly when it
      lies in the upper half of the address space, or when an entry below the
      PML4 on its walk carries the huge bit. The bit counts in a last-level entry
      too, where it does not mean a huge page. */
  lemma SharedExactlyWhenHuge(k: Fork, v: Page)
    requires k.Valid() && Accessible(k.base, k.src, v)
    ensures
      var w := Walk(k.base, k.src, v);
      Translate(k.mem, k.dst, v) == Translate(k.base, k.src, v) <==>
      v[0] >= 256 || exists n :: 1 <= n < 4 && w[n].Some? && Huge in w[n].value.flags
  {
    var w := Walk(k.base, k.src, v);
    WalkIsCutShort(k.base, k.src, v);
    SharedExactlyUnlessCopied(k, v);
    assert v[..4] == v;
    assert Up(v) == v[..3] && Up(v[..3]) == v[..2] && Up(v[..2]) == v[..1] && Up(v[..1]) == [];
    assert w[0].value == k.base[k.src][v[0]];
    assert CopiedPath(k.base, k.src, v[..1]) <==> v[0] < 256;
    if CopiedPath(k.base, k.src, v) {
      k.CopiedPrefix(v, 3);
      k.CopiedPrefix(v, 2);
      k.CopiedPrefix(v, 1);
    } else if v[0] < 256 && Huge !in w[1].value.flags {
      assert CopiedPath(k.base, k.src, v[..2]);
      assert w[2].Some?;
      if Huge !in w[2].value.flags {
        assert CopiedPath(k.base, k.src, v[..3]);
        assert w[3].Some?;
        assert Huge in w[3].value.flags;
      }
    }
  }

  /** A page marked as the process's own is shared with the child nevertheless
      exactly when it lies in the upper half, when it carries the huge bit, or
      when an entry above it is not one that the fork copies: a PML4 entry
      without the user bit, or a PDPT or PD entry with neither the user bit nor
      the mark. */
  lemma MarkedPageSharedExactly(k: Fork, v: Page)
    requires k.Valid() && EntryAt(k.base, k.src, v).Some?
    requires {Present, UserOwned} <= EntryAt(k.base, k.src, v).value.flags
    ensures
      var w := Walk(k.base, k.src, v);
      && w[0].Some? && w[1].Some? && w[2].Some?
      && (Translate(k.mem, k.dst, v) == Translate(k.base, k.src, v) <==>
            || v[0] >= 256 || Huge in w[3].value.flags || User !in w[0].value.flags
            || w[1].value.flags * {User, UserOwned} == {} || w[2].value.flags * {User, UserOwned} == {})
  {
    var w := Walk(k.base, k.src, v);
    WalkIsCutShort(k.base, k.src, v);
    SharedExactlyUnlessCopied(k, v);
    assert Up(v) == v[..3] && Up(v[..3]) == v[..2] && Up(v[..2]) == v[..1] && Up(v[..1]) == [];
    assert CopiedPath(k.base, k.src, v[..1]) <==> v[0] < 256 && User in w[0].value.flags;
    assert CopiedPath(k.base, k.src, v[..2]) <==> CopiedPath(k.base, k.src, v[..1]) && IsCopied(w[1].value);
    assert CopiedPath(k.base, k.src, v[..3]) <==> CopiedPath(k.base, k.src, v[..2]) && IsCopied(w[2].value);
    assert CopiedPath(k.base, k.src, v) <==> CopiedPath(k.base, k.src, v[..3]) && IsCopied(w[3].value);
    Marks(w[1].value);
    Marks(w[2].value);
  }

  lemma Marks(e: Entry)
    ensures e.flags * {User, UserOwned} == {} <==> User !in e.flags && UserOwned !in e.flags
  {
    assert User in e.flags ==> User in e.flags * {User, UserOwned};
    assert UserOwned in e.flags ==> UserOwned in e.flags * {User, UserOwned};
  }

  lemma SameFlagsSameAccess(w: seq<Option<Entry>>, w': seq<Option<Entry>>, bit: Flag)
    requires |w| == |w'| == 4 && CutShort(w) && CutShort(w')
    requires forall k :: 0 <= k < 4 ==> w[k].Some? == w'[k].Some?
    requires forall k :: 0 <= k < 4 && w[k].Some? ==> w[k].value.IsPresent() == w'[k].value.IsPresent()
    requires forall k :: 0 <= k < 4 && w[k].Some? && w[k].value.IsPresent() ==> w'[k].value.flags == w[k].value.flags
    ensures Grants(w', bit) <==> Grants(w, bit)
    ensures Leaf(w).Some? == Leaf(w').Some? && (Leaf(w).Some? ==> Leaf(w').value.flags == Leaf(w).value.flags)
  {
    assert w[0].Some? && !w[0].value.IsPresent() ==> w[1].None?;
    assert w[1].Some? && !w[1].value.IsPresent() ==> w[2].None?;
    assert w[2].Some? && !w[2].value.IsPresent() ==> w[3].None?;
  }
}
