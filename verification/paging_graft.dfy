/**
 What hanging a fresh table under one entry does to every walk.

 `ensure_table` and `split_huge_entry` change the page tables in one way only:
 a fresh frame is filled and one entry of an existing table is redirected to it.
 The table that is written may be shared by many address spaces, so the effect
 is stated for every root and every path.
 */
module PagingGraft {
  import opened Wrappers
  import opened Paging

  /** Frame `f` filled with `fill`, and entry `i` of table `t` set to `e`. */
  function GraftedMemory(mem: Memory, t: nat, i: Index, e: Entry, f: nat, fill: Table): Memory
    requires t < |mem| && f < |mem|
  {
    var mem1 := mem[f := fill];
    mem1[t := mem1[t][i := e]]
  }

  /** `fill`, used as a table of depth `d + 1`, stands for everything that
      entry `o` of a table of depth `d` stood for. */
  ghost predicate Represents(mem: Memory, d: nat, o: Entry, fill: Table) {
    if PointsToTable(d, o) then o.frame < |mem| && fill == mem[o.frame]
    else if !o.IsPresent() then forall j: Index :: fill[j] == EMPTY
    else
      forall j: Index ::
        && fill[j].IsPresent()
        && (d == 1 ==> fill[j].frame == o.frame + j as nat * 512 && Huge in fill[j].flags)
        && (d == 2 ==> fill[j].frame == o.frame + j)
        && fill[j].flags - {User, Huge} == o.flags - {User, Huge}
  }

  /** Redirecting entry `i` of the table at `p` in `root` to the fresh frame
      `e.frame`, which is filled with `fill`. */
  datatype Graft = Graft(mem: Memory, roots: set<nat>, users: set<nat>, free: set<nat>,
                         root: nat, p: Path, i: Index, e: Entry, fill: Table)
  {
    ghost function Old(): Option<Entry> {
      EntryAt(mem, root, p + [i])
    }

    /** The conditions under which the kernel does this. */
    ghost predicate Valid() {
      && Consistent(mem, roots, users, free)
      && root in roots && |p| <= 2 && TableAt(mem, root, p).Some?
      && e.frame in free
      && PointsToTable(|p|, e) && Writable in e.flags
      && (User in e.flags ==> Owned(mem, users, root, p))
      && Old().Some?
      && Represents(mem, |p|, Old().value, fill)
      && (PointsToTable(|p|, Old().value) ==> User !in Old().value.flags)
      && (MapsHuge(|p|, Old().value) ==>
            && (User in Old().value.flags ==> User in e.flags)
            && forall j: Index :: User in fill[j].flags <==> User in e.flags)
    }

    ghost function Target(): nat
      requires Valid()
    {
      TableAt(mem, root, p).value
    }

    ghost function After(): Memory
      requires Valid()
    {
      GraftedMemory(mem, Target(), i, e, e.frame, fill)
    }

    /** The path goes through the redirected entry. */
    ghost predicate Through(r: nat, q: Path)
      requires Valid()
    {
      |p| < |q| && TableAt(mem, r, q[..|p|]) == Some(Target()) && q[|p|] == i
    }

    /** Only paths that end at the redirected entry reach another table. */
    lemma {:induction false} Tables(r: nat, q: Path)
      requires Valid() && r in roots && |q| <= 3
      ensures TableAt(After(), r, q) ==
              if |q| == |p| + 1 && Through(r, q) then Some(e.frame) else TableAt(mem, r, q)
      decreases |q|
    {
      assert Up(p + [i]) == p;
      if q != [] {
        var up := Up(q);
        Tables(r, up);
        if |up| == |p| + 1 && Through(r, up) {
          assert up[..|p|] == Up(up);
        } else if TableAt(mem, r, up) == Some(Target()) {
          assert |up| == |p|;
          assert q[..|p|] == up;
        } else if |q| == |p| + 1 {
          assert q[..|p|] == up;
        }
      }
    }

    lemma Entries(r: nat, q: Path)
      requires Valid() && r in roots && 1 <= |q| <= 4
      ensures EntryAt(After(), r, q) ==
              if |q| == |p| + 1 && Through(r, q) then Some(e)
              else if |q| == |p| + 2 && Through(r, q) then Some(fill[q[|p| + 1]])
              else EntryAt(mem, r, q)
    {
      var up := Up(q);
      Tables(r, up);
      if TableAt(mem, r, up) == Some(Target()) {
        assert |up| == |p|;
      }
      if |p| < |q| {
        if |p| == |up| { assert q[..|p|] == up; } else { assert q[..|p|] == up[..|p|]; }
      }
    }

    /** An entry that the redirected one used to stand for. */
    lemma OldEntry(r: nat, q: Path)
      requires Valid() && r in roots && |q| == |p| + 1 && Through(r, q)
      ensures EntryAt(mem, r, q) == Old()
    {
      assert Up(p + [i]) == p && Up(q) == q[..|p|];
    }

    lemma Prefixes(v: Page)
      ensures forall k, n :: 0 <= k <= n <= 4 ==> v[..n][..k] == v[..k]
      ensures forall n :: 1 <= n <= 4 ==> Up(v[..n]) == v[..n - 1]
      ensures v[..4] == v
    {
    }

    /** The three entries of a walk, before and after. */
    lemma WalkEntry(r: nat, v: Page, n: nat)
      requires Valid() && r in roots && 1 <= n <= 4
      ensures EntryAt(After(), r, v[..n]) ==
              if n == |p| + 1 && Through(r, v) then Some(e)
              else if n == |p| + 2 && Through(r, v) then Some(fill[v[|p| + 1]])
              else EntryAt(mem, r, v[..n])
      ensures n == |p| + 1 && Through(r, v) ==> EntryAt(mem, r, v[..n]) == Old()
      ensures n == |p| + 2 && Through(r, v) ==>
              EntryAt(mem, r, v[..n]) ==
                if PointsToTable(|p|, Old().value) then Some(mem[Old().value.frame][v[|p| + 1]]) else None
    {
      Prefixes(v);
      Entries(r, v[..n]);
      if n == |p| + 1 && Through(r, v) {
        OldEntry(r, v[..n]);
      } else if n == |p| + 2 && Through(r, v) {
        OldEntry(r, v[..n - 1]);
      }
    }

    /** No address of any address space changes its translation. */
    lemma Translations(r: nat, v: Page)
      requires Valid() && r in roots
      ensures Translate(After(), r, v) == Translate(mem, r, v)
    {
      hide Consistent, TableAt, EntryAt;
      var before, after := Walk(mem, r, v), Walk(After(), r, v);
      WalkIsCutShort(mem, r, v);
      WalkIsCutShort(After(), r, v);
      assert v[..4] == v;
      WalkEntry(r, v, 1);
      WalkEntry(r, v, 2);
      WalkEntry(r, v, 3);
      WalkEntry(r, v, 4);
      if Through(r, v) {
        SameResolution(mem, |p|, Old().value, e, fill, before, after, v);
      }
    }

    /** Every entry above the redirected one has the user bit, if that one has. */
    lemma UserAbove(r: nat, v: Page, n: nat)
      requires Valid() && r in roots && Through(r, v) && User in e.flags && n < |p|
      ensures Walk(mem, r, v)[n].Some? && User in Walk(mem, r, v)[n].value.flags
    {
      assert r == root && v[..|p|] == p;
      Prefixes(v);
      assert Private(mem, r, v[..n + 1]);
    }

    /** A page becomes accessible to user mode only when it lies in the huge
        page that is split for a user mapping, and then it does. */
    lemma Accessibility(r: nat, v: Page)
      requires Valid() && r in roots
      ensures Accessible(After(), r, v) <==>
              Accessible(mem, r, v)
              || (User in e.flags && MapsHuge(|p|, Old().value) && Through(r, v))
    {
      hide Consistent, TableAt, EntryAt, Grants;
      var before, after := Walk(mem, r, v), Walk(After(), r, v);
      WalkIsCutShort(mem, r, v);
      WalkIsCutShort(After(), r, v);
      assert v[..4] == v;
      WalkEntry(r, v, 1);
      WalkEntry(r, v, 2);
      WalkEntry(r, v, 3);
      WalkEntry(r, v, 4);
      if Through(r, v) {
        FillHasNoUserPointer(v[|p| + 1]);
        if User in e.flags {
          forall n | 0 <= n < |p|
            ensures before[n].Some? && User in before[n].value.flags
          {
            UserAbove(r, v, n);
          }
        }
        AccessAcross(mem, |p|, Old().value, e, fill, before, after, v);
      }
    }

    // ---- The invariant --------------------------------------------------

    /** A copied table carries no user bit, and no new table a user pointer. */
    lemma FillHasNoUserPointer(j: Index)
      requires Valid()
      ensures PointsToTable(|p| + 1, fill[j]) ==> User !in fill[j].flags
      ensures (User !in e.flags || PointsToTable(|p|, Old().value)) && fill[j].IsPresent() ==>
              User !in fill[j].flags
    {
      if PointsToTable(|p|, Old().value) {
        var q := p + [i];
        assert Up(q) == p && Last(q) == i;
        assert !Private(mem, root, q);
        assert TableAt(mem, root, q) == Some(Old().value.frame);
        assert Up(q + [j]) == q && Last(q + [j]) == j;
        assert EntryAt(mem, root, q + [j]) == Some(fill[j]);
      }
    }

    lemma {:induction false} Privacy(r: nat, q: Path)
      requires Valid() && r in roots && |q| <= 3
      ensures Private(After(), r, q) <==>
              if Through(r, q) then |q| == |p| + 1 && Private(mem, r, q[..|p|]) && User in e.flags
              else Private(mem, r, q)
      ensures Through(r, q) ==> !Private(mem, r, q)
      decreases |q|
    {
      if q != [] {
        var up := Up(q);
        Privacy(r, up);
        Entries(r, q);
        if Through(r, q) {
          if |up| == |p| {
            assert q[..|p|] == up;
            OldEntry(r, q);
          } else {
            assert q[..|p|] == up[..|p|];
            FillHasNoUserPointer(q[|p| + 1]);
          }
        } else if |up| > |p| {
          assert q[..|p|] == up[..|p|];
        }
      }
    }

    lemma KeepsTablesInUse()
      requires Valid()
      ensures TablesInUse(After(), roots, free - {e.frame})
    {
      forall r, q: Path | r in roots && |q| <= 3 && TableAt(After(), r, q).Some?
        ensures TableAt(After(), r, q).value < |mem| && TableAt(After(), r, q).value !in free - {e.frame}
      {
        Tables(r, q);
      }
    }

    lemma KeepsOneDepth()
      requires Valid()
      ensures OneDepthPerTable(After(), roots)
    {
      forall r, r', q: Path, q': Path |
        r in roots && r' in roots && |q| <= 3 && |q'| <= 3
        && TableAt(After(), r, q).Some? && TableAt(After(), r', q') == TableAt(After(), r, q)
        ensures |q| == |q'|
      {
        Tables(r, q);
        Tables(r', q');
      }
    }

    lemma KeepsExclusive()
      requires Valid()
      ensures PrivateTablesAreExclusive(After(), roots, users)
    {
      forall r, r', q: Path, q': Path |
        r in users && r' in roots && |q| <= 3 && |q'| <= 3 && Private(After(), r, q)
        && TableAt(After(), r', q') == TableAt(After(), r, q)
        ensures r == r' && q == q'
      {
        Tables(r, q);
        Tables(r', q');
        Privacy(r, q);
        if Through(r, q) {
          assert Through(r', q') && |q'| == |p| + 1;
          assert r == r' && q[..|p|] == q'[..|p|];
          assert q == q[..|p|] + [i] && q' == q'[..|p|] + [i];
        } else {
          PrivateIsReached(mem, r, q);
        }
      }
    }

    lemma KeepsDiscipline()
      requires Valid()
      ensures EntriesAreDisciplined(After(), roots, users)
    {
      forall r, q: Path | r in roots && 1 <= |q| <= 4 && EntryAt(After(), r, q).Some?
        ensures EntryIsDisciplined(|q| - 1, Owned(After(), users, r, Up(q)), EntryAt(After(), r, q).value)
      {
        var up := Up(q);
        Entries(r, q);
        Privacy(r, up);
        if Through(r, q) {
          if |up| == |p| {
            assert q[..|p|] == up;
          } else {
            assert q[..|p|] == up[..|p|];
            FillHasNoUserPointer(q[|p| + 1]);
          }
        } else if |up| > |p| {
          assert q[..|p|] == up[..|p|];
        }
      }
    }

    lemma KeepsConsistent()
      requires Valid()
      ensures Consistent(After(), roots, users, free - {e.frame})
    {
      KeepsTablesInUse();
      KeepsOneDepth();
      KeepsExclusive();
      KeepsDiscipline();
    }
  }

  lemma PrivateIsReached(mem: Memory, r: nat, q: Path)
    requires Private(mem, r, q)
    ensures TableAt(mem, r, q).Some?
  {
  }

  lemma SameResolution(mem: Memory, d: nat, o: Entry, e: Entry, fill: Table,
                       before: seq<Option<Entry>>, after: seq<Option<Entry>>, v: Page)
    requires d <= 2 && |before| == |after| == 4
    requires Represents(mem, d, o, fill) && PointsToTable(d, e)
    requires CutShort(before) && CutShort(after)
    requires before[d] == Some(o) && after[d] == Some(e)
    requires before[d + 1] == if PointsToTable(d, o) then Some(mem[o.frame][v[d + 1]]) else None
    requires after[d + 1] == Some(fill[v[d + 1]])
    requires forall k :: 0 <= k < 4 && k != d && k != d + 1 ==> after[k] == before[k]
    ensures Resolve(after[1], after[2], after[3], v) == Resolve(before[1], before[2], before[3], v)
  {
    if !PointsToTable(d, o) {
      assert before[d + 1].None?;
      if d == 0 {
        assert before[2].None? && before[3].None?;
      } else if d == 1 {
        assert before[3].None?;
      }
    }
  }

  lemma AccessAcross(mem: Memory, d: nat, o: Entry, e: Entry, fill: Table,
                     before: seq<Option<Entry>>, after: seq<Option<Entry>>, v: Page)
    requires d <= 2 && |before| == |after| == 4
    requires Represents(mem, d, o, fill) && PointsToTable(d, e)
    requires CutShort(before) && CutShort(after)
    requires before[d] == Some(o) && after[d] == Some(e)
    requires before[d + 1] == if PointsToTable(d, o) then Some(mem[o.frame][v[d + 1]]) else None
    requires after[d + 1] == Some(fill[v[d + 1]])
    requires forall k :: 0 <= k < 4 && k != d && k != d + 1 ==> after[k] == before[k]
    requires PointsToTable(d, o) ==> User !in o.flags
    requires PointsToTable(d, o) && fill[v[d + 1]].IsPresent() ==> User !in fill[v[d + 1]].flags
    requires MapsHuge(d, o) && User in o.flags ==> User in e.flags
    requires MapsHuge(d, o) ==> (User in fill[v[d + 1]].flags <==> User in e.flags)
    requires User in e.flags ==> forall k :: 0 <= k < d ==> before[k].Some? && User in before[k].value.flags
    ensures Grants(after, User) <==> Grants(before, User) || (User in e.flags && MapsHuge(d, o))
  {
    if User !in e.flags {
      assert !Grants(after, User);
      assert MapsHuge(d, o) ==> User !in o.flags;
    } else if PointsToTable(d, o) {
      assert !Grants(before, User);
    }
  }
}
