/** What writing one entry of a page table of the last level does to every walk. */
module PagingLeaf {
  import opened Wrappers
  import opened Paging

  datatype LeafWrite = LeafWrite(mem: Memory, roots: set<nat>, users: set<nat>, free: set<nat>,
                                 root: nat, v: Page, e: Entry)
  {
    ghost predicate Valid() {
      && Consistent(mem, roots, users, free)
      && root in roots && TableAt(mem, root, v[..3]).Some?
      && (User in e.flags ==> Owned(mem, users, root, v[..3]))
    }

    ghost function Target(): nat
      requires Valid()
    {
      TableAt(mem, root, v[..3]).value
    }

    ghost function After(): Memory
      requires Valid()
    {
      mem[Target() := mem[Target()][v[3] := e]]
    }

    lemma {:induction false} Tables(r: nat, q: Path)
      requires Valid() && r in roots && |q| <= 3
      ensures TableAt(After(), r, q) == TableAt(mem, r, q)
      ensures Private(After(), r, q) == Private(mem, r, q)
      ensures q != [] ==> EntryAt(After(), r, q) == EntryAt(mem, r, q)
      decreases |q|
    {
      if q != [] {
        Tables(r, Up(q));
      }
    }

    /** The written slot is the one that page `w` of `r` uses. */
    ghost predicate SharesSlot(r: nat, w: Page)
      requires Valid()
    {
      TableAt(mem, r, w[..3]) == Some(Target()) && w[3] == v[3]
    }

    /** Exactly the pages that use the written slot are translated by the
        new entry, unless a huge page hides it. */
    lemma Translations(r: nat, w: Page)
      requires Valid() && r in roots
      ensures Translate(After(), r, w) ==
              if SharesSlot(r, w) then if e.IsPresent() then Some(e.frame) else None
              else Translate(mem, r, w)
      ensures EntryAt(After(), r, w) == if SharesSlot(r, w) then Some(e) else EntryAt(mem, r, w)
    {
      Tables(r, w[..3]);
      Tables(r, w[..2]);
      WalkIsCutShort(mem, r, w);
      var walk := Walk(mem, r, w);
      assert Up(w) == w[..3];
      if SharesSlot(r, w) {
        assert walk[3].Some?;
        assert walk[2].Some? && PointsToTable(2, walk[2].value);
        assert walk[1].Some? && PointsToTable(1, walk[1].value);
      }
    }

    /** In a private table the slot belongs to one page of one process. */
    lemma PrivateSlot(r: nat, w: Page)
      requires Valid() && r in roots && Owned(mem, users, root, v[..3]) && SharesSlot(r, w)
      ensures r == root && w == v
    {
      assert w[..3] == v[..3];
      assert w == w[..3] + [w[3]] && v == v[..3] + [v[3]];
    }

    lemma KeepsConsistent()
      requires Valid()
      ensures Consistent(After(), roots, users, free)
    {
      forall r, q: Path | r in roots && |q| <= 3
        ensures TableAt(After(), r, q) == TableAt(mem, r, q)
        ensures Private(After(), r, q) == Private(mem, r, q)
      {
        Tables(r, q);
      }
      forall r, q: Path | r in roots && 1 <= |q| <= 4 && EntryAt(After(), r, q).Some?
        ensures EntryIsDisciplined(|q| - 1, Owned(After(), users, r, Up(q)), EntryAt(After(), r, q).value)
      {
        Tables(r, Up(q));
        if |q| == 4 {
          Translations(r, q);
          assert Up(q) == q[..3];
          if SharesSlot(r, q) && User in e.flags { PrivateSlot(r, q); }
        } else {
          Tables(r, q);
        }
      }
    }
  }
}
