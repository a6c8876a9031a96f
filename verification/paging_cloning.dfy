/** What holds between the steps of a fork, and what each step adds. */
module PagingCloning {
  import opened Wrappers
  import opened Paging
  import opened PagingFork

  /** The state between two steps: `owner` tells which path of the child each
      frame taken so far serves. */
  datatype CloneState = CloneState(mem: Memory, free: set<nat>, owner: map<nat, Path>)

  /** A fork of the address space `src`, which began with memory `base` and the
      free frames `free0`. */
  datatype Cloning = Cloning(base: Memory, free0: set<nat>, src: nat) {

    /** While the fork runs, nothing that was in use when it began changes. */
    ghost predicate InProgress(o: CloneState) {
      && TablesInUse(base, {src}, free0)
      && CopiedPagesInUse(base, free0, src)
      && |o.mem| == |base| && o.free <= free0
      && (forall x :: x in free0 ==> x < |base|)
      && (forall x :: 0 <= x < |base| && x !in free0 ==> o.mem[x] == base[x])
      && (forall x :: x in o.owner ==> x in free0 && x !in o.free)
    }

    /** What steps from `o` to `n` have added: frames for `p` and what lies below
        it. Besides `free`, only frames taken from the free list change. */
    ghost predicate Progress(o: CloneState, n: CloneState, free: set<nat>, p: Path) {
      && InProgress(n)
      && n.free <= o.free && |n.mem| == |o.mem|
      && (forall x :: 0 <= x < |o.mem| && x !in free ==> n.mem[x] == o.mem[x])
      && (forall x :: x in o.owner ==> x in n.owner && n.owner[x] == o.owner[x])
      && (forall x :: x in n.owner && x !in o.owner ==> x in o.free && p <= n.owner[x])
    }

    /** Table `s`, at path `p` of the parent, is being copied into frame `d`. */
    ghost predicate Copying(o: CloneState, s: nat, d: nat, p: Path) {
      && InProgress(o) && |p| <= 3 && TableAt(base, src, p) == Some(s) && CopiedPath(base, src, p)
      && d in o.owner && o.owner[d] == p
    }

    /** Entry `i` of table `d` is the copy of entry `i` of table `s`. */
    ghost predicate EntryIsCloned(n: CloneState, s: nat, d: nat, i: Index, p: Path)
      requires s < |base| && d < |n.mem|
    {
      if p == []
      then s == src && ClonedRoot(base, n.mem, s, d, i, n.owner)
      else ClonedEntry(base, n.mem, base[s][i], n.mem[d][i], p + [i], n.owner)
    }

    ghost predicate EntryCloned(o: CloneState, n: CloneState, s: nat, d: nat, i: Index, p: Path, ok: bool) {
      && Progress(o, n, o.free + {d}, p) && s < |base| && d < |n.mem|
      && (forall x :: x in n.owner && x !in o.owner ==> n.owner[x] != p)
      && (forall j: Index :: j != i ==> n.mem[d][j] == o.mem[d][j])
      && (ok ==> EntryIsCloned(n, s, d, i, p))
    }

    ghost predicate TableCloned(o: CloneState, n: CloneState, s: nat, d: nat, p: Path, ok: bool) {
      && Progress(o, n, o.free, p)
      && (ok ==> Cloned(base, n.mem, s, d, p, n.owner))
    }

    /** What copying entry `i` of the table at `p` may rely on. */
    lemma Reads(o: CloneState, s: nat, d: nat, i: Index, p: Path)
      requires Copying(o, s, d, p)
      ensures InProgress(o) && s < |o.mem| && d < |o.mem| && s != d && d !in o.free && o.mem[s] == base[s]
      ensures forall x :: x in o.free ==> x < |o.mem|
      ensures p == [] ==> s == src && p + [i] == [i]
      ensures EntryAt(base, src, p + [i]) == Some(base[s][i])
      ensures
        var e := base[s][i];
        (if p == [] then IsCopiedRoot(i, e) else IsCopied(e)) ==>
          && CopiedPath(base, src, p + [i])
          && (|p| < 3 ==> TableAt(base, src, p + [i]) == Some(e.frame))
          && (|p| == 3 ==> e.frame < |base| && o.mem[e.frame] == base[e.frame])
    {
      CopySource(base, free0, src, p, i);
      TableEntry(base, src, p, i);
    }

    /** The entry stays empty, or is copied as it is; perhaps a frame is taken,
        or perhaps the step fails. */
    lemma EntryShared(o: CloneState, n: CloneState, s: nat, d: nat, i: Index, p: Path, ok: bool)
      requires Copying(o, s, d, p) && d < |o.mem| && s < |base| && o.mem[d][i] == EMPTY && (p == [] ==> i < 256)
      requires n.owner == o.owner && n.free <= o.free
      requires n.mem == o.mem || n.mem == o.mem[d := o.mem[d][i := base[s][i]]]
      requires ok && n.mem == o.mem ==> !base[s][i].IsPresent()
      requires n.mem != o.mem ==> base[s][i].IsPresent()
      requires n.mem != o.mem ==> !(if p == [] then IsCopiedRoot(i, base[s][i]) else IsCopied(base[s][i]))
      requires ok && base[s][i].IsPresent() ==> n.mem[d][i] == base[s][i]
      ensures EntryCloned(o, n, s, d, i, p, ok)
    {
      Reads(o, s, d, i, p);
    }

    /** The entry maps a page, which is copied into frame `f`. */
    lemma PageCopied(o: CloneState, n: CloneState, s: nat, d: nat, i: Index, p: Path, f: nat)
      requires Copying(o, s, d, p) && |p| == 3 && d < |o.mem| && s < |base| && IsCopied(base[s][i])
      requires f in o.free && n.free == o.free - {f} && f < |o.mem|
      requires
        var e := base[s][i];
        && e.frame < |o.mem| && n.owner == o.owner[f := p + [i]]
        && n.mem == o.mem[f := o.mem[e.frame]][d := o.mem[d][i := Entry(f, e.flags)]]
      ensures EntryCloned(o, n, s, d, i, p, true)
    {
      Reads(o, s, d, i, p);
      assert p <= p + [i];
    }

    /** The entry points to a table, which has been copied into frame `f`. */
    lemma TableCopied(o: CloneState, m: CloneState, n: CloneState, s: nat, d: nat, i: Index, p: Path, f: nat, ok: bool)
      requires Copying(o, s, d, p) && |p| < 3 && d < |o.mem| && s < |base|
      requires if p == [] then IsCopiedRoot(i, base[s][i]) else IsCopied(base[s][i])
      requires TableCloned(o, m, base[s][i].frame, f, p + [i], ok)
      requires n.free == m.free && n.owner == m.owner
      requires n.mem == if ok then m.mem[d := m.mem[d][i := Entry(f, base[s][i].flags)]] else m.mem
      ensures EntryCloned(o, n, s, d, i, p, ok)
    {
      hide TablesInUse, CopiedPagesInUse, TableAt, CopiedPath;
      Reads(o, s, d, i, p);
      assert p <= p + [i] && d !in o.free;
      if ok {
        hide Cloned;
        ClonedIsStable(base, m.mem, n.mem, base[s][i].frame, f, p + [i], m.owner, n.owner);
      }
    }

    /** A frame has been taken and cleared for the copy of the table at `p`. */
    lemma TableBegun(o: CloneState, n: CloneState, s: nat, d: nat, p: Path)
      requires InProgress(o) && |p| <= 3 && TableAt(base, src, p) == Some(s) && CopiedPath(base, src, p)
      requires d in o.free && n.free == o.free - {d}
      requires n.owner == o.owner[d := p] && d < |o.mem| == |n.mem| && n.mem == o.mem[d := n.mem[d]]
      ensures Copying(n, s, d, p) && Progress(o, n, o.free, p)
      ensures s < |base| && d < |n.mem|
    {
      CopySource(base, free0, src, p, 0);
    }

    lemma NothingBegun(o: CloneState, p: Path)
      requires InProgress(o)
      ensures Progress(o, o, o.free, p)
    {
    }

    /** What the copy of a table has reached after `k` entries from `o` on. */
    ghost predicate Reached(o: CloneState, n: CloneState, s: nat, d: nat, p: Path, k: nat) {
      && Copying(n, s, d, p) && Progress(o, n, o.free, p) && d in o.free && s < |base| && d < |n.mem|
      && (forall j: Index :: j >= k ==> n.mem[d][j] == EMPTY)
      && (forall j: Index :: j < k ==> EntryIsCloned(n, s, d, j, p))
    }

    lemma ReachedStart(o: CloneState, n: CloneState, s: nat, d: nat, p: Path)
      requires Copying(n, s, d, p) && Progress(o, n, o.free, p) && d in o.free && s < |base| && d < |n.mem|
      requires n.mem[d] == ZEROED
      ensures Reached(o, n, s, d, p, 0)
    {
    }

    lemma ReachedMeans(o: CloneState, n: CloneState, s: nat, d: nat, p: Path, k: nat)
      requires Reached(o, n, s, d, p, k)
      ensures Copying(n, s, d, p) && s < |base| && d < |n.mem| && (k < 512 ==> n.mem[d][k] == EMPTY)
    {
    }

    lemma ReachedNext(o: CloneState, m: CloneState, n: CloneState, s: nat, d: nat, p: Path, k: Index, ok: bool)
      requires p != [] && Reached(o, m, s, d, p, k) && EntryCloned(m, n, s, d, k, p, ok)
      ensures Progress(o, n, o.free, p) && |n.mem| == |o.mem|
      ensures ok ==> Reached(o, n, s, d, p, k + 1)
    {
      hide TablesInUse, CopiedPagesInUse, TableAt, CopiedPath, ClonedEntry;
      if ok {
        forall j: Index | j < k
          ensures ClonedEntry(base, m.mem, base[s][j], m.mem[d][j], p + [j], m.owner)
        {
          assert EntryIsCloned(m, s, d, j, p);
        }
        ClonedEntriesAreStable(base, m.mem, n.mem, base[s], m.mem[d], k, p, m.owner, n.owner);
      }
    }

    lemma ReachedEnd(o: CloneState, n: CloneState, s: nat, d: nat, p: Path)
      requires p != [] && Reached(o, n, s, d, p, 512)
      ensures TableCloned(o, n, s, d, p, true) && |n.mem| == |o.mem|
    {
      forall j: Index
        ensures ClonedEntry(base, n.mem, base[s][j], n.mem[d][j], p + [j], n.owner)
      {
        assert EntryIsCloned(n, s, d, j, p);
      }
    }

    // ---- The PML4 -----------------------------------------------------------

    /** What the copy of the PML4 has reached after the upper half and `k`
        entries of the lower one. */
    ghost predicate RootReached(n: CloneState, d: nat, k: nat) {
      && Copying(n, src, d, []) && src < |base| && d < |n.mem|
      && (forall j: Index :: k <= j < 256 ==> n.mem[d][j] == EMPTY)
      && (forall j: Index :: j < k || 256 <= j ==> ClonedRoot(base, n.mem, src, d, j, n.owner))
    }

    lemma RootReachedMeans(n: CloneState, d: nat, k: nat)
      requires RootReached(n, d, k)
      ensures Copying(n, src, d, []) && InProgress(n)
      ensures d < |n.mem| && src < |base| && (k < 256 ==> n.mem[d][k] == EMPTY)
    {
    }

    lemma RootReachedNext(m: CloneState, n: CloneState, d: nat, k: Index, ok: bool)
      requires k < 256 && RootReached(m, d, k) && EntryCloned(m, n, src, d, k, [], ok)
      ensures InProgress(n)
      ensures ok ==> RootReached(n, d, k + 1)
    {
      hide TablesInUse, CopiedPagesInUse, TableAt, CopiedPath, Cloned;
      if ok {
        forall j: Index | j < k || 256 <= j
          ensures ClonedRoot(base, n.mem, src, d, j, n.owner)
        {
          assert ClonedRoot(base, m.mem, src, d, j, m.owner);
          assert n.mem[d][j] == m.mem[d][j];
          if IsCopiedRoot(j, base[src][j]) {
            ClonedIsStable(base, m.mem, n.mem, base[src][j].frame, m.mem[d][j].frame, [j], m.owner, n.owner);
          }
        }
      }
    }

    /** The upper half has been copied. */
    lemma RootBegun(n: CloneState, d: nat)
      requires Copying(n, src, d, []) && src < |base| && d < |n.mem|
      requires forall j: Index :: 256 <= j ==> n.mem[d][j] == base[src][j]
      requires forall j: Index :: j < 256 ==> n.mem[d][j] == EMPTY
      ensures RootReached(n, d, 0)
    {
    }

    lemma RootEnd(k: Fork)
      requires k.base == base && k.src == src && k.free0 == free0
      requires Consistent(base, k.roots, k.users, free0) && src in k.roots
      requires RootReached(CloneState(k.mem, k.free, k.owner), k.dst, 256)
      ensures k.Valid()
    {
    }
  }
}
