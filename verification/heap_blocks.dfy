/** Address-ordered lists of free blocks, in which no two blocks touch. */
module HeapBlocks {

  datatype Block = Block(addr: nat, size: nat) {
    function End(): nat { addr + size }
  }

  predicate Apart(a: Block, b: Block) {
    a.End() <= b.addr || b.End() <= a.addr
  }

  ghost predicate ApartFromAll(b: Block, bs: seq<Block>) {
    forall i :: 0 <= i < |bs| ==> Apart(b, bs[i])
  }

  ghost predicate PairwiseApart(bs: seq<Block>) {
    forall i, j :: 0 <= i < j < |bs| ==> Apart(bs[i], bs[j])
  }

  /** Sorted by address, disjoint and fully coalesced: each block ends before,
      and not at, the start of the next. */
  ghost predicate Canonical(bs: seq<Block>) {
    && (forall i :: 0 <= i < |bs| ==> bs[i].size > 0)
    && (forall i, j :: 0 <= i < j < |bs| ==> bs[i].End() < bs[j].addr)
  }

  /** Address `x` lies in one of the blocks. */
  ghost predicate Covers(bs: seq<Block>, x: int) {
    exists i :: 0 <= i < |bs| && bs[i].addr <= x < bs[i].End()
  }

  function Total(bs: seq<Block>): nat {
    if bs == [] then 0 else bs[0].size + Total(bs[1..])
  }

  lemma {:induction false} TotalConcat(a: seq<Block>, b: seq<Block>)
    ensures Total(a + b) == Total(a) + Total(b)
  {
    if a == [] {
      assert a + b == b;
    } else {
      assert (a + b)[1..] == a[1..] + b;
      TotalConcat(a[1..], b);
    }
  }

  // ---- Insertion ----------------------------------------------------------

  /** How many blocks start below `addr`. */
  function Below(bs: seq<Block>, addr: nat): (k: nat)
    ensures k <= |bs|
    ensures forall i :: 0 <= i < k ==> bs[i].addr < addr
    ensures k < |bs| ==> bs[k].addr >= addr
  {
    if bs == [] || bs[0].addr >= addr then 0 else 1 + Below(bs[1..], addr)
  }

  predicate TouchesNext(bs: seq<Block>, b: Block) {
    var k := Below(bs, b.addr);
    k < |bs| && b.End() == bs[k].addr
  }

  predicate TouchesPrev(bs: seq<Block>, b: Block) {
    var k := Below(bs, b.addr);
    k > 0 && bs[k - 1].End() == b.addr
  }

  /** The blocks before this position, and from `After` on, stay as they are. */
  function Before(bs: seq<Block>, b: Block): (j: nat)
    ensures j <= Below(bs, b.addr)
  {
    if TouchesPrev(bs, b) then Below(bs, b.addr) - 1 else Below(bs, b.addr)
  }

  function After(bs: seq<Block>, b: Block): (m: nat)
    ensures Below(bs, b.addr) <= m <= |bs|
  {
    if TouchesNext(bs, b) then Below(bs, b.addr) + 1 else Below(bs, b.addr)
  }

  /** `b` joined to the blocks it touches. */
  function Joined(bs: seq<Block>, b: Block): Block {
    var k := Below(bs, b.addr);
    var size := b.size + if TouchesNext(bs, b) then bs[k].size else 0;
    if TouchesPrev(bs, b) then Block(bs[k - 1].addr, bs[k - 1].size + size) else Block(b.addr, size)
  }

  /** The list with `b` put in its place and joined to what it touches. */
  function Insert(bs: seq<Block>, b: Block): seq<Block> {
    bs[..Before(bs, b)] + [Joined(bs, b)] + bs[After(bs, b)..]
  }

  lemma CanonicalConcat(a: seq<Block>, b: seq<Block>)
    requires Canonical(a) && Canonical(b)
    requires a != [] && b != [] ==> a[|a| - 1].End() < b[0].addr
    ensures Canonical(a + b)
  {
    var c := a + b;
    forall i, j | 0 <= i < j < |c|
      ensures c[i].End() < c[j].addr
    {
      if i < |a| <= j {
        AcrossConcat(a, b, i, j - |a|);
      }
    }
  }

  lemma AcrossConcat(a: seq<Block>, b: seq<Block>, i: nat, j: nat)
    requires Canonical(a) && Canonical(b) && i < |a| && j < |b| && a[|a| - 1].End() < b[0].addr
    ensures a[i].End() < b[j].addr
  {
  }

  lemma CoversConcat(a: seq<Block>, b: seq<Block>, x: int)
    ensures Covers(a + b, x) <==> Covers(a, x) || Covers(b, x)
  {
    if Covers(a, x) {
      var i :| 0 <= i < |a| && a[i].addr <= x < a[i].End();
      assert (a + b)[i] == a[i];
    }
    if Covers(b, x) {
      var i :| 0 <= i < |b| && b[i].addr <= x < b[i].End();
      assert (a + b)[|a| + i] == b[i];
    }
    if Covers(a + b, x) {
      var i :| 0 <= i < |a + b| && (a + b)[i].addr <= x < (a + b)[i].End();
      assert if i < |a| then (a + b)[i] == a[i] else (a + b)[i] == b[i - |a|];
    }
  }

  /** The joined block stands between its neighbours without touching them. */
  lemma JoinedFits(bs: seq<Block>, b: Block)
    requires Canonical(bs) && b.size > 0 && ApartFromAll(b, bs)
    ensures Joined(bs, b).size > 0
    ensures Before(bs, b) > 0 ==> bs[Before(bs, b) - 1].End() < Joined(bs, b).addr
    ensures After(bs, b) < |bs| ==> Joined(bs, b).End() < bs[After(bs, b)].addr
  {
    var k := Below(bs, b.addr);
    assert k < |bs| ==> Apart(b, bs[k]);
    assert k > 0 ==> Apart(b, bs[k - 1]);
  }

  lemma InsertIsCanonical(bs: seq<Block>, b: Block)
    requires Canonical(bs) && b.size > 0 && ApartFromAll(b, bs)
    ensures Canonical(Insert(bs, b))
  {
    JoinedFits(bs, b);
    hide Before, After, Joined;
    var j, m, joined := Before(bs, b), After(bs, b), Joined(bs, b);
    CanonicalConcat(bs[..j], [joined]);
    CanonicalConcat(bs[..j] + [joined], bs[m..]);
  }

  lemma InsertTotal(bs: seq<Block>, b: Block)
    ensures Total(Insert(bs, b)) == Total(bs) + b.size
  {
    var j, m, joined := Before(bs, b), After(bs, b), Joined(bs, b);
    TotalConcat(bs[..j] + [joined], bs[m..]);
    TotalConcat(bs[..j], [joined]);
    assert bs == bs[..j] + bs[j..m] + bs[m..];
    TotalConcat(bs[..j] + bs[j..m], bs[m..]);
    TotalConcat(bs[..j], bs[j..m]);
    TotalOfFew(bs[j..m]);
    TotalOfFew([joined]);
  }

  lemma TotalOfFew(bs: seq<Block>)
    ensures |bs| == 0 ==> Total(bs) == 0
    ensures |bs| == 1 ==> Total(bs) == bs[0].size
    ensures |bs| == 2 ==> Total(bs) == bs[0].size + bs[1].size
  {
    if |bs| >= 1 {
      assert |bs| == 1 ==> bs[1..] == [];
      if |bs| == 2 { assert bs[1..][1..] == []; }
    }
  }

  /** The joined block covers `b` and the blocks it replaces. */
  lemma JoinedCovers(bs: seq<Block>, b: Block, x: int)
    requires Canonical(bs) && b.size > 0 && ApartFromAll(b, bs)
    ensures Covers([Joined(bs, b)], x) <==> b.addr <= x < b.End() || Covers(bs[Before(bs, b)..After(bs, b)], x)
  {
    hide Below, Before, After, Joined, Canonical, ApartFromAll, Covers;
    var k, j, m, joined := Below(bs, b.addr), Before(bs, b), After(bs, b), Joined(bs, b);
    JoinedEnds(bs, b);
    CoversOne(joined, x);
    var front, back := if j < k then [bs[k - 1]] else [], if k < m then [bs[k]] else [];
    assert bs[j..m] == front + back;
    CoversConcat(front, back, x);
    CoversNothing(x);
    if j < k { CoversOne(bs[k - 1], x); }
    if k < m { CoversOne(bs[k], x); }
  }

  lemma CoversNothing(x: int)
    ensures !Covers([], x)
  {
  }

  lemma CoversOne(b: Block, x: int)
    ensures Covers([b], x) <==> b.addr <= x < b.End()
  {
    assert b.addr <= x < b.End() ==> [b][0].addr <= x < [b][0].End();
  }

  /** Which blocks are joined to `b`, and how far the joined block reaches. */
  lemma JoinedEnds(bs: seq<Block>, b: Block)
    requires Canonical(bs) && b.size > 0 && ApartFromAll(b, bs)
    ensures
      var k, j, m, joined := Below(bs, b.addr), Before(bs, b), After(bs, b), Joined(bs, b);
      && j <= k <= m <= |bs| && k - 1 <= j && m <= k + 1
      && joined.addr == (if j < k then bs[k - 1].addr else b.addr)
      && joined.End() == (if k < m then bs[k].End() else b.End())
      && (j < k ==> bs[k - 1].End() == b.addr && bs[k - 1].addr <= b.addr)
      && (k < m ==> b.End() == bs[k].addr && bs[k].addr <= bs[k].End())
  {
  }

  /** Insertion adds exactly the bytes of `b`. */
  lemma InsertCovers(bs: seq<Block>, b: Block, x: int)
    requires Canonical(bs) && b.size > 0 && ApartFromAll(b, bs)
    ensures Covers(Insert(bs, b), x) <==> Covers(bs, x) || b.addr <= x < b.End()
  {
    hide Joined, Covers, Canonical, ApartFromAll, Below, Before, After;
    JoinedCovers(bs, b, x);
    var j, m, joined := Before(bs, b), After(bs, b), Joined(bs, b);
    CoversConcat(bs[..j], [joined], x);
    CoversConcat(bs[..j] + [joined], bs[m..], x);
    assert bs == bs[..j] + bs[j..m] + bs[m..];
    CoversConcat(bs[..j], bs[j..m], x);
    CoversConcat(bs[..j] + bs[j..m], bs[m..], x);
  }

  /** What is apart from the list and from `b` is apart from the result. */
  lemma InsertKeepsApart(bs: seq<Block>, b: Block, o: Block)
    requires Canonical(bs) && b.size > 0 && ApartFromAll(b, bs)
    requires ApartFromAll(o, bs) && Apart(o, b) && o.size > 0
    ensures ApartFromAll(o, Insert(bs, b))
  {
    var r := Insert(bs, b);
    InsertIsCanonical(bs, b);
    forall i | 0 <= i < |r|
      ensures Apart(o, r[i])
    {
      if !Apart(o, r[i]) {
        var x := if o.addr < r[i].addr then r[i].addr else o.addr;
        assert Covers(r, x);
        InsertCovers(bs, b, x);
        assert false;
      }
    }
  }

  // ---- A canonical list is determined by what it covers -------------------

  lemma {:induction false} CoverageDetermines(a: seq<Block>, b: seq<Block>)
    requires Canonical(a) && Canonical(b)
    requires forall x :: Covers(a, x) <==> Covers(b, x)
    ensures a == b
    decreases |a|
  {
    StartIsCovered(a);
    StartIsCovered(b);
    if a != [] {
      assert Covers(a, a[0].addr) && Covers(b, a[0].addr);
      assert b != [];
      assert Covers(b, b[0].addr) && Covers(a, b[0].addr);
      FirstBlock(a, b);
      FirstBlock(b, a);
      assert a[0] == b[0];
      forall x
        ensures Covers(a[1..], x) <==> Covers(b[1..], x)
      {
        TailCovers(a, x);
        TailCovers(b, x);
        assert Covers(a, x) <==> Covers(b, x);
      }
      CoverageDetermines(a[1..], b[1..]);
      assert a == [a[0]] + a[1..] && b == [b[0]] + b[1..];
    }
  }

  lemma TailCovers(a: seq<Block>, x: int)
    requires Canonical(a) && a != []
    ensures Covers(a[1..], x) <==> Covers(a, x) && x >= a[0].End()
    ensures Canonical(a[1..])
  {
    if Covers(a, x) && x >= a[0].End() {
      var i :| 0 <= i < |a| && a[i].addr <= x < a[i].End();
      assert a[1..][i - 1] == a[i];
    }
    if Covers(a[1..], x) {
      var i :| 0 <= i < |a[1..]| && a[1..][i].addr <= x < a[1..][i].End();
      assert a[i + 1] == a[1..][i];
    }
  }

  /** The first block starts at the lowest covered address and ends at the first
      one after it that is not covered. */
  lemma FirstBlock(a: seq<Block>, b: seq<Block>)
    requires Canonical(a) && Canonical(b) && a != [] && b != []
    requires forall x :: Covers(a, x) <==> Covers(b, x)
    ensures a[0].addr <= b[0].addr
    ensures a[0].addr == b[0].addr ==> a[0].End() <= b[0].End()
  {
    StartIsCovered(b);
    assert Covers(a, b[0].addr);
    EndIsNotCovered(b);
    FirstIsCovered(a, b[0].End());
  }

  lemma StartIsCovered(a: seq<Block>)
    requires Canonical(a)
    ensures a != [] ==> Covers(a, a[0].addr)
  {
  }

  lemma EndIsNotCovered(a: seq<Block>)
    requires Canonical(a) && a != []
    ensures !Covers(a, a[0].End())
  {
  }

  lemma FirstIsCovered(a: seq<Block>, x: int)
    requires a != []
    ensures a[0].addr <= x < a[0].End() ==> Covers(a, x)
  {
  }
}
