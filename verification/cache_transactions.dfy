/** Whole transactions on the block cache: what reaches the device while one is
    open, and what an aborted one leaves behind. */
module CacheTransactions {
  import opened Wrappers
  import opened Cache

  datatype Op =
    | ReadOp(lba: nat, outLen: nat)
    | WriteOp(lba: nat, data: seq<Byte>)
    | FlushOp
    | PeekOp(lba: nat)

  /** What the view becomes by the operations, of which those marked succeed. */
  function After(view: seq<Sector>, ops: seq<Op>, ok: seq<bool>): (r: seq<Sector>)
    requires |ok| == |ops|
    ensures |r| == |view|
  {
    if ops == [] then view
    else
      var n := |ops| - 1;
      AfterOne(After(view, ops[..n], ok[..n]), ops[n], ok[n])
  }

  function AfterOne(view: seq<Sector>, op: Op, ok: bool): (r: seq<Sector>)
    ensures |r| == |view|
  {
    if ok && op.WriteOp? && op.lba < |view| && |op.data| == SECTOR_SIZE then view[op.lba := op.data] else view
  }

  method Execute(c: BlockCache, op: Op) returns (ok: bool)
    requires c.Valid() && c.clock + 1 < U64_MAX && c.recording.Some?
    modifies c, c.device`disk
    ensures c.Valid() && c.clock <= old(c.clock) + 1 && c.recording.Some?
    ensures forall l :: l in old(c.Recorded()) ==> l in c.Recorded()
    ensures OnlyWroteBack(old(c.device.disk), c.device.disk, old(c.entries), c.Recorded())
    ensures c.View() == AfterOne(old(c.View()), op, ok)
    ensures ok && op.WriteOp? ==> op.lba < |c.device.disk| && |op.data| == SECTOR_SIZE && op.lba in c.Recorded()
    ensures op.WriteOp? && op.lba < |c.device.disk| && |op.data| == SECTOR_SIZE && !c.device.faulty ==>
      (!ok <==> !IsCached(old(c.entries), op.lba) && old(c.AllPinned()))
  {
    match op
    case ReadOp(lba, outLen) =>
      var r := c.ReadSector(lba, outLen);
      ok := r.Ok?;
    case WriteOp(lba, data) =>
      var r := c.WriteSector(lba, data);
      ok := r.Ok?;
    case FlushOp =>
      var r := c.Flush();
      ok := r.Ok?;
    case PeekOp(lba) =>
      var r := c.PeekSector(lba);
      ok := r.Ok?;
  }

  /** While a recording is open, and whatever is done: sectors that have been
      recorded stay on the device as they are; sectors that are not recorded
      read as when the run began; the device holds, for every sector, what it
      held then or what the cache showed then; and the cache shows what it showed
      then with the writes that succeeded, in their order. */
  method Run(c: BlockCache, ops: seq<Op>) returns (ok: seq<bool>)
    requires c.Valid() && c.recording.Some? && c.clock + |ops| + 1 < U64_MAX
    modifies c, c.device`disk
    ensures c.Valid() && c.recording.Some? && |c.device.disk| == |old(c.device.disk)|
    ensures forall l :: l in old(c.Recorded()) ==> l in c.Recorded()
    ensures forall l :: 0 <= l < |c.device.disk| && l in old(c.Recorded()) ==> c.device.disk[l] == old(c.device.disk)[l]
    ensures forall l :: 0 <= l < |c.device.disk| && l !in c.Recorded() ==> c.View()[l] == old(c.View())[l]
    ensures forall l :: 0 <= l < |c.device.disk| ==>
      c.device.disk[l] == old(c.device.disk)[l] || c.device.disk[l] == old(c.View())[l]
    ensures |ok| == |ops| && c.View() == After(old(c.View()), ops, ok)
  {
    ok := [];
    for i := 0 to |ops|
      invariant c.Valid() && c.recording.Some? && c.clock <= old(c.clock) + i
      invariant |c.device.disk| == |old(c.device.disk)|
      invariant forall l :: l in old(c.Recorded()) ==> l in c.Recorded()
      invariant forall l :: 0 <= l < |c.device.disk| && l in old(c.Recorded()) ==> c.device.disk[l] == old(c.device.disk)[l]
      invariant forall l :: 0 <= l < |c.device.disk| && l !in c.Recorded() ==> c.View()[l] == old(c.View())[l]
      invariant forall l :: 0 <= l < |c.device.disk| ==>
        c.device.disk[l] == old(c.device.disk)[l] || c.device.disk[l] == old(c.View())[l]
      invariant |ok| == i && c.View() == After(old(c.View()), ops[..i], ok)
    {
      var done := Execute(c, ops[i]);
      assert ops[..i + 1][..i] == ops[..i] && (ok + [done])[..i] == ok;
      ok := ok + [done];
    }
    assert ops[..|ops|] == ops;
  }

  lemma CleanSectorsShowTheDevice(es: seq<Entry>, disk: seq<Sector>, l: nat)
    requires Coherent(es, disk) && l < |disk| && !IsDirty(es, l)
    ensures SectorAt(es, disk, l) == disk[l]
  {
  }

  /** A transaction that is begun, does anything at all and is then aborted
      leaves every sector reading as the cache showed it, or as the device held
      it, when it began. If the cache showed what the device held, the
      transaction has left no trace at all. */
  method AbortedTransaction(c: BlockCache, ops: seq<Op>)
    requires c.Valid() && c.clock + |ops| + 1 < U64_MAX
    modifies c, c.device`disk
    ensures c.Valid() && c.recording.None? && |c.device.disk| == |old(c.device.disk)|
    ensures forall l :: 0 <= l < |c.device.disk| ==>
      c.View()[l] == old(c.View())[l] || c.View()[l] == old(c.device.disk)[l]
    ensures old(c.View()) == old(c.device.disk) ==> c.View() == old(c.View()) && c.device.disk == old(c.device.disk)
  {
    c.BeginRecording();
    var _ := Run(c, ops);
    forall l | 0 <= l < |c.device.disk| && !IsDirty(c.entries, l)
      ensures c.View()[l] == c.device.disk[l]
    {
      CleanSectorsShowTheDevice(c.entries, c.device.disk, l);
    }
    c.DiscardRecorded();
  }

  /** The condition is exact: if the cache shows a sector differently from the
      device when the transaction begins, then writing that sector and aborting
      loses what the cache showed. */
  method AbortLosesEarlierWrite(c: BlockCache, lba: nat, data: Sector)
    requires c.Valid() && c.clock + 1 < U64_MAX
    requires lba < |c.device.disk| && c.View()[lba] != c.device.disk[lba] && !c.device.faulty
    modifies c, c.device`disk
    ensures c.Valid() && |c.device.disk| == |old(c.device.disk)|
    ensures c.View()[lba] == old(c.device.disk)[lba] != old(c.View())[lba]
  {
    assert IsCached(c.entries, lba);
    c.BeginRecording();
    var w := c.WriteSector(lba, data);
    c.DiscardRecorded();
  }

  /** On a new cache: one write, then a transaction that writes the same sector
      and is aborted. The first write is gone. */
  method AbortLosesWriteAtOnce(device: BlockDevice, first: Sector, second: Sector) returns (c: BlockCache)
    requires |device.disk| > 0 && !device.faulty && device.disk[0] != first
    modifies device`disk
    ensures c.device == device && c.Valid() && |device.disk| == |old(device.disk)|
    ensures c.View()[0] == old(device.disk)[0] != first
  {
    c := new BlockCache(device);
    var w := c.WriteSector(0, first);
    assert c.View()[0] == first;
    assert device.disk[0] == old(device.disk)[0];
    AbortLosesEarlierWrite(c, 0, second);
  }

  /** A committed transaction: once the recording has ended, a flush brings the
      device to what the cache showed before, with exactly the writes that
      succeeded, in their order. */
  method CommittedTransaction(c: BlockCache, ops: seq<Op>) returns (r: Result<Unit, BlockError>, ok: seq<bool>)
    requires c.Valid() && c.clock + |ops| + 1 < U64_MAX
    modifies c, c.device`disk
    ensures c.Valid() && |c.device.disk| == |old(c.device.disk)|
    ensures |ok| == |ops| && c.View() == After(old(c.View()), ops, ok)
    ensures r.Ok? ==> c.device.disk == After(old(c.View()), ops, ok)
    ensures r.Err? ==> c.device.faulty
  {
    c.BeginRecording();
    ok := Run(c, ops);
    c.EndRecording();
    r := c.Flush();
  }
}
