# RacOS in Dafny

A model of the parts of RacOS whose correctness rests on invariants rather than
on hardware: nine components of the RaCore kernel and of its user space, each
proved for every input, every run or every interleaving.

| files | component |
|---|---|
| paging.dfy, paging_graft.dfy, paging_leaf.dfy, paging_fork.dfy | four-level page tables and what one change does to every walk: a new table, a written leaf, a fork |
| paging_accounts.dfy | which frame belongs to whom, and why every operation keeps address spaces fit to be forked |
| paging_trace.dfy, paging_rights.dfy, paging_count.dfy | which walks and which flags a mapping changes, told from the memory before it; how many frames it and a fork take |
| paging_cloning.dfy, paging_effects.dfy, paging_ops.dfy | the operations themselves: mapping, unmapping, splitting huge pages, creating and forking address spaces |
| paging_family.dfy, paging_examples.dfy | whole lives of address spaces, and inputs at which promises fail |
| tcp*.dfy | the TCP connection: send queue, in-order receive, retransmission timer, whole conversations |
| cache*.dfy | the write-back block cache with its transactions, and which sectors it keeps |
| frame_*.dfy | the physical frame bitmap, interleaved and sequential, and what a search finds |
| heap*.dfy | the kernel heap |
| virtqueue.dfy, virtio_net.dfy | the split virtqueue and the receive buffers of the network driver |
| vm.dfy | the address-space record |
| start_order.dfy | the start order of the init process |
| terminal*.dfy | the terminal: UTF-8, escape sequences, colours, cursor, screen buffer, painter, and what the sequences mean |
| wrappers.dfy, distinct.dfy | shared types and lemmas |

`dafny verify dfyconfig.toml` checks everything.

## How it is modelled

Code that changes state is a class or a method with loops, proved against
functions and invariants on values; the theorems about whole runs are about
those functions. Physical memory is a sequence of frames of 512 words, an entry
being a frame number and a set of flags. The accounts of the page tables say
that the frames given to processes as pages are in use and hold no table, that
user entries of a PML4 lie in its lower half, that the mark of an inaccessible
page occurs only below user tables, and that the pages a fork would copy lie in
those frames. Sequence numbers, ring indices and
terminal parameters have their width written out; all other integers are
unbounded. The clock, the free frames offered to a growing heap, the device of a
virtqueue and the block device are parameters or adversaries. Concurrency in the
frame bitmap is a transition system whose steps are the atomic operations.

## What is not so

Properties that the code or its comments suggest and that do not hold, each with
the exact condition under which they do:

- Splitting a huge page for a user mapping gives users access to the other pages
  of the huge page as well (kernel/src/mm/virt.rs:432-436), while the comment at
  535-539 wants the kernel's pages protected. `MapPage` states exactly which pages;
  `SplitExposesSiblings` is such a call on a booted memory.
- A page mapped without USER is not the process's alone: no table is copied for it
  (kernel/src/mm/virt.rs:203-214), so it appears in every address space that comes
  to the last table left in place on its way, and unmapping it takes it out of all
  of them. `MapPage` and `UnmapPage` say exactly where; with
  `InaccessiblePageReachesKernel` a process maps a page into the kernel.
- After a fork an accessible page is shared instead of copied exactly when it lies
  in the upper half (kernel/src/mm/virt.rs:641-643) or when the huge bit is set on
  its walk, in a page-table entry too, where the bit means something else
  (`SharedExactlyWhenHuge`; `ForkSharesHugePage` is such a fork).
- A page mapped without access is marked as the process's own so that a fork copies
  it (kernel/src/mm/virt.rs:31-36), but it is shared all the same when the tables
  above it lack the user bit, as they do when it is the first page there
  (`MarkedPageSharedExactly`, `InaccessiblePageIsShared`).
- An acknowledgement exactly 2^31 ahead of an empty send queue is accepted
  (`AckIsSoundExactlyUnlessHalfSpace`, `HalfSpaceAckExample`).
- The FIN of a segment that also carries a SYN and data is looked for one byte too
  early (`FinOnSynIsMisplaced`); with `FinOnSynExample` a connection takes the FIN
  of a stream of which it has delivered nothing. `EveryRunDeliversAPrefix` holds for
  all other segments of a peer.
- Aborting a transaction undoes it exactly when the cache showed what the device
  held at its start; an earlier unwritten change to the same sector is lost
  (`AbortedTransaction`, `AbortLosesEarlierWrite`; `AbortLosesWriteAtOnce` does it
  to a new cache).
- Freeing an allocation restores the free list exactly when no sliver was lost
  (`CarveThenFree`; `AllocThenFreeLosesBytes` loses one on a new heap).
- The number of free frames is counted as if all bits beyond the last frame were
  clear, while they are set at first, and so is right exactly when they are
  (kernel/src/mm/phys.rs:281-294, `FreeCountIsRightExactly`); after boot with one
  usable frame the subtraction underflows (`CountUnderflows`). The counter of usable
  frames is right exactly as long as no usable frame is marked usable again
  (`MarkUsable`).
- An allocation may report that memory is out while frames are free: a call that
  loses the race for a frame goes on to the next word (kernel/src/mm/phys.rs:144-153).
  `LostRaceFails` does so with 63 frames free; `FailedAllocFoundAllTaken` says what
  must have happened in each word, and a call that is left alone never fails so
  (`AllocFindsLowest`).
- A cursor step up moves the cursor down exactly when it is above the scroll region,
  and a step down moves it up exactly when it is below (terminal/src/cursor.rs:41-52,
  `UpMovesDownExactly`, `UpMovesDownExample`).
- Overlong three- and four-byte sequences are decoded, although two-byte ones are
  refused as overlong (`CompleteIsEncoding`, `OverlongExample`).

Where comments and code differ otherwise, the model follows the code: the cycle
list of the resolver also holds units that merely depend on a cycle, although
init/src/engine.rs:17-18 calls them part of one; and lines go to the scrollback
whenever the region starts in the first row, not only when the whole screen
scrolls (terminal/src/buffer.rs:217-221).

## Model

| member | source | states |
|---|---|---|
| Paging.PageOfIsExact | kernel/src/mm/virt.rs:120-138 | two addresses have the same four table indices exactly when they lie in the same page of the 48-bit space |
| Paging.AccessFlagsAreExact | kernel/src/mm/virt.rs:330-368 | the kernel's own walk returns the leaf's flags with USER and WRITABLE kept exactly when every level on the way grants them, and nothing when the walk is cut short |
| PagingGraft.Graft.Tables | kernel/src/mm/virt.rs:376-466 | hanging a fresh table under one entry leaves every other table path of every address space where it was |
| PagingGraft.Graft.Translations | kernel/src/mm/virt.rs:376-466 | a new, split or copied table that represents the old entry changes no translation in any address space |
| PagingGraft.Graft.Accessibility | kernel/src/mm/virt.rs:376-466 | which pages become user-accessible through the new table, exactly |
| PagingGraft.Graft.KeepsConsistent | kernel/src/mm/virt.rs:376-466 | the whole-memory invariant (no table in use is free, one depth per table, private tables exclusive, entries disciplined) survives |
| PagingGraft.SameResolution | kernel/src/mm/virt.rs:415-466 | the 512 entries of a split huge page resolve every address below it to the frame the huge page gave |
| PagingLeaf.LeafWrite.Translations | kernel/src/mm/virt.rs:216-228 | writing a leaf changes the translation of exactly the pages whose walk ends in that slot |
| PagingLeaf.LeafWrite.PrivateSlot | kernel/src/mm/virt.rs:194-232 | below a private table that slot belongs to one page of one address space |
| PagingOps.PageTables.AllocFrame | kernel/src/mm/phys.rs:336-340 | takes one free frame, and fails exactly when there is none |
| PagingOps.PageTables.AllocPage | kernel/src/mm/phys.rs:336-340 | the same for a frame that is to become a page of a process; the accounts stay in order |
| PagingOps.PageTables.SplitHugeEntry | kernel/src/mm/virt.rs:415-466 | the memory after a split, and its two failures; a split above 1 GiB level fails after a frame was taken; what the 512 entries must be for every walk is PagingGraft.SameResolution and PagingRights.GraftKeepsPageFlags |
| PagingOps.PageTables.EnsureTable | kernel/src/mm/virt.rs:376-409 | afterwards a table is there, no translation and no flag of a page of any address space has changed, every pointer keeps its flags and those that go through the entry gain the flags asked for, other address spaces see no change of access, access widens only below a split huge page, a frame is taken exactly when the table does not stay, and the accounts stay in order |
| PagingOps.PageTables.MapPage | kernel/src/mm/virt.rs:194-232 | succeeds if and only if as many frames are free as tables are missing on the way, the root entry is not huge, and (without USER) the page is not mapped; takes exactly those frames; the pages, of whatever address space, that come to the last table left in place on the way and go on alike translate to the frame and have the flags given, all others translate and have the flags as before; without USER the pages that change are exactly those, a condition on the memory before the call; with USER it is the page alone; every table pointer keeps its flags, those on the way gain the flags of a table and no others gain any, and which pages can be written follows exactly; on failure no translation and no flag of a page changes; with USER, access of other pages changes exactly for those that share a split huge page with it, and without USER not at all; the accounts stay in order provided that user pages are mapped in the lower half, that pages a fork would copy and pages coming out of a split lie in frames given to processes, and that an inaccessible page is mapped below tables that have the user bit already |
| PagingOps.PageTables.UnmapPage | kernel/src/mm/virt.rs:238-277 | succeeds exactly for a page mapped by a 4 KiB leaf, returns its frame and clears that one entry; the pages that change, of whatever address space, are exactly those that use that leaf, and they are unmapped; in a table private to the process that is the page alone; otherwise nothing changes; the accounts stay in order |
| PagingOps.PageTables.MapThenUnmap | kernel/src/mm/virt.rs:194-277 | unmapping succeeds after a successful mapping, with USER or without, and returns its frame; exactly the pages that joined are unmapped, and if the page was not mapped before, every translation of every address space is restored |
| PagingTrace.GraftRegrafts | kernel/src/mm/virt.rs:376-466 | a new, split or copied table is reached by exactly the walks that went through the redirected entry, and no other pointer of any address space changes |
| PagingTrace.TracedOneMore | kernel/src/mm/virt.rs:203-214 | through all levels, the walks that come to the tables of the new page are those that came to the last table left in place |
| PagingTrace.OffTheWayOneMore | kernel/src/mm/virt.rs:203-214 | with USER, entries of the process off the way to the page stay as they are, but for huge pages that are split |
| PagingRights.GraftKeepsPageFlags | kernel/src/mm/virt.rs:376-466 | a new, split or copied table leaves every page of every address space its flags, but for USER and the huge bit |
| PagingRights.GraftWidens | kernel/src/mm/virt.rs:376-466 | every pointer that goes through the redirected entry keeps its flags and gains those asked for, every other pointer keeps its own, and a pointer that is new has those asked for |
| PagingRights.PointersWidenOneMore | kernel/src/mm/virt.rs:203-214 | through all levels, the pointers that gain flags are those of walks that come to the last table left in place, told from the memory before |
| PagingRights.WritableFromFlags | kernel/src/mm/virt.rs:203-228 | which pages of which address space can be written after a mapping, if and only if |
| PagingOps.PageTables.CreateUserPageTable | kernel/src/mm/virt.rs:542-568 | the new address space translates like the kernel's, by the same entries, no page of it is accessible to users, no entry of any other one changes, and the accounts stay in order |
| PagingOps.PageTables.CloneTableLevel | kernel/src/mm/virt.rs:671-723 | copies a table and all it owns below into fresh frames, each owned by the path it was copied for; takes one frame for each table, page and user huge entry below, and runs out exactly when fewer are free |
| PagingOps.PageTables.CloneEntry | kernel/src/mm/virt.rs:677-720 | one entry: shared, copied as a page, or copied as a table, for exactly as many frames |
| PagingOps.PageTables.CloneUserPageTable | kernel/src/mm/virt.rs:635-666 | a complete fork of the source, with every existing address space translating as before; it succeeds if and only if as many frames are free as the count over the source's tables says, and takes exactly that many; if the accounts were in order they are again, for the child too, and the child shares no page to be copied with anyone |
| PagingCount.ChildCostsTheSame | kernel/src/mm/virt.rs:635-723 | forking the child takes as many frames as forking the parent did |
| PagingCount.OthersCostTheSame | kernel/src/mm/virt.rs:635-723 | forking any other address space takes as many frames as before |
| PagingCount.OnePageCosts | kernel/src/mm/virt.rs:635-723 | an address space in which a fork copies one page only costs five frames |
| PagingAccounts.GraftKeepsAccounts | kernel/src/mm/virt.rs:376-466 | a new, split or copied table keeps every address space fit to be forked, provided that the pages it exposes are frames given to processes |
| PagingAccounts.LeafKeepsAccounts | kernel/src/mm/virt.rs:216-277 | so does writing a leaf |
| PagingAccounts.ForkKeepsAccounts | kernel/src/mm/virt.rs:635-723 | after a fork parent, child and all others are fit to be forked again, and the child's copied pages lie in frames that no other address space uses for a page to be copied |
| PagingAccounts.Isolation | kernel/src/mm/virt.rs:635-723 | of two address spaces that share no page to be copied, neither reads in its own pages what the other writes to its own, whatever forks lie between them |
| PagingFamily.ChildReadsAlike | kernel/src/mm/virt.rs:635-723 | at every address the child reads what the parent reads |
| PagingFamily.ForkKeepsContents | kernel/src/mm/virt.rs:635-723 | a fork changes no word in the own pages of any older address space |
| PagingFamily.Generations | kernel/src/mm/virt.rs:194-723 | create, map, fork, fork the child: the three have the same pages with the same contents, every page that one of them may access is its own, and no write of one to such a page is read in such a page by another; asks only for a kernel whose accounts are in order and that does not use the page; fails only when no frame is left or the root entry is huge, and fifteen free frames are enough |
| PagingFork.Fork.Translations | kernel/src/mm/virt.rs:635-723 | the child maps the same pages; copied pages to copies, all others to the same frames |
| PagingFork.Fork.Access | kernel/src/mm/virt.rs:635-723 | the child grants the same access bits on every page |
| PagingFork.Fork.CopiesAreDistinct | kernel/src/mm/virt.rs:671-723 | different copied pages of the child lie in different frames, and each in one that was free before |
| PagingFork.Fork.KeepsConsistent | kernel/src/mm/virt.rs:635-723 | the whole-memory invariant holds with the child added |
| PagingFork.ForkIsolates | kernel/src/mm/virt.rs:635-723 | a write through either space to a copied page is invisible to the other |
| PagingFork.SharedExactlyWhenHuge | kernel/src/mm/virt.rs:641-701 | an accessible page is shared after a fork if and only if it lies in the upper half or an entry below the root on its walk has the huge bit |
| PagingFork.SharedExactlyUnlessCopied | kernel/src/mm/virt.rs:635-723 | any mapped page is shared if and only if some entry on its walk is not one that the fork copies |
| PagingFork.MarkedPageSharedExactly | kernel/src/mm/virt.rs:31-36 | when a page marked as the process's own is shared nevertheless, exactly |
| PagingExamples.SplitExposesSiblings | kernel/src/mm/virt.rs:415-466 | on a booted memory of as many frames as the allocator can have, mapping an allocated frame at one page of a 2 MiB kernel page makes its neighbour accessible, which was not |
| PagingExamples.InaccessiblePageReachesKernel | kernel/src/mm/virt.rs:203-228 | on the same memory, a page mapped without access in a new process appears in the kernel's address space, and unmapping it in the process unmaps it there |
| PagingExamples.ForkSharesHugePage | kernel/src/mm/virt.rs:687-701 | on the same memory, mapping an allocated frame at one page of a 1 GiB kernel page and forking leaves parent and child with access to one and the same frame |
| PagingExamples.InaccessiblePageIsShared | kernel/src/mm/virt.rs:654-666 | a fork that shares a page marked as the process's own |
| PagingExamples.BootIsConsistent | kernel/src/mm/virt.rs:542-568 | the invariants hold of a boot memory with tables and huge pages |
| TcpSend.SeqLtIsLess | kernel/src/net/tcp.rs:640-646 | wrapping comparison agrees with the order of unbounded sequence positions less than half the space apart |
| TcpSend.AckWindow | kernel/src/net/tcp.rs:823-828 | which acknowledgement numbers the two wrapping comparisons accept, exactly |
| TcpSend.StepKeeps | kernel/src/net/tcp.rs:385-589 | every event (send, close, read, segment, timer) keeps the tiling of the send space |
| TcpSend.EveryRunTilesTheSendSpace | kernel/src/net/tcp.rs:397-563 | in every run: pending segments are adjacent and end at snd_nxt, the queue is empty exactly when snd_una equals snd_nxt, FinWait2 has an empty queue, and every accepted byte not acknowledged is queued at its own sequence number |
| TcpSend.AckIsSoundExactlyUnlessHalfSpace | kernel/src/net/tcp.rs:823-842 | the empty-queue law survives an acknowledgement if and only if it is not exactly 2^31 ahead of an empty queue |
| TcpSend.HalfSpaceAckExample | kernel/src/net/tcp.rs:823-842 | a concrete stray acknowledgement that breaks the law |
| TcpTimer.UnansweredQueue | kernel/src/net/tcp.rs:1014-1097 | of any queue, each unanswered segment is resent exactly 200, 600, 1400, 3000 and 6200 ticks after it was sent, with its own number, flags and data and in order; nothing else changes until the oldest is 9400 ticks old, when the connection is closed, and it is dropped one tick later |
| TcpTimer.TickActsOnEach | kernel/src/net/tcp.rs:1026-1085 | in any state, a tick treats each segment of the queue alone, by its own time and count |
| TcpRecv.StepKeeps | kernel/src/net/tcp.rs:783-929 | every arrival keeps the receive invariant |
| TcpRecv.EveryRunDeliversAPrefix | kernel/src/net/tcp.rs:843-880 | under loss, duplication, reordering and resets, bytes read and buffered are a prefix of the peer's stream, all of it once the FIN is taken, rcv_nxt counts exactly that, and the buffer never exceeds 16 KiB |
| TcpRecv.FinIsTakenOnce | kernel/src/net/tcp.rs:858-870 | after the FIN nothing is taken any more |
| TcpRecv.AcknowledgesWhatWasTaken | kernel/src/net/tcp.rs:872-942 | an acknowledgement sent names exactly the next position expected |
| TcpRecv.SegmentTakesExactly | kernel/src/net/tcp.rs:843-929 | a segment of the peer brings exactly those of its bytes that are the next ones and fit, its FIN is taken exactly when it ends the stream there and moves the connection to the right state, the stack is told the right number, and an acknowledgement is sent exactly when something was taken |
| TcpRecv.FinOnSynIsMisplaced | kernel/src/net/tcp.rs:858-870 | the FIN of a repeated SYN with n bytes is taken if and only if n - 1 bytes have arrived |
| TcpRecv.FinOnSynExample | kernel/src/net/tcp.rs:858-870 | such a segment, taken twice: the FIN is taken and nothing has been delivered |
| TcpTransfer.SendCutsAtMss | kernel/src/net/tcp.rs:459-531 | all of the data is queued behind what was queued, in segments of 1 to MSS bytes, all but the last full, numbered one after the other; refused exactly when not established |
| TcpTransfer.OpensExactly | kernel/src/net/tcp.rs:801-838 | a new connection opens exactly on a SYN that acknowledges its own, with nothing left to send, the right byte expected and the MSS it was told; a SYN with another acknowledgement is answered with a reset, all else ignored |
| TcpTransfer.MssIsFound | kernel/src/net/tcp.rs:93-118 | the first MSS option is found behind any other options, and the default used when there is none |
| TcpTransfer.TransferArrives | kernel/src/net/tcp.rs:459-929 | what one of two connections in touch sends, cut into segments and delivered in order, the other has in its buffer, and after its answer they are in touch again |
| TcpTransfer.ReleaseCompletes | kernel/src/net/tcp.rs:534-929 | closing one and then the other leads through all closing states to TimeWait and Closed with nothing left to send |
| TcpTransfer.ClosesExactly | kernel/src/net/tcp.rs:789-929 | a reset closes in any state; the last acknowledgement closes; otherwise a connection left by both sides takes no notice |
| TcpConnection.TcpConn.SendBytes | kernel/src/net/tcp.rs:459-531 | cuts the data into full segments of the MSS and a rest, queued behind the others, as the specification does |
| TcpConnection.TcpConn.CloseConn | kernel/src/net/tcp.rs:534-563 | queues the FIN and moves to FinWait1 or LastAck; refused in every other state |
| TcpConnection.TcpConn.ReadBytes | kernel/src/net/tcp.rs:282-290 | takes as many of the oldest bytes from the buffer as there is space for |
| TcpConnection.TcpConn.RetainUnacked | kernel/src/net/tcp.rs:830-833 | keeps exactly the segments that end after the acknowledgement |
| TcpConnection.TcpConn.ReadMss | kernel/src/net/tcp.rs:93-118 | the loop over the options finds what the specification does |
| TcpConnection.TcpConn.ProcessSegment | kernel/src/net/tcp.rs:783-929 | the in-place step equals the step that the run theorems are about |
| TcpConnection.TcpConn.TimerTick | kernel/src/net/tcp.rs:1026-1085 | the in-place timer equals the timer that the run theorems are about |
| Cache.EvictionKeepsView | kernel/src/drivers/cache.rs:283-298 | writing back and dropping an entry leaves every sector reading as before |
| Cache.BlockCache.FindLru | kernel/src/drivers/cache.rs:264-281 | the least recently used entry that is not both dirty and recorded, or all entries are |
| Cache.BlockCache.EvictOne | kernel/src/drivers/cache.rs:260-300 | evicts the least recently used entry that is not both dirty and recorded; fails, with a working device, exactly when there is none |
| Cache.BlockCache.ReadSector | kernel/src/drivers/cache.rs:67-104 | returns the flat disk's sector and leaves the flat disk alone; with a working device refused exactly when uncached and all 256 entries are dirty and recorded; afterwards the sector is the one accessed last, all other entries are as they were, and only a full cache loses one, the least recently used |
| Cache.BlockCache.WriteSector | kernel/src/drivers/cache.rs:107-147 | updates one sector of the flat disk and records it; same exact refusal and the same account of the entries; the device gets only current contents of dirty, unrecorded sectors |
| Cache.AccessedIsLatest | kernel/src/drivers/cache.rs:76-147 | after an access no entry has a later access number than the sector's own |
| Cache.BlockCache.Flush | kernel/src/drivers/cache.rs:156-170 | the view stays; exactly the recorded sectors stay dirty; without a recording the device equals the view |
| Cache.BlockCache.DiscardRecorded | kernel/src/drivers/cache.rs:178-186 | exactly the dirty recorded sectors read from the device again |
| Cache.BlockCache.FlushAndInvalidate | kernel/src/drivers/cache.rs:189-193 | empties the cache; the device then holds the view, except that dirty sectors of an open transaction fall back to what the device held |
| Cache.BlockCache.PeekSector | kernel/src/drivers/cache.rs:222-230 | reads the view without changing anything |
| Cache.BlockCache.WriteThrough | kernel/src/drivers/cache.rs:237-242 | writes one sector to the device and the view alike |
| CacheTransactions.Run | kernel/src/drivers/cache.rs:107-230 | under any sequence of reads, writes, flushes and evictions a recorded sector is frozen on the device, unrecorded sectors read as before, and the cache shows the old view with exactly the writes that succeeded, in order |
| CacheTransactions.AbortedTransaction | kernel/src/drivers/cache.rs:178-217 | if the cache showed what the device held at the start, an aborted transaction leaves no trace |
| CacheTransactions.AbortLosesEarlierWrite | kernel/src/drivers/cache.rs:178-186 | otherwise writing such a sector and aborting always loses what the cache showed |
| CacheTransactions.AbortLosesWriteAtOnce | kernel/src/drivers/cache.rs:107-186 | the same on a new cache: one write, one aborted transaction on its sector, and the write is gone |
| CacheTransactions.CommittedTransaction | kernel/src/drivers/cache.rs:156-217 | after the recording ends a flush brings the device to the old view with exactly the writes that succeeded, in order |
| CacheRecency.AccessIsRemembered | kernel/src/drivers/cache.rs:67-300 | without an open transaction, every access keeps it so that sectors that had to go were accessed before all that are cached |
| CacheRecency.CachedExactly | kernel/src/drivers/cache.rs:67-300 | a sector is cached if and only if fewer than 256 others have been accessed since |
| CacheRecency.ReadMany | kernel/src/drivers/cache.rs:67-104 | the same for any sequence of reads through a new cache |
| FrameProtocol.EventKeeps | kernel/src/mm/phys.rs:131-273 | every atomic step of every caller keeps the ownership invariant |
| FrameProtocol.EveryBitHasOneOwner | kernel/src/mm/phys.rs:131-273 | in every interleaving each set bit has exactly one owner: a reservation, an allocation or a claim in progress; a clear bit has none |
| FrameProtocol.BackOutClearsOnlyItsOwn | kernel/src/mm/phys.rs:222-246 | a step that clears a bit clears one that its own caller had claimed and nobody else owns |
| FrameProtocol.AllocationIsFresh | kernel/src/mm/phys.rs:131-255 | a frame that is handed out was reserved by nobody and held by nobody |
| FrameProtocol.EveryCallFinishes | kernel/src/mm/phys.rs:131-273 | from any reachable state and in any interleaving, a call has finished once its thread has taken a number of steps fixed in advance: the allocator is wait-free; with what is FrameSearch.AloneInTime and FrameSearch.FailedAllocFoundAllTaken |
| FrameProtocol.RunIsProgress | kernel/src/mm/phys.rs:131-273 | along any run a call is finished or nearer to its end by as many steps as its thread has taken |
| FrameSearch.AllocFindsLowest | kernel/src/mm/phys.rs:131-156 | a call that is left alone takes the lowest free frame and nothing else, and nothing exactly when there is none |
| FrameSearch.RunFindsLowest | kernel/src/mm/phys.rs:179-255 | the same for the lowest free run of any length |
| FrameSearch.AloneInTime | kernel/src/mm/phys.rs:131-255 | in every reachable state, within a number of steps fixed in advance |
| FrameSearch.FailedAllocFoundAllTaken | kernel/src/mm/phys.rs:131-156 | in any interleaving, a call that ends with nothing found each word taken when it looked, or lost the race for the frame it wanted there |
| FrameSearch.FailedRunFoundAllTaken | kernel/src/mm/phys.rs:179-255 | in any interleaving, a search for a run that ends with nothing found a frame of each possible run taken when it looked |
| FrameSearch.LostRaceFails | kernel/src/mm/phys.rs:144-155 | two threads and 64 free frames, and one of them gets none |
| FrameBitmap.BitmapAllocator.MarkUsable | kernel/src/mm/phys.rs:84-105 | clears exactly the whole frames of the range and extends the frame count; the counter of usable frames stays right exactly when none of them was clear already |
| FrameBitmap.BitmapAllocator.MarkReserved | kernel/src/mm/phys.rs:109-127 | sets exactly the frames that the range touches, and keeps the counter of usable frames right |
| FrameBitmap.BitmapAllocator.Alloc | kernel/src/mm/phys.rs:131-156 | hands out the lowest free frame; out of memory exactly when there is none |
| FrameBitmap.BitmapAllocator.AllocContiguous | kernel/src/mm/phys.rs:179-255 | hands out the lowest free run; out of memory exactly when there is none or the count is zero |
| FrameBitmap.BitmapAllocator.Free | kernel/src/mm/phys.rs:258-273 | clears the bit and reports range errors and double frees |
| FrameBitmap.BitmapAllocator.AllocThenFree | kernel/src/mm/phys.rs:131-273 | allocating and freeing restores the bitmap |
| FrameBitmap.BitmapAllocator.FreeFrameCount | kernel/src/mm/phys.rs:281-294 | the loop over words and bits computes the specified count, unused bits of the last word subtracted |
| FrameBitmap.FreeCountIsRightExactly | kernel/src/mm/phys.rs:281-294 | it is right if and only if the bits beyond the last frame are clear |
| FrameBitmap.BitmapAllocator.CountUnderflows | kernel/src/mm/phys.rs:281-294 | one usable frame after boot, counted as -62 |
| HeapBlocks.InsertIsCanonical | kernel/src/mm/heap.rs:158-195 | insertion keeps the list sorted, disjoint and fully coalesced |
| HeapBlocks.InsertCovers | kernel/src/mm/heap.rs:158-195 | insertion adds exactly the bytes of the block |
| HeapBlocks.InsertTotal | kernel/src/mm/heap.rs:158-195 | insertion adds exactly the size of the block |
| HeapBlocks.CoverageDetermines | kernel/src/mm/heap.rs:158-195 | a sorted, coalesced list is determined by the bytes it covers |
| Heap.AlignUpIsLeast | kernel/src/mm/heap.rs:224-226 | the least multiple that is not below the value |
| Heap.CarvingKeeps | kernel/src/mm/heap.rs:86-130 | an allocation keeps free, live and lost blocks disjoint and conserves the sum of their sizes |
| Heap.CarveThenFree | kernel/src/mm/heap.rs:86-195 | freeing an allocation restores the free list exactly when no sliver was lost |
| Heap.CarvingIsRegular | kernel/src/mm/heap.rs:86-130 | at most one 8-byte sliver is lost in front and one behind |
| Heap.GrowthStaysWithinLimit | kernel/src/mm/heap.rs:198-216 | checking the limit before rounding up to frames never passes 32 MiB |
| Heap.GrownHeapFits | kernel/src/mm/heap.rs:135-142 | after a growth by size plus alignment the request fits, also when the new region was coalesced |
| HeapPlaces.FirstFitIsLowest | kernel/src/mm/heap.rs:80-90 | the first block that fits gives the lowest aligned address at which so many bytes are free; if none fits there is no such address |
| HeapPlaces.LayoutIsLeast | kernel/src/mm/heap.rs:74-75 | the size used is the least multiple of eight, at least 16, that holds the request, and the alignment used is a multiple of the one asked for |
| HeapPlaces.GrowthIsLeast | kernel/src/mm/heap.rs:198-222 | the heap grows by the least number of whole frames that holds the request, and by at least 64 |
| HeapAllocator.KernelHeap.constructor | kernel/src/mm/heap.rs:62-70 | one free block of 8 MiB |
| HeapAllocator.KernelHeap.InsertFreeBlock | kernel/src/mm/heap.rs:158-195 | the links in memory after the walk and both joins are those of the specified insertion |
| HeapAllocator.KernelHeap.FindFit | kernel/src/mm/heap.rs:80-100 | finds the first block in which the aligned request fits |
| HeapAllocator.KernelHeap.TryGrow | kernel/src/mm/heap.rs:198-220 | grows exactly when the region exists and the limit allows it |
| HeapAllocator.KernelHeap.AllocInner | kernel/src/mm/heap.rs:73-142 | the result is aligned and apart from everything live; null exactly when nothing fits and the heap cannot grow; at most one re-entry |
| HeapAllocator.KernelHeap.DeallocInner | kernel/src/mm/heap.rs:149-155 | returns exactly the block to the free list |
| HeapAllocator.KernelHeap.AllocThenFree | kernel/src/mm/heap.rs:73-155 | loses exactly the slivers around the place of the request, and restores the free list exactly when there are none |
| HeapAllocator.AllocThenFreeLosesBytes | kernel/src/mm/heap.rs:73-155 | on a new heap, 24 bytes allocated and then 16 bytes at alignment 16 allocated and freed: eight bytes are lost |
| Virtqueues.SlotsArePartitioned | kernel/src/drivers/virtqueue.rs:105-248 | free list and chains partition the 256 descriptors, each without repetition |
| Virtqueues.Virtqueue.constructor | kernel/src/drivers/virtqueue.rs:87-128 | all descriptors free, linked from 0 up |
| Virtqueues.Virtqueue.AllocDesc | kernel/src/drivers/virtqueue.rs:137-147 | pops the top of the free list, although the link after its last descriptor is garbage; fails exactly when it is empty |
| Virtqueues.Virtqueue.FreeDesc | kernel/src/drivers/virtqueue.rs:150-159 | pushes one descriptor on the free list |
| Virtqueues.Virtqueue.FreeChain | kernel/src/drivers/virtqueue.rs:162-177 | terminates, and frees exactly the descriptors of its own chain |
| Virtqueues.Virtqueue.AddBuf | kernel/src/drivers/virtqueue.rs:186-232 | refused exactly when empty, longer than 8 or longer than the free list; otherwise the chain describes the buffers in order and its head is published last |
| Virtqueues.Virtqueue.PopUsed | kernel/src/drivers/virtqueue.rs:236-248 | returns the oldest chain that the device reported, and nothing exactly when there is none, across index wrap-around |
| Virtqueues.Virtqueue.DeviceFetch | kernel/src/drivers/virtqueue.rs:221-229 | the device receives the published heads in order, each once |
| Virtqueues.Virtqueue.DeviceComplete | kernel/src/drivers/virtqueue.rs:44-59 | whichever chain the device completes, no unread entry of the used ring is overwritten |
| VirtioNetDriver.VirtioNet.PostInitialRx | kernel/src/drivers/virtio_net.rs:230-244 | posting the 16 buffers never fails and gives each its own head |
| VirtioNetDriver.VirtioNet.PollRx | kernel/src/drivers/virtio_net.rs:297-319 | every buffer stays posted under exactly one head of its own; the buffer that was read is posted again under the head it had |
| VirtioNetDriver.VirtioNet.DeviceFetches | kernel/src/drivers/virtio_net.rs:230-244 | the device fetching a buffer disturbs no posting |
| VirtioNetDriver.VirtioNet.DeviceFills | kernel/src/drivers/virtio_net.rs:297-319 | the device completing any fetched buffer disturbs no posting |
| VmRecord.OverlapsIsMapped | kernel/src/mm/vm.rs:112-114 | a range overlaps the areas exactly when one of its bytes is mapped |
| VmRecord.InsertedAt | kernel/src/mm/vm.rs:129-143 | insertion changes exactly the bytes of the area |
| VmRecord.RemovedAt | kernel/src/mm/vm.rs:205-230 | removal unmaps exactly its range, whatever the range is, and keeps the list sorted and disjoint unless the range ends before it starts; aligned and in range if its range is |
| VmRecord.ReprotectedAt | kernel/src/mm/vm.rs:234-265 | a change of access touches only the access of mapped bytes in its range, whatever the range is, and keeps the list in order unless the range is empty |
| VmRecord.InsertThenRemove | kernel/src/mm/vm.rs:129-230 | removing what was inserted restores the list itself |
| VmRecord.HighestGapIsUnique | kernel/src/mm/vm.rs:182-200 | there is only one right answer to a search for the highest gap |
| VmRecord.VmSpace.Covers | kernel/src/mm/vm.rs:117-126 | true exactly when every byte of the range is mapped |
| VmRecord.VmSpace.Insert | kernel/src/mm/vm.rs:129-143 | both errors have their exact cause; otherwise the map gains exactly the range |
| VmRecord.VmSpace.InsertUncovered | kernel/src/mm/vm.rs:148-176 | fails only on an invalid range; bytes that were mapped stay as they were, all others of the range are added |
| VmRecord.VmSpace.FindFreeBelow | kernel/src/mm/vm.rs:182-200 | the highest start of a free gap, and none exactly when there is no gap |
| VmRecord.VmSpace.RemoveRange | kernel/src/mm/vm.rs:205-230 | the loop computes the specified removal |
| VmRecord.VmSpace.SetProt | kernel/src/mm/vm.rs:234-265 | the loop computes the specified change of access |
| VmRecord.VmSpace.MapThenUnmap | kernel/src/mm/vm.rs:129-230 | with aligned arguments the gap found can be inserted, and is; removing it restores the list and the same gap is found again |
| StartOrder.FindUnit | init/src/engine.rs:332-334 | the first unit of that name |
| StartOrder.Engine.BuildDependsOn | init/src/engine.rs:133-145 | the edges are exactly the dependencies named in After= or Requires=, without self-edges and duplicates |
| StartOrder.Engine.BuildEnables | init/src/engine.rs:148-153 | the same edges turned round |
| StartOrder.Engine.Finish | init/src/engine.rs:160-165 | no in-degree goes below zero, and units that reach zero become ready |
| StartOrder.WalkDescends | init/src/engine.rs:155-167 | a walk along dependencies from an ordered unit goes down in the order and never repeats |
| StartOrder.LeftOutReachesCycle | init/src/engine.rs:155-173 | a unit is left out exactly when a walk from it comes to some unit twice |
| StartOrder.Engine.ResolveStartOrder | init/src/engine.rs:121-174 | order and cycle split all units without repetition, every dependency comes earlier, and cycle is exactly the units from which a walk reaches a directed cycle |
| StartOrder.NothingLeftOut | init/src/engine.rs:115-174 | the cycle list is empty exactly when the dependencies are acyclic |
| Utf8Decoder.EncodedTextDecodes | terminal/src/terminal.rs:62-110 | every well-formed text (section 3 of RFC 3629) comes through character by character |
| Utf8Decoder.ChunksDoNotMatter | terminal/src/terminal.rs:62-110 | cutting any byte stream into calls makes no difference |
| Utf8Decoder.ChunkedTextDecodes | terminal/src/terminal.rs:62-110 | both together, for every text and every cut |
| Utf8Decoder.CompleteIsEncoding | terminal/src/terminal.rs:78-103 | a complete multibyte sequence is shown as the character it encodes if and only if it is not overlong; out of range it is replaced |
| Utf8Decoder.OverlongExample | terminal/src/terminal.rs:81-89 | a three-byte spelling of a letter that is accepted |
| TerminalActions.ItemsActions | terminal/src/terminal.rs:62-110 | ASCII bytes cause exactly the actions they cause alone, and every other character one print |
| TerminalActions.TextActions | terminal/src/terminal.rs:62-110 | the same for the bytes of a text under every cut |
| EscapeParser.StepKeeps | terminal/src/escape.rs:66-234 | parameter and title buffers stay within 64 and 256 bytes; parameters fit 16 bits |
| EscapeParser.RunKeeps | terminal/src/escape.rs:66-85 | the same for whole runs |
| EscapeParser.ParamsOfJoin | terminal/src/escape.rs:237-258 | parsing a rendered parameter list gives the list back, capped at 16 bits |
| EscapeParser.CsiRoundTrip | terminal/src/escape.rs:117-267 | a control sequence of up to 64 parameter bytes is dispatched with exactly its parameters, capped at 16 bits |
| EscapeParser.PlainTextPrints | terminal/src/escape.rs:98-115 | printable characters print themselves |
| EscapeParser.EscParser.Feed | terminal/src/escape.rs:66-234 | the in-place parser equals the parser that the run theorems are about |
| EscapeParser.EscParser.ParseParams | terminal/src/escape.rs:237-258 | the loop reads the specified numbers, saturating |
| EscapeParser.WriteNumber | terminal/src/terminal.rs:497-512 | the digits of the number, most significant first |
| ScreenGrid.MoveUp | terminal/src/buffer.rs:233-248 | moving overlapping rows in place reads each row before it is overwritten |
| ScreenGrid.MoveDown | terminal/src/buffer.rs:263-276 | the same downwards |
| ScreenGrid.MoveRight | terminal/src/buffer.rs:301-309 | opening a gap in place |
| ScreenGrid.MoveLeft | terminal/src/buffer.rs:318-327 | closing a gap in place |
| ScreenGrid.Refit | terminal/src/buffer.rs:371-384 | what fits is kept at its place in the new layout, the rest is blank |
| ScreenSurface.ChangedRowsAreMarked | terminal/src/buffer.rs:120-403 | marking the rows that change is enough for the painter |
| ScreenSurface.RunKeepsSync | terminal/src/buffer.rs:77-78 | through any run of marked changes the clean rows of the picture stay right |
| ScreenSurface.ScrollbackKeepsLast | terminal/src/buffer.rs:221-231 | the scrollback holds the most recent lines up to its limit |
| ScreenSurface.ScreenBuffer.PutChar | terminal/src/buffer.rs:127-145 | changes one cell and marks its row |
| ScreenSurface.ScreenBuffer.Clear | terminal/src/buffer.rs:148-157 | blanks every cell |
| ScreenSurface.ScreenBuffer.ClearBelow | terminal/src/buffer.rs:160-173 | blanks exactly from the cursor on |
| ScreenSurface.ScreenBuffer.ClearAbove | terminal/src/buffer.rs:176-187 | blanks exactly up to the cursor |
| ScreenSurface.ScreenBuffer.ClearLine | terminal/src/buffer.rs:190-198 | blanks exactly the part of the line |
| ScreenSurface.ScreenBuffer.ScrollUp | terminal/src/buffer.rs:209-252 | every cell after scrolling, and which lines the scrollback gains |
| ScreenSurface.ScreenBuffer.ScrollDown | terminal/src/buffer.rs:255-280 | every cell after scrolling down |
| ScreenSurface.ScreenBuffer.InsertLines | terminal/src/buffer.rs:283-287 | every cell after inserting lines |
| ScreenSurface.ScreenBuffer.DeleteLines | terminal/src/buffer.rs:290-294 | every cell after deleting lines |
| ScreenSurface.ScreenBuffer.InsertChars | terminal/src/buffer.rs:297-311 | every cell after inserting characters |
| ScreenSurface.ScreenBuffer.DeleteChars | terminal/src/buffer.rs:314-329 | every cell after deleting characters |
| ScreenSurface.ScreenBuffer.EraseChars | terminal/src/buffer.rs:332-343 | every cell after erasing characters |
| ScreenSurface.ScreenBuffer.InsertThenDelete | terminal/src/buffer.rs:297-329 | costs only the cells pushed out at the end of the line |
| ScreenSurface.ScreenBuffer.EnableAlternate | terminal/src/buffer.rs:346-358 | a blank screen, the main one kept, all rows marked |
| ScreenSurface.ScreenBuffer.DisableAlternate | terminal/src/buffer.rs:361-368 | the main screen as it was left, all rows marked |
| ScreenSurface.ScreenBuffer.Resize | terminal/src/buffer.rs:371-391 | both screens keep what fits, all rows marked |
| ScreenSurface.ScreenBuffer.RenderDirty | kernel/src/tty/vt.rs:135-144 | repainting only the dirty rows gives the picture that repainting everything gives |
| CursorMachine.CursorState.Tabbed | terminal/src/cursor.rs:132-138 | the next multiple of eight, or the last column |
| CursorMachine.Cursor.Save | terminal/src/cursor.rs:141-144 | a restore would come back here |
| TerminalScreen.CursorAfter | terminal/src/terminal.rs:126-141 | any number of actions leaves the cursor inside the grid, a sound region, and a pending wrap only in the last column |
| TerminalSgr.ExecuteSgr | terminal/src/terminal.rs:344-430 | the loop over the parameters, extended colours included, sets the pen that the specification does |
| TerminalSgr.SgrRoundTrip | terminal/src/terminal.rs:344-430 | every pen can be asked for, from any pen: the parameters written for it give it |
| TerminalSgr.SgrKeepsPen | terminal/src/terminal.rs:344-430 | whatever the parameters, colours stay within eight bits |
| TerminalScreen.ScreenAfterCursor | terminal/src/terminal.rs:126-141 | over any number of actions the cursor of the screen is where the actions lead |
| TerminalScreen.ReportRoundTrip | terminal/src/terminal.rs:488-512 | the cursor position report parses back to the position, capped at 16 bits |
| TerminalCore.Terminal.PrintChar | terminal/src/terminal.rs:143-163 | where the character goes after a pending wrap, and every other cell |
| TerminalCore.Terminal.ExecuteControl | terminal/src/terminal.rs:165-181 | cursor and every cell after a C0 control |
| TerminalCore.Terminal.ExecuteCsi | terminal/src/terminal.rs:183-320 | cursor, every cell, the pen and the reply after a control sequence; the screen not shown is left alone |
| TerminalCore.Terminal.ExecuteCsiPrivate | terminal/src/terminal.rs:322-342 | visibility, and the switch of screens with save and restore of the cursor |
| TerminalCore.Terminal.ExecuteEsc | terminal/src/terminal.rs:439-479 | cursor, every cell and the pen after a short escape sequence |
| TerminalCore.Terminal.ExecuteAction | terminal/src/terminal.rs:126-141 | both screens, cursor, pen and replies after any action are what the specification makes of them, with every changed row marked |
| TerminalCore.Terminal.FeedByte | terminal/src/terminal.rs:62-110 | one byte; the call to itself is made from the idle decoder only, so it is one level deep |
| TerminalCore.Terminal.Feed | terminal/src/terminal.rs:62-110 | any bytes: the screen stays sound, changed rows are marked, and decoder, parser, both screens, cursor, pen and replies are the fold of the actions that the bytes call for |
| TerminalCore.FedConcat | terminal/src/terminal.rs:62-110 | feeding bytes in two calls is feeding them in one |
| TerminalCore.CutsDoNotMatter | terminal/src/terminal.rs:62-110 | however bytes are cut into calls, the whole screen is the same in the end |
| TerminalLaws.ReportsWhereItWasPut | terminal/src/terminal.rs:202-280 | the bytes that put the cursor to row r and column k, followed by a position request, are answered with r and k, and both screens stay as they were |
| TerminalLaws.TextAppears | terminal/src/terminal.rs:62-163 | any text that fits into the rest of the row appears there character by character with the pen in use, and nothing else on either screen changes |
| TerminalLaws.TextAppearsAnywhere | terminal/src/terminal.rs:62-211 | the bytes that put the cursor to row r and column k, followed by those of a text, show it there and nowhere else |
| TerminalLaws.PositionMeans | terminal/src/terminal.rs:202-206 | row and column, counted from one, and the last ones for numbers beyond |
| TerminalLaws.StepsMean | terminal/src/terminal.rs:194-200 | up, down, forward and back by exactly n within the region and the grid, and to the edge otherwise; nothing else changes |
| TerminalLaws.UpMovesDownExactly | terminal/src/cursor.rs:41-52 | a step up moves down exactly when the cursor is above the region, a step down moves up exactly when it is below |
| TerminalLaws.UpMovesDownExample | terminal/src/cursor.rs:41-52 | a step up that moves from the first row to the fifth |
| TerminalLaws.RegionMeans | terminal/src/terminal.rs:309-317 | the rows of the region, where the cursor goes, and which regions are not taken |
| TerminalLaws.ReturnsToSaved | terminal/src/terminal.rs:305-307 | a saved position is returned to from wherever the cursor has been put |
| TerminalLaws.WrapMeans | terminal/src/terminal.rs:143-163 | a character after one in the last column goes to the start of the next row |
| TerminalEdits.EraseDisplayMeans | terminal/src/terminal.rs:215-220 | erases in reading order from the cursor on, up to it, or everything |
| TerminalEdits.EraseLineMeans | terminal/src/terminal.rs:222-231 | the same within the row |
| TerminalEdits.EraseCharsMeans | terminal/src/terminal.rs:300-303 | erases n cells from the cursor on |
| TerminalEdits.InsertDeleteLinesMean | terminal/src/terminal.rs:233-248 | which row is where after n rows come in or go at the cursor, within the region |
| TerminalEdits.ScrollMeans | terminal/src/terminal.rs:249-264 | which row is where after the region has scrolled by n either way |
| TerminalEdits.InsertDeleteCharsMean | terminal/src/terminal.rs:288-299 | which cell is where after n cells come in or go at the cursor |
| TerminalEdits.NothingMeansOne | terminal/src/terminal.rs:183-303 | no number and zero mean one |
| TerminalEdits.ControlsMean | terminal/src/terminal.rs:165-181 | line feed, carriage return, backspace and tab: where the cursor goes and what scrolls; no other control does anything |
| TerminalEdits.IndexMeans | terminal/src/terminal.rs:452-477 | index, next line and reverse index likewise |
| TerminalEdits.MainScreenComesBack | terminal/src/terminal.rs:322-342 | whatever happens on the alternate screen, which begins blank, the main screen comes back as it was |
| TerminalEdits.LooksMean | terminal/src/terminal.rs:344-430 | what each parameter asks for |
| VirtualTerminal.PiecesAreCrlf | kernel/src/tty/line_discipline.rs:71-97 | the pieces handed to the terminal are the bytes with a carriage return before every line feed |
| VirtualTerminal.Vt.Write | kernel/src/tty/vt.rs:96-145 | after any output, from any picture on the display, the display shows exactly the screen that those bytes make and its cursor: no stale row and no ghost of an earlier cursor |
| TerminalCore.Terminal.Resize | terminal/src/terminal.rs:121-124 | the screen stays sound at the new size |

## Left out

- Hardware access, interrupts, TLB flushes, locks, logging, PCI, timers and assembly: no logic that a model could check.
- Paging: `set_page_flags`, `map_range` and `free_page_table`; what the last one frees depends on USER bits that a split also sets.
- PagingOps.PageTables.MapPage: USER mappings are made in the address spaces of processes only, as by all callers (kernel/src/syscall/handlers.rs:1063, kernel/src/task/process.rs:376 and 403).
- PagingOps.PageTables.MapThenUnmap: for entries with the present bit; without it there is nothing to unmap.
- PagingOps.PageTables.EnsureTable: USER tables are made below private tables of a process only; `MapPage` calls it in no other way.
- PagingOps.PageTables.CloneUserPageTable: requires that the pages to be copied lie in memory and are not free, which follows from the accounts that every operation keeps; that the child keeps the whole-memory invariant is stated for parents without user entries in the upper half; frames lost on a failed fork are not given back, as in the source.
- PagingOps.PageTables.CloneTableLevel: called for a table that the fork copies, while the fork is in progress; the same goes for PagingOps.PageTables.CloneEntry.
- PagingOps.PageTables.CloneEntry: see PagingOps.PageTables.CloneTableLevel.
- PagingFork.Fork.Translations: about a fork whose copied pages are in use; the same goes for PagingFork.Fork.KeepsConsistent, which also asks for no user entry in the upper half, and PagingFork.ForkIsolates, which also asks that copied pages hold no tables. All three follow from the accounts (PagingAccounts.AccountedMeans).
- PagingFork.Fork.KeepsConsistent: see PagingFork.Fork.Translations.
- PagingFork.ForkIsolates: see PagingFork.Fork.Translations; PagingFamily.Generations asks for none of it.
- PagingAccounts.Isolation: about the own pages of both; what a process may read of the kernel's mappings is not its own. PagingFamily.Generations shows that all it may access is.
- Memory holds one kind of word: the contents of a page are entries too, so a write through a page is a write of a word.
- TCP frames, checksums, ports, the connection table and header parsing; an MSS above 1546 would not fit the 1600-byte frames of the source.
- TcpSend.StepKeeps: assumes less than 2^31 sequence numbers outstanding, because `send` does not look at the peer's window.
- TcpRecv.StepKeeps: assumes that no segment but a reset is staler than 2^31, that segments carry what the peer sent, and that a SYN carries no FIN together with data (`FinOnSynIsMisplaced` shows why); so do TcpRecv.FinIsTakenOnce, TcpRecv.AcknowledgesWhatWasTaken and TcpRecv.EveryRunDeliversAPrefix.
- TcpRecv.SegmentTakesExactly: for segments without a SYN; a repeated SYN brings nothing new but its acknowledgement.
- TcpTimer.UnansweredQueue: for segments that have been sent once and are not overdue when the timer starts; TcpTimer.TickActsOnEach is about any queue.
- TcpTransfer.TransferArrives: segments arrive once and in order; loss and reordering are TcpRecv.EveryRunDeliversAPrefix and TcpSend.EveryRunTilesTheSendSpace. Both ends are such connections, although the source only opens actively.
- TcpTransfer.ReleaseCompletes: see TcpTransfer.TransferArrives.
- TIME_WAIT reaping, re-acknowledging duplicates and the flags of a retransmitted SYN, where the code does less than RFC 793.
- Cache.BlockCache.ReadSector: the access clock is assumed to stay below 2^64; hit and miss counters are not specified.
- CacheRecency.CachedExactly: without an open transaction; with one, its dirty sectors stay and what has to go instead is the least recently used among the rest (`Cache.BlockCache.FindLru`).
- CacheRecency.AccessIsRemembered: see CacheRecency.CachedExactly.
- The frame bitmap has one bit per element instead of words of 64; a claim in a word that is already full is one step of the interleaved model like any other.
- Heap.AlignUpIsLeast: alignment is by division, which equals the masking of the source for powers of two.
- Virtqueues.Virtqueue.constructor: the allocation of the three frames, and its failure, is not modelled; neither are memory fences.
- VirtioNetDriver.VirtioNet.PollRx: the bytes of the frame are not modelled, only how many are returned; the transmit queue and its staging page are left out.
- VmRecord.VmSpace.FindFreeBelow: integers are unbounded, so the 64-bit overflow of a length near 2^64 is not modelled.
- The rest of the init engine: loading and starting units, supervision and the restart tracker, which would add easy members.
- TerminalLaws.ReportsWhereItWasPut: for rows and columns up to 65535, the largest number that a parameter can be; so is TerminalLaws.TextAppearsAnywhere.
- TerminalLaws.TextAppearsAnywhere: see TerminalLaws.ReportsWhereItWasPut; for text that stays in one row, TerminalLaws.WrapMeans being about the next one.
- TerminalScreen.ReportRoundTrip: for screens below 10^10 rows and columns, because a number has ten digits in the source.
- The window title, the visual bell, keyboard input, the switch between virtual terminals, and fonts and colours of the painter: a cell on the display is the cell itself, inverted under the cursor.
- TerminalCore.Terminal.Feed: the scrollback over a run is not stated, only what each scroll adds to it.
- ScreenSurface.ScreenBuffer.RenderDirty: the cursor is drawn by VirtualTerminal.Vt.Write.
- ScreenSurface.ScreenBuffer.ClearBelow: for rows of the grid; past them the source would index outside it. The same goes for ScreenSurface.ScreenBuffer.ClearAbove.
- ScreenSurface.ScreenBuffer.ClearAbove: see ScreenSurface.ScreenBuffer.ClearBelow.
- EscapeParser.WriteNumber: the source has room for ten digits, the model for any number.
- EscapeParser.EscParser.Feed: takes ASCII bytes only, as the decoder above it hands on no others.
- Terminals of zero rows or columns, in which the source would underflow.
- The racfs journal, scheduler, system calls, shell, other network protocols, ELF loading, FAT and MemFs: not part of this model.
