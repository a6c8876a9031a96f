/** What ensuring tables, writing leaves and forking does to every walk, to the
    frames and to the accounts. */
module PagingEffects {
  import opened Wrappers
  import opened Paging
  import opened PagingGraft
  import opened PagingLeaf
  import opened PagingFork
  import opened PagingCloning
  import opened PagingAccounts
  import opened PagingTrace
  import opened PagingRights

  datatype MapError =
    | OutOfFrames | InvalidSplitLevel | AlreadyMapped
    | NoPdpt | NoPd | NoPt | NotMapped | HugePage

  /** Pages `w` of `s` and `v` of `r` use one and the same page-table entry. */
  ghost predicate SameSlot(mem: Memory, s: nat, w: Page, r: nat, v: Page) {
    TableAt(mem, s, w[..3]).Some? && TableAt(mem, s, w[..3]) == TableAt(mem, r, v[..3]) && w[3] == v[3]
  }

  /** Page `w` lies in the same huge page of `root` as page `v`. */
  ghost predicate SharesHugePage(mem: Memory, root: nat, v: Page, w: Page) {
    || (w[..2] == v[..2] && HugeAt(mem, root, v[..2]))
    || (w[..3] == v[..3] && HugeAt(mem, root, v[..3]))
  }

  /** Below `q` the huge pages are the same, except that splitting the one at
      `q` gives huge pages one level down. */
  ghost predicate HugePagesBelow(mem: Memory, mem': Memory, root: nat, q: Path)
    requires q != []
  {
    forall x: Path :: q <= x && |q| < |x| <= 3 ==>
      (HugeAt(mem', root, x) <==> HugeAt(mem, root, x) || (|x| == |q| + 1 && HugeAt(mem, root, q)))
  }

  /** Every address of every address space translates as before. */
  ghost predicate SameTranslations(mem: Memory, mem': Memory, roots: set<nat>) {
    forall r, w: Page :: r in roots ==> Translate(mem', r, w) == Translate(mem, r, w)
  }

  /** Every page of every address space is accessible as before. */
  ghost predicate SameAccess(mem: Memory, mem': Memory, roots: set<nat>) {
    forall r, w: Page :: r in roots ==> (Accessible(mem', r, w) <==> Accessible(mem, r, w))
  }

  /** Every page translates as before, except those that use the page-table
      entry of `v`. */
  ghost predicate OtherSlotsSame(mem: Memory, mem': Memory, roots: set<nat>, root: nat, v: Page) {
    forall s, w: Page :: s in roots && !SameSlot(mem', s, w, root, v) ==> Translate(mem', s, w) == Translate(mem, s, w)
  }

  /** No other page of any address space uses the page-table entry of `v`. */
  ghost predicate SlotIsUnshared(mem: Memory, roots: set<nat>, root: nat, v: Page) {
    forall s, w: Page :: s in roots && SameSlot(mem, s, w, root, v) ==> s == root && w == v
  }

  /** Every page but `v` of `root` translates as before. */
  ghost predicate OtherPagesSame(mem: Memory, mem': Memory, roots: set<nat>, root: nat, v: Page) {
    forall s, w: Page :: s in roots && !(s == root && w == v) ==> Translate(mem', s, w) == Translate(mem, s, w)
  }

  /** Every page that uses the page-table entry of `v` now translates to `now`,
      and every other page translates as before. */
  ghost predicate SlotBecomes(mem: Memory, mem': Memory, roots: set<nat>, root: nat, v: Page, now: Option<nat>) {
    forall s, w: Page :: s in roots ==>
      Translate(mem', s, w) == if SameSlot(mem, s, w, root, v) then now else Translate(mem, s, w)
  }

  /** The pages that translate differently are exactly those that use the
      page-table entry of `v`. */
  ghost predicate SlotChanges(mem: Memory, mem': Memory, roots: set<nat>, root: nat, v: Page) {
    forall s, w: Page :: s in roots ==>
      (Translate(mem', s, w) != Translate(mem, s, w) <==> SameSlot(mem, s, w, root, v))
  }

  /** The tables on the way to `v` carry at least these flags afterwards. */
  function FlagsAbove(flags: set<Flag>): set<Flag> {
    if User in flags then TABLE + {User} else TABLE
  }

  /** Page `w` of `s` comes to the last table on the way to `v` of `root` that a
      mapping with `flags` leaves in place, and goes on as `v` does. */
  ghost predicate Joins(mem: Memory, s: nat, w: Page, root: nat, v: Page, flags: set<Flag>) {
    Meets(mem, s, w, root, v, Anchor(mem, root, v, FlagsAbove(flags), 3))
  }

  /** Every page that joins `v` now translates to `now`, and every other page
      translates as before. */
  ghost predicate JoinedBecome(mem: Memory, mem': Memory, roots: set<nat>, root: nat, v: Page, flags: set<Flag>,
                               now: Option<nat>)
  {
    forall s, w: Page :: s in roots ==>
      Translate(mem', s, w) == if Joins(mem, s, w, root, v, flags) then now else Translate(mem, s, w)
  }

  /** The pages that translate differently are exactly those that join `v`. */
  ghost predicate JoinedChange(mem: Memory, mem': Memory, roots: set<nat>, root: nat, v: Page, flags: set<Flag>) {
    forall s, w: Page :: s in roots ==>
      (Translate(mem', s, w) != Translate(mem, s, w) <==> Joins(mem, s, w, root, v, flags))
  }

  /** After a mapping with `flags`: the pages that join `v` have these flags and
      all others those they had; the pointers that lead to `v` have gained the
      flags of a table and all others none; and who may write follows. */
  ghost predicate FlagsTraced(mem: Memory, mem': Memory, roots: set<nat>, root: nat, v: Page, flags: set<Flag>) {
    && PageFlagsTraced(mem, mem', roots, root, v, FlagsAbove(flags),
                       if Present in flags then Some(flags - {User, Huge}) else None)
    && PointersWiden(mem, mem', roots, root, v, FlagsAbove(flags), 3)
    && WritableTraced(mem, mem', roots, root, v, FlagsAbove(flags))
    && (Grants(Walk(mem', root, v), Writable) <==> Present in flags && Writable in flags)
  }

  lemma FlagsAreTraced(mem: Memory, write: LeafWrite)
    requires write.Valid() && Traced(mem, write.mem, write.roots, write.root, write.v, FlagsAbove(write.e.flags), 3)
    requires SamePageFlags(mem, write.mem, write.roots)
    requires PointersWiden(mem, write.mem, write.roots, write.root, write.v, FlagsAbove(write.e.flags), 3)
    ensures FlagsTraced(mem, write.After(), write.roots, write.root, write.v, write.e.flags)
  {
    hide Consistent, Traced, SamePageFlags, PageFlagsTraced, PointersWiden, WritableTraced, Grants, TableAt;
    var above, e := FlagsAbove(write.e.flags), write.e;
    FlagsAfterLeaf(mem, write, above);
    WritableFromFlags(mem, write.After(), write.roots, write.root, write.v, above,
                      if e.IsPresent() then Some(e.flags - {User, Huge}) else None);
  }

  /** Pages that join `v` translate alike. */
  ghost predicate JoinedAlike(mem: Memory, roots: set<nat>, root: nat, v: Page, flags: set<Flag>) {
    forall s, w: Page :: s in roots && Joins(mem, s, w, root, v, flags) ==> Translate(mem, s, w) == Translate(mem, root, v)
  }

  lemma SlotTranslates(mem: Memory, s: nat, w: Page, root: nat, v: Page)
    requires SameSlot(mem, s, w, root, v)
    ensures Translate(mem, s, w) == Translate(mem, root, v)
  {
    assert Up(w) == w[..3] && Up(v) == v[..3];
    assert Up(w[..3]) == w[..2] && Up(v[..3]) == v[..2];
    NoHugeAbove(mem, s, w);
    NoHugeAbove(mem, root, v);
  }

  lemma NoHugeAbove(mem: Memory, s: nat, w: Page)
    requires TableAt(mem, s, w[..3]).Some?
    ensures !HugeAt(mem, s, w[..2]) && !HugeAt(mem, s, w[..3])
  {
    assert Up(w[..3]) == w[..2] && Up(w[..2]) == w[..1];
  }

  /** From the slots to the pages that join. */
  lemma JoinedFromSlots(mem: Memory, mem': Memory, roots: set<nat>, root: nat, v: Page, flags: set<Flag>)
    requires SlotsTraced(mem, mem', roots, root, v, FlagsAbove(flags)) && OtherSlotsSame(mem, mem', roots, root, v)
    ensures JoinedBecome(mem, mem', roots, root, v, flags, Translate(mem', root, v))
  {
    hide TableAt, Translate, SameSlot, Meets;
    forall s, w: Page | s in roots
      ensures Translate(mem', s, w) ==
              if Joins(mem, s, w, root, v, flags) then Translate(mem', root, v) else Translate(mem, s, w)
    {
      assert SameSlot(mem', s, w, root, v) <==> Joins(mem, s, w, root, v, flags);
      if SameSlot(mem', s, w, root, v) { SlotTranslates(mem', s, w, root, v); }
    }
  }

  /** Writing to an empty slot changes exactly the pages that join. */
  lemma EmptySlotFills(mem: Memory, mem': Memory, roots: set<nat>, root: nat, v: Page, flags: set<Flag>, now: nat)
    requires JoinedBecome(mem, mem', roots, root, v, flags, Some(now)) && JoinedAlike(mem, roots, root, v, flags)
    requires Translate(mem, root, v).None?
    ensures JoinedChange(mem, mem', roots, root, v, flags)
  {
    hide Joins, Translate;
  }

  /** Clearing a slot that is in use changes exactly the pages that use it. */
  lemma UsedSlotEmpties(mem: Memory, mem': Memory, roots: set<nat>, root: nat, v: Page)
    requires SlotBecomes(mem, mem', roots, root, v, None) && Translate(mem, root, v).Some?
    ensures SlotChanges(mem, mem', roots, root, v)
  {
    hide Translate, SameSlot;
    forall s, w: Page | s in roots
      ensures Translate(mem', s, w) != Translate(mem, s, w) <==> SameSlot(mem, s, w, root, v)
    {
      if SameSlot(mem, s, w, root, v) { SlotTranslates(mem, s, w, root, v); }
    }
  }

  /** What the slot held before. */
  lemma LeafTranslates(write: LeafWrite)
    requires write.Valid() && TableAt(write.mem, write.root, write.v[..3]).value < |write.mem|
    ensures
      var o := write.mem[TableAt(write.mem, write.root, write.v[..3]).value][write.v[3]];
      Translate(write.mem, write.root, write.v) == if o.IsPresent() then Some(o.frame) else None
  {
    NoHugeAbove(write.mem, write.root, write.v);
    assert Up(write.v) == write.v[..3];
  }

  lemma SlotFromLeaf(write: LeafWrite)
    requires write.Valid() && OtherSlotsSame(write.mem, write.After(), write.roots, write.root, write.v)
    ensures SlotBecomes(write.mem, write.After(), write.roots, write.root, write.v,
                        Translate(write.After(), write.root, write.v))
  {
    hide TableAt, Translate, Consistent;
    forall s, w: Page | s in write.roots
      ensures SameSlot(write.mem, s, w, write.root, write.v) <==> SameSlot(write.After(), s, w, write.root, write.v)
      ensures SameSlot(write.mem, s, w, write.root, write.v) ==>
                Translate(write.After(), s, w) == Translate(write.After(), write.root, write.v)
    {
      write.Tables(s, w[..3]);
      write.Tables(write.root, write.v[..3]);
      if SameSlot(write.mem, s, w, write.root, write.v) { SlotTranslates(write.After(), s, w, write.root, write.v); }
    }
  }

  /** Mapping and unmapping: the pages that were filled are the ones emptied. */
  lemma FilledThenEmptied(mem: Memory, mem': Memory, mem'': Memory, roots: set<nat>, root: nat, v: Page, flags: set<Flag>,
                          now: nat)
    requires JoinedBecome(mem, mem', roots, root, v, flags, Some(now)) && JoinedAlike(mem, roots, root, v, flags)
    requires SlotsTraced(mem, mem', roots, root, v, FlagsAbove(flags)) && SlotBecomes(mem', mem'', roots, root, v, None)
    ensures JoinedBecome(mem, mem'', roots, root, v, flags, None)
    ensures Translate(mem, root, v).None? ==> SameTranslations(mem, mem'', roots)
  {
    hide Translate, SameSlot, Meets, Anchor;
    assert forall s, w: Page :: s in roots ==> (SameSlot(mem', s, w, root, v) <==> Joins(mem, s, w, root, v, flags));
  }

  lemma OnlyThatPage(mem: Memory, mem': Memory, roots: set<nat>, root: nat, v: Page)
    requires OtherSlotsSame(mem, mem', roots, root, v) && SlotIsUnshared(mem', roots, root, v)
    ensures OtherPagesSame(mem, mem', roots, root, v)
  {
    hide SameSlot, Translate;
  }

  lemma OtherPagesTwice(mem: Memory, mem': Memory, mem'': Memory, roots: set<nat>, root: nat, v: Page)
    requires OtherPagesSame(mem, mem', roots, root, v) && OtherPagesSame(mem', mem'', roots, root, v)
    ensures OtherPagesSame(mem, mem'', roots, root, v)
    ensures Translate(mem'', root, v) == Translate(mem, root, v) ==> SameTranslations(mem, mem'', roots)
  {
    hide Translate;
  }

  /** Of the pages other than `v` of `root`, no more are accessible than before
      and those that shared a huge page with `v`. */
  ghost predicate AccessGrowsAtMost(mem: Memory, mem': Memory, roots: set<nat>, root: nat, v: Page) {
    forall s, w: Page :: s in roots && !(s == root && w == v) && Accessible(mem', s, w) ==>
      Accessible(mem, s, w) || (s == root && SharesHugePage(mem, root, v, w))
  }

  /** And of those, all. */
  ghost predicate AccessGrowsAtLeast(mem: Memory, mem': Memory, roots: set<nat>, root: nat, v: Page) {
    forall s, w: Page :: s in roots && !(s == root && w == v) ==>
      (Accessible(mem, s, w) || (s == root && SharesHugePage(mem, root, v, w)) ==> Accessible(mem', s, w))
  }

  /** No address space other than `root` can tell the difference. */
  ghost predicate OthersSeeNothing(mem: Memory, mem': Memory, roots: set<nat>, root: nat) {
    forall r, q: Path :: r in roots && r != root && 1 <= |q| <= 4 ==>
      EntryAt(mem', r, q) == EntryAt(mem, r, q)
  }

  /** The pages of `root` under `q`, if `exposes`, become accessible. */
  ghost predicate AccessWidensTo(mem: Memory, mem': Memory, roots: set<nat>, root: nat, q: Path, exposes: bool) {
    forall r, w: Page :: r in roots ==>
      (Accessible(mem', r, w) <==> Accessible(mem, r, w) || (exposes && r == root && q <= w))
  }

  /** The 512 pages that a huge page falls into, and the flags of the entry
      that replaces it. */
  function SplitFill(o: Entry, user: bool, level: nat): Table {
    var flags := (o.flags - {Huge}) + (if user then {User} else {});
    seq(512, (j: nat) => if level == 2 then Entry(o.frame + j * 512, flags + {Huge}) else Entry(o.frame + j, flags))
  }

  function SplitParentFlags(o: Entry, user: bool): set<Flag> {
    if User in o.flags || user then TABLE + {User} else TABLE
  }

  /** What changes only in frames that nobody uses is seen by nobody. */
  lemma {:induction false} UnusedFramesDoNotMatter(mem: Memory, mem': Memory, roots: set<nat>, free: set<nat>, r: nat, q: Path)
    requires TablesInUse(mem, roots, free) && r in roots && |q| <= 3
    requires |mem'| == |mem| && forall x :: 0 <= x < |mem| && x !in free ==> mem'[x] == mem[x]
    ensures TableAt(mem', r, q) == TableAt(mem, r, q)
    ensures q != [] ==> EntryAt(mem', r, q) == EntryAt(mem, r, q)
    ensures Private(mem', r, q) == Private(mem, r, q)
    ensures forall j: Index :: EntryAt(mem', r, q + [j]) == EntryAt(mem, r, q + [j])
    decreases |q|
  {
    if q != [] {
      UnusedFramesDoNotMatter(mem, mem', roots, free, r, Up(q));
    }
    forall j: Index
      ensures EntryAt(mem', r, q + [j]) == EntryAt(mem, r, q + [j])
    {
      assert Up(q + [j]) == q;
    }
  }

  lemma UnusedFramesKeepConsistent(mem: Memory, mem': Memory, roots: set<nat>, users: set<nat>, free: set<nat>, free': set<nat>)
    requires Consistent(mem, roots, users, free) && free' <= free
    requires |mem'| == |mem| && forall x :: 0 <= x < |mem| && x !in free ==> mem'[x] == mem[x]
    ensures Consistent(mem', roots, users, free')
    ensures SameTranslations(mem, mem', roots)
    ensures forall r, q: Path :: r in roots && 1 <= |q| <= 4 ==> EntryAt(mem', r, q) == EntryAt(mem, r, q)
    ensures forall r, w: Page :: r in roots ==> Accessible(mem', r, w) == Accessible(mem, r, w)
  {
    hide TableAt, EntryAt, Private;
    forall r, q: Path | r in roots && |q| <= 3
      ensures TableAt(mem', r, q) == TableAt(mem, r, q)
      ensures Private(mem', r, q) == Private(mem, r, q)
    {
      UnusedFramesDoNotMatter(mem, mem', roots, free, r, q);
    }
    forall r, q: Path | r in roots && 1 <= |q| <= 4
      ensures EntryAt(mem', r, q) == EntryAt(mem, r, q)
      ensures Owned(mem', users, r, Up(q)) == Owned(mem, users, r, Up(q))
    {
      UnusedFramesDoNotMatter(mem, mem', roots, free, r, Up(q));
      assert Up(q) + [Last(q)] == q;
    }
  }

  /** What `EnsureTable` promises about every walk in every address space. */
  ghost predicate Ensured(mem: Memory, mem': Memory, roots: set<nat>, users: set<nat>,
                          root: nat, p: Path, i: Index, tableFlags: set<Flag>, r: Result<nat, MapError>)
  {
    var q := p + [i];
    var o := EntryAt(mem, root, q);
    && SameTranslations(mem, mem', roots)
    && (User in tableFlags ==> OthersSeeNothing(mem, mem', roots, root))
    && o.Some?
    && AccessWidensTo(mem, mem', roots, root, q,
                      r.Ok? && MapsHuge(|p|, o.value) && (User in tableFlags || User in o.value.flags))
    && (r.Ok? ==> TableAt(mem', root, q) == Some(r.value))
    && (r.Ok? && User in tableFlags ==> Owned(mem', users, root, q))
    && (r.Ok? ==> HugePagesBelow(mem, mem', root, q))
  }

  /** All that one call of `EnsureTable` does: to the walks, to the frames, and
      to the accounts. */
  ghost predicate TableEnsured(mem: Memory, free: set<nat>, mem': Memory, free': set<nat>,
                               roots: set<nat>, users: set<nat>, pages: set<nat>,
                               root: nat, p: Path, i: Index, tableFlags: set<Flag>, r: Result<nat, MapError>)
  {
    && Consistent(mem', roots, users, free') && |mem'| == |mem|
    && free' <= free && |free| <= |free'| + 1
    && Ensured(mem, mem', roots, users, root, p, i, tableFlags, r)
    && SamePageFlags(mem, mem', roots) && Widened(mem, mem', roots, root, p, i, if r.Ok? then tableFlags else {})
    && (var o := EntryAt(mem, root, p + [i]).value;
        && (r.Err? ==>
              if r.error == OutOfFrames
              then free' == free == {} && (Stays(Some(o), |p|, tableFlags) ==> p == [] && o.IsPresent() && Huge in o.flags)
              else r.error == InvalidSplitLevel && p == [] && o.IsPresent() && Huge in o.flags)
        && (r.Ok? ==> |free| == |free'| + if Stays(Some(o), |p|, tableFlags) then 0 else 1)
        && (r.Ok? && p == [] ==> !(o.IsPresent() && Huge in o.flags))
        && (PointsToTable(|p|, o) && Huge !in o.flags && tableFlags <= o.flags ==> mem' == mem)
        && (r.Ok? && !Stays(Some(o), |p|, tableFlags) ==> Regrafted(mem, mem', roots, root, p, i, r.value))
        && (Accounted(mem, roots, free, pages) && MayEnsure(o, p, i, tableFlags, pages) ==>
              Accounted(mem', roots, free', pages)))
  }

  /** The accounts survive if no upper-half user entry is made, and if the 4 KiB
      pages that come out of a split lie in frames given to processes. */
  ghost predicate MayEnsure(o: Entry, p: Path, i: Index, tableFlags: set<Flag>, pages: set<nat>) {
    && (p == [] && User in tableFlags ==> i < 256)
    && (|p| == 2 && MapsHuge(2, o) && (User in tableFlags || User in o.flags) ==> LargePageIn(o.frame, pages))
  }

  /** The root entry maps a huge page, which the processor does not know. */
  ghost predicate HugeRoot(mem: Memory, root: nat, i: Index) {
    root < |mem| && mem[root][i].IsPresent() && Huge in mem[root][i].flags
  }

  // ---- The three levels of tables above a page ----------------------------

  /** What ensuring the first `k` tables on the way to `v` has done. */
  ghost predicate Prepared(mem: Memory, mem': Memory, roots: set<nat>, root: nat, v: Page, k: nat, user: bool) {
    && SameTranslations(mem, mem', roots)
    && (user ==> OthersSeeNothing(mem, mem', roots, root))
    && (!user ==> SameAccess(mem, mem', roots))
    && (user ==> forall s, w: Page :: s in roots ==>
          (Accessible(mem', s, w) <==>
             Accessible(mem, s, w)
             || (s == root && k >= 2 && w[..2] == v[..2] && HugeAt(mem, root, v[..2]))
             || (s == root && k >= 3 && w[..3] == v[..3] && HugeAt(mem, root, v[..3]))))
  }

  /** The huge pages still to be met on the way to `v`. */
  ghost predicate HugePagesAhead(mem: Memory, mem': Memory, root: nat, v: Page, k: nat) {
    && (k <= 1 ==> (HugeAt(mem', root, v[..2]) <==> HugeAt(mem, root, v[..2])))
    && (k <= 2 ==>
          (HugeAt(mem', root, v[..3]) <==> HugeAt(mem, root, v[..3]) || (k == 2 && HugeAt(mem, root, v[..2]))))
  }

  /** A huge page that users may access is accessible throughout. */
  lemma UserHugePage(mem: Memory, roots: set<nat>, users: set<nat>, free: set<nat>, root: nat, q: Path, w: Page)
    requires Consistent(mem, roots, users, free) && root in roots && 2 <= |q| <= 3 && q <= w
    requires HugeAt(mem, root, q) && User in EntryAt(mem, root, q).value.flags
    ensures Accessible(mem, root, w)
  {
    var e := EntryAt(mem, root, q).value;
    assert EntryIsDisciplined(|q| - 1, Owned(mem, users, root, Up(q)), e);
    assert Private(mem, root, Up(q));
    assert q == w[..|q|] && Up(w[..3]) == w[..2] && Up(w[..2]) == w[..1];
    var walk := Walk(mem, root, w);
    assert walk[|q| - 1] == Some(e);
    assert Private(mem, root, w[..1]);
    assert walk[0].Some? && User in walk[0].value.flags;
    if |q| == 3 {
      assert walk[1].Some? && User in walk[1].value.flags;
    }
  }

  lemma PreparedOneMore(mem0: Memory, mem: Memory, mem': Memory, roots: set<nat>, users: set<nat>, free: set<nat>,
                        root: nat, v: Page, k: nat, tableFlags: set<Flag>, r: Result<nat, MapError>)
    requires k <= 2 && root in roots && Consistent(mem, roots, users, free)
    requires Prepared(mem0, mem, roots, root, v, k, User in tableFlags)
    requires HugePagesAhead(mem0, mem, root, v, k)
    requires Ensured(mem, mem', roots, users, root, v[..k], v[k], tableFlags, r)
    ensures Prepared(mem0, mem', roots, root, v, if r.Ok? then k + 1 else k, User in tableFlags)
    ensures r.Ok? ==> HugePagesAhead(mem0, mem', root, v, k + 1)
    ensures r.Ok? ==> TableAt(mem', root, v[..k + 1]) == Some(r.value)
    ensures r.Ok? && User in tableFlags ==> Owned(mem', users, root, v[..k + 1])
  {
    hide Accessible, Translate, Consistent;
    var q := v[..k] + [v[k]];
    assert q == v[..k + 1];
    if User in tableFlags {
      forall s, w: Page | s in roots
        ensures Accessible(mem', s, w) <==>
                (Accessible(mem, s, w) || (r.Ok? && s == root && w[..k + 1] == q && HugeAt(mem, root, q)))
      {
        assert q <= w <==> w[..k + 1] == q;
      }
    } else {
      forall s, w: Page | s in roots
        ensures Accessible(mem', s, w) <==> Accessible(mem, s, w)
      {
        if s == root && q <= w && HugeAt(mem, root, q) && User in EntryAt(mem, root, q).value.flags {
          UserHugePage(mem, roots, users, free, root, q, w);
        }
      }
    }
    if r.Ok? && k <= 1 {
      assert q <= v[..3] && (k == 0 ==> q <= v[..2]);
    }
  }

  /** The three tables together expose at most, and if all of them could be
      ensured exactly, the huge pages that were split. */
  lemma PreparedEnough(mem: Memory, mem': Memory, roots: set<nat>, root: nat, v: Page, k: nat, user: bool)
    requires Prepared(mem, mem', roots, root, v, k, user)
    ensures SameTranslations(mem, mem', roots)
    ensures user ==> OthersSeeNothing(mem, mem', roots, root)
    ensures !user ==> SameAccess(mem, mem', roots)
    ensures user ==> forall s, w: Page :: s in roots && Accessible(mem', s, w) ==>
              Accessible(mem, s, w) || (s == root && SharesHugePage(mem, root, v, w))
    ensures user && k == 3 ==> forall s, w: Page ::
              s in roots && (Accessible(mem, s, w) || (s == root && SharesHugePage(mem, root, v, w))) ==>
              Accessible(mem', s, w)
  {
    hide Accessible, Translate;
  }

  /** Mapping page `v` of `root` by `e` keeps the accounts if it makes no
      upper-half user entry, if a page that a fork would copy, or that comes out
      of a split, lies in a frame given to processes, and if a page that is
      marked but not for users comes to lie beside user pages. */
  ghost predicate MayMap(mem: Memory, users: set<nat>, pages: set<nat>, root: nat, v: Page, e: Entry) {
    && (User in e.flags ==> v[0] < 256)
    && (IsCopied(e) ==> e.frame in pages)
    && (IsMarked(Some(e)) && User !in e.flags ==> root in users && Private(mem, root, v[..3]))
    && ((User in e.flags || Accessible(mem, root, v)) && (HugeAt(mem, root, v[..2]) || HugeAt(mem, root, v[..3])) ==>
          forall w: Page :: w[..3] == v[..3] ==> Translate(mem, root, w).Some? && Translate(mem, root, w).value in pages)
  }

  /** A page mapping under way, from the memory in which it began. */
  datatype Mapping = Mapping(mem: Memory, free: set<nat>, roots: set<nat>, users: set<nat>, pages: set<nat>,
                             root: nat, v: Page, e: Entry)
  {
    ghost predicate Valid() {
      Consistent(mem, roots, users, free) && root in roots && (User in e.flags ==> root in users)
    }

    function TableFlags(): set<Flag> { FlagsAbove(e.flags) }

    /** The first `k` tables are there. */
    ghost predicate Ready(mem': Memory, free': set<nat>, k: nat)
      requires k <= 3
    {
      && Consistent(mem', roots, users, free') && |mem'| == |mem| && free' <= free
      && |free| == |free'| + Missing(mem, root, v, TableFlags(), k)
      && Prepared(mem, mem', roots, root, v, k, User in e.flags) && HugePagesAhead(mem, mem', root, v, k)
      && TableAt(mem', root, v[..k]).Some? && (User in e.flags ==> Owned(mem', users, root, v[..k]))
      && (if k == 0 then mem' == mem else !HugeRoot(mem, root, v[0]))
      && (Private(mem, root, v[..3]) ==> mem' == mem)
      && Traced(mem, mem', roots, root, v, TableFlags(), k) && (User in e.flags ==> OffTheWaySame(mem, mem', root, v))
      && SamePageFlags(mem, mem', roots) && PointersWiden(mem, mem', roots, root, v, TableFlags(), k)
      && (Accounted(mem, roots, free, pages) && MayMap(mem, users, pages, root, v, e) ==>
            Accounted(mem', roots, free', pages))
    }

    /** Why it may fail before the page itself is looked at. */
    ghost predicate Failed(mem': Memory, free': set<nat>, error: MapError) {
      && Consistent(mem', roots, users, free') && |mem'| == |mem| && free' <= free && |free| <= |free'| + 3
      && SameTranslations(mem, mem', roots) && SamePageFlags(mem, mem', roots)
      && PointersGrow(mem, mem', roots, TableFlags())
      && (HugeRoot(mem, root, v[0])
          || (error == OutOfFrames && |free| < Missing(mem, root, v, TableFlags(), 3)))
      && (if error == OutOfFrames then free' == {} else error == InvalidSplitLevel && HugeRoot(mem, root, v[0]))
      && (User in e.flags ==> OthersSeeNothing(mem, mem', roots, root))
      && (User !in e.flags ==> SameAccess(mem, mem', roots))
      && (User in e.flags ==> AccessGrowsAtMost(mem, mem', roots, root, v))
      && (Accounted(mem, roots, free, pages) && MayMap(mem, users, pages, root, v, e) ==>
            Accounted(mem', roots, free', pages))
    }

    lemma Begins()
      requires Valid()
      ensures Ready(mem, free, 0) && TableAt(mem, root, v[..0]) == Some(root)
    {
      hide Accounted, Accessible, Translate;
      assert v[..0] == [];
    }

    /** What the next table needs for the accounts. */
    lemma MayEnsureNext(mem': Memory, free': set<nat>, k: nat)
      requires Valid() && k <= 2 && Ready(mem', free', k) && MayMap(mem, users, pages, root, v, e)
      ensures EntryAt(mem', root, v[..k + 1]).Some?
      ensures MayEnsure(EntryAt(mem', root, v[..k + 1]).value, v[..k], v[k], TableFlags(), pages)
    {
      hide Accounted, Consistent, TableAt, Prepared, HugePagesAhead, LargePageIn, Accessible, Translate;
      NextEntry(mem', free', k);
      var o := EntryAt(mem', root, v[..k + 1]).value;
      if k == 2 && MapsHuge(2, o) && (User in e.flags || User in o.flags) {
        LargePageIsGiven(mem', free');
      }
    }

    lemma NextEntry(mem': Memory, free': set<nat>, k: nat)
      requires Valid() && k <= 2 && Ready(mem', free', k)
      ensures EntryAt(mem', root, v[..k + 1]).Some?
    {
      hide Accounted, MayMap, Prepared, HugePagesAhead;
      assert Up(v[..k + 1]) == v[..k];
      TableLiesInMemory(mem', roots, users, free', root, v[..k]);
    }

    lemma LargePageIsGiven(mem': Memory, free': set<nat>)
      requires Valid() && Ready(mem', free', 2) && MayMap(mem, users, pages, root, v, e)
      requires HugeAt(mem', root, v[..3])
      requires User in e.flags || User in EntryAt(mem', root, v[..3]).value.flags
      ensures LargePageIn(EntryAt(mem', root, v[..3]).value.frame, pages)
    {
      hide Accounted, Consistent, TableAt, EntryAt, Accessible, Translate;
      var o := EntryAt(mem', root, v[..3]).value;
      if User !in e.flags {
        assert v[..3] <= v;
        UserHugePage(mem', roots, users, free', root, v[..3], v);
      }
      forall x | o.frame <= x < o.frame + 512
        ensures x in pages
      {
        LargePageFrame(mem', o, x - o.frame);
      }
    }

    lemma LargePageFrame(mem': Memory, o: Entry, j: Index)
      requires EntryAt(mem', root, v[..3]) == Some(o) && MapsHuge(2, o)
      ensures
        var w := v[..3] + [j];
        w[..3] == v[..3] && Translate(mem', root, w) == Some(o.frame + j)
    {
      var w := v[..3] + [j];
      WalkIsCutShort(mem', root, w);
      var walk := Walk(mem', root, w);
      assert w[..3] == v[..3] && walk[2] == Some(o) && w[3] == j;
      assert walk[1].Some? && PointsToTable(1, walk[1].value);
    }

    /** On the way to a private page table nothing needs to be done. */
    lemma AlreadyThere(k: nat)
      requires Valid() && k <= 2 && Private(mem, root, v[..3])
      ensures
        var o := EntryAt(mem, root, v[..k + 1]);
        o.Some? && PointsToTable(k, o.value) && TABLE + {User} <= o.value.flags && (k > 0 ==> Huge !in o.value.flags)
    {
      assert Up(v[..3]) == v[..2] && Up(v[..2]) == v[..1] && Up(v[..1]) == [];
      assert Private(mem, root, v[..2]) && Private(mem, root, v[..1]) && Private(mem, root, v[..k + 1]);
      var o := EntryAt(mem, root, v[..k + 1]).value;
      assert EntryIsDisciplined(k, Owned(mem, users, root, Up(v[..k + 1])), o);
    }

    lemma OneMore(mem': Memory, free': set<nat>, mem'': Memory, free'': set<nat>, k: nat, r: Result<nat, MapError>)
      requires Valid() && k <= 2 && Ready(mem', free', k)
      requires TableEnsured(mem', free', mem'', free'', roots, users, pages, root, v[..k], v[k], TableFlags(), r)
      ensures r.Ok? ==> Ready(mem'', free'', k + 1) && TableAt(mem'', root, v[..k + 1]) == Some(r.value)
      ensures r.Err? ==> Failed(mem'', free'', r.error)
    {
      hide Accounted, Consistent, MayEnsure, Prepared, HugePagesAhead, MayMap, Ensured, Accessible, Traced, OffTheWaySame,
        SamePageFlags, PointersWiden, PointersGrow, Widened, Missing, Regrafted, TableAt, EntryAt, SameTranslations, Private,
        Stays;
      var user := User in e.flags;
      assert v[..k] + [v[k]] == v[..k + 1];
      PreparedOneMore(mem, mem', mem'', roots, users, free', root, v, k, TableFlags(), r);
      PreparedEnough(mem, mem'', roots, root, v, if r.Ok? then k + 1 else k, user);
      if MayMap(mem, users, pages, root, v, e) { MayEnsureNext(mem', free', k); }
      if k == 0 { RootEntry(); }
      if Private(mem, root, v[..3]) { AlreadyThere(k); }
      SamePageFlagsThrough(mem, mem', mem'', roots);
      if r.Ok? {
        TracedFurther(mem', free', mem'', free'', k, r.value);
      } else {
        PointersHaveGrown(mem, mem', mem'', roots, root, v, TableFlags(), k);
        NextEntry(mem', free', k);
        if !Stays(EntryAt(mem', root, v[..k + 1]), k, TableFlags()) && free' == {} { RanOut(mem', free', k); }
      }
    }

    /** If there is no frame and the next table has to be put in, there were too
        few from the start. */
    lemma RanOut(mem': Memory, free': set<nat>, k: nat)
      requires Valid() && k <= 2 && Ready(mem', free', k) && free' == {}
      requires !Stays(EntryAt(mem', root, v[..k + 1]), k, TableFlags())
      ensures |free| < Missing(mem, root, v, TableFlags(), 3)
    {
      hide Accounted, Consistent, Prepared, HugePagesAhead, MayMap, Traced, OffTheWaySame, TableAt, EntryAt;
      StaysAsBefore(mem, mem', roots, root, v, TableFlags(), k);
      MissingGrows(mem, root, v, TableFlags(), k + 1, 3);
    }

    lemma TracedFurther(mem': Memory, free': set<nat>, mem'': Memory, free'': set<nat>, k: nat, f: nat)
      requires Valid() && k <= 2 && Ready(mem', free', k)
      requires TableEnsured(mem', free', mem'', free'', roots, users, pages, root, v[..k], v[k], TableFlags(), Ok(f))
      ensures Traced(mem, mem'', roots, root, v, TableFlags(), k + 1)
      ensures PointersWiden(mem, mem'', roots, root, v, TableFlags(), k + 1)
      ensures |free| == |free''| + Missing(mem, root, v, TableFlags(), k + 1)
      ensures User in e.flags ==> OffTheWaySame(mem, mem'', root, v)
    {
      hide Accounted, Consistent, MayEnsure, Prepared, MayMap, Ensured, Accessible, Traced, OffTheWaySame, Regrafted,
        TableAt, EntryAt, Owned;
      assert v[..k] + [v[k]] == v[..k + 1];
      NextEntry(mem', free', k);
      if k == 0 { RootEntry(); }
      TracedOneMore(mem, mem', mem'', roots, root, v, TableFlags(), k, f);
      StaysAsBefore(mem, mem', roots, root, v, TableFlags(), k);
      PointersWidenOneMore(mem, mem', mem'', roots, root, v, TableFlags(), k);
      if User in e.flags && !Stays(EntryAt(mem', root, v[..k + 1]), k, TableFlags()) {
        OwnedIsUnique(mem', free', k);
        OffTheWayOneMore(mem, mem', mem'', roots, root, v, k, f);
      }
    }

    lemma OwnedIsUnique(mem': Memory, free': set<nat>, k: nat)
      requires Consistent(mem', roots, users, free') && k <= 3 && root in roots && Owned(mem', users, root, v[..k])
      ensures forall p: Path :: |p| == k && TableAt(mem', root, p) == TableAt(mem', root, v[..k]) ==> p == v[..k]
    {
    }

    lemma RootEntry()
      requires Valid()
      ensures root < |mem| && EntryAt(mem, root, v[..1]) == Some(mem[root][v[0]])
    {
      assert Up(v[..1]) == [] && TableAt(mem, root, []) == Some(root);
    }

    /** The page has been mapped. */
    ghost predicate Done(mem': Memory, free': set<nat>) {
      && Consistent(mem', roots, users, free') && |mem'| == |mem| && free' <= free
      && |free| == |free'| + Missing(mem, root, v, TableFlags(), 3)
      && !HugeRoot(mem, root, v[0])
      && Translate(mem', root, v) == (if e.IsPresent() then Some(e.frame) else None)
      && EntryAt(mem', root, v) == Some(e) && TableAt(mem', root, v[..3]).Some?
      && OtherSlotsSame(mem, mem', roots, root, v) && SlotsTraced(mem, mem', roots, root, v, TableFlags())
      && JoinedBecome(mem, mem', roots, root, v, e.flags, if e.IsPresent() then Some(e.frame) else None)
      && JoinedAlike(mem, roots, root, v, e.flags) && FlagsTraced(mem, mem', roots, root, v, e.flags)
      && (if User in e.flags then DoneForUser(mem') else SameAccess(mem, mem', roots))
      && (Accounted(mem, roots, free, pages) && MayMap(mem, users, pages, root, v, e) ==>
            Accounted(mem', roots, free', pages))
    }

    ghost predicate DoneForUser(mem': Memory) {
      && Owned(mem', users, root, v[..3]) && OthersSeeNothing(mem, mem', roots, root)
      && SlotIsUnshared(mem', roots, root, v) && OtherPagesSame(mem, mem', roots, root, v)
      && OffTheWaySame(mem, mem', root, v)
      && AccessGrowsAtMost(mem, mem', roots, root, v) && AccessGrowsAtLeast(mem, mem', roots, root, v)
      && (Accessible(mem', root, v) <==> e.IsPresent())
    }

    lemma ReadyMeans(mem': Memory, free': set<nat>, k: nat)
      requires k <= 3 && Ready(mem', free', k)
      ensures Consistent(mem', roots, users, free') && |mem'| == |mem|
      ensures User in e.flags ==> Owned(mem', users, root, v[..k])
    {
    }

    /** A page that is mapped already keeps its mapping. */
    lemma Refused(mem': Memory, free': set<nat>)
      requires Valid() && Ready(mem', free', 3) && TableAt(mem', root, v[..3]).value < |mem'|
      requires mem'[TableAt(mem', root, v[..3]).value][v[3]].IsPresent()
      ensures Translate(mem, root, v).Some? && SameTranslations(mem, mem', roots)
      ensures SamePageFlags(mem, mem', roots) && PointersGrow(mem, mem', roots, TableFlags())
      ensures User !in e.flags ==> SameAccess(mem, mem', roots)
      ensures Consistent(mem', roots, users, free') && free' <= free
      ensures |free| == |free'| + Missing(mem, root, v, TableFlags(), 3)
      ensures !HugeRoot(mem, root, v[0])
      ensures Accounted(mem, roots, free, pages) && MayMap(mem, users, pages, root, v, e) ==>
                Accounted(mem', roots, free', pages)
    {
      hide Accounted, MayMap, Consistent, Accessible, PageFlags;
      PresentEntryTranslates(mem', root, v);
      PointersAtMost(mem, mem', roots, root, v, TableFlags(), 3);
    }

    lemma WasAbsent(mem': Memory, free': set<nat>)
      requires Valid() && Ready(mem', free', 3) && TableAt(mem', root, v[..3]).value < |mem'|
      requires !mem'[TableAt(mem', root, v[..3]).value][v[3]].IsPresent()
      ensures Translate(mem, root, v).None?
    {
      hide Accounted, MayMap, Consistent, Accessible;
      AbsentEntryDoesNotTranslate(mem', root, v);
    }

    lemma LeafIsNext(mem': Memory, free': set<nat>)
      requires Valid() && Ready(mem', free', 3)
      ensures TableAt(mem', root, v[..3]).value < |mem'|
      ensures LeafWrite(mem', roots, users, free', root, v, e).Valid()
    {
      hide Accounted, Prepared, HugePagesAhead, MayMap;
      TableLiesInMemory(mem', roots, users, free', root, v[..3]);
    }

    lemma Written(mem': Memory, free': set<nat>)
      requires Valid() && Ready(mem', free', 3) && LeafWrite(mem', roots, users, free', root, v, e).Valid()
      requires TableAt(mem', root, v[..3]).value < |mem'|
      requires User !in e.flags ==> !mem'[TableAt(mem', root, v[..3]).value][v[3]].IsPresent()
      ensures Done(LeafWrite(mem', roots, users, free', root, v, e).After(), free')
    {
      hide Accounted, Consistent, Prepared, HugePagesAhead, MayMap, Accessible, Translate, SharesHugePage, Owned,
        SameSlot, TableAt, EntryAt, OthersSeeNothing, Traced, OffTheWaySame, SlotsTraced, SlotIsUnshared,
        JoinedBecome, JoinedAlike, FlagsAbove, OtherPagesSame, SamePageFlags, PointersWiden, FlagsTraced;
      var write := LeafWrite(mem', roots, users, free', root, v, e);
      PreparedEnough(mem, mem', roots, root, v, 3, User in e.flags);
      LeafKeepsSize(write);
      LeafWritten(write);
      LeafAudited(mem', free');
      SlotsAreTraced(mem, write, TableFlags());
      JoinedFromSlots(mem, write.After(), roots, root, v, e.flags);
      JoinedAreAlike(mem, mem', roots, root, v, e.flags);
      FlagsAreTraced(mem, write);
      if User in e.flags {
        LeafOffTheWay(mem, write);
        OnlyThatPage(mem, write.After(), roots, root, v);
        OthersThrough(mem, mem', write.After(), roots, root);
      } else {
        UnprivilegedLeaf(write);
      }
    }

    lemma LeafAudited(mem': Memory, free': set<nat>)
      requires Valid() && Ready(mem', free', 3) && LeafWrite(mem', roots, users, free', root, v, e).Valid()
      ensures Accounted(mem, roots, free, pages) && MayMap(mem, users, pages, root, v, e) ==>
                Accounted(LeafWrite(mem', roots, users, free', root, v, e).After(), roots, free', pages)
    {
      hide Accounted, Consistent, Prepared, HugePagesAhead, Accessible, Translate, HugeAt;
      if Accounted(mem, roots, free, pages) && MayMap(mem, users, pages, root, v, e) {
        LeafKeepsAccounts(LeafWrite(mem', roots, users, free', root, v, e), pages);
      }
    }
  }

  /** The slot of `v` is shared by the pages that met `v` at the last table that
      was left in place. */
  ghost predicate SlotsTraced(mem: Memory, mem': Memory, roots: set<nat>, root: nat, v: Page, flags: set<Flag>) {
    forall s, w: Page :: s in roots ==>
      (SameSlot(mem', s, w, root, v) <==> Meets(mem, s, w, root, v, Anchor(mem, root, v, flags, 3)))
  }

  lemma SlotsAreTraced(mem: Memory, write: LeafWrite, flags: set<Flag>)
    requires write.Valid() && Traced(mem, write.mem, write.roots, write.root, write.v, flags, 3)
    ensures SlotsTraced(mem, write.After(), write.roots, write.root, write.v, flags)
  {
    hide TableAt, Consistent, Anchor;
    forall s, w: Page | s in write.roots
      ensures SameSlot(write.After(), s, w, write.root, write.v) <==> Meets(write.mem, s, w, write.root, write.v, 3)
    {
      write.Tables(s, w[..3]);
      write.Tables(write.root, write.v[..3]);
      assert w[3..] == [w[3]] && write.v[3..] == [write.v[3]];
    }
  }

  lemma JoinedAreAlike(mem: Memory, mem': Memory, roots: set<nat>, root: nat, v: Page, flags: set<Flag>)
    requires Traced(mem, mem', roots, root, v, FlagsAbove(flags), 3) && SameTranslations(mem, mem', roots) && root in roots
    ensures JoinedAlike(mem, roots, root, v, flags)
  {
    hide TableAt, Translate, Anchor;
    forall s, w: Page | s in roots && Joins(mem, s, w, root, v, flags)
      ensures Translate(mem, s, w) == Translate(mem, root, v)
    {
      assert Meets(mem', s, w, root, v, 3);
      assert w[3] == w[3..][0] && v[3] == v[3..][0];
      SlotTranslates(mem', s, w, root, v);
    }
  }

  lemma LeafOffTheWay(mem: Memory, write: LeafWrite)
    requires write.Valid() && Owned(write.mem, write.users, write.root, write.v[..3])
    requires OffTheWaySame(mem, write.mem, write.root, write.v)
    ensures OffTheWaySame(mem, write.After(), write.root, write.v)
  {
    hide OffTheWaySame, TableAt, Owned, Consistent;
    forall w: Page | write.SharesSlot(write.root, w)
      ensures w == write.v
    {
      write.PrivateSlot(write.root, w);
    }
    OffTheWayLeaf(mem, write);
  }

  lemma OthersThrough(mem: Memory, mem': Memory, mem'': Memory, roots: set<nat>, root: nat)
    requires OthersSeeNothing(mem, mem', roots, root) && OthersSeeNothing(mem', mem'', roots, root)
    ensures OthersSeeNothing(mem, mem'', roots, root)
  {
  }

  /** A leaf without the user bit in an empty slot changes nobody's access. */
  lemma UnprivilegedLeaf(write: LeafWrite)
    requires write.Valid() && User !in write.e.flags
    requires write.Target() < |write.mem| && !write.mem[write.Target()][write.v[3]].IsPresent()
    ensures SameAccess(write.mem, write.After(), write.roots)
  {
    hide Consistent, TableAt, EntryAt;
    forall s, w: Page | s in write.roots
      ensures Accessible(write.After(), s, w) <==> Accessible(write.mem, s, w)
    {
      LeafEntry(write, s, w[..1]);
      LeafEntry(write, s, w[..2]);
      LeafEntry(write, s, w[..3]);
      LeafEntry(write, s, w);
      if write.SharesSlot(s, w) { SharedSlotEntry(write, s, w); }
    }
  }

  lemma SharedSlotEntry(write: LeafWrite, s: nat, w: Page)
    requires write.Valid() && write.Target() < |write.mem| && write.SharesSlot(s, w)
    ensures EntryAt(write.mem, s, w) == Some(write.mem[write.Target()][write.v[3]])
  {
    assert Up(w) == w[..3];
  }

  lemma PresentEntryTranslates(mem: Memory, root: nat, v: Page)
    requires TableAt(mem, root, v[..3]).Some? && TableAt(mem, root, v[..3]).value < |mem|
    requires mem[TableAt(mem, root, v[..3]).value][v[3]].IsPresent()
    ensures Translate(mem, root, v) == Some(mem[TableAt(mem, root, v[..3]).value][v[3]].frame)
  {
    WalkIsCutShort(mem, root, v);
    var w := Walk(mem, root, v);
    assert Up(v) == v[..3];
    assert w[2].Some? && w[1].Some?;
  }

  lemma AbsentEntryDoesNotTranslate(mem: Memory, root: nat, v: Page)
    requires TableAt(mem, root, v[..3]).Some? && TableAt(mem, root, v[..3]).value < |mem|
    requires !mem[TableAt(mem, root, v[..3]).value][v[3]].IsPresent()
    ensures Translate(mem, root, v).None?
  {
    WalkIsCutShort(mem, root, v);
    var w := Walk(mem, root, v);
    assert Up(v) == v[..3];
    assert w[2].Some? && w[1].Some?;
  }

  lemma RootIsReached(mem: Memory, root: nat, v: Page)
    ensures TableAt(mem, root, v[..0]) == Some(root)
  {
  }

  /** The entry that the walk of `v` meets at depth `k`, and what it decides. */
  lemma EntryOnWalk(mem: Memory, roots: set<nat>, users: set<nat>, free: set<nat>, root: nat, v: Page, k: nat)
    requires Consistent(mem, roots, users, free) && root in roots && k <= 3 && TableAt(mem, root, v[..k]).Some?
    ensures TableAt(mem, root, v[..k]).value < |mem|
    ensures
      var e := mem[TableAt(mem, root, v[..k]).value][v[k]];
      && (k < 3 && PointsToTable(k, e) ==> TableAt(mem, root, v[..k + 1]) == Some(e.frame))
      && (k < 3 && !PointsToTable(k, e) ==>
            TableAt(mem, root, v[..3]).None? && (Translate(mem, root, v).Some? <==> MapsHuge(k, e)))
      && (k == 3 ==> Translate(mem, root, v) == if e.IsPresent() then Some(e.frame) else None)
  {
    assert Up(v[..k + 1]) == v[..k];
    assert v[..4] == v;
    var w := Walk(mem, root, v);
    WalkIsCutShort(mem, root, v);
    assert w[k] == Some(mem[TableAt(mem, root, v[..k]).value][v[k]]);
    assert Up(v[..3]) == v[..2] && Up(v[..2]) == v[..1];
  }

  lemma ForkMayBegin(mem: Memory, roots: set<nat>, users: set<nat>, free: set<nat>, src: nat)
    requires Consistent(mem, roots, users, free) && src in users && CopiedPagesInUse(mem, free, src)
    ensures src in roots && src < |mem| && src !in free
    ensures Cloning(mem, free, src).InProgress(CloneState(mem, free, map[]))
    ensures TableAt(mem, src, []) == Some(src) && CopiedPath(mem, src, [])
    ensures SameTranslations(mem, mem, roots)
  {
    assert TableAt(mem, src, []) == Some(src);
  }

  lemma KernelHasNoUserEntry(mem: Memory, roots: set<nat>, users: set<nat>, free: set<nat>, kernel: nat)
    requires Consistent(mem, roots, users, free) && kernel in roots && kernel !in users
    ensures kernel < |mem| && kernel !in free
    ensures forall i: Index :: mem[kernel][i].IsPresent() ==> User !in mem[kernel][i].flags
  {
    assert TableAt(mem, kernel, []) == Some(kernel);
    forall i: Index
      ensures mem[kernel][i].IsPresent() ==> User !in mem[kernel][i].flags
    {
      assert Up([i]) == [];
      assert EntryAt(mem, kernel, [i]) == Some(mem[kernel][i]);
    }
  }

  /** A new address space is a fork of the kernel's, from which nothing is copied. */
  lemma KernelInherited(k: Fork, pages: set<nat>)
    requires Consistent(k.base, k.roots, k.users, k.free0) && k.src in k.roots && k.src !in k.users
    requires |k.mem| == |k.base| && k.dst in k.free0 && k.free == k.free0 - {k.dst}
    requires forall x :: 0 <= x < |k.mem| && x != k.dst ==> k.mem[x] == k.base[x]
    requires k.owner == map[k.dst := []] && k.src < |k.mem| && k.dst < |k.mem|
    requires forall i: Index :: ClonedRoot(k.base, k.mem, k.src, k.dst, i, k.owner)
    ensures Consistent(k.mem, k.roots + {k.dst}, k.users + {k.dst}, k.free)
    ensures SameTranslations(k.base, k.mem, k.roots) && k.dst !in k.roots
    ensures Inherited(k.base, k.src, k.mem, k.dst)
    ensures forall s :: s in k.roots ==> SameEntries(k.base, k.mem, s)
    ensures Accounted(k.base, k.roots, k.free0, pages) ==> Accounted(k.mem, k.roots + {k.dst}, k.free, pages)
  {
    hide Accounted, PagesDisjoint, SameTranslations, Consistent, Translate, Accessible, SameEntries;
    assert k.Valid() && CopiedPages(k) == {} by { NothingCopiedIsValid(k); }
    KernelHasNoUserEntry(k.base, k.roots, k.users, k.free0, k.src);
    assert pages + {} == pages;
    ForkCompletes(k, pages);
    forall s | s in k.roots
      ensures SameEntries(k.base, k.mem, s)
    {
      OthersSeeSameEntries(k, s);
    }
    forall q: Path | 1 <= |q| <= 4
      ensures PresentAt(k.mem, k.dst, q) == PresentAt(k.base, k.src, q)
    {
      NothingCopied(k, q);
      k.Entries(q);
    }
    forall w: Page
      ensures Translate(k.mem, k.dst, w) == Translate(k.base, k.src, w) && !Accessible(k.mem, k.dst, w)
    {
      PageInherited(k, w);
    }
  }

  lemma PageInherited(k: Fork, w: Page)
    requires k.Valid() && forall i: Index :: k.base[k.src][i].IsPresent() ==> User !in k.base[k.src][i].flags
    ensures Translate(k.mem, k.dst, w) == Translate(k.base, k.src, w) && !Accessible(k.mem, k.dst, w)
  {
    hide Consistent;
    NothingCopied(k, w);
    k.Translations(w);
    k.Access(w, User);
    assert Up(w[..1]) == [];
  }

  lemma NothingCopiedIsValid(k: Fork)
    requires Consistent(k.base, k.roots, k.users, k.free0) && k.src in k.roots && k.src !in k.users
    requires |k.mem| == |k.base| && k.dst in k.free0 && k.free == k.free0 - {k.dst}
    requires forall x :: 0 <= x < |k.mem| && x != k.dst ==> k.mem[x] == k.base[x]
    requires k.owner == map[k.dst := []] && k.src < |k.mem| && k.dst < |k.mem|
    requires forall i: Index :: ClonedRoot(k.base, k.mem, k.src, k.dst, i, k.owner)
    ensures k.Valid() && CopiedPages(k) == {}
  {
    KernelHasNoUserEntry(k.base, k.roots, k.users, k.free0, k.src);
    forall v: Page
      ensures !CopiedPath(k.base, k.src, v)
    {
      NothingCopied(k, v);
    }
  }

  /** The address space `dst` of `mem` maps what `src` mapped in `base`, by the
      same entries, and a process may access none of it. */
  ghost predicate Inherited(base: Memory, src: nat, mem: Memory, dst: nat) {
    && (forall w: Page :: Translate(mem, dst, w) == Translate(base, src, w) && !Accessible(mem, dst, w))
    && (forall q: Path :: 1 <= |q| <= 4 ==> PresentAt(mem, dst, q) == PresentAt(base, src, q))
  }

  lemma {:induction false} NothingCopied(k: Fork, q: Path)
    requires k.src < |k.base| && 1 <= |q| <= 4
    requires forall i: Index :: k.base[k.src][i].IsPresent() ==> User !in k.base[k.src][i].flags
    ensures !CopiedPath(k.base, k.src, q)
    decreases |q|
  {
    if |q| == 1 {
      assert Up(q) == [] && q == [q[0]];
    } else {
      NothingCopied(k, Up(q));
    }
  }

  /** All that a fork cut short guarantees. */
  lemma ForkFails(c: Cloning, n: CloneState, roots: set<nat>, users: set<nat>, pages: set<nat>)
    requires Consistent(c.base, roots, users, c.free0) && c.InProgress(n)
    ensures Consistent(n.mem, roots, users, n.free) && SameTranslations(c.base, n.mem, roots)
    ensures Accounted(c.base, roots, c.free0, pages) ==> Accounted(n.mem, roots, n.free, pages)
  {
    hide Accounted, Consistent, Translate;
    UnusedFramesKeepConsistent(c.base, n.mem, roots, users, c.free0, n.free);
    if Accounted(c.base, roots, c.free0, pages) {
      SameEntriesKeepAccounts(c.base, n.mem, roots, c.free0, n.free, pages);
    }
  }

  /** All that a finished fork guarantees. */
  lemma ForkCompletes(k: Fork, pages: set<nat>)
    requires k.Valid()
    ensures SameTranslations(k.base, k.mem, k.roots) && k.dst !in k.roots
    ensures KernelHalfHasNoUserEntry(k.base, k.src) ==> Consistent(k.mem, k.roots + {k.dst}, k.users + {k.dst}, k.free)
    ensures Accounted(k.base, k.roots, k.free0, pages) ==>
              && Accounted(k.mem, k.roots + {k.dst}, k.free, pages + CopiedPages(k))
              && forall r :: r in k.roots ==> PagesDisjoint(k.mem, r, k.dst)
  {
    hide Accounted, PagesDisjoint;
    assert TableAt(k.base, k.dst, []) == Some(k.dst);
    UnusedFramesKeepConsistent(k.base, k.mem, k.roots, k.users, k.free0, k.free);
    if KernelHalfHasNoUserEntry(k.base, k.src) { k.KeepsConsistent(); }
    if Accounted(k.base, k.roots, k.free0, pages) { ForkKeepsAccounts(k, pages); }
  }

  /** All that writing one page-table entry does, for every walk. */
  lemma LeafWritten(write: LeafWrite)
    requires write.Valid()
    ensures Consistent(write.After(), write.roots, write.users, write.free)
    ensures
      var mem, mem', root, v, e := write.mem, write.After(), write.root, write.v, write.e;
      && Translate(mem', root, v) == (if e.IsPresent() then Some(e.frame) else None)
      && EntryAt(mem', root, v) == Some(e)
      && TableAt(mem', root, v[..3]) == TableAt(mem, root, v[..3])
      && (Owned(mem, write.users, root, v[..3]) ==> Owned(mem', write.users, root, v[..3]))
      && OtherSlotsSame(mem, mem', write.roots, root, v)
      && (Owned(mem, write.users, root, v[..3]) ==>
            && OthersSeeNothing(mem, mem', write.roots, root)
            && SlotIsUnshared(mem', write.roots, root, v)
            && (forall s, w: Page :: s in write.roots && !(s == root && w == v) ==>
                  Accessible(mem', s, w) == Accessible(mem, s, w))
            && (Accessible(mem', root, v) <==> Present in e.flags && User in e.flags))
  {
    write.KeepsConsistent();
    write.Translations(write.root, write.v);
    write.Tables(write.root, write.v[..3]);
    forall s, w: Page | s in write.roots
      ensures SameSlot(write.After(), s, w, write.root, write.v) <==> write.SharesSlot(s, w)
      ensures !write.SharesSlot(s, w) ==> Translate(write.After(), s, w) == Translate(write.mem, s, w)
    {
      write.Tables(s, w[..3]);
      write.Tables(write.root, write.v[..3]);
      write.Translations(s, w);
    }
    if Owned(write.mem, write.users, write.root, write.v[..3]) {
      OwnedLeafWritten(write);
    }
  }

  lemma OwnedLeafWritten(write: LeafWrite)
    requires write.Valid() && Owned(write.mem, write.users, write.root, write.v[..3])
    ensures
      var mem, mem', root, v, e := write.mem, write.After(), write.root, write.v, write.e;
      && OthersSeeNothing(mem, mem', write.roots, root)
      && SlotIsUnshared(mem', write.roots, root, v)
      && (forall s, w: Page :: s in write.roots && !(s == root && w == v) ==>
            Accessible(mem', s, w) == Accessible(mem, s, w))
      && (Accessible(mem', root, v) <==> Present in e.flags && User in e.flags)
  {
    hide Consistent, TableAt, EntryAt, Owned, Grants;
    var mem, mem', root, v := write.mem, write.After(), write.root, write.v;
    forall s, q: Path | s in write.roots && 1 <= |q| <= 4 && !(s == root && q == v)
      ensures EntryAt(mem', s, q) == EntryAt(mem, s, q)
    {
      OwnedLeafEntry(write, s, q);
    }
    forall s, w: Page | s in write.roots && SameSlot(mem', s, w, root, v)
      ensures s == root && w == v
    {
      write.Tables(s, w[..3]);
      write.Tables(root, v[..3]);
      write.PrivateSlot(s, w);
    }
    OwnedLeafAccess(write);
  }

  lemma OwnedLeafEntry(write: LeafWrite, s: nat, q: Path)
    requires write.Valid() && Owned(write.mem, write.users, write.root, write.v[..3])
    requires s in write.roots && 1 <= |q| <= 4 && !(s == write.root && q == write.v)
    ensures EntryAt(write.After(), s, q) == EntryAt(write.mem, s, q)
  {
    hide Consistent, TableAt, EntryAt, Owned;
    if |q| == 4 {
      write.Translations(s, q);
      if write.SharesSlot(s, q) { write.PrivateSlot(s, q); }
    } else {
      write.Tables(s, q);
    }
  }

  lemma OwnedLeafAccess(write: LeafWrite)
    requires write.Valid() && Owned(write.mem, write.users, write.root, write.v[..3])
    ensures Accessible(write.After(), write.root, write.v) <==> Present in write.e.flags && User in write.e.flags
  {
    hide Consistent;
    var root, v := write.root, write.v;
    write.Tables(root, v[..1]);
    write.Tables(root, v[..2]);
    write.Tables(root, v[..3]);
    write.Translations(root, v);
    PrivateWalk(write.mem, root, v);
    var w, w' := Walk(write.mem, root, v), Walk(write.After(), root, v);
    assert w'[0] == w[0] && w'[1] == w[1] && w'[2] == w[2] && w'[3] == Some(write.e);
  }

  /** Above a private page table every entry has the user bit. */
  lemma PrivateWalk(mem: Memory, root: nat, v: Page)
    requires Private(mem, root, v[..3])
    ensures
      var w := Walk(mem, root, v);
      forall k :: 0 <= k < 3 ==> w[k].Some? && User in w[k].value.flags && PointsToTable(k, w[k].value)
  {
    assert Up(v[..3]) == v[..2] && Up(v[..2]) == v[..1];
    assert Private(mem, root, v[..2]) && Private(mem, root, v[..1]);
  }

  // ---- Why each of the three ways to ensure a table is a graft ------------

  lemma NewTableIsGraft(g: Graft)
    requires Consistent(g.mem, g.roots, g.users, g.free)
    requires g.root in g.roots && |g.p| <= 2 && TableAt(g.mem, g.root, g.p).Some?
    requires g.e.frame in g.free && TABLE <= g.e.flags && Huge !in g.e.flags
    requires User in g.e.flags ==> Owned(g.mem, g.users, g.root, g.p)
    requires !g.mem[TableAt(g.mem, g.root, g.p).value][g.i].IsPresent()
    requires g.fill == ZEROED
    ensures g.Valid() && !g.Old().value.IsPresent()
  {
    assert Up(g.p + [g.i]) == g.p;
  }

  lemma SplitIsGraft(g: Graft, user: bool)
    requires Consistent(g.mem, g.roots, g.users, g.free)
    requires g.root in g.roots && 1 <= |g.p| <= 2 && TableAt(g.mem, g.root, g.p).Some?
    requires g.e.frame in g.free
    requires user ==> Owned(g.mem, g.users, g.root, g.p)
    requires
      var o := g.mem[TableAt(g.mem, g.root, g.p).value][g.i];
      && o.IsPresent() && Huge in o.flags
      && g.e.flags == SplitParentFlags(o, user)
      && g.fill == SplitFill(o, user, 3 - |g.p|)
    ensures g.Valid() && MapsHuge(|g.p|, g.Old().value)
    ensures User in g.e.flags && !user ==> User in g.Old().value.flags
  {
    var q := g.p + [g.i];
    assert Up(q) == g.p;
    assert EntryAt(g.mem, g.root, q).Some?;
  }

  lemma CopyIsGraft(g: Graft)
    requires Consistent(g.mem, g.roots, g.users, g.free)
    requires g.root in g.roots && |g.p| <= 2 && TableAt(g.mem, g.root, g.p).Some?
    requires g.e.frame in g.free
    requires
      var o := g.mem[TableAt(g.mem, g.root, g.p).value][g.i];
      && PointsToTable(|g.p|, o)
      && TABLE <= g.e.flags && Huge !in g.e.flags
      && (User in g.e.flags ==> Owned(g.mem, g.users, g.root, g.p))
      && User !in o.flags
      && o.frame < |g.mem| && g.fill == g.mem[o.frame]
    ensures g.Valid() && PointsToTable(|g.p|, g.Old().value)
  {
    assert Up(g.p + [g.i]) == g.p;
  }

  // ---- All that a graft guarantees, for every walk ------------------------

  lemma GraftTranslations(g: Graft)
    requires g.Valid()
    ensures SameTranslations(g.mem, g.After(), g.roots)
  {
    forall r, w: Page | r in g.roots
      ensures Translate(g.After(), r, w) == Translate(g.mem, r, w)
    {
      g.Translations(r, w);
    }
  }

  lemma GraftThrough(g: Graft, r: nat, w: Page)
    requires g.Valid() && r in g.roots && User in g.e.flags
    ensures g.Through(r, w) <==> r == g.root && g.p + [g.i] <= w
  {
    var q := g.p + [g.i];
    if r == g.root && q <= w {
      assert w[..|g.p|] == g.p;
    }
    if g.Through(r, w) {
      assert w[..|g.p|] == g.p;
      assert q == w[..|q|];
    }
  }

  lemma GraftAccess(g: Graft)
    requires g.Valid()
    ensures AccessWidensTo(g.mem, g.After(), g.roots, g.root, g.p + [g.i],
                           User in g.e.flags && MapsHuge(|g.p|, g.Old().value))
  {
    forall r, w: Page | r in g.roots
      ensures Accessible(g.After(), r, w) <==>
              Accessible(g.mem, r, w)
              || (User in g.e.flags && MapsHuge(|g.p|, g.Old().value) && r == g.root && g.p + [g.i] <= w)
    {
      g.Accessibility(r, w);
      if User in g.e.flags {
        GraftThrough(g, r, w);
      }
    }
  }

  lemma GraftOthers(g: Graft)
    requires g.Valid() && User in g.e.flags
    ensures OthersSeeNothing(g.mem, g.After(), g.roots, g.root)
  {
    forall r, q: Path | r in g.roots && r != g.root && 1 <= |q| <= 4
      ensures EntryAt(g.After(), r, q) == EntryAt(g.mem, r, q)
    {
      g.Entries(r, q);
    }
  }

  lemma GraftReaches(g: Graft)
    requires g.Valid()
    ensures TableAt(g.After(), g.root, g.p + [g.i]) == Some(g.e.frame)
    ensures User in g.e.flags ==> Owned(g.After(), g.users, g.root, g.p + [g.i])
  {
    var q := g.p + [g.i];
    assert q[..|g.p|] == g.p;
    g.Tables(g.root, q);
    g.Privacy(g.root, q);
  }

  lemma GraftHugePages(g: Graft)
    requires g.Valid()
    ensures HugePagesBelow(g.mem, g.After(), g.root, g.p + [g.i])
  {
    var q := g.p + [g.i];
    assert Up(q) == g.p && q[..|g.p|] == g.p;
    forall x: Path | q <= x && |q| < |x| <= 3
      ensures HugeAt(g.After(), g.root, x) <==>
              (HugeAt(g.mem, g.root, x) || (|x| == |q| + 1 && HugeAt(g.mem, g.root, q)))
    {
      assert x[..|g.p|] == g.p && x[..|q|] == q;
      g.Entries(g.root, x);
      if |x| == |q| + 1 { assert Up(x) == q; }
    }
  }

  lemma Hung(g: Graft)
    requires g.Valid()
    ensures Consistent(g.After(), g.roots, g.users, g.free - {g.e.frame})
    ensures SameTranslations(g.mem, g.After(), g.roots)
    ensures User in g.e.flags ==> OthersSeeNothing(g.mem, g.After(), g.roots, g.root)
    ensures AccessWidensTo(g.mem, g.After(), g.roots, g.root, g.p + [g.i],
                           User in g.e.flags && MapsHuge(|g.p|, g.Old().value))
    ensures TableAt(g.After(), g.root, g.p + [g.i]) == Some(g.e.frame)
    ensures User in g.e.flags ==> Owned(g.After(), g.users, g.root, g.p + [g.i])
    ensures HugePagesBelow(g.mem, g.After(), g.root, g.p + [g.i])
  {
    GraftHugePages(g);
    g.KeepsConsistent();
    GraftTranslations(g);
    GraftAccess(g);
    GraftReaches(g);
    if User in g.e.flags { GraftOthers(g); }
  }

  lemma EnsuredByNewTable(g: Graft, tableFlags: set<Flag>, pages: set<nat>)
    requires Consistent(g.mem, g.roots, g.users, g.free)
    requires g.root in g.roots && |g.p| <= 2 && TableAt(g.mem, g.root, g.p).Some?
    requires g.e.frame in g.free && (tableFlags == TABLE || tableFlags == TABLE + {User})
    requires User in tableFlags ==> Owned(g.mem, g.users, g.root, g.p)
    requires !g.mem[TableAt(g.mem, g.root, g.p).value][g.i].IsPresent()
    requires g.e.flags == tableFlags && g.fill == ZEROED
    ensures g.Valid()
    ensures TableEnsured(g.mem, g.free, g.After(), g.free - {g.e.frame}, g.roots, g.users, pages,
                         g.root, g.p, g.i, tableFlags, Ok(g.e.frame))
  {
    hide Accounted, MayEnsure, SameTranslations, OthersSeeNothing, AccessWidensTo, HugePagesBelow, Regrafted,
      Widened, SamePageFlags;
    NewTableIsGraft(g);
    Hung(g);
    OldIsTheEntry(g);
    GraftAudited(g, tableFlags, pages);
    GraftRegrafts(g);
    GraftWidens(g, tableFlags);
    GraftKeepsSize(g);
  }

  lemma EnsuredBySplit(g: Graft, tableFlags: set<Flag>, pages: set<nat>)
    requires Consistent(g.mem, g.roots, g.users, g.free)
    requires g.root in g.roots && 1 <= |g.p| <= 2 && TableAt(g.mem, g.root, g.p).Some?
    requires g.e.frame in g.free && (tableFlags == TABLE || tableFlags == TABLE + {User})
    requires User in tableFlags ==> Owned(g.mem, g.users, g.root, g.p)
    requires
      var o := g.mem[TableAt(g.mem, g.root, g.p).value][g.i];
      && o.IsPresent() && Huge in o.flags
      && g.e.flags == SplitParentFlags(o, User in tableFlags)
      && g.fill == SplitFill(o, User in tableFlags, 3 - |g.p|)
    ensures g.Valid()
    ensures TableEnsured(g.mem, g.free, g.After(), g.free - {g.e.frame}, g.roots, g.users, pages,
                         g.root, g.p, g.i, tableFlags, Ok(g.e.frame))
  {
    hide Accounted, MayEnsure, SameTranslations, OthersSeeNothing, AccessWidensTo, HugePagesBelow, Regrafted,
      Widened, SamePageFlags, Represents, SplitFill;
    SplitIsGraft(g, User in tableFlags);
    Hung(g);
    OldIsTheEntry(g);
    GraftAudited(g, tableFlags, pages);
    GraftRegrafts(g);
    GraftWidens(g, tableFlags);
    GraftKeepsSize(g);
  }

  lemma EnsuredByCopy(g: Graft, tableFlags: set<Flag>, pages: set<nat>)
    requires Consistent(g.mem, g.roots, g.users, g.free)
    requires g.root in g.roots && |g.p| <= 2 && TableAt(g.mem, g.root, g.p).Some?
    requires g.e.frame in g.free && (tableFlags == TABLE || tableFlags == TABLE + {User})
    requires User in tableFlags ==> Owned(g.mem, g.users, g.root, g.p)
    requires
      var o := g.mem[TableAt(g.mem, g.root, g.p).value][g.i];
      && o.IsPresent() && Huge !in o.flags && !(tableFlags <= o.flags)
      && g.e.flags == o.flags + tableFlags
      && o.frame < |g.mem| && g.fill == g.mem[o.frame]
    ensures g.Valid()
    ensures TableEnsured(g.mem, g.free, g.After(), g.free - {g.e.frame}, g.roots, g.users, pages,
                         g.root, g.p, g.i, tableFlags, Ok(g.e.frame))
  {
    hide Accounted, MayEnsure, SameTranslations, OthersSeeNothing, AccessWidensTo, HugePagesBelow, Regrafted,
      Widened, SamePageFlags;
    var q := g.p + [g.i];
    assert Up(q) == g.p;
    assert EntryAt(g.mem, g.root, q).Some?;
    CopyIsGraft(g);
    Hung(g);
    OldIsTheEntry(g);
    GraftAudited(g, tableFlags, pages);
    GraftRegrafts(g);
    GraftWidens(g, tableFlags);
    GraftKeepsSize(g);
  }

  lemma GraftAudited(g: Graft, tableFlags: set<Flag>, pages: set<nat>)
    requires g.Valid() && (tableFlags == TABLE || tableFlags == TABLE + {User})
    requires
      var o := g.Old().value;
      || (!o.IsPresent() && g.e.flags == tableFlags && g.fill == ZEROED)
      || (PointsToTable(|g.p|, o) && g.e.flags == o.flags + tableFlags)
      || (MapsHuge(|g.p|, o) && g.e.flags == SplitParentFlags(o, User in tableFlags)
          && g.fill == SplitFill(o, User in tableFlags, 3 - |g.p|))
    ensures
      var o := g.mem[TableAt(g.mem, g.root, g.p).value][g.i];
      Accounted(g.mem, g.roots, g.free, pages) && MayEnsure(o, g.p, g.i, tableFlags, pages) ==>
        Accounted(g.After(), g.roots, g.free - {g.e.frame}, pages)
  {
    hide Accounted, Consistent, TableAt, Harmless, MayEnsure, Represents, SplitFill;
    OldIsTheEntry(g);
    if Accounted(g.mem, g.roots, g.free, pages) && MayEnsure(g.Old().value, g.p, g.i, tableFlags, pages) {
      GraftIsHarmless(g, tableFlags, pages);
      GraftKeepsAccounts(g, pages);
    }
  }

  lemma OldIsTheEntry(g: Graft)
    requires g.Valid()
    ensures TableAt(g.mem, g.root, g.p).value < |g.mem|
    ensures g.Old() == Some(g.mem[TableAt(g.mem, g.root, g.p).value][g.i])
  {
    assert Up(g.p + [g.i]) == g.p;
  }

  lemma GraftIsHarmless(g: Graft, tableFlags: set<Flag>, pages: set<nat>)
    requires g.Valid() && (tableFlags == TABLE || tableFlags == TABLE + {User})
    requires
      var o := g.Old().value;
      || (!o.IsPresent() && g.e.flags == tableFlags && g.fill == ZEROED)
      || (PointsToTable(|g.p|, o) && g.e.flags == o.flags + tableFlags)
      || (MapsHuge(|g.p|, o) && g.e.flags == SplitParentFlags(o, User in tableFlags)
          && g.fill == SplitFill(o, User in tableFlags, 3 - |g.p|))
    requires MayEnsure(g.Old().value, g.p, g.i, tableFlags, pages)
    ensures Harmless(g, pages)
  {
    hide Consistent, TableAt, EntryAt, Represents, LargePageIn, Private;
  }

  lemma PageMayBeTaken(mem: Memory, roots: set<nat>, users: set<nat>, free: set<nat>, pages: set<nat>)
    requires Consistent(mem, roots, users, free)
    ensures forall f :: f in free ==> f < |mem| && Consistent(mem, roots, users, free - {f})
    ensures Accounted(mem, roots, free, pages) ==>
              forall f :: f in free ==> Accounted(mem, roots, free - {f}, pages + {f})
  {
    hide MarksArePrivate;
  }

  lemma EnsuredAlready(g: Graft, tableFlags: set<Flag>, pages: set<nat>)
    requires Consistent(g.mem, g.roots, g.users, g.free)
    requires g.root in g.roots && |g.p| <= 2 && TableAt(g.mem, g.root, g.p).Some?
    requires tableFlags == TABLE || tableFlags == TABLE + {User}
    requires User in tableFlags ==> Owned(g.mem, g.users, g.root, g.p)
    requires
      var o := g.mem[TableAt(g.mem, g.root, g.p).value][g.i];
      o.IsPresent() && Huge !in o.flags
    ensures
      var o := g.mem[TableAt(g.mem, g.root, g.p).value][g.i];
      && o.frame < |g.mem|
      && (tableFlags <= o.flags ==>
            TableEnsured(g.mem, g.free, g.mem, g.free, g.roots, g.users, pages, g.root, g.p, g.i, tableFlags, Ok(o.frame)))
  {
    hide Accounted, Widened, SamePageFlags;
    var q := g.p + [g.i];
    assert Up(q) == g.p;
    assert TableAt(g.mem, g.root, q).Some?;
    if tableFlags <= EntryAt(g.mem, g.root, q).value.flags {
      AlreadyWide(g.mem, g.roots, g.root, g.p, g.i, tableFlags);
    }
  }

  lemma TableLiesInMemory(mem: Memory, roots: set<nat>, users: set<nat>, free: set<nat>, root: nat, p: Path)
    requires Consistent(mem, roots, users, free)
    requires root in roots && |p| <= 3 && TableAt(mem, root, p).Some?
    ensures TableAt(mem, root, p).value < |mem| && TableAt(mem, root, p).value !in free
    ensures forall f :: f in free ==> f < |mem|
  {
  }

  lemma NothingEnsured(g: Graft, mem': Memory, tableFlags: set<Flag>, error: MapError)
    requires EntryAt(g.mem, g.root, g.p + [g.i]).Some? && SameTranslations(g.mem, mem', g.roots)
    requires forall r, q: Path :: r in g.roots && 1 <= |q| <= 4 ==> EntryAt(mem', r, q) == EntryAt(g.mem, r, q)
    requires forall r, w: Page :: r in g.roots ==> Accessible(mem', r, w) == Accessible(g.mem, r, w)
    ensures Ensured(g.mem, mem', g.roots, g.users, g.root, g.p, g.i, tableFlags, Err(error))
  {
    hide TableAt, EntryAt, Accessible, SameTranslations, Owned, HugePagesBelow;
  }

  /** A failure that touched only unused frames changed nothing. */
  lemma EnsuredByNothing(g: Graft, mem': Memory, free': set<nat>, tableFlags: set<Flag>, pages: set<nat>, error: MapError)
    requires Consistent(g.mem, g.roots, g.users, g.free) && free' <= g.free && |g.free| <= |free'| + 1
    requires error == OutOfFrames ==> g.free == {}
    requires g.root in g.roots && |g.p| <= 2 && TableAt(g.mem, g.root, g.p).Some?
    requires |mem'| == |g.mem| && forall x :: 0 <= x < |g.mem| && x !in g.free ==> mem'[x] == g.mem[x]
    requires
      var o := g.mem[TableAt(g.mem, g.root, g.p).value][g.i];
      && (if error == OutOfFrames then free' == {}
          else error == InvalidSplitLevel && g.p == [] && o.IsPresent() && Huge in o.flags)
      && (PointsToTable(|g.p|, o) && Huge !in o.flags ==> !(tableFlags <= o.flags))
    ensures TableEnsured(g.mem, g.free, mem', free', g.roots, g.users, pages, g.root, g.p, g.i, tableFlags, Err(error))
  {
    hide Accounted, MayEnsure, Widened, SamePageFlags, Consistent, Ensured, SameTranslations, Accessible, Regrafted, TableAt;
    assert Up(g.p + [g.i]) == g.p;
    TableLiesInMemory(g.mem, g.roots, g.users, g.free, g.root, g.p);
    UnusedFramesKeepConsistent(g.mem, mem', g.roots, g.users, g.free, free');
    NothingEnsured(g, mem', tableFlags, error);
    NothingWidens(g.mem, mem', g.roots, g.root, g.p, g.i);
    if Accounted(g.mem, g.roots, g.free, pages) {
      SameEntriesKeepAccounts(g.mem, mem', g.roots, g.free, free', pages);
    }
  }
}
