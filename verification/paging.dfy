/**
 The x86-64 four-level page tables of the kernel.

 Physical memory is a sequence of frames and a frame is 512 words of 64 bits.
 A word is exactly a 40-bit frame number and 24 flag bits, so any frame can be
 read as a page table and any frame can be copied as data.

 A position in a page-table tree is a path: the sequence of the table indices
 taken from the root. The table reached by a path of length d has depth d, so
 depth 0 is the PML4, 1 a PDPT, 2 a PD and 3 a PT. A virtual page is a path of
 length 4.
 */
module Paging {
  import opened Wrappers

  datatype Flag =
    | Present | Writable | User | WriteThrough | NoCache | Accessed | Dirty
    | Huge | Global | UserOwned | NoExecute | Available(bit: nat)

  const TABLE: set<Flag> := {Present, Writable}

  datatype Entry = Entry(frame: nat, flags: set<Flag>) {
    predicate IsPresent() { Present in flags }
  }

  const EMPTY := Entry(0, {})

  type Index = i: nat | i < 512

  type Table = t: seq<Entry> | |t| == 512 witness seq(512, _ => EMPTY)

  const ZEROED: Table := seq(512, _ => EMPTY)

  type Memory = seq<Table>

  type Path = seq<Index>

  type Page = p: Path | |p| == 4 witness [0, 0, 0, 0]

  // ---- Virtual addresses --------------------------------------------------

  function Pml4Index(virt: nat): Index { (virt / 0x80_0000_0000) % 512 }
  function PdptIndex(virt: nat): Index { (virt / 0x4000_0000) % 512 }
  function PdIndex(virt: nat): Index { (virt / 0x20_0000) % 512 }
  function PtIndex(virt: nat): Index { (virt / 0x1000) % 512 }

  /** The virtual page of an address. */
  function PageOf(virt: nat): Page {
    [Pml4Index(virt), PdptIndex(virt), PdIndex(virt), PtIndex(virt)]
  }

  /** The indices and the 36-bit page number of an address determine each other. */
  lemma PageNumber(a: nat)
    requires a < 0x1_0000_0000_0000
    ensures
      var n := a / 0x1000;
      && n == ((Pml4Index(a) as nat * 512 + PdptIndex(a)) * 512 + PdIndex(a)) * 512 + PtIndex(a)
      && Pml4Index(a) == n / 512 / 512 / 512 && PdptIndex(a) == n / 512 / 512 % 512
      && PdIndex(a) == n / 512 % 512 && PtIndex(a) == n % 512
  {
    var n := a / 0x1000;
    assert a / 0x20_0000 == n / 512;
    assert a / 0x4000_0000 == n / 512 / 512;
    assert a / 0x80_0000_0000 == n / 512 / 512 / 512;
  }

  /** Two 48-bit addresses have the same indices exactly when they lie in the
      same 4 KiB page. */
  lemma PageOfIsExact(a: nat, b: nat)
    requires a < 0x1_0000_0000_0000 && b < 0x1_0000_0000_0000
    ensures PageOf(a) == PageOf(b) <==> a / 0x1000 == b / 0x1000
  {
    hide Pml4Index, PdptIndex, PdIndex, PtIndex;
    PageNumber(a);
    PageNumber(b);
    var p, q := PageOf(a), PageOf(b);
    assert p == q <==> p[0] == q[0] && p[1] == q[1] && p[2] == q[2] && p[3] == q[3];
  }

  // ---- The walk -----------------------------------------------------------

  /** A present entry of a table at `depth` that leads to another table. No walk
      looks at the huge bit of a PML4 entry; only a mapping that has to go through
      it does, and fails. */
  predicate PointsToTable(depth: nat, e: Entry) {
    depth < 3 && e.IsPresent() && (depth == 0 || Huge !in e.flags)
  }

  /** A present PDPT or PD entry that maps a 1 GiB or 2 MiB page. */
  predicate MapsHuge(depth: nat, e: Entry) {
    1 <= depth <= 2 && e.IsPresent() && Huge in e.flags
  }

  function Up(p: Path): Path
    requires p != []
  {
    p[..|p| - 1]
  }

  function Last(p: Path): Index
    requires p != []
  {
    p[|p| - 1]
  }

  /** The frame of the table that `p` reaches from `root`. */
  ghost function TableAt(mem: Memory, root: nat, p: Path): Option<nat>
    decreases |p|
  {
    if p == [] then Some(root)
    else
      var t := TableAt(mem, root, Up(p));
      if t.None? || t.value >= |mem| then None
      else
        var e := mem[t.value][Last(p)];
        if PointsToTable(|p| - 1, e) then Some(e.frame) else None
  }

  /** The entry that the last index of `p` selects. */
  ghost function EntryAt(mem: Memory, root: nat, p: Path): Option<Entry>
    requires p != []
  {
    var t := TableAt(mem, root, Up(p));
    if t.None? || t.value >= |mem| then None else Some(mem[t.value][Last(p)])
  }

  /** What the PDPT, PD and PT entries met on the way to page `v` give. */
  function Resolve(e1: Option<Entry>, e2: Option<Entry>, e3: Option<Entry>, v: Page): Option<nat> {
    if e1.Some? && MapsHuge(1, e1.value) then Some(e1.value.frame + v[2] as nat * 512 + v[3])
    else if e2.Some? && MapsHuge(2, e2.value) then Some(e2.value.frame + v[3])
    else if e3.Some? && e3.value.IsPresent() then Some(e3.value.frame)
    else None
  }

  /** The physical frame that page `v` translates to. */
  ghost function Translate(mem: Memory, root: nat, v: Page): Option<nat> {
    Resolve(EntryAt(mem, root, v[..2]), EntryAt(mem, root, v[..3]), EntryAt(mem, root, v), v)
  }

  // ---- The walk as the kernel performs it ---------------------------------

  /** The user and writable bits of one level of the walk. */
  function Folded(e: Entry): set<Flag> {
    e.flags * {User, Writable}
  }

  /** What a user-mode access to page `v` may do: the user and writable bits
      of every level folded together, and the other flags of the leaf. */
  function UserAccessFlags(mem: Memory, root: nat, v: Page): Option<set<Flag>> {
    if root >= |mem| then None else
    var e4 := mem[root][v[0]];
    if !e4.IsPresent() || e4.frame >= |mem| then None else
    var e3 := mem[e4.frame][v[1]];
    if !e3.IsPresent() then None else
    var folded3 := Folded(e4) * e3.flags;
    if Huge in e3.flags then Some((e3.flags - {User, Writable}) + folded3) else
    if e3.frame >= |mem| then None else
    var e2 := mem[e3.frame][v[2]];
    if !e2.IsPresent() then None else
    var folded2 := folded3 * e2.flags;
    if Huge in e2.flags then Some((e2.flags - {User, Writable}) + folded2) else
    if e2.frame >= |mem| then None else
    var e1 := mem[e2.frame][v[3]];
    if !e1.IsPresent() then None else
    Some((e1.flags - {User, Writable}) + folded2 * e1.flags)
  }

  /** The entries met on the walk of `v`, from the PML4 down. */
  ghost function Walk(mem: Memory, r: nat, v: Page): (w: seq<Option<Entry>>)
    ensures |w| == 4
  {
    [EntryAt(mem, r, v[..1]), EntryAt(mem, r, v[..2]), EntryAt(mem, r, v[..3]), EntryAt(mem, r, v)]
  }

  /** Below an entry that points to no table there is nothing to meet. */
  ghost predicate CutShort(w: seq<Option<Entry>>) {
    forall n :: 0 <= n < |w| - 1 && (w[n].None? || !PointsToTable(n, w[n].value)) ==> w[n + 1].None?
  }

  lemma WalkIsCutShort(mem: Memory, r: nat, v: Page)
    ensures CutShort(Walk(mem, r, v))
  {
    assert Up(v) == v[..3] && Up(v[..3]) == v[..2] && Up(v[..2]) == v[..1];
  }

  /** The walk ends at a leaf and every entry on it has `bit`. */
  ghost predicate Grants(w: seq<Option<Entry>>, bit: Flag)
    requires |w| == 4
  {
    && w[0].Some? && bit in w[0].value.flags
    && w[1].Some? && bit in w[1].value.flags
    && (MapsHuge(1, w[1].value)
        || (&& w[2].Some? && bit in w[2].value.flags
            && (MapsHuge(2, w[2].value)
                || (w[3].Some? && w[3].value.IsPresent() && bit in w[3].value.flags))))
  }

  /** The entry that maps the page, if the walk ends at one. */
  ghost function Leaf(w: seq<Option<Entry>>): Option<Entry>
    requires |w| == 4
  {
    if w[1].Some? && MapsHuge(1, w[1].value) then w[1]
    else if w[2].Some? && MapsHuge(2, w[2].value) then w[2]
    else if w[3].Some? && w[3].value.IsPresent() then w[3]
    else None
  }

  /** A user-mode access to page `v` is allowed. */
  ghost predicate Accessible(mem: Memory, r: nat, v: Page) {
    Grants(Walk(mem, r, v), User)
  }

  /** What the walk allows, from the entries it met. */
  ghost function AccessOf(w: seq<Option<Entry>>): Option<set<Flag>>
    requires |w| == 4
  {
    var leaf := Leaf(w);
    if leaf.None? then None
    else Some(set bit | bit in leaf.value.flags && (bit in {User, Writable} ==> Grants(w, bit)))
  }

  /** The kernel's own walk finds a page exactly when the page translates. It
      reports the user and the writable bit exactly when every level has them,
      and every other flag exactly when the leaf has it. */
  lemma AccessFlagsAreExact(mem: Memory, r: nat, v: Page)
    requires forall p: Path :: |p| <= 3 && TableAt(mem, r, p).Some? ==> TableAt(mem, r, p).value < |mem|
    ensures UserAccessFlags(mem, r, v) == AccessOf(Walk(mem, r, v))
    ensures UserAccessFlags(mem, r, v).Some? <==> Translate(mem, r, v).Some?
  {
    var w := Walk(mem, r, v);
    WalkIsCutShort(mem, r, v);
    WalkEntries(mem, r, v);
    var flags, exact := UserAccessFlags(mem, r, v), AccessOf(w);
    assert flags.Some? <==> Leaf(w).Some?;
    if flags.Some? {
      assert forall bit :: bit in flags.value <==> bit in exact.value;
      assert flags.value == exact.value;
    }
  }

  /** The entries met on a walk are the words that the kernel reads. */
  lemma WalkEntries(mem: Memory, r: nat, v: Page)
    requires forall p: Path :: |p| <= 3 && TableAt(mem, r, p).Some? ==> TableAt(mem, r, p).value < |mem|
    ensures
      var w := Walk(mem, r, v);
      && r < |mem| && w[0] == Some(mem[r][v[0]])
      && (forall k :: 0 <= k < 3 && w[k].Some? && PointsToTable(k, w[k].value) ==>
            w[k].value.frame < |mem| && w[k + 1] == Some(mem[w[k].value.frame][v[k + 1]]))
  {
    assert Up(v) == v[..3] && Up(v[..3]) == v[..2] && Up(v[..2]) == v[..1] && Up(v[..1]) == [];
    assert TableAt(mem, r, []) == Some(r);
  }

  // ---- The invariant ------------------------------------------------------

  /** Every pointer on the way to `p` carries the user bit. In a process's
      address space such tables belong to that process alone. */
  ghost predicate Private(mem: Memory, root: nat, p: Path)
    decreases |p|
  {
    p == [] ||
    (Private(mem, root, Up(p)) &&
     var e := EntryAt(mem, root, p);
     e.Some? && PointsToTable(|p| - 1, e.value) && User in e.value.flags)
  }

  /** Tables lie in memory and are not on the allocator's free list. */
  ghost predicate TablesInUse(mem: Memory, roots: set<nat>, free: set<nat>) {
    forall r, p: Path :: r in roots && |p| <= 3 && TableAt(mem, r, p).Some? ==>
      TableAt(mem, r, p).value < |mem| && TableAt(mem, r, p).value !in free
  }

  /** No frame is used as a table at two different depths. */
  ghost predicate OneDepthPerTable(mem: Memory, roots: set<nat>) {
    forall r, r', p: Path, p': Path ::
      r in roots && r' in roots && |p| <= 3 && |p'| <= 3
      && TableAt(mem, r, p).Some? && TableAt(mem, r', p') == TableAt(mem, r, p)
      ==> |p| == |p'|
  }

  /** A private table of a process is reached by one path from one root. */
  ghost predicate PrivateTablesAreExclusive(mem: Memory, roots: set<nat>, users: set<nat>) {
    forall r, r', p: Path, p': Path ::
      r in users && r' in roots && |p| <= 3 && |p'| <= 3 && Private(mem, r, p)
      && TableAt(mem, r', p') == TableAt(mem, r, p)
      ==> r == r' && p == p'
  }

  ghost predicate Owned(mem: Memory, users: set<nat>, r: nat, p: Path) {
    r in users && Private(mem, r, p)
  }

  /** What the entries of a table may look like: a shared table has no user bit
      at all, and a private one has only writable user pointers. */
  ghost predicate EntryIsDisciplined(depth: nat, owned: bool, e: Entry) {
    if owned then PointsToTable(depth, e) && User in e.flags ==> Writable in e.flags
    else e.IsPresent() ==> User !in e.flags
  }

  ghost predicate EntriesAreDisciplined(mem: Memory, roots: set<nat>, users: set<nat>) {
    forall r, p: Path :: r in roots && 1 <= |p| <= 4 && EntryAt(mem, r, p).Some? ==>
      EntryIsDisciplined(|p| - 1, Owned(mem, users, r, Up(p)), EntryAt(mem, r, p).value)
  }

  ghost predicate Consistent(mem: Memory, roots: set<nat>, users: set<nat>, free: set<nat>) {
    && users <= roots
    && (forall f :: f in free ==> f < |mem|)
    && TablesInUse(mem, roots, free)
    && OneDepthPerTable(mem, roots)
    && PrivateTablesAreExclusive(mem, roots, users)
    && EntriesAreDisciplined(mem, roots, users)
  }
}
