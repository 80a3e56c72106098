/** The abstract state of the memory manager: the free blocks of the two address windows, the
    free frames, the flat map from window pages to page-table entries, and the frames that hold
    page tables made by map_page.  Its invariant, and what each step does to it. */
module VmmSpec {
  import opened Extents
  import opened Machine
  import opened Markers
  import opened Paging
  import FreeListSpec
  import FrameListSpec
  import Coalescing
  import PageTables

  const USER_FIRST: nat := 0x400
  const USER_END: nat := 0xC_0000
  const KERNEL_FIRST: nat := 0xC_0400
  const KERNEL_END: nat := 0xF_FC00

  function First(isKernel: bool): nat { if isKernel then KERNEL_FIRST else USER_FIRST }

  function End(isKernel: bool): nat { if isKernel then KERNEL_END else USER_END }

  predicate InSpace(p: int, isKernel: bool) { First(isKernel) <= p < End(isKernel) }

  predicate InWindow(p: int) { InSpace(p, false) || InSpace(p, true) }

  /** The directory entry that covers a page. */
  function Slot(p: int): int { p / 1024 }

  /** The directory entries that cover the windows. */
  predicate WindowSlot(i: int) { 1 <= i < 1023 && i != 768 }

  lemma WindowSlots(p: int)
    ensures InWindow(p) <==> 0 <= p < FRAMES && WindowSlot(Slot(p))
  {
  }

  /** A present entry: the frame, and the flag bits below it. */
  datatype Mapping = Mapping(frame: nat, flags: nat)

  function Decode(e: Word): Mapping { Mapping(FrameOf(e), e % 4096) }

  /** `flat` holds exactly the present entries of window pages. */
  ghost predicate FlatView(m: Memory, cr3: nat, flat: map<int, Mapping>)
    requires cr3 < FRAMES && WellFormed(m)
  {
    && (forall p :: p in flat ==> InWindow(p))
    && forall p: nat {:trigger At(p)} :: At(p) && InWindow(p) ==>
         if Present(Entry(m, cr3, p)) then p in flat && flat[p] == Decode(Entry(m, cr3, p)) else p !in flat
  }

  /** `tables` holds exactly the frames of the page tables that cover the windows. */
  ghost predicate TableView(m: Memory, cr3: nat, tables: map<int, int>)
    requires cr3 < FRAMES && WellFormed(m)
  {
    && (forall i :: i in tables ==> WindowSlot(i))
    && forall i: nat {:trigger At(i)} :: At(i) && WindowSlot(i) ==>
         if Present(m[cr3][i]) then i in tables && tables[i] == FrameOf(m[cr3][i]) else i !in tables
  }

  /** Page tables in memory, as the two views. */
  ghost predicate Views(m: Memory, cr3: nat, flat: map<int, Mapping>, tables: map<int, int>) {
    Sound(m, cr3) && Booted(m, cr3) && FlatView(m, cr3, flat) && TableView(m, cr3, tables)
  }

  /** The entries below the recursive window decide the flat view and the boot mapping. */
  lemma SameEntries(m: Memory, n: Memory, cr3: nat, flat: map<int, Mapping>)
    requires cr3 < 1024 && WellFormed(m) && WellFormed(n) && FlatView(m, cr3, flat) && BootMapped(m, cr3)
    requires forall p: nat {:trigger At(p)} :: At(p) && Slot(p) < 1023 ==> Entry(n, cr3, p) == Entry(m, cr3, p)
    ensures FlatView(n, cr3, flat) && BootMapped(n, cr3)
  {
    forall p: nat | At(p) && InWindow(p) ensures Slot(p) < 1023 {
      WindowSlots(p);
    }
  }

  lemma TableAdded(m: Memory, n: Memory, cr3: nat, tables: map<int, int>, i: nat, t: nat)
    requires cr3 < FRAMES && WellFormed(m) && WellFormed(n) && TableView(m, cr3, tables) && WindowSlot(i)
    requires Present(n[cr3][i]) && FrameOf(n[cr3][i]) == t
    requires forall j :: 0 <= j < 1024 && j != i ==> n[cr3][j] == m[cr3][j]
    ensures TableView(n, cr3, tables[i := t])
  {
    forall j: nat | At(j) && WindowSlot(j)
      ensures if Present(n[cr3][j]) then j in tables[i := t] && tables[i := t][j] == FrameOf(n[cr3][j])
              else j !in tables[i := t]
    {
      assert j != i ==> n[cr3][j] == m[cr3][j];
    }
  }

  /** A new table for a slot that has none. */
  lemma TableViews(m: Memory, cr3: nat, flat: map<int, Mapping>, tables: map<int, int>, i: nat, t: nat)
    requires Views(m, cr3, flat, tables) && WindowSlot(i) && i !in tables && t < FRAMES && Unused(m, cr3, t)
    ensures Views(WithTable(m, cr3, i, t), cr3, flat, tables[i := t])
  {
    assert At(i);
    WithTableKeeps(m, cr3, i, t);
    var n := WithTable(m, cr3, i, t);
    PageTables.TableEntry(t);
    forall p: nat | At(p) && Slot(p) < 1023 ensures Entry(n, cr3, p) == Entry(m, cr3, p) {
      assert p < 1023 * 1024;
    }
    SameEntries(m, n, cr3, flat);
    TableAdded(m, n, cr3, tables, i, t);
    assert n[cr3][0] == m[cr3][0] && n[cr3][768] == m[cr3][768];
  }

  /** A new entry for a page whose table exists. */
  lemma EntryViews(m: Memory, cr3: nat, flat: map<int, Mapping>, tables: map<int, int>, page: nat, e: Word)
    requires Views(m, cr3, flat, tables) && InWindow(page) && Slot(page) in tables
    ensures Present(m[cr3][page / 1024])
    ensures Views(WithEntry(m, cr3, page, e), cr3, if Present(e) then flat[page := Decode(e)] else flat - {page}, tables)
  {
    assert At(Slot(page)) && At(page);
    WindowSlots(page);
    WithEntryKeeps(m, cr3, page, e);
    var n := WithEntry(m, cr3, page, e);
    forall p: nat | At(p) && Slot(p) < 1023
      ensures Entry(n, cr3, p) == if p == page then e else Entry(m, cr3, p)
    {
      assert p < 1023 * 1024;
    }
    forall p: nat | At(p) && InWindow(p) ensures Slot(p) < 1023 {
      WindowSlots(p);
    }
  }

  /** The boot tables (pd_init) and the directory lie below 4 MiB, where no free frame is, and the
      first 4 MiB are still mapped at address 0 and at 3 GiB. */
  ghost predicate Booted(m: Memory, cr3: nat) {
    && cr3 < 1024 && WellFormed(m)
    && Present(m[cr3][0]) && FrameOf(m[cr3][0]) < 1024
    && Present(m[cr3][768]) && FrameOf(m[cr3][768]) < 1024
    && BootMapped(m, cr3)
  }

  ghost predicate BootMapped(m: Memory, cr3: nat)
    requires cr3 < 1024 && WellFormed(m)
  {
    forall p: nat {:trigger At(p)} :: At(p) && (Slot(p) == 0 || Slot(p) == 768) ==>
      Entry(m, cr3, p) == p % 1024 * 4096 + 7
  }

  // ----- frame ownership

  ghost function MappedFrames(flat: map<int, Mapping>): set<int> {
    set p | p in flat :: flat[p].frame
  }

  ghost function TableFrames(tables: map<int, int>): set<int> {
    set i | i in tables :: tables[i]
  }

  ghost predicate NoSharing(flat: map<int, Mapping>) {
    forall p, q {:trigger At(p), At(q)} ::
      At(p) && At(q) && p in flat && q in flat && flat[p].frame == flat[q].frame ==> p == q
  }

  ghost predicate OneTablePerFrame(tables: map<int, int>) {
    forall i, j {:trigger At(i), At(j)} ::
      At(i) && At(j) && i in tables && j in tables && tables[i] == tables[j] ==> i == j
  }

  /** Every owned frame is free, or mapped at exactly one page, or holds exactly one table. */
  ghost predicate Partition(owned: set<int>, free: set<int>, flat: map<int, Mapping>, tables: map<int, int>) {
    && owned == free + MappedFrames(flat) + TableFrames(tables)
    && free !! MappedFrames(flat) !! TableFrames(tables)
    && NoSharing(flat) && OneTablePerFrame(tables)
  }

  lemma FrameTaken(owned: set<int>, free: set<int>, flat: map<int, Mapping>, tables: map<int, int>, f: int)
    requires Partition(owned, free, flat, tables) && f in free
    ensures Partition(owned - {f}, free - {f}, flat, tables)
  {
  }

  lemma FrameGiven(owned: set<int>, free: set<int>, flat: map<int, Mapping>, tables: map<int, int>, f: int)
    requires Partition(owned - {f}, free - {f}, flat, tables) && f in free && f in owned
    ensures Partition(owned, free, flat, tables)
  {
  }

  lemma FrameMapped(owned: set<int>, free: set<int>, flat: map<int, Mapping>, tables: map<int, int>, p: int, e: Mapping)
    requires e.frame in owned && p !in flat
    requires Partition(owned - {e.frame}, free, flat, tables)
    ensures Partition(owned, free, flat[p := e], tables)
  {
    var flat' := flat[p := e];
    assert MappedFrames(flat') == MappedFrames(flat) + {e.frame} by {
      assert flat'[p] == e;
      forall q | q in flat ensures flat[q].frame in MappedFrames(flat') {
        assert flat'[q] == flat[q];
      }
    }
  }

  lemma FrameUnmapped(owned: set<int>, free: set<int>, flat: map<int, Mapping>, tables: map<int, int>, p: int)
    requires Partition(owned, free, flat, tables) && p in flat
    ensures flat[p].frame !in free
    ensures Partition(owned, free + {flat[p].frame}, flat - {p}, tables)
  {
    var flat' := flat - {p};
    assert MappedFrames(flat') == MappedFrames(flat) - {flat[p].frame} by {
      forall q | q in flat && q != p
        ensures flat[q].frame in MappedFrames(flat') && flat[q].frame != flat[p].frame
      {
        assert At(p) && At(q);
        assert q in flat' && flat'[q] == flat[q];
      }
    }
  }

  lemma FrameTabled(owned: set<int>, free: set<int>, flat: map<int, Mapping>, tables: map<int, int>, i: int, t: int)
    requires Partition(owned, free, flat, tables) && t in free && i !in tables
    ensures Partition(owned, free - {t}, flat, tables[i := t])
  {
    var tables' := tables[i := t];
    assert TableFrames(tables') == TableFrames(tables) + {t} by {
      assert tables'[i] == t;
      forall j | j in tables ensures tables[j] in TableFrames(tables') {
        assert tables'[j] == tables[j];
      }
    }
  }

  /** No free frame holds a table, so map_page may make a table of any of them. */
  lemma FreeIsUnused(m: Memory, cr3: nat, owned: set<int>, free: set<int>,
                     flat: map<int, Mapping>, tables: map<int, int>, f: nat)
    requires Views(m, cr3, flat, tables) && Partition(owned, free, flat, tables)
    requires f in free && f >= 1024
    ensures Unused(m, cr3, f)
  {
    forall i: nat | At(i) && i < 1023 && Present(m[cr3][i]) ensures FrameOf(m[cr3][i]) != f {
      if WindowSlot(i) {
        assert At(i);
        assert tables[i] in TableFrames(tables);
      }
    }
  }

  /** The table for slot `i` exists, or has been made of a free frame. */
  ghost predicate TableStep(tables: map<int, int>, tables': map<int, int>, free: set<int>, i: int) {
    if i in tables then tables' == tables
    else i in tables' && tables' == tables[i := tables'[i]] && tables'[i] in free
  }

  ghost function TableCost(tables: map<int, int>, i: int): nat { if i in tables then 0 else 1 }

  /** The page tables show the two views, and no frame has two uses.  The marker keeps the
      definition out of proofs that do not ask for it. */
  ghost predicate Linked(m: Memory, cr3: nat, held: set<int>, free: set<int>,
                         flat: map<int, Mapping>, tables: map<int, int>)
  {
    && cr3 < FRAMES && WellFormed(m)
    && forall i {:trigger Ask(Links, i)} :: Ask(Links, i) ==>
         Views(m, cr3, flat, tables) && Partition(held, free, flat, tables)
  }

  lemma TakeLinked(m: Memory, cr3: nat, held: set<int>, free: set<int>,
                   flat: map<int, Mapping>, tables: map<int, int>, f: int)
    requires Linked(m, cr3, held, free, flat, tables) && f in free
    ensures Linked(m, cr3, held - {f}, free - {f}, flat, tables) && f in held
  {
    assert Ask(Links, 0);
    FrameTaken(held, free, flat, tables, f);
  }

  lemma GiveLinked(m: Memory, cr3: nat, held: set<int>, free: set<int>,
                   flat: map<int, Mapping>, tables: map<int, int>, f: int)
    requires Linked(m, cr3, held - {f}, free - {f}, flat, tables) && f in free && f in held
    ensures Linked(m, cr3, held, free, flat, tables)
  {
    assert Ask(Links, 0);
    FrameGiven(held, free, flat, tables, f);
  }

  /** map_page makes a table of a free frame. */
  lemma EnterTable(m: Memory, cr3: nat, held: set<int>, free: set<int>,
                   flat: map<int, Mapping>, tables: map<int, int>, i: nat, t: nat)
    requires Linked(m, cr3, held, free, flat, tables) && WindowSlot(i) && i !in tables
    requires t in free && 1024 <= t < FRAMES
    ensures Linked(WithTable(m, cr3, i, t), cr3, held, free - {t}, flat, tables[i := t])
  {
    assert Ask(Links, 0);
    FreeIsUnused(m, cr3, held, free, flat, tables, t);
    TableViews(m, cr3, flat, tables, i, t);
    FrameTabled(held, free, flat, tables, i, t);
  }

  /** map_page enters a page, on a frame that is neither free nor in use. */
  lemma EnterPage(m: Memory, cr3: nat, owned: set<int>, free: set<int>,
                  flat: map<int, Mapping>, tables: map<int, int>, page: nat, e: Word)
    requires Linked(m, cr3, owned - {FrameOf(e)}, free, flat, tables)
    requires InWindow(page) && page !in flat && Slot(page) in tables && Present(e) && FrameOf(e) in owned
    ensures Linked(WithEntry(m, cr3, page, e), cr3, owned, free, flat[page := Decode(e)], tables)
  {
    assert Ask(Links, 0);
    EntryViews(m, cr3, flat, tables, page, e);
    FrameMapped(owned, free, flat, tables, page, Decode(e));
  }

  /** The frame that map_page may take for a table holds no table. */
  lemma NextIsUnused(m: Memory, cr3: nat, held: set<int>, s: seq<Run>, flat: map<int, Mapping>, tables: map<int, int>)
    requires FrameListSpec.GoodRuns(s) && Linked(m, cr3, held, Pages(s), flat, tables)
    ensures var t := FrameListSpec.AllocPage(s).1; t != 0 ==> t < FRAMES && Unused(m, cr3, t)
  {
    assert Ask(Links, 0) && Ask(Runs, 0);
    FrameListSpec.AllocPageTakes(s);
    if Pages(s) != {} {
      FreeIsUnused(m, cr3, held, Pages(s), flat, tables, FrameListSpec.AllocPage(s).1);
    }
  }

  /** The tables after map_page on a page in slot `i`, when `t` is the next free frame. */
  ghost function TablesAfter(tables: map<int, int>, i: int, t: int): map<int, int> {
    if i in tables then tables else tables[i := t]
  }

  /** All of map_page, from runs `s` of the frame allocator to runs `r`. */
  lemma MapStep(m: Memory, s: seq<Run>, cr3: nat, page: nat, e: Word, n: Memory, r: seq<Run>, ok: bool,
                owned: set<int>, flat: map<int, Mapping>, tables: map<int, int>, x: Mapping)
    requires FrameListSpec.GoodRuns(s) && Linked(m, cr3, owned - {x.frame}, Pages(s), flat, tables)
    requires InWindow(page) && page !in flat && Present(e) && x == Decode(e) && x.frame in owned
    requires PageTables.MapEffect(m, s, cr3, page, e, n, r, ok)
    ensures ok <==> Slot(page) in tables || Pages(s) != {}
    ensures ok ==>
      var tables' := TablesAfter(tables, Slot(page), FrameListSpec.AllocPage(s).1);
      Linked(n, cr3, owned, Pages(r), flat[page := x], tables') && TableStep(tables, tables', Pages(s), Slot(page)) &&
      Pages(r) <= Pages(s) && |Pages(s)| == |Pages(r)| + TableCost(tables, Slot(page))
    ensures ok ==> r == FrameListSpec.TakeAll(s, TableCost(tables, Slot(page)))
    ensures !ok ==> n == m && r == s == []
  {
    assert Ask(Links, 0) && Ask(Runs, 0) && Ask(Effects, 0);
    var i := Slot(page);
    WindowSlots(page);
    assert At(i);
    FrameListSpec.AllocPageTakes(s);
    if i in tables {
      EnterPage(m, cr3, owned, Pages(s), flat, tables, page, e);
    } else if ok {
      var t := FrameListSpec.AllocPage(s).1;
      EnterTable(m, cr3, owned - {x.frame}, Pages(s), flat, tables, i, t);
      EnterPage(WithTable(m, cr3, i, t), cr3, owned, Pages(r), flat, tables[i := t], page, e);
    }
  }

  /** What get_physaddr finds for a window page. */
  lemma LookUp(m: Memory, cr3: nat, held: set<int>, free: set<int>,
               flat: map<int, Mapping>, tables: map<int, int>, page: nat)
    requires Linked(m, cr3, held, free, flat, tables) && (InWindow(page) || page in flat)
    ensures InWindow(page) && (Present(Entry(m, cr3, page)) <==> page in flat)
    ensures page in flat ==>
      Decode(Entry(m, cr3, page)) == flat[page] && Slot(page) in tables &&
      flat[page].frame in held && flat[page].frame !in free
  {
    assert Ask(Links, 0) && InWindow(page);
    WindowSlots(page);
    assert At(page) && At(Slot(page));
    if page in flat {
      assert flat[page].frame in MappedFrames(flat);
    }
  }

  /** What the hardware makes of an address in a window: the live pages are translated as the
      flat map says, and the others not at all. */
  lemma HardwareAgrees(m: Memory, cr3: nat, held: set<int>, free: set<int>,
                       flat: map<int, Mapping>, tables: map<int, int>, va: Word)
    requires Linked(m, cr3, held, free, flat, tables) && InWindow(va / 4096)
    ensures Walk(m, cr3, va) ==
      if va / 4096 in flat then Some(flat[va / 4096].frame * 4096 + va % 4096) else None
  {
    LookUp(m, cr3, held, free, flat, tables, va / 4096);
    WalkIsEntry(m, cr3, va);
  }

  /** The first 4 MiB stay mapped where pd_init put them. */
  lemma BootKept(m: Memory, cr3: nat, held: set<int>, free: set<int>,
                 flat: map<int, Mapping>, tables: map<int, int>, va: Word)
    requires Linked(m, cr3, held, free, flat, tables) && (Slot(va / 4096) == 0 || Slot(va / 4096) == 768)
    ensures Walk(m, cr3, va) == Some(va % 0x40_0000)
  {
    assert Ask(Links, 0) && At(va / 4096);
    WalkIsEntry(m, cr3, va);
    BootOffset(va);
  }

  lemma BootOffset(va: Word)
    ensures var e := va / 4096 % 1024 * 4096 + 7;
      0 <= e < 0x1_0000_0000 && Present(e) && FrameOf(e) * 4096 + va % 4096 == va % 0x40_0000
  {
  }

  /** The directory says which tables there are. */
  lemma TablePresent(m: Memory, cr3: nat, held: set<int>, free: set<int>,
                     flat: map<int, Mapping>, tables: map<int, int>, i: nat)
    requires Linked(m, cr3, held, free, flat, tables) && WindowSlot(i)
    ensures Present(m[cr3][i]) <==> i in tables
  {
    assert Ask(Links, 0) && At(i);
  }

  /** unmap_page after free_page. */
  lemma LeavePage(m: Memory, cr3: nat, owned: set<int>, free: set<int>,
                  flat: map<int, Mapping>, tables: map<int, int>, page: nat)
    requires Linked(m, cr3, owned, free, flat, tables) && page in flat && InWindow(page)
    ensures Linked(WithEntry(m, cr3, page, 0), cr3, owned, free + {flat[page].frame}, flat - {page}, tables)
  {
    assert Ask(Links, 0);
    LookUp(m, cr3, owned, free, flat, tables, page);
    EntryViews(m, cr3, flat, tables, page, 0);
    FrameUnmapped(owned, free, flat, tables, page);
  }

  // ----- the state and its invariant

  /** `runs` and `cursor` are the frame allocator's list and coalesce_ptr; `free` are its frames. */
  datatype State = State(user: seq<Run>, kernel: seq<Run>, free: set<int>, flat: map<int, Mapping>,
                         tables: map<int, int>, runs: seq<Run>, cursor: nat)
  {
    function Space(isKernel: bool): seq<Run> { if isKernel then kernel else user }
  }

  /** The free list of a window is in normal form and holds exactly the window's pages that
      have no present entry. */
  ghost predicate SpaceInv(space: seq<Run>, isKernel: bool, flat: map<int, Mapping>) {
    && Canonical(space)
    && Within(space, First(isKernel), End(isKernel))
    && forall p :: InSpace(p, isKernel) ==> (p in Pages(space) <==> p !in flat)
  }

  ghost predicate Inv(s: State, owned: set<int>) {
    && SpaceInv(s.user, false, s.flat)
    && SpaceInv(s.kernel, true, s.flat)
    && Partition(owned, s.free, s.flat, s.tables)
    && forall p :: p in s.flat ==> InWindow(p)
  }

  /** No block of a free list reaches the end of the 32-bit address space or the directory's own
      slot, so the address sums in check_upper and free_block are exact. */
  lemma NothingWraps(space: seq<Run>, isKernel: bool, flat: map<int, Mapping>, i: nat)
    requires SpaceInv(space, isKernel, flat) && i < |space|
    ensures 4096 * space[i].End() < 0x1_0000_0000
    ensures forall p :: space[i].addr <= p < space[i].End() ==> WindowSlot(Slot(p))
  {
    forall p | space[i].addr <= p < space[i].End() ensures WindowSlot(Slot(p)) {
      WindowSlots(p);
    }
  }

  // ----- the steps

  /** The directory slots among those of `n` pages from `v` that have no table yet. */
  ghost function Needed(tables: map<int, int>, v: nat, n: nat): set<int> {
    set p | v <= p < v + n && Slot(p) !in tables :: Slot(p)
  }

  lemma NeededNext(tables: map<int, int>, v: nat, n: nat)
    ensures var i := Slot(v + n);
      Needed(tables, v, n + 1) == Needed(tables, v, n) + if i in tables then {} else {i}
  {
  }

  lemma SubsetSize(a: set<int>, b: set<int>)
    requires a <= b
    ensures |a| <= |b|
  {
    assert |b - a| + |a| == |b|;
  }

  lemma NeededGrows(tables: map<int, int>, v: nat, n: nat, k: nat)
    requires n <= k
    ensures |Needed(tables, v, n)| <= |Needed(tables, v, k)|
  {
    SubsetSize(Needed(tables, v, n), Needed(tables, v, k));
  }

  ghost function Range(v: nat, n: nat): set<int> { Span(Run(v, n)) }

  /** The low bits of a window entry: present and writable, and accessible to user code in the
      user window. */
  function Flags(isKernel: bool): nat { if isKernel then 3 else 7 }

  /** The entry that alloc_block gives a page. */
  function PageEntry(phys: nat, isKernel: bool): (e: Word)
    requires phys < FRAMES
    ensures Decode(e) == Mapping(phys, Flags(isKernel)) && Present(e)
  {
    EntryParts(phys, Flags(isKernel));
    phys * 4096 + Flags(isKernel)
  }

  /** `n` pages from `v` have been mapped, each onto a frame that was free; no other entry of a
      window has changed. */
  ghost predicate MappedPages(s: State, flat: map<int, Mapping>, v: nat, n: nat, isKernel: bool) {
    && flat.Keys == s.flat.Keys + Range(v, n)
    && (forall p :: p in s.flat ==> flat[p] == s.flat[p])
    && (forall p :: p in Range(v, n) ==> flat[p].frame in s.free && flat[p].flags == Flags(isKernel))
  }

  /** Tables are never dropped or moved; new ones lie in frames that were free. */
  ghost predicate TablesGrow(s: State, tables: map<int, int>) {
    forall i :: i in s.tables || i in tables ==>
      i in tables && if i in s.tables then tables[i] == s.tables[i] else tables[i] in s.free
  }

  /** The state of the mapping loop: pages mapped, exactly the missing tables made, and the
      frames for both taken off the free list. */
  ghost predicate Mapped(s: State, free: set<int>, flat: map<int, Mapping>, tables: map<int, int>,
                         v: nat, n: nat, isKernel: bool)
  {
    && MappedPages(s, flat, v, n, isKernel)
    && TablesGrow(s, tables) && tables.Keys == s.tables.Keys + Needed(s.tables, v, n)
    && free <= s.free && |s.free| == |free| + Demand(s, v, n)
  }

  ghost predicate MappedSoFar(s: State, free: set<int>, flat: map<int, Mapping>, tables: map<int, int>,
                              v: nat, n: nat, isKernel: bool)
  {
    forall i {:trigger Ask(Progress, i)} :: Ask(Progress, i) ==> Mapped(s, free, flat, tables, v, n, isKernel)
  }

  lemma RangeNext(v: nat, n: nat)
    ensures Range(v, n + 1) == Range(v, n) + {v + n}
  {
    forall p ensures p in Range(v, n + 1) <==> p in Range(v, n) || p == v + n {
      assert Run(v, n + 1).Holds(p) <==> Run(v, n).Holds(p) || p == v + n;
    }
  }

  lemma PagesNext(s: State, flat: map<int, Mapping>, v: nat, n: nat, isKernel: bool, e: Mapping)
    requires MappedPages(s, flat, v, n, isKernel) && v + n !in flat
    requires e.frame in s.free && e.flags == Flags(isKernel)
    ensures MappedPages(s, flat[v + n := e], v, n + 1, isKernel)
  {
    RangeNext(v, n);
  }

  lemma TablesGrowNext(s: State, tables: map<int, int>, tables': map<int, int>, free: set<int>, i: int)
    requires TablesGrow(s, tables) && free <= s.free && TableStep(tables, tables', free, i)
    ensures TablesGrow(s, tables')
  {
  }

  lemma NeededStep(s: State, tables: map<int, int>, tables': map<int, int>, free: set<int>, v: nat, n: nat)
    requires tables.Keys == s.tables.Keys + Needed(s.tables, v, n)
    requires TableStep(tables, tables', free, Slot(v + n))
    ensures tables'.Keys == s.tables.Keys + Needed(s.tables, v, n + 1)
    ensures |Needed(s.tables, v, n + 1)| == |Needed(s.tables, v, n)| + TableCost(tables, Slot(v + n))
  {
    var i := Slot(v + n);
    NeededNext(s.tables, v, n);
    JoinKey(s.tables.Keys, Needed(s.tables, v, n), i);
    assert tables'.Keys == tables.Keys + {i};
  }

  lemma JoinKey(base: set<int>, more: set<int>, i: int)
    ensures var next := more + if i in base then {} else {i};
      base + next == base + more + {i} && |next| == |more| + if i in base + more then 0 else 1
  {
    if i in base {
      assert more + {} == more;
    } else if i in more {
      assert more + {i} == more;
    }
  }

  /** One page mapped onto a free frame, with a new table if it needed one. */
  ghost predicate OneMapped(free: set<int>, flat: map<int, Mapping>, tables: map<int, int>,
                            free': set<int>, flat': map<int, Mapping>, tables': map<int, int>,
                            page: int, isKernel: bool)
  {
    forall i {:trigger Ask(Steps, i)} :: Ask(Steps, i) ==>
      && page !in flat && page in flat' && flat' == flat[page := flat'[page]]
      && flat'[page].frame in free && flat'[page].flags == Flags(isKernel)
      && TableStep(tables, tables', free, Slot(page))
      && free' <= free && |free| == |free'| + 1 + TableCost(tables, Slot(page))
  }

  lemma MakeOneMapped(free: set<int>, flat: map<int, Mapping>, tables: map<int, int>,
                      phys: int, free': set<int>, tables': map<int, int>, page: int, isKernel: bool)
    requires page !in flat && phys in free && phys >= 0
    requires TableStep(tables, tables', free - {phys}, Slot(page))
    requires free' <= free - {phys} && |free - {phys}| == |free'| + TableCost(tables, Slot(page))
    ensures OneMapped(free, flat, tables, free', flat[page := Mapping(phys, Flags(isKernel))], tables', page, isKernel)
  {
    assert |free| == |free - {phys}| + 1;
  }

  /** One more page mapped: the state of the loop in alloc_block moves on by one. */
  lemma MappedNext(s: State, free: set<int>, flat: map<int, Mapping>, tables: map<int, int>,
                   v: nat, n: nat, isKernel: bool,
                   free': set<int>, flat': map<int, Mapping>, tables': map<int, int>)
    requires MappedSoFar(s, free, flat, tables, v, n, isKernel)
    requires OneMapped(free, flat, tables, free', flat', tables', v + n, isKernel)
    ensures MappedSoFar(s, free', flat', tables', v, n + 1, isKernel)
  {
    assert Ask(Progress, 0) && Ask(Steps, 0);
    assert MappedPages(s, flat', v, n + 1, isKernel) by {
      PagesNext(s, flat, v, n, isKernel, flat'[v + n]);
    }
    TablesGrowNext(s, tables, tables', free, Slot(v + n));
    NeededStep(s, tables, tables', free, v, n);
  }

  /** Frames that the pages from `v` on and their missing tables take. */
  ghost function Demand(s: State, v: nat, n: nat): nat {
    n + |Needed(s.tables, v, n)|
  }

  /** Not enough frames for `n` pages. */
  ghost predicate Short(s: State, v: nat, n: nat) {
    forall i {:trigger Ask(Shortage, i)} :: Ask(Shortage, i) ==> |s.free| < Demand(s, v, n)
  }

  /** The next page cannot be mapped: then the pages up to and with it ask for more frames than
      there were. */
  lemma MappedStuck(s: State, free: set<int>, flat: map<int, Mapping>, tables: map<int, int>,
                    v: nat, n: nat, isKernel: bool)
    requires MappedSoFar(s, free, flat, tables, v, n, isKernel)
    ensures |free| < 1 + TableCost(tables, Slot(v + n)) ==> Short(s, v, n + 1)
  {
    assert Ask(Progress, 0);
    var i := Slot(v + n);
    NeededNext(s.tables, v, n);
    JoinKey(s.tables.Keys, Needed(s.tables, v, n), i);
    assert i in tables <==> i in s.tables.Keys + Needed(s.tables, v, n);
  }

  lemma NoFramesTaken(s: State, v: nat)
    ensures FramesTaken(s, s.flat, s.runs, v, 0)
  {
    assert Needed(s.tables, v, 0) == {};
  }

  /** One more page onto the frame at the top of the list. */
  lemma FramesTakenNext(s: State, free: set<int>, flat: map<int, Mapping>, tables: map<int, int>, runs: seq<Run>,
                        v: nat, n: nat, isKernel: bool, flat': map<int, Mapping>, runs': seq<Run>)
    requires MappedSoFar(s, free, flat, tables, v, n, isKernel) && FramesTaken(s, flat, runs, v, n)
    requires v + n in flat' && flat' == flat[v + n := flat'[v + n]]
    requires flat'[v + n].frame == FrameListSpec.AllocPage(runs).1
    requires runs' == FrameListSpec.TakeAll(runs, 1 + TableCost(tables, Slot(v + n)))
    ensures FramesTaken(s, flat', runs', v, n + 1)
  {
    var cost := 1 + TableCost(tables, Slot(v + n));
    assert Demand(s, v, n + 1) == Demand(s, v, n) + cost by {
      assert Ask(Progress, 0);
      DemandNext(s, tables, v, n);
    }
    TakenNext(s, flat, runs, v, n, flat', runs', cost);
  }

  lemma TakenNext(s: State, flat: map<int, Mapping>, runs: seq<Run>, v: nat, n: nat,
                  flat': map<int, Mapping>, runs': seq<Run>, cost: nat)
    requires FramesTaken(s, flat, runs, v, n) && Demand(s, v, n + 1) == Demand(s, v, n) + cost
    requires v + n in flat' && flat' == flat[v + n := flat'[v + n]]
    requires flat'[v + n].frame == FrameListSpec.AllocPage(runs).1 && runs' == FrameListSpec.TakeAll(runs, cost)
    ensures FramesTaken(s, flat', runs', v, n + 1)
  {
    assert Ask(Effects, 0);
    FrameListSpec.TakeMore(s.runs, Demand(s, v, n), cost);
    forall j | 0 <= j < n + 1 ensures FrameTakenAt(s, flat', v, j) {
      assert j < n ==> FrameTakenAt(s, flat, v, j);
    }
  }

  lemma DemandNext(s: State, tables: map<int, int>, v: nat, n: nat)
    requires tables.Keys == s.tables.Keys + Needed(s.tables, v, n)
    ensures Demand(s, v, n + 1) == Demand(s, v, n) + 1 + TableCost(tables, Slot(v + n))
  {
    var i := Slot(v + n);
    NeededNext(s.tables, v, n);
    JoinKey(s.tables.Keys, Needed(s.tables, v, n), i);
    assert i in tables <==> i in s.tables.Keys + Needed(s.tables, v, n);
  }

  lemma MappedNone(s: State, v: nat, isKernel: bool)
    ensures MappedSoFar(s, s.free, s.flat, s.tables, v, 0, isKernel)
  {
    assert Ask(Progress, 0);
  }

  /** Mapping stops before the pages ask for more frames than there were. */
  lemma MappedFew(s: State, free: set<int>, flat: map<int, Mapping>, tables: map<int, int>,
                  v: nat, n: nat, isKernel: bool, limit: nat)
    requires MappedSoFar(s, free, flat, tables, v, n, isKernel) && |s.free| < Demand(s, v, limit)
    ensures n < limit
  {
    assert Ask(Progress, 0);
    if n >= limit {
      NeededGrows(s.tables, v, limit, n);
    }
  }

  lemma NotYetMapped(s: State, free: set<int>, flat: map<int, Mapping>, tables: map<int, int>,
                     v: nat, n: nat, isKernel: bool)
    requires MappedSoFar(s, free, flat, tables, v, n, isKernel) && v + n !in s.flat
    ensures v + n !in flat
  {
    assert Ask(Progress, 0);
    assert v + n !in Range(v, n);
  }

  /** alloc_block has the address space and the frames it needs. */
  ghost predicate Affordable(s: State, isKernel: bool, size: nat) {
    FreeListSpec.CanFit(s.Space(isKernel), size) &&
    Demand(s, FreeListSpec.Target(s.Space(isKernel), size), size) <= |s.free|
  }

  /** A rollback would find room in the frame allocator's array, or there is none to come: it gives
      back at most as many frames as the array is long, since the request is for no more, or since
      so many pages cannot be mapped. */
  ghost predicate RollbackFits(s: State, isKernel: bool, size: nat) {
    size <= FrameListSpec.FREE_ARRAY_SIZE
    || !FreeListSpec.CanFit(s.Space(isKernel), size)
    || Affordable(s, isKernel, size)
    || |s.free| < Demand(s, FreeListSpec.Target(s.Space(isKernel), size), FrameListSpec.FREE_ARRAY_SIZE)
  }

  ghost predicate Allocated(s: State, t: State, isKernel: bool, size: nat, v: nat) {
    && t.Space(!isKernel) == s.Space(!isKernel)
    && Range(v, size) <= Pages(s.Space(isKernel))
    && Pages(t.Space(isKernel)) == Pages(s.Space(isKernel)) - Range(v, size)
    && Mapped(s, t.free, t.flat, t.tables, v, size, isKernel)
    && FramesTaken(s, t.flat, t.runs, v, size) && t.cursor == s.cursor
  }

  /** A failed allocation: the same free blocks, the same translations, and the only frames
      spent are those of page tables. */
  ghost predicate Refused(s: State, t: State, isKernel: bool) {
    && t.Space(!isKernel) == s.Space(!isKernel)
    && multiset(t.Space(isKernel)) == multiset(s.Space(isKernel))
    && t.flat == s.flat
    && TablesGrow(s, t.tables)
    && t.free == s.free - TableFrames(t.tables)
    && t.cursor == s.cursor
  }

  /** The frames of `n` pages and of their tables have come off the top of the allocator's list, for
      each page its own frame before that of its table.  The marker keeps the definition out of
      proofs that do not ask for it. */
  ghost predicate FramesTaken(s: State, flat: map<int, Mapping>, runs: seq<Run>, v: nat, n: nat) {
    forall i {:trigger Ask(Effects, i)} :: Ask(Effects, i) ==>
      && runs == FrameListSpec.TakeAll(s.runs, Demand(s, v, n))
      && forall j :: 0 <= j < n ==> FrameTakenAt(s, flat, v, j)
  }

  /** Page `v + j` has the frame that was on top when its turn came. */
  ghost predicate FrameTakenAt(s: State, flat: map<int, Mapping>, v: nat, j: nat) {
    v + j in flat && flat[v + j].frame == FrameListSpec.AllocPage(FrameListSpec.TakeAll(s.runs, Demand(s, v, j))).1
  }

  /** The frames of `n` pages have been given back in page order, and then the list was coalesced:
      what that means for the list is part of it. */
  ghost predicate FramesReturned(s: State, t: State, v: nat, n: nat) {
    forall i {:trigger Ask(Effects, i)} :: Ask(Effects, i) ==>
      && AllMapped(s.flat, v, n)
      && var back := FrameListSpec.FreeAll(s.runs, FramesOf(s.flat, v, n));
      && (t.runs, t.cursor) == FrameListSpec.Coalesce(back, s.cursor)
      && Coalescing.Tidied(back, s.cursor, t.runs, t.cursor)
  }

  ghost predicate Freed(s: State, t: State, isKernel: bool, v: nat, size: nat) {
    && t.Space(!isKernel) == s.Space(!isKernel)
    && AllMapped(s.flat, v, size)
    && Pages(t.Space(isKernel)) == Pages(s.Space(isKernel)) + Range(v, size)
    && t.flat == s.flat - Range(v, size)
    && t.tables == s.tables
    && t.free == s.free + FrameSet(s.flat, v, size)
    && FramesReturned(s, t, v, size)
  }

  ghost predicate AllMapped(flat: map<int, Mapping>, v: nat, n: nat) {
    forall p :: v <= p < v + n ==> p in flat
  }

  /** The frames behind `n` pages from `v`, in page order. */
  ghost function FramesOf(flat: map<int, Mapping>, v: nat, n: nat): (r: seq<nat>)
    requires AllMapped(flat, v, n)
    ensures |r| == n && forall i :: 0 <= i < n ==> r[i] == flat[v + i].frame
  {
    if n == 0 then [] else FramesOf(flat, v, n - 1) + [flat[v + n - 1].frame]
  }

  /** The same frames as a set. */
  ghost function FrameSet(flat: map<int, Mapping>, v: nat, n: nat): set<int>
    requires AllMapped(flat, v, n)
  {
    set p | v <= p < v + n :: flat[p].frame
  }

  lemma {:induction false} FramesPrefix(flat: map<int, Mapping>, v: nat, n: nat, j: nat)
    requires AllMapped(flat, v, n) && j <= n
    ensures FramesOf(flat, v, n)[..j] == FramesOf(flat, v, j)
    decreases n
  {
    if j < n {
      FramesPrefix(flat, v, n - 1, j);
      assert FramesOf(flat, v, n)[..j] == FramesOf(flat, v, n - 1)[..j];
    }
  }

  /** The frame allocator's array has room for the frames of these pages.  The source does not
      check this. */
  ghost predicate RoomFor(s: seq<Run>, flat: map<int, Mapping>, v: nat, n: nat) {
    AllMapped(flat, v, n) &&
    |FrameListSpec.FreeAll(s, FramesOf(flat, v, n))| <= FrameListSpec.FREE_ARRAY_SIZE
  }

  /** The first `j` pages have been released, starting from `flat` and `s`. */
  ghost predicate Released(flat: map<int, Mapping>, s: seq<Run>, v: nat, j: nat,
                           left: map<int, Mapping>, runs: seq<Run>)
    requires AllMapped(flat, v, j)
  {
    && left == flat - Range(v, j)
    && runs == FrameListSpec.FreeAll(s, FramesOf(flat, v, j))
    && Pages(runs) == Pages(s) + FrameSet(flat, v, j)
  }

  lemma ReleasedNone(flat: map<int, Mapping>, s: seq<Run>, v: nat)
    ensures Released(flat, s, v, 0, flat, s)
  {
    assert Range(v, 0) == {} && FrameSet(flat, v, 0) == {};
    assert flat - {} == flat;
  }

  lemma ReleaseReady(flat: map<int, Mapping>, s: seq<Run>, v: nat, n: nat, j: nat,
                     left: map<int, Mapping>, runs: seq<Run>)
    requires RoomFor(s, flat, v, n) && j < n && Released(flat, s, v, j, left, runs)
    ensures v + j in left && left[v + j] == flat[v + j]
    ensures |FrameListSpec.FreePage(runs, left[v + j].frame)| <= FrameListSpec.FREE_ARRAY_SIZE
  {
    assert v + j !in Range(v, j);
    OneMoreFrame(flat, s, v, j);
    FramesPrefix(flat, v, n, j + 1);
    FrameListSpec.FreeAllPrefix(s, FramesOf(flat, v, n), j + 1);
  }

  lemma OneMoreFrame(flat: map<int, Mapping>, s: seq<Run>, v: nat, j: nat)
    requires AllMapped(flat, v, j + 1)
    ensures FrameListSpec.FreeAll(s, FramesOf(flat, v, j + 1)) ==
      FrameListSpec.FreePage(FrameListSpec.FreeAll(s, FramesOf(flat, v, j)), flat[v + j].frame)
  {
    var frames := FramesOf(flat, v, j + 1);
    assert frames[..|frames| - 1] == FramesOf(flat, v, j) && frames[j] == flat[v + j].frame;
  }

  lemma LeftNext(flat: map<int, Mapping>, v: nat, j: nat)
    ensures flat - Range(v, j) - {v + j} == flat - Range(v, j + 1)
  {
    RangeNext(v, j);
  }

  lemma ReleaseNext(flat: map<int, Mapping>, s: seq<Run>, v: nat, j: nat,
                    left: map<int, Mapping>, runs: seq<Run>, runs': seq<Run>)
    requires AllMapped(flat, v, j + 1) && Released(flat, s, v, j, left, runs)
    requires runs' == FrameListSpec.FreePage(runs, flat[v + j].frame)
    requires Pages(runs') == Pages(runs) + {flat[v + j].frame}
    ensures Released(flat, s, v, j + 1, left - {v + j}, runs')
  {
    assert left - {v + j} == flat - Range(v, j + 1) by { LeftNext(flat, v, j); }
    assert FrameSet(flat, v, j + 1) == FrameSet(flat, v, j) + {flat[v + j].frame};
    OneMoreFrame(flat, s, v, j);
  }

  // ----- whole operations

  /** The invariant behind a marker, for proofs that only carry it along. */
  ghost predicate Sealed(s: State, owned: set<int>) {
    forall i {:trigger Ask(Invariant, i)} :: Ask(Invariant, i) ==> Inv(s, owned)
  }

  /** alloc_block does not overwrite a translation: the pages it takes are in the window and
      have none. */
  lemma AllocReady(s: State, owned: set<int>, isKernel: bool, size: nat)
    requires Sealed(s, owned)
    ensures var space := s.Space(isKernel);
      (forall i :: 0 <= i < |space| ==> space[i].addr > 0) &&
      (FreeListSpec.CanFit(space, size) ==>
         var v := FreeListSpec.Target(space, size);
         v > 0 && forall p :: v <= p < v + size ==> InWindow(p) && p !in s.flat)
  {
    assert Ask(Invariant, 0);
    var space := s.Space(isKernel);
    if FreeListSpec.CanFit(space, size) {
      var v := FreeListSpec.Target(space, size);
      FreeListSpec.CommitCorrect(space, size);
      WithinPages(space, First(isKernel), End(isKernel));
      assert FreeListSpec.Source(space, size) in space;
      forall p | v <= p < v + size ensures InWindow(p) && p !in s.flat {
        assert Run(v, size).Holds(p);
        assert p in Range(v, size) && p in Pages(space) && InSpace(p, isKernel);
      }
    }
  }

  lemma SpaceAfterAlloc(space: seq<Run>, t: seq<Run>, isKernel: bool, flat: map<int, Mapping>,
                        flat': map<int, Mapping>, v: nat, size: nat)
    requires SpaceInv(space, isKernel, flat) && Canonical(t)
    requires Range(v, size) <= Pages(space) && Pages(t) == Pages(space) - Range(v, size)
    requires flat'.Keys == flat.Keys + Range(v, size)
    ensures SpaceInv(t, isKernel, flat')
  {
    WithinPages(space, First(isKernel), End(isKernel));
    WithinPages(t, First(isKernel), End(isKernel));
  }

  /** The other window does not see an allocation. */
  lemma OtherSpace(space: seq<Run>, isKernel: bool, flat: map<int, Mapping>, flat': map<int, Mapping>)
    requires SpaceInv(space, isKernel, flat)
    requires forall p :: InSpace(p, isKernel) ==> (p in flat' <==> p in flat)
    ensures SpaceInv(space, isKernel, flat')
  {
  }

  lemma AllocDone(s: State, t: State, owned: set<int>, m: Memory, cr3: nat, isKernel: bool, size: nat)
    requires Sealed(s, owned) && Linked(m, cr3, owned, t.free, t.flat, t.tables)
    requires FreeListSpec.CanFit(s.Space(isKernel), size)
    requires var (r, k) := FreeListSpec.Reserve(s.Space(isKernel), size);
      t.Space(isKernel) == FreeListSpec.Commit(r, k) && t.Space(!isKernel) == s.Space(!isKernel)
    requires MappedSoFar(s, t.free, t.flat, t.tables, FreeListSpec.Target(s.Space(isKernel), size), size, isKernel)
    requires FramesTaken(s, t.flat, t.runs, FreeListSpec.Target(s.Space(isKernel), size), size)
    requires t.cursor == s.cursor
    ensures Sealed(t, owned)
    ensures Allocated(s, t, isKernel, size, FreeListSpec.Target(s.Space(isKernel), size))
    ensures Affordable(s, isKernel, size)
  {
    assert Ask(Invariant, 0) && Ask(Links, 0) && Ask(Progress, 0);
    var space, v := s.Space(isKernel), FreeListSpec.Target(s.Space(isKernel), size);
    FreeListSpec.CommitCorrect(space, size);
    WithinPages(space, First(isKernel), End(isKernel));
    SpaceAfterAlloc(space, t.Space(isKernel), isKernel, s.flat, t.flat, v, size);
    OtherSpace(s.Space(!isKernel), !isKernel, s.flat, t.flat);
    forall p | p in t.flat ensures InWindow(p) {
      assert p in s.flat || InSpace(p, isKernel);
    }
  }

  /** Frames after a failed allocation, by counting uses. */
  lemma FramesLeft(s: State, owned: set<int>, free: set<int>, tables: map<int, int>)
    requires Partition(owned, s.free, s.flat, s.tables) && Partition(owned, free, s.flat, tables)
    requires TablesGrow(s, tables)
    ensures free == s.free - TableFrames(tables)
  {
    forall i | i in s.tables ensures s.tables[i] in TableFrames(tables) {
      assert tables[i] == s.tables[i];
    }
    forall f ensures f in free <==> f in s.free && f !in TableFrames(tables) {
      assert f in owned <==> f in s.free || f in MappedFrames(s.flat) || f in TableFrames(s.tables);
      assert f in owned <==> f in free || f in MappedFrames(s.flat) || f in TableFrames(tables);
    }
  }

  lemma AllocUndone(s: State, t: State, owned: set<int>, m: Memory, cr3: nat, isKernel: bool, size: nat)
    requires Sealed(s, owned) && Linked(m, cr3, owned, t.free, t.flat, t.tables)
    requires FreeListSpec.CanFit(s.Space(isKernel), size)
    requires var (r, k) := FreeListSpec.Reserve(s.Space(isKernel), size);
      t.Space(isKernel) == FreeListSpec.Rollback(r, k, size) && t.Space(!isKernel) == s.Space(!isKernel)
    requires t.flat == s.flat && TablesGrow(s, t.tables) && t.cursor == s.cursor
    ensures Sealed(t, owned) && Refused(s, t, isKernel)
  {
    assert Ask(Invariant, 0) && Ask(Links, 0);
    var space := s.Space(isKernel);
    FreeListSpec.RollbackRestores(space, size);
    WithinPages(space, First(isKernel), End(isKernel));
    WithinPages(t.Space(isKernel), First(isKernel), End(isKernel));
    FramesLeft(s, owned, t.free, t.tables);
  }

  lemma Unaffordable(s: State, isKernel: bool, size: nat, n: nat)
    requires FreeListSpec.CanFit(s.Space(isKernel), size) && n < size
    requires Short(s, FreeListSpec.Target(s.Space(isKernel), size), n + 1)
    ensures !Affordable(s, isKernel, size)
  {
    assert Ask(Shortage, 0);
    NeededGrows(s.tables, FreeListSpec.Target(s.Space(isKernel), size), n + 1, size);
  }

  /** Too large for every free block: nothing happens at all. */
  lemma RefusedAtOnce(s: State, owned: set<int>, isKernel: bool)
    requires Sealed(s, owned)
    ensures Refused(s, s, isKernel)
  {
    assert Ask(Invariant, 0);
    FramesLeft(s, owned, s.free, s.tables);
  }

  /** The entries of pages are words of their frames and these low bits. */
  ghost predicate Worded(m: Memory, cr3: nat, flat: map<int, Mapping>, v: nat, n: nat, low: nat)
    requires cr3 < FRAMES && WellFormed(m)
  {
    forall p :: v <= p < v + n ==> p in flat && p < FRAMES && Entry(m, cr3, p) == flat[p].frame * 4096 + low
  }

  /** The entries that alloc_block has made: present and writable, and for the user window also
      accessible to user code. */
  lemma AllocWords(s: State, t: State, m: Memory, cr3: nat, owned: set<int>, isKernel: bool, size: nat, v: nat)
    requires Linked(m, cr3, owned, t.free, t.flat, t.tables) && Allocated(s, t, isKernel, size, v)
    ensures Worded(m, cr3, t.flat, v, size, if isKernel then 3 else 7)
  {
    forall p | v <= p < v + size
      ensures p in t.flat && p < FRAMES
      ensures Entry(m, cr3, p) == t.flat[p].frame * 4096 + if isKernel then 3 else 7
    {
      assert Run(v, size).Holds(p);
      assert p in Range(v, size);
      LookUp(m, cr3, owned, t.free, t.flat, t.tables, p);
      WindowSlots(p);
      PageParts(Entry(m, cr3, p));
    }
  }

  /** alloc_block takes the top pages of a smallest sufficient block. */
  lemma AllocFromTop(s: State, owned: set<int>, isKernel: bool, size: nat)
    requires Sealed(s, owned) && FreeListSpec.CanFit(s.Space(isKernel), size)
    ensures var space := s.Space(isKernel);
      FreeListSpec.TopOfSmallest(space, FreeListSpec.Target(space, size), size)
  {
    assert Ask(Invariant, 0);
    FreeListSpec.TargetIsTop(s.Space(isKernel), size);
  }

  /** After `n` of the pages, the rollback of alloc_block has its frames at hand and room for
      them. */
  lemma RollbackReady(s: State, free: set<int>, flat: map<int, Mapping>, tables: map<int, int>,
                      v: nat, n: nat, isKernel: bool, runs: seq<Run>)
    requires MappedSoFar(s, free, flat, tables, v, n, isKernel)
    requires (forall p :: v <= p < v + n ==> p !in s.flat)
    requires |runs| <= 1 && n < FrameListSpec.FREE_ARRAY_SIZE
    ensures RoomFor(runs, flat, v, n) && flat - Range(v, n) == s.flat && TablesGrow(s, tables)
  {
    assert MappedPages(s, flat, v, n, isKernel) && TablesGrow(s, tables) by {
      assert Ask(Progress, 0);
    }
    forall p ensures p in Range(v, n) <==> v <= p < v + n {
      assert Run(v, n).Holds(p) <==> v <= p < v + n;
    }
    assert flat - Range(v, n) == s.flat;
    assert AllMapped(flat, v, n);
    FitsOne(runs, FramesOf(flat, v, n));
  }

  lemma FitsOne(runs: seq<Run>, frames: seq<nat>)
    requires |runs| <= 1 && |frames| < FrameListSpec.FREE_ARRAY_SIZE
    ensures |FrameListSpec.FreeAll(runs, frames)| <= FrameListSpec.FREE_ARRAY_SIZE
  {
  }

  /** Mapped pages of a window lie outside its free blocks. */
  lemma MappedIsNotFree(s: State, owned: set<int>, isKernel: bool, v: nat, size: nat)
    requires Sealed(s, owned) && AllMapped(s.flat, v, size) && size > 0
    requires First(isKernel) <= v && v + size <= End(isKernel)
    ensures Canonical(s.Space(isKernel)) && DisjointFrom(Run(v, size), s.Space(isKernel))
  {
    assert Ask(Invariant, 0);
    DisjointPages(Run(v, size), s.Space(isKernel));
    forall p | p in Range(v, size) ensures p !in Pages(s.Space(isKernel)) {
      assert InSpace(p, isKernel) && p in s.flat;
    }
  }

  lemma SpaceAfterFree(space: seq<Run>, t: seq<Run>, isKernel: bool, flat: map<int, Mapping>, v: nat, size: nat)
    requires SpaceInv(space, isKernel, flat) && Canonical(t)
    requires First(isKernel) <= v && v + size <= End(isKernel)
    requires Pages(t) == Pages(space) + Range(v, size)
    ensures SpaceInv(t, isKernel, flat - Range(v, size))
  {
    WithinPages(space, First(isKernel), End(isKernel));
    forall p | p in Pages(t) ensures InSpace(p, isKernel) {
      assert p in Pages(space) || p in Range(v, size);
    }
    WithinPages(t, First(isKernel), End(isKernel));
  }

  /** The list update of free_block, as a condition on the state before. */
  ghost predicate Accepts(space: seq<Run>, v: nat, size: nat, capacity: nat) {
    |space| < capacity || exists i :: 0 <= i < |space| && Adjacent(space[i], Run(v, size))
  }

  lemma FreeDone(s: State, t: State, owned: set<int>, m: Memory, cr3: nat,
                 isKernel: bool, v: nat, size: nat, capacity: nat)
    requires Sealed(s, owned) && Linked(m, cr3, owned, t.free, t.flat, t.tables)
    requires AllMapped(s.flat, v, size) && size > 0
    requires First(isKernel) <= v && v + size <= End(isKernel)
    requires |s.Space(isKernel)| <= capacity
    requires FreeListSpec.Release(s.Space(isKernel), Run(v, size), capacity) == (t.Space(isKernel), true)
    requires t.Space(!isKernel) == s.Space(!isKernel) && t.tables == s.tables
    requires t.flat == s.flat - Range(v, size) && t.free == s.free + FrameSet(s.flat, v, size)
    requires FramesReturned(s, t, v, size)
    ensures Sealed(t, owned) && Freed(s, t, isKernel, v, size)
  {
    assert Ask(Invariant, 0) && Ask(Links, 0);
    MappedIsNotFree(s, owned, isKernel, v, size);
    FreeListSpec.ReleaseCorrect(s.Space(isKernel), Run(v, size), capacity);
    SpaceAfterFree(s.Space(isKernel), t.Space(isKernel), isKernel, s.flat, v, size);
    forall p | InSpace(p, !isKernel) ensures p !in Range(v, size) {
    }
    OtherSpace(s.Space(!isKernel), !isKernel, s.flat, t.flat);
  }

  // ----- the state after boot

  lemma InitialSpace(isKernel: bool, flat: map<int, Mapping>)
    requires flat == map[]
    ensures SpaceInv([Run(First(isKernel), End(isKernel) - First(isKernel))], isKernel, flat)
  {
    var s := [Run(First(isKernel), End(isKernel) - First(isKernel))];
    forall p ensures p in Pages(s) <==> InSpace(p, isKernel) {
      assert s[0].Holds(p) <==> InSpace(p, isKernel);
    }
  }

  lemma InitialPartition(free: set<int>)
    ensures Partition(free, free, map[], map[])
  {
  }

  /** The boot tables leave both windows unmapped. */
  lemma InitialViews(m: Memory, cr3: nat)
    requires Sound(m, cr3) && Booted(m, cr3)
    requires forall i :: 0 < i < 1023 && i != 768 ==> m[cr3][i] == 0
    ensures Views(m, cr3, map[], map[])
  {
    forall p: nat | At(p) && InWindow(p) ensures !Present(Entry(m, cr3, p)) {
      WindowSlots(p);
      assert m[cr3][Slot(p)] == 0;
    }
  }
}
