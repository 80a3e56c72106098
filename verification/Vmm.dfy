/** The virtual memory manager (kernel/arch/i386/vmm.c): two free lists of pages, backed by the
    frame allocator and the page tables. */
module Vmm {
  import opened Extents
  import opened Machine
  import opened Markers
  import opened Paging
  import opened VmmSpec
  import FreeList
  import FreeListSpec
  import Frames
  import FrameListSpec
  import Coalescing
  import MemoryMap
  import PageTables

  /** The arguments that alloc_block passes to map_page. */
  lemma PageAddress(page: nat, phys: nat, isKernel: bool)
    requires InWindow(page) && phys < FRAMES
    ensures page * 4096 < 0x1_0000_0000 && page * 4096 / 4096 == page
    ensures PageTables.MakeEntry(phys * 4096, if isKernel then 2 else 6) == PageEntry(phys, isKernel)
  {
  }

  lemma NoFrame(s: seq<Run>)
    requires FrameListSpec.GoodRuns(s) && FrameListSpec.AllocPage(s).1 == 0
    ensures s == []
  {
    assert Ask(Runs, 0);
  }

  /** The list of which one frame was all there was. */
  lemma OnlyFrame(s: seq<Run>)
    requires FrameListSpec.GoodRuns(s) && s != [] && FrameListSpec.AllocPage(s).0 == []
    ensures s == [Run(FrameListSpec.AllocPage(s).1, 1)]
  {
    assert Ask(Runs, 0);
    assert s == [s[0]];
  }

  lemma CoalesceReady(s: seq<Run>, c: nat)
    requires FrameListSpec.GoodRuns(s)
    ensures var r := FrameListSpec.Coalesce(s, c); Coalescing.Tidied(s, c, r.0, r.1)
  {
    assert Ask(Runs, 0);
    Coalescing.CoalesceTidies(s, c);
  }

  /** When the list update of free_block succeeds; if not, it changes nothing. */
  lemma ListAccepts(s: State, owned: set<int>, isKernel: bool, v: nat, size: nat)
    requires Sealed(s, owned) && AllMapped(s.flat, v, size) && size > 0
    requires First(isKernel) <= v && v + size <= End(isKernel) && |s.Space(isKernel)| <= 512
    ensures var (r, ok) := FreeListSpec.Release(s.Space(isKernel), Run(v, size), 512);
      (ok <==> Accepts(s.Space(isKernel), v, size, 512)) && (!ok ==> r == s.Space(isKernel))
  {
    MappedIsNotFree(s, owned, isKernel, v, size);
    FreeListSpec.ReleaseCorrect(s.Space(isKernel), Run(v, size), 512);
  }

  class Manager {
    const user: FreeList.Space
    const kernel: FreeList.Space
    const pmm: Frames.Pmm
    const mmu: PageTables.AddressSpace
    /** The frames that the frame allocator started with. */
    ghost const owned: set<int>

    /** The present entries of window pages. */
    ghost var flat: map<int, Mapping>
    /** The frames of the page tables made by map_page. */
    ghost var tables: map<int, int>

    /** Frame allocator and page tables are consistent, when `held` are the frames they share. */
    ghost predicate Backed(held: set<int>)
      reads this`flat, this`tables, pmm`len, pmm.blocks, mmu
    {
      && pmm.Valid() && mmu.Valid()
      && held <= owned && (forall f :: f in owned ==> 1024 <= f < FRAMES)
      && Linked(mmu.mem, mmu.cr3, held, pmm.Free(), flat, tables)
    }

    ghost function Snapshot(): State
      requires user.Valid() && kernel.Valid() && pmm.Shaped()
      reads this`flat, this`tables, user, user.blocks, kernel, kernel.blocks, pmm`len, pmm`coalescePtr, pmm.blocks
    {
      State(user.List(), kernel.List(), pmm.Free(), flat, tables, pmm.List(), pmm.coalescePtr)
    }

    /** The arrays of the three lists are different ones. */
    ghost predicate Separate() {
      && user != kernel && user.blocks != kernel.blocks
      && pmm.blocks != user.blocks && pmm.blocks != kernel.blocks
    }

    ghost predicate Valid()
      reads this`flat, this`tables, user, user.blocks, kernel, kernel.blocks
      reads pmm`len, pmm`coalescePtr, pmm.blocks, mmu
    {
      && Separate() && user.Valid() && kernel.Valid() && Backed(owned)
      && Sealed(Snapshot(), owned)
    }

    /** pd_init, pmm_init and vmm_init: both windows are wholly free and unmapped. */
    constructor (mmap: seq<MemoryMap.MapEntry>, memory: Memory, directory: nat, table0: nat, table768: nat)
      requires |MemoryMap.MapRuns(mmap)| <= FrameListSpec.FREE_ARRAY_SIZE && MemoryMap.OnceOnly(mmap)
      requires WellFormed(memory) && directory < 1024 && table0 < 1024 && table768 < 1024
      requires directory != table0 && directory != table768 && table0 != table768
      requires memory[directory] == EmptyTable()
      ensures Valid() && owned == pmm.Free() && flat == map[] && tables == map[]
      ensures user.List() == [Run(0x400, 785408)] && kernel.List() == [Run(0xC_0400, 260096)]
    {
      mmu := new PageTables.AddressSpace(memory, directory, table0, table768);
      var frames := new Frames.Pmm(mmap);
      pmm := frames;
      owned := frames.Free();
      user := new FreeList.Space(0x400, 785408);
      kernel := new FreeList.Space(0xC_0400, 260096);
      flat, tables := map[], map[];
      new;
      InitialViews(mmu.mem, mmu.cr3);
      InitialPartition(pmm.Free());
      InitialSpace(false, flat);
      InitialSpace(true, flat);
      assert Ask(Runs, 0);
      forall f | f in owned ensures 1024 <= f < FRAMES {
        WithinPages(pmm.List(), FrameListSpec.FIRST_FRAME, FRAMES);
      }
    }

    /** map_page on a window page without an entry, for a frame that was just taken off the free
        list.  Fails only when a table is missing and no frame is free. */
    method MapFrame(page: nat, phys: nat, isKernel: bool, ghost x: Mapping) returns (ok: bool)
      requires phys in owned && Backed(owned - {phys})
      requires InWindow(page) && page !in flat && x == Mapping(phys, Flags(isKernel))
      modifies this`flat, this`tables, pmm`len, pmm.blocks, mmu`mem
      ensures ok <==> Slot(page) in old(tables) || old(pmm.Free()) != {}
      ensures ok ==>
        Backed(owned) && pmm.Free() <= old(pmm.Free())
      ensures flat == if ok then old(flat)[page := x] else old(flat)
      ensures ok ==>
        TableStep(old(tables), tables, old(pmm.Free()), Slot(page)) &&
        |old(pmm.Free())| == |pmm.Free()| + TableCost(old(tables), Slot(page)) &&
        pmm.List() == FrameListSpec.TakeAll(old(pmm.List()), TableCost(old(tables), Slot(page)))
      ensures !ok ==>
        Backed(owned - {phys}) && pmm.List() == old(pmm.List()) == [] && pmm.Free() == old(pmm.Free()) &&
        tables == old(tables)
    {
      ghost var m, s, cr3, e := mmu.mem, pmm.List(), mmu.cr3, PageEntry(phys, isKernel);
      NextIsUnused(m, cr3, owned - {phys}, s, flat, tables);
      PageAddress(page, phys, isKernel);
      ok := mmu.MapPage(phys * 4096, page * 4096, if isKernel then 2 else 6, pmm);
      MapStep(m, s, cr3, page, e, mmu.mem, pmm.List(), ok, owned, flat, tables, x);
      flat := if ok then flat[page := x] else flat;
      tables := if ok then TablesAfter(tables, Slot(page), FrameListSpec.AllocPage(s).1) else tables;
    }

    /** alloc_page: a frame leaves the free list and has no use yet. */
    method TakeFrame() returns (phys: nat)
      requires Backed(owned)
      modifies pmm`len, pmm.blocks
      ensures phys == 0 ==>
        Backed(owned) && old(pmm.Free()) == pmm.Free() == {} && pmm.List() == old(pmm.List()) == []
      ensures phys != 0 ==>
        phys in old(pmm.Free()) && phys in owned && Backed(owned - {phys}) &&
        (pmm.List(), phys) == FrameListSpec.AllocPage(old(pmm.List())) &&
        pmm.Free() == old(pmm.Free()) - {phys} && |old(pmm.Free())| == |pmm.Free()| + 1
    {
      phys := pmm.AllocPage();
      if phys == 0 {
        NoFrame(old(pmm.List()));
      } else {
        TakeLinked(mmu.mem, mmu.cr3, owned, old(pmm.Free()), flat, tables, phys);
      }
    }

    /** free_page on a frame that came from TakeFrame, when the free list is empty. */
    method GiveFrame(phys: nat)
      requires phys in owned && Backed(owned - {phys}) && pmm.len == 0 && phys !in pmm.Free()
      modifies pmm`len, pmm.blocks
      ensures Backed(owned) && pmm.Free() == old(pmm.Free()) + {phys} && pmm.List() == [Run(phys, 1)]
    {
      pmm.FreePage(phys);
      GiveLinked(mmu.mem, mmu.cr3, owned, pmm.Free(), flat, tables, phys);
    }

    /** The body of the mapping loop of alloc_block: a frame for one page.  When there is no
        frame for the page or for its table, nothing changes. */
    method MapOne(page: nat, isKernel: bool) returns (ok: bool)
      requires Backed(owned) && InWindow(page) && page !in flat
      modifies this`flat, this`tables, pmm`len, pmm.blocks, mmu`mem
      ensures Backed(owned)
      ensures ok <==> |old(pmm.Free())| >= 1 + TableCost(old(tables), Slot(page))
      ensures ok ==>
        OneMapped(old(pmm.Free()), old(flat), old(tables), pmm.Free(), flat, tables, page, isKernel) &&
        page in flat && flat == old(flat)[page := flat[page]] &&
        flat[page].frame == FrameListSpec.AllocPage(old(pmm.List())).1 &&
        pmm.List() == FrameListSpec.TakeAll(old(pmm.List()), 1 + TableCost(old(tables), Slot(page)))
      ensures !ok ==>
        pmm.len <= 1 && pmm.Free() == old(pmm.Free()) && pmm.List() == old(pmm.List()) &&
        flat == old(flat) && tables == old(tables)
    {
      var phys := TakeFrame();
      if phys == 0 {
        return false;
      }
      ok := MapFrame(page, phys, isKernel, Mapping(phys, Flags(isKernel)));
      if ok {
        MakeOneMapped(old(pmm.Free()), old(flat), old(tables), phys, pmm.Free(), tables, page, isKernel);
        FrameListSpec.TakeMore(old(pmm.List()), 1, TableCost(old(tables), Slot(page)));
      } else {
        OnlyFrame(old(pmm.List()));
        GiveFrame(phys);
      }
    }

    /** The body of the releasing loops of alloc_block and free_block: the frame of one page. */
    method FreeOne(page: nat)
      requires Backed(owned) && page in flat
      requires |FrameListSpec.FreePage(pmm.List(), flat[page].frame)| <= FrameListSpec.FREE_ARRAY_SIZE
      modifies this`flat, pmm`len, pmm.blocks, mmu`mem
      ensures Backed(owned) && flat == old(flat) - {page}
      ensures pmm.List() == old(FrameListSpec.FreePage(pmm.List(), flat[page].frame))
      ensures pmm.Free() == old(pmm.Free()) + {old(flat[page].frame)}
    {
      ghost var m, cr3, free := mmu.mem, mmu.cr3, pmm.Free();
      LookUp(m, cr3, owned, free, flat, tables, page);
      PageAddress(page, 0, false);
      LeavePage(m, cr3, owned, free, flat, tables, page);
      var pa := mmu.GetPhysaddr(page * 4096);
      pmm.FreePage(pa / 4096);
      mmu.UnmapPage(page * 4096);
      flat := flat - {page};
    }

    /** One round of a releasing loop, after `j` of `n` rounds. */
    method ReleaseNextPage(v: nat, ghost n: nat, j: nat, ghost flat0: map<int, Mapping>, ghost s: seq<Run>)
      requires Backed(owned) && RoomFor(s, flat0, v, n) && j < n
      requires Released(flat0, s, v, j, flat, pmm.List())
      modifies this`flat, pmm`len, pmm.blocks, mmu`mem
      ensures Backed(owned) && Released(flat0, s, v, j + 1, flat, pmm.List())
    {
      ghost var left, runs := flat, pmm.List();
      ReleaseReady(flat0, s, v, n, j, left, runs);
      FreeOne(v + j);
      ReleaseNext(flat0, s, v, j, left, runs, pmm.List());
    }

    /** The releasing loops: the frames and entries of `n` pages. */
    method ReleasePages(v: nat, n: nat)
      requires Backed(owned) && RoomFor(pmm.List(), flat, v, n)
      modifies this`flat, pmm`len, pmm.blocks, mmu`mem
      ensures Backed(owned) && flat == old(flat) - Range(v, n)
      ensures pmm.Free() == old(pmm.Free()) + FrameSet(old(flat), v, n)
      ensures pmm.List() == old(FrameListSpec.FreeAll(pmm.List(), FramesOf(flat, v, n)))
    {
      ghost var s, flat0 := pmm.List(), flat;
      ReleasedNone(flat0, s, v);
      var j := 0;
      while j < n
        invariant j <= n && Backed(owned) && Released(flat0, s, v, j, flat, pmm.List())
      {
        ReleaseNextPage(v, n, j, flat0, s);
        j := j + 1;
      }
    }

    /** One round of the mapping loop, after `n` rounds that started from state `s`. */
    method MapNext(v: nat, n: nat, isKernel: bool, ghost s: State) returns (ok: bool)
      requires Backed(owned) && MappedSoFar(s, pmm.Free(), flat, tables, v, n, isKernel)
      requires FramesTaken(s, flat, pmm.List(), v, n)
      requires InWindow(v + n) && v + n !in s.flat
      modifies this`flat, this`tables, pmm`len, pmm.blocks, mmu`mem
      ensures Backed(owned)
      ensures MappedSoFar(s, pmm.Free(), flat, tables, v, if ok then n + 1 else n, isKernel)
      ensures FramesTaken(s, flat, pmm.List(), v, if ok then n + 1 else n)
      ensures !ok ==> pmm.len <= 1 && Short(s, v, n + 1)
    {
      ghost var free, flat0, tables0, runs := pmm.Free(), flat, tables, pmm.List();
      NotYetMapped(s, free, flat, tables, v, n, isKernel);
      MappedStuck(s, free, flat, tables, v, n, isKernel);
      ok := MapOne(v + n, isKernel);
      if ok {
        MappedNext(s, free, flat0, tables0, v, n, isKernel, pmm.Free(), flat, tables);
        FramesTakenNext(s, free, flat0, tables0, runs, v, n, isKernel, flat, pmm.List());
      }
    }

    /** The mapping loop of alloc_block; `n` is the number of pages mapped before frames ran
        out, or `size`. */
    method MapPages(v: nat, size: nat, isKernel: bool, ghost s: State) returns (n: nat)
      requires Backed(owned) && s.free == pmm.Free() && s.flat == flat && s.tables == tables
      requires s.runs == pmm.List()
      requires forall p :: v <= p < v + size ==> InWindow(p) && p !in flat
      modifies this`flat, this`tables, pmm`len, pmm.blocks, mmu`mem
      ensures Backed(owned) && n <= size && MappedSoFar(s, pmm.Free(), flat, tables, v, n, isKernel)
      ensures FramesTaken(s, flat, pmm.List(), v, n)
      ensures n < size ==> pmm.len <= 1 && Short(s, v, n + 1)
    {
      n := 0;
      MappedNone(s, v, isKernel);
      NoFramesTaken(s, v);
      while n < size
        invariant n <= size && Backed(owned) && MappedSoFar(s, pmm.Free(), flat, tables, v, n, isKernel)
        invariant FramesTaken(s, flat, pmm.List(), v, n)
      {
        var ok := MapNext(v, n, isKernel, s);
        if !ok {
          return;
        }
        n := n + 1;
      }
    }

    /** Between the scan of alloc_block and its exits: `block` is the shrunk block in the list of
        the window, and the other window's list is as it was in state `s`. */
    ghost predicate Reserved(s: State, isKernel: bool, size: nat, block: nat)
      reads user, user.blocks, kernel, kernel.blocks
    {
      && Separate() && user.Valid() && kernel.Valid()
      && FreeListSpec.CanFit(s.Space(isKernel), size)
      && (if isKernel then kernel else user).List() == FreeListSpec.Reserve(s.Space(isKernel), size).0
      && block == FreeListSpec.Reserve(s.Space(isKernel), size).1
      && (if isKernel then user else kernel).List() == s.Space(!isKernel)
    }

    /** The scan of alloc_block. */
    method ReserveBlock(size: nat, isKernel: bool) returns (page: nat, block: nat)
      requires Valid()
      modifies user.blocks, kernel.blocks
      ensures page != 0 <==> old(FreeListSpec.CanFit(Snapshot().Space(isKernel), size))
      ensures page != 0 ==>
        page == old(FreeListSpec.Target(Snapshot().Space(isKernel), size)) &&
        Reserved(old(Snapshot()), isKernel, size, block) && Backed(owned)
      ensures page == 0 ==> Valid() && Snapshot() == old(Snapshot())
    {
      AllocReady(Snapshot(), owned, isKernel, size);
      var space := if isKernel then kernel else user;
      page, block := space.Reserve(size);
    }

    /** The failure exit of alloc_block, after `n` pages were mapped. */
    method UndoAlloc(page: nat, n: nat, block: nat, size: nat, isKernel: bool, ghost s: State)
      requires Sealed(s, owned) && Reserved(s, isKernel, size, block) && Backed(owned)
      requires page == FreeListSpec.Target(s.Space(isKernel), size) && pmm.len <= 1
      requires n < size && n < FrameListSpec.FREE_ARRAY_SIZE
      requires MappedSoFar(s, pmm.Free(), flat, tables, page, n, isKernel) && s.cursor == pmm.coalescePtr
      modifies this`flat, pmm`len, pmm.blocks, mmu`mem
      modifies user`len, user.blocks, kernel`len, kernel.blocks
      ensures Valid() && Refused(s, Snapshot(), isKernel)
    {
      AllocReady(s, owned, isKernel, size);
      RollbackReady(s, pmm.Free(), flat, tables, page, n, isKernel, pmm.List());
      var space := if isKernel then kernel else user;
      space.Rollback(block, size);
      ReleasePages(page, n);
      AllocUndone(s, Snapshot(), owned, mmu.mem, mmu.cr3, isKernel, size);
    }

    /** The success exit of alloc_block. */
    method FinishAlloc(page: nat, block: nat, size: nat, isKernel: bool, ghost s: State)
      requires Sealed(s, owned) && Reserved(s, isKernel, size, block) && Backed(owned)
      requires page == FreeListSpec.Target(s.Space(isKernel), size)
      requires MappedSoFar(s, pmm.Free(), flat, tables, page, size, isKernel)
      requires FramesTaken(s, flat, pmm.List(), page, size) && s.cursor == pmm.coalescePtr
      modifies user`len, kernel`len
      ensures Valid() && Allocated(s, Snapshot(), isKernel, size, page) && Affordable(s, isKernel, size)
    {
      var space := if isKernel then kernel else user;
      space.Commit(block);
      AllocDone(s, Snapshot(), owned, mmu.mem, mmu.cr3, isKernel, size);
    }

    /** alloc_block from its mapping loop on. */
    method MapReserved(page: nat, block: nat, size: nat, isKernel: bool, ghost s: State) returns (ok: bool)
      requires Sealed(s, owned) && Reserved(s, isKernel, size, block) && Backed(owned)
      requires s.flat == flat && s.tables == tables && s.free == pmm.Free()
      requires s.runs == pmm.List() && s.cursor == pmm.coalescePtr
      requires page == FreeListSpec.Target(s.Space(isKernel), size)
      requires RollbackFits(s, isKernel, size)
      modifies this`flat, this`tables, pmm`len, pmm.blocks, mmu`mem
      modifies user`len, user.blocks, kernel`len, kernel.blocks
      ensures Valid() && (ok <==> Affordable(s, isKernel, size))
      ensures ok ==> Allocated(s, Snapshot(), isKernel, size, page)
      ensures !ok ==> Refused(s, Snapshot(), isKernel)
    {
      AllocReady(s, owned, isKernel, size);
      var n := MapPages(page, size, isKernel, s);
      if n < size {
        Unaffordable(s, isKernel, size, n);
        if size > FrameListSpec.FREE_ARRAY_SIZE {
          MappedFew(s, pmm.Free(), flat, tables, page, n, isKernel, FrameListSpec.FREE_ARRAY_SIZE);
        }
        UndoAlloc(page, n, block, size, isKernel, s);
        return false;
      }
      assert n == size;
      FinishAlloc(page, block, size, isKernel, s);
      return true;
    }

    /** alloc_block: `size` fresh pages of a window, mapped onto free frames; 0 (NULL) when there
        is no block that large or not enough frames.  Rolling back gives the frames to an array
        without a capacity check, hence the last precondition. */
    method AllocBlock(size: nat, isKernel: bool) returns (page: nat)
      requires Valid() && RollbackFits(Snapshot(), isKernel, size)
      modifies this`flat, this`tables, pmm`len, pmm.blocks, mmu`mem
      modifies user`len, user.blocks, kernel`len, kernel.blocks
      ensures Valid()
      ensures page != 0 <==> old(Affordable(Snapshot(), isKernel, size))
      ensures page != 0 ==> page == old(FreeListSpec.Target(Snapshot().Space(isKernel), size))
      ensures page != 0 ==> old(FreeListSpec.TopOfSmallest(Snapshot().Space(isKernel), page, size))
      ensures page != 0 ==> Allocated(old(Snapshot()), Snapshot(), isKernel, size, page)
      ensures page != 0 ==> Worded(mmu.mem, mmu.cr3, flat, page, size, if isKernel then 3 else 7)
      ensures page == 0 ==> Refused(old(Snapshot()), Snapshot(), isKernel)
    {
      ghost var s := Snapshot();
      var block;
      page, block := ReserveBlock(size, isKernel);
      if page == 0 {
        RefusedAtOnce(s, owned, isKernel);
        return;
      }
      AllocFromTop(s, owned, isKernel, size);
      var ok := MapReserved(page, block, size, isKernel, s);
      if ok {
        AllocWords(s, Snapshot(), mmu.mem, mmu.cr3, owned, isKernel, size, page);
      } else {
        page := 0;
      }
    }

    /** The first loop of free_block: are all pages mapped? */
    method CheckMapped(v: nat, size: nat) returns (all: bool)
      requires Backed(owned) && forall p :: v <= p < v + size ==> InWindow(p)
      ensures all <==> AllMapped(flat, v, size)
    {
      var i := 0;
      while i < size
        invariant i <= size && AllMapped(flat, v, i)
      {
        LookUp(mmu.mem, mmu.cr3, owned, pmm.Free(), flat, tables, v + i);
        PageAddress(v + i, 0, false);
        var pa := mmu.GetPhysaddr((v + i) * 4096);
        if pa == 0 {
          return false;
        }
        i := i + 1;
      }
      return true;
    }

    /** The list part of free_block. */
    method ReleaseBlock(v: nat, size: nat, isKernel: bool) returns (ok: bool)
      requires Valid()
      modifies user`len, user.blocks, kernel`len, kernel.blocks
      ensures Separate() && user.Valid() && kernel.Valid() && Backed(owned)
      ensures ((if isKernel then kernel else user).List(), ok) ==
        old(FreeListSpec.Release(Snapshot().Space(isKernel), Run(v, size), FreeList.SPACE_SIZE))
      ensures (if isKernel then user else kernel).List() == old(Snapshot().Space(!isKernel))
    {
      var space := if isKernel then kernel else user;
      ok := space.Release(v, size);
    }

    /** The rest of free_block, after its list update. */
    method FinishFree(v: nat, size: nat, isKernel: bool, ghost s: State)
      requires Sealed(s, owned) && Separate() && user.Valid() && kernel.Valid() && Backed(owned)
      requires size > 0 && First(isKernel) <= v && v + size <= End(isKernel)
      requires s.flat == flat && s.tables == tables && s.free == pmm.Free()
      requires s.runs == pmm.List() && s.cursor == pmm.coalescePtr
      requires RoomFor(pmm.List(), flat, v, size) && |s.Space(isKernel)| <= FreeList.SPACE_SIZE
      requires ((if isKernel then kernel else user).List(), true) ==
        FreeListSpec.Release(s.Space(isKernel), Run(v, size), FreeList.SPACE_SIZE)
      requires (if isKernel then user else kernel).List() == s.Space(!isKernel)
      modifies this`flat, pmm`len, pmm`coalescePtr, pmm.blocks, mmu`mem
      ensures Valid() && Freed(s, Snapshot(), isKernel, v, size)
      ensures Coalescing.Tidied(FrameListSpec.FreeAll(s.runs, FramesOf(s.flat, v, size)), s.cursor,
                                pmm.List(), pmm.coalescePtr)
    {
      ReleasePages(v, size);
      CoalesceReady(pmm.List(), pmm.coalescePtr);
      pmm.Coalesce();
      FreeDone(s, Snapshot(), owned, mmu.mem, mmu.cr3, isKernel, v, size, FreeList.SPACE_SIZE);
    }

    /** free_block: the pages go back to the window and their frames to the frame allocator.
        Refused, with nothing changed, when a page is not mapped or the list is full and no free
        block is next to the pages. */
    method FreeBlock(v: nat, size: nat, isKernel: bool) returns (ok: bool)
      requires Valid() && size > 0 && First(isKernel) <= v && v + size <= End(isKernel)
      requires AllMapped(flat, v, size) ==> RoomFor(pmm.List(), flat, v, size)
      modifies this`flat, pmm`len, pmm`coalescePtr, pmm.blocks, mmu`mem
      modifies user`len, user.blocks, kernel`len, kernel.blocks
      ensures Valid()
      ensures ok <==>
        old(AllMapped(flat, v, size) && Accepts(Snapshot().Space(isKernel), v, size, 512))
      ensures ok ==> Freed(old(Snapshot()), Snapshot(), isKernel, v, size)
      ensures ok ==>
        old(AllMapped(flat, v, size)) &&
        Coalescing.Tidied(old(FrameListSpec.FreeAll(pmm.List(), FramesOf(flat, v, size))), old(pmm.coalescePtr),
                          pmm.List(), pmm.coalescePtr)
      ensures !ok ==> Snapshot() == old(Snapshot())
    {
      ok := CheckMapped(v, size);
      if ok {
        ok := FreeMapped(v, size, isKernel);
      }
    }

    /** free_block after its check. */
    method FreeMapped(v: nat, size: nat, isKernel: bool) returns (ok: bool)
      requires Valid() && size > 0 && First(isKernel) <= v && v + size <= End(isKernel)
      requires AllMapped(flat, v, size) && RoomFor(pmm.List(), flat, v, size)
      modifies this`flat, pmm`len, pmm`coalescePtr, pmm.blocks, mmu`mem
      modifies user`len, user.blocks, kernel`len, kernel.blocks
      ensures Valid()
      ensures ok <==> old(Accepts(Snapshot().Space(isKernel), v, size, 512))
      ensures ok ==> Freed(old(Snapshot()), Snapshot(), isKernel, v, size)
      ensures ok ==>
        Coalescing.Tidied(old(FrameListSpec.FreeAll(pmm.List(), FramesOf(flat, v, size))), old(pmm.coalescePtr),
                          pmm.List(), pmm.coalescePtr)
      ensures !ok ==> Snapshot() == old(Snapshot())
    {
      ghost var s := Snapshot();
      ListAccepts(s, owned, isKernel, v, size);
      ok := ReleaseBlock(v, size, isKernel);
      if ok {
        FinishFree(v, size, isKernel, s);
      }
    }
  }
}
