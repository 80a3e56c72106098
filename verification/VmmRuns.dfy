/** Whole runs of alloc_block and free_block, failing calls included. */
module VmmRuns {
  import opened Extents
  import opened Markers
  import opened VmmSpec
  import opened Paging
  import FreeList
  import FreeListSpec
  import FrameListSpec
  import Coalescing
  import Vmm

  /** A block of pages: the window, the first page and the number of pages. */
  datatype Block = Block(isKernel: bool, page: nat, size: nat)

  /** A call and its outcome, or a request for which no call was made. */
  datatype Event =
    | Taken(block: Block) | NotTaken(isKernel: bool)
    | Returned(block: Block) | NotReturned
    | PassedOver

  ghost function PagesOf(b: Block): set<int> { Range(b.page, b.size) }

  /** What the contracts of AllocBlock and FreeBlock say about one call. */
  ghost predicate Step(s: State, e: Event, t: State) {
    match e
    case Taken(b) => Allocated(s, t, b.isKernel, b.size, b.page)
    case NotTaken(isKernel) => Refused(s, t, isKernel)
    case Returned(b) => Freed(s, t, b.isKernel, b.page, b.size)
    case NotReturned => t == s
    case PassedOver => t == s
  }

  /** A run from `states[0]`, with the invariant that both methods keep in every state. */
  ghost predicate IsRun(states: seq<State>, events: seq<Event>, owned: set<int>) {
    && |states| == |events| + 1
    && (forall i :: 0 <= i < |states| ==> Sealed(states[i], owned))
    && forall i {:trigger events[i]} :: 0 <= i < |events| ==> Step(states[i], events[i], states[i + 1])
  }

  /** The pages that are mapped after the events, from the pages mapped before. */
  ghost function Replay(pages: set<int>, events: seq<Event>): set<int> {
    if events == [] then pages
    else
      var before := Replay(pages, events[..|events| - 1]);
      match events[|events| - 1]
      case Taken(b) => before + PagesOf(b)
      case Returned(b) => before - PagesOf(b)
      case _ => before
  }

  /** A call changes the set of mapped pages by its own block and nothing else. */
  lemma StepPages(s: State, e: Event, t: State)
    requires Step(s, e, t)
    ensures t.flat.Keys == Replay(s.flat.Keys, [e])
  {
    assert Replay(s.flat.Keys, [e][..0]) == s.flat.Keys;
  }

  lemma {:induction false} RunPages(states: seq<State>, events: seq<Event>, owned: set<int>)
    requires IsRun(states, events, owned)
    ensures states[|events|].flat.Keys == Replay(states[0].flat.Keys, events)
    decreases |events|
  {
    if events != [] {
      var k := |events| - 1;
      RunPages(states[..k + 1], events[..k], owned);
      StepPages(states[k], events[k], states[k + 1]);
      assert Replay(states[k].flat.Keys, [events[k]][..0]) == states[k].flat.Keys;
    }
  }

  /** The free lists are a function of the mapped pages, up to the order of equal sizes. */
  lemma SameMappedSameLists(s: State, t: State, owned: set<int>)
    requires Inv(s, owned) && Inv(t, owned) && s.flat.Keys == t.flat.Keys
    ensures multiset(s.user) == multiset(t.user) && multiset(s.kernel) == multiset(t.kernel)
  {
    SameFreePages(s.user, t.user, false, s, t, owned);
    SameFreePages(s.kernel, t.kernel, true, s, t, owned);
    CanonicalUnique(s.user, t.user);
    CanonicalUnique(s.kernel, t.kernel);
  }

  lemma SameFreePages(a: seq<Run>, b: seq<Run>, isKernel: bool, s: State, t: State, owned: set<int>)
    requires SpaceInv(a, isKernel, s.flat) && SpaceInv(b, isKernel, t.flat) && s.flat.Keys == t.flat.Keys
    ensures Pages(a) == Pages(b)
  {
    WithinPages(a, First(isKernel), End(isKernel));
    WithinPages(b, First(isKernel), End(isKernel));
    forall p ensures p in Pages(a) <==> p in Pages(b) {
      assert p in s.flat <==> p in t.flat;
      if InSpace(p, isKernel) {
        assert p in Pages(a) <==> p !in s.flat;
      }
    }
  }

  /** A run that ends with the pages mapped that were mapped at its start leaves both free lists
      with the same blocks, so that the checksums agree, and has lost no frame except to page
      tables. */
  lemma BalancedRun(states: seq<State>, events: seq<Event>, owned: set<int>, key: nat)
    requires IsRun(states, events, owned) && key < 0x1_0000_0000
    requires Replay(states[0].flat.Keys, events) == states[0].flat.Keys
    ensures var s, t := states[0], states[|events|];
      multiset(s.user) == multiset(t.user) && multiset(s.kernel) == multiset(t.kernel) &&
      FreeListSpec.Checksum(s.user, key) == FreeListSpec.Checksum(t.user, key) &&
      FreeListSpec.Checksum(s.kernel, key) == FreeListSpec.Checksum(t.kernel, key)
  {
    var s, t := states[0], states[|events|];
    RunPages(states, events, owned);
    assert Ask(Invariant, 0);
    SameMappedSameLists(s, t, owned);
    FreeListSpec.ChecksumOrderFree(s.user, t.user, key);
    FreeListSpec.ChecksumOrderFree(s.kernel, t.kernel, key);
  }

  // ----- allocating blocks and freeing them in any order

  ghost function AllPages(blocks: seq<Block>): set<int> {
    set i, p | 0 <= i < |blocks| && p in PagesOf(blocks[i]) :: p
  }

  lemma AllPagesLast(blocks: seq<Block>)
    requires blocks != []
    ensures var k := |blocks| - 1; AllPages(blocks) == AllPages(blocks[..k]) + PagesOf(blocks[k])
  {
    var k := |blocks| - 1;
    forall i | 0 <= i < k ensures blocks[..k][i] == blocks[i] {
    }
  }

  lemma {:induction false} ReplayTaken(pages: set<int>, blocks: seq<Block>, events: seq<Event>)
    requires |events| == |blocks| && forall i :: 0 <= i < |blocks| ==> events[i] == Taken(blocks[i])
    ensures Replay(pages, events) == pages + AllPages(blocks)
    decreases |blocks|
  {
    if blocks != [] {
      var k := |blocks| - 1;
      ReplayTaken(pages, blocks[..k], events[..k]);
      AllPagesLast(blocks);
    } else {
      assert AllPages(blocks) == {};
    }
  }

  lemma {:induction false} ReplayReturned(pages: set<int>, blocks: seq<Block>, events: seq<Event>)
    requires |events| == |blocks| && forall i :: 0 <= i < |blocks| ==> events[i] == Returned(blocks[i])
    ensures Replay(pages, events) == pages - AllPages(blocks)
    decreases |blocks|
  {
    if blocks != [] {
      var k := |blocks| - 1;
      ReplayReturned(pages, blocks[..k], events[..k]);
      AllPagesLast(blocks);
    } else {
      assert AllPages(blocks) == {};
    }
  }

  lemma {:induction false} ReplayConcat(pages: set<int>, a: seq<Event>, b: seq<Event>)
    ensures Replay(pages, a + b) == Replay(Replay(pages, a), b)
    decreases |b|
  {
    if b == [] {
      assert a + b == a;
    } else {
      var k := |b| - 1;
      ReplayConcat(pages, a, b[..k]);
      assert (a + b)[..|a + b| - 1] == a + b[..k];
    }
  }

  /** Blocks that were just taken do not overlap what was mapped before. */
  lemma {:induction false} TakenAreNew(states: seq<State>, blocks: seq<Block>, events: seq<Event>, owned: set<int>)
    requires IsRun(states, events, owned)
    requires |events| == |blocks| && forall i :: 0 <= i < |blocks| ==> events[i] == Taken(blocks[i])
    ensures AllPages(blocks) !! states[0].flat.Keys
    decreases |blocks|
  {
    if blocks != [] {
      var k := |blocks| - 1;
      var s := states[k];
      TakenAreNew(states[..k + 1], blocks[..k], events[..k], owned);
      RunPages(states[..k + 1], events[..k], owned);
      ReplayTaken(states[0].flat.Keys, blocks[..k], events[..k]);
      assert Step(s, events[k], states[k + 1]) && Ask(Invariant, 0);
      TakenIsFree(s, blocks[k], states[k + 1], owned);
      AllPagesLast(blocks);
    } else {
      assert AllPages(blocks) == {};
    }
  }

  lemma TakenIsFree(s: State, b: Block, t: State, owned: set<int>)
    requires Inv(s, owned) && Allocated(s, t, b.isKernel, b.size, b.page)
    ensures PagesOf(b) !! s.flat.Keys
  {
    var space := s.Space(b.isKernel);
    WithinPages(space, First(b.isKernel), End(b.isKernel));
    forall p | p in PagesOf(b) ensures p !in s.flat {
      assert p in Pages(space) && InSpace(p, b.isKernel);
    }
  }

  lemma AllPagesOrderFree(a: seq<Block>, b: seq<Block>)
    requires multiset(a) == multiset(b)
    ensures AllPages(a) == AllPages(b)
  {
    forall p | p in AllPages(a) ensures p in AllPages(b) {
      var i :| 0 <= i < |a| && p in PagesOf(a[i]);
      assert a[i] in multiset(b);
      var j :| 0 <= j < |b| && b[j] == a[i];
    }
    forall p | p in AllPages(b) ensures p in AllPages(a) {
      var i :| 0 <= i < |b| && p in PagesOf(b[i]);
      assert b[i] in multiset(a);
      var j :| 0 <= j < |a| && a[j] == b[i];
    }
  }

  lemma ReplayAll(pages: set<int>, taken: seq<Block>, returned: seq<Block>, events: seq<Event>)
    requires |events| == |taken| + |returned|
    requires forall i :: 0 <= i < |taken| ==> events[i] == Taken(taken[i])
    requires forall i :: 0 <= i < |returned| ==> events[|taken| + i] == Returned(returned[i])
    ensures Replay(pages, events) == pages + AllPages(taken) - AllPages(returned)
  {
    var n := |taken|;
    assert events == events[..n] + events[n..];
    ReplayConcat(pages, events[..n], events[n..]);
    ReplayTaken(pages, taken, events[..n]);
    ReplayReturned(Replay(pages, events[..n]), returned, events[n..]);
  }

  /** The intended law of test_vmm: allocate any blocks in either window, free exactly those
      blocks in any order, and both checksums are what they were. */
  lemma AllocateThenFree(states: seq<State>, taken: seq<Block>, returned: seq<Block>,
                         events: seq<Event>, owned: set<int>, key: nat)
    requires IsRun(states, events, owned) && key < 0x1_0000_0000
    requires |events| == |taken| + |returned| && multiset(taken) == multiset(returned)
    requires forall i :: 0 <= i < |taken| ==> events[i] == Taken(taken[i])
    requires forall i :: 0 <= i < |returned| ==> events[|taken| + i] == Returned(returned[i])
    ensures var s, t := states[0], states[|events|];
      multiset(s.user) == multiset(t.user) && multiset(s.kernel) == multiset(t.kernel) &&
      FreeListSpec.Checksum(s.user, key) == FreeListSpec.Checksum(t.user, key) &&
      FreeListSpec.Checksum(s.kernel, key) == FreeListSpec.Checksum(t.kernel, key)
  {
    var n := |taken|;
    TakenAreNew(states[..n + 1], taken, events[..n], owned);
    AllPagesOrderFree(taken, returned);
    ReplayAll(states[0].flat.Keys, taken, returned, events);
    BalancedRun(states, events, owned, key);
  }

  // ----- what stays as it is during a run

  /** A step keeps the translation of every page that it does not free, and every page table. */
  lemma StepKeeps(s: State, e: Event, t: State, p: int)
    requires Step(s, e, t) && p in s.flat && !(e.Returned? && p in PagesOf(e.block))
    ensures p in t.flat && t.flat[p] == s.flat[p]
    ensures forall i :: i in s.tables ==> i in t.tables && t.tables[i] == s.tables[i]
  {
  }

  /** The translation of a live page does not change during a run, whatever else is allocated or
      freed and whatever fails. */
  lemma {:induction false} LivePageKept(states: seq<State>, events: seq<Event>, owned: set<int>, p: int)
    requires IsRun(states, events, owned) && p in states[0].flat
    requires forall i :: 0 <= i < |events| && events[i].Returned? ==> p !in PagesOf(events[i].block)
    ensures p in states[|events|].flat && states[|events|].flat[p] == states[0].flat[p]
    decreases |events|
  {
    if events != [] {
      var k := |events| - 1;
      LivePageKept(states[..k + 1], events[..k], owned, p);
      StepKeeps(states[k], events[k], states[k + 1], p);
    }
  }

  /** In every state of every run, no two live pages share a frame, no live page's frame is free
      or holds a page table, and free frames, mapped frames and table frames make up the frames
      the allocator started with. */
  lemma NoFrameTwice(states: seq<State>, events: seq<Event>, owned: set<int>, n: nat, p: int, q: int)
    requires IsRun(states, events, owned) && n < |states|
    requires p in states[n].flat && q in states[n].flat && p != q
    ensures var s := states[n];
      s.flat[p].frame != s.flat[q].frame &&
      s.flat[p].frame in owned && s.flat[p].frame !in s.free &&
      (forall i :: i in s.tables ==> s.tables[i] != s.flat[p].frame) &&
      |owned| == |s.free| + |MappedFrames(s.flat)| + |TableFrames(s.tables)|
  {
    var s := states[n];
    assert Ask(Invariant, 0) && At(p) && At(q);
    assert s.flat[p].frame in MappedFrames(s.flat);
    forall i | i in s.tables ensures s.tables[i] != s.flat[p].frame {
      assert s.tables[i] in TableFrames(s.tables);
    }
    var mapped, tabled := MappedFrames(s.flat), TableFrames(s.tables);
    assert |s.free + mapped| == |s.free| + |mapped|;
    assert |s.free + mapped + tabled| == |s.free + mapped| + |tabled|;
  }

  lemma {:induction false} TablesStay(states: seq<State>, events: seq<Event>, owned: set<int>, i: int)
    requires IsRun(states, events, owned) && i in states[0].tables
    ensures i in states[|events|].tables && states[|events|].tables[i] == states[0].tables[i]
    decreases |events|
  {
    if events != [] {
      var k := |events| - 1;
      TablesStay(states[..k + 1], events[..k], owned, i);
      assert Step(states[k], events[k], states[k + 1]);
    }
  }

  /** A run that ends with the translations it started with has lost exactly the frames that
      became page tables. */
  lemma FramesSpentOnTables(states: seq<State>, events: seq<Event>, owned: set<int>)
    requires IsRun(states, events, owned) && states[|events|].flat == states[0].flat
    ensures states[|events|].free == states[0].free - TableFrames(states[|events|].tables)
  {
    var s, t := states[0], states[|events|];
    assert Ask(Invariant, 0);
    forall i | i in s.tables ensures s.tables[i] in TableFrames(t.tables) {
      TablesStay(states, events, owned, i);
    }
    forall f ensures f in t.free <==> f in s.free && f !in TableFrames(t.tables) {
      assert f in owned <==> f in s.free || f in MappedFrames(s.flat) || f in TableFrames(s.tables);
      assert f in owned <==> f in t.free || f in MappedFrames(t.flat) || f in TableFrames(t.tables);
    }
  }

  /** Allocating blocks and freeing exactly those, in any order, also restores every translation,
      and the only frames it costs are those of page tables. */
  lemma AllocateThenFreeFrames(states: seq<State>, taken: seq<Block>, returned: seq<Block>,
                               events: seq<Event>, owned: set<int>)
    requires IsRun(states, events, owned)
    requires |events| == |taken| + |returned| && multiset(taken) == multiset(returned)
    requires forall i :: 0 <= i < |taken| ==> events[i] == Taken(taken[i])
    requires forall i :: 0 <= i < |returned| ==> events[|taken| + i] == Returned(returned[i])
    ensures var s, t := states[0], states[|events|];
      t.flat == s.flat && t.free == s.free - TableFrames(t.tables)
  {
    var n, s, t := |taken|, states[0], states[|events|];
    TakenAreNew(states[..n + 1], taken, events[..n], owned);
    AllPagesOrderFree(taken, returned);
    ReplayAll(s.flat.Keys, taken, returned, events);
    RunPages(states, events, owned);
    assert t.flat.Keys == s.flat.Keys;
    forall p | p in s.flat ensures t.flat[p] == s.flat[p] {
      NotAmongReturned(taken, returned, events, p);
      LivePageKept(states, events, owned, p);
    }
    FramesSpentOnTables(states, events, owned);
  }

  lemma NotAmongReturned(taken: seq<Block>, returned: seq<Block>, events: seq<Event>, p: int)
    requires |events| == |taken| + |returned| && p !in AllPages(returned)
    requires forall i :: 0 <= i < |taken| ==> events[i] == Taken(taken[i])
    requires forall i :: 0 <= i < |returned| ==> events[|taken| + i] == Returned(returned[i])
    ensures forall i :: 0 <= i < |events| && events[i].Returned? ==> p !in PagesOf(events[i].block)
  {
    forall i | |taken| <= i < |events| ensures events[i] == Returned(returned[i - |taken|]) {
      assert events[|taken| + (i - |taken|)] == Returned(returned[i - |taken|]);
    }
  }

  /** Every successful free of a run coalesces the frame list: the cursor ends behind the last run
      (unless one run is all there is), and the runs have gaps between them exactly when the pass has
      looked at each stretch of frames in which runs touched. */
  lemma FreesTidy(states: seq<State>, events: seq<Event>, owned: set<int>, i: nat)
    requires IsRun(states, events, owned) && i < |events| && events[i].Returned?
    ensures var s, t, b := states[i], states[i + 1], events[i].block;
      AllMapped(s.flat, b.page, b.size) &&
      Coalescing.Tidied(FrameListSpec.FreeAll(s.runs, FramesOf(s.flat, b.page, b.size)), s.cursor, t.runs, t.cursor)
  {
    assert Ask(Effects, 0) && Step(states[i], events[i], states[i + 1]);
  }

  // ----- the code makes such runs

  datatype Request = Allocate(isKernel: bool, size: nat) | Release(isKernel: bool, page: nat, size: nat)

  lemma ChainGrows<S, E>(step: (S, E, S) -> bool, states: seq<S>, events: seq<E>, e: E, t: S)
    requires |states| == |events| + 1 && step(states[|events|], e, t)
    requires forall i :: 0 <= i < |events| ==> step(states[i], events[i], states[i + 1])
    ensures var more, all := states + [t], events + [e];
      forall i :: 0 <= i < |all| ==> step(more[i], all[i], more[i + 1])
  {
  }

  lemma RunGrows(states: seq<State>, events: seq<Event>, owned: set<int>, e: Event, t: State)
    requires IsRun(states, events, owned) && Step(states[|events|], e, t) && Sealed(t, owned)
    ensures IsRun(states + [t], events + [e], owned)
  {
    ChainGrows((a, b, c) => Step(a, b, c), states, events, e, t);
  }

  /** Which of `n` window pages from `v` need a table that is not there. */
  lemma NeededStarts(tables: map<int, int>, v: nat, n: nat)
    ensures Slot(v + n) in Needed(tables, v, n) <==>
      n > 0 && Slot(v + n) == Slot(v + n - 1) && Slot(v + n) !in tables
  {
  }

  /** The number of tables that `n` pages of a window still need. */
  method MissingTables(m: Vmm.Manager, v: nat, n: nat) returns (k: nat)
    requires m.Backed(m.owned) && forall p :: v <= p < v + n ==> InWindow(p)
    ensures k == |Needed(m.tables, v, n)|
  {
    k := 0;
    var i := 0;
    while i < n
      invariant i <= n && k == |Needed(m.tables, v, i)|
    {
      WindowSlots(v + i);
      TablePresent(m.mmu.mem, m.mmu.cr3, m.owned, m.pmm.Free(), m.flat, m.tables, Slot(v + i));
      NeededNext(m.tables, v, i);
      NeededStarts(m.tables, v, i);
      var pde := m.mmu.LoadDirectory((v + i) / 1024);
      if !Present(pde) && (i == 0 || (v + i) / 1024 != (v + i - 1) / 1024) {
        k := k + 1;
      }
      i := i + 1;
    }
  }

  /** May alloc_block be called? */
  method MayAllocate(m: Vmm.Manager, size: nat, isKernel: bool) returns (may: bool)
    requires m.Valid()
    ensures may <==> RollbackFits(m.Snapshot(), isKernel, size)
  {
    if size <= FrameListSpec.FREE_ARRAY_SIZE {
      return true;
    }
    var space := if isKernel then m.kernel else m.user;
    var blocks := space.blocks[..space.len];
    if !FreeListSpec.CanFit(blocks, size) {
      return true;
    }
    AllocReady(m.Snapshot(), m.owned, isKernel, size);
    var v := FreeListSpec.Target(blocks, size);
    var free := m.pmm.CountFree();
    var all := MissingTables(m, v, size);
    var some := MissingTables(m, v, FrameListSpec.FREE_ARRAY_SIZE);
    may := size + all <= free || free < FrameListSpec.FREE_ARRAY_SIZE + some;
  }

  /** The frames behind pages of a window, if all are mapped. */
  method CollectFrames(m: Vmm.Manager, v: nat, size: nat) returns (all: bool, frames: seq<nat>)
    requires m.Backed(m.owned) && forall p :: v <= p < v + size ==> InWindow(p)
    ensures all <==> AllMapped(m.flat, v, size)
    ensures all ==> frames == FramesOf(m.flat, v, size)
  {
    frames := [];
    var i := 0;
    while i < size
      invariant i <= size && AllMapped(m.flat, v, i) && frames == FramesOf(m.flat, v, i)
    {
      LookUp(m.mmu.mem, m.mmu.cr3, m.owned, m.pmm.Free(), m.flat, m.tables, v + i);
      Vmm.PageAddress(v + i, 0, false);
      var pa := m.mmu.GetPhysaddr((v + i) * 4096);
      if pa == 0 {
        return false, [];
      }
      frames := frames + [pa / 4096];
      i := i + 1;
    }
    all := true;
  }

  /** May free_block be called? */
  method MayFree(m: Vmm.Manager, v: nat, size: nat) returns (may: bool)
    requires m.Valid() && forall p :: v <= p < v + size ==> InWindow(p)
    ensures may <==> (AllMapped(m.flat, v, size) ==> RoomFor(m.pmm.List(), m.flat, v, size))
  {
    var all, frames := CollectFrames(m, v, size);
    may := !all || |FrameListSpec.FreeAll(m.pmm.blocks[..m.pmm.len], frames)| <= FrameListSpec.FREE_ARRAY_SIZE;
  }

  /** Any list of requests, served one after the other.  Passed over are only those that the
      contracts of AllocBlock and FreeBlock exclude. */
  method Session(m: Vmm.Manager, requests: seq<Request>) returns (ghost states: seq<State>, ghost events: seq<Event>)
    requires m.Valid()
    modifies m`flat, m`tables, m.pmm`len, m.pmm`coalescePtr, m.pmm.blocks, m.mmu`mem
    modifies m.user`len, m.user.blocks, m.kernel`len, m.kernel.blocks
    ensures m.Valid() && IsRun(states, events, m.owned)
    ensures states[0] == old(m.Snapshot()) && states[|events|] == m.Snapshot()
  {
    states, events := [m.Snapshot()], [];
    var i := 0;
    while i < |requests|
      invariant i <= |requests| && m.Valid() && IsRun(states, events, m.owned)
      invariant states[0] == old(m.Snapshot()) && states[|events|] == m.Snapshot()
    {
      ghost var e := Serve(m, requests[i]);
      RunGrows(states, events, m.owned, e, m.Snapshot());
      states, events := states + [m.Snapshot()], events + [e];
      i := i + 1;
    }
  }

  /** The requests that the contracts of AllocBlock and FreeBlock admit. */
  ghost predicate Served(m: Vmm.Manager, request: Request)
    requires m.Valid()
    reads m`flat, m`tables, m.user, m.user.blocks, m.kernel, m.kernel.blocks
    reads m.pmm`len, m.pmm`coalescePtr, m.pmm.blocks, m.mmu
  {
    if request.Allocate? then RollbackFits(m.Snapshot(), request.isKernel, request.size)
    else
      var v, size := request.page, request.size;
      && 0 < size && First(request.isKernel) <= v && v + size <= End(request.isKernel)
      && (AllMapped(m.flat, v, size) ==> RoomFor(m.pmm.List(), m.flat, v, size))
  }

  method Serve(m: Vmm.Manager, request: Request) returns (ghost e: Event)
    requires m.Valid()
    modifies m`flat, m`tables, m.pmm`len, m.pmm`coalescePtr, m.pmm.blocks, m.mmu`mem
    modifies m.user`len, m.user.blocks, m.kernel`len, m.kernel.blocks
    ensures m.Valid() && Step(old(m.Snapshot()), e, m.Snapshot())
    ensures e.PassedOver? <==> !old(Served(m, request))
    ensures request.Allocate? && !e.PassedOver? ==>
      if old(Affordable(m.Snapshot(), request.isKernel, request.size)) then e.Taken? && e.block.size == request.size
      else e == NotTaken(request.isKernel)
    ensures request.Release? && !e.PassedOver? ==>
      e == if old(AllMapped(m.flat, request.page, request.size) &&
                  Accepts(m.Snapshot().Space(request.isKernel), request.page, request.size, FreeList.SPACE_SIZE))
           then Returned(Block(request.isKernel, request.page, request.size)) else NotReturned
  {
    e := PassedOver;
    match request {
      case Allocate(isKernel, size) =>
        var may := MayAllocate(m, size, isKernel);
        if may {
          var page := m.AllocBlock(size, isKernel);
          e := if page == 0 then NotTaken(isKernel) else Taken(Block(isKernel, page, size));
        }
      case Release(isKernel, page, size) =>
        if 0 < size && First(isKernel) <= page && page + size <= End(isKernel) {
          var may := MayFree(m, page, size);
          if may {
            var ok := m.FreeBlock(page, size, isKernel);
            e := if ok then Returned(Block(isKernel, page, size)) else NotReturned;
          }
        }
    }
  }
}
