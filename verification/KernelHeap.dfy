/** The kernel heap on top of the virtual memory manager: kmalloc takes its arenas from alloc_block
    (kernel/arch/i386/heap.c). */
module KernelHeap {
  import opened Extents
  import opened Markers
  import opened HeapSpec
  import HeapRuns
  import opened VmmSpec
  import opened Paging
  import FrameListSpec
  import Heap
  import Vmm

  /** The pages that kmalloc asks for: `(need + 16 + 4095) / 4096`. */
  function ArenaPages(need: nat): (n: nat)
    ensures ArenaSize(need) == 4096 * n
  {
    (need + HEADER + 4095) / 4096
  }

  /** Every byte of the heap's arenas lies in a live page of the kernel window. */
  ghost predicate Resident(arenas: set<int>, flat: map<int, Mapping>) {
    forall b :: b in arenas ==> b / 4096 in flat && InSpace(b / 4096, true)
  }

  /** The bytes of whole pages. */
  lemma BytesOfPages(v: nat, n: nat, b: int)
    ensures b in Span(Run(4096 * v, 4096 * n)) <==> b / 4096 in Range(v, n)
  {
    assert Run(4096 * v, 4096 * n).Holds(b) <==> Run(v, n).Holds(b / 4096) by {
      var q, r := b / 4096, b % 4096;
      assert b == 4096 * q + r;
    }
  }

  /** The pages that alloc_block has handed out were not mapped, and now are. */
  lemma PagesFresh(s: State, t: State, owned: set<int>, v: nat, n: nat)
    requires Sealed(s, owned) && Allocated(s, t, true, n, v)
    ensures forall p :: p in Range(v, n) ==> p !in s.flat && p in t.flat && InSpace(p, true)
    ensures forall p :: p in s.flat ==> p in t.flat
  {
    assert Ask(Invariant, 0);
    WithinPages(s.kernel, First(true), End(true));
    forall p | p in Range(v, n) ensures p !in s.flat && p in t.flat && InSpace(p, true) {
      assert p in Pages(s.Space(true));
    }
  }

  /** So they make an arena that is new to the heap. */
  lemma ArenaFresh(before: map<int, Mapping>, flat: map<int, Mapping>, v: nat, need: nat, arenas: set<int>)
    requires v > 0 && Resident(arenas, before)
    requires forall p :: p in Range(v, ArenaPages(need)) ==> p !in before && p in flat && InSpace(p, true)
    requires forall p :: p in before ==> p in flat
    ensures FreshArena(arenas, 4096 * v, need)
    ensures Resident(arenas + Span(Run(4096 * v, ArenaSize(need))), flat)
  {
    var n := ArenaPages(need);
    var bytes := Span(Run(4096 * v, 4096 * n));
    forall b | b in bytes ensures b / 4096 in Range(v, n) {
      BytesOfPages(v, n, b);
    }
    assert n > 0 && Run(v, n).Holds(v + n - 1);
    assert v + n - 1 in Range(v, n);
    assert bytes !! arenas;
  }

  /** What kmalloc asks of the manager and of the request when it has to grow. */
  ghost predicate Claimable(s: State, grow: bool, need: nat) {
    forall i {:trigger Ask(Shortage, i)} :: Ask(Shortage, i) ==>
      grow ==> RollbackFits(s, true, ArenaPages(need)) && Roomy(need)
  }

  /** The manager is asked for an arena exactly when no free segment fits. */
  ghost predicate Funded(s: State, grow: bool, need: nat, arena: nat, t: State) {
    forall i {:trigger Ask(Effects, i)} :: Ask(Effects, i) ==>
      if grow then
        (arena == 0 <==> !Affordable(s, true, ArenaPages(need))) &&
        if arena == 0 then Refused(s, t, true)
        else arena % 4096 == 0 && Allocated(s, t, true, ArenaPages(need), arena / 4096)
      else
        arena == 0 && t == s
  }

  /** An arena that kmalloc may use, if it asked for one, and that keeps the heap in live pages. */
  ghost predicate Usable(s: seq<Seg>, arenas: set<int>, need: nat, arena: nat, flat: map<int, Mapping>) {
    forall i {:trigger Ask(Progress, i)} :: Ask(Progress, i) ==>
      (FirstFit(s, need, 0) == |s| && arena != 0 ==> FreshArena(arenas, arena, need) && Roomy(need)) &&
      Resident(ArenasAfter(s, need, arena, arenas), flat)
  }

  /** The arena of heap_init. */
  lemma FirstArena(s: State, t: State, owned: set<int>, v: nat)
    requires Sealed(s, owned) && Allocated(s, t, true, 16, v) && v > 0
    ensures FreshArena({}, 4096 * v, FIRST_ARENA - HEADER)
    ensures Resident(Span(Run(4096 * v, FIRST_ARENA)), t.flat)
  {
    PagesFresh(s, t, owned, v, 16);
    FirstSize();
    ArenaFresh(s.flat, t.flat, v, FIRST_ARENA - HEADER, {});
    ResidentPart({}, Span(Run(4096 * v, FIRST_ARENA)), t.flat);
  }

  lemma FirstSize()
    ensures ArenaPages(FIRST_ARENA - HEADER) == 16 && ArenaSize(FIRST_ARENA - HEADER) == FIRST_ARENA
  {
  }

  lemma ResidentPart(a: set<int>, b: set<int>, flat: map<int, Mapping>)
    requires Resident(a + b, flat)
    ensures Resident(b, flat)
  {
  }

  /** After alloc_block has been asked for an arena. */
  lemma ArenaTaken(s: State, t: State, owned: set<int>, v: nat, need: nat, arenas: set<int>)
    requires Sealed(s, owned) && Resident(arenas, s.flat)
    requires v != 0 <==> Affordable(s, true, ArenaPages(need))
    requires v != 0 ==> Allocated(s, t, true, ArenaPages(need), v)
    requires v == 0 ==> Refused(s, t, true)
    ensures Funded(s, true, need, 4096 * v, t)
    ensures if v == 0 then Resident(arenas, t.flat)
      else FreshArena(arenas, 4096 * v, need) && Resident(arenas + Span(Run(4096 * v, ArenaSize(need))), t.flat)
  {
    assert 4096 * v / 4096 == v;
    if v != 0 {
      PagesFresh(s, t, owned, v, ArenaPages(need));
      ArenaFresh(s.flat, t.flat, v, need, arenas);
    }
  }

  /** Every byte of every segment is mapped. */
  lemma SegmentsMapped(s: seq<Seg>, arenas: set<int>, flat: map<int, Mapping>, g: Seg, b: int)
    requires GoodHeap(s, arenas) && Resident(arenas, flat) && g in s && g.addr <= b < g.End()
    ensures b / 4096 in flat && InSpace(b / 4096, true)
  {
    assert Ask(Invariant, 0);
    var i :| 0 <= i < |s| && s[i] == g;
    assert Extent(s)[i].Holds(b);
    assert b in Pages(Extent(s));
  }

  class KernelHeap {
    const vmm: Vmm.Manager
    const heap: Heap.List

    ghost predicate Valid()
      reads this, heap, heap.repr
      reads vmm`flat, vmm`tables, vmm.user, vmm.user.blocks, vmm.kernel, vmm.kernel.blocks
      reads vmm.pmm`len, vmm.pmm`coalescePtr, vmm.pmm.blocks, vmm.mmu
    {
      vmm.Valid() && heap.Valid() && Resident(heap.arenas, vmm.flat)
    }

    /** heap_init, once alloc_block has given the 16 pages of the first arena. */
    constructor (vmm: Vmm.Manager, page: nat, ghost s: State)
      requires vmm.Valid() && Sealed(s, vmm.owned) && page > 0
      requires Allocated(s, vmm.Snapshot(), true, 16, page)
      ensures Valid() && this.vmm == vmm && fresh(heap) && fresh(heap.repr)
      ensures heap.Segs() == [Seg(4096 * page, 0xFFF0, true)]
    {
      FirstArena(s, vmm.Snapshot(), vmm.owned, page);
      this.vmm := vmm;
      heap := new Heap.List(4096 * page);
    }

    /** Does no free segment fit? */
    ghost predicate MustGrow(need: nat)
      reads heap`hs, heap.hs`size, heap.hs`status
    {
      FirstFit(heap.Segs(), need, 0) == |heap.hs|
    }

    /** The requests that Session makes. */
    ghost predicate MayClaim(size: nat)
      reads heap`hs, heap.hs`size, heap.hs`status
    {
      && size + 7 + HEADER + 4095 < 0x1_0000_0000
      && (MustGrow(Align(size)) ==>
            Roomy(Align(size)) && ArenaPages(Align(size)) <= FrameListSpec.FREE_ARRAY_SIZE)
    }

    /** The call of alloc_block in kmalloc. */
    method TakeArena(need: nat) returns (arena: nat)
      requires vmm.Valid() && Resident(heap.arenas, vmm.flat)
      requires RollbackFits(vmm.Snapshot(), true, ArenaPages(need))
      modifies vmm`flat, vmm`tables, vmm.pmm`len, vmm.pmm.blocks, vmm.mmu`mem
      modifies vmm.user`len, vmm.user.blocks, vmm.kernel`len, vmm.kernel.blocks
      ensures vmm.Valid() && Funded(old(vmm.Snapshot()), true, need, arena, vmm.Snapshot())
      ensures arena == 0 ==> Resident(heap.arenas, vmm.flat)
      ensures arena != 0 ==>
        FreshArena(heap.arenas, arena, need) &&
        Resident(heap.arenas + Span(Run(arena, ArenaSize(need))), vmm.flat)
    {
      ghost var s := vmm.Snapshot();
      var page := vmm.AllocBlock((need + HEADER + 4095) / 4096, true);
      arena := 4096 * page;
      ArenaTaken(s, vmm.Snapshot(), vmm.owned, page, need, heap.arenas);
    }

    /** The arena for a request, after the walk: 0 when none is needed or alloc_block has none. */
    method Fund(current: Heap.Header, ghost i: nat, need: nat) returns (arena: nat)
      requires Valid() && heap.Walked(current, i, need) && need % 8 == 0
      requires Claimable(vmm.Snapshot(), MustGrow(need), need)
      modifies vmm`flat, vmm`tables, vmm.pmm`len, vmm.pmm.blocks, vmm.mmu`mem
      modifies vmm.user`len, vmm.user.blocks, vmm.kernel`len, vmm.kernel.blocks
      ensures vmm.Valid() && Funded(old(vmm.Snapshot()), old(MustGrow(need)), need, arena, vmm.Snapshot())
      ensures unchanged(heap) && unchanged(heap.repr)
      ensures Usable(old(heap.Segs()), heap.arenas, need, arena, vmm.flat)
    {
      assert Ask(Shortage, 0);
      arena := 0;
      if !(current.status == Heap.FREE && (current.size == need || current.size >= need + HEADER)) {
        arena := TakeArena(need);
      }
    }

    /** kmalloc after its walk and its call of alloc_block. */
    method Complete(current: Heap.Header, ghost i: nat, need: nat, arena: nat) returns (p: nat, ghost g: Seg)
      requires vmm.Valid() && heap.Valid() && heap.Walked(current, i, need) && need % 8 == 0
      requires Usable(heap.Segs(), heap.arenas, need, arena, vmm.flat)
      modifies heap`hs, heap`repr, heap`arenas, heap.repr`next, heap.repr`prev, heap.repr`size, heap.repr`status
      ensures Valid() && fresh(heap.repr - old(heap.repr)) && old(heap.repr) <= heap.repr
      ensures vmm.Snapshot() == old(vmm.Snapshot())
      ensures Served(old(heap.Segs()), old(heap.arenas), need, arena, heap.Segs(), heap.arenas, p, g)
    {
      assert Ask(Progress, 0);
      p, g := heap.Finish(current, i, need, arena);
    }

    /** kmalloc on an aligned request. */
    method Allocate(need: nat) returns (p: nat, ghost g: Seg, ghost arena: nat)
      requires Valid() && need % 8 == 0
      requires Claimable(vmm.Snapshot(), MustGrow(need), need)
      modifies heap`hs, heap`repr, heap`arenas, heap.repr`next, heap.repr`prev, heap.repr`size, heap.repr`status
      modifies vmm`flat, vmm`tables, vmm.pmm`len, vmm.pmm.blocks, vmm.mmu`mem
      modifies vmm.user`len, vmm.user.blocks, vmm.kernel`len, vmm.kernel.blocks
      ensures Valid() && fresh(heap.repr - old(heap.repr)) && old(heap.repr) <= heap.repr
      ensures Funded(old(vmm.Snapshot()), old(MustGrow(need)), need, arena, vmm.Snapshot())
      ensures Served(old(heap.Segs()), old(heap.arenas), need, arena, heap.Segs(), heap.arenas, p, g)
    {
      ghost var s, segs, all, grow := vmm.Snapshot(), heap.Segs(), heap.arenas, MustGrow(need);
      var current;
      ghost var i;
      current, i := heap.Walk(need);
      var block := Fund(current, i, need);
      assert heap.Segs() == segs && heap.arenas == all;
      assert Funded(s, grow, need, block, vmm.Snapshot());
      p, g := Complete(current, i, need, block);
      assert Served(segs, all, need, block, heap.Segs(), heap.arenas, p, g);
      arena := block;
    }

    /** kmalloc.  It fails exactly when no free segment fits and alloc_block has no block for a new
        arena.  Otherwise the payload is new to the live segments, at a multiple of 8, and lies in
        live pages of the kernel window. */
    method Kmalloc(size: nat) returns (p: nat, ghost g: Seg, ghost arena: nat)
      requires Valid() && size + 7 + HEADER + 4095 < 0x1_0000_0000
      requires MustGrow(Align(size)) ==>
        RollbackFits(vmm.Snapshot(), true, ArenaPages(Align(size))) && Roomy(Align(size))
      modifies heap`hs, heap`repr, heap`arenas, heap.repr`next, heap.repr`prev, heap.repr`size, heap.repr`status
      modifies vmm`flat, vmm`tables, vmm.pmm`len, vmm.pmm.blocks, vmm.mmu`mem
      modifies vmm.user`len, vmm.user.blocks, vmm.kernel`len, vmm.kernel.blocks
      ensures Valid() && fresh(heap.repr - old(heap.repr)) && old(heap.repr) <= heap.repr
      ensures p == 0 <==>
        old(MustGrow(Align(size)) && !Affordable(vmm.Snapshot(), true, ArenaPages(Align(size))))
      ensures p == 0 ==> heap.Segs() == old(heap.Segs()) && Refused(old(vmm.Snapshot()), vmm.Snapshot(), true)
      ensures p != 0 ==>
        g in heap.Segs() && HandedOut(g, Align(size)) &&
        ClearOfHeaders(heap.Segs(), g, p) && OnTop(old(heap.Segs()), Align(size), arena, p) &&
        Live(heap.Segs()) == old(Live(heap.Segs())) + {g}
      ensures HeapRuns.CallStep(old(heap.Segs()), HeapRuns.Allocate(Align(size), arena), heap.Segs())
    {
      p, g, arena := Allocate((size + 7) / 8 * 8);
      assert Ask(Effects, 0) && Ask(Steps, 0);
    }

    /** kfree. */
    method Kfree(header: Heap.Header, ghost k: nat)
      requires Valid() && k < |heap.hs| && heap.hs[k] == header
      modifies heap`hs, heap.repr`next, heap.repr`prev, heap.repr`size, heap.repr`status
      ensures Valid() && vmm.Snapshot() == old(vmm.Snapshot())
      ensures HeapRuns.CallStep(old(heap.Segs()), HeapRuns.Release(k), heap.Segs())
      ensures Live(heap.Segs()) == old(Live(heap.Segs())) - {old(Heap.SegOf(header))}
    {
      heap.Kfree(header, k);
      assert Ask(Steps, 0);
    }
  }

  /** heap_init on a running memory manager; null where the source aborts. */
  method HeapInit(vmm: Vmm.Manager) returns (k: KernelHeap?)
    requires vmm.Valid()
    modifies vmm`flat, vmm`tables, vmm.pmm`len, vmm.pmm.blocks, vmm.mmu`mem
    modifies vmm.user`len, vmm.user.blocks, vmm.kernel`len, vmm.kernel.blocks
    ensures k == null <==> !old(Affordable(vmm.Snapshot(), true, 16))
    ensures k == null ==> vmm.Valid() && Refused(old(vmm.Snapshot()), vmm.Snapshot(), true)
    ensures k != null ==> k.Valid() && k.vmm == vmm && fresh(k) && fresh(k.heap) && fresh(k.heap.repr)
    ensures k != null ==> exists page: nat :: k.heap.Segs() == [Seg(4096 * page, 0xFFF0, true)]
  {
    ghost var s := vmm.Snapshot();
    var page := vmm.AllocBlock(16, true);
    if page == 0 {
      return null;
    }
    k := new KernelHeap(vmm, page, s);
  }

  datatype Request = Claim(size: nat) | Return(index: nat)

  /** Any list of requests makes a run of the heap.  Passed over are requests for 4 MiB and more that
      need a new arena, those whose new arena would have no room for a second header, and returns
      that name no header of the list. */
  method Session(k: KernelHeap, requests: seq<Request>)
    returns (ghost states: seq<seq<Seg>>, ghost calls: seq<HeapRuns.Call>)
    requires k.Valid()
    modifies k.heap, k.heap.repr
    modifies k.vmm`flat, k.vmm`tables, k.vmm.pmm`len, k.vmm.pmm.blocks, k.vmm.mmu`mem
    modifies k.vmm.user`len, k.vmm.user.blocks, k.vmm.kernel`len, k.vmm.kernel.blocks
    ensures k.Valid() && HeapRuns.IsRun(states, calls)
    ensures states[0] == old(k.heap.Segs()) && states[|calls|] == k.heap.Segs()
  {
    states, calls := [k.heap.Segs()], [];
    var i := 0;
    while i < |requests|
      invariant i <= |requests| && k.Valid() && HeapRuns.IsRun(states, calls)
      invariant states[0] == old(k.heap.Segs()) && states[|calls|] == k.heap.Segs()
      invariant fresh(k.heap.repr - old(k.heap.repr))
    {
      ghost var c := Answer(k, requests[i]);
      if c.Some? {
        HeapRuns.RunGrows(states, calls, c.value, k.heap.Segs());
        states, calls := states + [k.heap.Segs()], calls + [c.value];
      }
      i := i + 1;
    }
  }

  /** At most one call. */
  ghost predicate Happened(s: seq<Seg>, c: Option<HeapRuns.Call>, t: seq<Seg>) {
    match c
    case None => t == s
    case Some(call) => HeapRuns.CallStep(s, call, t)
  }

  method Answer(k: KernelHeap, request: Request) returns (ghost c: Option<HeapRuns.Call>)
    requires k.Valid()
    modifies k.heap, k.heap.repr
    modifies k.vmm`flat, k.vmm`tables, k.vmm.pmm`len, k.vmm.pmm.blocks, k.vmm.mmu`mem
    modifies k.vmm.user`len, k.vmm.user.blocks, k.vmm.kernel`len, k.vmm.kernel.blocks
    ensures k.Valid() && fresh(k.heap.repr - old(k.heap.repr)) && old(k.heap.repr) <= k.heap.repr
    ensures Happened(old(k.heap.Segs()), c, k.heap.Segs())
    ensures request.Return? ==> (c.Some? <==> request.index < old(|k.heap.hs|))
    ensures request.Claim? ==> (c.Some? <==> old(k.MayClaim(request.size)))
  {
    match request {
      case Claim(size) =>
        c := None;
        var may := ClaimCheck(k, size);
        if may {
          ghost var call := Claimed(k, size);
          c := Some(call);
        }
      case Return(index) =>
        c := AnswerReturn(k, index);
    }
  }

  method Claimed(k: KernelHeap, size: nat) returns (ghost call: HeapRuns.Call)
    requires k.Valid() && k.MayClaim(size)
    modifies k.heap, k.heap.repr
    modifies k.vmm`flat, k.vmm`tables, k.vmm.pmm`len, k.vmm.pmm.blocks, k.vmm.mmu`mem
    modifies k.vmm.user`len, k.vmm.user.blocks, k.vmm.kernel`len, k.vmm.kernel.blocks
    ensures k.Valid() && fresh(k.heap.repr - old(k.heap.repr)) && old(k.heap.repr) <= k.heap.repr
    ensures HeapRuns.CallStep(old(k.heap.Segs()), call, k.heap.Segs())
  {
    var p;
    ghost var g, arena;
    p, g, arena := k.Kmalloc(size);
    call := HeapRuns.Allocate(Align(size), arena);
  }

  method ClaimCheck(k: KernelHeap, size: nat) returns (may: bool)
    requires k.Valid()
    ensures may <==> k.MayClaim(size)
  {
    var current;
    ghost var i;
    current, i := k.heap.Walk(Align(size));
    var fits := current.status == Heap.FREE && (current.size == Align(size) || current.size >= Align(size) + HEADER);
    may := size + 7 + HEADER + 4095 < 0x1_0000_0000
      && (fits || (Roomy(Align(size)) && ArenaPages(Align(size)) <= FrameListSpec.FREE_ARRAY_SIZE));
  }

  method AnswerReturn(k: KernelHeap, index: nat) returns (ghost c: Option<HeapRuns.Call>)
    requires k.Valid()
    modifies k.heap, k.heap.repr
    ensures k.Valid() && k.heap.repr == old(k.heap.repr)
    ensures if index < old(|k.heap.hs|) then c == Some(HeapRuns.Release(index)) else c == None
    ensures Happened(old(k.heap.Segs()), c, k.heap.Segs())
  {
    c := None;
    var header := k.heap.Nth(index);
    if header != null {
      k.Kfree(header, index);
      c := Some(HeapRuns.Release(index));
    }
  }
}
