/** The kernel heap (kernel/arch/i386/heap.c): a doubly linked list of segment headers. */
module Heap {
  import opened Extents
  import opened HeapSpec
  import opened Markers

  /** The two values of a header's status word. */
  const FREE: nat := 0x4652_4545
  const USED: nat := 0x5553_4544

  class Header {
    /** Where the header is in memory; its payload follows it. */
    const addr: nat
    var size: nat
    var status: nat
    var next: Header?
    var prev: Header?

    constructor (addr: nat, size: nat, status: nat)
      ensures this.addr == addr && this.size == size && this.status == status
      ensures next == null && prev == null
    {
      this.addr, this.size, this.status := addr, size, status;
      next, prev := null, null;
    }
  }

  /** The headers are linked in this order, both ways. */
  ghost predicate Chain(hs: seq<Header>)
    reads hs
  {
    && (forall i, j :: 0 <= i < j < |hs| ==> hs[i] != hs[j])
    && (forall i {:trigger hs[i].next} :: 0 <= i < |hs| ==>
          hs[i].next == if i + 1 < |hs| then hs[i + 1] else null)
    && (forall i {:trigger hs[i].prev} :: 0 <= i < |hs| ==>
          hs[i].prev == if i > 0 then hs[i - 1] else null)
    && (forall i {:trigger hs[i].status} :: 0 <= i < |hs| ==> hs[i].status == FREE || hs[i].status == USED)
  }

  ghost function SegOf(h: Header): Seg
    reads h`size, h`status
  {
    Seg(h.addr, h.size, h.status == FREE)
  }

  /** The headers as segments. */
  ghost function SegsOf(hs: seq<Header>): (s: seq<Seg>)
    reads hs`size, hs`status
    ensures |s| == |hs| && forall i :: 0 <= i < |hs| ==> s[i] == SegOf(hs[i])
  {
    if hs == [] then [] else SegsOf(hs[..|hs| - 1]) + [SegOf(hs[|hs| - 1])]
  }

  class List {
    var start: Header
    /** The headers in list order. */
    ghost var hs: seq<Header>
    /** All headers there have been. */
    ghost var repr: set<Header>

    ghost predicate Linked()
      reads this`start, this`hs, this`repr, repr
    {
      hs != [] && start == hs[0] && (forall i :: 0 <= i < |hs| ==> hs[i] in repr) && Chain(hs)
    }

    ghost function Segs(): (s: seq<Seg>)
      reads this`hs, hs`size, hs`status
      ensures |s| == |hs| && forall i :: 0 <= i < |hs| ==> s[i] == SegOf(hs[i])
    {
      SegsOf(hs)
    }

    /** The bytes of all arenas. */
    ghost var arenas: set<int>

    ghost predicate Valid()
      reads this, repr
    {
      Linked() && GoodHeap(Segs(), arenas)
    }

    /** heap_init: one free segment in an arena of 16 pages. */
    constructor (arena: nat)
      requires arena % 4096 == 0 && 0 < arena && arena + FIRST_ARENA <= 0x1_0000_0000
      ensures Valid() && fresh(repr)
      ensures Segs() == [Seg(arena, 0xFFF0, true)] && arenas == Span(Run(arena, FIRST_ARENA))
    {
      var header := new Header(arena, FIRST_ARENA - HEADER, FREE);
      start := header;
      hs := [header];
      repr := {header};
      arenas := Span(Run(arena, FIRST_ARENA));
      new;
      FirstTiled(arena);
      assert Segs() == [Seg(arena, FIRST_ARENA - HEADER, true)];
    }

    /** Links `h` into the list behind header `i`. */
    method InsertAfter(h: Header, ghost i: nat)
      requires Linked() && i < |hs| && h !in hs && h.prev == hs[i] && h.next == hs[i].next
      requires h.status == FREE || h.status == USED
      modifies this`hs, this`repr, repr`next, repr`prev
      ensures Linked() && hs == InsertAt(old(hs), i + 1, h) && repr == old(repr) + {h}
    {
      if h.next != null {
        h.next.prev := h;
      }
      h.prev.next := h;
      hs := InsertAt(hs, i + 1, h);
      repr := repr + {h};
    }

    /** Takes the header behind header `i` out of the list. */
    method RemoveAfter(h: Header, ghost i: nat)
      requires Linked() && i + 1 < |hs| && h == hs[i]
      modifies this`hs, repr`next, repr`prev
      ensures Linked() && hs == RemoveAt(old(hs), i + 1)
    {
      var gone := h.next;
      h.next := gone.next;
      if gone.next != null {
        gone.next.prev := h;
      }
      hs := RemoveAt(hs, i + 1);
    }

    /** split_header: the top `size` bytes of a free segment become a used one. */
    method SplitHeader(header: Header, size: nat, ghost i: nat) returns (r: Header)
      requires Linked() && i < |hs| && hs[i] == header
      requires header.status == FREE && header.size >= size + HEADER
      modifies this`hs, this`repr, repr`next, repr`prev, header`size
      ensures Linked() && Segs() == Split(old(Segs()), i, size)
      ensures fresh(r) && hs == InsertAt(old(hs), i + 1, r) && r == hs[i + 1] && repr == old(repr) + {r}
    {
      ghost var s, was := Segs(), hs;
      header.size := header.size - (size + HEADER);
      r := new Header(header.addr + HEADER + header.size, size, USED);
      r.prev := header;
      r.next := header.next;
      InsertAfter(r, i);
      SplitSegs(was, hs, r, s, i, size);
    }

    /** Both merge loops of kfree: `header` takes in the segment behind it. */
    method Absorb(header: Header, ghost i: nat)
      requires Linked() && i + 1 < |hs| && header == hs[i]
      modifies this`hs, repr`next, repr`prev, header`size
      ensures Linked() && Segs() == JoinNext(old(Segs()), i)
      ensures hs == RemoveAt(old(hs), i + 1)
    {
      ghost var s, was := Segs(), hs;
      header.size := header.size + HEADER + header.next.size;
      RemoveAfter(header, i);
      JoinSegs(was, hs, s, i);
    }

    /** The walk of kmalloc, up to the header it uses or the last one. */
    method Walk(need: nat) returns (current: Header, ghost i: nat)
      requires Linked()
      ensures Walked(current, i, need)
    {
      current, i := start, 0;
      while true
        invariant i < |hs| && current == hs[i]
        invariant FirstFit(Segs(), need, 0) == FirstFit(Segs(), need, i)
        decreases |hs| - i
      {
        if current.status == FREE && (current.size == need || current.size >= need + HEADER) {
          return;
        }
        if current.next == null {
          return;
        }
        current := current.next;
        i := i + 1;
      }
    }

    /** The header at place `n` of the list, null when the list is shorter. */
    method Nth(n: nat) returns (h: Header?)
      requires Linked()
      ensures h == if n < |hs| then hs[n] else null
    {
      h := start;
      var i := 0;
      while h != null && i < n
        invariant i <= n && i <= |hs| && h == if i < |hs| then hs[i] else null
      {
        h := h.next;
        i := i + 1;
      }
    }

    method SetStatus(h: Header, status: nat, ghost i: nat)
      requires Linked() && i < |hs| && h == hs[i] && (status == FREE || status == USED)
      modifies h`status
      ensures Linked() && Segs() == old(Segs()[i := Segs()[i].(free := status == FREE)])
    {
      h.status := status;
    }

    /** A new arena as one free segment behind the last header. */
    method AddArena(current: Header, arena: nat, size: nat) returns (header: Header)
      requires Linked() && current == hs[|hs| - 1]
      modifies this`hs, this`repr, repr`next, repr`prev
      ensures Linked() && Segs() == old(Segs()) + [Seg(arena, size, true)]
      ensures fresh(header) && repr == old(repr) + {header} && hs == old(hs) + [header]
      ensures SegOf(header) == Seg(arena, size, true)
    {
      ghost var was, s := hs, Segs();
      header := new Header(arena, size, FREE);
      header.prev := current;
      header.next := current.next;
      InsertAfter(header, |was| - 1);
      assert SegsOf(was) == s;
      assert hs == was + [header];
      AppendSegs(was, header);
    }

    method Grow(current: Header, need: nat, arena: nat, size: nat) returns (next: Header)
      requires Linked() && current == hs[|hs| - 1] && size >= need + HEADER
      modifies this`hs, this`repr, repr`next, repr`prev
      ensures Linked() && fresh(repr - old(repr)) && old(repr) <= repr
      ensures Segs() == Split(old(Segs()) + [Seg(arena, size, true)], old(|hs|), need)
      ensures |hs| == old(|hs|) + 2 && next == hs[old(|hs|) + 1]
    {
      ghost var n := |hs|;
      var header := AddArena(current, arena, size);
      next := SplitHeader(header, need, n);
    }

    /** A free header that fits is used whole or split. */
    method TakeFrom(current: Header, need: nat, ghost i: nat) returns (p: nat, ghost g: Seg)
      requires Linked() && i < |hs| && current == hs[i] && Fits(SegOf(current), need)
      modifies this`hs, this`repr, repr`next, repr`prev, current`size, current`status
      ensures Linked() && fresh(repr - old(repr)) && old(repr) <= repr
      ensures Segs() == if old(current.size) == need then old(Segs()[i := Segs()[i].(free := false)])
                        else Split(old(Segs()), i, need)
      ensures var k := if old(current.size) == need then i else i + 1;
        k < |hs| && g == SegOf(hs[k]) && p == g.Payload()
    {
      if current.size == need {
        SetStatus(current, USED, i);
        return current.addr + HEADER, SegOf(current);
      }
      var next := SplitHeader(current, need, i);
      return next.addr + HEADER, SegOf(next);
    }

    /** kmalloc after its walk: a free header that fits, a new arena, or nothing. */
    method Serve(current: Header, ghost i: nat, need: nat, arena: nat) returns (p: nat, ghost g: Seg)
      requires Linked() && Walked(current, i, need)
      requires FirstFit(Segs(), need, 0) == |hs| && arena != 0 ==> Roomy(need)
      modifies this`hs, this`repr, repr`next, repr`prev, repr`size, repr`status
      ensures Linked() && fresh(repr - old(repr)) && old(repr) <= repr
      ensures Answered(old(Segs()), need, arena, Segs(), p, g)
    {
      p, g := 0, Seg(0, 0, true);
      if current.status == FREE && (current.size == need || current.size >= need + HEADER) {
        p, g := TakeFrom(current, need, i);
      } else if arena != 0 {
        var next := Grow(current, need, arena, ArenaSize(need) - HEADER);
        p, g := next.addr + HEADER, SegOf(next);
      }
    }

    /** What the walk has found. */
    ghost predicate Walked(current: Header, i: nat, need: nat)
      requires Linked()
      reads this, repr
    {
      var k := FirstFit(Segs(), need, 0);
      i == (if k < |hs| then k else |hs| - 1) && current == hs[i]
    }

    /** All of kmalloc after its walk.  `arena` is what alloc_block has returned for a new arena, 0
        for NULL: a fresh page-aligned block, in which the `next` word reads as NULL. */
    method Finish(current: Header, ghost i: nat, need: nat, arena: nat) returns (p: nat, ghost g: Seg)
      requires Valid() && Walked(current, i, need) && need % 8 == 0
      requires FirstFit(Segs(), need, 0) == |hs| && arena != 0 ==>
        FreshArena(arenas, arena, need) && Roomy(need)
      modifies this`hs, this`repr, this`arenas, repr`next, repr`prev, repr`size, repr`status
      ensures Valid() && fresh(repr - old(repr)) && old(repr) <= repr
      ensures arenas == old(ArenasAfter(Segs(), need, arena, arenas))
      ensures Served(old(Segs()), old(arenas), need, arena, Segs(), arenas, p, g)
    {
      ghost var s := Segs();
      p, g := Serve(current, i, need, arena);
      Account(s, need, arena, p, g);
    }

    /** The bytes of a new arena are added to the others. */
    ghost method Account(s: seq<Seg>, need: nat, arena: nat, p: nat, g: Seg)
      requires Linked() && GoodHeap(s, arenas) && need % 8 == 0
      requires FirstFit(s, need, 0) == |s| && arena != 0 ==> FreshArena(arenas, arena, need) && Roomy(need)
      requires Answered(s, need, arena, Segs(), p, g)
      modifies this`arenas
      ensures Valid() && arenas == old(ArenasAfter(s, need, arena, arenas))
      ensures Served(s, old(arenas), need, arena, Segs(), arenas, p, g)
    {
      ghost var t, more := Segs(), ArenasAfter(s, need, arena, arenas);
      assert GoodHeap(t, more) && Served(s, arenas, need, arena, t, more, p, g) by {
        KmallocReady(s, arenas, need, arena, t, p, g);
      }
      arenas := more;
      assert Segs() == t;
    }

    /** kmalloc, when `arena` is what alloc_block would return for a new arena. */
    method Kmalloc(size: nat, arena: nat) returns (p: nat, ghost g: Seg)
      requires Valid() && size + 7 + HEADER + 4095 < 0x1_0000_0000
      requires FirstFit(Segs(), Align(size), 0) == |hs| && arena != 0 ==>
        FreshArena(arenas, arena, Align(size)) && Roomy(Align(size))
      modifies this`hs, this`repr, this`arenas, repr`next, repr`prev, repr`size, repr`status
      ensures Valid() && fresh(repr - old(repr)) && old(repr) <= repr
      ensures Segs() == old(HeapSpec.Kmalloc(Segs(), Align(size), arena)).0
      ensures arenas == old(ArenasAfter(Segs(), Align(size), arena, arenas))
      ensures p != 0 ==>
        HandedOut(g, Align(size)) && Live(Segs()) == old(Live(Segs())) + {g} &&
        ClearOfHeaders(Segs(), g, p) && old(OnTop(Segs(), Align(size), arena, p))
      ensures p == 0 <==>
        arena == 0 && forall i :: 0 <= i < old(|hs|) ==> !Fits(old(Segs())[i], Align(size))
      ensures p == 0 ==> Segs() == old(Segs())
    {
      var current;
      ghost var i;
      var need := (size + 7) / 8 * 8;
      current, i := Walk(need);
      p, g := Finish(current, i, need, arena);
      assert Ask(Steps, 0);
    }

    /** The first loop of kfree, on free header `k`. */
    method MergeWithBefore(header: Header, ghost k: nat) returns (current: Header, ghost j: nat)
      requires Linked() && k < |hs| && hs[k] == header
      modifies this`hs, repr`next, repr`prev, repr`size
      ensures Linked()
      ensures (Segs(), j) == MergeBack(old(Segs()), k) && j < |hs| && current == hs[j]
    {
      current, j := header, k;
      var prev := current.prev;
      while prev != null && prev.status == FREE && prev.addr + HEADER + prev.size == current.addr
        invariant Linked() && j < |hs| && current == hs[j] && prev == current.prev
        invariant MergeBack(Segs(), j) == MergeBack(old(Segs()), k)
        decreases j
      {
        Absorb(prev, j - 1);
        current, j := prev, j - 1;
        prev := current.prev;
      }
    }

    /** The second loop of kfree. */
    method MergeWithAfter(current: Header, ghost j: nat)
      requires Linked() && j < |hs| && current == hs[j]
      modifies this`hs, repr`next, repr`prev, repr`size
      ensures Linked()
      ensures Segs() == MergeAhead(old(Segs()), j)
    {
      var next := current.next;
      while next != null && next.status == FREE && current.addr + HEADER + current.size == next.addr
        invariant Linked() && j < |hs| && current == hs[j] && next == current.next
        invariant MergeAhead(Segs(), j) == MergeAhead(old(Segs()), j)
        decreases |hs|
      {
        Absorb(current, j);
        next := current.next;
      }
    }

    /** kfree, on the header in front of the payload. */
    method Kfree(header: Header, ghost k: nat)
      requires Valid() && k < |hs| && hs[k] == header
      modifies this`hs, repr`next, repr`prev, repr`size, repr`status
      ensures Valid()
      ensures Segs() == HeapSpec.Kfree(old(Segs()), k)
      ensures Live(Segs()) == old(Live(Segs())) - {old(SegOf(header))}
    {
      if header.status != FREE && header.status != USED {
        return;
      }
      KfreeReady(Segs(), arenas, k);
      MakeFree(header, k);
    }

    method MakeFree(header: Header, ghost k: nat)
      requires Linked() && k < |hs| && hs[k] == header
      modifies this`hs, repr`next, repr`prev, repr`size, repr`status
      ensures Linked() && Segs() == HeapSpec.Kfree(old(Segs()), k)
    {
      SetStatus(header, FREE, k);
      var current;
      ghost var j;
      current, j := MergeWithBefore(header, k);
      MergeWithAfter(current, j);
    }
  }

  lemma AppendSegs(hs: seq<Header>, h: Header)
    ensures SegsOf(hs + [h]) == SegsOf(hs) + [SegOf(h)]
  {
    assert (hs + [h])[..|hs|] == hs;
  }

  /** The segments after a header was inserted and the one before it shrunk. */
  lemma SplitSegs(was: seq<Header>, hs: seq<Header>, r: Header, s: seq<Seg>, i: nat, size: nat)
    requires i < |was| == |s| && hs == InsertAt(was, i + 1, r)
    requires forall k :: 0 <= k < |s| && k != i ==> SegOf(was[k]) == s[k]
    requires s[i].size >= size + HEADER
    requires SegOf(was[i]) == Seg(s[i].addr, s[i].size - (size + HEADER), true)
    requires SegOf(r) == Seg(was[i].addr + HEADER + was[i].size, size, false)
    ensures SegsOf(hs) == Split(s, i, size)
  {
    var t := Split(s, i, size);
    forall k | 0 <= k < |hs| ensures SegsOf(hs)[k] == t[k] {
      assert SegsOf(hs)[k] == SegOf(hs[k]);
    }
  }

  lemma JoinSegs(was: seq<Header>, hs: seq<Header>, s: seq<Seg>, i: nat)
    requires i + 1 < |was| == |s| && hs == RemoveAt(was, i + 1)
    requires forall k :: 0 <= k < |s| && k != i ==> SegOf(was[k]) == s[k]
    requires SegOf(was[i]) == Seg(s[i].addr, s[i].size + HEADER + s[i + 1].size, s[i].free)
    ensures SegsOf(hs) == JoinNext(s, i)
  {
    var t := JoinNext(s, i);
    forall k | 0 <= k < |hs| ensures SegsOf(hs)[k] == t[k] {
      assert SegsOf(hs)[k] == SegOf(hs[k]);
    }
  }
}
