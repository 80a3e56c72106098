/** The kernel heap (kernel/arch/i386/heap.c) as a list of segments, each a 16-byte header and
    its payload, and what kmalloc and kfree guarantee.  Module Heap holds the linked list. */
module HeapSpec {
  import opened Extents
  import opened Markers

  const HEADER: nat := 16
  const FIRST_ARENA: nat := 0x1_0000

  datatype Seg = Seg(addr: nat, size: nat, free: bool) {
    function End(): nat { addr + HEADER + size }

    /** The address that kmalloc returns for this segment. */
    function Payload(): nat { addr + HEADER }
  }

  function Bytes(g: Seg): Run { Run(g.addr, HEADER + g.size) }

  /** The bytes of all segments, header and payload. */
  function Extent(s: seq<Seg>): (r: seq<Run>)
    ensures |r| == |s| && forall i :: 0 <= i < |s| ==> r[i] == Bytes(s[i])
  {
    if s == [] then [] else Extent(s[..|s| - 1]) + [Bytes(s[|s| - 1])]
  }

  predicate Aligned(g: Seg) { g.addr % 8 == 0 && g.size % 8 == 0 }

  /** The segments tile the arenas: no two overlap, and together they are the arena bytes.
      Addresses and sizes are multiples of 8. */
  ghost predicate Tiled(s: seq<Seg>, arenas: set<int>) {
    && AllDisjoint(Extent(s)) && Pages(Extent(s)) == arenas
    && forall i :: 0 <= i < |s| ==> Aligned(s[i])
  }

  // ----- the algorithms

  /** `(size + 7) & ~7` */
  function Align(size: nat): (r: nat)
    ensures r % 8 == 0 && size <= r < size + 8
  {
    (size + 7) / 8 * 8
  }

  predicate Fits(g: Seg, need: nat) {
    g.free && (g.size == need || g.size >= need + HEADER)
  }

  /** The walk of kmalloc: the first free segment of the exact size or with room for another
      header, or the list length. */
  function FirstFit(s: seq<Seg>, need: nat, i: nat): (r: nat)
    requires i <= |s|
    ensures i <= r <= |s|
    ensures r < |s| ==> Fits(s[r], need)
    ensures forall j :: i <= j < r ==> !Fits(s[j], need)
    decreases |s| - i
  {
    if i == |s| || Fits(s[i], need) then i else FirstFit(s, need, i + 1)
  }

  /** split_header: the top of segment `i` becomes a used segment of `need` bytes. */
  function Split(s: seq<Seg>, i: nat, need: nat): (r: seq<Seg>)
    requires i < |s| && s[i].size >= need + HEADER
    ensures |r| == |s| + 1
  {
    var rest := s[i].size - (need + HEADER);
    s[..i] + [Seg(s[i].addr, rest, true), Seg(s[i].addr + HEADER + rest, need, false)] + s[i + 1..]
  }

  /** `(need + 16 + 4095) & ~4095` */
  function ArenaSize(need: nat): (r: nat)
    ensures r % 4096 == 0 && need + HEADER <= r < need + HEADER + 4096
  {
    (need + HEADER + 4095) / 4096 * 4096
  }

  /** Does a new arena for this request have room for the two headers it gets? */
  predicate Roomy(need: nat) { ArenaSize(need) >= need + HEADER + HEADER }

  /** kmalloc on a request of `need` aligned bytes.  `arena` is the address of the block that
      alloc_block would give for a new arena, 0 if it would fail.  Returns the new list and the
      index of the segment handed out, the list length if the request fails. */
  function Kmalloc(s: seq<Seg>, need: nat, arena: nat): (r: (seq<Seg>, nat))
    requires FirstFit(s, need, 0) == |s| && arena != 0 ==> Roomy(need)
    ensures r.1 <= |r.0|
  {
    var i := FirstFit(s, need, 0);
    if i < |s| then
      if s[i].size == need then (s[i := s[i].(free := false)], i) else (Split(s, i, need), i + 1)
    else if arena == 0 then (s, |s|)
    else (Split(s + [Seg(arena, ArenaSize(need) - HEADER, true)], |s|, need), |s| + 1)
  }

  /** Segment `k` absorbs the next one. */
  function JoinNext(s: seq<Seg>, k: nat): (r: seq<Seg>)
    requires k + 1 < |s|
    ensures |r| == |s| - 1
  {
    s[..k] + [Seg(s[k].addr, s[k].size + HEADER + s[k + 1].size, s[k].free)] + s[k + 2..]
  }

  /** The first loop of kfree. */
  function MergeBack(s: seq<Seg>, k: nat): (r: (seq<Seg>, nat))
    requires k < |s|
    ensures r.1 < |r.0| <= |s|
    decreases k
  {
    if k > 0 && s[k - 1].free && s[k - 1].End() == s[k].addr then MergeBack(JoinNext(s, k - 1), k - 1)
    else (s, k)
  }

  /** The second loop of kfree. */
  function MergeAhead(s: seq<Seg>, k: nat): (r: seq<Seg>)
    requires k < |s|
    ensures k < |r| <= |s|
    decreases |s|
  {
    if k + 1 < |s| && s[k + 1].free && s[k].End() == s[k + 1].addr then MergeAhead(JoinNext(s, k), k)
    else s
  }

  function Kfree(s: seq<Seg>, k: nat): seq<Seg>
    requires k < |s|
  {
    var (t, j) := MergeBack(s[k := s[k].(free := true)], k);
    MergeAhead(t, j)
  }

  // ----- tiling

  lemma {:induction false} ExtentUpdate(s: seq<Seg>, k: nat)
    requires k < |s|
    ensures Extent(s[k := s[k].(free := false)]) == Extent(s)
    ensures Extent(s[k := s[k].(free := true)]) == Extent(s)
  {
  }

  /** Joining two neighbours, seen as a merge of their extents. */
  lemma {:induction false} JoinExtent(s: seq<Seg>, k: nat)
    requires k + 1 < |s| && s[k].End() == s[k + 1].addr
    ensures Adjacent(Extent(s)[k], Extent(s)[k + 1])
    ensures Extent(JoinNext(s, k)) == MergeAt(Extent(s), k + 1, k)
  {
  }

  lemma {:induction false} ExtentPositive(s: seq<Seg>)
    ensures AllPositive(Extent(s))
  {
  }

  lemma {:induction false} EightsAdd(a: nat, b: nat)
    requires a % 8 == 0 && b % 8 == 0
    ensures (a + HEADER + b) % 8 == 0
  {
    var x, y := a / 8, b / 8;
    assert a == 8 * x && b == 8 * y;
    Eightfold(a + HEADER + b, x + 2 + y);
  }

  lemma {:induction false} Eightfold(a: int, x: int)
    requires a == 8 * x
    ensures a % 8 == 0
  {
  }

  lemma {:induction false} JoinAligned(s: seq<Seg>, k: nat)
    requires k + 1 < |s| && forall i :: 0 <= i < |s| ==> Aligned(s[i])
    ensures var r := JoinNext(s, k); forall i :: 0 <= i < |r| ==> Aligned(r[i])
  {
    var r := JoinNext(s, k);
    assert Aligned(s[k]) && Aligned(s[k + 1]);
    EightsAdd(s[k].size, s[k + 1].size);
    assert Aligned(r[k]);
    forall i | 0 <= i < |r| && i != k ensures Aligned(r[i]) {
      assert Aligned(s[if i < k then i else i + 1]);
    }
  }

  lemma {:induction false} JoinTiled(s: seq<Seg>, k: nat, arenas: set<int>)
    requires Tiled(s, arenas) && k + 1 < |s| && s[k].End() == s[k + 1].addr
    ensures Tiled(JoinNext(s, k), arenas)
  {
    JoinExtent(s, k);
    ExtentPositive(s);
    MergeKeepsPages(Extent(s), k + 1, k);
    MergeKeepsDisjoint(Extent(s), k + 1, k);
    JoinAligned(s, k);
  }

  lemma {:induction false} MergeBackTiled(s: seq<Seg>, k: nat, arenas: set<int>)
    requires Tiled(s, arenas) && k < |s|
    ensures Tiled(MergeBack(s, k).0, arenas)
    decreases k
  {
    if k > 0 && s[k - 1].free && s[k - 1].End() == s[k].addr {
      JoinTiled(s, k - 1, arenas);
      MergeBackTiled(JoinNext(s, k - 1), k - 1, arenas);
    }
  }

  lemma {:induction false} MergeAheadTiled(s: seq<Seg>, k: nat, arenas: set<int>)
    requires Tiled(s, arenas) && k < |s|
    ensures Tiled(MergeAhead(s, k), arenas)
    decreases |s|
  {
    if k + 1 < |s| && s[k + 1].free && s[k].End() == s[k + 1].addr {
      JoinTiled(s, k, arenas);
      MergeAheadTiled(JoinNext(s, k), k, arenas);
    }
  }

  /** kfree keeps the tiling. */
  lemma {:induction false} KfreeTiled(s: seq<Seg>, k: nat, arenas: set<int>)
    requires Tiled(s, arenas) && k < |s|
    ensures Tiled(Kfree(s, k), arenas)
  {
    var f := s[k := s[k].(free := true)];
    ExtentUpdate(s, k);
    MergeBackTiled(f, k, arenas);
    var (t, j) := MergeBack(f, k);
    MergeAheadTiled(t, j, arenas);
  }

  /** Splitting is undone by joining. */
  lemma {:induction false} SplitJoins(s: seq<Seg>, i: nat, need: nat)
    requires i < |s| && s[i].size >= need + HEADER && s[i].free
    ensures var r := Split(s, i, need); r[i].End() == r[i + 1].addr && JoinNext(r, i) == s
  {
  }

  /** The segment of `s` that a segment of the split list came from. */
  function Origin(i: nat, a: nat): nat { if a <= i then a else a - 1 }

  lemma {:induction false} SplitDisjoint(s: seq<Seg>, i: nat, need: nat, a: nat, b: nat)
    requires AllDisjoint(Extent(s)) && i < |s| && s[i].size >= need + HEADER && a < b <= |s|
    ensures Disjoint(Bytes(Split(s, i, need)[a]), Bytes(Split(s, i, need)[b]))
  {
    var x, y := Origin(i, a), Origin(i, b);
    if x != y {
      assert Disjoint(Extent(s)[x], Extent(s)[y]);
    }
  }

  lemma {:induction false} SplitTiled(s: seq<Seg>, i: nat, need: nat, arenas: set<int>)
    requires Tiled(s, arenas) && i < |s| && s[i].size >= need + HEADER && s[i].free && need % 8 == 0
    ensures Tiled(Split(s, i, need), arenas)
  {
    var r := Split(s, i, need);
    assert Pages(Extent(r)) == arenas by {
      SplitJoins(s, i, need);
      JoinExtent(r, i);
      MergeKeepsPages(Extent(r), i + 1, i);
    }
    forall a, b | 0 <= a < b < |r| ensures Disjoint(Extent(r)[a], Extent(r)[b]) {
      SplitDisjoint(s, i, need, a, b);
    }
    SplitAligned(s, i, need);
  }

  lemma {:induction false} SplitParts(s: seq<Seg>, i: nat, need: nat)
    requires i < |s| && s[i].size >= need + HEADER && need % 8 == 0 && Aligned(s[i])
    ensures var r := Split(s, i, need);
      Aligned(r[i]) && Aligned(r[i + 1]) && HandedOut(r[i + 1], need)
  {
    var rest := s[i].size - (need + HEADER);
    var x, y, z := s[i].size / 8, need / 8, s[i].addr / 8;
    assert s[i].size == 8 * x && need == 8 * y && s[i].addr == 8 * z;
    Eightfold(rest, x - y - 2);
    Eightfold(s[i].addr + HEADER + rest, z + x - y);
    Eightfold(s[i].addr + HEADER + rest + HEADER, z + x - y + 2);
  }

  lemma {:induction false} SplitAligned(s: seq<Seg>, i: nat, need: nat)
    requires i < |s| && s[i].size >= need + HEADER && need % 8 == 0
    requires forall j :: 0 <= j < |s| ==> Aligned(s[j])
    ensures var r := Split(s, i, need); forall j :: 0 <= j < |r| ==> Aligned(r[j])
  {
    var r := Split(s, i, need);
    SplitParts(s, i, need);
    forall j | 0 <= j < |r| && j != i && j != i + 1 ensures Aligned(r[j]) {
      assert Aligned(s[Origin(i, j)]);
    }
  }

  lemma {:induction false} AddArena(s: seq<Seg>, g: Seg, arenas: set<int>)
    requires Tiled(s, arenas) && g.addr % 8 == 0 && g.size % 8 == 0 && Span(Bytes(g)) !! arenas
    ensures Tiled(s + [g], arenas + Span(Bytes(g)))
  {
    var r, x := Extent(s), Bytes(g);
    assert (s + [g])[..|s|] == s;
    assert Extent(s + [g]) == InsertAt(r, |s|, x);
    ExtentPositive(s);
    DisjointPages(x, r);
    InsertDisjoint(r, |s|, x);
    PagesInsert(r, |s|, x);
  }

  /** The arena bytes after kmalloc: a new arena is added only when no free segment fits. */
  ghost function ArenasAfter(s: seq<Seg>, need: nat, arena: nat, arenas: set<int>): set<int> {
    if FirstFit(s, need, 0) == |s| && arena != 0 then arenas + Span(Run(arena, ArenaSize(need))) else arenas
  }

  lemma {:induction false} GrowTiled(s: seq<Seg>, need: nat, arena: nat, arenas: set<int>)
    requires Tiled(s, arenas) && need % 8 == 0 && arena % 8 == 0
    requires Roomy(need) && Span(Run(arena, ArenaSize(need))) !! arenas
    ensures Tiled(Split(s + [Seg(arena, ArenaSize(need) - HEADER, true)], |s|, need),
                  arenas + Span(Run(arena, ArenaSize(need))))
  {
    var g := Seg(arena, ArenaSize(need) - HEADER, true);
    AddArena(s, g, arenas);
    SplitTiled(s + [g], |s|, need, arenas + Span(Bytes(g)));
  }

  /** kmalloc keeps the tiling. */
  lemma {:induction false} KmallocTiled(s: seq<Seg>, need: nat, arena: nat, arenas: set<int>)
    requires Tiled(s, arenas) && need % 8 == 0 && arena % 8 == 0
    requires FirstFit(s, need, 0) == |s| && arena != 0 ==>
      Roomy(need) && Span(Run(arena, ArenaSize(need))) !! arenas
    ensures Tiled(Kmalloc(s, need, arena).0, ArenasAfter(s, need, arena, arenas))
  {
    var i := FirstFit(s, need, 0);
    if i < |s| {
      if s[i].size == need {
        ExtentUpdate(s, i);
      } else {
        SplitTiled(s, i, need, arenas);
      }
    } else if arena != 0 {
      GrowTiled(s, need, arena, arenas);
    }
  }

  lemma {:induction false} ArenaAligned(need: nat, arena: nat)
    requires arena % 8 == 0
    ensures Aligned(Seg(arena, ArenaSize(need) - HEADER, true))
  {
    var pages := (need + HEADER + 4095) / 4096;
    Eights(pages);
    assert ArenaSize(need) == pages * 4096;
  }

  lemma {:induction false} Eights(pages: nat)
    ensures pages * 4096 % 8 == 0
    ensures pages > 0 ==> pages * 4096 >= HEADER && (pages * 4096 - HEADER) % 8 == 0
  {
    Eightfold(pages * 4096, 512 * pages);
    Eightfold(pages * 4096 - HEADER, 512 * pages - 2);
  }

  /** A segment as kmalloc promises it: the aligned size, marked used, payload at a multiple
      of 8. */
  predicate HandedOut(g: Seg, need: nat) {
    g.size == need && !g.free && g.Payload() % 8 == 0
  }

  /** kmalloc hands out such a segment. */
  lemma {:induction false} KmallocHandsOut(s: seq<Seg>, need: nat, arena: nat, arenas: set<int>)
    requires Tiled(s, arenas) && need % 8 == 0 && arena % 8 == 0
    requires FirstFit(s, need, 0) == |s| && arena != 0 ==> Roomy(need)
    ensures var (t, k) := Kmalloc(s, need, arena); k < |t| ==> HandedOut(t[k], need)
  {
    var i := FirstFit(s, need, 0);
    if i < |s| {
      assert Aligned(s[i]);
      if s[i].size != need {
        SplitParts(s, i, need);
      }
    } else if arena != 0 {
      ArenaAligned(need, arena);
      SplitParts(s + [Seg(arena, ArenaSize(need) - HEADER, true)], |s|, need);
    }
  }

  /** kmalloc fails exactly when no free segment has the size or 16 bytes more, and no block of
      pages is to be had. */
  lemma {:induction false} KmallocFails(s: seq<Seg>, need: nat, arena: nat)
    requires FirstFit(s, need, 0) == |s| && arena != 0 ==> Roomy(need)
    ensures var (t, k) := Kmalloc(s, need, arena);
      k == |t| <==>
      arena == 0 && forall i :: 0 <= i < |s| && s[i].free ==> s[i].size != need && s[i].size < need + HEADER
  {
    var i := FirstFit(s, need, 0);
    if i == |s| {
      forall j | 0 <= j < |s| && s[j].free ensures s[j].size != need && s[j].size < need + HEADER {
        assert !Fits(s[j], need);
      }
    }
  }

  /** In a tiled heap a payload overlaps no other segment, neither its header nor its payload. */
  lemma {:induction false} PayloadsApart(s: seq<Seg>, arenas: set<int>, i: nat, j: nat)
    requires Tiled(s, arenas) && i < |s| && j < |s| && i != j
    ensures s[i].End() <= s[j].addr || s[j].End() <= s[i].addr
    ensures s[i].Payload() != s[j].Payload()
  {
    assert if i < j then Disjoint(Extent(s)[i], Extent(s)[j]) else Disjoint(Extent(s)[j], Extent(s)[i]);
  }

  /** The payload begins right behind the 16 bytes of its header and ends with its segment, and no
      byte of it belongs to the header of any segment. */
  ghost predicate ClearOfHeaders(t: seq<Seg>, g: Seg, p: nat) {
    && p == g.addr + 16 && p + g.size == g.End()
    && forall i :: 0 <= i < |t| ==> p + g.size <= t[i].addr || t[i].addr + 16 <= p
  }

  lemma {:induction false} PayloadClear(t: seq<Seg>, arenas: set<int>, k: nat)
    requires Tiled(t, arenas) && k < |t|
    ensures ClearOfHeaders(t, t[k], t[k].addr + 16)
  {
    forall i | 0 <= i < |t| && i != k ensures t[k].End() <= t[i].addr || t[i].End() <= t[k].addr {
      PayloadsApart(t, arenas, k, i);
    }
  }

  /** Where the payload ends: at the end of the first free segment that fits, or of the new arena. */
  predicate OnTop(s: seq<Seg>, need: nat, arena: nat, p: nat) {
    var i := FirstFit(s, need, 0);
    p + need == if i < |s| then s[i].addr + 16 + s[i].size else arena + ArenaSize(need)
  }

  lemma {:induction false} KmallocOnTop(s: seq<Seg>, need: nat, arena: nat)
    requires FirstFit(s, need, 0) == |s| && arena != 0 ==> Roomy(need)
    ensures var (t, k) := Kmalloc(s, need, arena); k < |t| ==> OnTop(s, need, arena, t[k].addr + 16)
  {
  }

  /** For example right after heap_init: the payload is the top of the arena, and its header and the
      free rest lie below it. */
  lemma {:induction false} FirstRequest(base: nat, need: nat)
    requires need + 32 <= 0x1_0000
    ensures Kmalloc([Seg(base, 0xFFF0, true)], need, 0) ==
      ([Seg(base, 0xFFE0 - need, true), Seg(base + 0xFFF0 - need, need, false)], 1)
  {
    var s := [Seg(base, 0xFFF0, true)];
    assert Fits(s[0], need) && FirstFit(s, need, 0) == 0;
    assert Split(s, 0, need) == [Seg(base, 0xFFE0 - need, true), Seg(base + 0xFFF0 - need, need, false)];
  }

  // ----- live segments are left alone

  ghost function Live(s: seq<Seg>): set<Seg> {
    set i | 0 <= i < |s| && !s[i].free :: s[i]
  }

  lemma {:induction false} JoinLive(s: seq<Seg>, k: nat)
    requires k + 1 < |s| && s[k].free && s[k + 1].free
    ensures Live(JoinNext(s, k)) == Live(s)
  {
    var r := JoinNext(s, k);
    forall i | 0 <= i < |s| && !s[i].free ensures s[i] in Live(r) {
      assert r[if i < k then i else i - 1] == s[i];
    }
  }

  lemma {:induction false} MergeBackLive(s: seq<Seg>, k: nat)
    requires k < |s| && s[k].free
    ensures var (t, j) := MergeBack(s, k); Live(t) == Live(s) && t[j].free
    decreases k
  {
    if k > 0 && s[k - 1].free && s[k - 1].End() == s[k].addr {
      JoinLive(s, k - 1);
      MergeBackLive(JoinNext(s, k - 1), k - 1);
    }
  }

  lemma {:induction false} MergeAheadLive(s: seq<Seg>, k: nat)
    requires k < |s| && s[k].free
    ensures Live(MergeAhead(s, k)) == Live(s)
    decreases |s|
  {
    if k + 1 < |s| && s[k + 1].free && s[k].End() == s[k + 1].addr {
      JoinLive(s, k);
      MergeAheadLive(JoinNext(s, k), k);
    }
  }

  /** kfree ends the life of exactly one segment; no other live segment moves or changes size. */
  lemma {:induction false} KfreeLive(s: seq<Seg>, k: nat, arenas: set<int>)
    requires Tiled(s, arenas) && k < |s|
    ensures Live(Kfree(s, k)) == Live(s) - {s[k]}
  {
    var f := s[k := s[k].(free := true)];
    var (t, j) := MergeBack(f, k);
    MergeBackLive(f, k);
    MergeAheadLive(t, j);
    forall i | 0 <= i < |s| && i != k ensures s[i] != s[k] {
      PayloadsApart(s, arenas, i, k);
    }
    forall i | 0 <= i < |s| && !s[i].free && i != k ensures s[i] in Live(f) {
      assert f[i] == s[i];
    }
  }

  /** kmalloc brings exactly one segment to life; no other live segment moves or changes size. */
  lemma {:induction false} KmallocLive(s: seq<Seg>, need: nat, arena: nat)
    requires FirstFit(s, need, 0) == |s| && arena != 0 ==> Roomy(need)
    ensures var (t, k) := Kmalloc(s, need, arena);
      Live(t) == Live(s) + (if k < |t| then {t[k]} else {})
  {
    var (t, k) := Kmalloc(s, need, arena);
    var i := FirstFit(s, need, 0);
    var was := if i < |s| then s else if arena == 0 then s else s + [Seg(arena, ArenaSize(need) - HEADER, true)];
    if |t| == |was| {
      forall j | 0 <= j < |s| && !s[j].free ensures s[j] in Live(t) {
        assert t[j] == s[j];
      }
    } else {
      forall j | 0 <= j < |s| && !s[j].free ensures s[j] in Live(t) {
        assert t[if j < k then j else j + 1] == s[j];
      }
      forall j | 0 <= j < |t| && !t[j].free && j != k ensures t[j] in Live(s) {
        assert t[j] == s[if j < k then j else j - 1];
      }
    }
  }

  // ----- one arena

  /** The whole list lies in one arena in address order without gaps, and no two neighbours are
      both free. */
  ghost predicate OneArena(s: seq<Seg>, base: nat, bytes: nat) {
    && s != [] && s[0].addr == base && s[|s| - 1].End() == base + bytes
    && (forall i :: 0 <= i < |s| - 1 ==> s[i].End() == s[i + 1].addr)
    && forall i :: 0 <= i < |s| - 1 ==> !(s[i].free && s[i + 1].free)
  }

  /** Whenever nothing is live, the first arena is again one free segment. */
  lemma {:induction false} NothingLive(s: seq<Seg>, base: nat, bytes: nat)
    requires OneArena(s, base, bytes) && Live(s) == {}
    ensures bytes >= HEADER && s == [Seg(base, bytes - HEADER, true)]
  {
    forall i | 0 <= i < |s| ensures s[i].free {
      assert s[i] !in Live(s);
    }
    var k := if |s| >= 2 then 1 else 0;
    assert s[0].free && s[k].free;
  }

  lemma {:induction false} KmallocOneArena(s: seq<Seg>, need: nat, arena: nat, base: nat, bytes: nat)
    requires OneArena(s, base, bytes) && (FirstFit(s, need, 0) < |s| || arena == 0)
    ensures OneArena(Kmalloc(s, need, arena).0, base, bytes)
  {
    var i := FirstFit(s, need, 0);
    if i < |s| && s[i].size != need {
      var t := Split(s, i, need);
      forall j | 0 <= j < |t| - 1
        ensures t[j].End() == t[j + 1].addr && !(t[j].free && t[j + 1].free)
      {
        if j < i {
          assert s[j].End() == s[j + 1].addr && !(s[j].free && s[j + 1].free);
        } else if j > i + 1 {
          assert s[j - 1].End() == s[j].addr && !(s[j - 1].free && s[j].free);
        } else if j == i + 1 {
          assert s[i].End() == s[i + 1].addr;
        }
      }
    }
  }

  /** After a segment is marked free, kfree has at most one neighbour on each side to merge. */
  lemma {:induction false} KfreeOneArena(s: seq<Seg>, k: nat, base: nat, bytes: nat)
    requires OneArena(s, base, bytes) && k < |s|
    ensures OneArena(Kfree(s, k), base, bytes)
  {
    var f := s[k := s[k].(free := true)];
    var (t, j) := MergeBack(f, k);
    BackOneArena(s, k, base, bytes);
    AheadOneArena(t, j, base, bytes);
  }

  /** Like OneArena, but segment `k` may have a free neighbour after it. */
  ghost predicate AlmostOneArena(s: seq<Seg>, k: nat, base: nat, bytes: nat) {
    && k < |s| && s[k].free && s[0].addr == base && s[|s| - 1].End() == base + bytes
    && (forall i :: 0 <= i < |s| - 1 ==> s[i].End() == s[i + 1].addr)
    && forall i :: 0 <= i < |s| - 1 && i != k ==> !(s[i].free && s[i + 1].free)
  }

  lemma {:induction false} JoinChain(s: seq<Seg>, k: nat)
    requires k + 1 < |s| && forall i :: 0 <= i < |s| - 1 ==> s[i].End() == s[i + 1].addr
    ensures var g := JoinNext(s, k);
      g[0].addr == s[0].addr && g[|g| - 1].End() == s[|s| - 1].End() &&
      forall i :: 0 <= i < |g| - 1 ==> g[i].End() == g[i + 1].addr
  {
    var g := JoinNext(s, k);
    assert s[k].End() == s[k + 1].addr;
    forall i | 0 <= i < |g| - 1 ensures g[i].End() == g[i + 1].addr {
      assert if i < k then s[i].End() == s[i + 1].addr else s[i + 1].End() == s[i + 2].addr;
    }
  }

  lemma {:induction false} BackOneArena(s: seq<Seg>, k: nat, base: nat, bytes: nat)
    requires OneArena(s, base, bytes) && k < |s|
    ensures var (t, j) := MergeBack(s[k := s[k].(free := true)], k); AlmostOneArena(t, j, base, bytes)
  {
    var f := s[k := s[k].(free := true)];
    forall i | 0 <= i < |s| - 1 ensures f[i].End() == f[i + 1].addr {
      assert s[i].End() == s[i + 1].addr;
    }
    if k > 0 {
      assert f[k - 1].End() == f[k].addr && !(s[k - 1].free && s[k].free);
    }
    if k > 0 && f[k - 1].free {
      var g := JoinNext(f, k - 1);
      JoinChain(f, k - 1);
      BackNoPairs(s, k);
      MergeBackStops(g, k - 1);
    }
  }

  lemma {:induction false} MergeBackStops(s: seq<Seg>, k: nat)
    requires k < |s| && (k > 0 ==> !s[k - 1].free)
    ensures MergeBack(s, k) == (s, k)
  {
  }

  lemma {:induction false} BackNoPairs(s: seq<Seg>, k: nat)
    requires 0 < k < |s| && s[k - 1].free
    requires forall i :: 0 <= i < |s| - 1 ==> !(s[i].free && s[i + 1].free)
    ensures var g := JoinNext(s[k := s[k].(free := true)], k - 1);
      (k >= 2 ==> !g[k - 2].free) &&
      forall i :: 0 <= i < |g| - 1 && i != k - 1 ==> !(g[i].free && g[i + 1].free)
  {
    var g := JoinNext(s[k := s[k].(free := true)], k - 1);
    if k >= 2 {
      assert !s[k - 2].free;
      assert g[k - 2] == s[k - 2];
    }
    forall i | 0 <= i < |g| - 1 && i != k - 1 ensures !(g[i].free && g[i + 1].free) {
      assert if i < k - 1 then !(s[i].free && s[i + 1].free) else !(s[i + 1].free && s[i + 2].free);
    }
  }

  lemma {:induction false} AheadOneArena(s: seq<Seg>, k: nat, base: nat, bytes: nat)
    requires AlmostOneArena(s, k, base, bytes)
    ensures OneArena(MergeAhead(s, k), base, bytes)
  {
    if k + 1 < |s| {
      assert s[k].End() == s[k + 1].addr;
    }
    if k + 1 < |s| && s[k + 1].free {
      var g := JoinNext(s, k);
      JoinChain(s, k);
      AheadNoPairs(s, k);
      MergeAheadStops(g, k);
    }
  }

  lemma {:induction false} MergeAheadStops(s: seq<Seg>, k: nat)
    requires k < |s| && (k + 1 < |s| ==> !s[k + 1].free)
    ensures MergeAhead(s, k) == s
  {
  }

  lemma {:induction false} AheadNoPairs(s: seq<Seg>, k: nat)
    requires k + 1 < |s| && s[k].free && s[k + 1].free
    requires forall i :: 0 <= i < |s| - 1 && i != k ==> !(s[i].free && s[i + 1].free)
    ensures var g := JoinNext(s, k);
      (k + 1 < |g| ==> !g[k + 1].free) &&
      forall i :: 0 <= i < |g| - 1 ==> !(g[i].free && g[i + 1].free)
  {
    var g := JoinNext(s, k);
    if k + 2 < |s| {
      assert !(s[k + 1].free && s[k + 2].free);
      assert g[k + 1] == s[k + 2];
    }
    forall i | 0 <= i < |g| - 1 ensures !(g[i].free && g[i + 1].free) {
      assert i < k ==> !(s[i].free && s[i + 1].free);
      assert i > k ==> !(s[i + 1].free && s[i + 2].free);
    }
  }

  // ----- when growing works

  /** The two headers that kmalloc writes into a fresh arena, computed in 32-bit arithmetic: the
      size left in the first, and the address of the second. */
  function GrownSize(need: nat): nat {
    (ArenaSize(need) - HEADER - (need + HEADER)) % 0x1_0000_0000
  }

  function GrownHeader(arena: nat, need: nat): nat {
    (arena + HEADER + GrownSize(need)) % 0x1_0000_0000
  }

  /** The fresh arena is tiled by the two segments exactly when the page round-up leaves room for
      a second header.  With less room the size of the first underflows. */
  lemma {:induction false} GrowthTiles(arena: nat, need: nat)
    requires need % 8 == 0 && arena + ArenaSize(need) <= 0x1_0000_0000
    ensures
      GrownHeader(arena, need) == arena + HEADER + GrownSize(need) &&
      GrownHeader(arena, need) + HEADER + need == arena + ArenaSize(need)
      <==> (need + HEADER) % 4096 != 0 && (need + HEADER) % 4096 != 4088
  {
    RoomyExactly(need);
  }

  lemma {:induction false} RoomyExactly(need: nat)
    requires need % 8 == 0
    ensures Roomy(need) <==> (need + HEADER) % 4096 != 0 && (need + HEADER) % 4096 != 4088
  {
    var x, y := need + HEADER, need / 8;
    var q, r := x / 4096, x % 4096;
    assert need == 8 * y;
    Eightfold(x, y + 2);
    RoundUp(x, q, r);
    MultipleOf8(x, q, r);
    RoomLeft(q, r);
    assert ArenaSize(need) == (x + 4095) / 4096 * 4096;
  }

  lemma {:induction false} RoomLeft(q: nat, r: nat)
    requires r < 4096
    ensures (if r == 0 then q else q + 1) * 4096 >= q * 4096 + r + HEADER <==> 0 < r <= 4080
  {
  }

  lemma {:induction false} RoundUp(x: nat, q: nat, r: nat)
    requires x == q * 4096 + r && r < 4096
    ensures (x + 4095) / 4096 == if r == 0 then q else q + 1
  {
  }

  lemma {:induction false} MultipleOf8(x: nat, q: nat, r: nat)
    requires x == q * 4096 + r && r < 4096 && x % 8 == 0
    ensures r <= 4080 <==> r != 4088
  {
    var y := x / 8;
    assert x == 8 * y;
    Eightfold(r, y - 512 * q);
  }

  /** A request for 4080 bytes when the first arena is used up: no free segment fits, the new arena
      is one page, the first size becomes 2^32 - 16 and the second header falls onto the first. */
  lemma {:induction false} GrowthUnderflows(base: nat, arena: nat)
    requires arena < 0x1_0000_0000
    ensures var s := Kmalloc([Seg(base, FIRST_ARENA - HEADER, true)], FIRST_ARENA - HEADER, 0).0;
      s == [Seg(base, FIRST_ARENA - HEADER, false)] && FirstFit(s, 4080, 0) == |s| && !Roomy(4080)
    ensures GrownSize(4080) == 0xFFFF_FFF0 && GrownHeader(arena, 4080) == arena
  {
    var s := [Seg(base, FIRST_ARENA - HEADER, true)];
    assert FirstFit(s, FIRST_ARENA - HEADER, 0) == 0;
    assert !Fits(s[0 := s[0].(free := false)][0], 4080);
  }

  // ----- for the linked list

  lemma {:induction false} FirstTiled(arena: nat)
    requires arena % 4096 == 0 && 0 < arena && arena + FIRST_ARENA <= 0x1_0000_0000
    ensures Tiled([Seg(arena, FIRST_ARENA - HEADER, true)], Span(Run(arena, FIRST_ARENA)))
    ensures forall b :: b in Span(Run(arena, FIRST_ARENA)) ==> 0 < b < 0x1_0000_0000
    ensures OneArena([Seg(arena, FIRST_ARENA - HEADER, true)], arena, FIRST_ARENA)
  {
    var s := [Seg(arena, FIRST_ARENA - HEADER, true)];
    assert Extent(s) == InsertAt([], 0, Run(arena, FIRST_ARENA));
    PagesInsert([], 0, Run(arena, FIRST_ARENA));
    assert Aligned(s[0]) by {
      assert arena == 8 * (512 * (arena / 4096));
    }
  }

  /** A block of whole pages that no arena overlaps yet. */
  ghost predicate FreshArena(arenas: set<int>, arena: nat, need: nat) {
    && arena % 4096 == 0 && 0 < arena && arena + ArenaSize(need) <= 0x1_0000_0000
    && Span(Run(arena, ArenaSize(need))) !! arenas
  }

  /** The invariant of the heap, behind a marker. */
  ghost predicate GoodHeap(s: seq<Seg>, arenas: set<int>) {
    forall i {:trigger Ask(Invariant, i)} :: Ask(Invariant, i) ==>
      Tiled(s, arenas) && forall b :: b in arenas ==> 0 < b < 0x1_0000_0000
  }

  /** What a call of kmalloc has done, when it returns `p`, the payload of segment `g`, or 0.  The
      marker keeps the definition out of proofs that do not ask for it. */
  ghost predicate Served(s: seq<Seg>, arenas: set<int>, need: nat, arena: nat,
                         t: seq<Seg>, arenas': set<int>, p: nat, g: Seg)
  {
    forall i {:trigger Ask(Steps, i)} :: Ask(Steps, i) ==>
      && (FirstFit(s, need, 0) == |s| && arena != 0 ==> Roomy(need))
      && t == Kmalloc(s, need, arena).0 && arenas' == ArenasAfter(s, need, arena, arenas)
      && (p == 0 <==> arena == 0 && FirstFit(s, need, 0) == |s|)
      && (p == 0 ==> t == s)
      && (p != 0 ==> g in t && HandedOut(g, need) && Live(t) == Live(s) + {g})
      && (p != 0 ==> p == g.Payload() && ClearOfHeaders(t, g, p) && OnTop(s, need, arena, p))
  }

  /** Its list, and what it returns. */
  ghost predicate Answered(s: seq<Seg>, need: nat, arena: nat, t: seq<Seg>, p: nat, g: Seg)
    requires FirstFit(s, need, 0) == |s| && arena != 0 ==> Roomy(need)
  {
    var r := Kmalloc(s, need, arena);
    t == r.0 && (r.1 < |t| ==> g == t[r.1] && p == g.Payload()) && (r.1 == |t| ==> p == 0)
  }

  /** All that kmalloc does to a good heap. */
  lemma {:induction false} KmallocReady(s: seq<Seg>, arenas: set<int>, need: nat, arena: nat, t: seq<Seg>, p: nat, g: Seg)
    requires GoodHeap(s, arenas) && need % 8 == 0
    requires FirstFit(s, need, 0) == |s| && arena != 0 ==> FreshArena(arenas, arena, need) && Roomy(need)
    requires Answered(s, need, arena, t, p, g)
    ensures var arenas' := ArenasAfter(s, need, arena, arenas);
      GoodHeap(t, arenas') && Served(s, arenas, need, arena, t, arenas', p, g)
  {
    assert Ask(Invariant, 0) && Ask(Steps, 0);
    var a := if FirstFit(s, need, 0) == |s| then arena else 0;
    assert Kmalloc(s, need, a) == Kmalloc(s, need, arena);
    PageMultiple(a);
    KmallocTiled(s, need, a, arenas);
    KmallocHandsOut(s, need, a, arenas);
    KmallocLive(s, need, arena);
    KmallocOnTop(s, need, arena);
    var k := Kmalloc(s, need, arena).1;
    if k < |t| {
      PayloadClear(t, ArenasAfter(s, need, arena, arenas), k);
    }
  }

  lemma {:induction false} PageMultiple(a: nat)
    ensures a % 4096 == 0 ==> a % 8 == 0
  {
    Eights(a / 4096);
    assert a % 4096 == 0 ==> a == a / 4096 * 4096;
  }

  lemma {:induction false} KfreeReady(s: seq<Seg>, arenas: set<int>, k: nat)
    requires GoodHeap(s, arenas) && k < |s|
    ensures GoodHeap(Kfree(s, k), arenas) && Live(Kfree(s, k)) == Live(s) - {s[k]}
  {
    assert Ask(Invariant, 0);
    KfreeTiled(s, k, arenas);
    KfreeLive(s, k, arenas);
  }
}
