/** The free-list algorithms of kernel/arch/i386/vmm.c as functions on block lists, and what
    they guarantee.  Module FreeList holds the in-place versions. */
module FreeListSpec {
  import opened Extents

  /** check_lower: entry `k` sinks towards the end past larger entries.  Returns the new list
      and the new index of the entry. */
  function SinkDown(s: seq<Run>, k: nat): (r: (seq<Run>, nat))
    requires k < |s|
    ensures |r.0| == |s| && r.1 < |s|
    decreases |s| - k
  {
    if k + 1 < |s| && s[k].len < s[k + 1].len then
      SinkDown(s[k := s[k + 1]][k + 1 := s[k]], k + 1)
    else
      (s, k)
  }

  /** The first loop of check_upper: entry `k` rises towards the front past smaller entries. */
  function BubbleUp(s: seq<Run>, k: nat): (r: (seq<Run>, nat))
    requires k < |s|
    ensures |r.0| == |s| && r.1 < |s|
    decreases k
  {
    if k > 0 && s[k].len > s[k - 1].len then
      BubbleUp(s[k := s[k - 1]][k - 1 := s[k]], k - 1)
    else
      (s, k)
  }

  /** check_upper: bubble entry `k` up, join it into the first adjacent entry, and go on with
      the joined entry. */
  function CheckUpper(s: seq<Run>, k: nat): (r: seq<Run>)
    requires k < |s|
    ensures |r| <= |s|
    decreases |s|
  {
    var (t, j) := BubbleUp(s, k);
    var i := FirstAdjacent(t, j, 0);
    if i == |t| then t else CheckUpper(MergeAt(t, j, i), MergedIndex(j, i))
  }

  /** The scan of alloc_block, from entry `i - 1` down to the front: the first entry that is
      large enough, or the list length. */
  function BestFit(s: seq<Run>, size: nat, i: nat): (r: nat)
    requires i <= |s|
    ensures r < i || r == |s|
    ensures r < |s| ==> s[r].len >= size && forall j :: r < j < i ==> s[j].len < size
    ensures r == |s| ==> forall j :: 0 <= j < i ==> s[j].len < size
  {
    if i == 0 then |s| else if s[i - 1].len >= size then i - 1 else BestFit(s, size, i - 1)
  }

  predicate CanFit(s: seq<Run>, size: nat) {
    BestFit(s, size, |s|) < |s|
  }

  /** The block that alloc_block takes from. */
  function Source(s: seq<Run>, size: nat): Run
    requires CanFit(s, size)
  {
    s[BestFit(s, size, |s|)]
  }

  /** The first page that alloc_block hands out: the top end of the source block. */
  function Target(s: seq<Run>, size: nat): nat
    requires CanFit(s, size)
  {
    var b := Source(s, size);
    b.addr + (b.len - size)
  }

  /** The list while pages are being mapped, and the index of the shrunk block in it. */
  function Reserve(s: seq<Run>, size: nat): (r: (seq<Run>, nat))
    requires CanFit(s, size)
    ensures |r.0| == |s| && r.1 < |s|
  {
    var k := BestFit(s, size, |s|);
    SinkDown(s[k := Run(s[k].addr, s[k].len - size)], k)
  }

  /** The list after a completed allocation: a used-up block is dropped from the end. */
  function Commit(s: seq<Run>, k: nat): seq<Run>
    requires k < |s|
  {
    if s[k].len == 0 then s[..|s| - 1] else s
  }

  /** The list after a failed allocation: the block gets its pages back. */
  function Rollback(s: seq<Run>, k: nat, size: nat): seq<Run>
    requires k < |s|
  {
    CheckUpper(s[k := Run(s[k].addr, s[k].len + size)], k)
  }

  /** The entry that free_block extends when the array is full: scanning from the end, the
      first entry adjacent to the freed run; the list length if there is none. */
  function LastAdjacent(s: seq<Run>, x: Run, i: nat): (r: nat)
    requires i <= |s|
    ensures r < i || r == |s|
    ensures r < |s| ==> Adjacent(s[r], x) && forall j :: r < j < i ==> !Adjacent(s[j], x)
    ensures r == |s| ==> forall j :: 0 <= j < i ==> !Adjacent(s[j], x)
  {
    if i == 0 then |s| else if Adjacent(s[i - 1], x) then i - 1 else LastAdjacent(s, x, i - 1)
  }

  /** free_block's list update; the second component says whether it succeeded. */
  function Release(s: seq<Run>, x: Run, capacity: nat): (seq<Run>, bool)
  {
    if |s| < capacity then
      (CheckUpper(s + [x], |s|), true)
    else
      var i := LastAdjacent(s, x, |s|);
      if i == |s| then (s, false) else (CheckUpper(s[i := Join(s[i], x)], i), true)
  }

  // ----- sorting steps

  lemma InsertDescending(rest: seq<Run>, k: nat, x: Run)
    requires k <= |rest| && Descending(rest)
    requires forall i :: 0 <= i < k ==> rest[i].len >= x.len
    requires forall i :: k <= i < |rest| ==> rest[i].len <= x.len
    ensures Descending(InsertAt(rest, k, x))
  {
  }

  lemma {:induction false} BubbleUpShape(rest: seq<Run>, k: nat, x: Run)
    requires k <= |rest| && Descending(rest)
    requires forall i :: k <= i < |rest| ==> rest[i].len <= x.len
    ensures var (t, j) := BubbleUp(InsertAt(rest, k, x), k);
      j <= k && t == InsertAt(rest, j, x) && Descending(t) &&
      (forall i :: j <= i < k ==> rest[i].len < x.len) && (j > 0 ==> rest[j - 1].len >= x.len)
    decreases k
  {
    var s := InsertAt(rest, k, x);
    if k > 0 && s[k].len > s[k - 1].len {
      assert s[k := s[k - 1]][k - 1 := s[k]] == InsertAt(rest, k - 1, x);
      BubbleUpShape(rest, k - 1, x);
    } else {
      assert k > 0 ==> s[k - 1] == rest[k - 1];
      InsertDescending(rest, k, x);
    }
  }

  lemma {:induction false} SinkDownShape(rest: seq<Run>, k: nat, x: Run)
    requires k <= |rest| && Descending(rest)
    requires forall i :: 0 <= i < k ==> rest[i].len >= x.len
    ensures var (t, j) := SinkDown(InsertAt(rest, k, x), k);
      k <= j <= |rest| && t == InsertAt(rest, j, x) && Descending(t) &&
      (forall i :: k <= i < j ==> rest[i].len > x.len) && (j < |rest| ==> rest[j].len <= x.len)
    decreases |rest| - k
  {
    var s := InsertAt(rest, k, x);
    if k + 1 < |s| && s[k].len < s[k + 1].len {
      assert s[k := s[k + 1]][k + 1 := s[k]] == InsertAt(rest, k + 1, x);
      SinkDownShape(rest, k + 1, x);
    } else {
      assert k < |rest| ==> s[k + 1] == rest[k];
      InsertDescending(rest, k, x);
    }
  }

  lemma {:induction false} SinkDownMoves(s: seq<Run>, k: nat)
    requires k < |s|
    ensures var (t, j) := SinkDown(s, k); t[j] == s[k]
    decreases |s| - k
  {
    if k + 1 < |s| && s[k].len < s[k + 1].len {
      SinkDownMoves(s[k := s[k + 1]][k + 1 := s[k]], k + 1);
    }
  }

  // ----- check_upper restores the normal form

  lemma NoAdjacentIsApart(rest: seq<Run>, j: nat, x: Run)
    requires j <= |rest| && DisjointFrom(x, rest)
    requires FirstAdjacent(InsertAt(rest, j, x), j, 0) == |rest| + 1
    ensures ApartFrom(x, rest)
  {
    var t := InsertAt(rest, j, x);
    forall i | 0 <= i < |rest| ensures Apart(x, rest[i]) {
      var m := if i < j then i else i + 1;
      assert t[m] == rest[i] && m != j && !Adjacent(t[m], t[j]);
      assert Disjoint(x, rest[i]);
    }
  }

  /** What is left after taking out the entry that absorbs `x` still fits the recursion. */
  lemma MergeReady(rest: seq<Run>, m: nat, x: Run)
    requires m < |rest| && Canonical(rest) && x.len > 0 && DisjointFrom(x, rest)
    requires Adjacent(rest[m], x)
    ensures var core, y := RemoveAt(rest, m), Join(rest[m], x);
      Canonical(core) && DisjointFrom(y, core) && y.len > 0 &&
      (forall i :: m <= i < |core| ==> core[i].len <= y.len) &&
      Pages(core) + Span(y) == Pages(rest) + Span(x)
  {
    var core := RemoveAt(rest, m);
    RemoveKeeps(rest, m);
    forall i | 0 <= i < |core|
      ensures Disjoint(rest[m], core[i]) && Disjoint(x, core[i])
      ensures m <= i ==> core[i].len <= rest[m].len
    {
      assert core[i] == rest[if i < m then i else i + 1];
      assert Apart(rest[m], core[i]);
    }
    JoinDisjoint(rest[m], x, core);
    JoinSpan(rest[m], x);
    PagesRemove(rest, m);
  }

  /** check_upper turns a canonical list with one run too many, placed where it may have to
      rise and may touch its neighbours, into a canonical list with the same pages. */
  lemma {:induction false} CheckUpperCorrect(rest: seq<Run>, k: nat, x: Run)
    requires k <= |rest| && Canonical(rest) && x.len > 0 && DisjointFrom(x, rest)
    requires forall i :: k <= i < |rest| ==> rest[i].len <= x.len
    ensures var r := CheckUpper(InsertAt(rest, k, x), k);
      Canonical(r) && Pages(r) == Pages(rest) + Span(x)
    decreases |rest|
  {
    var s := InsertAt(rest, k, x);
    var (t, j) := BubbleUp(s, k);
    BubbleUpShape(rest, k, x);
    var i := FirstAdjacent(t, j, 0);
    if i == |t| {
      NoAdjacentIsApart(rest, j, x);
      InsertApart(rest, j, x);
      PagesInsert(rest, j, x);
    } else {
      var m := MergedIndex(j, i);
      MergeShape(t, j, i);
      assert RemoveAt(t, j) == rest;
      MergeReady(rest, m, x);
      CheckUpperCorrect(RemoveAt(rest, m), m, Join(rest[m], x));
    }
  }

  // ----- allocation

  /** The scan finds a block exactly when one is large enough, and it finds a smallest one. */
  lemma BestFitSmallest(s: seq<Run>, size: nat)
    requires Descending(s)
    ensures CanFit(s, size) <==> exists i :: 0 <= i < |s| && s[i].len >= size
    ensures CanFit(s, size) ==>
      Source(s, size) in s && Source(s, size).len >= size &&
      forall i :: 0 <= i < |s| && s[i].len >= size ==> Source(s, size).len <= s[i].len
  {
    var k := BestFit(s, size, |s|);
    if k < |s| {
      forall i | 0 <= i < |s| && s[i].len >= size ensures s[k].len <= s[i].len {
        assert i <= k;
      }
    }
  }

  /** `page` is where the last `size` pages of a smallest sufficient block begin. */
  predicate TopOfSmallest(s: seq<Run>, page: nat, size: nat) {
    exists i ::
      && 0 <= i < |s| && s[i].len >= size && page + size == s[i].End()
      && forall j :: 0 <= j < |s| && s[j].len >= size ==> s[i].len <= s[j].len
  }

  lemma TargetIsTop(s: seq<Run>, size: nat)
    requires Descending(s) && CanFit(s, size)
    ensures TopOfSmallest(s, Target(s, size), size)
  {
    BestFitSmallest(s, size);
    var k := BestFit(s, size, |s|);
    assert s[k] == Source(s, size);
  }

  /** Shrinking entry `k` and sinking it leaves the rest of the list untouched. */
  lemma ShrinkShape(s: seq<Run>, k: nat, shrunk: Run)
    requires Descending(s) && k < |s| && shrunk.len <= s[k].len
    ensures var (t, j) := SinkDown(s[k := shrunk], k);
      t == InsertAt(RemoveAt(s, k), j, shrunk) && Descending(t)
  {
    var rest := RemoveAt(s, k);
    assert Descending(rest) by { RemoveKeeps(s, k); }
    assert s[k := shrunk] == InsertAt(rest, k, shrunk);
    forall i | 0 <= i < k ensures rest[i].len >= shrunk.len {
      assert rest[i] == s[i];
    }
    SinkDownShape(rest, k, shrunk);
  }

  /** A canonical list whose block `k` loses its top `size` pages, wherever the shrunk block
      is then placed. */
  lemma ShrunkPages(s: seq<Run>, k: nat, size: nat, j: nat)
    requires AllApart(s) && k < |s| && j < |s| && size <= s[k].len
    ensures var rest, shrunk := RemoveAt(s, k), Run(s[k].addr, s[k].len - size);
      var cut := Span(Run(s[k].addr + (s[k].len - size), size));
      cut <= Pages(s) &&
      Pages(InsertAt(rest, j, shrunk)) == Pages(s) - cut &&
      (shrunk.len == 0 ==> Pages(rest) == Pages(s) - cut) &&
      AllApart(rest) && AllApart(InsertAt(rest, j, shrunk))
  {
    var rest, shrunk := RemoveAt(s, k), Run(s[k].addr, s[k].len - size);
    RemoveKeeps(s, k);
    PagesRemove(s, k);
    SplitSpan(s[k], size);
    ApartPages(s[k], rest);
    PagesInsert(rest, j, shrunk);
    forall i | 0 <= i < |rest| ensures Apart(shrunk, rest[i]) {
      assert Apart(s[k], rest[i]);
    }
    InsertApart(rest, j, shrunk);
  }

  lemma CommitShape(s: seq<Run>, k: nat, size: nat, t: seq<Run>, j: nat)
    requires Canonical(s) && k < |s| && j < |s| && size <= s[k].len && Descending(t)
    requires t == InsertAt(RemoveAt(s, k), j, Run(s[k].addr, s[k].len - size))
    ensures t[j].len == 0 ==> j == |t| - 1
    ensures Canonical(Commit(t, j))
    ensures var cut := Span(Run(s[k].addr + (s[k].len - size), size));
      cut <= Pages(s) && Pages(Commit(t, j)) == Pages(s) - cut
  {
    var rest := RemoveAt(s, k);
    ShrunkPages(s, k, size, j);
    assert AllPositive(rest) && Descending(rest) by { RemoveKeeps(s, k); }
    forall i | j < i < |t| ensures t[i].len > 0 {
      assert t[i] == rest[i - 1];
    }
    assert j == |t| - 1 || t[j].len >= t[|t| - 1].len;
    if t[j].len == 0 {
      assert Commit(t, j) == rest;
    }
  }

  /** A completed allocation takes exactly the target pages off the free set and keeps the
      normal form; a block shrunk to nothing is the last entry. */
  lemma CommitCorrect(s: seq<Run>, size: nat)
    requires Canonical(s) && CanFit(s, size)
    ensures var (t, j) := Reserve(s, size);
      Canonical(Commit(t, j)) &&
      (t[j].len == 0 ==> j == |t| - 1) &&
      Span(Run(Target(s, size), size)) <= Pages(s) &&
      Pages(Commit(t, j)) == Pages(s) - Span(Run(Target(s, size), size))
  {
    var k := BestFit(s, size, |s|);
    var shrunk := Run(s[k].addr, s[k].len - size);
    var r := SinkDown(s[k := shrunk], k);
    assert Reserve(s, size) == r;
    ShrinkShape(s, k, shrunk);
    assert Run(Target(s, size), size) == Run(s[k].addr + (s[k].len - size), size);
    CommitShape(s, k, size, r.0, r.1);
  }

  lemma SplitSpan(b: Run, size: nat)
    requires size <= b.len
    ensures var low, high := Run(b.addr, b.len - size), Run(b.addr + (b.len - size), size);
      Span(b) == Span(low) + Span(high) && Span(low) !! Span(high)
  {
    var low, high := Run(b.addr, b.len - size), Run(b.addr + (b.len - size), size);
    forall p ensures p in Span(b) <==> p in Span(low) || p in Span(high) {
      assert b.Holds(p) <==> low.Holds(p) || high.Holds(p);
    }
  }

  lemma ApartPages(x: Run, rest: seq<Run>)
    requires ApartFrom(x, rest)
    ensures Span(x) !! Pages(rest)
  {
    forall p, i | 0 <= i < |rest| && rest[i].Holds(p) ensures p !in Span(x) {
      assert Apart(x, rest[i]);
    }
  }

  /** A failed allocation leaves the same blocks behind, though equal sizes may have changed
      places. */
  lemma RollbackRestores(s: seq<Run>, size: nat)
    requires Canonical(s) && CanFit(s, size)
    ensures var (t, j) := Reserve(s, size);
      Canonical(Rollback(t, j, size)) &&
      Pages(Rollback(t, j, size)) == Pages(s) &&
      multiset(Rollback(t, j, size)) == multiset(s)
  {
    var k := BestFit(s, size, |s|);
    var shrunk := Run(s[k].addr, s[k].len - size);
    var r := SinkDown(s[k := shrunk], k);
    assert Reserve(s, size) == r;
    ShrinkShape(s, k, shrunk);
    Regrow(s, k, size, r.0, r.1);
  }

  lemma Regrow(s: seq<Run>, k: nat, size: nat, t: seq<Run>, j: nat)
    requires Canonical(s) && k < |s| && j < |s| && size <= s[k].len && Descending(t)
    requires t == InsertAt(RemoveAt(s, k), j, Run(s[k].addr, s[k].len - size))
    ensures var r := Rollback(t, j, size);
      Canonical(r) && Pages(r) == Pages(s) && multiset(r) == multiset(s)
  {
    var rest := RemoveAt(s, k);
    assert t[j := Run(t[j].addr, t[j].len + size)] == InsertAt(rest, j, s[k]);
    RemoveKeeps(s, k);
    PagesRemove(s, k);
    forall i | j <= i < |rest| ensures rest[i].len <= s[k].len {
      assert rest[i] == t[i + 1];
    }
    forall i | 0 <= i < |rest| ensures Disjoint(s[k], rest[i]) {
      assert Apart(s[k], rest[i]);
    }
    CheckUpperCorrect(rest, j, s[k]);
    CanonicalUnique(Rollback(t, j, size), s);
  }

  // ----- release

  /** free_block adds exactly the freed pages and keeps the normal form; it is refused exactly
      when the array is full and the run touches no free block, and then changes nothing. */
  lemma ReleaseCorrect(s: seq<Run>, x: Run, capacity: nat)
    requires Canonical(s) && |s| <= capacity && x.len > 0 && DisjointFrom(x, s)
    ensures var (r, ok) := Release(s, x, capacity);
      |r| <= capacity && Canonical(r) &&
      Pages(r) == (if ok then Pages(s) + Span(x) else Pages(s)) &&
      (!ok ==> r == s) &&
      (ok <==> |s| < capacity || exists i :: 0 <= i < |s| && Adjacent(s[i], x))
  {
    if |s| < capacity {
      assert s + [x] == InsertAt(s, |s|, x);
      CheckUpperCorrect(s, |s|, x);
    } else {
      var i := LastAdjacent(s, x, |s|);
      if i < |s| {
        var y := Join(s[i], x);
        assert s[i := y] == InsertAt(RemoveAt(s, i), i, y);
        MergeReady(s, i, x);
        CheckUpperCorrect(RemoveAt(s, i), i, y);
      }
    }
  }

  lemma {:induction false} CheckUpperSettled(s: seq<Run>, k: nat)
    requires Canonical(s) && k < |s|
    ensures CheckUpper(s, k) == s
  {
    assert BubbleUp(s, k) == (s, k) by {
      assert k > 0 ==> s[k - 1].len >= s[k].len;
    }
    forall j | 0 <= j < |s| && j != k ensures !Adjacent(s[j], s[k]) {
      assert if j < k then Apart(s[j], s[k]) else Apart(s[k], s[j]);
    }
  }

  /** Freeing zero pages is where the normal form can be lost: it survives exactly when the
      array is full or the address touches a free block.  Otherwise an empty block stays
      in the list. */
  lemma ReleaseNothing(s: seq<Run>, addr: nat, capacity: nat)
    requires Canonical(s) && |s| <= capacity
    ensures Canonical(Release(s, Run(addr, 0), capacity).0) <==>
      |s| == capacity || exists i :: 0 <= i < |s| && (s[i].addr == addr || s[i].End() == addr)
  {
    var x := Run(addr, 0);
    if |s| < capacity {
      var t := s + [x];
      assert BubbleUp(t, |s|) == (t, |s|);
      var i := FirstAdjacent(t, |s|, 0);
      if i == |t| {
        assert t[|s|].len == 0;
        forall j | 0 <= j < |s| ensures !Adjacent(s[j], x) {
          assert t[j] == s[j];
        }
      } else {
        assert MergeAt(t, |s|, i) == s;
        CheckUpperSettled(s, i);
      }
    } else {
      var i := LastAdjacent(s, x, |s|);
      if i < |s| {
        assert s[i := Join(s[i], x)] == s;
        CheckUpperSettled(s, i);
      }
    }
  }

  /** For example in the user window after boot: every address inside its one block is accepted
      for size 0, and leaves an empty block behind. */
  lemma ReleaseNothingInside(addr: nat)
    requires 0x400 < addr < 0xC_0000
    ensures var s := [Run(0x400, 785408)];
      Canonical(s) && Release(s, Run(addr, 0), 512) == (s + [Run(addr, 0)], true) &&
      !Canonical(s + [Run(addr, 0)])
  {
    var s, x := [Run(0x400, 785408)], Run(addr, 0);
    var t := s + [x];
    assert BubbleUp(t, 1) == (t, 1);
    assert FirstAdjacent(t, 1, 0) == 2;
    assert t[1].len == 0;
  }

  // ----- the checksum of test_vmm

  /** What one block contributes; addresses are in bytes there. */
  function Weight(r: Run): nat {
    (4096 * r.addr + 1) * r.len
  }

  /** checksum(), in 32-bit arithmetic. */
  function Checksum(s: seq<Run>, key: nat): nat
    decreases |s|
  {
    if s == [] then key
    else Checksum(s[1..], key * (4096 * s[0].addr + 1) % 0x1_0000_0000 * s[0].len % 0x1_0000_0000)
  }

  function Product(s: seq<Run>): nat {
    if s == [] then 1 else Weight(s[0]) * Product(s[1..])
  }

  lemma ModMul(a: nat, b: nat)
    ensures (a % 0x1_0000_0000) * b % 0x1_0000_0000 == a * b % 0x1_0000_0000
  {
    var q, r := a / 0x1_0000_0000, a % 0x1_0000_0000;
    assert a * b == (q * b) * 0x1_0000_0000 + r * b by {
      assert a == q * 0x1_0000_0000 + r;
    }
    ModShift(r * b, q * b);
  }

  lemma ModShift(x: nat, k: nat)
    ensures (k * 0x1_0000_0000 + x) % 0x1_0000_0000 == x % 0x1_0000_0000
  {
  }

  lemma Swap(a: nat, b: nat, c: nat)
    ensures a * (b * c) == b * (a * c)
  {
  }

  lemma {:induction false} ProductPulls(s: seq<Run>, k: nat)
    requires k < |s|
    ensures Product(s) == Weight(s[k]) * Product(RemoveAt(s, k))
  {
    var t := RemoveAt(s, k);
    if k == 0 {
      assert t == s[1..];
    } else {
      ProductPulls(s[1..], k - 1);
      assert t[1..] == RemoveAt(s[1..], k - 1);
      Swap(Weight(s[0]), Weight(s[k]), Product(t[1..]));
    }
  }

  lemma {:induction false} ProductOrderFree(s: seq<Run>, t: seq<Run>)
    requires multiset(s) == multiset(t)
    ensures Product(s) == Product(t)
    decreases |s|
  {
    if s == [] {
      assert |t| == |multiset(t)| == 0;
    } else {
      var k := SameHead(s, t);
      ProductOrderFree(s[1..], RemoveAt(t, k));
      ProductPulls(t, k);
    }
  }

  lemma SameHead(s: seq<Run>, t: seq<Run>) returns (k: nat)
    requires s != [] && multiset(s) == multiset(t)
    ensures k < |t| && t[k] == s[0] && multiset(s[1..]) == multiset(RemoveAt(t, k))
  {
    assert s[0] in multiset(t);
    k :| 0 <= k < |t| && t[k] == s[0];
    MultisetRemove(s, 0);
    MultisetRemove(t, k);
    assert RemoveAt(s, 0) == s[1..];
  }

  lemma {:induction false} ChecksumIsProduct(s: seq<Run>, key: nat)
    requires key < 0x1_0000_0000
    ensures Checksum(s, key) == key * Product(s) % 0x1_0000_0000
    decreases |s|
  {
    if s != [] {
      var a, b, rest := 4096 * s[0].addr + 1, s[0].len, Product(s[1..]);
      ChecksumIsProduct(s[1..], key * a % 0x1_0000_0000 * b % 0x1_0000_0000);
      ModMul(key * a, b);
      ModMul(key * a * b, rest);
      Regroup(key, a, b, rest);
    }
  }

  lemma Regroup(key: nat, a: nat, b: nat, c: nat)
    ensures key * a * b * c == key * (a * b * c)
  {
    assert key * a * b == key * (a * b);
    var ab := a * b;
    assert key * ab * c == key * (ab * c);
  }

  /** What a list adds to the checksum: block by block, address plus one and then size. */
  lemma {:induction false} ChecksumConcat(s: seq<Run>, t: seq<Run>, key: nat)
    ensures Checksum(s + t, key) == Checksum(t, Checksum(s, key))
    decreases |s|
  {
    if s == [] {
      assert s + t == t;
    } else {
      assert (s + t)[1..] == s[1..] + t;
      ChecksumConcat(s[1..], t, key * (4096 * s[0].addr + 1) % 0x1_0000_0000 * s[0].len % 0x1_0000_0000);
    }
  }

  lemma ChecksumOne(r: Run, key: nat)
    ensures Checksum([r], key) == key * (4096 * r.addr + 1) * r.len % 0x1_0000_0000
  {
    ModMul(key * (4096 * r.addr + 1), r.len);
  }

  /** The checksum does not see the order of the blocks. */
  lemma ChecksumOrderFree(s: seq<Run>, t: seq<Run>, key: nat)
    requires multiset(s) == multiset(t) && key < 0x1_0000_0000
    ensures Checksum(s, key) == Checksum(t, key)
  {
    ProductOrderFree(s, t);
    ChecksumIsProduct(s, key);
    ChecksumIsProduct(t, key);
  }
}
