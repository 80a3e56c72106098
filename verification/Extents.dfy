/** Runs of consecutive pages or frames, and lists of such runs.

    Both block structures of the memory manager (`vmm_block_t`, `pmm_block_t`) are an
    address and a length in pages.  Addresses are kept as page numbers: an address `a`
    of the C code is `4096 * addr` here, and `a + 4096 * len` is `addr + len`. */
module Extents {

  datatype Run = Run(addr: nat, len: nat) {
    function End(): nat { addr + len }

    predicate Holds(p: int) { addr <= p < addr + len }
  }

  /** The pages of one run. */
  ghost function Span(r: Run): set<int> {
    set p | r.addr <= p < r.addr + r.len && r.Holds(p)
  }

  /** The pages of all runs of a list. */
  ghost function Pages(s: seq<Run>): set<int> {
    set i, p | 0 <= i < |s| && s[i].addr <= p < s[i].addr + s[i].len && s[i].Holds(p) :: p
  }

  predicate Disjoint(a: Run, b: Run) {
    a.End() <= b.addr || b.End() <= a.addr
  }

  /** Disjoint and not adjacent: at least one page lies between the two runs. */
  predicate Apart(a: Run, b: Run) {
    a.End() < b.addr || b.End() < a.addr
  }

  predicate Adjacent(a: Run, b: Run) {
    a.End() == b.addr || b.End() == a.addr
  }

  ghost predicate AllDisjoint(s: seq<Run>) {
    forall i, j :: 0 <= i < j < |s| ==> Disjoint(s[i], s[j])
  }

  ghost predicate AllApart(s: seq<Run>) {
    forall i, j :: 0 <= i < j < |s| ==> Apart(s[i], s[j])
  }

  ghost predicate AllPositive(s: seq<Run>) {
    forall i :: 0 <= i < |s| ==> s[i].len > 0
  }

  /** Sizes descend from the front of the list to its end. */
  ghost predicate Descending(s: seq<Run>) {
    forall i, j :: 0 <= i < j < |s| ==> s[i].len >= s[j].len
  }

  /** All runs lie between page `lo` and page `hi`. */
  ghost predicate Within(s: seq<Run>, lo: nat, hi: nat) {
    forall i :: 0 <= i < |s| ==> lo <= s[i].addr && s[i].End() <= hi
  }

  ghost predicate DisjointFrom(x: Run, s: seq<Run>) {
    forall i :: 0 <= i < |s| ==> Disjoint(x, s[i])
  }

  ghost predicate ApartFrom(x: Run, s: seq<Run>) {
    forall i :: 0 <= i < |s| ==> Apart(x, s[i])
  }

  /** The normal form of a free list: sorted, nothing empty, nothing mergeable. */
  ghost predicate Canonical(s: seq<Run>) {
    Descending(s) && AllPositive(s) && AllApart(s)
  }

  function RemoveAt<T>(s: seq<T>, k: nat): (r: seq<T>)
    requires k < |s|
    ensures |r| == |s| - 1
    ensures forall i :: 0 <= i < k ==> r[i] == s[i]
    ensures forall i :: k <= i < |r| ==> r[i] == s[i + 1]
  {
    s[..k] + s[k + 1..]
  }

  function InsertAt<T>(s: seq<T>, k: nat, x: T): (r: seq<T>)
    requires k <= |s|
    ensures |r| == |s| + 1 && r[k] == x
    ensures forall i :: 0 <= i < k ==> r[i] == s[i]
    ensures forall i :: k < i < |r| ==> r[i] == s[i - 1]
  {
    s[..k] + [x] + s[k..]
  }

  lemma InsertRemove<T>(s: seq<T>, k: nat)
    requires k < |s|
    ensures InsertAt(RemoveAt(s, k), k, s[k]) == s
  {
  }

  lemma RemoveInsert<T>(s: seq<T>, k: nat, x: T)
    requires k <= |s|
    ensures RemoveAt(InsertAt(s, k, x), k) == s
  {
  }

  lemma MultisetInsert<T>(s: seq<T>, k: nat, x: T)
    requires k <= |s|
    ensures multiset(InsertAt(s, k, x)) == multiset(s) + multiset{x}
  {
    assert s == s[..k] + s[k..];
  }

  lemma MultisetRemove<T>(s: seq<T>, k: nat)
    requires k < |s|
    ensures multiset(RemoveAt(s, k)) == multiset(s) - multiset{s[k]}
  {
    InsertRemove(s, k);
    MultisetInsert(RemoveAt(s, k), k, s[k]);
  }

  lemma PagesInsert(s: seq<Run>, k: nat, x: Run)
    requires k <= |s|
    ensures Pages(InsertAt(s, k, x)) == Pages(s) + Span(x)
  {
    var t := InsertAt(s, k, x);
    forall p | p in Pages(s) + Span(x) ensures p in Pages(t) {
      if p in Span(x) {
        assert t[k].Holds(p);
      } else {
        var i :| 0 <= i < |s| && s[i].Holds(p);
        assert t[if i < k then i else i + 1].Holds(p);
      }
    }
  }

  lemma PagesRemove(s: seq<Run>, k: nat)
    requires k < |s|
    ensures Pages(s) == Pages(RemoveAt(s, k)) + Span(s[k])
  {
    InsertRemove(s, k);
    PagesInsert(RemoveAt(s, k), k, s[k]);
  }

  lemma {:induction false} SpanSize(r: Run)
    ensures |Span(r)| == r.len
    decreases r.len
  {
    if r.len == 0 {
      assert Span(r) == {};
    } else {
      var low, p := Run(r.addr, r.len - 1), r.End() - 1;
      SpanSize(low);
      assert r.Holds(p);
      forall q ensures q in Span(r) <==> q in Span(low) || q == p {
        assert r.Holds(q) <==> low.Holds(q) || q == p;
      }
      assert Span(r) == Span(low) + {p} && p !in Span(low);
    }
  }

  /** One more run adds its length to the number of pages. */
  lemma PagesCount(s: seq<Run>, x: Run)
    requires x.len > 0 && AllPositive(s) && DisjointFrom(x, s)
    ensures |Pages(s + [x])| == |Pages(s)| + x.len
  {
    assert s + [x] == InsertAt(s, |s|, x);
    PagesInsert(s, |s|, x);
    DisjointPages(x, s);
    SpanSize(x);
    assert |Pages(s) + Span(x)| == |Pages(s)| + |Span(x)|;
  }

  lemma FrontDisjoint(s: seq<Run>, k: nat)
    requires AllDisjoint(s) && AllPositive(s) && k < |s|
    ensures AllPositive(s[..k]) && DisjointFrom(s[k], s[..k])
  {
    forall i | 0 <= i < k ensures Disjoint(s[k], s[..k][i]) {
      assert Disjoint(s[i], s[k]);
    }
  }

  /** A run is disjoint from every run of a list exactly when no page of it is in the list. */
  lemma DisjointPages(x: Run, s: seq<Run>)
    requires x.len > 0 && AllPositive(s)
    ensures DisjointFrom(x, s) <==> Span(x) !! Pages(s)
  {
    if Span(x) !! Pages(s) {
      forall i | 0 <= i < |s| ensures Disjoint(x, s[i]) {
        var p := if x.addr < s[i].addr then s[i].addr else x.addr;
        assert x.Holds(p) ==> p in Span(x);
        assert s[i].Holds(p) ==> p in Pages(s);
      }
    }
  }

  lemma DisjointHeld(s: seq<Run>, i: nat, j: nat, p: int)
    requires AllDisjoint(s) && i < |s| && j < |s| && i != j
    requires s[i].Holds(p)
    ensures !s[j].Holds(p)
  {
    assert if i < j then Disjoint(s[i], s[j]) else Disjoint(s[j], s[i]);
  }

  // ----- staying inside an address window

  lemma WithinPages(s: seq<Run>, lo: nat, hi: nat)
    requires AllPositive(s)
    ensures Within(s, lo, hi) <==> forall p :: p in Pages(s) ==> lo <= p < hi
  {
    if forall p :: p in Pages(s) ==> lo <= p < hi {
      forall i | 0 <= i < |s| ensures lo <= s[i].addr && s[i].End() <= hi {
        assert s[i].Holds(s[i].addr) && s[i].Holds(s[i].End() - 1);
        assert s[i].addr in Pages(s) && s[i].End() - 1 in Pages(s);
      }
    }
  }

  // ----- the free page set determines the canonical list, up to the order of equal sizes

  /** In a canonical list a block starts where its predecessor page is not free, and ends
      where its successor page is not free. */
  lemma BlockIsMaximal(s: seq<Run>, k: nat)
    requires Canonical(s) && k < |s|
    ensures s[k].addr - 1 !in Pages(s) && s[k].End() !in Pages(s)
    ensures Span(s[k]) <= Pages(s)
  {
    forall i | 0 <= i < |s| ensures !s[i].Holds(s[k].addr - 1) && !s[i].Holds(s[k].End()) {
      assert i == k || (if i < k then Apart(s[i], s[k]) else Apart(s[k], s[i]));
    }
    forall p | p in Span(s[k]) ensures p in Pages(s) {
      assert s[k].Holds(p);
    }
  }

  lemma BlockTransfers(s: seq<Run>, t: seq<Run>, k: nat)
    requires Canonical(s) && Canonical(t) && Pages(s) == Pages(t) && k < |s|
    ensures s[k] in t
  {
    var b := s[k];
    BlockIsMaximal(s, k);
    assert b.addr in Span(b);
    var j :| 0 <= j < |t| && t[j].Holds(b.addr);
    BlockIsMaximal(t, j);
    assert !t[j].Holds(b.addr - 1);
    assert t[j].Holds(b.addr);
    assert b.addr == t[j].addr;
    var bEnd, tEnd := b.End(), t[j].End();
    assert b.Holds(tEnd) ==> tEnd in Span(b);
    assert !b.Holds(tEnd) && !t[j].Holds(bEnd);
    assert t[j] == b;
  }

  ghost predicate NoDuplicates<T>(s: seq<T>) {
    forall i, j :: 0 <= i < j < |s| ==> s[i] != s[j]
  }

  lemma {:induction false} DistinctMultiset<T>(s: seq<T>, x: T)
    requires NoDuplicates(s)
    ensures multiset(s)[x] == if x in s then 1 else 0
  {
    if s == [] {
    } else {
      var last := |s| - 1;
      DistinctMultiset(s[..last], x);
      assert s == s[..last] + [s[last]];
    }
  }

  /** The law behind the checksum comparison of test_vmm: two canonical lists with the same
      free pages hold the same blocks. */
  lemma CanonicalUnique(s: seq<Run>, t: seq<Run>)
    requires Canonical(s) && Canonical(t) && Pages(s) == Pages(t)
    ensures multiset(s) == multiset(t)
  {
    forall b: Run ensures multiset(s)[b] == multiset(t)[b] {
      if b in s {
        var k :| 0 <= k < |s| && s[k] == b;
        BlockTransfers(s, t, k);
      }
      if b in t {
        var k :| 0 <= k < |t| && t[k] == b;
        BlockTransfers(t, s, k);
      }
      DistinctMultiset(s, b);
      DistinctMultiset(t, b);
    }
  }

  // ----- what one more run does to a list

  lemma InsertDisjoint(s: seq<Run>, k: nat, x: Run)
    requires k <= |s| && AllDisjoint(s) && DisjointFrom(x, s)
    ensures AllDisjoint(InsertAt(s, k, x))
  {
  }

  lemma InsertApart(s: seq<Run>, k: nat, x: Run)
    requires k <= |s| && AllApart(s) && ApartFrom(x, s)
    ensures AllApart(InsertAt(s, k, x))
  {
  }

  lemma RemoveKeeps(s: seq<Run>, k: nat)
    requires k < |s|
    ensures AllDisjoint(s) ==> AllDisjoint(RemoveAt(s, k)) && DisjointFrom(s[k], RemoveAt(s, k))
    ensures AllApart(s) ==> AllApart(RemoveAt(s, k)) && ApartFrom(s[k], RemoveAt(s, k))
    ensures Descending(s) ==> Descending(RemoveAt(s, k))
    ensures AllPositive(s) ==> AllPositive(RemoveAt(s, k))
  {
    var r := RemoveAt(s, k);
    forall i | 0 <= i < |r|
      ensures AllDisjoint(s) ==> Disjoint(s[k], r[i])
      ensures AllApart(s) ==> Apart(s[k], r[i])
    {
      var j := if i < k then i else i + 1;
      assert r[i] == s[j];
      if i < k {
        assert AllDisjoint(s) ==> Disjoint(s[j], s[k]);
        assert AllApart(s) ==> Apart(s[j], s[k]);
      }
    }
  }

  // ----- joining two adjacent runs

  /** Entry `ptr` after absorbing the adjacent run `block`. */
  function Join(ptr: Run, block: Run): (r: Run)
    ensures r.len == ptr.len + block.len
  {
    if ptr.addr == block.End() then Run(block.addr, ptr.len + block.len)
    else Run(ptr.addr, ptr.len + block.len)
  }

  /** The first entry from `i` on that is adjacent to entry `k`, or the list length. */
  function FirstAdjacent(s: seq<Run>, k: nat, i: nat): (r: nat)
    requires k < |s| && i <= |s|
    ensures i <= r <= |s|
    ensures r < |s| ==> r != k && Adjacent(s[r], s[k])
    ensures forall j :: i <= j < r && j != k ==> !Adjacent(s[j], s[k])
    decreases |s| - i
  {
    if i == |s| || (i != k && Adjacent(s[i], s[k])) then i else FirstAdjacent(s, k, i + 1)
  }

  /** Entry `k` is joined into entry `i`, and its own slot is closed up. */
  function MergeAt(s: seq<Run>, k: nat, i: nat): seq<Run>
    requires k < |s| && i < |s| && i != k
  {
    RemoveAt(s[i := Join(s[i], s[k])], k)
  }

  /** The index of the joined entry after the slot of entry `k` was closed. */
  function MergedIndex(k: nat, i: nat): nat
    requires i != k
  {
    if i > k then i - 1 else i
  }

  lemma JoinSpan(a: Run, b: Run)
    requires Adjacent(a, b)
    ensures Span(Join(a, b)) == Span(a) + Span(b)
  {
    var j := Join(a, b);
    forall p ensures p in Span(j) <==> p in Span(a) || p in Span(b) {
      assert j.Holds(p) <==> a.Holds(p) || b.Holds(p);
    }
  }

  /** Merging, seen from the list without the absorbed entry. */
  lemma MergeShape(s: seq<Run>, k: nat, i: nat)
    requires k < |s| && i < |s| && i != k
    ensures var rest, m := RemoveAt(s, k), MergedIndex(k, i);
      m < |rest| && rest[m] == s[i] &&
      MergeAt(s, k, i) == InsertAt(RemoveAt(rest, m), m, Join(s[i], s[k]))
  {
  }

  lemma JoinDisjoint(a: Run, b: Run, rest: seq<Run>)
    requires Adjacent(a, b) && AllPositive(rest)
    requires DisjointFrom(a, rest) && DisjointFrom(b, rest)
    ensures DisjointFrom(Join(a, b), rest)
  {
    forall i | 0 <= i < |rest| ensures Disjoint(Join(a, b), rest[i]) {
      assert Disjoint(a, rest[i]) && Disjoint(b, rest[i]) && rest[i].len > 0;
    }
  }

  lemma MergeKeepsPages(s: seq<Run>, k: nat, i: nat)
    requires k < |s| && i < |s| && i != k && Adjacent(s[i], s[k])
    ensures Pages(MergeAt(s, k, i)) == Pages(s)
  {
    var rest, m := RemoveAt(s, k), MergedIndex(k, i);
    MergeShape(s, k, i);
    PagesRemove(s, k);
    PagesRemove(rest, m);
    PagesInsert(RemoveAt(rest, m), m, Join(s[i], s[k]));
    JoinSpan(s[i], s[k]);
  }

  /** The entries that take no part in a merge are disjoint from both that do. */
  lemma MergeCore(s: seq<Run>, k: nat, m: nat)
    requires AllDisjoint(s) && AllPositive(s) && k < |s| && m < |s| - 1
    ensures var rest := RemoveAt(s, k);
      var core := RemoveAt(rest, m);
      AllDisjoint(core) && AllPositive(core) && DisjointFrom(s[k], core) && DisjointFrom(rest[m], core)
  {
    var rest := RemoveAt(s, k);
    RemoveKeeps(s, k);
    RemoveKeeps(rest, m);
    var core := RemoveAt(rest, m);
    forall j | 0 <= j < |core| ensures Disjoint(s[k], core[j]) {
      assert core[j] == rest[if j < m then j else j + 1];
    }
  }

  lemma MergeKeepsDisjoint(s: seq<Run>, k: nat, i: nat)
    requires k < |s| && i < |s| && i != k && Adjacent(s[i], s[k])
    requires AllDisjoint(s) && AllPositive(s)
    ensures AllDisjoint(MergeAt(s, k, i)) && AllPositive(MergeAt(s, k, i))
  {
    var m, y := MergedIndex(k, i), Join(s[i], s[k]);
    MergeShape(s, k, i);
    MergeCore(s, k, m);
    var core := RemoveAt(RemoveAt(s, k), m);
    JoinDisjoint(s[i], s[k], core);
    InsertDisjoint(core, m, y);
    InsertPositive(core, m, y);
  }

  lemma InsertPositive(s: seq<Run>, k: nat, x: Run)
    requires k <= |s| && AllPositive(s) && x.len > 0
    ensures AllPositive(InsertAt(s, k, x))
  {
  }
}
