/** The memory map and the runs that pmm_init makes of it (kernel/arch/i386/pmm.c). */
module MemoryMap {
  import opened Extents
  import opened Machine
  import opened FrameListSpec

  /** A memory map entry of the boot loader; addresses and lengths are 64-bit values in two
      halves. */
  datatype MapEntry = MapEntry(addrLow: Word, addrHigh: Word, lenLow: Word, lenHigh: Word, kind: Word) {
    function Start(): nat { addrLow + 0x1_0000_0000 * addrHigh }

    function Stop(): nat { Start() + lenLow + 0x1_0000_0000 * lenHigh }

    predicate Available() { kind == 1 }

    /** Page `p` lies wholly inside the entry. */
    predicate Contains(p: int) { Start() <= 4096 * p && 4096 * (p + 1) <= Stop() }

    /** The low halves alone reach the end of the 32-bit address space. */
    predicate Wraps() { addrLow + lenLow >= 0x1_0000_0000 }
  }

  /** The run that pmm_init makes of an entry; length 0 when it makes none.  The sum of the low
      halves is taken in 32 bits. */
  function EntryRun(e: MapEntry): Run {
    if e.kind == 1 && e.addrLow <= 0xFFFF_F000 then
      var rounded := (e.addrLow + 4095) / 4096 * 4096;
      var aligned := if rounded < 0x40_0000 then 0x40_0000 else rounded;
      var end := (e.addrLow + e.lenLow) % 0x1_0000_0000;
      if end > aligned then Run(aligned / 4096, (end - aligned) / 4096) else Run(0, 0)
    else
      Run(0, 0)
  }

  /** Which pages an entry contributes: none if the sum of the low halves wraps, otherwise every
      whole page at or above 4 MiB of what the low halves say. */
  lemma EntryPages(e: MapEntry, p: int)
    ensures EntryRun(e).Holds(p) <==>
      && e.kind == 1 && e.addrLow + e.lenLow < 0x1_0000_0000 && 1024 <= p
      && e.addrLow <= 4096 * p && 4096 * (p + 1) <= e.addrLow + e.lenLow
    ensures EntryRun(e).Holds(p) ==> p < FRAMES
  {
  }

  /** The pages contributed are pages of the entry exactly when its address has no high half. */
  lemma EntryInside(e: MapEntry)
    requires EntryRun(e).len > 0
    ensures (forall p :: EntryRun(e).Holds(p) ==> e.Contains(p)) <==> e.addrHigh == 0
  {
    var r := EntryRun(e);
    EntryPages(e, r.addr);
    assert r.Holds(r.addr);
    forall p | r.Holds(p) ensures e.addrHigh == 0 ==> e.Contains(p) {
      EntryPages(e, p);
    }
  }

  /** An entry below 4 GiB that does not wrap contributes all its whole pages from 4 MiB on. */
  lemma EntryComplete(e: MapEntry, p: int)
    requires e.Available() && e.addrHigh == 0 && e.lenHigh == 0 && !e.Wraps()
    requires e.Contains(p) && FIRST_FRAME <= p
    ensures EntryRun(e).Holds(p)
  {
    EntryPages(e, p);
  }

  /** Available entries do not overlap. */
  ghost predicate DisjointMap(m: seq<MapEntry>) {
    forall i, j :: 0 <= i < j < |m| && m[i].Available() && m[j].Available() ==>
      m[i].Stop() <= m[j].Start() || m[j].Stop() <= m[i].Start()
  }

  /** The run list after the first entries of the map. */
  function MapRuns(m: seq<MapEntry>): (r: seq<Run>)
    ensures |r| <= |m|
  {
    if m == [] then []
    else
      var k := |m| - 1;
      var r := EntryRun(m[k]);
      MapRuns(m[..k]) + if r.len > 0 then [r] else []
  }

  /** The entries are taken in order, and each makes one run or none. */
  lemma {:induction false} MapRunsConcat(a: seq<MapEntry>, b: seq<MapEntry>)
    ensures MapRuns(a + b) == MapRuns(a) + MapRuns(b)
    decreases |b|
  {
    if b == [] {
      assert a + b == a;
    } else {
      MapRunsConcat(a, b[..|b| - 1]);
      assert (a + b)[..|a + b| - 1] == a + b[..|b| - 1];
    }
  }

  lemma {:induction false} MapRunsPrefix(m: seq<MapEntry>, n: nat)
    requires n <= |m|
    ensures |MapRuns(m[..n])| <= |MapRuns(m)|
    decreases |m|
  {
    if n == |m| {
      assert m[..n] == m;
    } else {
      MapRunsPrefix(m[..|m| - 1], n);
      assert m[..|m| - 1][..n] == m[..n];
    }
  }

  lemma {:induction false} MapRunsHold(m: seq<MapEntry>, p: int)
    ensures p in Pages(MapRuns(m)) <==> exists i :: 0 <= i < |m| && EntryRun(m[i]).Holds(p)
  {
    if m != [] {
      var k := |m| - 1;
      MapRunsHold(m[..k], p);
      PagesAppended(MapRuns(m[..k]), EntryRun(m[k]), p);
      forall i | 0 <= i < k ensures m[i] == m[..k][i] {
      }
    }
  }

  lemma PagesAppended(s: seq<Run>, r: Run, p: int)
    ensures p in Pages(s + if r.len > 0 then [r] else []) <==> p in Pages(s) || r.Holds(p)
  {
    if r.len > 0 {
      assert s + [r] == InsertAt(s, |s|, r);
      PagesInsert(s, |s|, r);
      assert p in Span(r) <==> r.Holds(p);
    } else {
      assert s + [] == s;
    }
  }

  /** No frame is contributed by two entries. */
  ghost predicate OnceOnly(m: seq<MapEntry>) {
    forall i, j :: 0 <= i < j < |m| ==> Disjointly(EntryRun(m[i]), EntryRun(m[j]))
  }

  ghost predicate Disjointly(a: Run, b: Run) { Span(a) !! Span(b) }

  /** One more run at the end of a list. */
  lemma ValidExtended(s: seq<Run>, r: Run)
    requires r.len > 0
    ensures ValidRuns(s + [r]) <==>
      ValidRuns(s) && FIRST_FRAME <= r.addr && r.End() <= FRAMES && Span(r) !! Pages(s)
  {
    var t := s + [r];
    assert t == InsertAt(s, |s|, r);
    if ValidRuns(t) {
      forall i | 0 <= i < |s| ensures s[i] == t[i] && Disjoint(s[i], r) {
        assert Disjoint(t[i], t[|s|]);
      }
      assert t[|s|] == r;
      ValidFront(t);
      assert t[..|s|] == s;
      DisjointPages(r, s);
    }
    if ValidRuns(s) && FIRST_FRAME <= r.addr && r.End() <= FRAMES && Span(r) !! Pages(s) {
      DisjointPages(r, s);
      InsertDisjoint(s, |s|, r);
    }
  }

  lemma ValidFront(t: seq<Run>)
    requires ValidRuns(t) && t != []
    ensures ValidRuns(t[..|t| - 1])
  {
  }

  lemma OnceLast(m: seq<MapEntry>)
    requires m != []
    ensures var k := |m| - 1;
      OnceOnly(m) <==> OnceOnly(m[..k]) && Span(EntryRun(m[k])) !! Pages(MapRuns(m[..k]))
  {
    var k, r := |m| - 1, EntryRun(m[|m| - 1]);
    var front := m[..k];
    forall p ensures p in Pages(MapRuns(front)) <==> exists i :: 0 <= i < k && EntryRun(m[i]).Holds(p) {
      MapRunsHold(front, p);
      forall i | 0 <= i < k ensures front[i] == m[i] {
      }
    }
    if OnceOnly(m) {
      forall i, j | 0 <= i < j < k ensures Disjointly(EntryRun(front[i]), EntryRun(front[j])) {
        assert Disjointly(EntryRun(m[i]), EntryRun(m[j]));
      }
      forall p | p in Span(r) ensures p !in Pages(MapRuns(front)) {
        forall i | 0 <= i < k ensures !EntryRun(m[i]).Holds(p) {
          assert Disjointly(EntryRun(m[i]), EntryRun(m[k]));
          assert EntryRun(m[i]).Holds(p) ==> p in Span(EntryRun(m[i]));
        }
      }
    }
    if OnceOnly(front) && Span(r) !! Pages(MapRuns(front)) {
      forall i, j | 0 <= i < j < |m| ensures Disjointly(EntryRun(m[i]), EntryRun(m[j])) {
        if j < k {
          assert Disjointly(EntryRun(front[i]), EntryRun(front[j]));
        } else {
          forall p | p in Span(EntryRun(m[i])) ensures p !in Span(r) {
            assert EntryRun(m[i]).Holds(p);
          }
        }
      }
    }
  }

  /** Runs of no frames are not kept. */
  lemma ValidAppended(s: seq<Run>, r: Run)
    requires r.len > 0 ==> FIRST_FRAME <= r.addr && r.End() <= FRAMES
    ensures ValidRuns(s + if r.len > 0 then [r] else []) <==> ValidRuns(s) && Span(r) !! Pages(s)
  {
    if r.len > 0 {
      ValidExtended(s, r);
    } else {
      assert Span(r) == {} && s + [] == s;
    }
  }

  lemma EntryBounds(e: MapEntry)
    ensures var r := EntryRun(e); r.len > 0 ==> FIRST_FRAME <= r.addr && r.End() <= FRAMES
  {
    var r := EntryRun(e);
    EntryPages(e, r.addr);
    EntryPages(e, r.End() - 1);
    assert r.len > 0 ==> r.Holds(r.addr) && r.Holds(r.End() - 1);
  }

  /** The runs that pmm_init builds are valid exactly when no frame is contributed twice. */
  lemma {:induction false} MapRunsValid(m: seq<MapEntry>)
    ensures ValidRuns(MapRuns(m)) <==> OnceOnly(m)
  {
    if m != [] {
      MapRunsValid(m[..|m| - 1]);
      OnceLast(m);
      EntryBounds(m[|m| - 1]);
      ValidAppended(MapRuns(m[..|m| - 1]), EntryRun(m[|m| - 1]));
    }
  }

  /** So they are for available entries that do not overlap and lie below 4 GiB. */
  lemma DisjointOnce(m: seq<MapEntry>)
    requires DisjointMap(m) && forall i :: 0 <= i < |m| ==> m[i].addrHigh == 0
    ensures OnceOnly(m)
  {
    forall i, j | 0 <= i < j < |m| ensures Disjointly(EntryRun(m[i]), EntryRun(m[j])) {
      forall p | p in Span(EntryRun(m[i])) ensures p !in Span(EntryRun(m[j])) {
        EntryPages(m[i], p);
        EntryPages(m[j], p);
        assert m[i].Available() && m[j].Available() ==>
          m[i].Stop() <= m[j].Start() || m[j].Stop() <= m[i].Start();
      }
    }
  }
}
