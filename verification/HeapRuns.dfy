/** Whole runs of kmalloc and kfree (kernel/arch/i386/heap.c), failing and growing calls included. */
module HeapRuns {
  import opened HeapSpec
  import opened Markers

  datatype Call = Allocate(need: nat, arena: nat) | Release(index: nat)

  /** One call.  `arena` is what alloc_block returns if kmalloc asks for a new arena.  The marker
      keeps the definition out of proofs that do not ask for it. */
  ghost predicate CallStep(s: seq<Seg>, c: Call, t: seq<Seg>) {
    forall i {:trigger Ask(Steps, i)} :: Ask(Steps, i) ==>
      match c
      case Allocate(need, arena) =>
        (FirstFit(s, need, 0) == |s| && arena != 0 ==> Roomy(need)) && t == Kmalloc(s, need, arena).0
      case Release(k) => k < |s| && t == Kfree(s, k)
  }

  predicate Grows(s: seq<Seg>, c: Call) {
    c.Allocate? && FirstFit(s, c.need, 0) == |s| && c.arena != 0
  }

  ghost predicate IsRun(states: seq<seq<Seg>>, calls: seq<Call>) {
    && |states| == |calls| + 1
    && forall i {:trigger calls[i]} :: 0 <= i < |calls| ==> CallStep(states[i], calls[i], states[i + 1])
  }

  /** A run of kmalloc and kfree calls, in any order and also failing, while the heap stays in its
      first arena: neighbours are never both free, and whenever nothing is live, the list is again
      the single free segment that heap_init made. */
  lemma {:induction false} FirstArenaRun(states: seq<seq<Seg>>, calls: seq<Call>, base: nat)
    requires IsRun(states, calls) && states[0] == [Seg(base, FIRST_ARENA - HEADER, true)]
    requires forall i {:trigger calls[i]} :: 0 <= i < |calls| ==> !Grows(states[i], calls[i])
    ensures OneArena(states[|calls|], base, FIRST_ARENA)
    ensures Live(states[|calls|]) == {} ==> states[|calls|] == states[0]
    decreases |calls|
  {
    if calls != [] {
      var k := |calls| - 1;
      FirstArenaRun(states[..k + 1], calls[..k], base);
      assert CallStep(states[k], calls[k], states[k + 1]) && Ask(Steps, 0);
      match calls[k]
      case Allocate(need, arena) => KmallocOneArena(states[k], need, arena, base, FIRST_ARENA);
      case Release(j) => KfreeOneArena(states[k], j, base, FIRST_ARENA);
    }
    if Live(states[|calls|]) == {} {
      NothingLive(states[|calls|], base, FIRST_ARENA);
    }
  }

  // ----- more than one arena

  /** Two free list neighbours with nothing between them in memory. */
  predicate Touching(a: Seg, b: Seg) { a.free && b.free && a.End() == b.addr }

  /** There are such neighbours only in front of a live segment that touches them: where a new arena
      happens to begin at the end of the last segment, until the segment is freed for which the arena
      was made. */
  ghost predicate Guarded(s: seq<Seg>) {
    forall i :: 0 <= i < |s| - 1 && Touching(s[i], s[i + 1]) ==> Guard(s, i, |s|)
  }

  /** The segment behind segments `i` and `i + 1` is live, or it is segment `k`. */
  ghost predicate Guard(s: seq<Seg>, i: nat, k: nat) {
    i + 2 < |s| && s[i + 1].End() == s[i + 2].addr && (!s[i + 2].free || i + 2 == k)
  }

  lemma SplitGuarded(s: seq<Seg>, i: nat, need: nat)
    requires i < |s| && s[i].free && s[i].size >= need + HEADER
    requires forall j :: 0 <= j < |s| - 1 && Touching(s[j], s[j + 1]) ==> Guard(s, j, |s|) || j + 1 == i
    ensures Guarded(Split(s, i, need))
  {
    var r := Split(s, i, need);
    forall j | 0 <= j < |r| - 1 && Touching(r[j], r[j + 1]) ensures Guard(r, j, |r|) {
      if j + 1 < i {
        assert Touching(s[j], s[j + 1]) && Guard(s, j, |s|);
      } else if j > i + 1 {
        assert Touching(s[j - 1], s[j]) && Guard(s, j - 1, |s|);
      }
    }
  }

  lemma KmallocGuarded(s: seq<Seg>, need: nat, arena: nat)
    requires Guarded(s) && (FirstFit(s, need, 0) == |s| && arena != 0 ==> Roomy(need))
    ensures Guarded(Kmalloc(s, need, arena).0)
  {
    var i := FirstFit(s, need, 0);
    if i < |s| {
      if s[i].size == need {
        var r := s[i := s[i].(free := false)];
        forall j | 0 <= j < |r| - 1 && Touching(r[j], r[j + 1]) ensures Guard(r, j, |r|) {
          assert Touching(s[j], s[j + 1]) && Guard(s, j, |s|);
        }
      } else {
        SplitGuarded(s, i, need);
      }
    } else if arena != 0 {
      var r := s + [Seg(arena, ArenaSize(need) - HEADER, true)];
      forall j | 0 <= j < |r| - 1 && Touching(r[j], r[j + 1]) ensures Guard(r, j, |r|) || j + 1 == |s| {
        if j + 1 < |s| {
          assert Touching(s[j], s[j + 1]) && Guard(s, j, |s|);
        }
      }
      SplitGuarded(r, |s|, need);
    }
  }

  /** While kfree merges segment `k` with the ones before it. */
  ghost predicate GuardedBut(s: seq<Seg>, k: nat) {
    && k < |s| && s[k].free
    && forall i :: 0 <= i < |s| - 1 && i + 1 != k && i != k && Touching(s[i], s[i + 1]) ==> Guard(s, i, k)
  }

  /** And with the ones after it. */
  ghost predicate GuardedBehind(s: seq<Seg>, k: nat) {
    && k < |s| && s[k].free
    && forall i :: 0 <= i < |s| - 1 && i != k && Touching(s[i], s[i + 1]) ==> Guard(s, i, |s|)
  }

  lemma {:induction false} MergeBackGuarded(s: seq<Seg>, k: nat)
    requires GuardedBut(s, k)
    ensures var r := MergeBack(s, k); GuardedBehind(r.0, r.1)
    decreases k
  {
    if k > 0 && s[k - 1].free && s[k - 1].End() == s[k].addr {
      var g := JoinNext(s, k - 1);
      forall i | 0 <= i < |g| - 1 && i + 1 != k - 1 && i != k - 1 && Touching(g[i], g[i + 1])
        ensures Guard(g, i, k - 1)
      {
        var j := if i < k - 1 then i else i + 1;
        assert Touching(s[j], s[j + 1]) && Guard(s, j, k);
      }
      MergeBackGuarded(g, k - 1);
    } else {
      forall i | 0 <= i < |s| - 1 && i != k && Touching(s[i], s[i + 1]) ensures Guard(s, i, |s|) {
        assert Guard(s, i, k);
      }
    }
  }

  lemma {:induction false} MergeAheadGuarded(s: seq<Seg>, k: nat)
    requires GuardedBehind(s, k)
    ensures Guarded(MergeAhead(s, k))
    decreases |s|
  {
    if k + 1 < |s| && s[k + 1].free && s[k].End() == s[k + 1].addr {
      var g := JoinNext(s, k);
      forall i | 0 <= i < |g| - 1 && i != k && Touching(g[i], g[i + 1]) ensures Guard(g, i, |g|) {
        var j := if i < k then i else i + 1;
        assert Touching(s[j], s[j + 1]) && Guard(s, j, |s|);
      }
      MergeAheadGuarded(g, k);
    }
  }

  lemma KfreeGuarded(s: seq<Seg>, k: nat)
    requires Guarded(s) && k < |s|
    ensures Guarded(Kfree(s, k))
  {
    var f := s[k := s[k].(free := true)];
    forall i | 0 <= i < |f| - 1 && i + 1 != k && i != k && Touching(f[i], f[i + 1]) ensures Guard(f, i, k) {
      assert Touching(s[i], s[i + 1]) && Guard(s, i, |s|);
    }
    MergeBackGuarded(f, k);
    var r := MergeBack(f, k);
    MergeAheadGuarded(r.0, r.1);
  }

  /** Over any run, with new arenas wherever alloc_block puts them: whenever nothing is live, no two
      list neighbours touch in memory. */
  lemma {:induction false} GrowingRun(states: seq<seq<Seg>>, calls: seq<Call>)
    requires IsRun(states, calls) && |states[0]| == 1
    ensures Guarded(states[|calls|])
    ensures Live(states[|calls|]) == {} ==>
      forall i :: 0 <= i < |states[|calls|]| - 1 ==> states[|calls|][i].End() != states[|calls|][i + 1].addr
    decreases |calls|
  {
    if calls != [] {
      var k := |calls| - 1;
      GrowingRun(states[..k + 1], calls[..k]);
      assert CallStep(states[k], calls[k], states[k + 1]) && Ask(Steps, 0);
      match calls[k]
      case Allocate(need, arena) => KmallocGuarded(states[k], need, arena);
      case Release(j) => KfreeGuarded(states[k], j);
    }
    NoneLiveNoneTouching(states[|calls|]);
  }

  lemma NoneLiveNoneTouching(s: seq<Seg>)
    requires Guarded(s)
    ensures Live(s) == {} ==> forall i :: 0 <= i < |s| - 1 ==> s[i].End() != s[i + 1].addr
  {
    if Live(s) == {} {
      forall i | 0 <= i < |s| ensures s[i].free {
        assert s[i] !in Live(s);
      }
      forall i | 0 <= i < |s| - 1 ensures s[i].End() != s[i + 1].addr {
        assert Touching(s[i], s[i + 1]) ==> Guard(s, i, |s|);
      }
    }
  }

  lemma RunGrows(states: seq<seq<Seg>>, calls: seq<Call>, c: Call, t: seq<Seg>)
    requires IsRun(states, calls) && CallStep(states[|calls|], c, t)
    ensures IsRun(states + [t], calls + [c])
  {
    var more, all := states + [t], calls + [c];
    forall i {:trigger all[i]} | 0 <= i < |all| ensures CallStep(more[i], all[i], more[i + 1]) {
      if i < |calls| {
        assert all[i] == calls[i] && more[i] == states[i] && more[i + 1] == states[i + 1];
      }
    }
  }
}
