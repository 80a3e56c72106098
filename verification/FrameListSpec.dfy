/** The frame allocator's algorithms (kernel/arch/i386/pmm.c) as functions on run lists, and
    what they guarantee.  Module Frames holds the in-place versions. */
module FrameListSpec {
  import opened Extents
  import opened Machine
  import opened Markers

  /** Frames below 4 MiB are never handed out. */
  const FIRST_FRAME: nat := 1024

  /** Length of the array of free runs. */
  const FREE_ARRAY_SIZE: nat := 1024

  /** The page number of a 32-bit address: `addr + len * 4096` wraps at 4 GiB. */
  function Wrap(page: nat): nat { page % FRAMES }

  /** The state that pmm_init builds and every operation keeps. */
  ghost predicate ValidRuns(s: seq<Run>) {
    AllDisjoint(s) && AllPositive(s) && Within(s, FIRST_FRAME, FRAMES)
  }

  /** The same behind a marker, for proofs that only carry it along. */
  ghost predicate GoodRuns(s: seq<Run>) {
    forall i {:trigger Ask(Runs, i)} :: Ask(Runs, i) ==> ValidRuns(s)
  }

  lemma GoodIsValid(s: seq<Run>)
    ensures GoodRuns(s) <==> ValidRuns(s)
  {
    assert Ask(Runs, 0);
  }

  /** alloc_page: the top frame of the last run, 0 (NULL) when there is none. */
  function AllocPage(s: seq<Run>): (r: (seq<Run>, nat))
  {
    if s == [] then (s, 0)
    else
      var k := |s| - 1;
      if s[k].len <= 1 then (s[..k], s[k].addr)
      else (s[k := Run(s[k].addr, s[k].len - 1)], s[k].addr + (s[k].len - 1))
  }

  /** free_page: extend the last run, or push a run of one frame. */
  function FreePage(s: seq<Run>, frame: nat): (r: seq<Run>)
    ensures |s| <= |r| <= |s| + 1
  {
    if s != [] && frame == Wrap(s[|s| - 1].End()) then
      s[|s| - 1 := Run(s[|s| - 1].addr, s[|s| - 1].len + 1)]
    else
      s + [Run(frame, 1)]
  }

  /** Frames given back one by one. */
  function FreeAll(s: seq<Run>, frames: seq<nat>): (r: seq<Run>)
    ensures |s| <= |r| <= |s| + |frames|
  {
    if frames == [] then s
    else FreePage(FreeAll(s, frames[..|frames| - 1]), frames[|frames| - 1])
  }

  /** The list only gets longer on the way. */
  lemma {:induction false} FreeAllPrefix(s: seq<Run>, frames: seq<nat>, n: nat)
    requires n <= |frames|
    ensures |FreeAll(s, frames[..n])| <= |FreeAll(s, frames)|
    decreases |frames|
  {
    if n == |frames| {
      assert frames[..n] == frames;
    } else {
      var front := frames[..|frames| - 1];
      FreeAllPrefix(s, front, n);
      assert front[..n] == frames[..n];
    }
  }

  /** coalesce_loop's two tests, in 32-bit address arithmetic. */
  predicate Touches(a: Run, b: Run) {
    Wrap(a.End()) == b.addr || Wrap(b.End()) == a.addr
  }

  function FirstTouching(s: seq<Run>, k: nat, i: nat): (r: nat)
    requires k < |s| && i <= |s|
    ensures i <= r <= |s|
    ensures r < |s| ==> r != k && Touches(s[r], s[k])
    decreases |s| - i
  {
    if i == |s| || (i != k && Touches(s[i], s[k])) then i else FirstTouching(s, k, i + 1)
  }

  function Combined(ptr: Run, block: Run): Run {
    if Wrap(ptr.End()) == block.addr then Run(ptr.addr, ptr.len + block.len)
    else Run(block.addr, ptr.len + block.len)
  }

  function CombineAt(s: seq<Run>, k: nat, i: nat): seq<Run>
    requires k < |s| && i < |s| && i != k
  {
    RemoveAt(s[i := Combined(s[i], s[k])], k)
  }

  /** coalesce_loop on entry `k`, with the cursor coalesce_ptr at `c`.  The cursor moves both
      ways on the way, but it never ends below where it started, while the list never grows. */
  function CoalesceLoop(s: seq<Run>, k: nat, c: nat): (r: (seq<Run>, nat))
    requires k < |s|
    ensures 0 < |r.0| <= |s| && r.1 >= c
    ensures r.1 + |r.0| <= c + |s|
    decreases |s|, 1
  {
    var i := FirstTouching(s, k, 0);
    if i == |s| then (s, c) else CoalesceOn(s, k, i, c)
  }

  /** Entry `k` is combined into entry `i`, and coalesce_loop goes on with that one. */
  function CoalesceOn(s: seq<Run>, k: nat, i: nat, c: nat): (r: (seq<Run>, nat))
    requires k < |s| && i < |s| && i != k
    ensures 0 < |r.0| < |s| && r.1 >= c
    ensures r.1 + |r.0| <= c + |s|
    decreases |s|, 0
  {
    var (t, d) := CoalesceLoop(CombineAt(s, k, i), MergedIndex(k, i), if k < c then c - 1 else c);
    (t, d + 1)
  }

  /** The loop of coalesce. */
  function CoalesceFrom(s: seq<Run>, c: nat): (r: (seq<Run>, nat))
    ensures |r.0| <= |s| && r.1 == |r.0|
    decreases |s| - c
  {
    if c < |s| then
      var (t, d) := CoalesceLoop(s, c, c);
      CoalesceFrom(t, d + 1)
    else
      (s, |s|)
  }

  lemma CoalesceLoopIs(s: seq<Run>, k: nat, c: nat, i: nat)
    requires k < |s| && i == FirstTouching(s, k, 0)
    ensures CoalesceLoop(s, k, c) == if i == |s| then (s, c) else CoalesceOn(s, k, i, c)
  {
  }

  lemma CoalesceFromEnds(s: seq<Run>, c: nat)
    requires c >= |s|
    ensures CoalesceFrom(s, c) == (s, |s|)
  {
  }

  lemma CoalesceFromStep(s: seq<Run>, c: nat)
    requires c < |s|
    ensures var r := CoalesceLoop(s, c, c);
      CoalesceFrom(s, c) == CoalesceFrom(r.0, r.1 + 1) && |r.0| - (r.1 + 1) < |s| - c
  {
  }

  /** coalesce: nothing happens while there is exactly one run. */
  function Coalesce(s: seq<Run>, c: nat): (r: (seq<Run>, nat))
    ensures |r.0| <= |s|
  {
    if |s| == 1 then (s, c) else CoalesceFrom(s, c)
  }

  // ----- taking and giving back single frames

  lemma AllocPageTakes(s: seq<Run>)
    requires ValidRuns(s)
    ensures var (t, f) := AllocPage(s);
      ValidRuns(t) && |t| <= |s| &&
      (f == 0 <==> Pages(s) == {}) &&
      (f == 0 ==> t == s) &&
      (f != 0 ==> f in Pages(s) && FIRST_FRAME <= f < FRAMES && Pages(t) == Pages(s) - {f})
  {
    if s != [] {
      var k := |s| - 1;
      var rest, low := s[..k], Run(s[k].addr, s[k].len - 1);
      TopFrame(s);
      if s[k].len > 1 {
        assert s[k := low] == InsertAt(rest, k, low);
        PagesInsert(rest, k, low);
        InsertDisjoint(rest, k, low);
      } else {
        assert Span(low) == {};
      }
    }
  }

  /** The last run without its top frame. */
  lemma TopFrame(s: seq<Run>)
    requires ValidRuns(s) && s != []
    ensures var k := |s| - 1;
      var rest, low, f := s[..k], Run(s[k].addr, s[k].len - 1), s[k].addr + (s[k].len - 1);
      && ValidRuns(rest) && DisjointFrom(low, rest)
      && Pages(s) == Pages(rest) + Span(low) + {f} && f !in Pages(rest) && f !in Span(low)
  {
    var k := |s| - 1;
    var rest, low, f := s[..k], Run(s[k].addr, s[k].len - 1), s[k].addr + (s[k].len - 1);
    assert s == InsertAt(rest, k, s[k]);
    PagesInsert(rest, k, s[k]);
    assert Span(s[k]) == Span(low) + {f} by {
      forall p ensures p in Span(s[k]) <==> p in Span(low) || p == f {
        assert s[k].Holds(p) <==> low.Holds(p) || p == f;
      }
    }
    forall i | 0 <= i < |rest| ensures Disjoint(low, rest[i]) && !rest[i].Holds(f) {
      assert Disjoint(s[i], s[k]);
    }
  }

  /** The frame taken is the top one of the last run. */
  lemma TopTaken(s: seq<Run>)
    requires s != [] && s[|s| - 1].len > 0
    ensures AllocPage(s).1 + 1 == s[|s| - 1].End()
    ensures AllocPage(s).0 == s[..|s| - 1] + if s[|s| - 1].len == 1 then [] else [Run(s[|s| - 1].addr, s[|s| - 1].len - 1)]
  {
  }

  /** The allocator is a stack: giving back the frame just taken restores the list, exactly unless
      that frame was a run of its own behind a run that ends where it starts. */
  lemma TakeThenGive(s: seq<Run>)
    requires ValidRuns(s) && s != []
    ensures var k := |s| - 1; var (t, f) := AllocPage(s);
      FreePage(t, f) == s <==> !(s[k].len == 1 && k > 0 && s[k - 1].End() == s[k].addr)
  {
    var k := |s| - 1;
    var (t, f) := AllocPage(s);
    assert s == s[..k] + [s[k]];
    if s[k].len == 1 {
      assert t == s[..k] && s[k] == Run(f, 1);
      if k > 0 {
        assert t[k - 1] == s[k - 1] && s[k - 1].End() <= FRAMES && f < FRAMES;
      }
    }
  }

  /** The other way round: taking a frame after one was given yields that frame and the list. */
  lemma GiveThenTake(s: seq<Run>, f: nat)
    requires ValidRuns(s) && FIRST_FRAME <= f < FRAMES
    ensures AllocPage(FreePage(s, f)) == (s, f)
  {
    if s != [] && f == Wrap(s[|s| - 1].End()) {
      var k := |s| - 1;
      assert s[k].End() <= FRAMES;
      assert f == s[k].End();
      assert s[k := Run(s[k].addr, s[k].len + 1)][k := s[k]] == s;
    } else {
      assert (s + [Run(f, 1)])[..|s|] == s;
    }
  }

  /** No run starts where the run before it ends. */
  ghost predicate NoneFollows(s: seq<Run>) {
    forall i :: 0 <= i < |s| - 1 ==> Wrap(s[i].End()) != s[i + 1].addr
  }

  /** free_page extends such a run instead of starting another, and alloc_page only shortens. */
  lemma PageKeepsNoneFollows(s: seq<Run>, f: nat)
    requires NoneFollows(s)
    ensures NoneFollows(FreePage(s, f)) && NoneFollows(AllocPage(s).0)
  {
  }

  /** All that free_page does to the list. */
  lemma FreePageShape(s: seq<Run>, f: nat)
    requires ValidRuns(s) && FIRST_FRAME <= f < FRAMES
    ensures |FreePage(s, f)| == if s != [] && s[|s| - 1].End() == f then |s| else |s| + 1
    ensures NoneFollows(s) ==> NoneFollows(FreePage(s, f))
  {
    assert s != [] ==> s[|s| - 1].End() <= FRAMES;
    if NoneFollows(s) {
      PageKeepsNoneFollows(s, f);
    }
  }

  /** `n` frames taken one after the other. */
  function TakeAll(s: seq<Run>, n: nat): seq<Run> {
    if n == 0 then s else AllocPage(TakeAll(s, n - 1)).0
  }

  lemma {:induction false} TakeMore(s: seq<Run>, a: nat, b: nat)
    ensures TakeAll(TakeAll(s, a), b) == TakeAll(s, a + b)
    decreases b
  {
    if b > 0 {
      TakeMore(s, a, b - 1);
    }
  }

  lemma OneFrame(f: nat)
    ensures Span(Run(f, 1)) == {f}
  {
    forall p ensures p in Span(Run(f, 1)) <==> p == f {
      assert Run(f, 1).Holds(p) <==> p == f;
    }
  }

  lemma ExtendLast(s: seq<Run>, f: nat)
    requires ValidRuns(s) && s != [] && s[|s| - 1].End() == f < FRAMES && f !in Pages(s)
    ensures var k := |s| - 1;
      var t := s[k := Run(s[k].addr, s[k].len + 1)];
      ValidRuns(t) && Pages(t) == Pages(s) + {f}
  {
    var k, one := |s| - 1, Run(f, 1);
    var rest, y := RemoveAt(s, k), Join(s[k], one);
    OneFrame(f);
    DisjointPages(one, s);
    RemoveKeeps(s, k);
    forall i | 0 <= i < |rest| ensures Disjoint(one, rest[i]) {
      assert rest[i] == s[i];
    }
    JoinDisjoint(s[k], one, rest);
    InsertDisjoint(rest, k, y);
    PagesRemove(s, k);
    PagesInsert(rest, k, y);
    JoinSpan(s[k], one);
    assert s[k := y] == InsertAt(rest, k, y);
  }

  lemma FreePageGives(s: seq<Run>, f: nat)
    requires ValidRuns(s) && FIRST_FRAME <= f < FRAMES && f !in Pages(s)
    ensures ValidRuns(FreePage(s, f)) && Pages(FreePage(s, f)) == Pages(s) + {f}
  {
    var one := Run(f, 1);
    if s != [] && f == Wrap(s[|s| - 1].End()) {
      ExtendLast(s, f);
    } else {
      OneFrame(f);
      DisjointPages(one, s);
      assert s + [one] == InsertAt(s, |s|, one);
      PagesInsert(s, |s|, one);
      InsertDisjoint(s, |s|, one);
    }
  }

  // ----- coalescing

  /** For the runs of a valid list the 32-bit address tests are exact: nothing wraps into
      another run. */
  lemma WrapExact(s: seq<Run>, k: nat, i: nat)
    requires ValidRuns(s) && k < |s| && i < |s|
    ensures Touches(s[i], s[k]) <==> Adjacent(s[i], s[k])
    ensures Touches(s[i], s[k]) && i != k ==> CombineAt(s, k, i) == MergeAt(s, k, i)
  {
    assert s[i].addr < s[i].End() <= FRAMES && s[k].addr < s[k].End() <= FRAMES;
  }

  lemma {:induction false} FirstTouchingExact(s: seq<Run>, k: nat, i: nat)
    requires ValidRuns(s) && k < |s| && i <= |s|
    ensures var m := FirstTouching(s, k, i);
      m == FirstAdjacent(s, k, i) && (m < |s| ==> CombineAt(s, k, m) == MergeAt(s, k, m))
    decreases |s| - i
  {
    if i < |s| {
      WrapExact(s, k, i);
      FirstTouchingExact(s, k, i + 1);
    }
  }

  lemma MergeKeepsValid(s: seq<Run>, k: nat, i: nat)
    requires ValidRuns(s) && k < |s| && i < |s| && i != k && Adjacent(s[i], s[k])
    ensures ValidRuns(MergeAt(s, k, i)) && Pages(MergeAt(s, k, i)) == Pages(s)
  {
    MergeKeepsPages(s, k, i);
    MergeKeepsDisjoint(s, k, i);
    WithinPages(s, FIRST_FRAME, FRAMES);
    WithinPages(MergeAt(s, k, i), FIRST_FRAME, FRAMES);
  }

  lemma {:induction false} CoalesceLoopKeeps(s: seq<Run>, k: nat, c: nat)
    requires ValidRuns(s) && k < |s|
    ensures var r := CoalesceLoop(s, k, c).0; ValidRuns(r) && Pages(r) == Pages(s)
    decreases |s|
  {
    FirstTouchingExact(s, k, 0);
    var i := FirstTouching(s, k, 0);
    if i < |s| {
      MergeKeepsValid(s, k, i);
      CoalesceLoopKeeps(MergeAt(s, k, i), MergedIndex(k, i), if k < c then c - 1 else c);
    }
  }

  /** Entry `j` touches no other entry. */
  ghost predicate Settled(s: seq<Run>, j: nat) {
    j < |s| && forall i :: 0 <= i < |s| && i != j ==> !Adjacent(s[i], s[j])
  }

  /** The run that ends up holding the frames of entry `k` touches no other run. */
  lemma {:induction false} CoalesceLoopSettles(s: seq<Run>, k: nat, c: nat) returns (j: nat)
    requires ValidRuns(s) && k < |s|
    ensures var r := CoalesceLoop(s, k, c).0; Settled(r, j) && Span(s[k]) <= Span(r[j])
    decreases |s|
  {
    FirstTouchingExact(s, k, 0);
    var i := FirstTouching(s, k, 0);
    if i == |s| {
      j := k;
    } else {
      MergeShape(s, k, i);
      JoinSpan(s[i], s[k]);
      MergeKeepsValid(s, k, i);
      j := CoalesceLoopSettles(MergeAt(s, k, i), MergedIndex(k, i), if k < c then c - 1 else c);
    }
  }

  lemma MergeApart(s: seq<Run>, k: nat, i: nat)
    requires ValidRuns(s) && k < |s| && i < |s| && i != k && Adjacent(s[i], s[k])
    requires AllApart(RemoveAt(s, k))
    ensures AllApart(RemoveAt(MergeAt(s, k, i), MergedIndex(k, i)))
  {
    var rest, m := RemoveAt(s, k), MergedIndex(k, i);
    MergeShape(s, k, i);
    RemoveInsert(RemoveAt(rest, m), m, Join(s[i], s[k]));
    RemoveKeeps(rest, m);
  }

  lemma SettledApart(s: seq<Run>, k: nat)
    requires AllDisjoint(s) && Settled(s, k) && AllApart(RemoveAt(s, k))
    ensures AllApart(s)
  {
    var rest := RemoveAt(s, k);
    forall a, b | 0 <= a < b < |s| ensures Apart(s[a], s[b]) {
      assert Disjoint(s[a], s[b]);
      if a != k && b != k {
        assert Apart(rest[if a < k then a else a - 1], rest[if b < k then b else b - 1]);
      } else {
        assert !Adjacent(s[if a == k then b else a], s[k]);
      }
    }
  }

  /** If the other runs had gaps between them, afterwards all runs have. */
  lemma {:induction false} CoalesceLoopApart(s: seq<Run>, k: nat, c: nat)
    requires ValidRuns(s) && k < |s| && AllApart(RemoveAt(s, k))
    ensures AllApart(CoalesceLoop(s, k, c).0)
    decreases |s|
  {
    FirstTouchingExact(s, k, 0);
    var i := FirstTouching(s, k, 0);
    if i < |s| {
      MergeApart(s, k, i);
      MergeKeepsValid(s, k, i);
      CoalesceLoopApart(MergeAt(s, k, i), MergedIndex(k, i), if k < c then c - 1 else c);
    } else {
      SettledApart(s, k);
    }
  }

  lemma {:induction false} CoalesceFromKeeps(s: seq<Run>, c: nat)
    requires ValidRuns(s)
    ensures var r := CoalesceFrom(s, c).0; ValidRuns(r) && Pages(r) == Pages(s)
    decreases |s| - c
  {
    if c < |s| {
      var (t, d) := CoalesceLoop(s, c, c);
      CoalesceLoopKeeps(s, c, c);
      CoalesceFromKeeps(t, d + 1);
    }
  }

  /** coalesce never changes which frames are free, wherever its cursor stands. */
  lemma CoalesceKeeps(s: seq<Run>, c: nat)
    requires ValidRuns(s)
    ensures var r := Coalesce(s, c).0; ValidRuns(r) && Pages(r) == Pages(s)
  {
    CoalesceFromKeeps(s, c);
  }
}
