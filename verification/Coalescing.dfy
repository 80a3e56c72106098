/** When coalescing in the frame allocator (kernel/arch/i386/pmm.c) leaves nothing to merge. */
module Coalescing {
  import opened Extents
  import opened Markers
  import opened FrameListSpec

  /** All frames from run `x` to run `y` are free. */
  ghost predicate Joined(free: set<int>, x: Run, y: Run) {
    forall p :: (x.addr <= p < y.End() || y.addr <= p < x.End()) ==> p in free
  }

  /** All frames from run `i` to run `k` are free. */
  ghost predicate Chained(s: seq<Run>, k: nat, i: nat)
    requires k < |s| && i < |s|
  {
    Joined(Pages(s), s[k], s[i])
  }

  /** Run `a` touches another run. */
  ghost predicate Touched(s: seq<Run>, a: int) {
    0 <= a < |s| && exists b :: 0 <= b < |s| && b != a && Adjacent(s[a], s[b])
  }

  /** Every run that touches another is part of the free frames around run `k`. */
  ghost predicate OnlyChained(s: seq<Run>, k: nat)
    requires k < |s|
  {
    forall a :: Touched(s, a) ==> Chained(s, k, a)
  }

  /** coalesce_loop swallows runs into one, entry `j`, and leaves the others as they are. */
  lemma {:induction false} CoalesceLoopRest(s: seq<Run>, k: nat, c: nat) returns (j: nat)
    requires ValidRuns(s) && k < |s|
    ensures var r := CoalesceLoop(s, k, c).0;
      && Settled(r, j) && Span(s[k]) <= Span(r[j])
      && (forall x :: x in r && x != r[j] ==> x in s)
      && forall x :: x in s ==> x in r || Span(x) <= Span(r[j])
    decreases |s|
  {
    FirstTouchingExact(s, k, 0);
    var i := FirstTouching(s, k, 0);
    if i == |s| {
      j := k;
    } else {
      var t, m, d := MergeAt(s, k, i), MergedIndex(k, i), if k < c then c - 1 else c;
      MergeKeepsValid(s, k, i);
      j := CoalesceLoopRest(t, m, d);
      CoalesceLoopKeeps(t, m, d);
      JoinSpan(s[i], s[k]);
      MergedEntries(s, k, i);
      SwallowedIsGone(CoalesceLoop(t, m, d).0, j, t[m]);
    }
  }

  lemma MergedEntries(s: seq<Run>, k: nat, i: nat)
    requires k < |s| && i < |s| && i != k
    ensures var t, m := MergeAt(s, k, i), MergedIndex(k, i);
      && m < |t| && t[m] == Join(s[i], s[k])
      && (forall x :: x in t && x != t[m] ==> x in s)
      && forall x :: x in s ==> x in t || x == s[k] || x == s[i]
  {
    var t, m := MergeAt(s, k, i), MergedIndex(k, i);
    forall n | 0 <= n < |s| && n != k && n != i ensures s[n] in t {
      assert t[if n < k then n else n - 1] == s[n];
    }
    forall n | 0 <= n < |t| && n != m ensures t[n] in s {
      assert t[n] == s[if n < k then n else n + 1];
    }
  }

  /** A run inside entry `j` is that entry or none. */
  lemma SwallowedIsGone(r: seq<Run>, j: nat, x: Run)
    requires AllDisjoint(r) && j < |r| && x.len > 0 && Span(x) <= Span(r[j])
    ensures x in r ==> x == r[j]
  {
    assert x.Holds(x.addr) && x.addr in Span(x);
    if x in r {
      var n :| 0 <= n < |r| && r[n] == x;
      if n != j {
        DisjointHeld(r, n, j, x.addr);
      }
    }
  }

  /** The frames next to a settled entry are not free. */
  lemma SettledEnds(r: seq<Run>, j: nat)
    requires AllDisjoint(r) && AllPositive(r) && Settled(r, j)
    ensures r[j].End() !in Pages(r) && r[j].addr - 1 !in Pages(r)
  {
    forall n | 0 <= n < |r| ensures !r[n].Holds(r[j].End()) && !r[n].Holds(r[j].addr - 1) {
      assert n == j || !Adjacent(r[n], r[j]);
      assert n == j || (if n < j then Disjoint(r[n], r[j]) else Disjoint(r[j], r[n]));
    }
  }

  /** Exactly when does coalesce_loop leave gaps between all runs?  When every run that
      touches another belongs to the free frames around the run it is given. */
  lemma {:induction false} CoalesceLoopExact(s: seq<Run>, k: nat, c: nat)
    requires ValidRuns(s) && k < |s|
    ensures AllApart(CoalesceLoop(s, k, c).0) <==> OnlyChained(s, k)
  {
    var r := CoalesceLoop(s, k, c).0;
    var j := CoalesceLoopRest(s, k, c);
    CoalesceLoopKeeps(s, k, c);
    if AllApart(r) {
      forall a | Touched(s, a) ensures Chained(s, k, a) {
        var b :| 0 <= b < |s| && b != a && Adjacent(s[a], s[b]);
        TouchingSwallowed(s, r, j, a, b);
        SwallowedChained(s, k, r, j, a);
      }
    }
    if OnlyChained(s, k) {
      forall x, y | 0 <= x < y < |r| ensures Apart(r[x], r[y]) {
        if Adjacent(r[x], r[y]) {
          ApartFromSwallowed(s, k, r, j, x, y);
        }
        assert Disjoint(r[x], r[y]);
      }
    }
  }

  lemma NoTouch(r: seq<Run>, x: Run, y: Run)
    requires AllApart(r) && x in r && y in r && x != y
    ensures !Adjacent(x, y)
  {
    var n :| 0 <= n < |r| && r[n] == x;
    var m :| 0 <= m < |r| && r[m] == y;
    assert if n < m then Apart(r[n], r[m]) else Apart(r[m], r[n]);
  }

  /** A run beside a settled one touches no part of it. */
  lemma NoTouchInside(r: seq<Run>, j: nat, x: Run, y: Run)
    requires AllDisjoint(r) && AllPositive(r) && Settled(r, j)
    requires x in r && x != r[j] && y.len > 0 && Span(y) <= Span(r[j])
    ensures !Adjacent(x, y)
  {
    var n :| 0 <= n < |r| && r[n] == x;
    SpanEnds(y, r[j]);
    assert n != j && !Adjacent(r[n], r[j]);
    assert if n < j then Disjoint(r[n], r[j]) else Disjoint(r[j], r[n]);
  }

  lemma TouchingSwallowed(s: seq<Run>, r: seq<Run>, j: nat, a: nat, b: nat)
    requires AllDisjoint(s) && AllPositive(s) && AllDisjoint(r) && AllPositive(r) && AllApart(r) && Settled(r, j)
    requires a < |s| && b < |s| && a != b && Adjacent(s[a], s[b])
    requires forall x :: x in s ==> x in r || Span(x) <= Span(r[j])
    ensures Span(s[a]) <= Span(r[j])
  {
    Different(s, a, b);
    assert s[a] in s && s[b] in s;
    if !(Span(s[a]) <= Span(r[j])) {
      if s[b] in r {
        NoTouch(r, s[a], s[b]);
      } else {
        NoTouchInside(r, j, s[a], s[b]);
      }
    }
  }

  lemma SpanEnds(x: Run, y: Run)
    requires x.len > 0 && Span(x) <= Span(y)
    ensures y.addr <= x.addr && x.End() <= y.End()
  {
    assert x.Holds(x.addr) && x.addr in Span(x);
    assert x.Holds(x.End() - 1) && x.End() - 1 in Span(x);
  }

  lemma SwallowedChained(s: seq<Run>, k: nat, r: seq<Run>, j: nat, a: nat)
    requires AllPositive(s) && k < |s| && a < |s| && j < |r| && Pages(r) == Pages(s)
    requires Span(s[k]) <= Span(r[j]) && Span(s[a]) <= Span(r[j])
    ensures Chained(s, k, a)
  {
    SpanEnds(s[k], r[j]);
    SpanEnds(s[a], r[j]);
    forall p | s[k].addr <= p < s[a].End() || s[a].addr <= p < s[k].End() ensures p in Pages(s) {
      assert r[j].Holds(p);
    }
  }

  lemma ApartFromSwallowed(s: seq<Run>, k: nat, r: seq<Run>, j: nat, x: nat, y: nat)
    requires AllDisjoint(r) && AllPositive(r) && Settled(r, j) && Pages(r) == Pages(s)
    requires k < |s| && s[k].len > 0 && Span(s[k]) <= Span(r[j]) && OnlyChained(s, k)
    requires forall z :: z in r && z != r[j] ==> z in s
    requires x < y < |r|
    ensures !Adjacent(r[x], r[y])
  {
    if x != j && y != j {
      Different(r, x, j);
      Different(r, y, j);
      assert r[x] in r && r[y] in r;
      var a :| 0 <= a < |s| && s[a] == r[x];
      var b :| 0 <= b < |s| && s[b] == r[y];
      Different(r, x, y);
      NotChained(s, k, r, j, x, a);
      assert !Touched(s, a);
    }
  }

  lemma NotChained(s: seq<Run>, k: nat, r: seq<Run>, j: nat, x: nat, a: nat)
    requires AllDisjoint(r) && AllPositive(r) && Settled(r, j) && Pages(r) == Pages(s)
    requires k < |s| && s[k].len > 0 && Span(s[k]) <= Span(r[j])
    requires x < |r| && x != j && a < |s| && s[a] == r[x]
    ensures !Chained(s, k, a)
  {
    SettledEnds(r, j);
    SpanEnds(s[k], r[j]);
    assert if x < j then Disjoint(r[x], r[j]) else Disjoint(r[j], r[x]);
    var p := if r[x].addr >= r[j].End() then r[j].End() else r[j].addr - 1;
    assert p !in Pages(s);
    assert s[k].addr <= p < s[a].End() || s[a].addr <= p < s[k].End();
  }

  lemma Different(r: seq<Run>, x: nat, j: nat)
    requires AllDisjoint(r) && AllPositive(r) && x < |r| && j < |r| && x != j
    ensures r[x] != r[j]
  {
    assert if x < j then Disjoint(r[x], r[j]) else Disjoint(r[j], r[x]);
  }

  /** The runs that the loop of coalesce hands to coalesce_loop, as they are at that time. */
  function Given(s: seq<Run>, c: nat): seq<Run>
    decreases |s| - c
  {
    if c < |s| then
      var (t, d) := CoalesceLoop(s, c, c);
      [s[c]] + Given(t, d + 1)
    else
      []
  }

  /** Run `x` lies in one stretch of free frames with one of the runs `given`. */
  ghost predicate Reached(free: set<int>, given: seq<Run>, x: Run) {
    exists g :: g in given && Joined(free, g, x)
  }

  /** Every run that touches another does. */
  ghost predicate AllReached(s: seq<Run>, given: seq<Run>) {
    forall a :: Touched(s, a) ==> Reached(Pages(s), given, s[a])
  }

  /** What coalesce_loop on entry `c` of list `s` leaves: run `j` of list `t` around that entry, and
      the other runs as they were. */
  ghost predicate Swallowed(s: seq<Run>, c: nat, t: seq<Run>, j: nat) {
    && ValidRuns(s) && ValidRuns(t) && Pages(t) == Pages(s) && c < |s|
    && Settled(t, j) && Span(s[c]) <= Span(t[j])
    && (forall x :: x in t && x != t[j] ==> x in s)
    && forall x :: x in s ==> x in t || Span(x) <= Span(t[j])
  }

  /** A run that touches another, away from the given one, still does. */
  lemma TouchedLeft(s: seq<Run>, c: nat, t: seq<Run>, j: nat, a: nat) returns (n: nat)
    requires Swallowed(s, c, t, j) && Touched(s, a) && !Chained(s, c, a)
    ensures Touched(t, n) && t[n] == s[a]
  {
    var b :| 0 <= b < |s| && b != a && Adjacent(s[a], s[b]);
    assert s[a] in s && s[b] in s;
    if Span(s[a]) <= Span(t[j]) {
      SwallowedChained(s, c, t, j, a);
    }
    if Span(s[b]) <= Span(t[j]) {
      NoTouchInside(t, j, s[a], s[b]);
    }
    Different(s, a, b);
    n :| 0 <= n < |t| && t[n] == s[a];
    var m :| 0 <= m < |t| && t[m] == s[b];
    assert Adjacent(t[n], t[m]);
  }

  /** And one that touches another did so before, away from the given run. */
  lemma TouchedBefore(s: seq<Run>, c: nat, t: seq<Run>, j: nat, n: nat) returns (a: nat)
    requires Swallowed(s, c, t, j) && Touched(t, n)
    ensures Touched(s, a) && s[a] == t[n] && !Chained(s, c, a)
  {
    var m :| 0 <= m < |t| && m != n && Adjacent(t[n], t[m]);
    assert n != j && m != j;
    Different(t, n, m);
    Different(t, n, j);
    Different(t, m, j);
    assert t[n] in t && t[m] in t;
    a :| 0 <= a < |s| && s[a] == t[n];
    var b :| 0 <= b < |s| && s[b] == t[m];
    assert Adjacent(s[a], s[b]);
    NotChained(s, c, t, j, n, a);
  }

  lemma ReachedFirst(free: set<int>, first: Run, rest: seq<Run>, x: Run)
    ensures Reached(free, [first] + rest, x) <==> Joined(free, first, x) || Reached(free, rest, x)
  {
    var given := [first] + rest;
    if Joined(free, first, x) {
      assert first in given;
    }
    if Reached(free, rest, x) {
      var g :| g in rest && Joined(free, g, x);
      assert g in given;
    }
  }

  lemma ReachedBefore(s: seq<Run>, c: nat, t: seq<Run>, j: nat, rest: seq<Run>)
    requires Swallowed(s, c, t, j) && AllReached(t, rest)
    ensures AllReached(s, [s[c]] + rest)
  {
    forall a | Touched(s, a) ensures Reached(Pages(s), [s[c]] + rest, s[a]) {
      ReachedFirst(Pages(s), s[c], rest, s[a]);
      if !Chained(s, c, a) {
        var n := TouchedLeft(s, c, t, j, a);
        assert Reached(Pages(t), rest, t[n]);
      }
    }
  }

  lemma ReachedLater(s: seq<Run>, c: nat, t: seq<Run>, j: nat, rest: seq<Run>)
    requires Swallowed(s, c, t, j) && AllReached(s, [s[c]] + rest)
    ensures AllReached(t, rest)
  {
    forall n | Touched(t, n) ensures Reached(Pages(t), rest, t[n]) {
      var a := TouchedBefore(s, c, t, j, n);
      assert Reached(Pages(s), [s[c]] + rest, s[a]);
      ReachedFirst(Pages(s), s[c], rest, s[a]);
    }
  }

  lemma LoopSwallows(s: seq<Run>, c: nat) returns (j: nat)
    requires ValidRuns(s) && c < |s|
    ensures Swallowed(s, c, CoalesceLoop(s, c, c).0, j)
  {
    j := CoalesceLoopRest(s, c, c);
    CoalesceLoopKeeps(s, c, c);
  }

  /** The same behind a marker, for the induction over the loop. */
  ghost predicate Reaching(s: seq<Run>, given: seq<Run>) {
    forall i {:trigger Ask(Runs, i)} :: Ask(Runs, i) ==> AllReached(s, given)
  }

  lemma ReachedStep(s: seq<Run>, c: nat, t: seq<Run>, given: seq<Run>, rest: seq<Run>)
    requires GoodRuns(s) && c < |s| && t == CoalesceLoop(s, c, c).0 && given == [s[c]] + rest
    ensures GoodRuns(t) && (Reaching(s, given) <==> Reaching(t, rest))
  {
    assert Ask(Runs, 0);
    var j := LoopSwallows(s, c);
    if AllReached(t, rest) {
      ReachedBefore(s, c, t, j, rest);
    }
    if AllReached(s, given) {
      ReachedLater(s, c, t, j, rest);
    }
  }

  lemma NoTouchApart(s: seq<Run>)
    requires AllDisjoint(s) && AllPositive(s)
    ensures AllApart(s) <==> forall a :: !Touched(s, a)
  {
    if AllApart(s) {
      forall a, b | 0 <= a < |s| && 0 <= b < |s| && a != b ensures !Adjacent(s[a], s[b]) {
        assert if a < b then Apart(s[a], s[b]) else Apart(s[b], s[a]);
      }
    }
    if forall a :: !Touched(s, a) {
      forall a, b | 0 <= a < b < |s| ensures Apart(s[a], s[b]) {
        assert Disjoint(s[a], s[b]) && !Touched(s, a);
      }
    }
  }

  lemma GivenStep(s: seq<Run>, c: nat) returns (t: seq<Run>, d: nat)
    requires c < |s|
    ensures t == CoalesceLoop(s, c, c).0 && |t| - d < |s| - c
    ensures CoalesceFrom(s, c) == CoalesceFrom(t, d) && Given(s, c) == [s[c]] + Given(t, d)
  {
    var loop := CoalesceLoop(s, c, c);
    t, d := loop.0, loop.1 + 1;
  }

  lemma NoneReached(s: seq<Run>)
    requires GoodRuns(s)
    ensures Reaching(s, []) <==> AllApart(s)
  {
    assert Ask(Runs, 0);
    NoTouchApart(s);
  }

  lemma {:induction false} CoalesceFromExact(s: seq<Run>, c: nat)
    requires GoodRuns(s)
    ensures AllApart(CoalesceFrom(s, c).0) <==> Reaching(s, Given(s, c))
    decreases |s| - c
  {
    if c < |s| {
      var t, d := GivenStep(s, c);
      ReachedStep(s, c, t, Given(s, c), Given(t, d));
      CoalesceFromExact(t, d);
    } else {
      NoneReached(s);
    }
  }

  /** Exactly when does coalesce leave gaps between all runs, wherever its cursor stands?  When every
      stretch of free frames in which runs touch holds one of the runs that it looks at. */
  lemma CoalesceExact(s: seq<Run>, c: nat)
    requires ValidRuns(s)
    ensures AllApart(Coalesce(s, c).0) <==> AllReached(s, Given(s, c))
  {
    assert Ask(Runs, 0);
    if |s| != 1 {
      CoalesceFromExact(s, c);
    }
  }

  /** All runs that touch another are in one stretch of free frames. */
  ghost predicate OneStretch(s: seq<Run>) {
    forall a, b :: Touched(s, a) && Touched(s, b) ==> Chained(s, a, b)
  }

  lemma {:induction false} ApartStays(s: seq<Run>, c: nat)
    requires ValidRuns(s) && AllApart(s)
    ensures CoalesceFrom(s, c).0 == s
    decreases |s| - c
  {
    if c < |s| {
      NoTouchApart(s);
      Untouched(s, c, c);
      ApartStays(s, c + 1);
    }
  }

  lemma Untouched(s: seq<Run>, k: nat, c: nat)
    requires ValidRuns(s) && k < |s| && !Touched(s, k)
    ensures CoalesceLoop(s, k, c) == (s, c)
  {
    FirstTouchingExact(s, k, 0);
  }

  lemma {:induction false} CoalesceFromStretch(s: seq<Run>, c: nat)
    requires ValidRuns(s) && OneStretch(s)
    ensures AllApart(CoalesceFrom(s, c).0) <==>
      ((exists a :: Touched(s, a)) ==> exists k :: c <= k && Touched(s, k))
    decreases |s| - c
  {
    if c >= |s| {
      NoTouchApart(s);
    } else if Touched(s, c) {
      var t, d := GivenStep(s, c);
      CoalesceLoopExact(s, c, c);
      CoalesceLoopKeeps(s, c, c);
      ApartStays(t, d);
    } else {
      Untouched(s, c, c);
      CoalesceFromStretch(s, c + 1);
    }
  }

  /** When all runs that touch are in one stretch of free frames, coalesce leaves gaps between all
      runs exactly when its cursor has not passed all entries of that stretch. */
  lemma CoalesceOneStretch(s: seq<Run>, c: nat)
    requires ValidRuns(s) && OneStretch(s)
    ensures AllApart(Coalesce(s, c).0) <==>
      ((exists a :: Touched(s, a)) ==> exists k :: c <= k && Touched(s, k))
  {
    if |s| != 1 {
      CoalesceFromStretch(s, c);
    }
  }

  /** In particular it does when every run that touches another is in one stretch of free frames with
      the run under the cursor. */
  lemma CoalesceChained(s: seq<Run>, c: nat)
    requires ValidRuns(s) && c < |s| && OnlyChained(s, c)
    ensures AllApart(Coalesce(s, c).0)
  {
    if |s| > 1 {
      var t, d := GivenStep(s, c);
      CoalesceLoopExact(s, c, c);
      CoalesceLoopKeeps(s, c, c);
      ApartStays(t, d);
    }
  }

  /** With more than one run to look at it may not: a merge makes the cursor jump over runs.  Here
      coalesce merges 2044, 2043 and 2042 into the run below them and passes over 2048 and 2047. */
  lemma CoalesceSkips()
    ensures var s := FreeAll([Run(1024, 1018)], [2044, 2043, 2042, 2048, 2047]);
      ValidRuns(s) && Coalesce(s, 1).0 == [Run(1024, 1021), Run(2048, 1), Run(2047, 1)] &&
      !AllApart(Coalesce(s, 1).0)
  {
    var s := FreeAll([Run(1024, 1018)], [2044, 2043, 2042, 2048, 2047]);
    FreedOneByOne();
    FreedValid();
    SkipLoop();
    var t := CoalesceLoop(s, 1, 1).0;
    assert CoalesceFrom(s, 1) == CoalesceFrom(t, 5) == (t, 3);
    assert !Apart(t[1], t[2]);
  }

  lemma FreedValid()
    ensures ValidRuns([Run(1024, 1018), Run(2044, 1), Run(2043, 1), Run(2042, 1), Run(2048, 1), Run(2047, 1)])
  {
  }

  lemma SkipLoop()
    ensures CoalesceLoop([Run(1024, 1018), Run(2044, 1), Run(2043, 1), Run(2042, 1), Run(2048, 1), Run(2047, 1)], 1, 1) ==
      ([Run(1024, 1021), Run(2048, 1), Run(2047, 1)], 4)
  {
    var s := [Run(1024, 1018), Run(2044, 1), Run(2043, 1), Run(2042, 1), Run(2048, 1), Run(2047, 1)];
    var s1 := [Run(1024, 1018), Run(2043, 2), Run(2042, 1), Run(2048, 1), Run(2047, 1)];
    assert FirstTouching(s, 1, 0) == 2 && CombineAt(s, 1, 2) == s1;
    SkipMore();
  }

  lemma SkipMore()
    ensures CoalesceLoop([Run(1024, 1018), Run(2043, 2), Run(2042, 1), Run(2048, 1), Run(2047, 1)], 1, 1) ==
      ([Run(1024, 1021), Run(2048, 1), Run(2047, 1)], 3)
  {
    var s := [Run(1024, 1018), Run(2043, 2), Run(2042, 1), Run(2048, 1), Run(2047, 1)];
    var s1 := [Run(1024, 1018), Run(2042, 3), Run(2048, 1), Run(2047, 1)];
    var t := [Run(1024, 1021), Run(2048, 1), Run(2047, 1)];
    assert FirstTouching(s, 1, 0) == 2 && CombineAt(s, 1, 2) == s1;
    assert FirstTouching(s1, 1, 0) == 0 && CombineAt(s1, 1, 0) == t;
    assert FirstTouching(t, 0, 0) == 3;
    assert CoalesceLoop(t, 0, 1) == (t, 1);
    assert CoalesceLoop(s1, 1, 1) == (t, 2);
  }

  lemma FreedOneByOne()
    ensures FreeAll([Run(1024, 1018)], [2044, 2043, 2042, 2048, 2047]) ==
      [Run(1024, 1018), Run(2044, 1), Run(2043, 1), Run(2042, 1), Run(2048, 1), Run(2047, 1)]
  {
    var s := [Run(1024, 1018)];
    var frames := [2044, 2043, 2042, 2048, 2047];
    assert frames[..4] == [2044, 2043, 2042, 2048];
    assert [2044, 2043, 2042, 2048][..3] == [2044, 2043, 2042];
    assert [2044, 2043, 2042][..2] == [2044, 2043];
    assert [2044, 2043][..1] == [2044];
    assert [2044][..0] == [];
    assert FreeAll(s, []) == s;
    assert FreeAll(s, [2044]) == s + [Run(2044, 1)];
    assert FreeAll(s, [2044, 2043]) == s + [Run(2044, 1), Run(2043, 1)];
    assert FreeAll(s, [2044, 2043, 2042]) == s + [Run(2044, 1), Run(2043, 1), Run(2042, 1)];
  }

  // ----- where the cursor ends

  /** The slots that are left when coalesce_loop closes up the slot of every run that it merges into
      another; `slots` names those of the list. */
  function SlotsLeft(s: seq<Run>, k: nat, slots: seq<nat>): (r: seq<nat>)
    requires k < |s| == |slots|
    ensures |r| <= |slots|
    decreases |s|
  {
    var i := FirstTouching(s, k, 0);
    if i == |s| then slots else SlotsLeft(CombineAt(s, k, i), MergedIndex(k, i), RemoveAt(slots, k))
  }

  /** How many of the slots lie before slot `c`. */
  function Before(slots: seq<nat>, c: nat): (n: nat)
    ensures n <= |slots|
  {
    if slots == [] then 0
    else Before(slots[..|slots| - 1], c) + if slots[|slots| - 1] < c then 1 else 0
  }

  ghost predicate Increasing(slots: seq<nat>) {
    forall i, j :: 0 <= i < j < |slots| ==> slots[i] < slots[j]
  }

  lemma {:induction false} BeforeSplits(slots: seq<nat>, c: nat, k: nat)
    requires Increasing(slots) && k < |slots|
    ensures slots[k] < c <==> k < Before(slots, c)
    decreases |slots|
  {
    var n := |slots| - 1;
    var front := slots[..n];
    if k < n {
      BeforeSplits(front, c, k);
      assert front[k] == slots[k];
      if k >= Before(front, c) {
        assert slots[n] > slots[k];
      }
    } else {
      BeforeAll(front, c, slots[n]);
    }
  }

  lemma {:induction false} BeforeAll(slots: seq<nat>, c: nat, limit: nat)
    requires forall i :: 0 <= i < |slots| ==> slots[i] < limit
    ensures limit <= c ==> Before(slots, c) == |slots|
    decreases |slots|
  {
    if slots != [] {
      BeforeAll(slots[..|slots| - 1], c, limit);
    }
  }

  lemma {:induction false} BeforeRemove(slots: seq<nat>, c: nat, k: nat)
    requires k < |slots|
    ensures Before(slots, c) == Before(RemoveAt(slots, k), c) + if slots[k] < c then 1 else 0
    decreases |slots|
  {
    var n := |slots| - 1;
    if k < n {
      var t := RemoveAt(slots, k);
      BeforeRemove(slots[..n], c, k);
      assert t[..n - 1] == RemoveAt(slots[..n], k) && t[n - 1] == slots[n];
    } else {
      assert RemoveAt(slots, k) == slots[..n];
    }
  }

  /** List and cursor `r`, made of `n` runs of which the slots `left` are left. */
  predicate EndsBehind(r: (seq<Run>, nat), n: nat, left: seq<nat>, c: nat) {
    |left| == |r.0| <= n && r.1 == Before(left, c) + (n - |r.0|)
  }

  lemma {:induction false} CursorTrace(s: seq<Run>, k: nat, slots: seq<nat>, c: nat, b: nat)
    returns (r: (seq<Run>, nat), left: seq<nat>)
    requires k < |s| == |slots| && Increasing(slots) && b == Before(slots, c)
    ensures r == CoalesceLoop(s, k, b) && left == SlotsLeft(s, k, slots)
    ensures EndsBehind(r, |s|, left, c)
    decreases |s|
  {
    if FirstTouching(s, k, 0) < |s| {
      var t, m, fewer, d := OneMerge(s, k, slots, b);
      assert Before(fewer, c) == d by {
        BeforeSplits(slots, c, k);
        BeforeRemove(slots, c, k);
      }
      var rest;
      rest, left := CursorTrace(t, m, fewer, c, d);
      r := (rest.0, rest.1 + 1);
    } else {
      NoMerge(s, k, slots, b);
      r, left := (s, b), slots;
    }
  }

  function AllSlots(n: nat): (r: seq<nat>)
    ensures |r| == n && forall i :: 0 <= i < n ==> r[i] == i
  {
    if n == 0 then [] else AllSlots(n - 1) + [n - 1]
  }

  lemma {:induction false} BeforeAllSlots(n: nat, c: nat)
    ensures Before(AllSlots(n), c) == if c <= n then c else n
  {
    if n > 0 {
      BeforeAllSlots(n - 1, c);
      assert AllSlots(n)[..n - 1] == AllSlots(n - 1);
    }
  }

  /** Where coalesce_loop leaves the cursor: it stands behind the slots that were before it and are
      left, and one further for every merge. */
  lemma CursorEnds(s: seq<Run>, k: nat, c: nat)
    requires k < |s| && c <= |s|
    ensures EndsBehind(CoalesceLoop(s, k, c), |s|, SlotsLeft(s, k, AllSlots(|s|)), c)
  {
    BeforeAllSlots(|s|, c);
    var r, left := CursorTrace(s, k, AllSlots(|s|), c, c);
  }

  lemma NoMerge(s: seq<Run>, k: nat, slots: seq<nat>, c: nat)
    requires k < |s| == |slots| && FirstTouching(s, k, 0) == |s|
    ensures CoalesceLoop(s, k, c) == (s, c) && SlotsLeft(s, k, slots) == slots
  {
  }

  lemma OneMerge(s: seq<Run>, k: nat, slots: seq<nat>, c: nat) returns (t: seq<Run>, m: nat, fewer: seq<nat>, d: nat)
    requires k < |s| == |slots| && Increasing(slots) && FirstTouching(s, k, 0) < |s|
    ensures m < |t| == |fewer| == |s| - 1 && fewer == RemoveAt(slots, k) && Increasing(fewer)
    ensures SlotsLeft(s, k, slots) == SlotsLeft(t, m, fewer)
    ensures d == if k < c then c - 1 else c
    ensures CoalesceLoop(s, k, c) == (CoalesceLoop(t, m, d).0, CoalesceLoop(t, m, d).1 + 1)
  {
    var i := FirstTouching(s, k, 0);
    t, m, fewer := CombineAt(s, k, i), MergedIndex(k, i), RemoveAt(slots, k);
    d := if k < c then c - 1 else c;
  }

  // ----- what one call of coalesce does, in one place

  /** The list and the cursor after coalesce, in terms of those before. */
  ghost predicate Tidied(s: seq<Run>, c: nat, t: seq<Run>, d: nat) {
    && ValidRuns(t) && Pages(t) == Pages(s) && |t| <= |s|
    && (if |s| == 1 then t == s && d == c else d == |t|)
    && (AllApart(t) <==> AllReached(s, Given(s, c)))
    && (OneStretch(s) ==> (AllApart(t) <==> ((exists a :: Touched(s, a)) ==> exists k :: c <= k && Touched(s, k))))
    && (c < |s| && OnlyChained(s, c) ==> AllApart(t))
  }

  lemma CoalesceTidies(s: seq<Run>, c: nat)
    requires ValidRuns(s)
    ensures var r := Coalesce(s, c); Tidied(s, c, r.0, r.1)
  {
    CoalesceKeeps(s, c);
    CoalesceExact(s, c);
    if OneStretch(s) {
      CoalesceOneStretch(s, c);
    }
    if c < |s| && OnlyChained(s, c) {
      CoalesceChained(s, c);
    }
  }
}
