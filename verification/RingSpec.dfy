/** Round-robin scheduling (kernel/arch/i386/thread.c) as a ring of threads: the running thread
    first, then the others in the order in which they will run. */
module RingSpec {
  import opened Extents

  datatype Event =
    | Switch                       // switch_thread
    | Spawn(id: nat, place: nat)   // new_thread, with the ring place of the new thread
    | Kill(place: nat)             // kill_thread on another thread, at that ring place
    | SelfKill                     // kill_thread on the running thread
    | Refused                      // a call that does nothing

  ghost predicate Step(r: seq<nat>, e: Event, t: seq<nat>) {
    match e
    case Switch => r != [] && t == if |r| >= 2 then r[1..] + [r[0]] else r
    case Spawn(id, j) => 1 <= j <= |r| && id !in r && t == InsertAt(r, j, id)
    case Kill(k) => 1 <= k < |r| && t == RemoveAt(r, k)
    case SelfKill => |r| >= 2 && t == r[1..]
    case Refused => t == r
  }

  /** The event puts another thread onto the processor. */
  predicate Dispatching(r: seq<nat>, e: Event) {
    |r| >= 2 && (e.Switch? || e.SelfKill?)
  }

  /** The event dispatches thread `u`: the second of the ring becomes the first. */
  predicate Dispatches(r: seq<nat>, e: Event, u: nat) {
    Dispatching(r, e) && r[1] == u
  }

  ghost predicate IsRun(rings: seq<seq<nat>>, events: seq<Event>) {
    && |rings| == |events| + 1 && NoDuplicates(rings[0])
    && forall i {:trigger events[i]} :: 0 <= i < |events| ==> Step(rings[i], events[i], rings[i + 1])
  }

  /** How often events `a` up to `b` dispatch thread `u`. */
  ghost function Count(rings: seq<seq<nat>>, events: seq<Event>, u: nat, a: nat, b: nat): nat
    requires a <= b <= |events| && |rings| == |events| + 1
    decreases b - a
  {
    if a == b then 0
    else Count(rings, events, u, a, b - 1) + if Dispatches(rings[b - 1], events[b - 1], u) then 1 else 0
  }

  lemma StepDistinct(r: seq<nat>, e: Event, t: seq<nat>)
    requires NoDuplicates(r) && Step(r, e, t)
    ensures NoDuplicates(t)
  {
  }

  lemma {:induction false} RunDistinct(rings: seq<seq<nat>>, events: seq<Event>, n: nat)
    requires IsRun(rings, events) && n < |rings|
    ensures NoDuplicates(rings[n])
  {
    if n > 0 {
      RunDistinct(rings, events, n - 1);
      assert Step(rings[n - 1], events[n - 1], rings[n]);
      StepDistinct(rings[n - 1], events[n - 1], rings[n]);
    }
  }

  /** Where the thread at place `p` is after the event, if it survives. */
  function Moved(n: nat, e: Event, p: nat): int {
    match e
    case Switch => if n < 2 then p else if p == 0 then n - 1 else p - 1
    case Spawn(_, j) => if p < j then p else p + 1
    case Kill(k) => if p < k then p else p - 1
    case SelfKill => p - 1
    case Refused => p
  }

  lemma StepMoves(r: seq<nat>, e: Event, t: seq<nat>, p: nat)
    requires NoDuplicates(r) && Step(r, e, t) && p < |r| && r[p] in t
    ensures var q := Moved(|r|, e, p); 0 <= q < |t| && t[q] == r[p]
    ensures e.Kill? ==> p != e.place
    ensures e.SelfKill? ==> p != 0
  {
    match e {
      case Kill(k) =>
        var q :| 0 <= q < |t| && t[q] == r[p];
        assert t[q] == r[if q < k then q else q + 1];
      case SelfKill =>
        var q :| 0 <= q < |t| && t[q] == r[p];
        assert t[q] == r[q + 1];
      case _ =>
    }
  }

  /** The order of two threads in the ring, since thread `t` last ran: `u` comes next of the two
      until it has run, then `t` does. */
  ghost predicate Phase(p: nat, q: nat, count: nat) {
    if count == 0 then p == 0 || 0 < q < p else count == 1 && (q == 0 || 0 < p < q)
  }

  lemma PhaseStep(r: seq<nat>, e: Event, s: seq<nat>, p: nat, q: nat, count: nat)
    requires NoDuplicates(r) && Step(r, e, s) && p < |r| && q < |r| && p != q
    requires r[p] in s && r[q] in s && !Dispatches(r, e, r[p]) && Phase(p, q, count)
    ensures var p', q' := Moved(|r|, e, p), Moved(|r|, e, q);
      0 <= p' < |s| && s[p'] == r[p] && 0 <= q' < |s| && s[q'] == r[q] &&
      Phase(p', q', count + if Dispatches(r, e, r[q]) then 1 else 0)
  {
    StepMoves(r, e, s, p);
    StepMoves(r, e, s, q);
    assert Dispatches(r, e, r[p]) <==> Dispatching(r, e) && p == 1;
    assert Dispatches(r, e, r[q]) <==> Dispatching(r, e) && q == 1;
  }

  /** `t` runs after event `a`, and does not get dispatched again before event `n`; both threads
      stay alive. */
  ghost predicate Waiting(rings: seq<seq<nat>>, events: seq<Event>, t: nat, u: nat, a: nat, n: nat) {
    && IsRun(rings, events) && a < n <= |events| && t != u
    && rings[a + 1] != [] && rings[a + 1][0] == t
    && (forall i :: a < i <= n ==> t in rings[i] && u in rings[i])
    && forall i {:trigger events[i]} :: a < i < n ==> !Dispatches(rings[i], events[i], t)
  }

  /** The two threads stand at places `p` and `q`, in the order that the count calls for. */
  ghost predicate Standing(r: seq<nat>, t: nat, u: nat, p: nat, q: nat, count: nat) {
    p < |r| && r[p] == t && q < |r| && r[q] == u && Phase(p, q, count)
  }

  lemma {:induction false} PhaseHolds(rings: seq<seq<nat>>, events: seq<Event>, t: nat, u: nat, a: nat, n: nat)
    returns (p: nat, q: nat)
    requires Waiting(rings, events, t, u, a, n)
    ensures Standing(rings[n], t, u, p, q, Count(rings, events, u, a + 1, n))
    decreases n
  {
    if n == a + 1 {
      p, q := PhaseStarts(rings[n], t, u);
    } else {
      var p0, q0 := PhaseHolds(rings, events, t, u, a, n - 1);
      p, q := PhaseNext(rings, events, n - 1, t, u, p0, q0, Count(rings, events, u, a + 1, n - 1));
    }
  }

  lemma PhaseStarts(r: seq<nat>, t: nat, u: nat) returns (p: nat, q: nat)
    requires r != [] && r[0] == t && u in r && t != u
    ensures Standing(r, t, u, p, q, 0)
  {
    p := 0;
    q :| 0 <= q < |r| && r[q] == u;
  }

  lemma PhaseNext(rings: seq<seq<nat>>, events: seq<Event>, n: nat, t: nat, u: nat, p: nat, q: nat, count: nat)
    returns (p': nat, q': nat)
    requires IsRun(rings, events) && n < |events| && t != u && t in rings[n + 1] && u in rings[n + 1]
    requires !Dispatches(rings[n], events[n], t) && Standing(rings[n], t, u, p, q, count)
    ensures Standing(rings[n + 1], t, u, p', q', count + if Dispatches(rings[n], events[n], u) then 1 else 0)
  {
    var r, e := rings[n], events[n];
    RunDistinct(rings, events, n);
    PhaseStep(r, e, rings[n + 1], p, q, count);
    p', q' := Moved(|r|, e, p), Moved(|r|, e, q);
  }

  /** Between two consecutive dispatches of a thread, events `a` and `b`, every other thread that
      is alive throughout is dispatched exactly once, whatever mix of switches, new threads and
      killed threads comes in between. */
  lemma ExactlyOnce(rings: seq<seq<nat>>, events: seq<Event>, t: nat, u: nat, a: nat, b: nat)
    requires Waiting(rings, events, t, u, a, b) && b < |events|
    requires Dispatches(rings[a], events[a], t) && Dispatches(rings[b], events[b], t)
    ensures Count(rings, events, u, a + 1, b) == 1
  {
    var p, q := PhaseHolds(rings, events, t, u, a, b);
    RunDistinct(rings, events, b);
    assert p == 1;
  }

  // ----- how long a thread waits

  /** The number of events that put another thread onto the processor. */
  ghost function Turns(rings: seq<seq<nat>>, events: seq<Event>, n: nat): nat
    requires n <= |events| && |rings| == |events| + 1
  {
    if n == 0 then 0
    else Turns(rings, events, n - 1) + if Dispatching(rings[n - 1], events[n - 1]) then 1 else 0
  }

  /** The place of a thread in the ring. */
  ghost function PlaceOf(r: seq<nat>, u: nat): (p: nat)
    requires u in r
    ensures p < |r| && r[p] == u
  {
    var p: nat :| p < |r| && r[p] == u;
    p
  }

  /** New threads that came to stand before thread `u`. */
  ghost function SpawnsAhead(rings: seq<seq<nat>>, events: seq<Event>, u: nat, n: nat): nat
    requires n <= |events| && |rings| == |events| + 1 && forall i :: 0 <= i <= n ==> u in rings[i]
  {
    if n == 0 then 0
    else
      SpawnsAhead(rings, events, u, n - 1) +
      if events[n - 1].Spawn? && events[n - 1].place <= PlaceOf(rings[n - 1], u) then 1 else 0
  }

  /** Threads that were killed while they stood before thread `u`. */
  ghost function KillsAhead(rings: seq<seq<nat>>, events: seq<Event>, u: nat, n: nat): nat
    requires n <= |events| && |rings| == |events| + 1 && forall i :: 0 <= i <= n ==> u in rings[i]
  {
    if n == 0 then 0
    else
      KillsAhead(rings, events, u, n - 1) +
      if events[n - 1].Kill? && events[n - 1].place < PlaceOf(rings[n - 1], u) then 1 else 0
  }

  lemma OnePlace(r: seq<nat>, p: nat)
    requires NoDuplicates(r) && p < |r|
    ensures PlaceOf(r, r[p]) == p
  {
  }

  /** What one event does to the place of a waiting thread. */
  lemma WaitStep(r: seq<nat>, e: Event, t: seq<nat>, u: nat)
    requires NoDuplicates(r) && Step(r, e, t) && u in r && u in t && PlaceOf(r, u) > 0 && !Dispatches(r, e, u)
    ensures var p := PlaceOf(r, u);
      PlaceOf(t, u) > 0 &&
      PlaceOf(t, u) + (if Dispatching(r, e) then 1 else 0) + (if e.Kill? && e.place < p then 1 else 0) ==
        p + if e.Spawn? && e.place <= p then 1 else 0
  {
    var p := PlaceOf(r, u);
    StepMoves(r, e, t, p);
    StepDistinct(r, e, t);
    OnePlace(t, Moved(|r|, e, p));
  }

  /** The exact account of a wait: the place of a thread that has not run yet is where it stood, plus
      the new threads and less the killed ones that came before it, less the turns since. */
  lemma {:induction false} WaitExact(rings: seq<seq<nat>>, events: seq<Event>, u: nat, n: nat)
    requires IsRun(rings, events) && n <= |events| && forall i :: 0 <= i <= n ==> u in rings[i]
    requires PlaceOf(rings[0], u) > 0
    requires forall i {:trigger events[i]} :: 0 <= i < n ==> !Dispatches(rings[i], events[i], u)
    ensures PlaceOf(rings[n], u) > 0
    ensures PlaceOf(rings[n], u) + Turns(rings, events, n) + KillsAhead(rings, events, u, n) ==
      PlaceOf(rings[0], u) + SpawnsAhead(rings, events, u, n)
    decreases n
  {
    if n > 0 {
      WaitExact(rings, events, u, n - 1);
      RunDistinct(rings, events, n - 1);
      assert events[n - 1] in events;
      WaitStep(rings[n - 1], events[n - 1], rings[n], u);
    }
  }

  /** So a live thread is dispatched once the turns and the killed threads make up for its place and
      the new threads before it. */
  lemma WaitIsShort(rings: seq<seq<nat>>, events: seq<Event>, u: nat, n: nat)
    requires IsRun(rings, events) && n <= |events| && forall i :: 0 <= i <= n ==> u in rings[i]
    requires PlaceOf(rings[0], u) > 0
    requires Turns(rings, events, n) + KillsAhead(rings, events, u, n) >=
      PlaceOf(rings[0], u) + SpawnsAhead(rings, events, u, n)
    ensures exists i {:trigger events[i]} :: 0 <= i < n && Dispatches(rings[i], events[i], u)
  {
    if forall i {:trigger events[i]} :: 0 <= i < n ==> !Dispatches(rings[i], events[i], u) {
      WaitExact(rings, events, u, n);
      assert false;
    }
  }

  lemma {:induction false} NoSpawnsAhead(rings: seq<seq<nat>>, events: seq<Event>, u: nat, n: nat)
    requires n <= |events| && |rings| == |events| + 1 && forall i :: 0 <= i <= n ==> u in rings[i]
    requires forall i {:trigger events[i]} :: 0 <= i < n ==> !events[i].Spawn?
    ensures SpawnsAhead(rings, events, u, n) == 0
    decreases n
  {
    if n > 0 {
      NoSpawnsAhead(rings, events, u, n - 1);
      assert !events[n - 1].Spawn?;
    }
  }

  /** Without new threads that is within as many turns as its place says, which is fewer than there
      are threads. */
  lemma WaitWithoutSpawns(rings: seq<seq<nat>>, events: seq<Event>, u: nat, n: nat)
    requires IsRun(rings, events) && n <= |events| && forall i :: 0 <= i <= n ==> u in rings[i]
    requires 0 < PlaceOf(rings[0], u) <= Turns(rings, events, n)
    requires forall i {:trigger events[i]} :: 0 <= i < n ==> !events[i].Spawn?
    ensures PlaceOf(rings[0], u) < |rings[0]|
    ensures exists i {:trigger events[i]} :: 0 <= i < n && Dispatches(rings[i], events[i], u)
  {
    NoSpawnsAhead(rings, events, u, n);
    WaitIsShort(rings, events, u, n);
  }

  // ----- waiting for ever

  /** Three events that bring a ring of two back, with another running thread, and leave thread `u`
      waiting. */
  lemma OneRound(u: nat, a: nat, b: nat)
    requires a != b && a != u && b != u
    ensures Step([a, u], Spawn(b, 1), [a, b, u]) && !Dispatches([a, u], Spawn(b, 1), u)
    ensures Step([a, b, u], Switch, [b, u, a]) && !Dispatches([a, b, u], Switch, u)
    ensures Step([b, u, a], Kill(2), [b, u]) && !Dispatches([b, u, a], Kill(2), u)
    ensures u in [a, u] && u in [a, b, u] && u in [b, u, a] && NoDuplicates([a, u])
  {
    assert [a, b, u][1..] + [a] == [b, u, a];
    assert RemoveAt([b, u, a], 2) == [b, u];
    assert [a, u][1] == u && [a, b, u][2] == u && [b, u, a][1] == u;
  }
}
