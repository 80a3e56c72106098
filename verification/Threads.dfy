/** The thread table (kernel/arch/i386/thread.c): a packed array of thread control blocks. */
module Threads {
  import opened Extents
  import opened RingSpec
  import Memmove

  const MAX_THREADS: nat := 6

  /** A thread is known by the top of its own kernel stack. */
  datatype Tcb = Tcb(esp0: nat, esp: nat, cr3: nat)

  /** A sequence read from place `c` on, around its end. */
  function Rotated(s: seq<nat>, c: nat): seq<nat>
    requires c <= |s|
  {
    s[c..] + s[..c]
  }

  /** Taking an entry out before or after the place where reading starts. */
  lemma RotatedRemove(s: seq<nat>, c: nat, i: nat)
    requires c < |s| && i < |s| && i != c
    ensures var place := if i >= c then i - c else i + |s| - c;
      Rotated(RemoveAt(s, i), if c > i then c - 1 else c) == RemoveAt(Rotated(s, c), place)
  {
  }

  lemma SwitchSteps(s: seq<nat>, c: nat)
    requires |s| >= 2 && c < |s|
    ensures Step(Rotated(s, c), Switch, Rotated(s, if c == |s| - 1 then 0 else c + 1))
  {
  }

  lemma AppendSteps(s: seq<nat>, c: nat, x: nat)
    requires NoDuplicates(s) && c < |s| && x !in s
    ensures NoDuplicates(s + [x]) && Step(Rotated(s, c), Spawn(x, |s| - c), Rotated(s + [x], c))
  {
  }

  /** So it is a step of the ring. */
  lemma RemoveSteps(s: seq<nat>, c: nat, i: nat)
    requires NoDuplicates(s) && c < |s| && i < |s| && i != c
    ensures NoDuplicates(RemoveAt(s, i))
    ensures Step(Rotated(s, c), Kill(if i >= c then i - c else i + |s| - c),
                 Rotated(RemoveAt(s, i), if c > i then c - 1 else c))
  {
    RotatedRemove(s, c, i);
  }

  class Table {
    const threads: array<Tcb>
    var used: nat
    /** The index of the running thread (current_task_TCB). */
    var current: nat

    /** The threads in table order. */
    ghost function Ids(): (s: seq<nat>)
      requires used <= threads.Length
      reads this`used, threads
      ensures |s| == used && forall i :: 0 <= i < used ==> s[i] == threads[i].esp0
    {
      seq(used, i requires 0 <= i < threads.Length reads threads => threads[i].esp0)
    }

    /** The thread control blocks in table order. */
    ghost function Entries(): seq<Tcb>
      requires used <= threads.Length
      reads this`used, threads
    {
      threads[..used]
    }

    ghost predicate Valid()
      reads this, threads
    {
      threads.Length == MAX_THREADS && current < used <= MAX_THREADS && NoDuplicates(Ids())
    }

    /** The running thread, then the others in the order of switching. */
    ghost function Ring(): (r: seq<nat>)
      requires Valid()
      reads this, threads
    {
      Rotated(Ids(), current)
    }

    /** The ring place of the thread at table index `i`. */
    function Place(i: nat): nat
      requires i < used && current < used
      reads this
    {
      if i >= current then i - current else i + used - current
    }

    /** thread_init: the boot thread. */
    constructor (stackTop: nat, cr3: nat)
      ensures Valid() && fresh(threads) && Ring() == [stackTop] && Entries() == [Tcb(stackTop, 0, cr3)]
    {
      threads := new Tcb[MAX_THREADS](_ => Tcb(0, 0, 0));
      used, current := 1, 0;
      new;
      threads[0] := Tcb(stackTop, 0, cr3);
    }

    /** The thread that runs after the current one. */
    function Next(): nat
      requires current < used
      reads this
    {
      if current == used - 1 then 0 else current + 1
    }

    /** switch_thread, with the stack pointer that switch_tasks saves. */
    method SwitchThread(esp: nat)
      requires Valid()
      modifies this`current, threads
      ensures Valid() && Step(old(Ring()), Switch, Ring())
      ensures current == old(if used < 2 then current else Next())
      ensures Entries() == old(if used < 2 then Entries() else Entries()[current := threads[current].(esp := esp)])
    {
      if used < 2 {
        return;
      }
      ghost var ids, d := Ids(), Next();
      SwitchSteps(ids, current);
      threads[current] := threads[current].(esp := esp);
      current := Next();
      assert Ids() == ids && current == d;
    }

    /** new_thread.  `stack` is what alloc_block returns for the thread's stack, 0 when it fails;
        returns the table index of the new thread, MAX_THREADS (NULL) when there is none. */
    method NewThread(stack: nat, cr3: nat) returns (index: nat)
      requires Valid() && (used < MAX_THREADS && cr3 != 0 && stack != 0 ==> stack + 0x3fff !in Ids())
      modifies this`used, threads
      ensures Valid()
      ensures index == MAX_THREADS <==> old(used) == 6 || cr3 == 0 || stack == 0
      ensures index == MAX_THREADS ==> Step(old(Ring()), Refused, Ring()) && Entries() == old(Entries())
      ensures index != MAX_THREADS ==>
        index == old(used) && Step(old(Ring()), Spawn(stack + 0x3fff, old(used - current)), Ring())
      ensures index != MAX_THREADS ==>
        Entries() == old(Entries()) + [Tcb(stack + 0x3fff, stack + 0x3feb, cr3)]
    {
      if used == MAX_THREADS || cr3 == 0 {
        return MAX_THREADS;
      }
      if stack == 0 {
        return MAX_THREADS;
      }
      ghost var ids := Ids();
      AppendSteps(ids, current, stack + 0x3fff);
      threads[used] := Tcb(stack + 0x3fff, stack + 0x3feb, cr3);
      used := used + 1;
      assert Ids() == ids + [stack + 0x3fff];
      return used - 1;
    }

    /** Takes the entry at `index` out of the table. */
    method Remove(index: nat)
      requires Valid() && index < used && index != current
      modifies this`used, this`current, threads
      ensures Valid() && Step(old(Ring()), Kill(old(Place(index))), Ring())
      ensures current == old(if current > index then current - 1 else current)
      ensures Entries() == RemoveAt(old(Entries()), index)
    {
      ghost var ids, c := Ids(), current;
      ghost var left, d := RemoveAt(ids, index), if c > index then c - 1 else c;
      assert NoDuplicates(left) && Step(Rotated(ids, c), Kill(Place(index)), Rotated(left, d)) by {
        RemoveSteps(ids, c, index);
      }
      RemoveAtEntry(index);
      if current > index {
        current := current - 1;
      }
      assert Ids() == left && current == d;
    }

    method RemoveAtEntry(index: nat)
      requires threads.Length == MAX_THREADS && index < used <= MAX_THREADS
      modifies this`used, threads
      ensures used == old(used) - 1 && Ids() == RemoveAt(old(Ids()), index)
      ensures Entries() == RemoveAt(old(Entries()), index)
    {
      used := used - 1;
      Memmove.Move(threads, index, index + 1, MAX_THREADS - index - 1);
    }

    /** kill_thread.  The running thread is killed from the next one (kill_switch_tasks). */
    method KillThread(index: nat)
      requires Valid() && (index < MAX_THREADS ==> index < used || used <= 1)
      modifies this`used, this`current, threads
      ensures Valid()
      ensures Step(old(Ring()),
        if old(used) <= 1 || index >= 6 then Refused
        else if index == old(current) then SelfKill else Kill(old(Place(index))), Ring())
      ensures old(used) > 1 && index < MAX_THREADS && index != old(current) ==>
        current == old(if current > index then current - 1 else current)
      ensures Entries() ==
        if old(used) <= 1 || index >= MAX_THREADS then old(Entries()) else RemoveAt(old(Entries()), index)
    {
      if used <= 1 || index >= MAX_THREADS {
        return;
      }
      if index == current {
        ghost var r := Ring();
        current := Next();
        assert Ring() == r[1..] + [r[0]];
        Remove(index);
        return;
      }
      Remove(index);
    }
  }

  datatype Request = SwitchNow(esp: nat) | NewAt(stack: nat, cr3: nat) | KillAt(index: nat)

  lemma RunGrows(rings: seq<seq<nat>>, events: seq<Event>, e: Event, r: seq<nat>)
    requires IsRun(rings, events) && Step(rings[|events|], e, r)
    ensures IsRun(rings + [r], events + [e])
  {
    var more, all := rings + [r], events + [e];
    forall i | 0 <= i < |all| ensures Step(more[i], all[i], more[i + 1]) {
      if i < |events| {
        assert all[i] == events[i] && more[i] == rings[i] && more[i + 1] == rings[i + 1];
      }
    }
  }

  method Serve(table: Table, request: Request) returns (ghost e: Event)
    requires table.Valid()
    modifies table`used, table`current, table.threads
    ensures table.Valid() && Step(old(table.Ring()), e, table.Ring())
    ensures request.SwitchNow? ==> e == Switch
    ensures request.NewAt? && e.Spawn? ==> e == Spawn(request.stack + 0x3fff, old(table.used - table.current))
    ensures request.KillAt? && request.index < old(table.used) && old(table.used) > 1 ==>
      e == if request.index == old(table.current) then SelfKill else Kill(old(table.Place(request.index)))
  {
    e := Refused;
    match request {
      case SwitchNow(esp) =>
        table.SwitchThread(esp);
        e := Switch;
      case NewAt(stack, cr3) =>
        if table.used == MAX_THREADS || cr3 == 0 || stack == 0
          || forall i :: 0 <= i < table.used ==> table.threads[i].esp0 != stack + 0x3fff
        {
          ghost var place := table.used - table.current;
          var index := table.NewThread(stack, cr3);
          e := if index == MAX_THREADS then Refused else Spawn(stack + 0x3fff, place);
        }
      case KillAt(index) =>
        if index < table.used || index >= MAX_THREADS || table.used <= 1 {
          e := if table.used <= 1 || index >= MAX_THREADS then Refused
               else if index == table.current then SelfKill else Kill(table.Place(index));
          table.KillThread(index);
        }
    }
  }

  /** Any list of requests makes a run of the ring.  Passed over are a new thread on a stack that is
      in use, and killing an index of the table that holds no thread, which the source does not
      check. */
  method Session(table: Table, requests: seq<Request>) returns (ghost rings: seq<seq<nat>>, ghost events: seq<Event>)
    requires table.Valid()
    modifies table`used, table`current, table.threads
    ensures table.Valid() && IsRun(rings, events)
    ensures rings[0] == old(table.Ring()) && rings[|events|] == table.Ring()
  {
    rings, events := [table.Ring()], [];
    var k := 0;
    while k < |requests|
      invariant k <= |requests| && table.Valid() && IsRun(rings, events)
      invariant rings[0] == old(table.Ring()) && rings[|events|] == table.Ring()
    {
      ghost var e := Serve(table, requests[k]);
      RunGrows(rings, events, e, table.Ring());
      rings, events := rings + [table.Ring()], events + [e];
      k := k + 1;
    }
  }

  // ----- waiting for ever

  /** The running thread, thread `a`, creates a thread, hands over to it, and is killed by it; the
      boot thread `u` at index 0 waits on. */
  method Round(table: Table, ghost u: nat, ghost a: nat, stack: nat) returns (ghost r: seq<nat>, ghost s: seq<nat>)
    requires table.Valid() && table.used == 2 && table.current == 1 && table.Ring() == [a, u]
    requires stack != 0 && stack + 0x3fff != u && stack + 0x3fff != a && a != u
    modifies table`used, table`current, table.threads
    ensures table.Valid() && table.used == 2 && table.current == 1
    ensures var b := stack + 0x3fff; r == [a, b, u] && s == [b, u, a] && table.Ring() == [b, u]
  {
    ghost var b := stack + 0x3fff;
    assert table.Ring()[0] == table.Ids()[1] && table.Ring()[1] == table.Ids()[0];
    OneRound(u, a, b);
    var index := table.NewThread(stack, 1);
    r := table.Ring();
    table.SwitchThread(0);
    s := table.Ring();
    table.KillThread(1);
    assert table.Ring() == RemoveAt(s, 2);
  }

  /** Thread `u` stays alive in these rings and is never dispatched. */
  ghost predicate Waits(rings: seq<seq<nat>>, events: seq<Event>, u: nat) {
    && |rings| == |events| + 1 && (forall i :: 0 <= i < |rings| ==> u in rings[i])
    && forall i {:trigger events[i]} :: 0 <= i < |events| ==> !Dispatches(rings[i], events[i], u)
  }

  lemma WaitGrows(rings: seq<seq<nat>>, events: seq<Event>, u: nat, e: Event, r: seq<nat>)
    requires IsRun(rings, events) && Waits(rings, events, u)
    requires Step(rings[|events|], e, r) && u in r && !Dispatches(rings[|events|], e, u)
    ensures IsRun(rings + [r], events + [e]) && Waits(rings + [r], events + [e], u)
  {
    RunGrows(rings, events, e, r);
    var more, all := rings + [r], events + [e];
    forall i {:trigger all[i]} | 0 <= i < |all| ensures !Dispatches(more[i], all[i], u) {
      if i < |events| {
        assert all[i] == events[i] && more[i] == rings[i];
      }
    }
  }

  lemma RoundGrows(rings: seq<seq<nat>>, events: seq<Event>, u: nat, a: nat, b: nat)
    requires IsRun(rings, events) && Waits(rings, events, u) && rings[|events|] == [a, u]
    requires a != b && a != u && b != u
    ensures var more, all := rings + [[a, b, u]] + [[b, u, a]] + [[b, u]], events + [Spawn(b, 1)] + [Switch] + [Kill(2)];
      IsRun(more, all) && Waits(more, all, u) && more[|all|] == [b, u]
  {
    OneRound(u, a, b);
    var r, e := rings + [[a, b, u]], events + [Spawn(b, 1)];
    WaitGrows(rings, events, u, Spawn(b, 1), [a, b, u]);
    assert r[|e|] == [a, b, u];
    WaitGrows(r, e, u, Switch, [b, u, a]);
    assert (r + [[b, u, a]])[|e| + 1] == [b, u, a];
    WaitGrows(r + [[b, u, a]], e + [Switch], u, Kill(2), [b, u]);
  }

  /** The boot thread `u` creates a thread and hands over to it. */
  method HandOver(stack: nat) returns (table: Table, ghost rings: seq<seq<nat>>, ghost events: seq<Event>)
    requires stack != 0 && stack + 0x3fff != BOOT_STACK
    ensures fresh(table) && fresh(table.threads) && table.Valid() && table.used == 2 && table.current == 1
    ensures IsRun(rings, events) && |events| == 2 && rings[0] == [BOOT_STACK]
    ensures rings[2] == table.Ring() == [stack + 0x3fff, BOOT_STACK] && Waits(rings, events, BOOT_STACK)
  {
    ghost var u, a := BOOT_STACK, stack + 0x3fff;
    table := new Table(BOOT_STACK, 1);
    ghost var r := table.Ring();
    assert r == [u] && table.Ids()[0] == r[0];
    var index := table.NewThread(stack, 1);
    ghost var s := table.Ring();
    assert s == [u, a];
    table.SwitchThread(0);
    assert table.Ring() == [a, u];
    rings, events := [r, s, table.Ring()], [Spawn(a, 1), Switch];
    HandOverRun(u, a);
  }

  lemma HandOverRun(u: nat, a: nat)
    requires u != a
    ensures var rings, events := [[u], [u, a], [a, u]], [Spawn(a, 1), Switch];
      IsRun(rings, events) && Waits(rings, events, u)
  {
    var rings, events := [[u], [u, a], [a, u]], [Spawn(a, 1), Switch];
    assert rings[0][0] == u && rings[1][0] == u && rings[2][1] == u;
    assert Step(rings[0], events[0], rings[1]) && Step(rings[1], events[1], rings[2]);
  }

  /** Where the boot thread's stack ends, say. */
  const BOOT_STACK: nat := 0x10_0000

  /** With new threads no bound holds: there are runs of the code of any length in which the boot
      thread, alive throughout, is not dispatched again.  Two stacks are enough, since the one of a
      killed thread can be had again. */
  method Starve(rounds: nat) returns (table: Table, ghost rings: seq<seq<nat>>, ghost events: seq<Event>)
    ensures fresh(table) && table.Valid() && |events| == 2 + 3 * rounds
    ensures IsRun(rings, events) && rings[0] == [BOOT_STACK] && rings[|events|] == table.Ring()
    ensures Waits(rings, events, BOOT_STACK)
  {
    var stack, other := 0x4000, 0x8000;
    table, rings, events := HandOver(stack);
    var i := 0;
    while i < rounds
      invariant i <= rounds && fresh(table) && fresh(table.threads) && table.Valid() && table.used == 2 && table.current == 1
      invariant (stack == 0x4000 && other == 0x8000) || (stack == 0x8000 && other == 0x4000)
      invariant |events| == 2 + 3 * i && IsRun(rings, events) && Waits(rings, events, BOOT_STACK)
      invariant rings[0] == [BOOT_STACK] && rings[|events|] == table.Ring() == [stack + 0x3fff, BOOT_STACK]
    {
      ghost var r, s := Round(table, BOOT_STACK, stack + 0x3fff, other);
      ghost var b := other + 0x3fff;
      RoundGrows(rings, events, BOOT_STACK, stack + 0x3fff, b);
      rings, events := rings + [r] + [s] + [table.Ring()], events + [Spawn(b, 1)] + [Switch] + [Kill(2)];
      stack, other := other, stack;
      i := i + 1;
    }
  }
}
