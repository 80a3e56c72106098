/** The physical frame allocator (kernel/arch/i386/pmm.c): an array of free runs used as a
    stack, and a cursor for coalescing. */
module Frames {
  import opened Extents
  import opened Machine
  import opened Markers
  import Spec = FrameListSpec
  import MemoryMap
  import Coalescing
  import Memmove

  /** All that alloc_page does to a list. */
  lemma AllocFacts(s: seq<Run>)
    requires Spec.GoodRuns(s)
    ensures var (t, f) := Spec.AllocPage(s);
      Spec.GoodRuns(t) &&
      (f == 0 <==> Pages(s) == {}) && (f == 0 <==> s == []) &&
      (f != 0 ==> f in Pages(s) && Pages(t) == Pages(s) - {f} && f + 1 == s[|s| - 1].End() && s[|s| - 1].len > 0)
  {
    assert Ask(Runs, 0);
    Spec.AllocPageTakes(s);
    if s != [] {
      Spec.TopTaken(s);
    }
  }

  /** `blocks[0..len]` are the free runs; last_freed of the C code is entry `len - 1`. */
  class Pmm {
    const blocks: array<Run>
    var len: nat
    var coalescePtr: nat

    ghost predicate Shaped()
      reads this`len
    {
      blocks.Length == Spec.FREE_ARRAY_SIZE && len <= Spec.FREE_ARRAY_SIZE
    }

    ghost predicate Valid()
      reads this`len, blocks
    {
      Shaped() && Spec.GoodRuns(List())
    }

    ghost function List(): (s: seq<Run>)
      requires Shaped()
      reads this`len, blocks
      ensures |s| == len
    {
      blocks[..len]
    }

    /** The set of free frames. */
    ghost function Free(): set<int>
      requires Shaped()
      reads this`len, blocks
    {
      Pages(List())
    }

    /** pmm_init: one run for every usable entry of the memory map. */
    constructor (mmap: seq<MemoryMap.MapEntry>)
      requires |MemoryMap.MapRuns(mmap)| <= Spec.FREE_ARRAY_SIZE
      ensures Shaped() && fresh(blocks) && List() == MemoryMap.MapRuns(mmap) && coalescePtr == len
      ensures blocks.Length == 1024
      ensures Valid() <==> MemoryMap.OnceOnly(mmap)
      ensures forall p :: p in Free() <==> exists i :: 0 <= i < |mmap| && MemoryMap.EntryRun(mmap[i]).Holds(p)
    {
      blocks := new Run[Spec.FREE_ARRAY_SIZE](_ => Run(0, 0));
      len := 0;
      coalescePtr := 0;
      new;
      var i := 0;
      while i < |mmap|
        invariant i <= |mmap| && Shaped() && fresh(blocks) && List() == MemoryMap.MapRuns(mmap[..i])
      {
        assert mmap[..i + 1][..i] == mmap[..i];
        MemoryMap.MapRunsPrefix(mmap, i + 1);
        AddEntry(mmap[i]);
        i := i + 1;
      }
      assert mmap[..i] == mmap;
      coalescePtr := len;
      MemoryMap.MapRunsValid(mmap);
      Spec.GoodIsValid(List());
      forall p ensures p in Pages(MemoryMap.MapRuns(mmap)) <==>
          exists i :: 0 <= i < |mmap| && MemoryMap.EntryRun(mmap[i]).Holds(p)
      {
        MemoryMap.MapRunsHold(mmap, p);
      }
    }

    /** One round of pmm_init's loop. */
    method AddEntry(e: MemoryMap.MapEntry)
      requires Shaped() && (MemoryMap.EntryRun(e).len > 0 ==> len < Spec.FREE_ARRAY_SIZE)
      modifies this`len, blocks
      ensures Shaped()
      ensures List() == old(List()) + if MemoryMap.EntryRun(e).len > 0 then [MemoryMap.EntryRun(e)] else []
    {
      if e.kind == 1 && e.addrLow <= 0xFFFF_F000 {
        var aligned := (e.addrLow + 4095) / 4096 * 4096;
        if aligned < 0x40_0000 {
          aligned := 0x40_0000;
        }
        var end := (e.addrLow + e.lenLow) % 0x1_0000_0000;
        if end > aligned {
          var pages := (end - aligned) / 4096;
          if pages != 0 {
            len := len + 1;
            blocks[len - 1] := Run(aligned / 4096, pages);
          }
        }
      }
    }

    /** Takes a frame off the free set; 0 (NULL) exactly when no frame is free. */
    method AllocPage() returns (frame: nat)
      requires Valid()
      modifies this`len, blocks
      ensures Valid() && (List(), frame) == old(Spec.AllocPage(List()))
      ensures frame == 0 <==> old(Free()) == {}
      ensures frame == 0 ==> Free() == old(Free())
      ensures frame != 0 ==> old(len > 0) && frame + 1 == old(List()[len - 1].End())
      ensures frame != 0 ==> frame in old(Free()) && Free() == old(Free()) - {frame}
    {
      ghost var s, r := List(), Spec.AllocPage(List());
      AllocFacts(s);
      if len == 0 {
        return 0;
      }
      blocks[len - 1] := Run(blocks[len - 1].addr, blocks[len - 1].len - 1);
      if blocks[len - 1].len == 0 {
        len := len - 1;
        assert List() == r.0;
        return blocks[len].addr;
      }
      assert List() == r.0;
      return blocks[len - 1].addr + blocks[len - 1].len;
    }

    /** How many frames are free. */
    method CountFree() returns (n: nat)
      requires Valid()
      ensures n == |Free()|
    {
      assert Ask(Runs, 0);
      ghost var s := List();
      n := 0;
      var i := 0;
      assert s[..0] == [] && Pages([]) == {};
      while i < len
        invariant i <= len && n == |Pages(s[..i])|
      {
        FrontDisjoint(s, i);
        PagesCount(s[..i], s[i]);
        assert s[..i + 1] == s[..i] + [s[i]];
        n := n + blocks[i].len;
        i := i + 1;
      }
      assert s[..i] == s;
    }

    /** Gives a frame back.  The C code does not check for room in the array, and on an empty
        list it looks at the slot before the array; here an empty list gets its first run. */
    method FreePage(frame: nat)
      requires Valid() && Spec.FIRST_FRAME <= frame < FRAMES && frame !in Free()
      requires |Spec.FreePage(List(), frame)| <= Spec.FREE_ARRAY_SIZE
      modifies this`len, blocks
      ensures Valid() && List() == old(Spec.FreePage(List(), frame))
      ensures Free() == old(Free()) + {frame}
      ensures len == old(if len > 0 && List()[len - 1].End() == frame then len else len + 1)
      ensures old(Spec.NoneFollows(List())) ==> Spec.NoneFollows(List())
    {
      ghost var s, r := List(), Spec.FreePage(List(), frame);
      assert Spec.GoodRuns(r) && Pages(r) == Pages(s) + {frame} &&
        |r| == (if s != [] && s[|s| - 1].End() == frame then |s| else |s| + 1) &&
        (Spec.NoneFollows(s) ==> Spec.NoneFollows(r)) by {
        assert Ask(Runs, 0);
        Spec.FreePageGives(s, frame);
        Spec.FreePageShape(s, frame);
      }
      if len > 0 && frame == Spec.Wrap(blocks[len - 1].addr + blocks[len - 1].len) {
        blocks[len - 1] := Run(blocks[len - 1].addr, blocks[len - 1].len + 1);
        assert List() == r;
        return;
      }
      len := len + 1;
      blocks[len - 1] := Run(frame, 1);
      assert List() == r;
    }

    method Delete(k: nat)
      requires Shaped() && k < len
      modifies this`len, blocks
      ensures Shaped() && List() == old(RemoveAt(List(), k))
    {
      Memmove.Delete(blocks, k, len);
      len := len - 1;
    }

    /** The joined run takes the place of entry `i`, and the slot of `block` is closed up. */
    method JoinInto(block: nat, i: nat, joined: Run)
      requires Shaped() && block < len && i < len && i != block
      requires joined == Spec.Combined(List()[i], List()[block])
      modifies this`len, this`coalescePtr, blocks
      ensures Shaped() && len == old(len) - 1 && List() == old(Spec.CombineAt(List(), block, i))
      ensures coalescePtr == old(if block < coalescePtr then coalescePtr - 1 else coalescePtr)
    {
      ghost var s := List();
      if block < coalescePtr {
        coalescePtr := coalescePtr - 1;
      }
      blocks[i] := joined;
      assert List() == s[i := joined];
      Delete(block);
    }

    /** Both merging branches of coalesce_loop, which differ only in how they compute the
        joined run. */
    method Combine(block: nat, i: nat, joined: Run)
      requires Shaped() && block < len && i < len && i != block
      requires joined == Spec.Combined(List()[i], List()[block])
      modifies this`len, this`coalescePtr, blocks
      ensures Shaped() && (List(), coalescePtr) == old(Spec.CoalesceOn(List(), block, i, coalescePtr))
      decreases len, 0
    {
      JoinInto(block, i, joined);
      CoalesceLoop(MergedIndex(block, i));
      coalescePtr := coalescePtr + 1;
    }

    /** The scan of coalesce_loop: the first entry that touches `block`, and the run of both. */
    method FindTouching(block: nat) returns (i: nat, joined: Run)
      requires Shaped() && block < len
      ensures i == Spec.FirstTouching(List(), block, 0)
      ensures i < len ==> joined == Spec.Combined(List()[i], List()[block])
    {
      i, joined := 0, Run(0, 0);
      while i < len
        invariant i <= len
        invariant Spec.FirstTouching(List(), block, 0) == Spec.FirstTouching(List(), block, i)
      {
        if i != block {
          if Spec.Wrap(blocks[i].addr + blocks[i].len) == blocks[block].addr {
            joined := Run(blocks[i].addr, blocks[i].len + blocks[block].len);
            return;
          }
          if Spec.Wrap(blocks[block].addr + blocks[block].len) == blocks[i].addr {
            joined := Run(blocks[block].addr, blocks[i].len + blocks[block].len);
            return;
          }
        }
        i := i + 1;
      }
    }

    method CoalesceLoop(block: nat)
      requires Shaped() && block < len
      modifies this`len, this`coalescePtr, blocks
      ensures Shaped() && (List(), coalescePtr) == old(Spec.CoalesceLoop(List(), block, coalescePtr))
      decreases len, 1
    {
      var i, joined := FindTouching(block);
      Spec.CoalesceLoopIs(List(), block, coalescePtr, i);
      if i < len {
        Combine(block, i, joined);
      }
    }

    /** The free frames stay the same, wherever the cursor stands. */
    method Coalesce()
      requires Valid()
      modifies this`len, this`coalescePtr, blocks
      ensures Valid() && (List(), coalescePtr) == old(Spec.Coalesce(List(), coalescePtr))
      ensures Free() == old(Free())
    {
      ghost var r := Spec.Coalesce(List(), coalescePtr);
      assert Spec.GoodRuns(r.0) && Pages(r.0) == Pages(List()) by {
        assert Ask(Runs, 0);
        Spec.CoalesceKeeps(List(), coalescePtr);
      }
      if len == 1 {
        return;
      }
      CoalesceRest();
    }

    /** The loop of coalesce. */
    method CoalesceRest()
      requires Shaped()
      modifies this`len, this`coalescePtr, blocks
      ensures Shaped() && (List(), coalescePtr) == old(Spec.CoalesceFrom(List(), coalescePtr))
    {
      ghost var goal := Spec.CoalesceFrom(List(), coalescePtr);
      while coalescePtr < len
        invariant Shaped() && Spec.CoalesceFrom(List(), coalescePtr) == goal
        decreases len - coalescePtr
      {
        Spec.CoalesceFromStep(List(), coalescePtr);
        CoalesceLoop(coalescePtr);
        coalescePtr := coalescePtr + 1;
      }
      Spec.CoalesceFromEnds(List(), coalescePtr);
      coalescePtr := len;
    }
  }

  /** A run of the allocator that ends with free runs left unmerged.  The frames are taken and given
      back as by four calls of alloc_block, for a first page, two pages and, after one in the other
      window, three pages, and one call of free_block on the last five of them.  The frame of a page
      comes before that of its table, and blocks are cut off downwards. */
  method LeaveUnmerged() returns (pmm: Pmm)
    ensures fresh(pmm) && pmm.Valid() && !AllApart(pmm.List())
  {
    pmm := AllocateNine();
    Coalescing.FreedOneByOne();
    FreeInOrder(pmm, [2044, 2043, 2042, 2048, 2047]);
    Coalescing.CoalesceSkips();
    pmm.Coalesce();
  }

  method FreeInOrder(pmm: Pmm, frames: seq<nat>)
    requires pmm.Valid() && |Spec.FreeAll(pmm.List(), frames)| <= Spec.FREE_ARRAY_SIZE
    requires forall i :: 0 <= i < |frames| ==> Spec.FIRST_FRAME <= frames[i] < FRAMES && frames[i] !in pmm.Free()
    requires NoDuplicates(frames)
    modifies pmm`len, pmm.blocks
    ensures pmm.Valid() && pmm.List() == old(Spec.FreeAll(pmm.List(), frames))
  {
    var i := 0;
    while i < |frames|
      invariant i <= |frames| && pmm.Valid() && pmm.List() == old(Spec.FreeAll(pmm.List(), frames[..i]))
      invariant forall j :: i <= j < |frames| ==> frames[j] !in pmm.Free()
    {
      Spec.FreeAllPrefix(old(pmm.List()), frames, i + 1);
      assert frames[..i + 1][..i] == frames[..i];
      pmm.FreePage(frames[i]);
      i := i + 1;
    }
    assert frames[..i] == frames;
  }

  method AllocateNine() returns (pmm: Pmm)
    ensures fresh(pmm) && fresh(pmm.blocks) && pmm.Valid()
    ensures pmm.List() == [Run(1024, 1018)] && pmm.coalescePtr == 1
  {
    var mmap := [MemoryMap.MapEntry(0x40_0000, 0, 4096 * 1027, 0, 1)];
    assert mmap[..0] == [] && MemoryMap.EntryRun(mmap[0]) == Run(1024, 1027);
    assert MemoryMap.MapRuns(mmap) == [Run(1024, 1027)];
    pmm := new Pmm(mmap);
    var i := 0;
    while i < 9
      invariant i <= 9 && fresh(pmm.blocks) && pmm.Valid()
      invariant pmm.List() == [Run(1024, 1027 - i)] && pmm.coalescePtr == 1
    {
      var frame := pmm.AllocPage();
      i := i + 1;
    }
  }
}
