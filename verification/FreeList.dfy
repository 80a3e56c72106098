/** The free list of one address window, kept in an array (kernel/arch/i386/vmm.c). */
module FreeList {
  import opened Extents
  import Spec = FreeListSpec
  import Memmove

  const SPACE_SIZE: nat := 512

  /** `blocks[0..len]` are the free blocks; the C code keeps a pointer to the last of them. */
  class Space {
    const blocks: array<Run>
    var len: nat

    ghost predicate Valid()
      reads this
    {
      blocks.Length == SPACE_SIZE && len <= SPACE_SIZE
    }

    ghost function List(): (s: seq<Run>)
      requires Valid()
      reads this, blocks
      ensures |s| == len
    {
      blocks[..len]
    }

    /** vmm_init, for one window. */
    constructor (first: nat, pages: nat)
      ensures Valid() && fresh(blocks) && List() == [Run(first, pages)]
    {
      blocks := new Run[SPACE_SIZE](_ => Run(0, 0));
      len := 1;
      new;
      blocks[0] := Run(first, pages);
    }

    method Swap(k: nat)
      requires Valid() && k + 1 < len
      modifies blocks
      ensures List() == old(List()[k := List()[k + 1]][k + 1 := List()[k]])
    {
      var tmp := blocks[k + 1];
      blocks[k + 1] := blocks[k];
      blocks[k] := tmp;
    }

    method CheckLower(block: nat) returns (r: nat)
      requires Valid() && block < len
      modifies blocks
      ensures (List(), r) == old(Spec.SinkDown(List(), block))
    {
      r := block;
      while r + 1 < len && blocks[r].len < blocks[r + 1].len
        invariant Valid() && r < len
        invariant Spec.SinkDown(List(), r) == old(Spec.SinkDown(List(), block))
      {
        Swap(r);
        r := r + 1;
      }
    }

    /** The bubbling loop of check_upper. */
    method Rise(block: nat) returns (r: nat)
      requires Valid() && block < len
      modifies blocks
      ensures (List(), r) == old(Spec.BubbleUp(List(), block))
    {
      r := block;
      while r > 0 && blocks[r].len > blocks[r - 1].len
        invariant Valid() && r < len
        invariant Spec.BubbleUp(List(), r) == old(Spec.BubbleUp(List(), block))
      {
        ghost var s := List();
        Swap(r - 1);
        assert List() == s[r := s[r - 1]][r - 1 := s[r]];
        r := r - 1;
      }
    }

    method Delete(k: nat)
      requires Valid() && k < len
      modifies this`len, blocks
      ensures Valid() && List() == old(RemoveAt(List(), k))
    {
      Memmove.Delete(blocks, k, len);
      len := len - 1;
    }

    method CheckUpper(block: nat)
      requires Valid() && block < len
      modifies this`len, blocks
      ensures Valid() && List() == old(Spec.CheckUpper(List(), block))
      decreases len
    {
      var k := Rise(block);
      ghost var t := List();
      var i := 0;
      while i < len
        invariant Valid() && i <= len == |t| && List() == t
        invariant FirstAdjacent(t, k, 0) == FirstAdjacent(t, k, i)
      {
        if i != k {
          if blocks[i].addr == blocks[k].addr + blocks[k].len {
            blocks[i] := Run(blocks[k].addr, blocks[i].len + blocks[k].len);
            assert List() == t[i := Join(t[i], t[k])];
            Delete(k);
            CheckUpper(if i > k then i - 1 else i);
            return;
          }
          if blocks[k].addr == blocks[i].addr + blocks[i].len {
            blocks[i] := Run(blocks[i].addr, blocks[i].len + blocks[k].len);
            assert List() == t[i := Join(t[i], t[k])];
            Delete(k);
            CheckUpper(if i > k then i - 1 else i);
            return;
          }
        }
        i := i + 1;
      }
    }

    /** The scan of alloc_block: takes `size` pages off the top of a smallest block that has
        them.  `page` is the first page taken, or 0 when no block is large enough. */
    method Reserve(size: nat) returns (page: nat, block: nat)
      requires Valid()
      requires forall i :: 0 <= i < len ==> List()[i].addr > 0
      modifies blocks
      ensures page != 0 <==> old(Spec.CanFit(List(), size))
      ensures page != 0 ==> block < len && page == old(Spec.Target(List(), size))
      ensures page != 0 ==> (List(), block) == old(Spec.Reserve(List(), size))
      ensures page == 0 ==> List() == old(List())
    {
      ghost var s := List();
      page, block := 0, 0;
      var i := len;
      while i > 0
        invariant 0 <= i <= len && List() == s
        invariant Spec.BestFit(s, size, len) == Spec.BestFit(s, size, i)
      {
        if blocks[i - 1].len >= size {
          blocks[i - 1] := Run(blocks[i - 1].addr, blocks[i - 1].len - size);
          assert List() == s[i - 1 := Run(s[i - 1].addr, s[i - 1].len - size)];
          block := CheckLower(i - 1);
          Spec.SinkDownMoves(s[i - 1 := Run(s[i - 1].addr, s[i - 1].len - size)], i - 1);
          page := blocks[block].addr + blocks[block].len;
          return;
        }
        i := i - 1;
      }
    }

    /** The success exit of alloc_block. */
    method Commit(block: nat)
      requires Valid() && block < len
      modifies this`len
      ensures Valid() && List() == old(Spec.Commit(List(), block))
    {
      if blocks[block].len == 0 {
        len := len - 1;
      }
    }

    /** The failure exit of alloc_block. */
    method Rollback(block: nat, size: nat)
      requires Valid() && block < len
      modifies this`len, blocks
      ensures Valid() && List() == old(Spec.Rollback(List(), block, size))
    {
      ghost var s := List();
      blocks[block] := Run(blocks[block].addr, blocks[block].len + size);
      assert List() == s[block := Run(s[block].addr, s[block].len + size)];
      CheckUpper(block);
    }

    /** The list update of free_block. */
    method Release(addr: nat, size: nat) returns (ok: bool)
      requires Valid()
      modifies this`len, blocks
      ensures Valid() && (List(), ok) == old(Spec.Release(List(), Run(addr, size), SPACE_SIZE))
    {
      ghost var s, x := List(), Run(addr, size);
      if len == SPACE_SIZE {
        var i := len;
        while i > 0
          invariant 0 <= i <= len && Valid() && List() == s
          invariant Spec.LastAdjacent(s, x, len) == Spec.LastAdjacent(s, x, i)
        {
          if blocks[i - 1].addr + blocks[i - 1].len == addr {
            blocks[i - 1] := Run(blocks[i - 1].addr, blocks[i - 1].len + size);
            assert List() == s[i - 1 := Join(s[i - 1], x)];
            CheckUpper(i - 1);
            return true;
          }
          if addr + size == blocks[i - 1].addr {
            blocks[i - 1] := Run(addr, blocks[i - 1].len + size);
            assert List() == s[i - 1 := Join(s[i - 1], x)];
            CheckUpper(i - 1);
            return true;
          }
          i := i - 1;
        }
        return false;
      }
      len := len + 1;
      blocks[len - 1] := Run(addr, size);
      assert List() == s + [x];
      CheckUpper(len - 1);
      return true;
    }
  }
}
