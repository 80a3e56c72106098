/** The boot page tables (kernel/arch/i386/pd.c) and the page-table operations of
    kernel/arch/i386/vmm.c, which reach every table through the recursive directory slot. */
module PageTables {
  import opened Machine
  import opened Markers
  import opened Paging
  import opened Extents
  import Frames
  import FrameListSpec

  /** A flag word with the present bit set: `flags | 0x01`. */
  function WithPresent(flags: Word): (r: Word)
    ensures Present(r) && (flags < 4096 ==> r < 4096)
  {
    if flags % 2 == 1 then flags else flags + 1
  }

  /** The entry map_page writes: `physaddr | (flags & 0xFFF) | 0x01`. */
  function MakeEntry(physaddr: Word, flags: Word): (e: Word)
    ensures Present(e) && FrameOf(e) == physaddr / 4096 && e % 4096 == WithPresent(flags % 4096)
    ensures e / 4096 == physaddr / 4096 && e % 2 == 1 && e % 4096 / 2 == flags % 4096 / 2
  {
    PageParts(physaddr);
    EntryParts(physaddr / 4096, WithPresent(flags % 4096));
    physaddr - physaddr % 4096 + WithPresent(flags % 4096)
  }

  /** The boot directory: two tables and itself. */
  function BootDirectory(directory: nat, table0: nat, table768: nat): (d: seq<Word>)
    requires directory < FRAMES && table0 < FRAMES && table768 < FRAMES
    ensures |d| == 1024
    ensures d[0] == table0 * 4096 + 7 && d[768] == table768 * 4096 + 7 && d[1023] == directory * 4096 + 7
    ensures forall i :: 0 < i < 1023 && i != 768 ==> d[i] == 0
  {
    Put(Put(Put(EmptyTable(), 0, table0 * 4096 + 7), 768, table768 * 4096 + 7), 1023, directory * 4096 + 7)
  }

  /** What the boot tables map. */
  lemma BootEntry(m: Memory, directory: nat, table0: nat, table768: nat, p: nat)
    requires WellFormed(m) && directory < FRAMES && table0 < FRAMES && table768 < FRAMES
    requires m[directory] == BootDirectory(directory, table0, table768) && p < 1023 * 1024
    requires forall j :: 0 <= j < 1024 ==> m[table0][j] == j * 4096 + 7 && m[table768][j] == j * 4096 + 7
    ensures Entry(m, directory, p) == if p / 1024 in {0, 768} then p % 1024 * 4096 + 7 else 0
  {
    var i, j := p / 1024, p % 1024;
    assert 0 <= i < 1023 && 0 <= j < 1024;
    BootRow(m, m[directory], table0, table768, i, j);
  }

  lemma BootRow(m: Memory, d: seq<Word>, table0: nat, table768: nat, i: nat, j: nat)
    requires WellFormed(m) && |d| == 1024 && table0 < FRAMES && table768 < FRAMES
    requires d[0] == table0 * 4096 + 7 && d[768] == table768 * 4096 + 7
    requires i < 1023 && j < 1024 && (i != 0 && i != 768 ==> d[i] == 0)
    requires m[table0][j] == j * 4096 + 7 && m[table768][j] == j * 4096 + 7
    ensures if i in {0, 768} then Present(d[i]) && m[FrameOf(d[i])][j] == j * 4096 + 7 else !Present(d[i])
  {
    TableEntry(table0);
    TableEntry(table768);
  }

  lemma BootSound(m: Memory, directory: nat, table0: nat, table768: nat)
    requires WellFormed(m) && directory < FRAMES && table0 < FRAMES && table768 < FRAMES
    requires directory != table0 && directory != table768 && table0 != table768
    requires m[directory] == BootDirectory(directory, table0, table768)
    ensures Sound(m, directory) && Recursive(m, directory)
    ensures Present(m[directory][0]) && FrameOf(m[directory][0]) == table0
    ensures Present(m[directory][768]) && FrameOf(m[directory][768]) == table768
  {
    TableEntry(table0);
    TableEntry(table768);
    TableEntry(directory);
    forall i | 0 < i < 1023 && i != 768 ensures !Present(m[directory][i]) {
    }
  }

  /** The directory entry for a table: `pde_page | 0x7`. */
  lemma TableEntry(table: nat)
    requires table < FRAMES
    ensures var w: Word := table * 4096 + 7; Present(w) && FrameOf(w) == table
  {
    EntryParts(table, 7);
  }

  /** What map_page does to the memory and to the runs of the frame allocator: the entry is
      written if the page's table is there or a frame can be had for it, and otherwise nothing
      is.  The marker keeps the definition out of proofs that do not ask for it. */
  ghost predicate MapEffect(m: Memory, s: seq<Run>, cr3: nat, page: nat, e: Word,
                            n: Memory, r: seq<Run>, ok: bool)
    requires WellFormed(m) && cr3 < FRAMES && page < FRAMES
  {
    forall i {:trigger Ask(Effects, i)} :: Ask(Effects, i) ==>
      if Present(m[cr3][page / 1024]) then
        ok && n == WithEntry(m, cr3, page, e) && r == s
      else
        var (rest, t) := FrameListSpec.AllocPage(s);
        r == rest && ok == (t != 0) &&
        if ok then t < FRAMES && n == WithEntry(WithTable(m, cr3, page / 1024, t), cr3, page, e) else n == m
  }

  class AddressSpace {
    /** The physical memory, as far as the tables are concerned. */
    var mem: Memory
    /** The frame of the page directory. */
    const cr3: nat

    ghost predicate Valid()
      reads this
      ensures Valid() ==> Windowed()
    {
      Sound(mem, cr3)
    }

    /** What an access through the window relies on. */
    ghost predicate Windowed()
      reads this
    {
      cr3 < FRAMES && WellFormed(mem) && Recursive(mem, cr3)
    }

    /** pd_init: the first 4 MiB of physical memory appear at address 0 and at 3 GiB, and the
        directory appears in its own last slot.  The directory starts out empty. */
    constructor (memory: Memory, directory: nat, table0: nat, table768: nat)
      requires WellFormed(memory) && directory < FRAMES && table0 < FRAMES && table768 < FRAMES
      requires directory != table0 && directory != table768 && table0 != table768
      requires memory[directory] == EmptyTable()
      ensures Valid() && cr3 == directory
      ensures Present(mem[cr3][0]) && FrameOf(mem[cr3][0]) == table0
      ensures Present(mem[cr3][768]) && FrameOf(mem[cr3][768]) == table768
      ensures forall i :: 0 < i < 1023 && i != 768 ==> mem[cr3][i] == 0
      ensures forall p :: 0 <= p < 1023 * 1024 ==>
        Entry(mem, cr3, p) == if p / 1024 in {0, 768} then p % 1024 * 4096 + 7 else 0
    {
      cr3 := directory;
      mem := memory;
      new;
      FillTables(table0, table768, directory);
      mem := mem[directory := Put(mem[directory], 0, table0 * 4096 + 7)];
      mem := mem[directory := Put(mem[directory], 768, table768 * 4096 + 7)];
      mem := mem[directory := Put(mem[directory], 1023, directory * 4096 + 7)];
      assert mem[directory] == BootDirectory(directory, table0, table768);
      BootSound(mem, directory, table0, table768);
      forall p | 0 <= p < 1023 * 1024
        ensures Entry(mem, cr3, p) == if p / 1024 in {0, 768} then p % 1024 * 4096 + 7 else 0
      {
        BootEntry(mem, directory, table0, table768, p);
      }
    }

    /** The loop of pd_init. */
    method FillTables(table0: nat, table768: nat, ghost other: nat)
      requires WellFormed(mem) && table0 < FRAMES && table768 < FRAMES && table0 != table768
      requires other < FRAMES && other != table0 && other != table768
      modifies this`mem
      ensures WellFormed(mem) && mem[other] == old(mem[other])
      ensures forall j :: 0 <= j < 1024 ==> mem[table0][j] == j * 0x1000 + 7 && mem[table768][j] == j * 0x1000 + 7
    {
      var i := 0;
      while i < 1024
        invariant 0 <= i <= 1024 && WellFormed(mem) && mem[other] == old(mem[other])
        invariant forall j :: 0 <= j < i ==> mem[table0][j] == j * 0x1000 + 7
        invariant forall j :: 0 <= j < i ==> mem[table768][j] == j * 0x1000 + 7
      {
        mem := mem[table0 := Put(mem[table0], i, i * 0x1000 + 7)];
        mem := mem[table768 := Put(mem[table768], i, i * 0x1000 + 7)];
        i := i + 1;
      }
    }

    /** A read at a virtual address that is mapped. */
    method Load(va: Word) returns (w: Word)
      requires Windowed() && Walk(mem, cr3, va).Some?
      ensures w == ReadWord(mem, Walk(mem, cr3, va).value)
    {
      w := ReadWord(mem, Walk(mem, cr3, va).value);
    }

    method Store(va: Word, w: Word)
      requires Windowed() && Walk(mem, cr3, va).Some?
      modifies this`mem
      ensures mem == old(WriteWord(mem, Walk(mem, cr3, va).value, w))
    {
      mem := WriteWord(mem, Walk(mem, cr3, va).value, w);
    }

    method LoadDirectory(pdindex: nat) returns (w: Word)
      requires Windowed() && pdindex < 1024
      ensures w == mem[cr3][pdindex]
    {
      WindowReachesDirectory(mem, cr3, pdindex);
      WordAddress(mem, cr3, pdindex, 0);
      w := Load(DirectoryWord(pdindex));
    }

    method LoadTable(pdindex: nat, ptindex: nat) returns (w: Word)
      requires Windowed() && pdindex < 1024 && ptindex < 1024 && Present(mem[cr3][pdindex])
      ensures w == mem[FrameOf(mem[cr3][pdindex])][ptindex]
    {
      WindowReachesTable(mem, cr3, pdindex, ptindex);
      WordAddress(mem, FrameOf(mem[cr3][pdindex]), ptindex, 0);
      w := Load(TableWord(pdindex, ptindex));
    }

    method StoreDirectory(pdindex: nat, w: Word)
      requires Windowed() && pdindex < 1024
      modifies this`mem
      ensures mem == old(mem[cr3 := Put(mem[cr3], pdindex, w)])
    {
      WindowReachesDirectory(mem, cr3, pdindex);
      WordAddress(mem, cr3, pdindex, w);
      Store(DirectoryWord(pdindex), w);
    }

    method StoreTable(pdindex: nat, ptindex: nat, w: Word)
      requires Windowed() && pdindex < 1024 && ptindex < 1024 && Present(mem[cr3][pdindex])
      modifies this`mem
      ensures var t := FrameOf(old(mem[cr3][pdindex]));
        mem == old(mem[t := Put(mem[t], ptindex, w)])
    {
      WindowReachesTable(mem, cr3, pdindex, ptindex);
      WordAddress(mem, FrameOf(mem[cr3][pdindex]), ptindex, w);
      Store(TableWord(pdindex, ptindex), w);
    }

    /** The physical address behind a virtual one; 0 (NULL) when it is not mapped. */
    method GetPhysaddr(virtualaddr: Word) returns (pa: Word)
      requires Valid()
      ensures var e := Entry(mem, cr3, virtualaddr / 4096);
        pa == if Present(e) then FrameOf(e) * 4096 + virtualaddr % 4096 else 0
    {
      var pdindex := virtualaddr / 0x40_0000;
      var ptindex := virtualaddr / 4096 % 1024;
      assert virtualaddr / 4096 / 1024 == pdindex;
      var pde := LoadDirectory(pdindex);
      if !Present(pde) {
        return 0;
      }
      var pte := LoadTable(pdindex, ptindex);
      if !Present(pte) {
        return 0;
      }
      return FrameOf(pte) * 4096 + virtualaddr % 4096;
    }

    /** The clearing loop of map_page, which runs through the window onto the new table. */
    method ClearTable(pdindex: nat, ghost t: nat)
      requires Valid() && pdindex < 1023 && Present(mem[cr3][pdindex]) && t == FrameOf(mem[cr3][pdindex])
      modifies this`mem
      ensures mem == old(mem)[t := EmptyTable()]
    {
      ghost var m := mem;
      assert At(pdindex);
      var i := 0;
      while i < 1024
        invariant 0 <= i <= 1024 && Valid() && mem == m[t := mem[t]]
        invariant forall j :: 0 <= j < i ==> mem[t][j] == 0
      {
        StoreTable(pdindex, i, 0);
        i := i + 1;
      }
      assert mem[t] == EmptyTable();
    }

    method InstallTable(pdindex: nat, table: nat)
      requires Valid() && pdindex < 1023 && !Present(mem[cr3][pdindex])
      requires table < FRAMES && Unused(mem, cr3, table)
      modifies this`mem
      ensures Valid() && Present(mem[cr3][pdindex])
      ensures mem == old(WithTable(mem, cr3, pdindex, table))
    {
      ghost var m, n := mem, WithTable(mem, cr3, pdindex, table);
      assert Sound(n, cr3) && n[cr3] == Put(m[cr3], pdindex, table * 4096 + 7) by {
        WithTableKeeps(m, cr3, pdindex, table);
      }
      StoreDirectory(pdindex, table * 4096 + 7);
      SoundByDirectory(n, mem, cr3);
      TableEntry(table);
      ClearTable(pdindex, table);
      assert mem[cr3] == n[cr3];
    }

    /** The first half of map_page: a directory entry that is absent gets a fresh table. */
    method EnsureTable(pdindex: nat, pmm: Frames.Pmm) returns (ok: bool)
      requires Valid() && pmm.Valid() && pdindex < 1023
      requires var t := FrameListSpec.AllocPage(pmm.List()).1; t != 0 ==> t < FRAMES && Unused(mem, cr3, t)
      modifies this`mem, pmm`len, pmm.blocks
      ensures Valid() && pmm.Valid()
      ensures ok ==> Present(mem[cr3][pdindex])
      ensures if Present(old(mem)[cr3][pdindex]) then
          ok && mem == old(mem) && pmm.List() == old(pmm.List())
        else
          var (rest, t) := old(FrameListSpec.AllocPage(pmm.List()));
          pmm.List() == rest && ok == (t != 0) &&
          mem == if ok then WithTable(old(mem), cr3, pdindex, t) else old(mem)
    {
      var pde := LoadDirectory(pdindex);
      if !Present(pde) {
        var table := pmm.AllocPage();
        if table == 0 {
          return false;
        }
        InstallTable(pdindex, table);
      }
      return true;
    }

    /** Enters a page in its table, which is created first where the directory has none.  Fails
        only for want of a frame for the table. */
    method MapPage(physaddr: Word, virtualaddr: Word, flags: Word, pmm: Frames.Pmm) returns (ok: bool)
      requires Valid() && pmm.Valid() && virtualaddr / 4096 < 1023 * 1024
      requires var t := FrameListSpec.AllocPage(pmm.List()).1; t != 0 ==> t < FRAMES && Unused(mem, cr3, t)
      modifies this`mem, pmm`len, pmm.blocks
      ensures Valid() && pmm.Valid()
      ensures MapEffect(old(mem), old(pmm.List()), cr3, virtualaddr / 4096, MakeEntry(physaddr, flags),
                        mem, pmm.List(), ok)
    {
      var physical := physaddr - physaddr % 4096;
      var pdindex := virtualaddr / 0x40_0000;
      var ptindex := virtualaddr / 4096 % 1024;
      ghost var page := virtualaddr / 4096;
      assert page / 1024 == pdindex < 1023 && page % 1024 == ptindex;

      ok := EnsureTable(pdindex, pmm);
      if !ok {
        return;
      }
      // The present and the absent case of the source differ only in the TLB flush.
      assert Sound(WithEntry(mem, cr3, page, MakeEntry(physaddr, flags)), cr3) by {
        WithEntryKeeps(mem, cr3, page, MakeEntry(physaddr, flags));
      }
      StoreTable(pdindex, ptindex, physical + WithPresent(flags % 4096));
    }

    /** Clears the entry of a page if there is one. */
    method UnmapPage(virtualaddr: Word)
      requires Valid() && virtualaddr / 4096 < 1023 * 1024
      modifies this`mem
      ensures Valid()
      ensures var page := virtualaddr / 4096;
        mem == if Present(Entry(old(mem), cr3, page)) then WithEntry(old(mem), cr3, page, 0) else old(mem)
    {
      var pdindex := virtualaddr / 0x40_0000;
      var ptindex := virtualaddr / 4096 % 1024;
      ghost var page := virtualaddr / 4096;
      assert page / 1024 == pdindex && page % 1024 == ptindex;
      var pde := LoadDirectory(pdindex);
      if !Present(pde) {
        return;
      }
      var pte := LoadTable(pdindex, ptindex);
      if !Present(pte) {
        return;
      }
      assert Sound(WithEntry(mem, cr3, page, 0), cr3) by {
        WithEntryKeeps(mem, cr3, page, 0);
      }
      StoreTable(pdindex, ptindex, 0);
    }
  }
}
