/** 32-bit paging (section 4.3, "32-Bit Paging", of the Intel SDM, Volume 3A) over a physical
    memory of words, with the page directory entered in its own last slot. */
module Paging {
  import opened Machine
  import opened Markers

  /** Physical memory: frames of 1024 words. */
  type Memory = seq<seq<Word>>

  ghost predicate WellFormed(m: Memory) {
    |m| == FRAMES && forall f :: 0 <= f < |m| ==> |m[f]| == 1024
  }

  /** One word of a frame replaced. */
  function Put(frame: seq<Word>, i: nat, w: Word): (r: seq<Word>)
    requires i < |frame|
    ensures |r| == |frame| && r[i] == w && forall j :: 0 <= j < |r| && j != i ==> r[j] == frame[j]
  {
    frame[i := w]
  }

  /** Bit 0 of an entry. */
  predicate Present(e: Word) { e % 2 == 1 }

  /** Bits 31..12 of an entry. */
  function FrameOf(e: Word): (f: nat)
    ensures f < FRAMES
  {
    e / 4096
  }

  /** The parts of an entry put together from a frame and its low bits. */
  lemma EntryParts(frame: nat, low: nat)
    requires frame < FRAMES && low < 4096
    ensures 0 <= frame * 4096 + low < 0x1_0000_0000
    ensures (frame * 4096 + low) / 4096 == frame && (frame * 4096 + low) % 4096 == low
    ensures (frame * 4096 + low) % 2 == low % 2
  {
  }

  /** A multiple of a page and the rest. */
  lemma PageParts(a: nat)
    requires a < 0x1_0000_0000
    ensures a == a / 4096 * 4096 + a % 4096 && a / 4096 < FRAMES
  {
  }

  datatype Option<T> = None | Some(value: T)

  /** The hardware's translation of a virtual address, for supervisor accesses with
      write protection and large pages off. */
  function Walk(m: Memory, cr3: nat, va: Word): (r: Option<Word>)
    requires cr3 < FRAMES && WellFormed(m)
  {
    var pde := m[cr3][va / 0x40_0000];
    if !Present(pde) then None
    else
      var pte := m[FrameOf(pde)][va / 4096 % 1024];
      if !Present(pte) then None else Some(FrameOf(pte) * 4096 + va % 4096)
  }

  function ReadWord(m: Memory, pa: Word): Word
    requires WellFormed(m)
  {
    m[pa / 4096][pa % 4096 / 4]
  }

  function WriteWord(m: Memory, pa: Word, w: Word): (r: Memory)
    requires WellFormed(m)
    ensures WellFormed(r)
  {
    m[pa / 4096 := Put(m[pa / 4096], pa % 4096 / 4, w)]
  }

  /** Physical addresses of aligned words. */
  lemma WordAddress(m: Memory, frame: nat, index: nat, w: Word)
    requires WellFormed(m) && frame < FRAMES && index < 1024
    ensures ReadWord(m, frame * 4096 + 4 * index) == m[frame][index]
    ensures WriteWord(m, frame * 4096 + 4 * index, w) == m[frame := Put(m[frame], index, w)]
  {
    var pa := frame * 4096 + 4 * index;
    assert pa / 4096 == frame && pa % 4096 / 4 == index;
  }

  // ----- the recursive window

  /** The virtual address of entry `index` of the table that directory entry `pdindex` names. */
  function TableWord(pdindex: nat, index: nat): Word
    requires pdindex < 1024 && index < 1024
  {
    0xFFC0_0000 + 4 * 0x400 * pdindex + 4 * index
  }

  /** The virtual address of directory entry `pdindex`. */
  function DirectoryWord(pdindex: nat): Word
    requires pdindex < 1024
  {
    0xFFFF_F000 + 4 * pdindex
  }

  /** Slot 1023 of the directory names the directory. */
  ghost predicate Recursive(m: Memory, cr3: nat)
    requires cr3 < FRAMES && WellFormed(m)
  {
    Present(m[cr3][1023]) && FrameOf(m[cr3][1023]) == cr3
  }

  /** Through the window, a table word is where the directory says the table is. */
  lemma WindowReachesTable(m: Memory, cr3: nat, pdindex: nat, index: nat)
    requires cr3 < FRAMES && WellFormed(m) && Recursive(m, cr3)
    requires pdindex < 1024 && index < 1024
    ensures Walk(m, cr3, TableWord(pdindex, index)) ==
      if Present(m[cr3][pdindex]) then Some(FrameOf(m[cr3][pdindex]) * 4096 + 4 * index) else None
  {
    var va := TableWord(pdindex, index);
    EntryParts(1023 * 1024 + pdindex, 4 * index);
    assert va == (1023 * 1024 + pdindex) * 4096 + 4 * index;
    TableParts(1023, pdindex);
    DirectoryParts(1023, 4096 * pdindex + 4 * index);
  }

  lemma TableParts(i: nat, j: nat)
    requires j < 1024
    ensures (i * 1024 + j) / 1024 == i && (i * 1024 + j) % 1024 == j
  {
  }

  lemma DirectoryParts(i: nat, rest: nat)
    requires rest < 0x40_0000
    ensures (i * 0x40_0000 + rest) / 0x40_0000 == i
  {
  }

  /** The last page of the window is the directory itself. */
  lemma WindowReachesDirectory(m: Memory, cr3: nat, pdindex: nat)
    requires cr3 < FRAMES && WellFormed(m) && Recursive(m, cr3) && pdindex < 1024
    ensures Walk(m, cr3, DirectoryWord(pdindex)) == Some(cr3 * 4096 + 4 * pdindex)
  {
    assert DirectoryWord(pdindex) == TableWord(1023, pdindex);
    WindowReachesTable(m, cr3, 1023, pdindex);
  }

  // ----- the flat view: from page to entry

  /** The page-table entry that governs a page; 0 when its table is absent. */
  function Entry(m: Memory, cr3: nat, page: nat): Word
    requires cr3 < FRAMES && WellFormed(m)
    requires page < FRAMES
  {
    var pde := m[cr3][page / 1024];
    if Present(pde) then m[FrameOf(pde)][page % 1024] else 0
  }

  /** The translation of an address is determined by the entry of its page. */
  lemma WalkIsEntry(m: Memory, cr3: nat, va: Word)
    requires cr3 < FRAMES && WellFormed(m)
    ensures var e := Entry(m, cr3, va / 4096);
      Walk(m, cr3, va) == if e % 2 == 1 then Some(e / 4096 * 4096 + va % 4096) else None
  {
    assert va / 4096 / 1024 == va / 0x40_0000;
  }

  /** The directory and the page tables it names occupy different frames. */
  ghost predicate Sound(m: Memory, cr3: nat) {
    && cr3 < FRAMES && WellFormed(m)
    && m[cr3][1023] == cr3 * 4096 + 7
    && (forall i {:trigger At(i)} :: At(i) && 0 <= i < 1023 && Present(m[cr3][i]) ==>
          FrameOf(m[cr3][i]) != cr3)
    && (forall i, j {:trigger At(i), At(j)} ::
          At(i) && At(j) && 0 <= i < j < 1023 && Present(m[cr3][i]) && Present(m[cr3][j]) ==>
          FrameOf(m[cr3][i]) != FrameOf(m[cr3][j]))
  }

  /** Only the directory decides soundness. */
  lemma SoundByDirectory(m: Memory, n: Memory, cr3: nat)
    requires Sound(m, cr3) && WellFormed(n) && n[cr3] == m[cr3]
    ensures Sound(n, cr3)
  {
  }

  /** A page table without entries. */
  function EmptyTable(): (r: seq<Word>)
    ensures |r| == 1024 && forall i :: 0 <= i < 1024 ==> r[i] == 0
  {
    seq(1024, _ => 0)
  }

  /** A directory entry for a fresh table of empty entries in frame `t`. */
  function WithTable(m: Memory, cr3: nat, pdindex: nat, t: nat): Memory
    requires WellFormed(m) && cr3 < FRAMES && pdindex < 1024 && t < FRAMES
  {
    m[cr3 := Put(m[cr3], pdindex, t * 4096 + 7)][t := EmptyTable()]
  }

  /** The entry of one page replaced, in a table that exists. */
  function WithEntry(m: Memory, cr3: nat, page: nat, e: Word): Memory
    requires WellFormed(m) && cr3 < FRAMES && page < FRAMES
  {
    var t := FrameOf(m[cr3][page / 1024]);
    m[t := Put(m[t], page % 1024, e)]
  }

  /** A frame that no table of the directory occupies. */
  ghost predicate Unused(m: Memory, cr3: nat, t: nat)
    requires cr3 < FRAMES && WellFormed(m)
  {
    t != cr3 &&
    forall i {:trigger At(i)} :: At(i) && 0 <= i < 1023 && Present(m[cr3][i]) ==> FrameOf(m[cr3][i]) != t
  }

  /** Adding a table for an absent directory entry changes no translation outside the window. */
  lemma WithTableKeeps(m: Memory, cr3: nat, pdindex: nat, t: nat)
    requires Sound(m, cr3) && pdindex < 1023 && !Present(m[cr3][pdindex])
    requires t < FRAMES && Unused(m, cr3, t)
    ensures var n := WithTable(m, cr3, pdindex, t);
      Sound(n, cr3) &&
      n[cr3][pdindex] == t * 4096 + 7 &&
      (forall i :: 0 <= i < 1024 && i != pdindex ==> n[cr3][i] == m[cr3][i]) &&
      (forall p :: 0 <= p < 1023 * 1024 ==> Entry(n, cr3, p) == Entry(m, cr3, p))
  {
    var n := WithTable(m, cr3, pdindex, t);
    assert WellFormed(n) && At(pdindex);
    assert FrameOf(n[cr3][pdindex]) == t;
    forall p | 0 <= p < 1023 * 1024 ensures Entry(n, cr3, p) == Entry(m, cr3, p) {
      assert At(p / 1024) && At(pdindex) && p / 1024 < 1023;
    }
  }

  /** Replacing the entry of one page changes the entry of no other page outside the window. */
  lemma WithEntryKeeps(m: Memory, cr3: nat, page: nat, e: Word)
    requires Sound(m, cr3) && page < 1023 * 1024 && Present(m[cr3][page / 1024])
    ensures var n := WithEntry(m, cr3, page, e);
      Sound(n, cr3) && n[cr3] == m[cr3] &&
      (forall p :: 0 <= p < 1023 * 1024 ==> Entry(n, cr3, p) == if p == page then e else Entry(m, cr3, p))
  {
    var n := WithEntry(m, cr3, page, e);
    assert WellFormed(n) && At(page / 1024);
    forall p | 0 <= p < 1023 * 1024
      ensures Entry(n, cr3, p) == if p == page then e else Entry(m, cr3, p)
    {
      var i, j := p / 1024, page / 1024;
      assert At(i) && At(j) && i < 1023 && j < 1023;
      assert p == 1024 * i + p % 1024 && page == 1024 * j + page % 1024;
    }
  }
}
