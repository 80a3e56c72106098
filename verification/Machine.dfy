/** The machine's words, and how many frames a physical address can name. */
module Machine {

  type Word = w: int | 0 <= w < 0x1_0000_0000

  /** Number of frames of a 32-bit physical address space. */
  const FRAMES: nat := 0x10_0000
}
