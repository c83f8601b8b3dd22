/** Machine words, page arithmetic and page-table entries as the kernel's macros define them. */
module Words {

  datatype Option<+T> = None | Some(value: T)

  /** A `uint32_t`. */
  type Word = x: int | 0 <= x < 0x1_0000_0000

  /** A `uint8_t`. */
  type Byte = x: int | 0 <= x < 256

  const PAGE_SIZE := 4096

  /** Number of page frames in a 32-bit physical address space, and of pages in a virtual one. */
  const FRAMES := 0x10_0000

  type Frame = f: int | 0 <= f < 0x10_0000

  /** Virtual page numbers have the same range as frame numbers. */
  type Page = Frame

  /** The frame named by an address or by an entry: its upper 20 bits. */
  function FrameOf(x: Word): Frame {
    x / PAGE_SIZE
  }

  function AddressOf(f: Frame): Word {
    f * PAGE_SIZE
  }

  /** `x & ~0xFFF` */
  function PageBase(x: Word): Word {
    x - x % PAGE_SIZE
  }

  /** `e & PTE_PRESENT` */
  predicate Present(e: Word) {
    e % 2 == 1
  }

  /** `(f * PAGE_SIZE) | PTE_PRESENT | PTE_WRITE | PTE_USER` */
  function Entry(f: Frame): Word {
    f * PAGE_SIZE + 7
  }

  lemma EntryFields(f: Frame)
    ensures Present(Entry(f)) && FrameOf(Entry(f)) == f
    ensures FrameOf(AddressOf(f)) == f && PageBase(AddressOf(f)) == AddressOf(f)
  {
  }

  lemma PageBaseFrame(x: Word)
    ensures FrameOf(PageBase(x)) == FrameOf(x) && PageBase(x) == AddressOf(FrameOf(x))
  {
  }
}
