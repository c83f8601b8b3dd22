/**
 Physical memory and the two-level page walk of 32-bit paging
 (Intel Software Developer's Manual Vol. 3A, section 4.3), with 4-KByte pages only.
 */
module Mmu {
  import opened Words

  /** One page frame, as 1024 words. */
  type Table = s: seq<Word> | |s| == 1024 witness seq(1024, _ => 0)

  function Zeros(): (t: Table)
    ensures forall i: nat | i < 1024 :: t[i] == 0
  {
    seq(1024, _ => 0)
  }

  /** The whole 32-bit physical address space. */
  type Memory = m: seq<Table> | |m| == FRAMES witness seq<Table>(FRAMES, _ => Zeros())

  function Store(m: Memory, f: Frame, i: nat, w: Word): Memory
    requires i < 1024
  {
    m[f := m[f][i := w]]
  }

  /** The translation of virtual page `p` under the page directory in frame `dir`; None is a page fault. */
  function Walk(m: Memory, dir: Frame, p: Page): Option<Frame> {
    var pde := m[dir][p / 1024];
    if !Present(pde) then None else
    var pte := m[FrameOf(pde)][p % 1024];
    if !Present(pte) then None else Some(FrameOf(pte))
  }

  /** The table that the walk of page `p` consults, if its slot is present. */
  function WalkedTable(m: Memory, dir: Frame, p: Page): Option<Frame> {
    var pde := m[dir][p / 1024];
    if Present(pde) then Some(FrameOf(pde)) else None
  }

  /** A store outside the directory is seen exactly by the walks that end in the stored cell. */
  lemma StoreAndWalk(m: Memory, dir: Frame, t: Frame, i: nat, e: Word, p: Page)
    requires t != dir && i < 1024
    ensures WalkedTable(Store(m, t, i, e), dir, p) == WalkedTable(m, dir, p)
    ensures Walk(Store(m, t, i, e), dir, p) ==
            if WalkedTable(m, dir, p) == Some(t) && p % 1024 == i
            then (if Present(e) then Some(FrameOf(e)) else None)
            else Walk(m, dir, p)
  {
  }

  /** Section 4.6 of the same volume: bit 1 of an entry permits writes, bit 2 permits user-mode accesses. */
  predicate Permits(e: Word, user: bool, write: bool) {
    e % 2 == 1 && (write ==> e / 2 % 2 == 1) && (user ==> e / 4 % 2 == 1)
  }

  /** The frame that an access to page `p` reaches. Both entries have to permit it; None is a page fault. */
  function Access(m: Memory, dir: Frame, p: Page, user: bool, write: bool): Option<Frame> {
    var pde := m[dir][p / 1024];
    if !Permits(pde, user, write) then None else
    var pte := m[FrameOf(pde)][p % 1024];
    if !Permits(pte, user, write) then None else Some(FrameOf(pte))
  }

  predicate IsOpen(e: Word) {
    e == 0 || e % 8 == 7
  }

  /** Where all entries are zero or end in binary 111, no access to a mapped page is refused. */
  lemma OpenAccess(m: Memory, dir: Frame, p: Page)
    requires IsOpen(m[dir][p / 1024])
    requires Present(m[dir][p / 1024]) ==> IsOpen(m[FrameOf(m[dir][p / 1024])][p % 1024])
    ensures forall user: bool, write: bool :: Access(m, dir, p, user, write) == Walk(m, dir, p)
  {
  }

  /**
   Translations the processor may hold on to (section 4.10.4 of the same volume). No translation in
   this kernel is global, so a write to CR3 drops all of them.
   */
  type Tlb = map<Page, Frame>

  /** No cached translation disagrees with the tables, except possibly that of the page in `stale`. */
  ghost predicate TlbAgrees(t: Tlb, m: Memory, dir: Frame, stale: set<Page>) {
    forall p | p in t && p !in stale :: Walk(m, dir, p) == Some(t[p])
  }
}
