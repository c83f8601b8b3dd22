/**
 The state the memory manager works on, seen from outside: physical memory, CR3, the active context,
 the frame allocator, and the purpose of every frame in use. The invariants of that state.
 */
module World {
  import opened Words
  import opened Pmm
  import opened Mmu

  // ----- the window pages (kernel/include/mmap.h) -----

  const CONTEXT_WINDOW: Page := 0x400
  const DIRECTORY_WINDOW: Page := 0x401
  const TABLE_WINDOWS: Page := 0x402
  const TEMP_CONTEXT: Page := 0x803
  const TEMP_DIRECTORY: Page := 0x804
  const TEMP_TABLE: Page := 0x805

  /** The window through which the table of directory slot `i` is edited. */
  function TableWindow(i: nat): Page
    requires i < 1024
  {
    TABLE_WINDOWS + i
  }

  /** The windows that describe the active address space. */
  predicate IsWindow(p: Page) {
    CONTEXT_WINDOW <= p <= TABLE_WINDOWS + 1023
  }

  predicate IsTempWindow(p: Page) {
    TEMP_CONTEXT <= p <= TEMP_TABLE
  }

  /** The slot whose table the page is the window of. */
  predicate IsTableWindow(p: Page, i: nat) {
    i < 1024 && p == TABLE_WINDOWS + i
  }

  /** Where the windows begin, in bytes. */
  lemma WindowAddresses(i: nat)
    requires i < 1024
    ensures AddressOf(CONTEXT_WINDOW) == 0x0040_0000 && AddressOf(DIRECTORY_WINDOW) == 0x0040_1000
    ensures AddressOf(TableWindow(i)) == 0x0040_2000 + 0x1000 * i
    ensures AddressOf(TEMP_CONTEXT) == 0x0080_3000 && AddressOf(TEMP_DIRECTORY) == 0x0080_4000
    ensures AddressOf(TEMP_TABLE) == 0x0080_5000
  {
  }

  // ----- the state -----

  /** What a frame that is not free is used for. Table frames of slots 0..255 belong to all contexts. */
  datatype Role =
    | ContextBlock
    | Directory(ctx: Frame)
    | KernelTable(slot: nat)
    | UserTable(ctx: Frame, slot: nat)
    | Data

  /** `roles` is bookkeeping of the model; everything else is machine or kernel state. */
  datatype World = World(mem: Memory, cr3: Frame, active: Frame, pm: PmmState, roles: map<Frame, Role>)

  const KERNEL_SLOTS := 256

  function TableRole(c: Frame, i: nat): Role {
    if i < KERNEL_SLOTS then KernelTable(i) else UserTable(c, i)
  }

  predicate HasRole(w: World, f: Frame, r: Role) {
    f in w.roles && w.roles[f] == r
  }

  predicate IsContext(w: World, c: Frame) {
    HasRole(w, c, ContextBlock)
  }

  /** The frame of the page directory a context names in its first word. */
  function Dir(w: World, c: Frame): Frame {
    FrameOf(w.mem[c][0])
  }

  function Slot(w: World, c: Frame, i: nat): Word
    requires i < 1024
  {
    w.mem[Dir(w, c)][i]
  }

  function TableOf(w: World, c: Frame, i: nat): Frame
    requires i < 1024
  {
    FrameOf(Slot(w, c, i))
  }

  /** The translation of page `p` in context `c`. */
  function Translate(w: World, c: Frame, p: Page): Option<Frame> {
    Walk(w.mem, Dir(w, c), p)
  }

  // ----- invariants -----

  ghost predicate Blank(t: Table) {
    forall i: nat | i < 1024 :: t[i] == 0
  }

  ghost predicate ContextOk(w: World, c: Frame) {
    && w.mem[c][0] == AddressOf(Dir(w, c))
    && HasRole(w, Dir(w, c), Directory(c))
    && (forall i: nat | i < 1024 && Present(Slot(w, c, i)) :: HasRole(w, TableOf(w, c, i), TableRole(c, i)))
    && (forall i: nat | i < 1024 && !Present(Slot(w, c, i)) :: Slot(w, c, i) == 0)
    && (forall i: nat | i < KERNEL_SLOTS :: Slot(w, c, i) == Slot(w, w.active, i))
  }

  /** Frame 0 is in nobody's use, and no allocation will hand it out. */
  ghost predicate ZeroUnused(w: World) {
    0 !in w.roles && 0 !in Reachable(w.pm)
  }

  /**
   The structural invariant. Since `roles` is a map, it makes context blocks, directories, tables and
   free frames pairwise different; all contexts agree on slots 0..255; absent slots and free frames are
   zero-filled.
   */
  ghost predicate Structured(w: World) {
    && CacheAgrees(w.pm) && ZeroUnused(w)
    && IsContext(w, w.active)
    && w.cr3 == Dir(w, w.active)
    && (forall c: Frame | IsContext(w, c) :: ContextOk(w, c))
    && (forall f: Frame | f in w.pm.free :: f !in w.roles && Blank(w.mem[f]))
  }

  ghost predicate Sole(w: World) {
    forall c: Frame | IsContext(w, c) :: c == w.active
  }

  ghost predicate TableWindowOk(w: World, i: nat)
    requires i < 1024
  {
    Present(Slot(w, w.active, i)) ==>
      Translate(w, w.active, TableWindow(i)) == Some(TableOf(w, w.active, i))
  }

  /**
   The self-map: seen through the active address space, the context and directory windows show the
   active context and its directory, and the window of every present slot shows that slot's table.
   Slot 2, which holds the last two table windows and the TEMP windows, is present once it is shared.
   */
  ghost predicate Coherent(w: World) {
    && Present(Slot(w, w.active, 1))
    && Translate(w, w.active, CONTEXT_WINDOW) == Some(w.active)
    && Translate(w, w.active, DIRECTORY_WINDOW) == Some(w.cr3)
    && (forall i: nat | i < 1024 :: TableWindowOk(w, i))
    && (Sole(w) || Present(Slot(w, w.active, 2)))
  }

  ghost predicate Inv(w: World) {
    Structured(w) && Coherent(w)
  }

  /** The page shows nothing: it is not a window, or it is the window of an absent slot. */
  ghost predicate Spare(w: World, p: Page) {
    IsWindow(p) ==> TABLE_WINDOWS <= p && !Present(Slot(w, w.active, p - TABLE_WINDOWS))
  }

  // ----- the two elementary edits -----

  /** Write an entry of a table (meant for present slots). */
  ghost function PutEntry(w: World, c: Frame, p: Page, f: Frame): World {
    w.(mem := Store(w.mem, TableOf(w, c, p / 1024), p % 1024, Entry(f)))
  }

  /** Take a frame from the allocator and enter it as the table of an absent slot. */
  ghost function AddTable(w: World, c: Frame, i: nat): World
    requires i < 1024 && CanAlloc(w.pm)
  {
    var t := Pick(w.pm);
    w.(mem := Store(w.mem, Dir(w, c), i, Entry(t)),
       pm := AfterAlloc(w.pm),
       roles := w.roles[t := TableRole(c, i)])
  }

  /** Which page of which context an entry written for page `p` of context `c` changes. */
  predicate Affects(c: Frame, p: Page, d: Frame, q: Page) {
    q == p && (d == c || p / 1024 < KERNEL_SLOTS)
  }

  /** Contexts, their directories and all directory slots are as before. */
  ghost predicate SameDirectories(w: World, v: World) {
    && w.cr3 == v.cr3 && w.active == v.active
    && (forall c: Frame :: IsContext(w, c) <==> IsContext(v, c))
    && (forall c: Frame | IsContext(w, c) :: w.mem[c] == v.mem[c] && w.mem[Dir(w, c)] == v.mem[Dir(w, c)])
  }

  lemma TablesAreNotDirectories(w: World, c: Frame, i: nat, d: Frame)
    requires Structured(w) && IsContext(w, c) && IsContext(w, d)
    requires i < 1024 && Present(Slot(w, c, i))
    ensures TableOf(w, c, i) != d && TableOf(w, c, i) != Dir(w, d)
    ensures TableOf(w, c, i) !in w.pm.free
    ensures forall j: nat | j < 1024 && Present(Slot(w, d, j)) && TableOf(w, d, j) == TableOf(w, c, i) ::
              i == j && (d == c || i < KERNEL_SLOTS)
    ensures i < KERNEL_SLOTS ==> Slot(w, c, i) == Slot(w, d, i)
  {
    assert ContextOk(w, c) && ContextOk(w, d);
    var t := TableOf(w, c, i);
    assert HasRole(w, t, TableRole(c, i));
    forall j: nat | j < 1024 && Present(Slot(w, d, j)) && TableOf(w, d, j) == t
      ensures i == j && (d == c || i < KERNEL_SLOTS)
    {
      assert HasRole(w, t, TableRole(d, j));
    }
    assert i < KERNEL_SLOTS ==> Slot(w, c, i) == Slot(w, w.active, i) == Slot(w, d, i);
  }

  lemma PutEntryStructure(w: World, c: Frame, p: Page, f: Frame)
    requires Structured(w) && IsContext(w, c) && Present(Slot(w, c, p / 1024))
    ensures var v := PutEntry(w, c, p, f); Structured(v) && SameDirectories(w, v)
  {
    var v := PutEntry(w, c, p, f);
    forall d: Frame | IsContext(w, d)
      ensures w.mem[d] == v.mem[d] && w.mem[Dir(w, d)] == v.mem[Dir(w, d)]
    {
      TablesAreNotDirectories(w, c, p / 1024, d);
    }
    forall d: Frame | IsContext(w, d)
      ensures ContextOk(v, d)
    {
      assert ContextOk(w, d) && IsContext(w, w.active);
      forall i: nat | i < 1024
        ensures Slot(v, d, i) == Slot(w, d, i) && Slot(v, v.active, i) == Slot(w, w.active, i)
      {
      }
    }
    TablesAreNotDirectories(w, c, p / 1024, c);
  }

  lemma PutEntryWalk(m: Memory, dir: Frame, t: Frame, p: Page, f: Frame, q: Page, hits: bool)
    requires t != dir
    requires WalkedTable(m, dir, q) == Some(t) ==> q / 1024 == p / 1024 && hits
    requires q == p && hits ==> WalkedTable(m, dir, q) == Some(t)
    ensures Walk(Store(m, t, p % 1024, Entry(f)), dir, q) == if q == p && hits then Some(f) else Walk(m, dir, q)
  {
    StoreAndWalk(m, dir, t, p % 1024, Entry(f), q);
    EntryFields(f);
  }

  lemma PutEntryTranslations(w: World, c: Frame, p: Page, f: Frame, d: Frame, q: Page)
    requires Structured(w) && IsContext(w, c) && IsContext(w, d) && Present(Slot(w, c, p / 1024))
    ensures Translate(PutEntry(w, c, p, f), d, q) == if Affects(c, p, d, q) then Some(f) else Translate(w, d, q)
  {
    var t, hits := TableOf(w, c, p / 1024), d == c || p / 1024 < KERNEL_SLOTS;
    TablesAreNotDirectories(w, c, p / 1024, d);
    if WalkedTable(w.mem, Dir(w, d), q) == Some(t) {
      assert TableOf(w, d, q / 1024) == t;
    }
    assert PutEntry(w, c, p, f).mem[d] == w.mem[d];
    PutEntryWalk(w.mem, Dir(w, d), t, p, f, q, hits);
  }

  lemma PutEntryEffect(w: World, c: Frame, p: Page, f: Frame)
    requires Structured(w) && IsContext(w, c) && Present(Slot(w, c, p / 1024))
    ensures var v := PutEntry(w, c, p, f);
            && Structured(v) && SameDirectories(w, v)
            && (forall d: Frame, q: Page | IsContext(w, d) ::
                  Translate(v, d, q) == if Affects(c, p, d, q) then Some(f) else Translate(w, d, q))
  {
    PutEntryStructure(w, c, p, f);
    var v := PutEntry(w, c, p, f);
    forall d: Frame, q: Page | IsContext(w, d)
      ensures Translate(v, d, q) == if Affects(c, p, d, q) then Some(f) else Translate(w, d, q)
    {
      PutEntryTranslations(w, c, p, f, d, q);
    }
  }

  lemma AddTableSlots(w: World, c: Frame, i: nat, d: Frame)
    requires Structured(w) && IsContext(w, c) && IsContext(w, d) && CanAlloc(w.pm)
    requires i < 1024
    ensures var v := AddTable(w, c, i);
            && IsContext(v, d) && v.mem[d] == w.mem[d]
            && (forall j: nat | j < 1024 ::
                  Slot(v, d, j) == if d == c && j == i then Entry(Pick(w.pm)) else Slot(w, d, j))
  {
    assert ContextOk(w, c) && ContextOk(w, d);
    assert w.roles[Dir(w, c)] == Directory(c) && w.roles[Dir(w, d)] == Directory(d);
    assert Pick(w.pm) in w.pm.free;
  }

  lemma AddTableContextOk(w: World, c: Frame, i: nat, d: Frame)
    requires Structured(w) && IsContext(w, c) && IsContext(w, d) && CanAlloc(w.pm)
    requires i < 1024 && !Present(Slot(w, c, i))
    requires KERNEL_SLOTS <= i || Sole(w)
    ensures ContextOk(AddTable(w, c, i), d)
  {
    var v, t := AddTable(w, c, i), Pick(w.pm);
    assert t in w.pm.free && ContextOk(w, d);
    EntryFields(t);
    AddTableSlots(w, c, i, d);
    AddTableSlots(w, c, i, w.active);
    forall j: nat | j < 1024
      ensures Present(Slot(v, d, j)) ==> HasRole(v, TableOf(v, d, j), TableRole(d, j))
      ensures !Present(Slot(v, d, j)) ==> Slot(v, d, j) == 0
    {
      assert Present(Slot(w, d, j)) ==> HasRole(w, TableOf(w, d, j), TableRole(d, j));
    }
    forall j: nat | j < KERNEL_SLOTS ensures Slot(v, d, j) == Slot(v, v.active, j) {
      assert Slot(w, d, j) == Slot(w, w.active, j);
    }
  }

  lemma AddTableStructure(w: World, c: Frame, i: nat)
    requires Structured(w) && IsContext(w, c) && CanAlloc(w.pm)
    requires i < 1024 && !Present(Slot(w, c, i))
    requires KERNEL_SLOTS <= i || Sole(w)
    ensures Structured(AddTable(w, c, i))
  {
    var v, t := AddTable(w, c, i), Pick(w.pm);
    assert t in w.pm.free && ContextOk(w, c);
    forall d: Frame | IsContext(v, d) ensures ContextOk(v, d) {
      assert IsContext(w, d);
      AddTableContextOk(w, c, i, d);
    }
    AddTableSlots(w, c, i, w.active);
    AllocSpends(w.pm);
  }

  lemma AddTableTranslations(w: World, c: Frame, i: nat, d: Frame, q: Page)
    requires Structured(w) && IsContext(w, c) && IsContext(w, d) && CanAlloc(w.pm)
    requires i < 1024 && !Present(Slot(w, c, i))
    ensures Translate(AddTable(w, c, i), d, q) == Translate(w, d, q)
  {
    AddTableSlots(w, c, i, d);
    assert ContextOk(w, c) && ContextOk(w, d);
    var v, t, j := AddTable(w, c, i), Pick(w.pm), q / 1024;
    if d == c && j == i {
      assert t in w.pm.free;
      assert v.mem[t] == w.mem[t];
      assert w.mem[t][q % 1024] == 0;
    } else if Present(Slot(w, d, j)) {
      assert HasRole(w, TableOf(w, d, j), TableRole(d, j));
    }
  }

  lemma AddTableEffect(w: World, c: Frame, i: nat)
    requires Structured(w) && IsContext(w, c) && CanAlloc(w.pm)
    requires i < 1024 && !Present(Slot(w, c, i))
    requires KERNEL_SLOTS <= i || Sole(w)
    ensures var v := AddTable(w, c, i);
            && Structured(v)
            && v.cr3 == w.cr3 && v.active == w.active
            && (forall d: Frame :: IsContext(v, d) <==> IsContext(w, d))
            && (forall d: Frame | IsContext(w, d) :: v.mem[d] == w.mem[d])
            && (forall d: Frame, j: nat | IsContext(w, d) && j < 1024 ::
                  Slot(v, d, j) == if d == c && j == i then Entry(Pick(w.pm)) else Slot(w, d, j))
            && (forall d: Frame, q: Page | IsContext(w, d) :: Translate(v, d, q) == Translate(w, d, q))
  {
    var v := AddTable(w, c, i);
    AddTableStructure(w, c, i);
    forall d: Frame ensures IsContext(v, d) <==> IsContext(w, d) {
      assert Pick(w.pm) in w.pm.free;
    }
    forall d: Frame | IsContext(w, d)
      ensures v.mem[d] == w.mem[d]
      ensures forall j: nat | j < 1024 ::
                Slot(v, d, j) == if d == c && j == i then Entry(Pick(w.pm)) else Slot(w, d, j)
    {
      AddTableSlots(w, c, i, d);
    }
    forall d: Frame, q: Page | IsContext(w, d)
      ensures Translate(v, d, q) == Translate(w, d, q)
    {
      AddTableTranslations(w, c, i, d, q);
    }
  }
}
