/**
 The virtual memory manager of kernel/memory/vmm.c in paging-active mode. Every access to a directory,
 a table or a context block goes through a window page and is resolved by the processor, that is by a
 cached translation or by the walk of the active directory.
 */
module Vmm {
  import opened Words
  import opened Pmm
  import opened Mmu
  import opened Bytes
  import opened World
  import opened Mapping
  import opened OtherContext
  import opened Windows
  import opened Contexts
  import opened Creation
  import opened Switching
  import opened SwitchOutcome
  import opened Allocation

  // ----- which edits leave cached translations valid -----

  lemma NewTableTlb(t: Tlb, w: World, p: Page)
    requires ThroughWindows(w, p) && !Present(Slot(w, w.active, p / 1024)) && CanAlloc(w.pm)
    requires TlbAgrees(t, w.mem, w.cr3, {})
    ensures TlbAgrees(t, NewTable(w, p).mem, w.cr3, {})
  {
    OtherTableTlb(t, w, w.active, p / 1024);
  }

  lemma OtherTableTlb(t: Tlb, w: World, c: Frame, i: nat)
    requires Structured(w) && IsContext(w, c) && CanAlloc(w.pm) && i < 1024 && !Present(Slot(w, c, i))
    requires TlbAgrees(t, w.mem, w.cr3, {})
    ensures TlbAgrees(t, AddTable(w, c, i).mem, w.cr3, {})
  {
    AddTableSlots(w, c, i, w.active);
    forall q: Page | q in t ensures Walk(AddTable(w, c, i).mem, w.cr3, q) == Some(t[q]) {
      AddTableTranslations(w, c, i, w.active, q);
    }
  }

  lemma SetFrameTlb(t: Tlb, w: World, g: Frame, x: Table)
    requires Structured(w) && CanSetFrame(w, g, x) && TlbAgrees(t, w.mem, w.cr3, {})
    ensures TlbAgrees(t, SetFrame(w, g, x).mem, w.cr3, {})
  {
    SetFrameEffect(w, g, x);
    forall q: Page | q in t ensures Walk(SetFrame(w, g, x).mem, w.cr3, q) == Some(t[q]) {
      assert Translate(SetFrame(w, g, x), w.active, q) == Translate(w, w.active, q);
    }
  }

  lemma EntryTlb(t: Tlb, w: World, g: Frame, p: Page, f: Frame)
    requires Harmless(w, g, p) && TlbAgrees(t, w.mem, w.cr3, {})
    ensures TlbAgrees(t, PutIn(w, g, p, f).mem, w.cr3, {p})
  {
    forall q: Page | q in t && q != p ensures Walk(PutIn(w, g, p, f).mem, w.cr3, q) == Some(t[q]) {
      PutInWalk(w, g, p, f, q);
    }
  }

  /** Context arguments are NULL or the address of a context block. */
  predicate IsHandle(context: Word) {
    context == AddressOf(FrameOf(context))
  }

  function Chosen(context: Word, active: Word): Frame {
    FrameOf(if context == 0 then active else context)
  }

  class Machine {
    var mem: Memory
    var cr3: Frame
    var tlb: Tlb
    var activeContext: Word
    const pmm: PageAllocator
    ghost var roles: map<Frame, Role>

    /** Nothing the processor has cached disagrees with the tables it walks. */
    ghost predicate Valid()
      reads this, pmm, pmm.bitmap
    {
      && pmm.Valid()
      && activeContext == AddressOf(FrameOf(activeContext))
      && TlbAgrees(tlb, mem, cr3, {})
    }

    ghost function S(): (w: World)
      requires pmm.Valid()
      reads this, pmm, pmm.bitmap
    {
      World(mem, cr3, FrameOf(activeContext), pmm.State(), roles)
    }

    /** The machine at the end of vmm_init: paging is on and CR3 has just been loaded. */
    constructor (m: Memory, dir: Frame, context: Word, allocator: PageAllocator, ghost uses: map<Frame, Role>)
      requires allocator.Valid() && context == AddressOf(FrameOf(context))
      ensures Valid() && pmm == allocator
      ensures S() == World(m, dir, FrameOf(context), allocator.State(), uses)
    {
      mem, cr3, tlb, activeContext, pmm, roles := m, dir, map[], context, allocator, uses;
    }

    // ----- the processor -----

    /** The processor may drop cached translations and cache any translation of the current tables. */
    method Speculate(ghost stale: set<Page>)
      requires TlbAgrees(tlb, mem, cr3, stale)
      modifies this`tlb
      ensures TlbAgrees(tlb, mem, cr3, stale)
    {
      var cached: Tlb := *;
      if forall p | p in cached :: (p in tlb && tlb[p] == cached[p]) || Walk(mem, cr3, p) == Some(cached[p]) {
        tlb := cached;
      }
    }

    /** The frame an access to page `p` reaches: the cached translation if there is one, else the walk. */
    method Resolve(p: Page) returns (f: Frame)
      requires TlbAgrees(tlb, mem, cr3, {}) && Walk(mem, cr3, p).Some?
      modifies this`tlb
      ensures TlbAgrees(tlb, mem, cr3, {}) && Walk(mem, cr3, p) == Some(f)
    {
      Speculate({});
      f := if p in tlb then tlb[p] else Walk(mem, cr3, p).value;
    }

    /** Read element `i` of the word array that starts at virtual page `p`. */
    method LoadWord(p: Page, i: nat) returns (w: Word)
      requires TlbAgrees(tlb, mem, cr3, {}) && Walk(mem, cr3, p).Some? && i < 1024
      modifies this`tlb
      ensures TlbAgrees(tlb, mem, cr3, {})
      ensures w == mem[Walk(mem, cr3, p).value][i]
    {
      var f := Resolve(p);
      w := mem[f][i];
    }

    /** Write element `i` of the word array that starts at virtual page `p`. The cache is not informed. */
    method StoreWord(p: Page, i: nat, w: Word)
      requires TlbAgrees(tlb, mem, cr3, {}) && Walk(mem, cr3, p).Some? && i < 1024
      modifies this`tlb, this`mem
      ensures TlbAgrees(tlb, old(mem), cr3, {})
      ensures mem == Store(old(mem), Walk(old(mem), cr3, p).value, i, w)
    {
      var f := Resolve(p);
      mem := Store(mem, f, i, w);
    }

    /** Read the byte at offset `o` of virtual page `p`. */
    method LoadByte(p: Page, o: nat) returns (b: Byte)
      requires TlbAgrees(tlb, mem, cr3, {}) && Walk(mem, cr3, p).Some? && o < PAGE_SIZE
      modifies this`tlb
      ensures TlbAgrees(tlb, mem, cr3, {})
      ensures b == FrameByte(mem[Walk(mem, cr3, p).value], o)
    {
      var f := Resolve(p);
      b := FrameByte(mem[f], o);
    }

    method StoreByte(p: Page, o: nat, b: Byte)
      requires TlbAgrees(tlb, mem, cr3, {}) && Walk(mem, cr3, p).Some? && o < PAGE_SIZE
      modifies this`tlb, this`mem
      ensures TlbAgrees(tlb, old(mem), cr3, {})
      ensures var f := Walk(old(mem), cr3, p).value;
              mem == old(mem)[f := PutByte(old(mem)[f], o, b)]
    {
      var f := Resolve(p);
      mem := mem[f := PutByte(mem[f], o, b)];
    }

    /** A byte store into a frame that holds no part of a translation. */
    method StorePlainByte(ghost g: Frame, p: Page, o: nat, b: Byte)
      requires Valid() && Structured(S()) && IsPayload(S(), g)
      requires Walk(mem, cr3, p) == Some(g) && o < PAGE_SIZE
      modifies this`tlb, this`mem
      ensures Valid() && S() == SetFrame(old(S()), g, PutByte(old(mem)[g], o, b))
    {
      SetFrameTlb(tlb, S(), g, PutByte(mem[g], o, b));
      ghost var w := S();
      StoreByte(p, o, b);
      SetFrameTlb(tlb, w, g, PutByte(w.mem[g], o, b));
    }

    method Invlpg(p: Page)
      requires TlbAgrees(tlb, mem, cr3, {p})
      modifies this`tlb
      ensures TlbAgrees(tlb, mem, cr3, {})
    {
      Speculate({p});
      tlb := tlb - {p};
    }

    // ----- vmm_map_page -----

    /** Write the entry of `p` through the window page `table`, and drop the cached translation of `p`. */
    method WriteEntry(ghost g: Frame, table: Page, p: Page, f: Frame)
      requires Valid() && Walk(mem, cr3, table) == Some(g) && Harmless(S(), g, p)
      modifies this`tlb, this`mem
      ensures Valid() && S() == PutIn(old(S()), g, p, f)
      ensures mem[g][p % 1024] == 4096 * f + 7
    {
      EntryTlb(tlb, S(), g, p, f);
      ghost var w := S();
      StoreWord(table, p % 1024, AddressOf(f) + 7);
      EntryTlb(tlb, w, g, p, f);
      Invlpg(p);
    }

    /** Take a frame and write it as a present entry of the directory seen through window `directory`. */
    method EnterTable(ghost c: Frame, directory: Page, i: nat) returns (t: Frame)
      requires pmm.Valid() && TlbAgrees(tlb, mem, cr3, {}) && CanAlloc(S().pm) && i < 1024
      requires Walk(mem, cr3, directory) == Some(Dir(S(), c))
      modifies this`tlb, this`mem, this`roles, pmm`nextBit, pmm.bitmap
      ensures pmm.Valid() && TlbAgrees(tlb, old(mem), cr3, {})
      ensures t == Pick(old(S()).pm) && S() == AddTable(old(S()), c, i)
      ensures mem[Dir(old(S()), c)][i] == 4096 * t + 7
    {
      ghost var w := S();
      var page := pmm.Alloc();
      t := FrameOf(page);
      EntryFields(Pick(w.pm));
      StoreWord(directory, i, page + 7);
      roles := roles[t := TableRole(c, i)];
    }

    /** Allocate a table for the slot of `p`, enter it in the directory, and map its window. */
    method CreateTable(p: Page)
      requires Valid() && ThroughWindows(S(), p) && !Present(Slot(S(), FrameOf(activeContext), p / 1024))
      modifies this`tlb, this`mem, this`roles, pmm`nextBit, pmm.bitmap
      ensures Valid()
      ensures CanAlloc(old(S()).pm) && CanEnter(NewTable(old(S()), p), TableWindow(p / 1024))
      ensures S() == MapHere(NewTable(old(S()), p), TableWindow(p / 1024), Pick(old(S()).pm))
      decreases TablesNeeded(S(), p / 1024), 0
    {
      ghost var w := S();
      NewTableEnters(w, p);
      var t := EnterTable(w.active, DIRECTORY_WINDOW, p / 1024);
      NewTableTlb(tlb, w, p);
      if NeedsSlot2(w, p) {
        NewTableIsReady(w, p);
      } else {
        NewWindowIsDirect(w, p, t);
      }
      MapActive(TableWindow(p / 1024), t);
    }

    /**
     The branch of vmm_map_page taken when the context is the active one. Even where the windows are not
     truthful it does what they say, as long as the slot it sees is present.
     */
    method MapActive(p: Page, f: Frame)
      requires Valid() && (ThroughWindows(S(), p) || Direct(S(), p))
      modifies this`tlb, this`mem, this`roles, pmm`nextBit, pmm.bitmap
      ensures Valid()
      ensures ThroughWindows(old(S()), p) ==> S() == MapHere(old(S()), p, f)
      ensures Direct(old(S()), p) ==> S() == WriteThrough(old(S()), p, f)
      decreases if Direct(S(), p) then 0 else TablesNeeded(S(), p / 1024), 1
    {
      ghost var w := S();
      var pde := LoadWord(DIRECTORY_WINDOW, p / 1024);
      ghost var g, v := Seen(w, TableWindow(p / 1024)), w;
      if Present(pde) {
        PresentCase(w, p, f);
      } else {
        AbsentCase(w, p, f);
        CreateTable(p);
        g, v := Pick(w.pm), MapHere(NewTable(w, p), TableWindow(p / 1024), Pick(w.pm));
      }
      assert S() == v && Walk(v.mem, v.cr3, TableWindow(p / 1024)) == Some(g) && Harmless(v, g, p);
      WriteEntry(g, TableWindow(p / 1024), p, f);
    }

    /** Point a TEMP window at a frame. */
    method PointTempWindow(q: Page, f: Frame)
      requires Valid() && Inv(S()) && IsTempWindow(q) && Present(Slot(S(), FrameOf(activeContext), 2))
      modifies this`tlb, this`mem, this`roles, pmm`nextBit, pmm.bitmap
      ensures Valid() && S() == PutEntry(old(S()), FrameOf(activeContext), q, f)
    {
      PointTemp(S(), q, f);
      CoherentIsReady(S(), q);
      MapActive(q, f);
    }

    /** The branch of vmm_map_page taken when the context is not the active one. */
    method MapOther(c: Frame, p: Page, f: Frame)
      requires Valid() && CanMapThere(S(), c, p)
      modifies this`tlb, this`mem, this`roles, pmm`nextBit, pmm.bitmap
      ensures Valid() && S() == MapThere(old(S()), c, p, f)
    {
      ghost var w := S();
      OtherImpliesSlot2(w, c);
      ShowContextReady(w, c, p);
      TableShownFacts(w, c, p);
      ShowDirectory(c);
      ShowTable(c, p / 1024);
      HarmlessTable(S(), c, p);
      WriteEntry(TableOf(S(), c, p / 1024), TEMP_TABLE, p, f);
    }

    /** Show a context block, read the address of its directory there, and show the directory. */
    method ShowDirectory(c: Frame)
      requires Valid() && Inv(S()) && IsContext(S(), c) && Present(Slot(S(), FrameOf(activeContext), 2))
      modifies this`tlb, this`mem, this`roles, pmm`nextBit, pmm.bitmap
      ensures Valid() && S() == ShowContext(old(S()), c)
      ensures Walk(mem, cr3, TEMP_DIRECTORY) == Some(Dir(S(), c))
    {
      ShowContextFacts(S(), c);
      PointTempWindow(TEMP_CONTEXT, c);
      var directory := LoadWord(TEMP_CONTEXT, 0);
      PointTempWindow(TEMP_DIRECTORY, FrameOf(directory));
    }

    /** With the directory of `c` shown, create its table for slot `i` if need be and show the table. */
    method ShowTable(ghost c: Frame, i: nat)
      requires Valid() && Inv(S()) && IsContext(S(), c) && c != FrameOf(activeContext) && i < 1024
      requires Present(Slot(S(), c, i)) || (KERNEL_SLOTS <= i && CanAlloc(S().pm))
      requires Walk(mem, cr3, TEMP_DIRECTORY) == Some(Dir(S(), c))
      modifies this`tlb, this`mem, this`roles, pmm`nextBit, pmm.bitmap
      ensures Valid()
      ensures var u := EnsureTable(old(S()), c, i);
              S() == PutEntry(u, u.active, TEMP_TABLE, TableOf(u, c, i))
    {
      ghost var w := S();
      EnsureTableFacts(w, c, i);
      ghost var u := EnsureTable(w, c, i);
      var pde := LoadWord(TEMP_DIRECTORY, i);
      var t := FrameOf(pde);
      if !Present(pde) {
        t := CreateOtherTable(c, i);
      }
      assert S() == u && t == TableOf(u, c, i);
      PointTempWindow(TEMP_TABLE, t);
    }

    method CreateOtherTable(ghost c: Frame, i: nat) returns (t: Frame)
      requires Valid() && Structured(S()) && IsContext(S(), c) && c != FrameOf(activeContext) && i < 1024
      requires !Present(Slot(S(), c, i)) && KERNEL_SLOTS <= i && CanAlloc(S().pm)
      requires Walk(mem, cr3, TEMP_DIRECTORY) == Some(Dir(S(), c))
      modifies this`tlb, this`mem, this`roles, pmm`nextBit, pmm.bitmap
      ensures Valid() && S() == AddTable(old(S()), c, i) && t == TableOf(S(), c, i)
    {
      ghost var w := S();
      t := EnterTable(c, TEMP_DIRECTORY, i);
      EntryFields(t);
      AddTableSlots(w, c, i, c);
      OtherTableTlb(tlb, w, c, i);
    }

    /** vmm_map_page; NULL stands for the active context. */
    method MapPage(context: Word, virt: Word, phys: Word)
      requires Valid() && IsHandle(context)
      requires CanMap(S(), Chosen(context, activeContext), FrameOf(virt))
      modifies this`tlb, this`mem, this`roles, pmm`nextBit, pmm.bitmap
      ensures Valid()
      ensures S() == Map(old(S()), Chosen(context, old(activeContext)), FrameOf(virt), FrameOf(phys))
    {
      if context == 0 || context == activeContext {
        CoherentIsReady(S(), FrameOf(virt));
        MapActive(FrameOf(virt), FrameOf(phys));
      } else {
        MapOther(FrameOf(context), FrameOf(virt), FrameOf(phys));
      }
    }

    // ----- vmm_get_mapping -----

    /** The context argument is overwritten with the active context before it is used. */
    method GetMapping(virt: Word) returns (r: Word)
      requires Valid() && Inv(S())
      modifies this`tlb
      ensures Valid() && S() == old(S()) && r == Lookup(S(), FrameOf(virt))
      ensures if Present(Slot(S(), S().active, FrameOf(virt) / 1024)) then r % 4096 == 0 else r == 0xFFFF_FFFF
    {
      var p := FrameOf(virt);
      var pde := LoadWord(DIRECTORY_WINDOW, p / 1024);
      if !Present(pde) {
        return NO_TABLE;
      }
      assert TableWindowOk(S(), p / 1024);
      var pte := LoadWord(TableWindow(p / 1024), p % 1024);
      r := PageBase(pte);
    }

    // ----- vmm_alloc_at, vmm_alloc_kernel -----

    method AllocAt(context: Word, address: Word) returns (r: Word)
      requires Valid() && IsHandle(context)
      requires CanAllocAt(S(), Chosen(context, activeContext), FrameOf(address))
      modifies this`tlb, this`mem, this`roles, pmm`nextBit, pmm.bitmap
      ensures Valid()
      ensures S() == Allocation.AllocAt(old(S()), Chosen(context, old(activeContext)), FrameOf(address))
      ensures r == if SaysMapped(Lookup(old(S()), FrameOf(address))) then 0 else PageBase(address)
    {
      var vaddr := PageBase(address);
      PageBaseFrame(address);
      ClaimDataLookup(S(), FrameOf(address));
      var pmem := TakeFrame();
      var phys := GetMapping(vaddr);
      if phys != 0 && phys != NO_TABLE {
        return 0;
      }
      MapPage(context, vaddr, pmem);
      r := vaddr;
    }

    /** vmm_alloc_kernel for the active context, whose block is reached through the context window. */
    method AllocKernel() returns (r: Word)
      requires Valid() && CanAllocKernel(S())
      modifies this`tlb, this`mem, this`roles, pmm`nextBit, pmm.bitmap
      ensures Valid() && S() == Allocation.AllocKernel(old(S()))
      ensures r == AddressOf(NextKernelPage(old(S())))
    {
      ghost var w := S();
      KernelReady(w);
      var memreq := TakeFrame();
      r := MapNext(w, memreq);
      MovePointer();
    }

    /** Map the page at next_kernelspace to the frame just taken. */
    method MapNext(ghost w: World, memreq: Word) returns (next: Word)
      requires Valid() && CanAllocKernel(w) && S() == ClaimData(w) && FrameOf(memreq) == Pick(w.pm)
      modifies this`tlb, this`mem, this`roles, pmm`nextBit, pmm.bitmap
      ensures Valid() && S() == KernelMapped(w) && Inv(S()) && next == AddressOf(NextKernelPage(w))
    {
      KernelReady(w);
      next := LoadWord(CONTEXT_WINDOW, 2);
      MapPage(activeContext, next, memreq);
    }

    /** Add a page to next_kernelspace. */
    method MovePointer()
      requires Valid() && Inv(S())
      modifies this`tlb, this`mem
      ensures Valid() && S() == PointerMoved(old(S()))
    {
      var current := LoadWord(CONTEXT_WINDOW, 2);
      StorePlain(FrameOf(activeContext), CONTEXT_WINDOW, 2, NextPage(current));
    }

    /** A store through a window into a frame that holds no part of a translation. */
    method StorePlain(ghost g: Frame, p: Page, i: nat, x: Word)
      requires Valid() && Structured(S()) && i < 1024 && CanSetFrame(S(), g, mem[g][i := x])
      requires Walk(mem, cr3, p) == Some(g)
      modifies this`tlb, this`mem
      ensures Valid() && S() == SetFrame(old(S()), g, old(mem)[g][i := x])
    {
      SetFrameTlb(tlb, S(), g, mem[g][i := x]);
      ghost var w := S();
      StoreWord(p, i, x);
      SetFrameTlb(tlb, w, g, w.mem[g][i := x]);
    }

    // ----- vmm_create_context -----

    method CreateContext() returns (context: Word)
      requires Valid() && CanCreate(S())
      modifies this`tlb, this`mem, this`roles, pmm`nextBit, pmm.bitmap
      ensures Valid() && S() == Create(old(S())) && context == AddressOf(NewContext(old(S())))
    {
      ghost var w := S();
      ContextShownFacts(w);
      ClaimExtends(w);
      context := pmm.Alloc();
      EntryFields(Pick(w.pm));
      MapPage(activeContext, AddressOf(TEMP_CONTEXT), context);
      CompleteContext(FrameOf(context));
    }

    /** With the blank context block shown: take, enter, show and fill the directory. */
    method CompleteContext(ghost c: Frame)
      requires Valid() && Inv(S()) && Present(Slot(S(), FrameOf(activeContext), 2)) && Enough(S().pm, 1)
      requires IsTaken(S(), c) && Walk(mem, cr3, TEMP_CONTEXT) == Some(c)
      modifies this`tlb, this`mem, this`roles, pmm`nextBit, pmm.bitmap
      ensures Valid() && CanAlloc(old(S()).pm)
      ensures S() == Registered(DirectoryShown(old(S()), c), c, Pick(old(S()).pm))
    {
      ghost var v := S();
      DirectoryShownFacts(v, c);
      EnterDirectory(c);
      Register(c, Pick(v.pm));
    }

    /** With both frames shown: fill the directory, set the pointers. */
    method Register(ghost c: Frame, ghost d: Frame)
      requires Valid() && Drafted(S(), c, d) && Blank(mem[d]) && Walk(mem, cr3, TEMP_DIRECTORY) == Some(d)
      requires Walk(mem, cr3, TEMP_CONTEXT) == Some(c)
      modifies this`tlb, this`mem, this`roles
      ensures Valid() && S() == Registered(old(S()), c, d)
    {
      ghost var u := S();
      FillDirectory(c, d);
      SetFrameEffect(u, d, KernelHalf(u.mem[u.cr3]));
      assert Translate(S(), u.active, TEMP_CONTEXT) == Translate(u, u.active, TEMP_CONTEXT);
      SetPointers(c);
      roles := roles[c := ContextBlock][d := Directory(c)];
    }

    /** The fields next_userspace and next_kernelspace of a context block that is shown. */
    method SetPointers(ghost c: Frame)
      requires Valid() && Structured(S()) && IsPayload(S(), c) && Walk(mem, cr3, TEMP_CONTEXT) == Some(c)
      modifies this`tlb, this`mem
      ensures Valid()
      ensures S() == SetFrame(old(S()), c, old(mem)[c][1 := USER_SPACE_START][2 := KERNEL_SPACE_START])
    {
      ghost var u := S();
      SetFrameEffect(u, c, u.mem[c][1 := USER_SPACE_START]);
      StorePlain(c, TEMP_CONTEXT, 1, USER_SPACE_START);
      assert Translate(S(), u.active, TEMP_CONTEXT) == Translate(u, u.active, TEMP_CONTEXT);
      StorePlain(c, TEMP_CONTEXT, 2, KERNEL_SPACE_START);
      assert S().mem == SetFrame(u, c, u.mem[c][1 := USER_SPACE_START][2 := KERNEL_SPACE_START]).mem;
    }

    method EnterDirectory(ghost c: Frame)
      requires Valid() && Inv(S()) && Present(Slot(S(), FrameOf(activeContext), 2)) && Enough(S().pm, 1)
      requires IsTaken(S(), c) && Walk(mem, cr3, TEMP_CONTEXT) == Some(c)
      modifies this`tlb, this`mem, this`roles, pmm`nextBit, pmm.bitmap
      ensures Valid() && CanAlloc(old(S()).pm) && S() == DirectoryShown(old(S()), c)
    {
      DirectoryEntered(S(), c);
      TakeDirectory(c);
      var directory := LoadWord(TEMP_CONTEXT, 0);
      PointTempWindow(TEMP_DIRECTORY, FrameOf(directory));
    }

    method TakeDirectory(ghost c: Frame)
      requires Valid() && Inv(S()) && Enough(S().pm, 1)
      requires IsPayload(S(), c) && Walk(mem, cr3, TEMP_CONTEXT) == Some(c)
      modifies this`tlb, this`mem, pmm`nextBit, pmm.bitmap
      ensures Valid() && CanAlloc(old(S()).pm) && S() == Entered(old(S()), c)
    {
      ghost var v := S();
      ClaimFacts(v, 1);
      var page := pmm.Alloc();
      EntryFields(Pick(v.pm));
      StorePlain(c, TEMP_CONTEXT, 0, page);
    }

    /** Copy slots 0..255 of the active directory and clear the others. */
    method FillDirectory(ghost c: Frame, ghost d: Frame)
      requires Valid() && Drafted(S(), c, d) && Blank(mem[d]) && Walk(mem, cr3, TEMP_DIRECTORY) == Some(d)
      modifies this`tlb, this`mem
      ensures Valid() && S() == SetFrame(old(S()), d, KernelHalf(old(mem)[cr3]))
    {
      ghost var u := S();
      SetFrameEffect(u, d, Filled(mem[cr3], 0));
      assert mem[d] == Filled(mem[cr3], 0);
      assert mem == mem[d := mem[d]];
      for i := 0 to 1024
        invariant Valid() && S() == SetFrame(u, d, Filled(u.mem[u.cr3], i))
      {
        SetFrameEffect(u, d, Filled(u.mem[u.cr3], i));
        assert S().mem[cr3] == u.mem[cr3] && Translate(S(), u.active, TEMP_DIRECTORY) == Some(d);
        assert Translate(S(), u.active, DIRECTORY_WINDOW) == Some(u.cr3);
        var x: Word := 0;
        if i < KERNEL_SLOTS {
          x := LoadWord(DIRECTORY_WINDOW, i);
        }
        assert Filled(u.mem[u.cr3], i)[i := x] == Filled(u.mem[u.cr3], i + 1);
        StorePlain(d, TEMP_DIRECTORY, i, x);
        assert u.mem[d := Filled(u.mem[u.cr3], i)][d := Filled(u.mem[u.cr3], i + 1)]
            == u.mem[d := Filled(u.mem[u.cr3], i + 1)];
      }
      assert Filled(u.mem[u.cr3], 1024) == KernelHalf(u.mem[u.cr3]);
    }

    // ----- vmm_activate_context, vmm_map_context -----

    method LoadCr3(directory: Word)
      modifies this`cr3, this`tlb
      ensures cr3 == FrameOf(directory) && TlbAgrees(tlb, mem, cr3, {})
    {
      cr3 := FrameOf(directory);
      tlb := map[];
    }

    /** The cached translations are dropped with CR3, so the machine is valid whatever is loaded. */
    method ActivateContext(context: Word)
      requires Valid() && IsHandle(context) && CanSwitch(S(), FrameOf(context))
      modifies this`cr3, this`tlb, this`mem, this`roles, this`activeContext, pmm`nextBit, pmm.bitmap
      ensures Valid() && S() == Switch(old(S()), FrameOf(context))
    {
      ghost var w := S();
      SwitchNeverFaults(w, FrameOf(context));
      var window := CONTEXT_WINDOW;
      if context != activeContext {
        MapDirectoryToItself(FrameOf(context));
        window := TEMP_CONTEXT;
      }
      MapContext(FrameOf(context));
      LoadTarget(context, window);
    }

    /** Make the context active and load the directory address found in the page `window`. */
    method LoadTarget(context: Word, window: Page)
      requires Valid() && IsHandle(context) && Mapped(S(), window)
      modifies this`cr3, this`tlb, this`activeContext
      ensures Valid()
      ensures S() == old(S()).(active := FrameOf(context), cr3 := Fetched(old(S()), window))
    {
      var directory := LoadWord(window, 0);
      activeContext := context;
      LoadCr3(directory);
    }

    method MapDirectoryToItself(c: Frame)
      requires Valid() && CanSwitch(S(), c) && c != FrameOf(activeContext)
      modifies this`tlb, this`mem, this`roles, pmm`nextBit, pmm.bitmap
      ensures Valid() && S() == Identified(old(S()), c)
    {
      ghost var w := S();
      CanIdentify(w, c);
      OtherImpliesSlot2(w, c);
      PointTempWindow(TEMP_CONTEXT, c);
      var directory := LoadWord(TEMP_CONTEXT, 0);
      ghost var u := PutEntry(w, w.active, TEMP_CONTEXT, c);
      assert S() == u && FrameOf(directory) == Dir(w, c);
      CoherentIsReady(u, Dir(w, c));
      MapActive(FrameOf(directory), FrameOf(directory));
    }

    /** vmm_map_context; the address space being edited is still that of the old active context. */
    method MapContext(c: Frame)
      requires Valid() && Traversable(S(), c)
      modifies this`tlb, this`mem, this`roles, pmm`nextBit, pmm.bitmap
      ensures Valid() && S() == ContextMapped(old(S()), c)
    {
      ghost var w := S();
      PointWindows(c);
      ghost var u := S();
      for i := 0 to 1024
        invariant Valid() && S() == Rounds(u, i)
      {
        assert RoundReady(Rounds(BothShownThrough(w, c), i), i);
        RewriteWindow(i);
      }
    }

    method RewriteWindow(i: nat)
      requires Valid() && i < 1024 && RoundReady(S(), i)
      modifies this`tlb, this`mem, this`roles, pmm`nextBit, pmm.bitmap
      ensures Valid() && S() == Round(old(S()), i)
    {
      var pde := LoadWord(DIRECTORY_WINDOW, i);
      if Present(pde) {
        MapActive(TableWindow(i), FrameOf(pde));
      }
    }

    method PointWindows(c: Frame)
      requires Valid() && Traversable(S(), c)
      modifies this`tlb, this`mem, this`roles, pmm`nextBit, pmm.bitmap
      ensures Valid() && S() == BothShownThrough(old(S()), c)
    {
      MapActive(CONTEXT_WINDOW, c);
      var directory := LoadWord(CONTEXT_WINDOW, 0);
      MapActive(DIRECTORY_WINDOW, FrameOf(directory));
    }

    /** A frame for a caller's data. */
    method TakeFrame() returns (page: Word)
      requires Valid() && CanAlloc(S().pm)
      modifies this`roles, pmm`nextBit, pmm.bitmap
      ensures Valid() && S() == ClaimData(old(S()))
      ensures page == AddressOf(Pick(old(S()).pm)) && FrameOf(page) == Pick(old(S()).pm)
    {
      page := pmm.Alloc();
      EntryFields(FrameOf(page));
      roles := roles[FrameOf(page) := Data];
    }
  }
}
