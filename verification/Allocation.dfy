/** vmm_get_mapping, vmm_alloc_at and vmm_alloc_kernel, stated on physical memory. */
module Allocation {
  import opened Words
  import opened Pmm
  import opened Mmu
  import opened World
  import opened Mapping
  import opened OtherContext
  import opened Contexts
  import opened Windows

  // ----- looking up a page -----

  const NO_TABLE: Word := 0xFFFF_FFFF

  /** The result of vmm_get_mapping; whatever the caller's context, it looks at the active one. */
  ghost function Lookup(w: World, p: Page): Word {
    if !Present(Slot(w, w.active, p / 1024)) then NO_TABLE
    else PageBase(w.mem[TableOf(w, w.active, p / 1024)][p % 1024])
  }

  /** How vmm_alloc_at reads that result. */
  predicate SaysMapped(r: Word) {
    r != 0 && r != NO_TABLE
  }

  /** The entry that decides about page `p`; zero if there is no table. */
  ghost function EntryOf(w: World, c: Frame, p: Page): Word {
    if Present(Slot(w, c, p / 1024)) then w.mem[TableOf(w, c, p / 1024)][p % 1024] else 0
  }

  predicate TidyEntry(e: Word) {
    e == 0 || (Present(e) && FrameOf(e) != 0)
  }

  /**
   Software lookup and hardware walk agree on a page exactly if its entry is present when, and only
   when, it has a frame number other than 0; then the lookup names the walk's frame. In particular
   they agree on tidy entries.
   */
  lemma LookupAgrees(w: World, p: Page)
    ensures (SaysMapped(Lookup(w, p)) <==> Translate(w, w.active, p).Some?) <==>
            (Present(EntryOf(w, w.active, p)) <==> FrameOf(EntryOf(w, w.active, p)) != 0)
    ensures TidyEntry(EntryOf(w, w.active, p)) ==>
              (SaysMapped(Lookup(w, p)) <==> Translate(w, w.active, p).Some?)
    ensures Translate(w, w.active, p).Some? ==>
              Lookup(w, p) == AddressOf(Translate(w, w.active, p).value)
  {
    var e := EntryOf(w, w.active, p);
    assert PageBase(e) == AddressOf(FrameOf(e)) && PageBase(e) != NO_TABLE;
  }

  /** A lookup after a mapping returns what was mapped. */
  lemma LookupAfterMap(w: World, p: Page, f: Frame)
    requires CanMap(w, w.active, p)
    ensures Lookup(Map(w, w.active, p, f), p) == AddressOf(f)
  {
    MapTranslations(w, w.active, p, f, w.active, p);
    MapExtends(w, w.active, p, f);
    LookupAgrees(Map(w, w.active, p, f), p);
  }

  lemma PutEntryKeepsEntry(w: World, p: Page, f: Frame, q: Page)
    requires Structured(w) && Present(Slot(w, w.active, p / 1024)) && q != p
    ensures EntryOf(PutEntry(w, w.active, p, f), w.active, q) == EntryOf(w, w.active, q)
  {
    PutEntryStructure(w, w.active, p, f);
    TablesAreNotDirectories(w, w.active, p / 1024, w.active);
    var v := PutEntry(w, w.active, p, f);
    assert Slot(v, w.active, q / 1024) == Slot(w, w.active, q / 1024);
  }

  /** Not only translations but entries stay, so that a page found unmapped is still found unmapped. */
  lemma {:induction false} MapHereKeepsEntry(w: World, p: Page, f: Frame, q: Page)
    requires CanMapHere(w, p) && q != p && !IsNewWindow(w, p / 1024, q)
    ensures EntryOf(MapHere(w, p, f), w.active, q) == EntryOf(w, w.active, q)
    decreases TablesNeeded(w, p / 1024)
  {
    var i := p / 1024;
    if Present(Slot(w, w.active, i)) {
      PutEntryKeepsEntry(w, p, f, q);
    } else {
      BeforeEntry(w, p, w.active);
      NewTableKeepsEntry(w, p, q);
      NewTableFacts(w, p);
      NewWindowSplit(w, p, w.active, q);
      MapHereKeepsEntry(NewTable(w, p), TableWindow(i), Pick(w.pm), q);
      PutEntryKeepsEntry(MapHere(NewTable(w, p), TableWindow(i), Pick(w.pm)), p, f, q);
    }
  }

  lemma NewTableKeepsEntry(w: World, p: Page, q: Page)
    requires CanMapHere(w, p) && !Present(Slot(w, w.active, p / 1024))
    ensures CanAlloc(w.pm) && EntryOf(NewTable(w, p), w.active, q) == EntryOf(w, w.active, q)
  {
    NewTableSlots(w, p);
    EntryFields(Pick(w.pm));
    var u, t, j := NewTable(w, p), Pick(w.pm), q / 1024;
    assert t in w.pm.free && Blank(w.mem[t]);
    assert ContextOk(w, w.active);
    if j == p / 1024 {
      assert u.mem[t] == w.mem[t];
    } else if Present(Slot(w, w.active, j)) {
      assert HasRole(w, TableOf(w, w.active, j), TableRole(w.active, j));
      assert Slot(u, w.active, j) == Slot(w, w.active, j);
    }
  }

  // ----- frames handed to callers -----

  ghost function ClaimData(w: World): World
    requires CanAlloc(w.pm)
  {
    w.(pm := AfterAlloc(w.pm), roles := w.roles[Pick(w.pm) := Data])
  }

  /** Same directories, same memory: everything but the frame pool and the new Data frame is as before. */
  lemma ClaimDataFacts(w: World)
    requires Inv(w) && CanAlloc(w.pm)
    ensures var v := ClaimData(w);
            && Inv(v) && Extends(w, v) && SameDirectories(w, v) && v.mem == w.mem
            && HasRole(v, Pick(w.pm), Data) && Pick(w.pm) !in v.pm.free && Pick(w.pm) !in w.roles
            && |v.pm.free| == |w.pm.free| - 1 && |Reachable(v.pm)| == |Reachable(w.pm)| - 1
  {
    var v := ClaimData(w);
    AllocSpends(w.pm);
    assert Pick(w.pm) in w.pm.free;
    forall d: Frame ensures IsContext(v, d) <==> IsContext(w, d) {}
    forall d: Frame | IsContext(v, d) ensures ContextOk(v, d) {
      assert ContextOk(w, d);
      forall i: nat | i < 1024
        ensures Slot(v, d, i) == Slot(w, d, i) && Slot(v, v.active, i) == Slot(w, w.active, i)
      {
      }
    }
    forall j: nat | j < 1024 ensures Slot(v, v.active, j) == Slot(w, w.active, j) {}
    CoherenceKept(w, v);
  }

  /** The same tables are missing. */
  lemma ClaimDataSlots(w: World, i: nat)
    requires Inv(w) && CanAlloc(w.pm) && i < 1024
    ensures NewSlots(ClaimData(w), i) == NewSlots(w, i)
  {
    ClaimDataFacts(w);
  }

  lemma ClaimDataLookup(w: World, p: Page)
    requires Inv(w) && CanAlloc(w.pm)
    ensures Inv(ClaimData(w)) && Lookup(ClaimData(w), p) == Lookup(w, p)
  {
    ClaimDataFacts(w);
  }

  ghost predicate CanAllocAt(w: World, c: Frame, p: Page) {
    && Inv(w) && CanAlloc(w.pm)
    && (SaysMapped(Lookup(w, p)) || CanMap(ClaimData(w), c, p))
  }

  /** The state after vmm_alloc_at. A refused request has still taken a frame. */
  ghost function AllocAt(w: World, c: Frame, p: Page): World
    requires CanAllocAt(w, c, p)
  {
    if SaysMapped(Lookup(w, p)) then ClaimData(w) else Map(ClaimData(w), c, p, Pick(w.pm))
  }

  /** A refused request changes no memory, and costs one frame for good. */
  lemma Refused(w: World, c: Frame, p: Page)
    requires CanAllocAt(w, c, p) && SaysMapped(Lookup(w, p))
    ensures Inv(AllocAt(w, c, p)) && AllocAt(w, c, p).mem == w.mem
    ensures |AllocAt(w, c, p).pm.free| == |w.pm.free| - 1
  {
    ClaimDataFacts(w);
  }

  /** A window in use counts as mapped, so the only windows ever given away are those of absent slots. */
  lemma UnmappedIsSpare(w: World, p: Page)
    requires Inv(w) && !SaysMapped(Lookup(w, p))
    ensures Spare(w, p) && (CanAlloc(w.pm) ==> Spare(ClaimData(w), p))
  {
    if !Spare(w, p) {
      WindowFrameInUse(w, p);
      LookupAgrees(w, p);
    } else if CanAlloc(w.pm) {
      ClaimDataFacts(w);
    }
  }

  /** A granted request backs the page with a frame that was free and had no use. */
  lemma Granted(w: World, c: Frame, p: Page)
    requires CanAllocAt(w, c, p) && !SaysMapped(Lookup(w, p))
    ensures var v := AllocAt(w, c, p);
            && Extends(w, v) && Inv(v)
            && Translate(v, c, p) == Some(Pick(w.pm)) && HasRole(v, Pick(w.pm), Data)
            && Pick(w.pm) in w.pm.free && Pick(w.pm) !in w.roles
            && |v.pm.free| == |w.pm.free| - 1 - TablesCreated(ClaimData(w), c, p)
  {
    ClaimDataFacts(w);
    var u, f := ClaimData(w), Pick(w.pm);
    MapExtends(u, c, p, f);
    ExtendsTransitive(w, u, AllocAt(w, c, p));
    MapTranslations(u, c, p, f, c, p);
    UnmappedIsSpare(w, p);
    MapKeepsInv(u, c, p, f);
  }

  /** Granting a page changes no entry of another page, except in the windows of new tables. */
  lemma GrantKeepsEntry(w: World, p: Page, q: Page)
    requires CanAllocAt(w, w.active, p) && !SaysMapped(Lookup(w, p))
    requires q != p && !IsNewWindow(w, p / 1024, q)
    ensures EntryOf(AllocAt(w, w.active, p), w.active, q) == EntryOf(w, w.active, q)
  {
    ClaimDataFacts(w);
    ClaimDataSlots(w, p / 1024);
    MapHereKeepsEntry(ClaimData(w), p, Pick(w.pm), q);
  }

  /**
   vmm_alloc_at is meant to refuse exactly the pages already mapped in the context it is asked about.
   For the active context, and for kernel pages, which all contexts share, it does.
   */
  lemma RefusesExactlyMapped(w: World, c: Frame, p: Page)
    requires Inv(w) && IsContext(w, c)
    requires TidyEntry(EntryOf(w, w.active, p))
    requires p / 1024 < KERNEL_SLOTS || c == w.active
    ensures SaysMapped(Lookup(w, p)) <==> Translate(w, c, p).Some?
  {
    LookupAgrees(w, p);
    assert ContextOk(w, c);
    if p / 1024 < KERNEL_SLOTS {
      assert Slot(w, c, p / 1024) == Slot(w, w.active, p / 1024);
    }
  }

  /**
   What happens otherwise: a page that is free in the asked context is refused because the active one
   maps it, and a page mapped in the asked context is replaced because the active one does not map it.
   */
  lemma AnswersForActive(w: World, c: Frame, p: Page)
    requires CanAllocAt(w, c, p) && IsContext(w, c)
    requires TidyEntry(EntryOf(w, w.active, p))
    ensures Translate(w, w.active, p).Some? ==> AllocAt(w, c, p).mem == w.mem
    ensures Translate(w, w.active, p).None? && Translate(w, c, p).Some? ==>
              Translate(AllocAt(w, c, p), c, p) == Some(Pick(w.pm)) && Pick(w.pm) !in w.roles
  {
    LookupAgrees(w, p);
    if SaysMapped(Lookup(w, p)) {
      Refused(w, c, p);
    } else {
      Granted(w, c, p);
    }
  }

  // ----- kernel pages -----

  /** The page named by next_kernelspace in the active context's block. */
  ghost function NextKernelPage(w: World): Page {
    FrameOf(w.mem[w.active][2])
  }

  ghost predicate CanAllocKernel(w: World) {
    && Inv(w) && CanAlloc(w.pm)
    && w.mem[w.active][2] == AddressOf(NextKernelPage(w))
    && Spare(w, NextKernelPage(w))
    && CanMap(ClaimData(w), w.active, NextKernelPage(w))
  }

  ghost function KernelMapped(w: World): World
    requires CanAllocKernel(w)
  {
    Map(ClaimData(w), w.active, NextKernelPage(w), Pick(w.pm))
  }

  /** `+= PAGE_SIZE` on an unsigned 32-bit pointer. */
  function NextPage(x: Word): Word {
    (x + PAGE_SIZE) % 0x1_0000_0000
  }

  ghost function PointerMoved(v: World): World {
    SetFrame(v, v.active, v.mem[v.active][2 := NextPage(v.mem[v.active][2])])
  }

  /** The frame is mapped at next_kernelspace, which then moves up by a page. */
  ghost function AllocKernel(w: World): World
    requires CanAllocKernel(w)
  {
    PointerMoved(KernelMapped(w))
  }

  lemma KernelMappedFacts(w: World)
    requires CanAllocKernel(w)
    ensures var v, p := KernelMapped(w), NextKernelPage(w);
            && Inv(v) && Extends(w, v) && IsContext(v, v.active)
            && Translate(v, w.active, p) == Some(Pick(w.pm)) && HasRole(v, Pick(w.pm), Data)
            && Pick(w.pm) in w.pm.free && Pick(w.pm) !in w.roles
            && |v.pm.free| == |w.pm.free| - 1 - TablesCreated(ClaimData(w), w.active, p)
  {
    ClaimDataFacts(w);
    var u, f, p := ClaimData(w), Pick(w.pm), NextKernelPage(w);
    MapExtends(u, w.active, p, f);
    ExtendsTransitive(w, u, Map(u, w.active, p, f));
    MapTranslations(u, w.active, p, f, w.active, p);
    MapKeepsInv(u, w.active, p, f);
  }

  /** What the method of that name needs on its way. */
  lemma KernelReady(w: World)
    requires CanAllocKernel(w)
    ensures var u, v := ClaimData(w), KernelMapped(w);
            && CanMap(u, u.active, NextKernelPage(w)) && u.mem == w.mem && u.active == w.active
            && Walk(u.mem, u.cr3, CONTEXT_WINDOW) == Some(w.active)
            && v == Map(u, u.active, NextKernelPage(w), Pick(w.pm))
            && Inv(v) && v.active == w.active && v.mem[w.active] == w.mem[w.active]
            && FrameOf(AddressOf(NextKernelPage(w))) == NextKernelPage(w)
  {
    ClaimDataFacts(w);
    KernelMappedFacts(w);
  }

  lemma PointerMovedFacts(v: World)
    requires Inv(v) && IsContext(v, v.active)
    ensures var u := PointerMoved(v);
            && Inv(u) && u.mem[v.active][2] == NextPage(v.mem[v.active][2])
            && u.active == v.active && u.cr3 == v.cr3 && u.roles == v.roles && u.pm == v.pm
            && (forall d: Frame, q: Page | IsContext(v, d) :: Translate(u, d, q) == Translate(v, d, q))
  {
    SetFrameEffect(v, v.active, v.mem[v.active][2 := NextPage(v.mem[v.active][2])]);
    SetFrameKeepsInv(v, v.active, v.mem[v.active][2 := NextPage(v.mem[v.active][2])]);
  }

  /** The returned page is backed by a frame that was free and had no use; the pointer moves up one page. */
  lemma KernelGranted(w: World)
    requires CanAllocKernel(w)
    ensures var v, p := AllocKernel(w), NextKernelPage(w);
            && Inv(v) && v.active == w.active && v.cr3 == w.cr3
            && (forall d: Frame :: IsContext(v, d) <==> IsContext(w, d))
            && v.mem[v.active][2] == NextPage(w.mem[w.active][2])
            && Translate(v, w.active, p) == Some(Pick(w.pm)) && HasRole(v, Pick(w.pm), Data)
            && Pick(w.pm) in w.pm.free && Pick(w.pm) !in w.roles
            && |v.pm.free| == |w.pm.free| - 1 - TablesCreated(ClaimData(w), w.active, p)
  {
    KernelMappedFacts(w);
    PointerMovedFacts(KernelMapped(w));
  }

  lemma KernelKeepsRoles(w: World, g: Frame)
    requires CanAllocKernel(w)
    ensures g in w.roles ==> g in AllocKernel(w).roles && AllocKernel(w).roles[g] == w.roles[g]
    ensures g !in w.pm.free ==> g !in AllocKernel(w).pm.free
  {
    KernelMappedFacts(w);
  }

  lemma KernelOthers(w: World, d: Frame, q: Page)
    requires CanAllocKernel(w) && IsContext(w, d)
    requires !Affects(w.active, NextKernelPage(w), d, q)
    requires !IsNewWindow(w, NextKernelPage(w) / 1024, q)
    ensures Translate(AllocKernel(w), d, q) == Translate(w, d, q)
  {
    ClaimDataOthers(w, w.active, NextKernelPage(w), d, q);
    KernelMappedContext(w, d);
    PointerMovedOthers(KernelMapped(w), d, q);
  }

  lemma KernelMappedContext(w: World, d: Frame)
    requires CanAllocKernel(w) && IsContext(w, d)
    ensures Inv(KernelMapped(w)) && IsContext(KernelMapped(w), d)
    ensures IsContext(KernelMapped(w), KernelMapped(w).active)
  {
    KernelMappedFacts(w);
  }

  lemma PointerMovedOthers(v: World, d: Frame, q: Page)
    requires Inv(v) && IsContext(v, v.active) && IsContext(v, d)
    ensures Translate(PointerMoved(v), d, q) == Translate(v, d, q)
  {
    PointerMovedFacts(v);
  }

  lemma ClaimDataOthers(w: World, c: Frame, p: Page, d: Frame, q: Page)
    requires Inv(w) && CanAlloc(w.pm) && IsContext(w, d) && CanMap(ClaimData(w), c, p)
    requires !Affects(c, p, d, q) && !SideEffect(w, c, p, q)
    ensures IsContext(Map(ClaimData(w), c, p, Pick(w.pm)), d)
    ensures Translate(Map(ClaimData(w), c, p, Pick(w.pm)), d, q) == Translate(w, d, q)
  {
    ClaimDataFacts(w);
    ClaimDataSlots(w, p / 1024);
    MapExtends(ClaimData(w), c, p, Pick(w.pm));
    MapTranslations(ClaimData(w), c, p, Pick(w.pm), d, q);
  }
}
