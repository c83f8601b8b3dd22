/**
 A concrete state as vmm_init leaves it: one context, whose directory has the kernel's identity mapping in
 slot 0 and, in slot 1, the windows of the context, of the directory and of both tables. Which frames are
 free depends on the machine; here they are those from some frame on.
 */
module BootState {
  import opened Words
  import opened Pmm
  import opened Mmu
  import opened World
  import opened Mapping
  import opened OtherContext
  import opened Contexts
  import opened Creation
  import opened Switching
  import opened SwitchOutcome
  import opened Allocation
  import Tidy
  import Accounts
  import opened Requests
  import opened ElfImage
  import Elf

  const CONTEXT: Frame := 0x200
  const DIRECTORY: Frame := 0x201
  const KERNEL_TABLE: Frame := 0x202
  const WINDOW_TABLE: Frame := 0x203

  /** The first free frame: behind those in use, and with some room above. */
  predicate IsFirst(first: nat) {
    0x204 <= first <= FRAMES - 16
  }

  /** The fields pagedir, next_userspace and next_kernelspace of `struct vmm_context`. */
  function ContextBlockAtBoot(): Table {
    Zeros()[0 := AddressOf(DIRECTORY)][1 := USER_SPACE_START][2 := KERNEL_SPACE_START]
  }

  function DirectoryAtBoot(): Table {
    Zeros()[0 := Entry(KERNEL_TABLE)][1 := Entry(WINDOW_TABLE)]
  }

  /** The kernel occupies the second megabyte. */
  function KernelEntry(i: int): Word {
    if 0x100 <= i < 0x200 then Entry(i) else 0
  }

  function KernelTableAtBoot(): Table {
    seq(1024, i => KernelEntry(i))
  }

  function WindowTableAtBoot(): Table {
    Zeros()[0 := Entry(CONTEXT)][1 := Entry(DIRECTORY)][2 := Entry(KERNEL_TABLE)][3 := Entry(WINDOW_TABLE)]
  }

  function FrameAtBoot(f: int): Table {
    if f == CONTEXT then ContextBlockAtBoot()
    else if f == DIRECTORY then DirectoryAtBoot()
    else if f == KERNEL_TABLE then KernelTableAtBoot()
    else if f == WINDOW_TABLE then WindowTableAtBoot()
    else Zeros()
  }

  function MemoryAtBoot(): Memory {
    seq<Table>(FRAMES, f => FrameAtBoot(f))
  }

  predicate IsFrom(n: nat, f: Frame) {
    n <= f
  }

  ghost function FreeFrom(n: nat): set<Frame> {
    set f: Frame | 0 <= f < FRAMES && IsFrom(n, f)
  }

  ghost function AtBoot(first: nat): World {
    World(MemoryAtBoot(), DIRECTORY, CONTEXT, PmmState(FreeFrom(first), None),
          map[CONTEXT := ContextBlock, DIRECTORY := Directory(CONTEXT),
              KERNEL_TABLE := KernelTable(0), WINDOW_TABLE := KernelTable(1)])
  }

  // ----- the invariant holds -----

  lemma SlotsAtBoot(first: nat, i: nat)
    requires i < 1024
    ensures Dir(AtBoot(first), CONTEXT) == DIRECTORY
    ensures Slot(AtBoot(first), CONTEXT, i) ==
            if i == 0 then Entry(KERNEL_TABLE) else if i == 1 then Entry(WINDOW_TABLE) else 0
  {
    var w := AtBoot(first);
    assert w.mem[CONTEXT] == ContextBlockAtBoot();
    EntryFields(DIRECTORY);
    assert w.mem[DIRECTORY] == DirectoryAtBoot();
  }

  lemma WindowsAtBoot(first: nat, k: nat, f: Frame)
    requires (k == 0 && f == CONTEXT) || (k == 1 && f == DIRECTORY) || (k == 2 && f == KERNEL_TABLE) ||
             (k == 3 && f == WINDOW_TABLE)
    ensures Translate(AtBoot(first), CONTEXT, CONTEXT_WINDOW + k) == Some(f)
  {
    var w := AtBoot(first);
    SlotsAtBoot(first, 1);
    EntryFields(WINDOW_TABLE);
    EntryFields(f);
    assert w.mem[WINDOW_TABLE] == WindowTableAtBoot();
    assert (CONTEXT_WINDOW + k) / 1024 == 1 && (CONTEXT_WINDOW + k) % 1024 == k;
  }

  lemma ContextAtBoot(first: nat)
    ensures ContextOk(AtBoot(first), CONTEXT)
  {
    var w := AtBoot(first);
    SlotsAtBoot(first, 0);
    EntryFields(KERNEL_TABLE);
    EntryFields(WINDOW_TABLE);
    assert w.mem[CONTEXT][0] == AddressOf(DIRECTORY);
    forall i: nat | i < 1024
      ensures Present(Slot(w, CONTEXT, i)) ==> HasRole(w, TableOf(w, CONTEXT, i), TableRole(CONTEXT, i))
      ensures !Present(Slot(w, CONTEXT, i)) ==> Slot(w, CONTEXT, i) == 0
    {
      SlotsAtBoot(first, i);
    }
  }

  lemma StructuredAtBoot(first: nat)
    requires IsFirst(first)
    ensures Structured(AtBoot(first)) && Sole(AtBoot(first))
  {
    var w := AtBoot(first);
    ContextAtBoot(first);
    SlotsAtBoot(first, 0);
    forall f: Frame | f in w.pm.free ensures f !in w.roles && Blank(w.mem[f]) {
      assert IsFrom(first, f);
      assert w.mem[f] == Zeros();
    }
    assert !IsFrom(first, 0);
  }

  lemma CoherentAtBoot(first: nat)
    requires IsFirst(first)
    ensures Coherent(AtBoot(first))
  {
    var w := AtBoot(first);
    StructuredAtBoot(first);
    SlotsAtBoot(first, 1);
    EntryFields(KERNEL_TABLE);
    EntryFields(WINDOW_TABLE);
    WindowsAtBoot(first, 0, CONTEXT);
    WindowsAtBoot(first, 1, DIRECTORY);
    WindowsAtBoot(first, 2, KERNEL_TABLE);
    WindowsAtBoot(first, 3, WINDOW_TABLE);
    forall i: nat | i < 1024 ensures TableWindowOk(w, i) {
      SlotsAtBoot(first, i);
    }
  }

  lemma TidyAtBoot(first: nat, strict: bool)
    requires IsFirst(first)
    ensures Tidy.Tidy(AtBoot(first), strict)
  {
    var w := AtBoot(first);
    assert w.mem[DIRECTORY] == DirectoryAtBoot();
    assert w.mem[WINDOW_TABLE] == WindowTableAtBoot() && w.mem[KERNEL_TABLE] == KernelTableAtBoot();
    Tidy.EntryWritten(CONTEXT, strict);
    Tidy.EntryWritten(DIRECTORY, strict);
    Tidy.EntryWritten(KERNEL_TABLE, strict);
    Tidy.EntryWritten(WINDOW_TABLE, strict);
    forall i: nat | i < 1024 ensures Tidy.Written(w.mem[KERNEL_TABLE][i], strict) {
      if 0x100 <= i < 0x200 {
        Tidy.EntryWritten(i, strict);
      }
    }
  }

  lemma ServesAtBoot(first: nat)
    ensures Accounts.AllServe(AtBoot(first))
  {
    SlotsAtBoot(first, 0);
    SlotsAtBoot(first, 1);
    EntryFields(KERNEL_TABLE);
    EntryFields(WINDOW_TABLE);
  }

  // ----- the frames handed out -----

  lemma PickFrom(n: nat)
    requires 256 <= n < FRAMES
    ensures CanAlloc(PmmState(FreeFrom(n), None)) && Pick(PmmState(FreeFrom(n), None)) == n
    ensures AfterAlloc(PmmState(FreeFrom(n), None)) == PmmState(FreeFrom(n + 1), None)
  {
    var s := PmmState(FreeFrom(n), None);
    assert IsFrom(n, n) && n in s.free;
    assert IsFrom(n, Pick(s));
    assert forall f: Frame :: IsFrom(n + 1, f) <==> IsFrom(n, f) && f != n;
    assert s.free - {n} == FreeFrom(n + 1);
  }

  lemma Monotone(a: set<Frame>, b: set<Frame>)
    requires a <= b
    ensures |a| <= |b|
  {
    assert b == a + (b - a);
  }

  lemma Plenty(n: nat)
    requires 256 <= n <= FRAMES - 7
    ensures Enough(PmmState(FreeFrom(n), None), 7)
  {
    assert forall f: Frame | n <= f :: IsFrom(n, f);
    Monotone({n, n + 1, n + 2, n + 3, n + 4, n + 5, n + 6}, Reachable(PmmState(FreeFrom(n), None)));
  }

  // ----- what is possible at once -----

  lemma CanAllocSoon(w: World, p: Page)
    requires Inv(w) && Sole(w) && Enough(w.pm, 4)
    ensures CanAlloc(w.pm) && CanMap(w, w.active, p) && CanMap(ClaimData(w), w.active, p)
  {
    EnoughToAlloc(w.pm, 4);
    ClaimDataFacts(w);
  }

  lemma KernelHeapReady(w: World)
    requires Inv(w) && Sole(w) && Enough(w.pm, 4) && w.mem[w.active][2] == KERNEL_SPACE_START
    ensures CanAllocKernel(w)
  {
    CanAllocSoon(w, 0xa00);
  }

  /** The invariant holds, any page can be mapped or allocated, and a context can be created. */
  lemma Boots(first: nat)
    requires IsFirst(first)
    ensures var w := AtBoot(first);
            && Inv(w) && Tidy.Tidy(w, true) && Tidy.Tidy(w, false) && Accounts.AllServe(w) && Sole(w)
            && CanCreate(w) && CanAllocKernel(w)
            && forall p: Page :: CanMap(w, CONTEXT, p) && CanAllocAt(w, CONTEXT, p)
  {
    var w := AtBoot(first);
    StructuredAtBoot(first);
    CoherentAtBoot(first);
    TidyAtBoot(first, true);
    TidyAtBoot(first, false);
    ServesAtBoot(first);
    Plenty(first);
    assert w.mem[CONTEXT] == ContextBlockAtBoot();
    KernelHeapReady(w);
    forall p: Page ensures CanMap(w, CONTEXT, p) && CanAllocAt(w, CONTEXT, p) {
      CanAllocSoon(w, p);
    }
  }

  // ----- the first requests -----

  lemma AllocLeavesRoom(w: World, p: Page)
    requires CanAllocAt(w, w.active, p) && Sole(w) && Enough(w.pm, 7)
    ensures var v := Allocation.AllocAt(w, w.active, p);
            && Inv(v) && Sole(v) && Enough(v.pm, 4) && v.active == w.active && v.mem[w.active] == w.mem[w.active]
  {
    ClaimDataFacts(w);
    if SaysMapped(Lookup(w, p)) {
      Refused(w, w.active, p);
    } else {
      Granted(w, w.active, p);
      MapHereExtends(ClaimData(w), p, Pick(w.pm));
    }
  }

  lemma KernelPageAfterwards(w: World, p: Page)
    requires CanAllocAt(w, w.active, p) && Sole(w) && Enough(w.pm, 7)
    requires w.mem[w.active][2] == KERNEL_SPACE_START
    ensures var v := Allocation.AllocAt(w, w.active, p); CanAllocKernel(v) && NextKernelPage(v) == 0xa00
  {
    AllocLeavesRoom(w, p);
    KernelHeapReady(Allocation.AllocAt(w, w.active, p));
  }

  lemma OneByOne(w: World, rs: seq<Request>, v: World, rest: seq<Request>, ledger: seq<Grant>)
    requires rs != [] && rest == rs[1..]
    requires MayRequest(w, rs[0]) && v == Served(w, rs[0]) && Serviceable(v, rest)
    ensures Serviceable(w, rs) && AfterAll(w, rs) == AfterAll(v, rest)
    ensures AllGrants(w, rs) == Grants(w, rs[0]) + AllGrants(v, rest)
    ensures NoneHit(w, rs, ledger) <==> Misses(w, rs[0], ledger) && NoneHit(v, rest, ledger + Grants(w, rs[0]))
  {
  }

  lemma TwoRequests(w: World, v: World, r: Request, q: Request)
    requires MayRequest(w, r) && v == Served(w, r) && MayRequest(v, q)
    ensures Serviceable(w, [r, q]) && (NoneHit(w, [r, q], []) <==> Misses(v, q, Grants(w, r)))
  {
    OneByOne(v, [q], Served(v, q), [], Grants(w, r));
    OneByOne(w, [r, q], v, [q], []);
    assert [] + Grants(w, r) == Grants(w, r);
  }

  lemma UnmappedAtBoot(first: nat, p: Page)
    requires p == 0xa00 || p == 0x404
    ensures !SaysMapped(Lookup(AtBoot(first), p))
  {
    var w := AtBoot(first);
    SlotsAtBoot(first, p / 1024);
    EntryFields(WINDOW_TABLE);
    assert w.mem[WINDOW_TABLE] == WindowTableAtBoot();
  }

  lemma PageAllowed(w: World, p: Page)
    requires CanAllocAt(w, w.active, p)
    ensures MayRequest(w, PageAt(p)) && Served(w, PageAt(p)) == Allocation.AllocAt(w, w.active, p)
  {
  }

  lemma KernelPageAllowed(v: World)
    requires CanAllocKernel(v)
    ensures MayRequest(v, KernelPage) && Served(v, KernelPage) == AllocKernel(v)
  {
  }

  lemma BootRequests(first: nat, p: Page)
    requires IsFirst(first)
    ensures var w := AtBoot(first);
            && Inv(w) && MayRequest(w, PageAt(p))
            && MayRequest(Served(w, PageAt(p)), KernelPage)
            && NextKernelPage(Served(w, PageAt(p))) == 0xa00
  {
    Boots(first);
    Plenty(first);
    var w := AtBoot(first);
    assert w.mem[CONTEXT] == ContextBlockAtBoot();
    KernelPageAfterwards(w, p);
    PageAllowed(w, p);
    KernelPageAllowed(Allocation.AllocAt(w, w.active, p));
  }

  /** Without slot 2, a kernel page there hits what was just granted in two cases. */
  lemma KernelPageHits(v: World, p: Page, g: seq<Grant>)
    requires NextKernelPage(v) == 0xa00 && (p == 0x404 ==> !Present(Slot(v, v.active, 2)))
    requires if g == [] then p != 0xa00 && p != 0x404 else |g| == 1 && g[0].page == p
    ensures Misses(v, KernelPage, g) <==> p != 0xa00 && p != 0x404
  {
    assert TableWindow(2) == 0x404 && 0xa00 / 1024 == 2;
    if p == 0x404 {
      SpareIsNew(v, p, 2);
    }
  }

  lemma PageAndKernelPage(w: World, p: Page)
    requires Inv(w) && MayRequest(w, PageAt(p))
    requires MayRequest(Served(w, PageAt(p)), KernelPage)
    requires NextKernelPage(Served(w, PageAt(p))) == 0xa00 && !Present(Slot(w, w.active, 2))
    requires p == 0xa00 || p == 0x404 ==> !SaysMapped(Lookup(w, p))
    ensures Serviceable(w, [PageAt(p), KernelPage])
    ensures Distinct(AfterAll(w, [PageAt(p), KernelPage]), AllGrants(w, [PageAt(p), KernelPage])) <==>
            p != 0xa00 && p != 0x404
  {
    var rs := [PageAt(p), KernelPage];
    TwoRequests(w, Served(w, PageAt(p)), PageAt(p), KernelPage);
    if p == 0x404 {
      SpareAfterwards(w, p, 2);
      ServedActive(w, PageAt(p));
    }
    KernelPageHits(Served(w, PageAt(p)), p, Grants(w, PageAt(p)));
    NoAliasingExactly(w, rs, []);
    assert [] + AllGrants(w, rs) == AllGrants(w, rs);
  }

  /**
   Any page and then a kernel page can be requested. Both stay where they are unless the former is the page
   that next_kernelspace starts at or the window of slot 2, in which the kernel's pages begin.
   */
  lemma FirstRequests(first: nat, p: Page)
    requires IsFirst(first)
    ensures var w, rs := AtBoot(first), [PageAt(p), KernelPage];
            && Serviceable(w, rs)
            && (Distinct(AfterAll(w, rs), AllGrants(w, rs)) <==> p != 0xa00 && p != 0x404)
  {
    BootRequests(first, p);
    Slot2AtBoot(first);
    if p == 0xa00 || p == 0x404 {
      UnmappedAtBoot(first, p);
    }
    PageAndKernelPage(AtBoot(first), p);
  }

  // ----- the first context created -----

  /** Mapping a page of slot 2 where there is no such slot takes one frame. */
  lemma Slot2Pool(s: World, f: Frame)
    requires CanEnter(s, TEMP_CONTEXT) && !Present(Slot(s, s.active, 2))
    ensures CanAlloc(s.pm) && MapHere(s, TEMP_CONTEXT, f).pm == AfterAlloc(s.pm)
  {
    assert TEMP_CONTEXT / 1024 == 2 && TableWindow(2) / 1024 == 1;
    NewTableEnters(s, TEMP_CONTEXT);
    assert Slot(NewTable(s, TEMP_CONTEXT), s.active, 1) == Slot(s, s.active, 1);
  }

  lemma ContextShownPool(w: World, first: nat)
    requires CanCreate(w) && !Present(Slot(w, w.active, 2))
    requires 256 <= first < FRAMES - 1 && w.pm == PmmState(FreeFrom(first), None)
    ensures ContextShown(w).pm == PmmState(FreeFrom(first + 2), None)
  {
    PickFrom(first);
    PickFrom(first + 1);
    ClaimExtends(w);
    Slot2Pool(Claim(w), Pick(w.pm));
  }

  lemma CreatedSlots(w: World, i: nat)
    requires CanCreate(w) && !Present(Slot(w, w.active, 2)) && i < 1024
    ensures Present(Slot(Create(w), w.active, i)) <==> Present(Slot(w, w.active, i)) || i == 2
  {
    ContextShownFacts(w);
    ClaimExtends(w);
    var s, c := ContextShown(w), Pick(w.pm);
    ShownSlots(Claim(w), c, i);
    CompletedSlots(s, c, i);
  }

  lemma ShownSlots(s: World, c: Frame, i: nat)
    requires CanMapHere(s, TEMP_CONTEXT) && !Present(Slot(s, s.active, 2)) && i < 1024
    ensures Present(Slot(MapHere(s, TEMP_CONTEXT, c), s.active, i)) <==> Present(Slot(s, s.active, i)) || i == 2
  {
    MapHereSlots(s, TEMP_CONTEXT, c, s.active, i);
  }

  lemma CompletedSlots(v: World, c: Frame, i: nat)
    requires Inv(v) && Present(Slot(v, v.active, 2)) && Enough(v.pm, 1) && IsTaken(v, c) && i < 1024
    ensures CanAlloc(v.pm)
    ensures Slot(Registered(DirectoryShown(v, c), c, Pick(v.pm)), v.active, i) == Slot(v, v.active, i)
  {
    DirectoryShownFacts(v, c);
    RegisteredOld(DirectoryShown(v, c), c, Pick(v.pm), v.active);
  }

  lemma CreatedFrames(w: World, first: nat)
    requires CanCreate(w) && !Present(Slot(w, w.active, 2)) && IsContext(w, w.active)
    requires 256 <= first < FRAMES - 2 && w.pm == PmmState(FreeFrom(first), None)
    ensures NewContext(w) == first && Dir(Create(w), first) == first + 2
    ensures Create(w).pm == PmmState(FreeFrom(first + 3), None) && first != w.active
  {
    ContextShownPool(w, first);
    ContextShownFacts(w);
    PickFrom(first);
    PickFrom(first + 2);
    CompletedFrames(ContextShown(w), first);
    assert IsFrom(first, first);
  }

  lemma CompletedFrames(v: World, c: Frame)
    requires Inv(v) && Present(Slot(v, v.active, 2)) && Enough(v.pm, 1) && IsTaken(v, c)
    ensures CanAlloc(v.pm)
    ensures var x := Registered(DirectoryShown(v, c), c, Pick(v.pm));
            Dir(x, c) == Pick(v.pm) && x.pm == AfterAlloc(v.pm)
  {
    DirectoryShownFacts(v, c);
    RegisteredNew(DirectoryShown(v, c), c, Pick(v.pm));
  }

  /** `v` and `c` are the state and the context after the first creation. */
  ghost predicate HasFirstContext(v: World, c: Frame, first: nat) {
    && Inv(v) && v.active == CONTEXT && c == first && IsContext(v, c) && c != v.active
    && first + 2 < FRAMES && Dir(v, c) == first + 2 && v.pm == PmmState(FreeFrom(first + 3), None)
  }

  lemma CreatedContext(w: World, first: nat)
    requires CanCreate(w) && !Present(Slot(w, w.active, 2)) && w.active == CONTEXT
    requires 256 <= first < FRAMES - 2 && w.pm == PmmState(FreeFrom(first), None)
    ensures HasFirstContext(Create(w), NewContext(w), first)
  {
    CreateKeepsInv(w);
    CreatedFrames(w, first);
  }

  lemma Slot2AtBoot(first: nat)
    ensures !Present(Slot(AtBoot(first), AtBoot(first).active, 2))
    ensures AtBoot(first).active == CONTEXT && AtBoot(first).pm == PmmState(FreeFrom(first), None)
  {
    SlotsAtBoot(first, 2);
  }

  /** Its block is the first free frame, its directory the third: a table for slot 2 comes in between. */
  lemma FirstContext(first: nat)
    requires IsFirst(first)
    ensures CanCreate(AtBoot(first))
    ensures HasFirstContext(Create(AtBoot(first)), NewContext(AtBoot(first)), first)
  {
    Boots(first);
    Slot2AtBoot(first);
    CreatedContext(AtBoot(first), first);
  }

  lemma SlotsAfterCreation(first: nat, i: nat)
    requires IsFirst(first) && i < 1024
    ensures CanCreate(AtBoot(first)) && Present(Slot(Create(AtBoot(first)), CONTEXT, i)) <==> i <= 2
  {
    Boots(first);
    SlotsAtBoot(first, i);
    SlotsAtBoot(first, 2);
    EntryFields(KERNEL_TABLE);
    EntryFields(WINDOW_TABLE);
    CreatedSlots(AtBoot(first), i);
  }

  /** The new context can be switched to and mapped in: any user page, and any page of a kernel slot in use. */
  lemma FirstContextUsable(first: nat, p: Page)
    requires IsFirst(first) && (p / 1024 <= 2 || KERNEL_SLOTS <= p / 1024)
    ensures CanCreate(AtBoot(first))
    ensures var w := AtBoot(first); var v, c := Create(w), NewContext(w);
            CanSwitch(v, c) && CanMapThere(v, c, p) && CanMap(v, c, p)
  {
    FirstContext(first);
    var w := AtBoot(first);
    var v, c := Create(w), NewContext(w);
    Plenty(first + 3);
    SlotsAfterCreation(first, p / 1024);
    assert ContextOk(v, c);
    assert p / 1024 < KERNEL_SLOTS ==> Slot(v, c, p / 1024) == Slot(v, v.active, p / 1024);
  }

  /**
   The first switch after boot works or fails depending on nothing but which frames the allocator handed
   out, that is, on where free memory begins.
   */
  lemma FirstSwitch(first: nat)
    requires IsFirst(first)
    ensures CanCreate(AtBoot(first))
    ensures var w := AtBoot(first); var v, c := Create(w), NewContext(w);
            && CanSwitch(v, c)
            && (Inv(Switch(v, c)) <==>
                first != 0x401 && first != 0x801 && ((first + 2) / 1024 <= 2 || KERNEL_SLOTS <= (first + 2) / 1024))
  {
    FirstContextUsable(first, 0);
    FirstContext(first);
    SlotsAfterCreation(first, (first + 2) / 1024);
    SwitchCoherent(Create(AtBoot(first)), NewContext(AtBoot(first)));
  }

  /** The three ways to fail are all real. */
  lemma SwitchesThatFail()
    ensures FailsAt(0x401, 0x403) && FailsAt(0x801, 0x803) && FailsAt(0xbfe, 0xc00)
  {
    FirstSwitchFails(0x401);
    FirstSwitchFails(0x801);
    FirstSwitchFails(0xbfe);
  }

  /** With free memory from `first` on, the first context's directory is in frame `d` and the switch fails. */
  ghost predicate FailsAt(first: nat, d: Frame) {
    var w := AtBoot(first);
    && CanCreate(w)
    && var v, c := Create(w), NewContext(w);
       CanSwitch(v, c) && Dir(v, c) == d && Inv(v) && !Structured(Switch(v, c))
  }

  lemma FirstSwitchFails(first: nat)
    requires first == 0x401 || first == 0x801 || first == 0xbfe
    ensures FailsAt(first, first + 2)
  {
    FirstSwitch(first);
    FirstContext(first);
    SwitchCoherent(Create(AtBoot(first)), NewContext(AtBoot(first)));
  }

  lemma BlockStays(w: World)
    requires CanCreate(w)
    ensures Create(w).mem[w.active] == w.mem[w.active]
  {
    CreateOld(w, w.active, 0);
  }

  lemma PointerAfterCreation(first: nat)
    requires IsFirst(first)
    ensures CanCreate(AtBoot(first)) && Create(AtBoot(first)).mem[CONTEXT][2] == KERNEL_SPACE_START
  {
    Boots(first);
    BlockStays(AtBoot(first));
    assert AtBoot(first).mem[CONTEXT] == ContextBlockAtBoot();
  }

  lemma HeapReadyAfterCreation(first: nat)
    requires IsFirst(first)
    // Compared with `true`, the predicate is kept as one fact.
    ensures CanCreate(AtBoot(first)) && CanAllocKernel(Create(AtBoot(first))) == true
    ensures NextKernelPage(Create(AtBoot(first))) == 0xa00
  {
    FirstContext(first);
    PointerAfterCreation(first);
    SlotsAfterCreation(first, 2);
    Plenty(first + 3);
    HeapReady(Create(AtBoot(first)));
  }

  lemma Slot2Mappable(v: World)
    requires Inv(v) && CanAlloc(v.pm) && Present(Slot(v, v.active, 2))
    ensures CanMap(ClaimData(v), v.active, 0xa00) == true
  {
    ClaimDataFacts(v);
    assert 0xa00 / 1024 == 2;
  }

  lemma HeapReady(v: World)
    requires Inv(v) && Enough(v.pm, 7) && v.mem[v.active][2] == KERNEL_SPACE_START && Present(Slot(v, v.active, 2))
    ensures CanAllocKernel(v) == true && NextKernelPage(v) == 0xa00
  {
    EnoughToAlloc(v.pm, 7);
    Slot2Mappable(v);
  }

  /**
   With free memory from frame 0x9fe on, the first kernel page allocated after the first context has been
   created is lost by switching to that context.
   */
  lemma HeapPageLost()
    ensures CanCreate(AtBoot(0x9fe))
    ensures var w := AtBoot(0x9fe); var v, c := Create(w), NewContext(w);
            && MayRequest(v, KernelPage)
            && var u, g := Served(v, KernelPage), Grants(v, KernelPage)[0];
               && CanSwitch(u, c) && SwitchWorks(u, c) && Stands(u, g) && Inv(Switch(u, c))
               && !StandsIn(Switch(u, c), CONTEXT, g)
  {
    FirstContext(0x9fe);
    HeapReadyAfterCreation(0x9fe);
    var w := AtBoot(0x9fe);
    KernelPageAllowed(Create(w));
    SwitchCollision(Create(w), NewContext(w));
  }

  // ----- a file that loses a segment -----

  /**
   A file with segments at 0x00502000 and 0x40000000 is loaded without a panic, and afterwards the page of
   the first shows the table that the second needed.
   */
  lemma FileLosesSegment(first: nat, segs: seq<Segment>)
    requires IsFirst(first) && |segs| == 2 && segs[0].kind == segs[1].kind == PT_LOAD
    requires segs[0].vaddr == 0x0050_2000 && segs[1].vaddr == 0x4000_0000
    ensures !Elf.Panics(AtBoot(first), segs) && Elf.Displaced(AtBoot(first), segs, 1, 2, 0x502)
  {
    var w := AtBoot(first);
    SlotsAtBoot(first, 1);
    SlotsAtBoot(first, 256);
    EntryFields(WINDOW_TABLE);
    assert w.mem[WINDOW_TABLE] == WindowTableAtBoot();
    assert Elf.PageOf(segs[0]) == 0x502 == TableWindow(256) && Elf.PageOf(segs[1]) == 0x4_0000;
    Elf.WindowSegmentLost(w, segs, 256);
  }

  /**
   A segment that wants two pages of memory gets one: the page behind is mapped neither at the start nor for
   the segment, so that after loading no byte there can be read.
   */
  lemma LargeBssIsMissing(first: nat, v: World, offset: Word, filesz: Word, va: int, b: Byte)
    requires IsFirst(first)
    requires Elf.Tracked(AtBoot(first), v, [Segment(1, offset, 0x4000_0000, filesz, 0x2000)], 1)
    requires 0x4000_1000 <= va < 0x4000_2000
    ensures !Elf.Panics(AtBoot(first), [Segment(1, offset, 0x4000_0000, filesz, 0x2000)])
    ensures !Elf.ByteAt(v, va, b)
  {
    var w, s := AtBoot(first), Segment(1, offset, 0x4000_0000, filesz, 0x2000);
    SlotsAtBoot(first, 256);
    assert Elf.PageOf(s) == 0x4_0000 && AddressOf(0x4_0001) == 0x4000_1000;
    Elf.LookupReadsEntry(w, 0x4_0000);
    Elf.LookupReadsEntry(w, 0x4_0001);
    Elf.NothingBehind(w, v, [s], 0x4_0001, va, b);
  }
}
