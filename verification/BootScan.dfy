/**
 The boot scans of kernel/memory/pmm.c (pmm_init) and kernel/memory/vmm.c (vmm_init). Both walk the memory
 map once, page by page. pmm_init frees every page that is not in use; vmm_init identity-maps the others.
 Both compare a page with one module only, the one that a counter names, and advance that counter when
 they pass the module's last page.
 */
module BootScan {
  import opened Words
  import opened Pmm

  const MEMORY_AVAILABLE := 1

  datatype Region = Region(kind: Word, base: nat, length: nat)

  /** A boot module occupies the bytes from `start` up to and including `end`, as both scans compare. */
  datatype Mod = Mod(start: Word, end: Word)

  /** What the boot loader hands over, and where the kernel lies. */
  datatype Boot = Boot(kernelStart: Word, kernelEnd: Word, info: Word,
                       mmapAddr: Word, mmapLength: Word, modsAddr: Word, mods: seq<Mod>, regions: seq<Region>)

  /** 32-bit pointer arithmetic. */
  function Plus(a: Word, n: nat): Word {
    (a + n) % 0x1_0000_0000
  }

  /** The end of the information structure: the source steps 52 structures of 52 bytes. */
  function InfoEnd(b: Boot): Word {
    Plus(b.info, 52 * 52)
  }

  /** The end of the module descriptors, 16 bytes each. */
  function ModsEnd(b: Boot): Word {
    Plus(b.modsAddr, 16 * |b.mods|)
  }

  predicate Reserved(b: Boot, addr: Word) {
    || b.kernelStart <= addr <= b.kernelEnd
    || b.info <= addr <= InfoEnd(b)
    || b.mmapAddr <= addr <= Plus(b.mmapAddr, b.mmapLength)
    || b.modsAddr <= addr <= ModsEnd(b)
  }

  predicate InMod(m: Mod, addr: Word) {
    m.start <= addr <= m.end
  }

  function LastPage(m: Mod): Word {
    PageBase(m.end)
  }

  predicate InRegion(r: Region, addr: Word) {
    r.kind == MEMORY_AVAILABLE && r.base <= addr < r.base + r.length
  }

  // ----- what the comparisons say of a page's first byte -----

  ghost predicate Available(b: Boot, addr: Word) {
    exists i: nat | i < |b.regions| :: InRegion(b.regions[i], addr)
  }

  ghost predicate Passed(b: Boot, addr: Word) {
    Available(b, addr) && !Reserved(b, addr)
  }

  /** A scan gets past module `k` on its last page, if it comes to that page with the counter at `k`. */
  ghost predicate Leaves(b: Boot, k: nat)
    requires k < |b.mods|
  {
    && b.mods[k].start <= LastPage(b.mods[k]) && Passed(b, LastPage(b.mods[k]))
    && (k > 0 ==> LastPage(b.mods[k - 1]) < LastPage(b.mods[k]))
  }

  /** The module, from number `k` on, that the page at `addr` is compared with. */
  ghost function Due(b: Boot, k: nat, addr: nat): (c: nat)
    requires k < |b.mods|
    ensures k <= c < |b.mods|
    decreases |b.mods| - k
  {
    if k + 1 < |b.mods| && Leaves(b, k) && LastPage(b.mods[k]) < addr then Due(b, k + 1, addr) else k
  }

  ghost predicate InDueMod(b: Boot, addr: Word)
    requires b.mods != []
  {
    InMod(b.mods[Due(b, 0, addr)], addr)
  }

  /** What the scans free and map. */
  ghost predicate ToFree(b: Boot, f: Frame)
    requires b.mods != []
  {
    Passed(b, AddressOf(f)) && !InDueMod(b, AddressOf(f))
  }

  ghost predicate ToMap(b: Boot, f: Frame)
    requires b.mods != []
  {
    Available(b, AddressOf(f)) && (Reserved(b, AddressOf(f)) || InDueMod(b, AddressOf(f)))
  }

  // ----- the memory map -----

  predicate RegionOk(r: Region) {
    r.kind == MEMORY_AVAILABLE ==>
      r.base % PAGE_SIZE == 0 && r.length % PAGE_SIZE == 0 && r.base + r.length <= 0xffff_f000
  }

  ghost predicate RegionsOk(b: Boot) {
    && (forall i: nat | i < |b.regions| :: RegionOk(b.regions[i]))
    && (forall i: nat, j: nat | i < j < |b.regions| && Both(b.regions[i], b.regions[j]) ::
          b.regions[i].base + b.regions[i].length <= b.regions[j].base)
  }

  predicate Both(r: Region, s: Region) {
    r.kind == s.kind == MEMORY_AVAILABLE
  }

  // ----- the counter -----

  /** `(addr + PAGE_SIZE) > mod_end && (mods_counter + 1) < mods_count` on a page of that module. */
  function Advanced(b: Boot, addr: Word, c: nat): nat
    requires c < |b.mods|
  {
    if addr + PAGE_SIZE > b.mods[c].end && c + 1 < |b.mods| then c + 1 else c
  }

  function CounterAfter(b: Boot, addr: Word, c: nat): nat
    requires c < |b.mods|
  {
    if !Reserved(b, addr) && InMod(b.mods[c], addr) then Advanced(b, addr, c) else c
  }

  lemma AfterLastPage(m: Mod, addr: Word)
    requires addr % PAGE_SIZE == 0
    ensures LastPage(m) < addr <==> m.end < addr
  {
  }

  lemma PageStep(p: Word, addr: Word)
    requires p % PAGE_SIZE == 0 && addr % PAGE_SIZE == 0 && addr < p
    ensures addr + PAGE_SIZE <= p
  {
  }

  lemma LastPageAligned(m: Mod)
    ensures LastPage(m) % PAGE_SIZE == 0 && LastPage(m) <= m.end < LastPage(m) + PAGE_SIZE
  {
  }

  /** Passing a page, the counter moves on exactly when the next page is due for another module. */
  lemma {:induction false} CounterStep(b: Boot, k: nat, addr: Word)
    requires k < |b.mods| && addr % PAGE_SIZE == 0 && Available(b, addr)
    requires k > 0 ==> LastPage(b.mods[k - 1]) < addr
    ensures Due(b, k, addr + PAGE_SIZE) == CounterAfter(b, addr, Due(b, k, addr))
    decreases |b.mods| - k
  {
    LastPageAligned(b.mods[k]);
    if k + 1 < |b.mods| && Leaves(b, k) && LastPage(b.mods[k]) < addr {
      CounterStep(b, k + 1, addr);
    } else if k + 1 < |b.mods| && Leaves(b, k) && LastPage(b.mods[k]) == addr {
      LastPageAligned(b.mods[k + 1]);
      if addr < LastPage(b.mods[k + 1]) {
        PageStep(LastPage(b.mods[k + 1]), addr);
      }
    } else if addr < LastPage(b.mods[k]) {
      PageStep(LastPage(b.mods[k]), addr);
    } else {
      AfterLastPage(b.mods[k], addr);
    }
  }

  /** A stretch without available pages contains no module's last page that the scan could pass. */
  lemma {:induction false} CounterSkip(b: Boot, k: nat, from: nat, to: nat)
    requires k < |b.mods| && from <= to
    requires forall addr: Word | from <= addr < to :: !Available(b, addr)
    ensures Due(b, k, to) == Due(b, k, from)
    decreases |b.mods| - k
  {
    if k + 1 < |b.mods| && Leaves(b, k) && LastPage(b.mods[k]) < to {
      assert LastPage(b.mods[k]) < from;
      CounterSkip(b, k + 1, from, to);
    }
  }

  // ----- progress of a scan -----

  ghost predicate Between(lo: nat, f: Frame, hi: nat) {
    lo <= AddressOf(f) < hi
  }

  ghost function FreedBelow(b: Boot, pos: nat): (s: set<Frame>)
    requires b.mods != []
    ensures forall f: Frame :: f in s <==> Between(0, f, pos) && ToFree(b, f)
  {
    set f: Frame | 0 <= f < FRAMES && Between(0, f, pos) && ToFree(b, f)
  }

  ghost function MappedBelow(b: Boot, pos: nat): (s: set<Frame>)
    requires b.mods != []
    ensures forall f: Frame :: f in s <==> Between(0, f, pos) && ToMap(b, f)
  {
    set f: Frame | 0 <= f < FRAMES && Between(0, f, pos) && ToMap(b, f)
  }

  /** All available pages below `pos` lie in the first `i` regions, the others are still ahead. */
  ghost predicate Frontier(b: Boot, i: nat, pos: nat) {
    && i <= |b.regions|
    && (forall j: nat | j < i && b.regions[j].kind == MEMORY_AVAILABLE ::
          b.regions[j].base + b.regions[j].length <= pos)
    && (forall j: nat | i <= j < |b.regions| && b.regions[j].kind == MEMORY_AVAILABLE ::
          pos <= b.regions[j].base)
  }

  lemma GapBefore(b: Boot, i: nat, pos: nat, addr: Word)
    requires RegionsOk(b) && Frontier(b, i, pos) && i < |b.regions|
    requires b.regions[i].kind == MEMORY_AVAILABLE && pos <= addr < b.regions[i].base
    ensures !Available(b, addr)
  {
    forall j: nat | j < |b.regions| ensures !InRegion(b.regions[j], addr) {
      if j > i && b.regions[j].kind == MEMORY_AVAILABLE {
        assert Both(b.regions[i], b.regions[j]);
      }
    }
  }

  lemma NothingAhead(b: Boot, pos: nat, addr: Word)
    requires Frontier(b, |b.regions|, pos) && pos <= addr
    ensures !Available(b, addr)
  {
  }

  lemma FrontierMoves(b: Boot, i: nat, pos: nat)
    requires RegionsOk(b) && i < |b.regions| && Frontier(b, i, pos)
    ensures b.regions[i].kind != MEMORY_AVAILABLE ==> Frontier(b, i + 1, pos)
    ensures b.regions[i].kind == MEMORY_AVAILABLE ==>
              Frontier(b, i + 1, b.regions[i].base + b.regions[i].length)
  {
    if b.regions[i].kind == MEMORY_AVAILABLE {
      forall j: nat | i < j < |b.regions| && b.regions[j].kind == MEMORY_AVAILABLE
        ensures b.regions[i].base + b.regions[i].length <= b.regions[j].base
      {
        assert Both(b.regions[i], b.regions[j]);
      }
    }
  }

  lemma SkipGap(b: Boot, i: nat, pos: nat)
    requires RegionsOk(b) && b.mods != [] && i < |b.regions| && Frontier(b, i, pos)
    requires b.regions[i].kind == MEMORY_AVAILABLE
    ensures Due(b, 0, b.regions[i].base) == Due(b, 0, pos)
    ensures FreedBelow(b, b.regions[i].base) == FreedBelow(b, pos)
    ensures MappedBelow(b, b.regions[i].base) == MappedBelow(b, pos)
  {
    var to := b.regions[i].base;
    forall addr: Word | pos <= addr < to ensures !Available(b, addr) {
      GapBefore(b, i, pos, addr);
    }
    CounterSkip(b, 0, pos, to);
    assert FreedBelow(b, to) == FreedBelow(b, pos);
    assert MappedBelow(b, to) == MappedBelow(b, pos);
  }

  /** One more page: it belongs to the freed or to the mapped ones, as its comparison says. */
  lemma OnePage(b: Boot, addr: Word)
    requires b.mods != [] && addr % PAGE_SIZE == 0 && Available(b, addr)
    ensures var f, inUse := FrameOf(addr), InUse(b, addr, Due(b, 0, addr));
            && FreedBelow(b, addr + PAGE_SIZE) == FreedBelow(b, addr) + (if inUse then {} else {f})
            && MappedBelow(b, addr + PAGE_SIZE) == MappedBelow(b, addr) + (if inUse then {f} else {})
  {
    var f := FrameOf(addr);
    assert AddressOf(f) == addr;
    forall g: Frame ensures Between(0, g, addr + PAGE_SIZE) <==> Between(0, g, addr) || g == f {
    }
    assert ToFree(b, f) <==> !InUse(b, addr, Due(b, 0, addr));
    assert ToMap(b, f) <==> InUse(b, addr, Due(b, 0, addr));
  }

  lemma WholeScan(b: Boot, pos: nat)
    requires b.mods != [] && Frontier(b, |b.regions|, pos)
    ensures forall f: Frame ::
              && (f in FreedBelow(b, pos) <==> ToFree(b, f))
              && (f in MappedBelow(b, pos) <==> ToMap(b, f))
  {
    forall f: Frame | !Between(0, f, pos) ensures !Available(b, AddressOf(f)) {
      NothingAhead(b, pos, AddressOf(f));
    }
  }

  // ----- the scans -----

  predicate InUse(b: Boot, addr: Word, c: nat)
    requires c < |b.mods|
  {
    Reserved(b, addr) || InMod(b.mods[c], addr)
  }

  /** One page in pmm_init. */
  method FreePage(b: Boot, addr: Word, c: nat, pmm: PageAllocator) returns (counter: nat)
    requires c < |b.mods| && pmm.Valid()
    modifies pmm, pmm.bitmap
    ensures pmm.Valid() && counter == CounterAfter(b, addr, c)
    ensures pmm.State().free == old(pmm.State().free) + (if InUse(b, addr, c) then {} else {FrameOf(addr)})
  {
    counter := c;
    if b.kernelStart <= addr <= b.kernelEnd {
    } else if b.info <= addr <= InfoEnd(b) {
    } else if b.mmapAddr <= addr <= Plus(b.mmapAddr, b.mmapLength) {
    } else if b.modsAddr <= addr <= ModsEnd(b) {
    } else if b.mods[counter].start <= addr <= b.mods[counter].end {
      if addr + PAGE_SIZE > b.mods[counter].end && counter + 1 < |b.mods| {
        counter := counter + 1;
      }
    } else {
      pmm.Free(addr);
    }
  }

  /** One page in vmm_init. */
  method MapPage(b: Boot, addr: Word, c: nat) returns (counter: nat, mapped: seq<Word>)
    requires c < |b.mods|
    ensures counter == CounterAfter(b, addr, c)
    ensures mapped == if InUse(b, addr, c) then [addr] else []
  {
    counter, mapped := c, [];
    if b.kernelStart <= addr <= b.kernelEnd {
      mapped := [addr];
    } else if b.info <= addr <= InfoEnd(b) {
      mapped := [addr];
    } else if b.mmapAddr <= addr <= Plus(b.mmapAddr, b.mmapLength) {
      mapped := [addr];
    } else if b.modsAddr <= addr <= ModsEnd(b) {
      mapped := [addr];
    } else if b.mods[counter].start <= addr <= b.mods[counter].end {
      if addr + PAGE_SIZE > b.mods[counter].end && counter + 1 < |b.mods| {
        counter := counter + 1;
      }
      mapped := [addr];
    }
  }

  /** The first page of a region that lies ahead, and the end of that region, as the scans compute them. */
  function First(r: Region): Word {
    r.base % 0x1_0000_0000
  }

  function End(r: Region): Word {
    (First(r) + r.length) % 0x1_0000_0000
  }

  lemma NoWrap(r: Region)
    requires RegionOk(r) && r.kind == MEMORY_AVAILABLE
    ensures First(r) == r.base && End(r) == r.base + r.length <= 0xffff_f000
    ensures First(r) % PAGE_SIZE == 0 && End(r) % PAGE_SIZE == 0
  {
  }

  /** `addr` is the start of a page of the region, or its end. */
  predicate OnPage(r: Region, addr: Word) {
    First(r) <= addr <= End(r) && addr % PAGE_SIZE == 0
  }

  /** One more page keeps a scan in step with the specification. */
  lemma PageDone(b: Boot, i: nat, addr: Word, c: nat)
    requires RegionsOk(b) && b.mods != [] && i < |b.regions| && b.regions[i].kind == MEMORY_AVAILABLE
    requires c == Due(b, 0, addr) && OnPage(b.regions[i], addr) && addr < End(b.regions[i])
    ensures addr + PAGE_SIZE <= End(b.regions[i]) && OnPage(b.regions[i], addr + PAGE_SIZE)
    ensures Due(b, 0, addr + PAGE_SIZE) == CounterAfter(b, addr, c)
    ensures FreedBelow(b, addr + PAGE_SIZE) ==
            FreedBelow(b, addr) + (if InUse(b, addr, c) then {} else {FrameOf(addr)})
    ensures MappedBelow(b, addr + PAGE_SIZE) ==
            MappedBelow(b, addr) + (if InUse(b, addr, c) then {FrameOf(addr)} else {})
  {
    NoWrap(b.regions[i]);
    assert InRegion(b.regions[i], addr);
    OnePage(b, addr);
    CounterStep(b, 0, addr);
    PageStep(End(b.regions[i]), addr);
  }

  lemma PageFreed(b: Boot, i: nat, addr: Word, c: nat, free: set<Frame>)
    requires RegionsOk(b) && b.mods != [] && i < |b.regions| && b.regions[i].kind == MEMORY_AVAILABLE
    requires c == Due(b, 0, addr) && OnPage(b.regions[i], addr) && addr < End(b.regions[i])
    requires free == FreedBelow(b, addr)
    ensures addr + PAGE_SIZE <= End(b.regions[i]) && OnPage(b.regions[i], addr + PAGE_SIZE)
    ensures Due(b, 0, addr + PAGE_SIZE) == CounterAfter(b, addr, c)
    ensures free + (if InUse(b, addr, c) then {} else {FrameOf(addr)}) == FreedBelow(b, addr + PAGE_SIZE)
  {
    PageDone(b, i, addr, c);
  }

  method FreeRegion(b: Boot, i: nat, c: nat, pmm: PageAllocator, ghost pos: nat) returns (counter: nat)
    requires RegionsOk(b) && b.mods != [] && i < |b.regions| && b.regions[i].kind == MEMORY_AVAILABLE
    requires Frontier(b, i, pos) && c == Due(b, 0, pos)
    requires pmm.Valid() && pmm.State().free == FreedBelow(b, pos)
    modifies pmm, pmm.bitmap
    ensures pmm.Valid() && counter == Due(b, 0, End(b.regions[i]))
    ensures pmm.State().free == FreedBelow(b, End(b.regions[i]))
  {
    counter := c;
    SkipGap(b, i, pos);
    NoWrap(b.regions[i]);
    var addr: Word, end: Word := First(b.regions[i]), End(b.regions[i]);
    while addr < end
      invariant OnPage(b.regions[i], addr)
      invariant pmm.Valid() && counter == Due(b, 0, addr)
      invariant pmm.State().free == FreedBelow(b, addr)
    {
      PageFreed(b, i, addr, counter, pmm.State().free);
      counter := FreePage(b, addr, counter, pmm);
      addr := addr + PAGE_SIZE;
    }
  }

  /** The scan itself. */
  method FreeUnused(b: Boot, pmm: PageAllocator)
    requires RegionsOk(b) && b.mods != []
    requires pmm.Valid() && pmm.State().free == {}
    modifies pmm, pmm.bitmap
    ensures pmm.Valid()
    ensures forall f: Frame :: f in pmm.State().free <==> ToFree(b, f)
  {
    var counter: nat := 0;
    ghost var pos: nat := 0;
    assert FreedBelow(b, pos) == {};
    for i := 0 to |b.regions|
      invariant pmm.Valid() && Frontier(b, i, pos) && counter == Due(b, 0, pos)
      invariant pmm.State().free == FreedBelow(b, pos)
    {
      FrontierMoves(b, i, pos);
      if b.regions[i].kind == MEMORY_AVAILABLE {
        NoWrap(b.regions[i]);
        counter := FreeRegion(b, i, counter, pmm, pos);
        pos := End(b.regions[i]);
      }
    }
    WholeScan(b, pos);
  }

  lemma SearchFindsLeast(s: PmmState, f: Frame)
    requires CacheAgrees(s) && IsLeast(s.free, f)
    ensures AfterSearch(s) == PmmState(s.free, Some(f))
  {
    assert IsLeast(s.free, Pick(s.(cache := None)));
  }

  /** pmm_init: it leaves exactly the pages free that the comparisons let through, and caches one of them. */
  method FreeMemory(b: Boot, pmm: PageAllocator)
    requires RegionsOk(b) && b.mods != []
    requires pmm.Valid() && pmm.State() == PmmState({}, None)
    modifies pmm, pmm.bitmap
    ensures pmm.Valid()
    ensures forall f: Frame :: f in pmm.State().free <==> ToFree(b, f)
    ensures forall f: Frame | IsLeast(pmm.State().free, f) :: pmm.State().cache == Some(f)
  {
    FreeUnused(b, pmm);
    ghost var s := pmm.State();
    pmm.SearchPage();
    forall f: Frame | IsLeast(s.free, f) ensures pmm.State().cache == Some(f) {
      SearchFindsLeast(s, f);
    }
  }

  ghost predicate Collects(mapped: seq<Word>, frames: set<Frame>) {
    && (forall a: Word | a in mapped :: a % PAGE_SIZE == 0)
    && (forall f: Frame :: AddressOf(f) in mapped <==> f in frames)
  }

  lemma CollectsMore(mapped: seq<Word>, frames: set<Frame>, addr: Word)
    requires Collects(mapped, frames) && addr % PAGE_SIZE == 0
    ensures Collects(mapped + [addr], frames + {FrameOf(addr)})
  {
    assert AddressOf(FrameOf(addr)) == addr;
  }

  lemma PageCollected(b: Boot, i: nat, addr: Word, c: nat, mapped: seq<Word>)
    requires RegionsOk(b) && b.mods != [] && i < |b.regions| && b.regions[i].kind == MEMORY_AVAILABLE
    requires c == Due(b, 0, addr) && OnPage(b.regions[i], addr) && addr < End(b.regions[i])
    requires Collects(mapped, MappedBelow(b, addr))
    ensures addr + PAGE_SIZE <= End(b.regions[i]) && OnPage(b.regions[i], addr + PAGE_SIZE)
    ensures Due(b, 0, addr + PAGE_SIZE) == CounterAfter(b, addr, c)
    ensures Collects(mapped + (if InUse(b, addr, c) then [addr] else []), MappedBelow(b, addr + PAGE_SIZE))
  {
    PageDone(b, i, addr, c);
    CollectsMore(mapped, MappedBelow(b, addr), addr);
    assert mapped + [] == mapped;
  }

  method MapRegion(b: Boot, i: nat, c: nat, before: seq<Word>, ghost pos: nat) returns (counter: nat, mapped: seq<Word>)
    requires RegionsOk(b) && b.mods != [] && i < |b.regions| && b.regions[i].kind == MEMORY_AVAILABLE
    requires Frontier(b, i, pos) && c == Due(b, 0, pos)
    requires Collects(before, MappedBelow(b, pos))
    ensures counter == Due(b, 0, End(b.regions[i]))
    ensures Collects(mapped, MappedBelow(b, End(b.regions[i])))
  {
    counter, mapped := c, before;
    SkipGap(b, i, pos);
    NoWrap(b.regions[i]);
    var addr: Word, end: Word := First(b.regions[i]), End(b.regions[i]);
    while addr < end
      invariant OnPage(b.regions[i], addr)
      invariant counter == Due(b, 0, addr)
      invariant Collects(mapped, MappedBelow(b, addr))
    {
      PageCollected(b, i, addr, counter, mapped);
      var more;
      counter, more := MapPage(b, addr, counter);
      mapped := mapped + more;
      addr := addr + PAGE_SIZE;
    }
  }

  /** The scan of vmm_init: the pages it identity-maps. */
  method MapMemory(b: Boot) returns (mapped: seq<Word>)
    requires RegionsOk(b) && b.mods != []
    ensures forall a: Word | a in mapped :: a % PAGE_SIZE == 0
    ensures forall f: Frame :: AddressOf(f) in mapped <==> ToMap(b, f)
  {
    mapped := [];
    var counter: nat := 0;
    ghost var pos: nat := 0;
    for i := 0 to |b.regions|
      invariant Frontier(b, i, pos) && counter == Due(b, 0, pos)
      invariant Collects(mapped, MappedBelow(b, pos))
    {
      FrontierMoves(b, i, pos);
      if b.regions[i].kind == MEMORY_AVAILABLE {
        NoWrap(b.regions[i]);
        counter, mapped := MapRegion(b, i, counter, mapped, pos);
        pos := End(b.regions[i]);
      }
    }
    WholeScan(b, pos);
  }

  // ----- what the scans amount to -----

  /** Some module has the page at `addr`; in the second form, one of the first `n`. */
  ghost predicate InSomeMod(b: Boot, addr: Word) {
    exists k: nat | k < |b.mods| :: InMod(b.mods[k], addr)
  }

  ghost predicate InEarlierMod(b: Boot, n: nat, addr: Word)
    requires n <= |b.mods|
  {
    exists k: nat | k < n :: InMod(b.mods[k], addr)
  }

  /** Modules ascend; two of them may share a page. */
  ghost predicate Ascending(b: Boot) {
    && b.mods != []
    && forall j: nat, k: nat | j < k < |b.mods| :: LastPage(b.mods[j]) <= b.mods[k].start
  }

  /** Before a page that only module `k` protects the scan gets past all earlier modules. */
  ghost predicate ModsReached(b: Boot) {
    forall k: nat, f: Frame, j: nat
      | j < k < |b.mods| && InMod(b.mods[k], AddressOf(f)) && Passed(b, AddressOf(f)) &&
        !InEarlierMod(b, k, AddressOf(f))
      :: Leaves(b, j)
  }

  lemma {:induction false} DueReaches(b: Boot, i: nat, k: nat, addr: nat)
    requires i <= k < |b.mods| && addr <= LastPage(b.mods[k])
    requires forall j: nat | i <= j < k :: Leaves(b, j) && LastPage(b.mods[j]) < addr
    ensures Due(b, i, addr) == k
    decreases k - i
  {
    if i < k {
      DueReaches(b, i + 1, k, addr);
    }
  }

  lemma {:induction false} DueStops(b: Boot, i: nat, j: nat, addr: nat)
    requires i <= j < |b.mods| && !Leaves(b, j)
    ensures Due(b, i, addr) <= j
    decreases j - i
  {
    if i < j {
      DueStops(b, i + 1, j, addr);
    }
  }

  lemma {:induction false} FirstMod(b: Boot, k: nat, addr: Word) returns (first: nat)
    requires k < |b.mods| && InMod(b.mods[k], addr)
    ensures first <= k && InMod(b.mods[first], addr) && !InEarlierMod(b, first, addr)
    decreases k
  {
    if InEarlierMod(b, k, addr) {
      var j: nat :| j < k && InMod(b.mods[j], addr);
      first := FirstMod(b, j, addr);
    } else {
      first := k;
    }
  }

  /** A page in some module is in the one it is compared with. */
  lemma DueFinds(b: Boot, f: Frame)
    requires Ascending(b) && ModsReached(b) && Passed(b, AddressOf(f)) && InSomeMod(b, AddressOf(f))
    ensures InDueMod(b, AddressOf(f))
  {
    var addr := AddressOf(f);
    var m: nat :| m < |b.mods| && InMod(b.mods[m], addr);
    var k := FirstMod(b, m, addr);
    AfterLastPage(b.mods[k], addr);
    forall j: nat | j < k ensures Leaves(b, j) && LastPage(b.mods[j]) < addr {
      assert !InMod(b.mods[j], addr);
      LastPageAligned(b.mods[j]);
    }
    DueReaches(b, 0, k, addr);
  }

  /** The scan does the work of a check of every page against all modules. */
  ghost predicate Exhaustive(b: Boot)
    requires b.mods != []
  {
    forall f: Frame :: ToFree(b, f) <==> Passed(b, AddressOf(f)) && !InSomeMod(b, AddressOf(f))
  }

  lemma Unreached(b: Boot, j: nat, k: nat, f: Frame)
    requires j < k < |b.mods| && InMod(b.mods[k], AddressOf(f)) && Passed(b, AddressOf(f))
    requires !InEarlierMod(b, k, AddressOf(f)) && !Leaves(b, j)
    ensures ToFree(b, f) && InSomeMod(b, AddressOf(f))
  {
    DueStops(b, 0, j, AddressOf(f));
  }

  /**
   The single counter does the work of a check against all modules exactly if every page that only one
   module protects comes after the scan has got past the modules before.
   */
  lemma ScanExact(b: Boot)
    requires Ascending(b)
    ensures Exhaustive(b) <==> ModsReached(b)
  {
    if ModsReached(b) {
      forall f: Frame ensures ToFree(b, f) <==> Passed(b, AddressOf(f)) && !InSomeMod(b, AddressOf(f)) {
        if Passed(b, AddressOf(f)) && InSomeMod(b, AddressOf(f)) {
          DueFinds(b, f);
        }
      }
    } else {
      var k: nat, f: Frame, j: nat :|
        && j < k < |b.mods| && InMod(b.mods[k], AddressOf(f)) && Passed(b, AddressOf(f))
        && !InEarlierMod(b, k, AddressOf(f)) && !Leaves(b, j);
      Unreached(b, j, k, f);
    }
  }

  /** The two scans divide the available pages between them. */
  lemma FreedOrMapped(b: Boot, f: Frame)
    requires b.mods != [] && Available(b, AddressOf(f))
    ensures ToMap(b, f) <==> !ToFree(b, f)
  {
  }

  /** Nothing the boot loader names wraps around the end of memory. */
  predicate NoneWraps(b: Boot) {
    && b.info + 2704 < 0x1_0000_0000 && b.mmapAddr + b.mmapLength < 0x1_0000_0000
    && b.modsAddr + 16 * |b.mods| < 0x1_0000_0000
  }

  /**
   In bytes: a page is freed exactly if its first byte lies in a region of type 1, and in none of the kernel,
   the 2704 bytes from the information structure on, the memory map, the module descriptors of 16 bytes each,
   and the modules, the last byte and the one behind it included.
   */
  lemma FreedInBytes(b: Boot, f: Frame)
    requires Ascending(b) && ModsReached(b) && NoneWraps(b)
    ensures var a := 4096 * f;
            ToFree(b, f) <==>
              && (exists i: nat | i < |b.regions| :: b.regions[i].kind == 1 &&
                    b.regions[i].base <= a < b.regions[i].base + b.regions[i].length)
              && !(b.kernelStart <= a <= b.kernelEnd)
              && !(b.info <= a <= b.info + 2704)
              && !(b.mmapAddr <= a <= b.mmapAddr + b.mmapLength)
              && !(b.modsAddr <= a <= b.modsAddr + 16 * |b.mods|)
              && (forall k: nat | k < |b.mods| :: !(b.mods[k].start <= a <= b.mods[k].end))
  {
    ScanExact(b);
    var a := AddressOf(f);
    assert ToFree(b, f) <==> Passed(b, a) && !InSomeMod(b, a);
    assert Available(b, a) <==>
      exists i: nat | i < |b.regions| :: b.regions[i].kind == 1 &&
        b.regions[i].base <= a < b.regions[i].base + b.regions[i].length by {
      forall i: nat | i < |b.regions|
        ensures InRegion(b.regions[i], a) <==>
                b.regions[i].kind == 1 && b.regions[i].base <= a < b.regions[i].base + b.regions[i].length
      {
      }
    }
    assert InSomeMod(b, a) <==> exists k: nat | k < |b.mods| :: b.mods[k].start <= a <= b.mods[k].end by {
      forall k: nat | k < |b.mods| ensures InMod(b.mods[k], a) <==> b.mods[k].start <= a <= b.mods[k].end {}
    }
  }

  // ----- whether memory in use is safe -----

  /** Any of the page's 4096 bytes is one of the bytes from `lo` to `hi`. */
  predicate Overlaps(lo: Word, hi: Word, f: Frame) {
    lo <= hi && lo < AddressOf(f) + PAGE_SIZE && AddressOf(f) <= hi
  }

  ghost predicate Occupied(b: Boot, f: Frame) {
    || Overlaps(b.kernelStart, b.kernelEnd, f)
    || Overlaps(b.info, InfoEnd(b), f)
    || Overlaps(b.mmapAddr, Plus(b.mmapAddr, b.mmapLength), f)
    || Overlaps(b.modsAddr, ModsEnd(b), f)
    || (exists k: nat | k < |b.mods| :: Overlaps(b.mods[k].start, b.mods[k].end, f))
  }

  /** If something starts inside a page, the page is not free for another reason. */
  ghost predicate StartCovered(b: Boot, lo: Word, hi: Word) {
    lo <= hi && lo % PAGE_SIZE != 0 ==> !Passed(b, PageBase(lo)) || InSomeMod(b, PageBase(lo))
  }

  ghost predicate StartsCovered(b: Boot) {
    && StartCovered(b, b.kernelStart, b.kernelEnd)
    && StartCovered(b, b.info, InfoEnd(b))
    && StartCovered(b, b.mmapAddr, Plus(b.mmapAddr, b.mmapLength))
    && StartCovered(b, b.modsAddr, ModsEnd(b))
    && (forall k: nat | k < |b.mods| :: StartCovered(b, b.mods[k].start, b.mods[k].end))
  }

  lemma OverlapCases(lo: Word, hi: Word, f: Frame)
    ensures Overlaps(lo, hi, f) <==>
            lo <= AddressOf(f) <= hi || (lo <= hi && lo % PAGE_SIZE != 0 && PageBase(lo) == AddressOf(f))
  {
  }

  lemma RangeSafe(b: Boot, lo: Word, hi: Word, f: Frame)
    requires StartCovered(b, lo, hi) && Overlaps(lo, hi, f)
    requires lo <= AddressOf(f) <= hi ==> !Passed(b, AddressOf(f)) || InSomeMod(b, AddressOf(f))
    ensures !Passed(b, AddressOf(f)) || InSomeMod(b, AddressOf(f))
  {
    OverlapCases(lo, hi, f);
  }

  lemma OccupiedIsKept(b: Boot, f: Frame)
    requires StartsCovered(b) && Occupied(b, f)
    ensures !Passed(b, AddressOf(f)) || InSomeMod(b, AddressOf(f))
  {
    if Overlaps(b.kernelStart, b.kernelEnd, f) {
      RangeSafe(b, b.kernelStart, b.kernelEnd, f);
    } else if Overlaps(b.info, InfoEnd(b), f) {
      RangeSafe(b, b.info, InfoEnd(b), f);
    } else if Overlaps(b.mmapAddr, Plus(b.mmapAddr, b.mmapLength), f) {
      RangeSafe(b, b.mmapAddr, Plus(b.mmapAddr, b.mmapLength), f);
    } else if Overlaps(b.modsAddr, ModsEnd(b), f) {
      RangeSafe(b, b.modsAddr, ModsEnd(b), f);
    } else {
      var k: nat :| k < |b.mods| && Overlaps(b.mods[k].start, b.mods[k].end, f);
      assert StartCovered(b, b.mods[k].start, b.mods[k].end);
      assert InMod(b.mods[k], AddressOf(f)) ==> InSomeMod(b, AddressOf(f));
      RangeSafe(b, b.mods[k].start, b.mods[k].end, f);
    }
  }

  /** No page in use, not even in part, is given to the allocator. */
  ghost predicate Safe(b: Boot)
    requires b.mods != []
  {
    forall f: Frame | Occupied(b, f) :: !ToFree(b, f)
  }

  lemma SafeIsExhaustive(b: Boot)
    requires b.mods != [] && Safe(b)
    ensures Exhaustive(b)
  {
    forall f: Frame ensures ToFree(b, f) <==> Passed(b, AddressOf(f)) && !InSomeMod(b, AddressOf(f)) {
      if InSomeMod(b, AddressOf(f)) {
        var k: nat :| k < |b.mods| && InMod(b.mods[k], AddressOf(f));
        assert Overlaps(b.mods[k].start, b.mods[k].end, f);
      }
    }
  }

  lemma SafeStart(b: Boot, lo: Word, hi: Word)
    requires b.mods != [] && Safe(b)
    requires forall f: Frame | Overlaps(lo, hi, f) :: Occupied(b, f)
    ensures StartCovered(b, lo, hi)
  {
    var f := FrameOf(lo);
    PageBaseFrame(lo);
    OverlapCases(lo, hi, f);
    if lo <= hi && lo % PAGE_SIZE != 0 {
      assert Occupied(b, f) && !ToFree(b, f);
    }
  }

  /**
   Pages in use are safe exactly if the counter reaches every module in time and whatever starts inside a
   page starts in one that is kept anyway. The scans look at first bytes only.
   */
  lemma SafeExactly(b: Boot)
    requires Ascending(b)
    ensures Safe(b) <==> ModsReached(b) && StartsCovered(b)
  {
    ScanExact(b);
    if ModsReached(b) && StartsCovered(b) {
      forall f: Frame | Occupied(b, f) ensures !ToFree(b, f) {
        OccupiedIsKept(b, f);
      }
    }
    if Safe(b) {
      SafeIsExhaustive(b);
      SafeStart(b, b.kernelStart, b.kernelEnd);
      SafeStart(b, b.info, InfoEnd(b));
      SafeStart(b, b.mmapAddr, Plus(b.mmapAddr, b.mmapLength));
      SafeStart(b, b.modsAddr, ModsEnd(b));
      forall k: nat | k < |b.mods| ensures StartCovered(b, b.mods[k].start, b.mods[k].end) {
        SafeStart(b, b.mods[k].start, b.mods[k].end);
      }
    }
  }

  /** Modules that start on page boundaries, lie wholly in pages the scan passes, and share no page. */
  ghost predicate WellPlaced(b: Boot) {
    && b.mods != []
    && (forall k: nat | k < |b.mods| :: b.mods[k].start % PAGE_SIZE == 0 && b.mods[k].start <= b.mods[k].end)
    && (forall j: nat, k: nat | j < k < |b.mods| :: b.mods[j].end < b.mods[k].start)
    && (forall k: nat, f: Frame | k < |b.mods| && InMod(b.mods[k], AddressOf(f)) :: Passed(b, AddressOf(f)))
  }

  /** For such modules the scan frees exactly what a check against all of them would free. */
  lemma WellPlacedIsExhaustive(b: Boot)
    requires WellPlaced(b)
    ensures Ascending(b) && Exhaustive(b)
    ensures forall k: nat | k < |b.mods| :: StartCovered(b, b.mods[k].start, b.mods[k].end)
  {
    forall k: nat | k < |b.mods| ensures Leaves(b, k) {
      var m := b.mods[k];
      PageBaseFrame(m.end);
      LastPageAligned(m);
      assert InMod(m, AddressOf(FrameOf(m.end))) by {
        if LastPage(m) < m.start {
          PageStep(m.start, LastPage(m));
        }
      }
      if k > 0 {
        LastPageAligned(b.mods[k - 1]);
      }
    }
    ScanExact(b);
  }

  /** A module that starts inside a page loses that page. */
  lemma UnalignedStartIsLost()
    ensures exists b: Boot :: RegionsOk(b) && Ascending(b) && ModsReached(b) && |b.mods| == 1
              && Overlaps(b.mods[0].start, b.mods[0].end, 0x200) && ToFree(b, 0x200)
  {
    var b := Boot(0x10_0000, 0x10_ffff, 0x9000, 0x8000, 24, 0xa000, [Mod(0x20_0800, 0x20_1fff)],
                  [Region(1, 0x10_0000, 0x20_0000)]);
    assert InRegion(b.regions[0], 0x20_0000);
  }

  /** With a page shared by two modules, a third one's memory can be given away. */
  lemma SharedPageExposesModule()
    ensures exists b: Boot :: RegionsOk(b) && Ascending(b) && |b.mods| == 3
              && InMod(b.mods[2], AddressOf(0x202)) && ToFree(b, 0x202)
  {
    var mods := [Mod(0x20_0000, 0x20_1000), Mod(0x20_1000, 0x20_1fff), Mod(0x20_2000, 0x20_2fff)];
    var b := Boot(0x10_0000, 0x10_ffff, 0x9000, 0x8000, 24, 0xa000, mods, [Region(1, 0x10_0000, 0x20_0000)]);
    assert InRegion(b.regions[0], AddressOf(0x202));
    assert !Leaves(b, 1);
    DueStops(b, 0, 1, AddressOf(0x202));
    assert Due(b, 0, AddressOf(0x202)) <= 1;
  }

  /** All free frames are ones that pmm_init has freed. */
  ghost predicate Booted(b: Boot, s: PmmState)
    requires b.mods != []
  {
    CacheAgrees(s) && forall g: Frame | g in s.free :: ToFree(b, g)
  }

  /** A frame that is not free after boot is never handed out, whatever happens, unless it is freed. */
  lemma KeptIsNeverAllocated(b: Boot, s: PmmState, ops: seq<Op>, f: Frame)
    requires b.mods != [] && Booted(b, s) && !ToFree(b, f)
    requires Runs(s, ops) && Free(f) !in ops && CanAlloc(Run(s, ops))
    ensures Pick(Run(s, ops)) != f
  {
    TakenStaysTaken(s, ops, f);
  }

  /** And so no frame any byte of which is in use at boot. */
  lemma InUseNeverAllocated(b: Boot, s: PmmState, ops: seq<Op>, f: Frame)
    requires Ascending(b) && ModsReached(b) && StartsCovered(b) && Booted(b, s)
    requires Occupied(b, f) && Runs(s, ops) && Free(f) !in ops && CanAlloc(Run(s, ops))
    ensures Pick(Run(s, ops)) != f
  {
    SafeExactly(b);
    KeptIsNeverAllocated(b, s, ops, f);
  }
}
