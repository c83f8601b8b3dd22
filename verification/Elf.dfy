/** The segment loop of the ELF loader, on top of the memory manager of the active context. */
module Elf {
  import opened Words
  import opened Pmm
  import opened Mmu
  import opened World
  import opened Mapping
  import opened Contexts
  import opened Allocation
  import opened Bytes
  import opened ElfImage
  import opened Windows
  import opened Vmm

  // ----- bytes in virtual memory -----

  /** The active context reads `b` at address `va`, from a frame that is neither free nor structural. */
  ghost predicate ByteAt(w: World, va: int, b: Byte) {
    && 0 <= va < 0x1_0000_0000
    && Translate(w, w.active, va / PAGE_SIZE).Some?
    && var f := Translate(w, w.active, va / PAGE_SIZE).value;
       f != 0 && IsPayload(w, f) && FrameByte(w.mem[f], va % PAGE_SIZE) == b
  }

  ghost predicate BytesAt(w: World, va: int, bytes: seq<Byte>) {
    forall k: nat | k < |bytes| :: ByteAt(w, va + k, bytes[k])
  }

  lemma SurvivesAlloc(w: World, p: Page, va: int, b: Byte)
    requires CanAllocAt(w, w.active, p) && ByteAt(w, va, b) && !IsNewWindow(w, p / 1024, va / PAGE_SIZE)
    ensures p != va / PAGE_SIZE || SaysMapped(Lookup(w, p))
    ensures Allocation.AllocAt(w, w.active, p).active == w.active
    ensures ByteAt(Allocation.AllocAt(w, w.active, p), va, b)
  {
    var q := va / PAGE_SIZE;
    var f := Translate(w, w.active, q).value;
    LookupAgrees(w, q);
    ClaimDataFacts(w);
    ClaimDataSlots(w, p / 1024);
    if !SaysMapped(Lookup(w, p)) {
      var u := ClaimData(w);
      MapTranslations(u, w.active, p, Pick(w.pm), w.active, q);
      MapHereSpares(u, p, Pick(w.pm), f);
      MapExtends(u, w.active, p, Pick(w.pm));
    }
  }

  lemma SurvivesFill(w: World, g: Frame, t: Table, va: int, b: Byte)
    requires Structured(w) && IsPayload(w, g) && ByteAt(w, va, b)
    requires Translate(w, w.active, va / PAGE_SIZE) != Some(g)
    ensures ByteAt(SetFrame(w, g, t), va, b)
  {
    SetFrameEffect(w, g, t);
  }

  // ----- one segment -----

  /** The page is allocated and the first bytes of its frame are written. */
  ghost function LoadOne(w: World, p: Page, bytes: seq<Byte>): World
    requires CanAllocAt(w, w.active, p) && |bytes| <= PAGE_SIZE
  {
    var v := Allocation.AllocAt(w, w.active, p);
    SetFrame(v, Pick(w.pm), PutBytes(v.mem[Pick(w.pm)], bytes))
  }

  /** The fresh page before the copy: mapped to a frame of zeros that nothing else uses. */
  lemma FreshPage(w: World, p: Page)
    requires CanAllocAt(w, w.active, p) && !SaysMapped(Lookup(w, p))
    ensures var v, f := Allocation.AllocAt(w, w.active, p), Pick(w.pm);
            && Inv(v) && v.active == w.active && v.cr3 == w.cr3
            && Translate(v, v.active, p) == Some(f) && f != 0
            && IsPayload(v, f) && Blank(v.mem[f]) && f in w.pm.free
  {
    Granted(w, w.active, p);
    ClaimDataFacts(w);
    assert Pick(w.pm) in w.pm.free;
    MapHereSpares(ClaimData(w), p, Pick(w.pm), Pick(w.pm));
  }

  lemma BlankBytes(t: Table, i: nat)
    requires Blank(t) && i < PAGE_SIZE
    ensures FrameByte(t, i) == 0
  {
    ZeroDigits(i % 4);
  }

  lemma {:induction false} ZeroDigits(k: nat)
    ensures Digit(0, k) == 0
  {
    if k > 0 {
      ZeroDigits(k - 1);
    }
  }

  lemma SegmentLoaded(w: World, p: Page, bytes: seq<Byte>, va: int, k: nat)
    requires CanAllocAt(w, w.active, p) && !SaysMapped(Lookup(w, p))
    requires |bytes| <= PAGE_SIZE
    requires va == AddressOf(p) && k < PAGE_SIZE
    ensures LoadOne(w, p, bytes).active == w.active
    ensures ByteAt(LoadOne(w, p, bytes), va + k, if k < |bytes| then bytes[k] else 0)
  {
    FreshPage(w, p);
    var v, f := Allocation.AllocAt(w, w.active, p), Pick(w.pm);
    SetFrameEffect(v, f, PutBytes(v.mem[f], bytes));
    PutBytesEffect(v.mem[f], bytes, k);
    BlankBytes(v.mem[f], k);
    assert (va + k) / PAGE_SIZE == p && (va + k) % PAGE_SIZE == k;
  }

  lemma OthersSurvive(w: World, p: Page, bytes: seq<Byte>, va: int, b: Byte)
    requires CanAllocAt(w, w.active, p) && !SaysMapped(Lookup(w, p))
    requires |bytes| <= PAGE_SIZE && ByteAt(w, va, b) && !IsNewWindow(w, p / 1024, va / PAGE_SIZE)
    ensures ByteAt(LoadOne(w, p, bytes), va, b)
  {
    FreshPage(w, p);
    SourceStays(w, p, va, b);
    var v, f := Allocation.AllocAt(w, w.active, p), Pick(w.pm);
    assert Elsewhere(v, f, va, 0);
    SurvivesFill(v, f, PutBytes(v.mem[f], bytes), va, b);
  }

  lemma SourceStays(w: World, p: Page, va: int, b: Byte)
    requires CanAllocAt(w, w.active, p) && !SaysMapped(Lookup(w, p))
    requires ByteAt(w, va, b) && !IsNewWindow(w, p / 1024, va / PAGE_SIZE)
    ensures ByteAt(Allocation.AllocAt(w, w.active, p), va, b)
    ensures Elsewhere(Allocation.AllocAt(w, w.active, p), Pick(w.pm), va, 0)
  {
    SurvivesAlloc(w, p, va, b);
    LoadKeepsPage(w, p, Allocation.AllocAt(w, w.active, p), va / PAGE_SIZE);
    assert Pick(w.pm) in w.pm.free;
  }

  // ----- all segments -----

  function PageOf(s: Segment): Page {
    FrameOf(s.vaddr)
  }

  /** What the format and the loader's one page per segment ask of a loadable segment. */
  ghost predicate WellSized(image: seq<Byte>, s: Segment) {
    s.filesz <= PAGE_SIZE && s.offset + s.filesz <= |image|
  }

  predicate IsLoadable(segs: seq<Segment>, i: nat) {
    i < |segs| && segs[i].kind == PT_LOAD
  }

  ghost predicate Elsewhere(w: World, f: Frame, src: int, k: nat) {
    0 <= src + k < 0x1_0000_0000 ==> Translate(w, w.active, (src + k) / PAGE_SIZE) != Some(f)
  }

  ghost predicate SegmentsFit(image: seq<Byte>, segs: seq<Segment>) {
    forall i: nat | IsLoadable(segs, i) :: WellSized(image, segs[i])
  }

  // Address 0 is special: vmm_alloc_at reports a refusal by returning it, so for a segment linked there
  // the loader cannot tell a refusal from success.

  predicate IsAtZero(segs: seq<Segment>, i: nat) {
    IsLoadable(segs, i) && segs[i].vaddr == 0
  }

  ghost predicate HasZero(segs: seq<Segment>) {
    exists i: nat :: IsAtZero(segs, i)
  }

  /** Page 0 is taken, as vmm_alloc_at sees it. */
  ghost predicate ZeroTaken(w: World) {
    SaysMapped(Lookup(w, 0))
  }

  /** If page 0 is taken then by somebody's data, and not by the file. */
  ghost predicate ZeroReady(w: World, file: int, image: seq<Byte>) {
    ZeroTaken(w) ==>
      && Translate(w, w.active, 0).Some?
      && IsPayload(w, Translate(w, w.active, 0).value)
      && (forall k: nat | k < |image| :: Elsewhere(w, Translate(w, w.active, 0).value, file, k))
  }

  /** The page does not show the frame that page 0 shows. */
  ghost predicate ApartFromZero(w: World, q: Page) {
    q != 0 && Translate(w, w.active, q) != Translate(w, w.active, 0)
  }

  // A segment may be linked to the window of an absent slot, as long as that page is not mapped; a later
  // segment that needs the slot's table then takes the page away.

  /** Loading the segment creates a table whose window is page `q`. */
  ghost predicate TakesWindow(w: World, s: Segment, q: Page) {
    IsNewWindow(w, PageOf(s) / 1024, q)
  }

  /** One of the segments from `i` up to `n` takes page `q` for a window. */
  ghost predicate Displaced(w: World, segs: seq<Segment>, i: nat, n: nat, q: Page) {
    exists k: nat :: i <= k < n && IsLoadable(segs, k) && TakesWindow(w, segs[k], q)
  }

  ghost predicate Spared(w: World, p: Page, file: int, k: nat) {
    0 <= file + k < 0x1_0000_0000 ==> !IsNewWindow(w, p / 1024, (file + k) / PAGE_SIZE)
  }

  /** The file is not in a window that mapping page `p` would take. */
  ghost predicate FileSpared(w: World, file: int, image: seq<Byte>, p: Page) {
    forall k: nat | k < |image| :: Spared(w, p, file, k)
  }

  /** The state before segment `i`: file readable, room for the remaining segments. */
  ghost predicate Loading(w: World, file: int, image: seq<Byte>, segs: seq<Segment>, i: nat) {
    && Inv(w) && SegmentsFit(image, segs) && i <= |segs|
    && BytesAt(w, file, image)
    && Enough(w.pm, 3 * (|segs| - i))
    && (forall j: nat | i <= j && IsLoadable(segs, j) ::
          Mappable(w, w.active, PageOf(segs[j])) && FileSpared(w, file, image, PageOf(segs[j])))
    && (HasZero(segs) ==> ZeroReady(w, file, image))
  }

  /** The segment's page reads as the file's bytes followed by zeros. */
  ghost predicate InPlace(w: World, image: seq<Byte>, s: Segment) {
    WellSized(image, s) && BytesAt(w, AddressOf(PageOf(s)), Content(image, s))
  }

  /** The page is the window of a present slot and shows its table. */
  ghost predicate ShowsTable(w: World, q: Page) {
    && TABLE_WINDOWS <= q < TABLE_WINDOWS + 1024 && Present(Slot(w, w.active, q - TABLE_WINDOWS))
    && Translate(w, w.active, q) == Some(TableOf(w, w.active, q - TABLE_WINDOWS))
  }

  /**
   Segment `j` before segment `n`, loading having begun in `w0`: a table is in its page if a segment in
   between has taken it for a window; otherwise it is in place, and out of reach of one linked to 0.
   */
  ghost predicate Placed(w0: World, w: World, image: seq<Byte>, segs: seq<Segment>, j: nat, n: nat)
    requires IsLoadable(segs, j)
  {
    if Displaced(w0, segs, j + 1, n, PageOf(segs[j])) then ShowsTable(w, PageOf(segs[j]))
    else InPlace(w, image, segs[j]) && (HasZero(segs) ==> ApartFromZero(w, PageOf(segs[j])))
  }

  ghost predicate OthersPlaced(w0: World, w: World, image: seq<Byte>, segs: seq<Segment>, n: nat)
  {
    forall j: nat | j < n && IsLoadable(segs, j) && segs[j].vaddr != 0 :: Placed(w0, w, image, segs, j, n)
  }

  // When the loader panics.

  ghost predicate Occupies(w: World, s: Segment, q: Page) {
    PageOf(s) == q || TakesWindow(w, s, q)
  }

  /** The page is mapped at the start, or made mapped by a segment before segment `i`. */
  ghost predicate Occupied(w: World, segs: seq<Segment>, i: nat, q: Page) {
    SaysMapped(Lookup(w, q)) || exists k: nat :: k < i && IsLoadable(segs, k) && Occupies(w, segs[k], q)
  }

  /** Loadable segment `i` is unaligned, or linked to an occupied page other than page 0. */
  ghost predicate Blocked(w: World, segs: seq<Segment>, i: nat) {
    && IsLoadable(segs, i)
    && (segs[i].vaddr != AddressOf(PageOf(segs[i])) ||
        (segs[i].vaddr != 0 && Occupied(w, segs, i, PageOf(segs[i]))))
  }

  ghost predicate Panics(w: World, segs: seq<Segment>) {
    exists i: nat :: Blocked(w, segs, i)
  }

  /** Present slots stay present. */
  ghost predicate Grown(w: World, v: World) {
    && v.active == w.active
    && (forall j: nat | j < 1024 && Present(Slot(w, w.active, j)) :: Present(Slot(v, v.active, j)))
  }

  /** The pages mapped before segment `i` are those that are said to be. */
  ghost predicate Tracked(w0: World, w: World, segs: seq<Segment>, i: nat) {
    && Grown(w0, w)
    && (forall q: Page :: SaysMapped(Lookup(w, q)) <==> Occupied(w0, segs, i, q))
  }

  lemma CanLoad(w: World, file: int, image: seq<Byte>, segs: seq<Segment>, i: nat)
    requires Loading(w, file, image, segs, i) && IsLoadable(segs, i)
    ensures CanAllocAt(w, w.active, PageOf(segs[i]))
  {
    EnoughToAlloc(w.pm, 3 * (|segs| - i));
    ClaimDataFacts(w);
  }

  lemma ResourcesLeft(w: World, p: Page, bytes: seq<Byte>, n: nat)
    requires CanAllocAt(w, w.active, p) && !SaysMapped(Lookup(w, p)) && |bytes| <= PAGE_SIZE
    requires Enough(w.pm, n + 3)
    ensures var v := LoadOne(w, p, bytes);
            Inv(v) && Enough(v.pm, n) && v.active == w.active
  {
    FreshPage(w, p);
    var u, v, f := ClaimData(w), Allocation.AllocAt(w, w.active, p), Pick(w.pm);
    ClaimDataFacts(w);
    MapHereExtends(u, p, f);
    SetFrameKeepsInv(v, f, PutBytes(v.mem[f], bytes));
  }

  lemma LoadKeepsMappable(w: World, p: Page, bytes: seq<Byte>, q: Page)
    requires CanAllocAt(w, w.active, p) && !SaysMapped(Lookup(w, p)) && |bytes| <= PAGE_SIZE
    requires Mappable(w, w.active, q)
    ensures Mappable(LoadOne(w, p, bytes), w.active, q)
  {
    FreshPage(w, p);
    var u, v, f := ClaimData(w), Allocation.AllocAt(w, w.active, p), Pick(w.pm);
    ClaimDataFacts(w);
    MapHereExtends(u, p, f);
    SetFrameEffect(v, f, PutBytes(v.mem[f], bytes));
    if Present(Slot(w, w.active, q / 1024)) {
      assert Slot(u, w.active, q / 1024) == Slot(w, w.active, q / 1024);
      StaysPresent(u, v, q / 1024);
      assert Slot(LoadOne(w, p, bytes), w.active, q / 1024) == Slot(v, w.active, q / 1024);
    }
  }

  lemma LoadGrows(w: World, p: Page, bytes: seq<Byte>, v: World)
    requires CanAllocAt(w, w.active, p) && !SaysMapped(Lookup(w, p)) && |bytes| <= PAGE_SIZE
    requires v == LoadOne(w, p, bytes)
    ensures Grown(w, v) && Present(Slot(v, v.active, p / 1024))
  {
    FreshPage(w, p);
    var u, x, f := ClaimData(w), Allocation.AllocAt(w, w.active, p), Pick(w.pm);
    ClaimDataFacts(w);
    MapHereExtends(u, p, f);
    SetFrameEffect(x, f, PutBytes(x.mem[f], bytes));
    forall j: nat | j < 1024
      ensures Slot(v, v.active, j) == Slot(x, x.active, j)
      ensures Present(Slot(w, w.active, j)) ==> Present(Slot(x, x.active, j))
    {
      assert Slot(u, w.active, j) == Slot(w, w.active, j);
    }
  }

  lemma LoadKeepsEntry(w: World, p: Page, bytes: seq<Byte>, q: Page)
    requires CanAllocAt(w, w.active, p) && !SaysMapped(Lookup(w, p)) && |bytes| <= PAGE_SIZE
    requires q != p && !IsNewWindow(w, p / 1024, q)
    ensures EntryOf(LoadOne(w, p, bytes), w.active, q) == EntryOf(w, w.active, q)
  {
    FreshPage(w, p);
    var v, f := Allocation.AllocAt(w, w.active, p), Pick(w.pm);
    GrantKeepsEntry(w, p, q);
    FillKeepsEntry(v, f, PutBytes(v.mem[f], bytes), q);
  }

  lemma FillKeepsEntry(v: World, g: Frame, t: Table, q: Page)
    requires Structured(v) && IsPayload(v, g)
    ensures EntryOf(SetFrame(v, g, t), v.active, q) == EntryOf(v, v.active, q)
  {
    SetFrameEffect(v, g, t);
    assert ContextOk(v, v.active);
    assert Slot(SetFrame(v, g, t), v.active, q / 1024) == Slot(v, v.active, q / 1024);
    if Present(Slot(v, v.active, q / 1024)) {
      assert HasRole(v, TableOf(v, v.active, q / 1024), TableRole(v.active, q / 1024));
    }
  }

  // What one load does, as relations between the states before and after.

  /** Every byte that could be read can still be read, except in the windows of new tables. */
  ghost predicate Survives(w: World, v: World, p: Page) {
    forall va: int, b: Byte | ByteAt(w, va, b) && !IsNewWindow(w, p / 1024, va / PAGE_SIZE) :: ByteAt(v, va, b)
  }

  ghost predicate PageFilled(v: World, p: Page, bytes: seq<Byte>)
    requires |bytes| <= PAGE_SIZE
  {
    forall k: nat | k < PAGE_SIZE :: FilledAt(v, p, bytes, k)
  }

  ghost predicate FilledAt(v: World, p: Page, bytes: seq<Byte>, k: nat) {
    ByteAt(v, AddressOf(p) + k, if k < |bytes| then bytes[k] else 0)
  }

  ghost predicate OnlyPageChanged(w: World, v: World, p: Page) {
    && v.active == w.active
    && (forall q: Page | Mappable(w, w.active, q) :: Mappable(v, v.active, q))
    && (forall q: Page | q != p && !IsNewWindow(w, p / 1024, q) :: EntryOf(v, v.active, q) == EntryOf(w, w.active, q))
  }

  lemma LoadSpares(w: World, p: Page, bytes: seq<Byte>, v: World)
    requires CanAllocAt(w, w.active, p) && !SaysMapped(Lookup(w, p))
    requires |bytes| <= PAGE_SIZE
    requires v == LoadOne(w, p, bytes)
    ensures Survives(w, v, p)
  {
    forall va: int, b: Byte | ByteAt(w, va, b) && !IsNewWindow(w, p / 1024, va / PAGE_SIZE) ensures ByteAt(v, va, b) {
      OthersSurvive(w, p, bytes, va, b);
    }
  }

  lemma LoadFills(w: World, p: Page, bytes: seq<Byte>, v: World)
    requires CanAllocAt(w, w.active, p) && !SaysMapped(Lookup(w, p))
    requires |bytes| <= PAGE_SIZE
    requires v == LoadOne(w, p, bytes)
    ensures PageFilled(v, p, bytes)
  {
    forall k: nat | k < PAGE_SIZE ensures FilledAt(v, p, bytes, k) {
      SegmentLoaded(w, p, bytes, AddressOf(p), k);
    }
  }

  lemma LoadChangesOnly(w: World, p: Page, bytes: seq<Byte>, v: World)
    requires CanAllocAt(w, w.active, p) && !SaysMapped(Lookup(w, p))
    requires |bytes| <= PAGE_SIZE
    requires v == LoadOne(w, p, bytes)
    ensures OnlyPageChanged(w, v, p)
  {
    SegmentLoaded(w, p, bytes, AddressOf(p), 0);
    forall q: Page | Mappable(w, w.active, q) ensures Mappable(v, v.active, q) {
      LoadKeepsMappable(w, p, bytes, q);
    }
    forall q: Page | q != p && !IsNewWindow(w, p / 1024, q) ensures EntryOf(v, v.active, q) == EntryOf(w, w.active, q) {
      LoadKeepsEntry(w, p, bytes, q);
    }
  }

  lemma BytesSurvive(w: World, v: World, p: Page, file: int, image: seq<Byte>)
    requires Survives(w, v, p) && BytesAt(w, file, image) && FileSpared(w, file, image, p)
    ensures BytesAt(v, file, image)
  {
    forall k: nat | k < |image| ensures ByteAt(v, file + k, image[k]) {
      assert ByteAt(w, file + k, image[k]) && Spared(w, p, file, k);
    }
  }

  lemma PageSurvives(w: World, v: World, p: Page, q: Page, c: seq<Byte>)
    requires Survives(w, v, p) && |c| <= PAGE_SIZE && !IsNewWindow(w, p / 1024, q)
    requires BytesAt(w, AddressOf(q), c)
    ensures BytesAt(v, AddressOf(q), c)
  {
    var va := AddressOf(q);
    forall k: nat | k < |c| ensures ByteAt(v, va + k, c[k]) {
      assert ByteAt(w, va + k, c[k]) == true && (va + k) / PAGE_SIZE == q;
    }
  }

  lemma FilledInPlace(v: World, image: seq<Byte>, s: Segment)
    requires WellSized(image, s) && PageFilled(v, PageOf(s), image[s.offset..s.offset + s.filesz])
    ensures InPlace(v, image, s)
  {
    var c, va := Content(image, s), AddressOf(PageOf(s));
    forall k: nat | k < |c| ensures ByteAt(v, va + k, c[k]) {
      assert FilledAt(v, PageOf(s), image[s.offset..s.offset + s.filesz], k);
      ContentAt(image, s, k);
    }
  }

  /** The page has got a new frame; other pages keep theirs, and payload stays payload. */
  ghost predicate FreshlyMapped(w: World, v: World, p: Page) {
    && v.active == w.active
    && Translate(v, v.active, p).Some?
    && Translate(v, v.active, p).value != 0 && Translate(v, v.active, p).value in w.pm.free
    && IsPayload(v, Translate(v, v.active, p).value)
    && (forall q: Page | q != p && !IsNewWindow(w, p / 1024, q) ::
          Translate(v, v.active, q) == Translate(w, w.active, q))
    && (forall g: Frame | IsPayload(w, g) :: IsPayload(v, g))
  }

  lemma LoadMaps(w: World, p: Page, bytes: seq<Byte>, v: World)
    requires CanAllocAt(w, w.active, p) && !SaysMapped(Lookup(w, p))
    requires |bytes| <= PAGE_SIZE
    requires v == LoadOne(w, p, bytes)
    ensures FreshlyMapped(w, v, p)
  {
    FreshPage(w, p);
    var u, f := Allocation.AllocAt(w, w.active, p), Pick(w.pm);
    SetFrameEffect(u, f, PutBytes(u.mem[f], bytes));
    forall q: Page | q != p && !IsNewWindow(w, p / 1024, q)
      ensures Translate(v, v.active, q) == Translate(w, w.active, q)
    {
      LoadKeepsPage(w, p, u, q);
    }
    forall g: Frame | IsPayload(w, g) ensures IsPayload(v, g) {
      AllocKeepsPayload(w, p, u, g);
    }
  }

  lemma LoadKeepsPage(w: World, p: Page, u: World, q: Page)
    requires CanAllocAt(w, w.active, p) && !SaysMapped(Lookup(w, p)) && u == Allocation.AllocAt(w, w.active, p)
    requires q != p && !IsNewWindow(w, p / 1024, q)
    ensures IsContext(u, w.active) && Translate(u, w.active, q) == Translate(w, w.active, q)
  {
    ClaimDataFacts(w);
    ClaimDataSlots(w, p / 1024);
    MapExtends(ClaimData(w), w.active, p, Pick(w.pm));
    MapTranslations(ClaimData(w), w.active, p, Pick(w.pm), w.active, q);
  }

  lemma AllocKeepsPayload(w: World, p: Page, u: World, g: Frame)
    requires CanAllocAt(w, w.active, p) && !SaysMapped(Lookup(w, p)) && u == Allocation.AllocAt(w, w.active, p)
    requires IsPayload(w, g)
    ensures IsPayload(u, g)
  {
    ClaimDataFacts(w);
    MapHereSpares(ClaimData(w), p, Pick(w.pm), g);
  }

  /** The relations that lead from the state before segment `i` to the one after it. */
  ghost predicate NthLoaded(w: World, v: World, image: seq<Byte>, segs: seq<Segment>, i: nat)
    requires SegmentsFit(image, segs) && IsLoadable(segs, i)
  {
    var s := segs[i];
    && !SaysMapped(Lookup(w, PageOf(s)))
    && Survives(w, v, PageOf(s)) && OnlyPageChanged(w, v, PageOf(s)) && FreshlyMapped(w, v, PageOf(s))
    && Grown(w, v) && Present(Slot(v, v.active, PageOf(s) / 1024))
    && PageFilled(v, PageOf(s), image[s.offset..s.offset + s.filesz])
    && Inv(v) && Enough(v.pm, 3 * (|segs| - i - 1))
  }

  lemma LoadNth(w: World, v: World, file: int, image: seq<Byte>, segs: seq<Segment>, i: nat)
    requires Loading(w, file, image, segs, i) && IsLoadable(segs, i)
    requires !SaysMapped(Lookup(w, PageOf(segs[i])))
    requires CanAllocAt(w, w.active, PageOf(segs[i]))
    requires var s := segs[i];
             v == LoadOne(w, PageOf(s), image[s.offset..s.offset + s.filesz])
    ensures NthLoaded(w, v, image, segs, i)
  {
    var s := segs[i];
    var bytes := image[s.offset..s.offset + s.filesz];
    ResourcesLeft(w, PageOf(s), bytes, 3 * (|segs| - i - 1));
    LoadSpares(w, PageOf(s), bytes, v);
    LoadFills(w, PageOf(s), bytes, v);
    LoadChangesOnly(w, PageOf(s), bytes, v);
    LoadMaps(w, PageOf(s), bytes, v);
    LoadGrows(w, PageOf(s), bytes, v);
  }

  lemma GrownWindows(w: World, v: World, i: nat, q: Page)
    requires Grown(w, v) && i < 1024
    ensures IsNewWindow(v, i, q) ==> IsNewWindow(w, i, q)
  {
  }

  /** A table that was missing and is there has its window. */
  lemma Opened(w: World, v: World, p: Page, q: Page)
    requires Inv(v) && Present(Slot(v, v.active, p / 1024)) && IsNewWindow(w, p / 1024, q)
    ensures ShowsTable(v, q) && SaysMapped(Lookup(v, q))
  {
    var i := p / 1024;
    if i >= 1022 {
      assert TableWindowOk(v, i) && TableWindow(i) / 1024 == 2;
    }
    WindowShowsTable(v, q);
  }

  lemma WindowShowsTable(v: World, q: Page)
    requires Inv(v) && TABLE_WINDOWS <= q && !Spare(v, q)
    ensures ShowsTable(v, q) && SaysMapped(Lookup(v, q))
  {
    assert TableWindowOk(v, q - TABLE_WINDOWS);
    if !SaysMapped(Lookup(v, q)) {
      UnmappedIsSpare(v, q);
    }
  }

  lemma TableStays(w: World, v: World, q: Page)
    requires ShowsTable(w, q) && Grown(w, v) && Inv(v)
    ensures ShowsTable(v, q)
  {
    WindowShowsTable(v, q);
  }

  /** Loading a segment leaves the earlier segments as they were, if it does not take their pages. */
  lemma EarlierStay(w: World, v: World, image: seq<Byte>, segs: seq<Segment>, i: nat, s: Segment)
    requires SegmentsFit(image, segs) && IsLoadable(segs, i) && NthLoaded(w, v, image, segs, i)
    requires InPlace(w, image, s) && !TakesWindow(w, segs[i], PageOf(s))
    ensures InPlace(v, image, s)
  {
    PageSurvives(w, v, PageOf(segs[i]), PageOf(s), Content(image, s));
  }

  // ----- which pages are mapped -----

  lemma OccupiedNext(w: World, segs: seq<Segment>, i: nat, q: Page)
    ensures Occupied(w, segs, i + 1, q) <==>
            Occupied(w, segs, i, q) || (IsLoadable(segs, i) && Occupies(w, segs[i], q))
  {
    if exists k: nat :: k < i && IsLoadable(segs, k) && Occupies(w, segs[k], q) {
      var k: nat :| k < i && IsLoadable(segs, k) && Occupies(w, segs[k], q);
      assert k < i + 1 && IsLoadable(segs, k) && Occupies(w, segs[k], q);
    }
  }

  lemma TrackLoad(w0: World, w: World, v: World, image: seq<Byte>, segs: seq<Segment>, i: nat)
    requires SegmentsFit(image, segs) && IsLoadable(segs, i) && NthLoaded(w, v, image, segs, i)
    requires Tracked(w0, w, segs, i)
    ensures Tracked(w0, v, segs, i + 1)
  {
    var p := PageOf(segs[i]);
    forall q: Page ensures SaysMapped(Lookup(v, q)) <==> Occupied(w0, segs, i + 1, q) {
      OccupiedNext(w0, segs, i, q);
      if q == p {
        LookupAgrees(v, p);
      } else if TakesWindow(w0, segs[i], q) {
        Opened(w0, v, p, q);
      } else {
        GrownWindows(w0, w, p / 1024, q);
        LookupReadsEntry(w, q);
        LookupReadsEntry(v, q);
      }
    }
  }

  lemma TrackStart(w: World, segs: seq<Segment>)
    ensures Tracked(w, w, segs, 0)
  {
  }

  lemma TrackSkip(w0: World, w: World, segs: seq<Segment>, i: nat)
    requires Tracked(w0, w, segs, i) && !IsLoadable(segs, i)
    ensures Tracked(w0, w, segs, i + 1)
  {
    forall q: Page ensures SaysMapped(Lookup(w, q)) <==> Occupied(w0, segs, i + 1, q) {
      OccupiedNext(w0, segs, i, q);
    }
  }

  lemma TrackOverwrite(w0: World, w: World, v: World, segs: seq<Segment>, i: nat)
    requires Tracked(w0, w, segs, i) && IsAtZero(segs, i) && ZeroTaken(w) && Inv(w) && SameMappings(w, v)
    ensures Tracked(w0, v, segs, i + 1)
  {
    forall q: Page ensures SaysMapped(Lookup(v, q)) <==> Occupied(w0, segs, i + 1, q) {
      OccupiedNext(w0, segs, i, q);
      LookupReadsEntry(w, q);
      LookupReadsEntry(v, q);
      if TakesWindow(w0, segs[i], q) {
        Opened(w0, w, 0, q);
      }
    }
  }

  // ----- where the earlier segments are -----

  lemma DisplacedNext(w: World, segs: seq<Segment>, j: nat, i: nat, q: Page)
    requires j < i
    ensures Displaced(w, segs, j + 1, i + 1, q) <==>
            Displaced(w, segs, j + 1, i, q) || (IsLoadable(segs, i) && TakesWindow(w, segs[i], q))
  {
    if Displaced(w, segs, j + 1, i, q) {
      var k: nat :| j + 1 <= k < i && IsLoadable(segs, k) && TakesWindow(w, segs[k], q);
      assert k < i + 1 && IsLoadable(segs, k) && TakesWindow(w, segs[k], q);
    }
  }

  // ----- page 0 -----

  lemma LookupReadsEntry(w: World, p: Page)
    ensures SaysMapped(Lookup(w, p)) <==> FrameOf(EntryOf(w, w.active, p)) != 0
  {
    var e := EntryOf(w, w.active, p);
    assert PageBase(e) == AddressOf(FrameOf(e)) && PageBase(e) != NO_TABLE;
  }

  /** A page with readable bytes counts as mapped. */
  lemma ReadableIsMapped(w: World, va: int, b: Byte)
    requires ByteAt(w, va, b)
    ensures SaysMapped(Lookup(w, va / PAGE_SIZE))
  {
    LookupAgrees(w, va / PAGE_SIZE);
  }

  lemma ZeroReadyStays(w: World, v: World, p: Page, file: int, image: seq<Byte>)
    requires FreshlyMapped(w, v, p) && OnlyPageChanged(w, v, p) && !SaysMapped(Lookup(w, p))
    requires BytesAt(w, file, image) && FileSpared(w, file, image, p) && ZeroReady(w, file, image)
    ensures ZeroReady(v, file, image)
  {
    LookupReadsEntry(w, 0);
    LookupReadsEntry(v, 0);
    assert !IsNewWindow(w, p / 1024, 0);
    if ZeroTaken(v) {
      var g := Translate(v, v.active, 0).value;
      forall k: nat | k < |image| ensures Elsewhere(v, g, file, k) {
        assert ByteAt(w, file + k, image[k]);
        ReadableIsMapped(w, file + k, image[k]);
        assert Spared(w, p, file, k);
        assert Elsewhere(w, if p == 0 then 0 else g, file, k) || p == 0;
      }
    }
  }

  lemma ApartStays(w: World, v: World, p: Page, q: Page)
    requires FreshlyMapped(w, v, p) && p != q && !IsNewWindow(w, p / 1024, q)
    requires Translate(w, w.active, q).Some? && IsPayload(w, Translate(w, w.active, q).value)
    requires ApartFromZero(w, q)
    ensures ApartFromZero(v, q)
  {
    assert !IsNewWindow(w, p / 1024, 0);
  }

  lemma ApartAtFirst(w: World, v: World, p: Page, file: int, image: seq<Byte>)
    requires FreshlyMapped(w, v, p) && p != 0 && ZeroReady(w, file, image)
    ensures ApartFromZero(v, p)
  {
    assert !IsNewWindow(w, p / 1024, 0);
    LookupAgrees(w, 0);
  }

  lemma PlacedStays(w0: World, w: World, v: World, image: seq<Byte>, segs: seq<Segment>, i: nat, j: nat)
    requires SegmentsFit(image, segs) && IsLoadable(segs, i) && NthLoaded(w, v, image, segs, i) && Grown(w0, w)
    requires j < i && IsLoadable(segs, j) && Placed(w0, w, image, segs, j, i)
    ensures Placed(w0, v, image, segs, j, i + 1)
  {
    var q := PageOf(segs[j]);
    DisplacedNext(w0, segs, j, i, q);
    if TakesWindow(w0, segs[i], q) {
      Opened(w0, v, PageOf(segs[i]), q);
    } else if Displaced(w0, segs, j + 1, i, q) {
      TableStays(w, v, q);
    } else {
      GrownWindows(w0, w, PageOf(segs[i]) / 1024, q);
      EarlierStay(w, v, image, segs, i, segs[j]);
      PlacedPage(w, image, segs[j]);
      if HasZero(segs) {
        ApartStays(w, v, PageOf(segs[i]), q);
      }
    }
  }

  lemma NewestPlaced(w0: World, w: World, v: World, file: int, image: seq<Byte>, segs: seq<Segment>, i: nat)
    requires SegmentsFit(image, segs) && IsLoadable(segs, i) && NthLoaded(w, v, image, segs, i)
    requires HasZero(segs) ==> ZeroReady(w, file, image)
    requires PageOf(segs[i]) != 0
    ensures Placed(w0, v, image, segs, i, i + 1)
  {
    FilledInPlace(v, image, segs[i]);
    if HasZero(segs) {
      ApartAtFirst(w, v, PageOf(segs[i]), file, image);
    }
  }

  lemma OthersStay(w0: World, w: World, v: World, file: int, image: seq<Byte>, segs: seq<Segment>, i: nat)
    requires SegmentsFit(image, segs) && IsLoadable(segs, i) && OthersPlaced(w0, w, image, segs, i) && Grown(w0, w)
    requires HasZero(segs) ==> ZeroReady(w, file, image)
    requires NthLoaded(w, v, image, segs, i) && segs[i].vaddr == AddressOf(PageOf(segs[i]))
    ensures OthersPlaced(w0, v, image, segs, i + 1)
  {
    forall j: nat | j < i + 1 && IsLoadable(segs, j) && segs[j].vaddr != 0
      ensures Placed(w0, v, image, segs, j, i + 1)
    {
      if j == i {
        NewestPlaced(w0, w, v, file, image, segs, i);
      } else {
        PlacedStays(w0, w, v, image, segs, i, j);
      }
    }
  }

  lemma PlacedPage(w: World, image: seq<Byte>, s: Segment)
    requires InPlace(w, image, s)
    ensures var q := PageOf(s);
            && Translate(w, w.active, q).Some? && IsPayload(w, Translate(w, w.active, q).value)
            && SaysMapped(Lookup(w, q))
  {
    var va, c := AddressOf(PageOf(s)), Content(image, s);
    assert ByteAt(w, va + 0, c[0]);
    ReadableIsMapped(w, va, c[0]);
  }

  lemma FileStaysSpared(w: World, v: World, file: int, image: seq<Byte>, p: Page)
    requires Grown(w, v) && FileSpared(w, file, image, p)
    ensures FileSpared(v, file, image, p)
  {
    forall k: nat | k < |image| ensures Spared(v, p, file, k) {
      assert Spared(w, p, file, k);
      if 0 <= file + k < 0x1_0000_0000 {
        GrownWindows(w, v, p / 1024, (file + k) / PAGE_SIZE);
      }
    }
  }

  lemma StillLoading(w: World, v: World, file: int, image: seq<Byte>, segs: seq<Segment>, i: nat)
    requires Loading(w, file, image, segs, i) && IsLoadable(segs, i) && NthLoaded(w, v, image, segs, i)
    ensures Loading(v, file, image, segs, i + 1)
  {
    BytesSurvive(w, v, PageOf(segs[i]), file, image);
    if HasZero(segs) {
      ZeroReadyStays(w, v, PageOf(segs[i]), file, image);
    }
    forall j: nat | i + 1 <= j && IsLoadable(segs, j) ensures FileSpared(v, file, image, PageOf(segs[j])) {
      FileStaysSpared(w, v, file, image, PageOf(segs[j]));
    }
  }

  // What page 0 holds in the course of loading.

  function Over(z: seq<Byte>, bytes: seq<Byte>): (c: seq<Byte>)
    requires |bytes| <= |z|
    ensures |c| == |z|
  {
    bytes + z[|bytes|..]
  }

  ghost predicate IsPage(z: Option<seq<Byte>>) {
    z.Some? ==> |z.value| == PAGE_SIZE
  }

  /** Every segment linked to address 0 is written over what page 0 holds, or over zeros if it is not taken. */
  ghost function ZeroAfter(image: seq<Byte>, segs: seq<Segment>, n: nat, start: Option<seq<Byte>>)
    : (z: Option<seq<Byte>>)
    requires SegmentsFit(image, segs) && n <= |segs| && IsPage(start)
    ensures IsPage(z)
  {
    if n == 0 then start
    else
      var before := ZeroAfter(image, segs, n - 1, start);
      if IsAtZero(segs, n - 1)
      then Some(Over(if before.Some? then before.value else seq(PAGE_SIZE, _ => 0), BytesOf(image, segs, n - 1)))
      else before
  }

  ghost function BytesOf(image: seq<Byte>, segs: seq<Segment>, i: nat): (bytes: seq<Byte>)
    requires SegmentsFit(image, segs) && IsLoadable(segs, i)
    ensures |bytes| <= PAGE_SIZE
  {
    image[segs[i].offset..segs[i].offset + segs[i].filesz]
  }

  ghost predicate ZeroHolds(w: World, z: Option<seq<Byte>>)
    requires IsPage(z)
  {
    if z.None? then !ZeroTaken(w)
    else ZeroTaken(w) && forall k: nat | k < PAGE_SIZE :: ByteAt(w, k, z.value[k])
  }

  ghost function ZeroStart(w: World): (z: Option<seq<Byte>>)
    ensures IsPage(z)
  {
    if ZeroTaken(w) && Translate(w, w.active, 0).Some?
    then Some(seq(PAGE_SIZE, k requires 0 <= k < PAGE_SIZE => FrameByte(w.mem[Translate(w, w.active, 0).value], k)))
    else None
  }

  lemma ZeroAtStart(w: World, file: int, image: seq<Byte>)
    requires ZeroReady(w, file, image)
    ensures ZeroHolds(w, ZeroStart(w))
  {
    LookupAgrees(w, 0);
  }

  lemma ZeroKept(w: World, v: World, image: seq<Byte>, segs: seq<Segment>, i: nat, z: Option<seq<Byte>>)
    requires SegmentsFit(image, segs) && IsLoadable(segs, i) && NthLoaded(w, v, image, segs, i)
    requires PageOf(segs[i]) != 0 && IsPage(z) && ZeroHolds(w, z)
    ensures ZeroHolds(v, z)
  {
    LookupReadsEntry(w, 0);
    LookupReadsEntry(v, 0);
    assert !IsNewWindow(w, PageOf(segs[i]) / 1024, 0);
  }

  lemma ZeroFilled(w: World, v: World, image: seq<Byte>, segs: seq<Segment>, i: nat, z: Option<seq<Byte>>)
    requires SegmentsFit(image, segs) && IsAtZero(segs, i) && NthLoaded(w, v, image, segs, i)
    requires IsPage(z) && ZeroHolds(w, z)
    ensures z.None? && ZeroHolds(v, Some(Over(seq(PAGE_SIZE, _ => 0), BytesOf(image, segs, i))))
  {
    var bytes := BytesOf(image, segs, i);
    var c := Over(seq(PAGE_SIZE, _ => 0), bytes);
    forall k: nat | k < PAGE_SIZE ensures ByteAt(v, k, c[k]) {
      assert FilledAt(v, 0, bytes, k);
    }
    ReadableIsMapped(v, 0, c[0]);
  }

  /** A segment linked to an address 0 that is taken: the refusal goes unnoticed, a frame is lost. */
  ghost function Overwritten(w: World, bytes: seq<Byte>): World
    requires CanAlloc(w.pm) && |bytes| <= PAGE_SIZE && Translate(w, w.active, 0).Some?
  {
    var v, g := ClaimData(w), Translate(w, w.active, 0).value;
    SetFrame(v, g, PutBytes(v.mem[g], bytes))
  }

  ghost predicate SameMappings(w: World, v: World) {
    && v.active == w.active
    && (forall q: Page :: Translate(v, v.active, q) == Translate(w, w.active, q))
    && (forall q: Page :: EntryOf(v, v.active, q) == EntryOf(w, w.active, q))
    && (forall j: nat | j < 1024 :: Slot(v, v.active, j) == Slot(w, w.active, j))
    && (forall q: Page | Mappable(w, w.active, q) :: Mappable(v, v.active, q))
    && (forall g: Frame | IsPayload(w, g) :: IsPayload(v, g))
  }

  /** Translations, entries and payload frames stay, and so does every byte that page 0 does not show. */
  ghost predicate OnlyZeroChanged(w: World, v: World) {
    && SameMappings(w, v)
    && (forall va: int, b: Byte | ByteAt(w, va, b) && ApartFromZero(w, va / PAGE_SIZE) :: ByteAt(v, va, b))
  }

  /** The same for any frame with data. */
  lemma FillFacts(u: World, g: Frame, t: Table)
    requires Inv(u) && IsPayload(u, g)
    ensures var v := SetFrame(u, g, t);
            && Inv(v) && v.active == u.active && v.pm == u.pm && v.roles == u.roles
            && (forall q: Page :: Translate(v, v.active, q) == Translate(u, u.active, q))
            && (forall q: Page :: EntryOf(v, v.active, q) == EntryOf(u, u.active, q))
            && (forall j: nat | j < 1024 :: Slot(v, v.active, j) == Slot(u, u.active, j))
            && (forall c: Frame :: IsContext(v, c) <==> IsContext(u, c))
  {
    SetFrameKeepsInv(u, g, t);
    SetFrameEffect(u, g, t);
    forall q: Page ensures EntryOf(SetFrame(u, g, t), u.active, q) == EntryOf(u, u.active, q) {
      FillKeepsEntry(u, g, t, q);
    }
  }

  lemma ClaimedZero(w: World)
    requires Inv(w) && CanAlloc(w.pm)
    ensures var u := ClaimData(w);
            && Inv(u) && u.active == w.active && u.mem == w.mem
            && (forall q: Page :: Translate(u, u.active, q) == Translate(w, w.active, q))
            && (forall q: Page :: EntryOf(u, u.active, q) == EntryOf(w, w.active, q))
            && (forall j: nat | j < 1024 :: Slot(u, u.active, j) == Slot(w, w.active, j))
            && (forall g: Frame | IsPayload(w, g) :: IsPayload(u, g))
            && (forall c: Frame :: IsContext(u, c) ==> IsContext(w, c))
  {
    ClaimDataFacts(w);
  }

  lemma OverwrittenByte(w: World, bytes: seq<Byte>, va: int, b: Byte)
    requires Inv(w) && CanAlloc(w.pm) && |bytes| <= PAGE_SIZE
    requires Translate(w, w.active, 0).Some? && IsPayload(w, Translate(w, w.active, 0).value)
    requires ByteAt(w, va, b) && ApartFromZero(w, va / PAGE_SIZE)
    ensures ByteAt(Overwritten(w, bytes), va, b)
  {
    ClaimedZero(w);
    ClaimedByte(w, va, b);
    var u, g := ClaimData(w), Translate(w, w.active, 0).value;
    SurvivesFill(u, g, PutBytes(u.mem[g], bytes), va, b);
  }

  lemma OverwrittenMappable(w: World, bytes: seq<Byte>, q: Page)
    requires Inv(w) && CanAlloc(w.pm) && |bytes| <= PAGE_SIZE
    requires Translate(w, w.active, 0).Some? && IsPayload(w, Translate(w, w.active, 0).value)
    requires Mappable(w, w.active, q)
    ensures Mappable(Overwritten(w, bytes), w.active, q)
  {
    ClaimedZero(w);
    var u, g := ClaimData(w), Translate(w, w.active, 0).value;
    FillFacts(u, g, PutBytes(u.mem[g], bytes));
    assert Slot(u, u.active, q / 1024) == Slot(w, w.active, q / 1024);
    assert Sole(w) ==> Sole(Overwritten(w, bytes));
  }

  lemma OverwrittenMappings(w: World, bytes: seq<Byte>)
    requires Inv(w) && CanAlloc(w.pm) && |bytes| <= PAGE_SIZE
    requires Translate(w, w.active, 0).Some? && IsPayload(w, Translate(w, w.active, 0).value)
    ensures var v := Overwritten(w, bytes);
            Inv(v) && v.pm == ClaimData(w).pm && SameMappings(w, v)
  {
    ClaimedZero(w);
    var u, g := ClaimData(w), Translate(w, w.active, 0).value;
    FillFacts(u, g, PutBytes(u.mem[g], bytes));
    var v := Overwritten(w, bytes);
    forall q: Page | Mappable(w, w.active, q) ensures Mappable(v, v.active, q) {
      OverwrittenMappable(w, bytes, q);
    }
  }

  lemma OverwrittenFacts(w: World, bytes: seq<Byte>, n: nat)
    requires Inv(w) && Enough(w.pm, n + 3) && |bytes| <= PAGE_SIZE
    requires Translate(w, w.active, 0).Some? && IsPayload(w, Translate(w, w.active, 0).value)
    ensures CanAlloc(w.pm)
    ensures var v := Overwritten(w, bytes);
            Inv(v) && Enough(v.pm, n) && OnlyZeroChanged(w, v)
  {
    EnoughToAlloc(w.pm, n + 3);
    AllocSpends(w.pm);
    OverwrittenMappings(w, bytes);
    forall va: int, b: Byte | ByteAt(w, va, b) && ApartFromZero(w, va / PAGE_SIZE)
      ensures ByteAt(Overwritten(w, bytes), va, b)
    {
      OverwrittenByte(w, bytes, va, b);
    }
  }

  /** The byte that page 0 shows at `k`. */
  lemma ZeroByte(w: World, bytes: seq<Byte>, b: Byte, k: nat)
    requires Inv(w) && CanAlloc(w.pm) && |bytes| <= PAGE_SIZE && k < PAGE_SIZE
    requires Translate(w, w.active, 0).Some? && ByteAt(w, k, b)
    ensures ByteAt(Overwritten(w, bytes), k, if k < |bytes| then bytes[k] else b)
  {
    ClaimedZero(w);
    var u, g := ClaimData(w), Translate(w, w.active, 0).value;
    assert IsPayload(w, g) && k / PAGE_SIZE == 0 && k % PAGE_SIZE == k;
    FillFacts(u, g, PutBytes(u.mem[g], bytes));
    PutBytesEffect(u.mem[g], bytes, k);
  }

  /** Page 0 reads as the new bytes, and behind them as before. */
  lemma ZeroOverwritten(w: World, bytes: seq<Byte>, z: seq<Byte>)
    requires Inv(w) && Enough(w.pm, 3) && |bytes| <= PAGE_SIZE == |z|
    requires Translate(w, w.active, 0).Some? && ZeroHolds(w, Some(z))
    ensures CanAlloc(w.pm) && ZeroHolds(Overwritten(w, bytes), Some(Over(z, bytes)))
  {
    EnoughToAlloc(w.pm, 3);
    var v, c := Overwritten(w, bytes), Over(z, bytes);
    forall k: nat | k < PAGE_SIZE ensures ByteAt(v, k, c[k]) {
      ZeroByte(w, bytes, z[k], k);
    }
    assert ByteAt(v, 0, c[0]);
    ReadableIsMapped(v, 0, c[0]);
  }

  lemma OtherByteStays(w: World, v: World, q: Page, va: int, k: nat, b: Byte)
    requires OnlyZeroChanged(w, v) && ApartFromZero(w, q) && ByteAt(w, va + k, b)
    requires va == AddressOf(q) && k < PAGE_SIZE
    ensures ByteAt(v, va + k, b)
  {
    assert (va + k) / PAGE_SIZE == q;
  }

  lemma OtherStays(w: World, v: World, image: seq<Byte>, s: Segment)
    requires OnlyZeroChanged(w, v) && InPlace(w, image, s) && ApartFromZero(w, PageOf(s))
    ensures InPlace(v, image, s) && ApartFromZero(v, PageOf(s))
  {
    var va, c := AddressOf(PageOf(s)), Content(image, s);
    forall k: nat | k < |c| ensures ByteAt(v, va + k, c[k]) {
      OtherByteStays(w, v, PageOf(s), va, k, c[k]);
    }
  }

  lemma OverwrittenPlaced(w0: World, w: World, v: World, image: seq<Byte>, segs: seq<Segment>, i: nat, j: nat)
    requires OnlyZeroChanged(w, v) && Inv(w) && Inv(v) && HasZero(segs) && IsAtZero(segs, i) && ZeroTaken(w)
    requires j < i && IsLoadable(segs, j) && Placed(w0, w, image, segs, j, i)
    ensures Placed(w0, v, image, segs, j, i + 1)
  {
    var q := PageOf(segs[j]);
    DisplacedNext(w0, segs, j, i, q);
    if TakesWindow(w0, segs[i], q) {
      Opened(w0, v, 0, q);
    } else if Displaced(w0, segs, j + 1, i, q) {
      TableStays(w, v, q);
    } else {
      OtherStays(w, v, image, segs[j]);
    }
  }

  lemma OverwrittenOthersStay(w0: World, w: World, v: World, image: seq<Byte>, segs: seq<Segment>, i: nat)
    requires OnlyZeroChanged(w, v) && Inv(w) && Inv(v) && HasZero(segs) && IsAtZero(segs, i) && ZeroTaken(w)
    requires OthersPlaced(w0, w, image, segs, i)
    ensures OthersPlaced(w0, v, image, segs, i + 1)
  {
    forall j: nat | j < i + 1 && IsLoadable(segs, j) && segs[j].vaddr != 0
      ensures Placed(w0, v, image, segs, j, i + 1)
    {
      OverwrittenPlaced(w0, w, v, image, segs, i, j);
    }
  }

  lemma OverwrittenStillLoading(w: World, v: World, file: int, image: seq<Byte>, segs: seq<Segment>, i: nat)
    requires Loading(w, file, image, segs, i) && IsAtZero(segs, i) && ZeroTaken(w)
    requires OnlyZeroChanged(w, v) && Inv(v) && Enough(v.pm, 3 * (|segs| - i - 1))
    ensures Loading(v, file, image, segs, i + 1)
  {
    assert HasZero(segs) && ZeroReady(w, file, image);
    var g := Translate(w, w.active, 0).value;
    LookupReadsEntry(w, 0);
    LookupReadsEntry(v, 0);
    forall k: nat | k < |image| ensures ByteAt(v, file + k, image[k]) && Elsewhere(v, g, file, k) {
      assert ByteAt(w, file + k, image[k]) && Elsewhere(w, g, file, k);
      assert ApartFromZero(w, (file + k) / PAGE_SIZE);
    }
    forall j: nat | i + 1 <= j && IsLoadable(segs, j) ensures FileSpared(v, file, image, PageOf(segs[j])) {
      FileStaysSpared(w, v, file, image, PageOf(segs[j]));
    }
  }

  /** With a single segment linked to address 0, and page 0 not taken, that segment too is in place. */
  lemma {:induction false} LoneZeroSegment(image: seq<Byte>, segs: seq<Segment>, n: nat, j: nat)
    requires SegmentsFit(image, segs) && n <= |segs| && IsAtZero(segs, j)
    requires forall k: nat | IsAtZero(segs, k) :: k == j
    ensures ZeroAfter(image, segs, n, None) == if j < n then Some(Content(image, segs[j])) else None
  {
    if n > 0 {
      LoneZeroSegment(image, segs, n - 1, j);
      var z: seq<Byte> := seq(PAGE_SIZE, _ => 0);
      if n - 1 == j {
        assert Over(z, BytesOf(image, segs, j)) == Content(image, segs[j]);
      }
    }
  }

  // ----- the loader -----

  /** The copied bytes are read from frames other than the one being written. */
  ghost predicate CanCopy(w: World, p: Page, f: Frame, src: int, bytes: seq<Byte>) {
    && Structured(w) && IsPayload(w, f) && Translate(w, w.active, p) == Some(f)
    && |bytes| <= PAGE_SIZE
    && BytesAt(w, src, bytes)
    && (forall k: nat | k < |bytes| :: Elsewhere(w, f, src, k))
  }

  /** Filling the destination frame disturbs neither the source bytes nor the translations. */
  lemma CopyInProgress(w: World, p: Page, f: Frame, src: int, bytes: seq<Byte>, i: nat, t: Table)
    requires CanCopy(w, p, f, src, bytes) && i < |bytes|
    ensures var v, q := SetFrame(w, f, t), (src + i) / PAGE_SIZE;
            && 0 <= src + i < 0x1_0000_0000
            && Structured(v) && IsPayload(v, f) && v.mem[f] == t
            && Translate(v, v.active, p) == Some(f)
            && Translate(v, v.active, q).Some?
            && FrameByte(v.mem[Translate(v, v.active, q).value], (src + i) % PAGE_SIZE) == bytes[i]
  {
    SetFrameEffect(w, f, t);
    assert ByteAt(w, src + i, bytes[i]) && Elsewhere(w, f, src, i);
  }

  /** memcpy to the start of a page, byte by byte through the active address space. */
  method Memcpy(m: Machine, dest: Word, src: Word, n: nat, ghost bytes: seq<Byte>, ghost f: Frame)
    requires m.Valid() && n == |bytes| && dest == AddressOf(FrameOf(dest))
    requires CanCopy(m.S(), FrameOf(dest), f, src, bytes)
    modifies m`tlb, m`mem
    ensures m.Valid() && m.S() == SetFrame(old(m.S()), f, PutBytes(old(m.mem)[f], bytes))
  {
    ghost var w := m.S();
    assert m.mem == m.mem[f := PutBytes(m.mem[f], bytes[..0])];
    for i := 0 to n
      invariant m.Valid() && m.S() == SetFrame(w, f, PutBytes(w.mem[f], bytes[..i]))
    {
      CopyOne(m, dest, src, i, w, bytes, f);
    }
    assert bytes[..n] == bytes;
  }

  method CopyOne(m: Machine, dest: Word, src: Word, i: nat, ghost w: World, ghost bytes: seq<Byte>, ghost f: Frame)
    requires m.Valid() && i < |bytes| && dest == AddressOf(FrameOf(dest))
    requires CanCopy(w, FrameOf(dest), f, src, bytes)
    requires m.S() == SetFrame(w, f, PutBytes(w.mem[f], bytes[..i]))
    modifies m`tlb, m`mem
    ensures m.Valid() && m.S() == SetFrame(w, f, PutBytes(w.mem[f], bytes[..i + 1]))
  {
    ghost var t := PutBytes(w.mem[f], bytes[..i]);
    CopyInProgress(w, FrameOf(dest), f, src, bytes, i, t);
    var b := m.LoadByte(FrameOf(src + i), (src + i) % PAGE_SIZE);
    m.StorePlainByte(f, FrameOf(dest), i, b);
    PutNext(w.mem[f], bytes, i);
    SetFrameAgain(w, f, t, PutByte(t, i, b));
  }

  lemma SetFrameAgain(w: World, f: Frame, t: Table, u: Table)
    ensures SetFrame(SetFrame(w, f, t), f, u) == SetFrame(w, f, u)
  {
    assert w.mem[f := t][f := u] == w.mem[f := u];
  }

  // ----- reading the file -----

  /** CR3 holds the active context's directory. */
  ghost predicate AtHome(w: World) {
    w.cr3 == Dir(w, w.active)
  }

  method FetchByte(m: Machine, ghost w: World, va: Word, ghost b: Byte) returns (r: Byte)
    requires m.Valid() && m.S() == w && AtHome(w) && ByteAt(w, va, b)
    modifies m`tlb
    ensures m.Valid() && m.S() == w && r == b
  {
    r := m.LoadByte(FrameOf(va), va % PAGE_SIZE);
  }

  method FetchHalf(m: Machine, ghost w: World, file: Word, o: nat, ghost image: seq<Byte>) returns (r: nat)
    requires m.Valid() && m.S() == w && AtHome(w) && BytesAt(w, file, image) && o + 2 <= |image|
    modifies m`tlb
    ensures m.Valid() && m.S() == w && r == HalfAt(image, o)
  {
    assert ByteAt(w, file + o, image[o]) && ByteAt(w, file + (o + 1), image[o + 1]);
    var b0 := FetchByte(m, w, file + o, image[o]);
    var b1 := FetchByte(m, w, file + o + 1, image[o + 1]);
    r := b0 as int + 0x100 * b1 as int;
  }

  method FetchWord(m: Machine, ghost w: World, file: Word, o: nat, ghost image: seq<Byte>) returns (r: Word)
    requires m.Valid() && m.S() == w && AtHome(w) && BytesAt(w, file, image) && o + 4 <= |image|
    modifies m`tlb
    ensures m.Valid() && m.S() == w && r == WordAt(image, o)
  {
    var lower := FetchHalf(m, w, file, o, image);
    var upper := FetchHalf(m, w, file, o + 2, image);
    r := lower + 0x1_0000 * upper;
  }

  method FetchHeader(m: Machine, ghost w: World, file: Word, ghost image: seq<Byte>) returns (h: Header)
    requires m.Valid() && m.S() == w && AtHome(w) && BytesAt(w, file, image) && HEADER_SIZE <= |image|
    modifies m`tlb
    ensures m.Valid() && m.S() == w && h == HeaderOf(image)
  {
    var ident: seq<Byte> := [];
    for i := 0 to 7
      invariant m.Valid() && m.S() == w && ident == image[..i]
    {
      assert ByteAt(w, file + i, image[i]);
      var b := FetchByte(m, w, file + i, image[i]);
      ident := ident + [b];
    }
    var kind := FetchHalf(m, w, file, 16, image);
    var machine := FetchHalf(m, w, file, 18, image);
    var version := FetchWord(m, w, file, 20, image);
    var phoff := FetchWord(m, w, file, 28, image);
    var phentsize := FetchHalf(m, w, file, 42, image);
    var phnum := FetchHalf(m, w, file, 44, image);
    h := Header(ident, kind, machine, version, phoff, phentsize, phnum);
  }

  method FetchSegment(m: Machine, ghost w: World, file: Word, o: nat, ghost image: seq<Byte>) returns (s: Segment)
    requires m.Valid() && m.S() == w && AtHome(w) && BytesAt(w, file, image) && o + PROGRAM_HEADER_SIZE <= |image|
    modifies m`tlb
    ensures m.Valid() && m.S() == w && s == SegmentAt(image, o)
  {
    var kind := FetchWord(m, w, file, o, image);
    var offset := FetchWord(m, w, file, o + 4, image);
    var vaddr := FetchWord(m, w, file, o + 8, image);
    var filesz := FetchWord(m, w, file, o + 16, image);
    var memsz := FetchWord(m, w, file, o + 20, image);
    s := Segment(kind, offset, vaddr, filesz, memsz);
  }

  // ----- init_elf -----

  /** Where the segment's bytes are, as the loader computes the address. */
  function SourceAddress(file: Word, s: Segment): Word {
    (file + s.offset) % 0x1_0000_0000
  }

  lemma SourceInRange(w: World, file: Word, image: seq<Byte>, s: Segment)
    requires WellSized(image, s) && BytesAt(w, file, image) && s.filesz > 0
    ensures SourceAddress(file, s) == file + s.offset
  {
    assert ByteAt(w, file + s.offset, image[s.offset]);
  }

  /** Bytes outside the windows of new tables can still be read, and from a frame other than `f`. */
  ghost predicate SurvivesElsewhere(w: World, u: World, p: Page, f: Frame) {
    forall va: int, b: Byte | ByteAt(w, va, b) && !IsNewWindow(w, p / 1024, va / PAGE_SIZE) ::
      ByteAt(u, va, b) && Elsewhere(u, f, va, 0)
  }

  lemma AllocSpares(w: World, p: Page, u: World)
    requires CanAllocAt(w, w.active, p) && !SaysMapped(Lookup(w, p)) && u == Allocation.AllocAt(w, w.active, p)
    ensures SurvivesElsewhere(w, u, p, Pick(w.pm))
  {
    forall va: int, b: Byte | ByteAt(w, va, b) && !IsNewWindow(w, p / 1024, va / PAGE_SIZE)
      ensures ByteAt(u, va, b) && Elsewhere(u, Pick(w.pm), va, 0)
    {
      SourceStays(w, p, va, b);
    }
  }

  lemma SourceReadable(w: World, u: World, f: Frame, file: Word, image: seq<Byte>, s: Segment)
    requires WellSized(image, s) && BytesAt(w, file, image) && FileSpared(w, file, image, PageOf(s))
    requires SurvivesElsewhere(w, u, PageOf(s), f)
    ensures var src, bytes := SourceAddress(file, s), image[s.offset..s.offset + s.filesz];
            BytesAt(u, src, bytes) && forall k: nat | k < |bytes| :: Elsewhere(u, f, src, k)
  {
    var src, bytes := SourceAddress(file, s), image[s.offset..s.offset + s.filesz];
    if s.filesz > 0 {
      SourceInRange(w, file, image, s);
      forall k: nat | k < |bytes| ensures ByteAt(u, src + k, bytes[k]) && Elsewhere(u, f, src, k) {
        assert ByteAt(w, file + (s.offset + k), image[s.offset + k]) && Spared(w, PageOf(s), file, s.offset + k);
        assert Elsewhere(u, f, src + k, 0);
      }
    }
  }

  lemma ReadyToCopy(w: World, u: World, file: Word, image: seq<Byte>, s: Segment)
    requires CanAllocAt(w, w.active, PageOf(s)) && !SaysMapped(Lookup(w, PageOf(s)))
    requires WellSized(image, s) && BytesAt(w, file, image) && FileSpared(w, file, image, PageOf(s))
    requires u == Allocation.AllocAt(w, w.active, PageOf(s))
    ensures CanCopy(u, PageOf(s), Pick(w.pm), SourceAddress(file, s), image[s.offset..s.offset + s.filesz])
  {
    FreshPage(w, PageOf(s));
    AllocSpares(w, PageOf(s), u);
    SourceReadable(w, u, Pick(w.pm), file, image, s);
  }

  /** One round of the loop; false stands for the panic on a refused or unaligned page. */
  method LoadSegment(m: Machine, file: Word, s: Segment, ghost image: seq<Byte>)
    returns (ok: bool)
    requires m.Valid() && CanAllocAt(m.S(), m.S().active, PageOf(s))
    requires WellSized(image, s) && BytesAt(m.S(), file, image) && FileSpared(m.S(), file, image, PageOf(s))
    requires s.vaddr == 0 ==> ZeroReady(m.S(), file, image)
    modifies m`tlb, m`mem, m`roles, m.pmm`nextBit, m.pmm.bitmap
    ensures m.Valid() && CanAlloc(old(m.S()).pm)
    ensures ok <==> s.vaddr == AddressOf(PageOf(s)) &&
                    (s.vaddr == 0 || !SaysMapped(Lookup(old(m.S()), PageOf(s))))
    ensures ok && !SaysMapped(Lookup(old(m.S()), PageOf(s))) ==>
              m.S() == LoadOne(old(m.S()), PageOf(s), image[s.offset..s.offset + s.filesz])
    ensures ok && SaysMapped(Lookup(old(m.S()), PageOf(s))) ==>
              && Translate(old(m.S()), old(m.S()).active, 0).Some?
              && m.S() == Overwritten(old(m.S()), image[s.offset..s.offset + s.filesz])
  {
    ghost var w, bytes := m.S(), image[s.offset..s.offset + s.filesz];
    PageBaseFrame(s.vaddr);
    var r := m.AllocAt(0, s.vaddr);
    ok := r == s.vaddr;
    if ok {
      ghost var f := Pick(w.pm);
      if SaysMapped(Lookup(w, PageOf(s))) {
        f := Translate(w, w.active, 0).value;
        ReadyToOverwrite(w, m.S(), file, image, s);
      } else {
        ReadyToCopy(w, m.S(), file, image, s);
      }
      Memcpy(m, s.vaddr, SourceAddress(file, s), s.filesz, bytes, f);
    }
  }

  lemma ReadyToOverwrite(w: World, u: World, file: Word, image: seq<Byte>, s: Segment)
    requires Inv(w) && CanAlloc(w.pm) && s.vaddr == 0 && ZeroTaken(w) && ZeroReady(w, file, image)
    requires WellSized(image, s) && BytesAt(w, file, image) && u == ClaimData(w)
    ensures CanCopy(u, 0, Translate(w, w.active, 0).value, SourceAddress(file, s), image[s.offset..s.offset + s.filesz])
  {
    ClaimedZero(w);
    var f := Translate(w, w.active, 0).value;
    forall k: nat | k < |image| ensures ByteAt(u, file + k, image[k]) && Elsewhere(u, f, file, k) {
      assert ByteAt(w, file + k, image[k]) && Elsewhere(w, f, file, k);
      ClaimedByte(w, file + k, image[k]);
    }
    PartElsewhere(u, f, file, image, s);
  }

  lemma PartElsewhere(u: World, f: Frame, file: Word, image: seq<Byte>, s: Segment)
    requires WellSized(image, s) && BytesAt(u, file, image)
    requires forall k: nat | k < |image| :: Elsewhere(u, f, file, k)
    ensures var src, bytes := SourceAddress(file, s), image[s.offset..s.offset + s.filesz];
            BytesAt(u, src, bytes) && forall k: nat | k < |bytes| :: Elsewhere(u, f, src, k)
  {
    var src, bytes := SourceAddress(file, s), image[s.offset..s.offset + s.filesz];
    if s.filesz > 0 {
      SourceInRange(u, file, image, s);
      forall k: nat | k < |bytes| ensures ByteAt(u, src + k, bytes[k]) && Elsewhere(u, f, src, k) {
        assert ByteAt(u, file + (s.offset + k), image[s.offset + k]);
        assert Elsewhere(u, f, file, s.offset + k);
      }
    }
  }

  lemma ClaimedByte(w: World, va: int, b: Byte)
    requires Inv(w) && CanAlloc(w.pm) && ByteAt(w, va, b)
    ensures ByteAt(ClaimData(w), va, b)
  {
    ClaimedZero(w);
  }

  datatype Outcome = Rejected(verdict: Verdict) | Panicked | Loaded

  /** What is true between two rounds of a loop that began in `w0`: progress, also on page 0. */
  ghost predicate Between(w0: World, w: World, file: int, image: seq<Byte>, segs: seq<Segment>, i: nat)
  {
    && Loading(w, file, image, segs, i) && Tracked(w0, w, segs, i) && OthersPlaced(w0, w, image, segs, i)
    && (HasZero(segs) ==> ZeroHolds(w, ZeroAfter(image, segs, i, ZeroStart(w0))))
  }

  /** One round, on program header `i`. */
  method Round(m: Machine, file: Word, h: Header, i: nat, ghost w0: World, ghost image: seq<Byte>,
               ghost segs: seq<Segment>)
    returns (ok: bool)
    requires m.Valid() && i < h.phnum && HeadersInside(image, h) && segs == SegmentsOf(image, h)
    // Compared with `true`, the predicate is kept as one fact.
    requires Between(w0, m.S(), file, image, segs, i) == true
    modifies m`tlb, m`mem, m`roles, m.pmm`nextBit, m.pmm.bitmap
    ensures m.Valid() && (ok <==> !Blocked(w0, segs, i))
    ensures ok ==> Between(w0, m.S(), file, image, segs, i + 1) == true
  {
    ghost var w := m.S();
    var s := FetchNth(m, w, file, h, i, image, segs);
    ok := true;
    if s.kind == PT_LOAD {
      RoundReady(w0, w, file, image, segs, i, s);
      ok := LoadSegment(m, file, s, image);
    }
    if ok {
      RoundDone(w0, w, m.S(), file, image, segs, i, s);
    }
  }

  method FetchNth(m: Machine, ghost w: World, file: Word, h: Header, i: nat,
                  ghost image: seq<Byte>, ghost segs: seq<Segment>)
    returns (s: Segment)
    requires m.Valid() && m.S() == w && AtHome(w) && BytesAt(w, file, image)
    requires i < h.phnum && HeadersInside(image, h) && segs == SegmentsOf(image, h)
    modifies m`tlb
    ensures m.Valid() && m.S() == w && s == segs[i]
  {
    HeaderOffsets(h, i);
    var o := h.phoff + i * h.phentsize;
    assert o == HeaderOffset(h, i);
    assert segs[i] == SegmentAt(image, HeaderOffset(h, i));
    s := FetchSegment(m, w, file, o, image);
  }

  lemma RoundReady(w0: World, w: World, file: int, image: seq<Byte>, segs: seq<Segment>, i: nat, s: Segment)
    requires Between(w0, w, file, image, segs, i) && IsLoadable(segs, i) && s == segs[i]
    ensures CanAllocAt(w, w.active, PageOf(s))
    ensures s.vaddr == 0 ==> ZeroReady(w, file, image)
    ensures WellSized(image, s) && BytesAt(w, file, image) && FileSpared(w, file, image, PageOf(s))
    ensures Blocked(w0, segs, i) <==>
            s.vaddr != AddressOf(PageOf(s)) || (s.vaddr != 0 && SaysMapped(Lookup(w, PageOf(s))))
  {
    CanLoad(w, file, image, segs, i);
    assert s.vaddr == 0 ==> IsAtZero(segs, i);
  }

  /** The state after a round that did not panic. */
  ghost predicate RoundResult(w: World, v: World, image: seq<Byte>, s: Segment) {
    if s.kind != PT_LOAD then v == w else
    && WellSized(image, s) && s.vaddr == AddressOf(PageOf(s))
    && CanAllocAt(w, w.active, PageOf(s))
    && if SaysMapped(Lookup(w, PageOf(s)))
       then s.vaddr == 0 && Translate(w, w.active, 0).Some?
            && v == Overwritten(w, image[s.offset..s.offset + s.filesz])
       else v == LoadOne(w, PageOf(s), image[s.offset..s.offset + s.filesz])
  }

  lemma RoundDone(w0: World, w: World, v: World, file: int, image: seq<Byte>, segs: seq<Segment>, i: nat, s: Segment)
    requires Between(w0, w, file, image, segs, i) && i < |segs| && s == segs[i] && RoundResult(w, v, image, s)
    ensures Between(w0, v, file, image, segs, i + 1) == true
  {
    if s.kind != PT_LOAD {
      RoundSkips(w0, w, file, image, segs, i);
    } else if SaysMapped(Lookup(w, PageOf(s))) {
      RoundOverwrites(w0, w, v, file, image, segs, i);
    } else {
      RoundLoads(w0, w, v, file, image, segs, i);
    }
  }

  lemma RoundSkips(w0: World, w: World, file: int, image: seq<Byte>, segs: seq<Segment>, i: nat)
    requires Between(w0, w, file, image, segs, i) && i < |segs| && !IsLoadable(segs, i)
    ensures Between(w0, w, file, image, segs, i + 1)
  {
    assert !IsAtZero(segs, i);
    TrackSkip(w0, w, segs, i);
    forall j: nat | j < i + 1 && IsLoadable(segs, j) && segs[j].vaddr != 0
      ensures Placed(w0, w, image, segs, j, i + 1)
    {
      DisplacedNext(w0, segs, j, i, PageOf(segs[j]));
    }
    if HasZero(segs) {
      assert ZeroAfter(image, segs, i + 1, ZeroStart(w0)) == ZeroAfter(image, segs, i, ZeroStart(w0));
    }
  }

  lemma RoundLoads(w0: World, w: World, v: World, file: int, image: seq<Byte>, segs: seq<Segment>, i: nat)
    requires Between(w0, w, file, image, segs, i) && IsLoadable(segs, i)
    requires RoundResult(w, v, image, segs[i]) && !SaysMapped(Lookup(w, PageOf(segs[i])))
    ensures Between(w0, v, file, image, segs, i + 1)
  {
    LoadNth(w, v, file, image, segs, i);
    StillLoading(w, v, file, image, segs, i);
    TrackLoad(w0, w, v, image, segs, i);
    OthersStay(w0, w, v, file, image, segs, i);
    if HasZero(segs) {
      if segs[i].vaddr == 0 {
        ZeroFilled(w, v, image, segs, i, ZeroAfter(image, segs, i, ZeroStart(w0)));
      } else {
        ZeroKept(w, v, image, segs, i, ZeroAfter(image, segs, i, ZeroStart(w0)));
      }
    }
  }

  lemma RoundOverwrites(w0: World, w: World, v: World, file: int, image: seq<Byte>, segs: seq<Segment>, i: nat)
    requires Between(w0, w, file, image, segs, i) && IsLoadable(segs, i)
    requires RoundResult(w, v, image, segs[i]) && SaysMapped(Lookup(w, PageOf(segs[i])))
    ensures Between(w0, v, file, image, segs, i + 1)
  {
    assert IsAtZero(segs, i) && PageOf(segs[i]) == 0;
    assert HasZero(segs);
    var bytes := BytesOf(image, segs, i);
    OverwrittenFacts(w, bytes, 3 * (|segs| - i - 1));
    OverwrittenStillLoading(w, v, file, image, segs, i);
    TrackOverwrite(w0, w, v, segs, i);
    OverwrittenOthersStay(w0, w, v, image, segs, i);
    ZeroOverwritten(w, bytes, ZeroAfter(image, segs, i, ZeroStart(w0)).value);
  }

  ghost predicate PanicsBefore(w: World, segs: seq<Segment>, n: nat) {
    exists i: nat :: i < n && Blocked(w, segs, i)
  }

  lemma PanicsNext(w: World, segs: seq<Segment>, i: nat)
    requires i < |segs|
    ensures PanicsBefore(w, segs, i + 1) <==> PanicsBefore(w, segs, i) || Blocked(w, segs, i)
    ensures Blocked(w, segs, i) ==> Panics(w, segs)
    ensures i + 1 == |segs| ==> (Panics(w, segs) <==> PanicsBefore(w, segs, i + 1))
  {
    if PanicsBefore(w, segs, i) {
      var k: nat :| k < i && Blocked(w, segs, k);
      assert k < i + 1 && Blocked(w, segs, k);
    }
    if Panics(w, segs) {
      var k: nat :| Blocked(w, segs, k);
      assert k < |segs|;
    }
  }

  /** The loop over the program headers. */
  method LoadAll(m: Machine, file: Word, h: Header, ghost w0: World, ghost image: seq<Byte>, ghost segs: seq<Segment>)
    returns (ok: bool)
    requires m.Valid() && HeadersInside(image, h) && segs == SegmentsOf(image, h)
    requires Between(w0, m.S(), file, image, segs, 0) == true
    modifies m`tlb, m`mem, m`roles, m.pmm`nextBit, m.pmm.bitmap
    ensures m.Valid() && (ok <==> !Panics(w0, segs))
    ensures ok ==> Between(w0, m.S(), file, image, segs, h.phnum) == true
  {
    for i := 0 to h.phnum
      invariant m.Valid() && Between(w0, m.S(), file, image, segs, i) == true
      invariant !PanicsBefore(w0, segs, i)
    {
      ok := Round(m, file, h, i, w0, image, segs);
      PanicsNext(w0, segs, i);
      if !ok {
        return;
      }
    }
    ok := true;
  }

  /** A file that passed all checks: `w` is the state before. */
  ghost predicate CanRun(w: World, file: int, image: seq<Byte>, h: Header) {
    HeadersInside(image, h) && Loading(w, file, image, SegmentsOf(image, h), 0)
  }

  /**
   `v` is the state after: the file is undisturbed, every segment linked to another address than 0 is in
   place, or a table if a later one has taken its page; page 0 holds what was there overwritten by those linked
   to 0; and no other pages are mapped than before, those of the segments and the windows taken.
   */
  ghost predicate HasRun(w: World, v: World, file: int, image: seq<Byte>, h: Header)
    requires CanRun(w, file, image, h)
  {
    var segs := SegmentsOf(image, h);
    && Inv(v) && BytesAt(v, file, image) && OthersPlaced(w, v, image, segs, h.phnum)
    && Tracked(w, v, segs, h.phnum)
    && (HasZero(segs) ==> ZeroHolds(v, ZeroAfter(image, segs, h.phnum, ZeroStart(w))))
  }

  lemma ReadyToRun(w: World, file: int, image: seq<Byte>, h: Header)
    requires CanRun(w, file, image, h)
    ensures Between(w, w, file, image, SegmentsOf(image, h), 0) == true
  {
    TrackStart(w, SegmentsOf(image, h));
    if HasZero(SegmentsOf(image, h)) {
      ZeroAtStart(w, file, image);
    }
  }

  /** The part of init_elf before the new task is started. */
  method InitElf(m: Machine, file: Word, ghost image: seq<Byte>) returns (r: Outcome)
    requires m.Valid() && HEADER_SIZE <= |image| && BytesAt(m.S(), file, image) && Inv(m.S())
    requires Judge(HeaderOf(image)) == Acceptable ==> CanRun(m.S(), file, image, HeaderOf(image))
    modifies m`tlb, m`mem, m`roles, m.pmm`nextBit, m.pmm.bitmap
    ensures m.Valid()
    // A file failing a check changes nothing.
    ensures r.Rejected? <==> Judge(HeaderOf(image)) != Acceptable
    ensures r.Rejected? ==> m.S() == old(m.S())
    // Otherwise the loader panics exactly if a loadable segment is unaligned or finds its page occupied.
    ensures r == Panicked <==>
            Judge(HeaderOf(image)) == Acceptable && CanRun(old(m.S()), file, image, HeaderOf(image)) &&
            Panics(old(m.S()), SegmentsOf(image, HeaderOf(image)))
    // If it does not, the program is there.
    ensures r == Loaded ==>
              CanRun(old(m.S()), file, image, HeaderOf(image)) &&
              HasRun(old(m.S()), m.S(), file, image, HeaderOf(image))
  {
    ghost var w := m.S();
    var h := FetchHeader(m, w, file, image);
    if Judge(h) != Acceptable {
      return Rejected(Judge(h));
    }
    ghost var segs := SegmentsOf(image, h);
    ReadyToRun(w, file, image, h);
    var ok := LoadAll(m, file, h, w, image, segs);
    r := if ok then Loaded else Panicked;
  }

  // ----- what this means for a file -----

  /** After loading, a segment is in place if and only if no later one has taken its page for a window. */
  lemma PlacedExactly(w: World, v: World, image: seq<Byte>, segs: seq<Segment>, j: nat)
    requires Inv(v) && OthersPlaced(w, v, image, segs, |segs|) && IsLoadable(segs, j) && segs[j].vaddr != 0
    ensures InPlace(v, image, segs[j]) <==> !Displaced(w, segs, j + 1, |segs|, PageOf(segs[j]))
  {
    assert Placed(w, v, image, segs, j, |segs|);
    if ShowsTable(v, PageOf(segs[j])) && InPlace(v, image, segs[j]) {
      PlacedPage(v, image, segs[j]);
      WindowFrameInUse(v, PageOf(segs[j]));
    }
  }

  /**
   In bytes, of a file that has been loaded: a program header of type 1, not linked to 0 and not displaced,
   has put `filesz` bytes of the file from `offset` on at `vaddr`, and zeros behind them up to the end of
   the page.
   */
  lemma SegmentBytes(w: World, v: World, image: seq<Byte>, h: Header, j: nat, o: nat, offset: Word, vaddr: Word,
                     paddr: Word, filesz: Word, memsz: Word, flags: Word, align: Word, k: nat, va: int, b: Byte)
    requires HeadersInside(image, h) && OthersPlaced(w, v, image, SegmentsOf(image, h), h.phnum)
    requires !Panics(w, SegmentsOf(image, h))
    requires j < h.phnum && o == h.phoff + j * h.phentsize && o + 32 <= |image|
    requires image[o..o + 32] == Longs([1, offset, vaddr, paddr, filesz, memsz, flags, align])
    requires vaddr != 0 && !Displaced(w, SegmentsOf(image, h), j + 1, h.phnum, FrameOf(vaddr))
    requires k < 4096 && va == vaddr + k
    ensures filesz <= 4096 && offset + filesz <= |image|
    ensures b == (if k < filesz then image[offset + k] else 0) ==> ByteAt(v, va, b)
  {
    var s := Segment(1, offset, vaddr, filesz, memsz);
    NthHeaderRead(image, h, j, o, 1, offset, vaddr, paddr, filesz, memsz, flags, align);
    RunPlaces(w, v, image, SegmentsOf(image, h), j, s);
    PlacedByte(v, image, s, k, va, b);
  }

  lemma RunPlaces(w: World, v: World, image: seq<Byte>, segs: seq<Segment>, j: nat, s: Segment)
    requires OthersPlaced(w, v, image, segs, |segs|) && !Panics(w, segs) && IsLoadable(segs, j) && s == segs[j]
    requires s.vaddr != 0 && !Displaced(w, segs, j + 1, |segs|, PageOf(s))
    ensures InPlace(v, image, s) && s.vaddr == AddressOf(PageOf(s))
  {
    assert !Blocked(w, segs, j);
    assert Placed(w, v, image, segs, j, |segs|);
  }

  lemma PlacedByte(v: World, image: seq<Byte>, s: Segment, k: nat, va: int, b: Byte)
    requires InPlace(v, image, s) && s.vaddr == AddressOf(PageOf(s)) && k < 4096 && va == s.vaddr + k
    ensures s.filesz <= 4096 && s.offset + s.filesz <= |image|
    ensures b == (if k < s.filesz then image[s.offset + k] else 0) ==> ByteAt(v, va, b)
  {
    ContentAt(image, s, k);
    var start, c := AddressOf(PageOf(s)), Content(image, s);
    assert ByteAt(v, start + k, c[k]);
  }

  /** So memory beyond the file's bytes reads as zero as far as the page goes. */
  lemma BssIsZero(v: World, image: seq<Byte>, s: Segment, k: nat, va: int)
    requires InPlace(v, image, s) && s.vaddr == AddressOf(PageOf(s))
    requires s.filesz <= k < s.memsz && s.memsz <= 4096 && va == s.vaddr + k
    ensures ByteAt(v, va, 0)
  {
    PlacedByte(v, image, s, k, va, 0);
  }

  /** Behind the page there is nothing, unless it was mapped before or for another segment. */
  lemma NothingBehind(w: World, v: World, segs: seq<Segment>, q: Page, va: int, b: Byte)
    requires Tracked(w, v, segs, |segs|) && !Occupied(w, segs, |segs|, q) && AddressOf(q) <= va < AddressOf(q) + 4096
    ensures !ByteAt(v, va, b)
  {
    if ByteAt(v, va, b) {
      assert va / PAGE_SIZE == q;
      ReadableIsMapped(v, va, b);
    }
  }

  /** Aligned, different, unmapped pages, none of which is the window of a table that another one needs. */
  ghost predicate WellLinked(w: World, segs: seq<Segment>) {
    && (forall j: nat | IsLoadable(segs, j) ::
          segs[j].vaddr == AddressOf(PageOf(segs[j])) && !SaysMapped(Lookup(w, PageOf(segs[j]))))
    && (forall j: nat, k: nat | j != k && IsLoadable(segs, j) && IsLoadable(segs, k) ::
          !Occupies(w, segs[k], PageOf(segs[j])))
  }

  /** Such a file is loaded without a panic and completely. */
  lemma WellLinkedLoads(w: World, segs: seq<Segment>)
    requires WellLinked(w, segs)
    ensures !Panics(w, segs)
    ensures forall j: nat | IsLoadable(segs, j) :: !Displaced(w, segs, j + 1, |segs|, PageOf(segs[j]))
  {
  }

  /** A segment linked to the window of an absent slot is loaded and lost to the next one that needs the slot. */
  lemma WindowSegmentLost(w: World, segs: seq<Segment>, i: nat)
    requires 2 <= i < 1024 && !Present(Slot(w, w.active, i)) && !SaysMapped(Lookup(w, TableWindow(i)))
    requires |segs| == 2 && IsLoadable(segs, 0) && IsLoadable(segs, 1)
    requires segs[0].vaddr == AddressOf(TableWindow(i))
    requires segs[1].vaddr == AddressOf(PageOf(segs[1])) && PageOf(segs[1]) / 1024 == i
    requires !IsNewWindow(w, TableWindow(i) / 1024, PageOf(segs[1]))
    ensures !Panics(w, segs) && Displaced(w, segs, 1, 2, PageOf(segs[0]))
  {
    var p := PageOf(segs[1]);
    assert PageOf(segs[0]) == TableWindow(i);
    assert TakesWindow(w, segs[1], PageOf(segs[0]));
    assert EntryOf(w, w.active, p) == 0;
    LookupReadsEntry(w, p);
  }
}
