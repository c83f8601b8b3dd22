/**
 What the memory manager ever writes into directories and tables: entries that are present, writable and
 open to user mode, and, if callers leave frame 0 alone, name a frame other than 0. The former is what lets
 tasks use their pages; the latter makes vmm_get_mapping, which cannot tell frame 0 from an unmapped page,
 agree with the hardware.
 */
module Tidy {
  import opened Words
  import opened Pmm
  import opened Mmu
  import opened World
  import opened Mapping
  import opened OtherContext
  import opened Contexts
  import opened Creation
  import opened Switching
  import opened SwitchOutcome
  import opened Allocation
  import Runs

  /** The frame is a directory or a table. */
  ghost predicate IsPaging(w: World, f: Frame) {
    f in w.roles && !w.roles[f].ContextBlock? && !w.roles[f].Data?
  }

  /** Zero, or bits 0 to 2 set and none of the other flags; `strict` excludes frame 0. */
  predicate Written(e: Word, strict: bool) {
    e == 0 || (e % 4096 == 7 && (strict ==> e / 4096 != 0))
  }

  predicate AllWritten(t: Table, strict: bool) {
    forall i: nat | i < 1024 :: Written(t[i], strict)
  }

  ghost predicate Tidy(w: World, strict: bool) {
    forall f: Frame | IsPaging(w, f) :: AllWritten(w.mem[f], strict)
  }

  lemma EntryWritten(f: Frame, strict: bool)
    requires strict ==> f != 0
    ensures Written(Entry(f), strict)
  {
    assert Entry(f) / 4096 == f;
  }

  // ----- the elementary edits -----

  lemma PutEntryTidy(w: World, c: Frame, p: Page, f: Frame, strict: bool)
    requires Tidy(w, strict) && (strict ==> f != 0)
    ensures Tidy(PutEntry(w, c, p, f), strict)
  {
    var v := PutEntry(w, c, p, f);
    EntryWritten(f, strict);
    forall g: Frame | IsPaging(v, g) ensures AllWritten(v.mem[g], strict) {
      assert IsPaging(w, g) && AllWritten(w.mem[g], strict);
    }
  }

  lemma AddTableTidy(w: World, c: Frame, i: nat, strict: bool)
    requires Tidy(w, strict) && Structured(w) && IsContext(w, c) && i < 1024 && CanAlloc(w.pm)
    ensures Tidy(AddTable(w, c, i), strict)
  {
    var v, t := AddTable(w, c, i), Pick(w.pm);
    assert ContextOk(w, c);
    assert t in w.pm.free && Blank(w.mem[t]);
    AllocSpends(w.pm);
    EntryWritten(t, strict);
    forall g: Frame | IsPaging(v, g) ensures AllWritten(v.mem[g], strict) {
      assert g != t ==> IsPaging(w, g) && AllWritten(w.mem[g], strict);
    }
  }

  lemma ClaimTidy(w: World, strict: bool)
    requires Tidy(w, strict) && Structured(w) && CanAlloc(w.pm)
    ensures Tidy(Claim(w), strict) && Tidy(ClaimData(w), strict) && Pick(w.pm) != 0
  {
    AllocSpends(w.pm);
    forall g: Frame | IsPaging(ClaimData(w), g) ensures AllWritten(w.mem[g], strict) {
      assert IsPaging(w, g);
    }
    forall g: Frame | IsPaging(Claim(w), g) ensures AllWritten(w.mem[g], strict) {
      assert IsPaging(w, g);
    }
  }

  lemma SetFrameTidy(w: World, g: Frame, t: Table, strict: bool)
    requires Tidy(w, strict) && CanSetFrame(w, g, t)
    ensures Tidy(SetFrame(w, g, t), strict)
  {
    forall f: Frame | IsPaging(SetFrame(w, g, t), f) ensures AllWritten(SetFrame(w, g, t).mem[f], strict) {
      assert IsPaging(w, f) && f != g;
    }
  }

  // ----- mapping -----

  lemma {:induction false} MapHereTidy(w: World, p: Page, f: Frame, strict: bool)
    requires CanMapHere(w, p) && Tidy(w, strict) && (strict ==> f != 0)
    ensures Tidy(MapHere(w, p, f), strict)
    decreases TablesNeeded(w, p / 1024)
  {
    var i := p / 1024;
    if Present(Slot(w, w.active, i)) {
      PutEntryTidy(w, w.active, p, f, strict);
    } else {
      NewTableFacts(w, p);
      AddTableTidy(w, w.active, i, strict);
      ClaimTidy(w, strict);
      MapHereTidy(NewTable(w, p), TableWindow(i), Pick(w.pm), strict);
      PutEntryTidy(MapHere(NewTable(w, p), TableWindow(i), Pick(w.pm)), w.active, p, f, strict);
    }
  }

  lemma InUseNotZero(w: World, c: Frame)
    requires Structured(w) && IsContext(w, c)
    ensures c != 0 && Dir(w, c) != 0
    ensures forall i: nat | i < 1024 && Present(Slot(w, c, i)) :: TableOf(w, c, i) != 0
  {
    assert ContextOk(w, c);
    forall i: nat | i < 1024 && Present(Slot(w, c, i)) ensures TableOf(w, c, i) != 0 {
      assert HasRole(w, TableOf(w, c, i), TableRole(c, i));
    }
  }

  lemma ShowContextTidy(w: World, c: Frame, strict: bool)
    requires Tidy(w, strict) && Inv(w) && IsContext(w, c) && Present(Slot(w, w.active, 2))
    ensures Tidy(ShowContext(w, c), strict)
  {
    InUseNotZero(w, c);
    ShowContextFacts(w, c);
    PutEntryTidy(w, w.active, TEMP_CONTEXT, c, strict);
    PutEntryTidy(PutEntry(w, w.active, TEMP_CONTEXT, c), w.active, TEMP_DIRECTORY, Dir(w, c), strict);
  }

  lemma MapThereTidy(w: World, c: Frame, p: Page, f: Frame, strict: bool)
    requires CanMapThere(w, c, p) && Tidy(w, strict) && (strict ==> f != 0)
    ensures Tidy(MapThere(w, c, p, f), strict)
  {
    OtherImpliesSlot2(w, c);
    ShowContextTidy(w, c, strict);
    ShowContextReady(w, c, p);
    var w2 := ShowContext(w, c);
    if !Present(Slot(w2, c, p / 1024)) {
      AddTableTidy(w2, c, p / 1024, strict);
    }
    EnsureTableFacts(w2, c, p / 1024);
    var w3 := EnsureTable(w2, c, p / 1024);
    InUseNotZero(w3, c);
    PutEntryTidy(w3, w.active, TEMP_TABLE, TableOf(w3, c, p / 1024), strict);
    PutEntryTidy(PutEntry(w3, w.active, TEMP_TABLE, TableOf(w3, c, p / 1024)), c, p, f, strict);
  }

  lemma MapTidy(w: World, c: Frame, p: Page, f: Frame, strict: bool)
    requires CanMap(w, c, p) && Tidy(w, strict) && (strict ==> f != 0)
    ensures Tidy(Map(w, c, p, f), strict)
  {
    if c == w.active {
      MapHereTidy(w, p, f, strict);
    } else {
      MapThereTidy(w, c, p, f, strict);
    }
  }

  // ----- creating a context -----

  lemma ContextShownTidy(w: World, strict: bool)
    requires CanCreate(w) && Tidy(w, strict)
    ensures Tidy(ContextShown(w), strict) && CanAlloc(w.pm) && Pick(w.pm) != 0
  {
    ClaimExtends(w);
    ClaimTidy(w, strict);
    MapHereTidy(Claim(w), TEMP_CONTEXT, Pick(w.pm), strict);
  }

  lemma DirectoryShownTidy(v: World, c: Frame, strict: bool)
    requires Inv(v) && Tidy(v, strict) && Enough(v.pm, 1) && IsPayload(v, c)
    ensures CanAlloc(v.pm) && Tidy(DirectoryShown(v, c), strict) && Pick(v.pm) != 0
  {
    ClaimFacts(v, 1);
    ClaimTidy(v, strict);
    var s := Claim(v);
    SetFrameTidy(s, c, s.mem[c][0 := AddressOf(Pick(v.pm))], strict);
    PutEntryTidy(Entered(v, c), v.active, TEMP_DIRECTORY, Pick(v.pm), strict);
  }

  lemma RegisteredTidy(u: World, c: Frame, d: Frame, strict: bool)
    requires Drafted(u, c, d) && Tidy(u, strict) && c != 0 && d != 0
    ensures Tidy(Registered(u, c, d), strict)
  {
    var v := Registered(u, c, d);
    forall g: Frame | IsPaging(v, g) ensures AllWritten(v.mem[g], strict) {
      if g == d {
        assert ContextOk(u, u.active) && IsPaging(u, u.cr3) && AllWritten(u.mem[u.cr3], strict);
      } else {
        assert g != c && IsPaging(u, g);
      }
    }
  }

  lemma CreateTidy(w: World, strict: bool)
    requires CanCreate(w) && Tidy(w, strict)
    ensures Tidy(Create(w), strict)
  {
    ContextShownFacts(w);
    ContextShownTidy(w, strict);
    var c, v := Pick(w.pm), ContextShown(w);
    DirectoryShownFacts(v, c);
    DirectoryShownTidy(v, c, strict);
    RegisteredTidy(DirectoryShown(v, c), c, Pick(v.pm), strict);
  }

  // ----- switching -----

  lemma IdentifiedTidy(w: World, c: Frame, strict: bool)
    requires CanSwitch(w, c) && KeepsStructure(w, c) && Tidy(w, strict)
    ensures Tidy(Identified(w, c), strict)
  {
    if c != w.active {
      CanIdentify(w, c);
      InUseNotZero(w, c);
      PutEntryTidy(w, w.active, TEMP_CONTEXT, c, strict);
      MapHereTidy(PutEntry(w, w.active, TEMP_CONTEXT, c), Dir(w, c), Dir(w, c), strict);
    }
  }

  lemma PointedTidy(u: World, c: Frame, strict: bool)
    requires ReadyToPoint(u, c) && Tidy(u, strict)
    ensures Tidy(Pointed(u, c), strict)
  {
    InUseNotZero(u, c);
    PutEntryTidy(u, u.active, CONTEXT_WINDOW, c, strict);
    PutEntryTidy(ContextPointed(u, c), u.active, DIRECTORY_WINDOW, Dir(u, c), strict);
  }

  lemma {:induction false} RewrittenTidy(u: World, c: Frame, n: nat, strict: bool)
    requires n <= 1024 && Rewriting(u, c, 0) && Tidy(u, strict)
    ensures Tidy(Rewritten(u, c, n), strict)
  {
    if n > 0 {
      RewrittenTidy(u, c, n - 1, strict);
      RewrittenFacts(u, c, n - 1);
      var t := Rewritten(u, c, n - 1);
      InUseNotZero(t, c);
      if Present(Slot(t, c, n - 1)) {
        PutEntryTidy(t, t.active, TableWindow(n - 1), TableOf(t, c, n - 1), strict);
      }
    }
  }

  lemma SwitchTidy(w: World, c: Frame, strict: bool)
    requires CanSwitch(w, c) && SwitchWorks(w, c) && Tidy(w, strict)
    ensures Tidy(Switch(w, c), strict)
  {
    SwitchArrives(w, c);
    IdentifiedFacts(w, c);
    IdentifiedTidy(w, c, strict);
    PointedFacts(Identified(w, c), c);
    PointedTidy(Identified(w, c), c, strict);
    RewrittenTidy(Pointed(Identified(w, c), c), c, 1024, strict);
    var u, v := Rewritten(Pointed(Identified(w, c), c), c, 1024), Switch(w, c);
    forall g: Frame | IsPaging(v, g) ensures AllWritten(v.mem[g], strict) {
      assert IsPaging(u, g);
    }
  }

  // ----- runs -----

  lemma KernelTidy(w: World, strict: bool)
    requires CanAllocKernel(w) && Tidy(w, strict)
    ensures Tidy(AllocKernel(w), strict)
  {
    ClaimTidy(w, strict);
    MapTidy(ClaimData(w), w.active, NextKernelPage(w), Pick(w.pm), strict);
    KernelMappedFacts(w);
    var v := KernelMapped(w);
    SetFrameTidy(v, v.active, v.mem[v.active][2 := NextPage(v.mem[v.active][2])], strict);
  }

  /** Callers do not map frame 0. */
  ghost predicate AvoidsZero(op: Runs.Op) {
    op.MapOp? ==> op.frame != 0
  }

  lemma StepTidy(w: World, op: Runs.Op, strict: bool)
    requires Runs.Enabled(w, op) && Inv(w) && Tidy(w, strict) && (strict ==> AvoidsZero(op))
    ensures Tidy(Runs.Step(w, op), strict)
  {
    match op
    case MapOp(c, p, f) => MapTidy(w, c, p, f, strict);
    case CreateOp => CreateTidy(w, strict);
    case SwitchOp(c) => SwitchTidy(w, c, strict);
    case AllocAtOp(c, p) =>
      ClaimTidy(w, strict);
      if !SaysMapped(Lookup(w, p)) {
        MapTidy(ClaimData(w), c, p, Pick(w.pm), strict);
      }
    case AllocKernelOp => KernelTidy(w, strict);
  }

  lemma {:induction false} RunTidy(w: World, ops: seq<Runs.Op>, strict: bool)
    requires Runs.Runnable(w, ops) && Inv(w) && Tidy(w, strict)
    requires strict ==> forall op | op in ops :: AvoidsZero(op)
    ensures Inv(Runs.Run(w, ops)) && Tidy(Runs.Run(w, ops), strict)
    decreases |ops|
  {
    if ops != [] {
      assert ops[0] in ops;
      StepTidy(w, ops[0], strict);
      Runs.StepKeepsInv(w, ops[0]);
      RunTidy(Runs.Step(w, ops[0]), ops[1..], strict);
    }
  }

  // ----- the processor and the entries -----

  /** Every entry that a walk in some context consults is zero or ends in binary 111. */
  lemma EntriesWritten(w: World, c: Frame, p: Page, strict: bool)
    requires Structured(w) && Tidy(w, strict) && IsContext(w, c)
    ensures Written(Slot(w, c, p / 1024), strict) && Written(EntryOf(w, c, p), strict)
  {
    assert ContextOk(w, c);
    assert IsPaging(w, Dir(w, c));
    if Present(Slot(w, c, p / 1024)) {
      assert HasRole(w, TableOf(w, c, p / 1024), TableRole(c, p / 1024));
      assert IsPaging(w, TableOf(w, c, p / 1024));
    }
  }

  /** The entries consulted are zero or end in binary 111, and let every access pass. */
  ghost predicate OpenToUsers(v: World, c: Frame, p: Page) {
    && (Slot(v, c, p / 1024) == 0 || Slot(v, c, p / 1024) % 8 == 7)
    && (EntryOf(v, c, p) == 0 || EntryOf(v, c, p) % 8 == 7)
    && (forall user: bool, write: bool :: Access(v.mem, Dir(v, c), p, user, write) == Translate(v, c, p))
  }

  lemma WrittenIsOpen(v: World, c: Frame, p: Page)
    requires Structured(v) && Tidy(v, false) && IsContext(v, c)
    ensures OpenToUsers(v, c, p)
  {
    EntriesWritten(v, c, p, false);
    OpenEntries(v, c, p);
  }

  lemma OpenEntries(v: World, c: Frame, p: Page)
    requires Written(Slot(v, c, p / 1024), false) && Written(EntryOf(v, c, p), false)
    ensures OpenToUsers(v, c, p)
  {
    WrittenOpens(Slot(v, c, p / 1024));
    WrittenOpens(EntryOf(v, c, p));
    OpenAccess(v.mem, Dir(v, c), p);
  }

  lemma WrittenOpens(e: Word)
    requires Written(e, false)
    ensures IsOpen(e)
  {
  }

  /**
   After any run, every entry consulted for any page of any context is zero or ends in binary 111, so that
   user mode may read and write every page that is mapped, and reaches the frame that the kernel reaches.
   */
  lemma UserReachesMapped(w: World, ops: seq<Runs.Op>, c: Frame, p: Page)
    requires Runs.Runnable(w, ops) && Inv(w) && Tidy(w, false) && IsContext(Runs.Run(w, ops), c)
    ensures OpenToUsers(Runs.Run(w, ops), c, p)
  {
    RunTidy(w, ops, false);
    WrittenIsOpen(Runs.Run(w, ops), c, p);
  }

  /** After a mapping in either kind of context, a user-mode write to the page reaches the frame. */
  lemma UserWriteReaches(w: World, c: Frame, p: Page, f: Frame)
    requires CanMap(w, c, p) && Tidy(w, false)
    ensures var v := Map(w, c, p, f);
            Access(v.mem, Dir(v, c), p, true, true) == Some(f)
  {
    MapTidy(w, c, p, f, false);
    MapExtends(w, c, p, f);
    MapTranslations(w, c, p, f, c, p);
    WrittenIsOpen(Map(w, c, p, f), c, p);
  }

  lemma TidyEntries(w: World, p: Page)
    requires Structured(w) && Tidy(w, true)
    ensures TidyEntry(EntryOf(w, w.active, p))
  {
    EntriesWritten(w, w.active, p, true);
  }

  /**
   After any run that avoids frame 0, vmm_get_mapping answers with neither 0 nor 0xFFFFFFFF exactly for
   the pages that the processor can reach, and then names the frame that the processor reaches.
   */
  lemma SoftwareAgreesWithHardware(w: World, ops: seq<Runs.Op>, p: Page)
    requires Runs.Runnable(w, ops) && Inv(w) && Tidy(w, true)
    requires forall op | op in ops :: AvoidsZero(op)
    ensures var v := Runs.Run(w, ops);
            && (SaysMapped(Lookup(v, p)) <==> Translate(v, v.active, p).Some?)
            && (Translate(v, v.active, p).Some? ==> Lookup(v, p) == AddressOf(Translate(v, v.active, p).value))
  {
    RunTidy(w, ops, true);
    TidyEntries(Runs.Run(w, ops), p);
    LookupAgrees(Runs.Run(w, ops), p);
  }

  /**
   vmm_alloc_at is given a context but asks about the active one. For a context `c` it refuses what is
   mapped, and only that, on every page exactly if `c` and the active context map the same user pages.
   */
  lemma AnswersAllPages(w: World, c: Frame)
    requires Inv(w) && Tidy(w, true) && IsContext(w, c)
    ensures (forall p: Page :: SaysMapped(Lookup(w, p)) <==> Translate(w, c, p).Some?) <==>
            (forall p: Page | 0x4_0000 <= p :: Translate(w, w.active, p).Some? <==> Translate(w, c, p).Some?)
  {
    forall p: Page
      ensures SaysMapped(Lookup(w, p)) <==> Translate(w, w.active, p).Some?
      ensures p / 1024 < KERNEL_SLOTS ==> (SaysMapped(Lookup(w, p)) <==> Translate(w, c, p).Some?)
    {
      TidyEntries(w, p);
      LookupAgrees(w, p);
      if p / 1024 < KERNEL_SLOTS {
        RefusesExactlyMapped(w, c, p);
      }
    }
  }

  /** Mapping frame 0 breaks the agreement at once: the page is mapped and reported unmapped. */
  lemma FrameZeroLooksUnmapped(w: World, p: Page)
    requires CanMap(w, w.active, p)
    ensures var v := Map(w, w.active, p, 0);
            Translate(v, v.active, p) == Some(0) && !SaysMapped(Lookup(v, p))
  {
    MapTranslations(w, w.active, p, 0, w.active, p);
    MapExtends(w, w.active, p, 0);
    LookupAfterMap(w, p, 0);
  }
}
