/**
 What vmm_map_page is for, stated on physical memory and without any window: which entry is written,
 which tables are created, and what every context translates to afterwards.
 */
module Mapping {
  import opened Words
  import opened Pmm
  import opened World

  ghost predicate Enough(pm: PmmState, n: nat) {
    n <= |Reachable(pm)|
  }

  lemma EnoughToAlloc(pm: PmmState, n: nat)
    requires Enough(pm, n) && n > 0 && CacheAgrees(pm)
    ensures CanAlloc(pm) && Enough(AfterAlloc(pm), n - 1)
  {
    CanAllocReachable(pm);
    AllocSpends(pm);
  }

  /** The slot that holds the window of slot `i`. */
  function WindowSlot(i: nat): nat
    requires i < 1024
  {
    TableWindow(i) / 1024
  }

  lemma WindowSlots(i: nat)
    requires i < 1024
    ensures WindowSlot(i) == if i < 1022 then 1 else 2
  {
  }

  /** Page tables that mapping a page of slot `i` of the active context creates. */
  ghost function TablesNeeded(w: World, i: nat): (n: nat)
    requires i < 1024
    ensures n <= 2
  {
    if Present(Slot(w, w.active, i)) then 0
    else if i < 1022 || Present(Slot(w, w.active, 2)) then 1
    else 2
  }

  /** A new table may only enter a slot that is not shared with another context. */
  ghost predicate Mappable(w: World, c: Frame, p: Page) {
    Present(Slot(w, c, p / 1024)) || KERNEL_SLOTS <= p / 1024 || Sole(w)
  }

  /** The code can run: the windows of new tables have a place, and there are frames for these tables. */
  ghost predicate CanEnter(w: World, p: Page) {
    && CacheAgrees(w.pm) && Dir(w, w.active) != w.active
    && Present(Slot(w, w.active, 1))
    && Enough(w.pm, TablesNeeded(w, p / 1024))
  }

  ghost predicate CanMapHere(w: World, p: Page) {
    && Structured(w)
    && CanEnter(w, p)
    && (Sole(w) || Present(Slot(w, w.active, 2)))
    && Mappable(w, w.active, p)
  }

  /** `v` results from `w` by adding tables and writing entries: contexts stay, present slots stay. */
  ghost predicate Extends(w: World, v: World) {
    && Structured(v)
    && v.cr3 == w.cr3 && v.active == w.active
    && (forall d: Frame :: IsContext(v, d) <==> IsContext(w, d))
    && (forall d: Frame | IsContext(w, d) :: v.mem[d] == w.mem[d])
    && (forall d: Frame, j: nat | IsContext(w, d) && j < 1024 && Present(Slot(w, d, j)) ::
          Slot(v, d, j) == Slot(w, d, j))
    && v.pm.free <= w.pm.free
    && (forall g: Frame | g in w.roles :: g in v.roles && v.roles[g] == w.roles[g])
  }

  lemma ExtendsTransitive(u: World, v: World, w: World)
    requires Extends(u, v) && Extends(v, w)
    ensures Extends(u, w)
  {
    forall d: Frame, j: nat | IsContext(u, d) && j < 1024 && Present(Slot(u, d, j))
      ensures Slot(w, d, j) == Slot(u, d, j)
    {
      assert Slot(v, d, j) == Slot(u, d, j);
    }
  }

  lemma PutEntryExtends(w: World, c: Frame, p: Page, f: Frame)
    requires Structured(w) && IsContext(w, c) && Present(Slot(w, c, p / 1024))
    ensures Extends(w, PutEntry(w, c, p, f))
  {
    PutEntryStructure(w, c, p, f);
  }

  lemma AddTableExtends(w: World, c: Frame, i: nat)
    requires Structured(w) && IsContext(w, c) && CanAlloc(w.pm)
    requires i < 1024 && !Present(Slot(w, c, i))
    requires KERNEL_SLOTS <= i || Sole(w)
    ensures Extends(w, AddTable(w, c, i))
    ensures Slot(AddTable(w, c, i), c, i) == Entry(Pick(w.pm))
    ensures forall j: nat | j < 1024 && j != i :: Slot(AddTable(w, c, i), c, j) == Slot(w, c, j)
  {
    AddTableEffect(w, c, i);
    assert Pick(w.pm) in w.pm.free;
  }

  lemma StaysPresent(u: World, v: World, i: nat)
    requires Extends(u, v) && IsContext(u, u.active)
    requires i < 1024 && Present(Slot(u, u.active, i))
    ensures Present(Slot(v, u.active, i))
  {
  }

  ghost function NewTable(w: World, p: Page): World
    requires CanAlloc(w.pm)
  {
    AddTable(w, w.active, p / 1024)
  }

  lemma NewTableEnters(w: World, p: Page)
    requires CanEnter(w, p) && !Present(Slot(w, w.active, p / 1024))
    ensures CanAlloc(w.pm) && CanEnter(NewTable(w, p), TableWindow(p / 1024))
    ensures TablesNeeded(NewTable(w, p), WindowSlot(p / 1024)) == TablesNeeded(w, p / 1024) - 1
    ensures forall j: nat | j < 1024 ::
              Slot(NewTable(w, p), w.active, j) == if j == p / 1024 then Entry(Pick(w.pm)) else Slot(w, w.active, j)
  {
    var i := p / 1024;
    EnoughToAlloc(w.pm, TablesNeeded(w, i));
    EntryFields(Pick(w.pm));
    WindowSlots(i);
    var u := NewTable(w, p);
    assert u.mem[w.active] == w.mem[w.active];
    assert Slot(u, w.active, 2) == if i == 2 then Entry(Pick(w.pm)) else Slot(w, w.active, 2);
    assert Slot(u, w.active, 1) == Slot(w, w.active, 1);
  }

  lemma NewTableFacts(w: World, p: Page)
    requires CanMapHere(w, p) && !Present(Slot(w, w.active, p / 1024))
    ensures CanAlloc(w.pm)
    ensures Extends(w, NewTable(w, p)) && CanMapHere(NewTable(w, p), TableWindow(p / 1024))
    ensures Present(Slot(NewTable(w, p), w.active, p / 1024)) && IsContext(w, w.active)
    ensures TablesNeeded(NewTable(w, p), WindowSlot(p / 1024)) == TablesNeeded(w, p / 1024) - 1
    ensures |NewTable(w, p).pm.free| == |w.pm.free| - 1
    ensures |Reachable(NewTable(w, p).pm)| == |Reachable(w.pm)| - 1
  {
    NewTableEnters(w, p);
    AllocSpends(w.pm);
    AddTableExtends(w, w.active, p / 1024);
    EntryFields(Pick(w.pm));
    WindowSlots(p / 1024);
    assert Present(Slot(w, w.active, 2)) ==> Present(Slot(NewTable(w, p), w.active, 2));
  }

  /**
   The active context after `p` has been mapped to `f`. A missing table is taken from the allocator,
   entered, and given its window, which may need a table for slot 2 first.
   */
  ghost function MapHere(w: World, p: Page, f: Frame): World
    requires CanEnter(w, p)
    decreases TablesNeeded(w, p / 1024)
  {
    var i := p / 1024;
    if Present(Slot(w, w.active, i)) then
      PutEntry(w, w.active, p, f)
    else
      NewTableEnters(w, p);
      PutEntry(MapHere(NewTable(w, p), TableWindow(i), Pick(w.pm)), w.active, p, f)
  }

  lemma EnterExtends(u: World, v: World, p: Page, f: Frame)
    requires Extends(u, v) && IsContext(u, u.active) && Present(Slot(u, u.active, p / 1024))
    ensures Extends(u, PutEntry(v, u.active, p, f))
    ensures Present(Slot(PutEntry(v, u.active, p, f), u.active, p / 1024))
  {
    PutEntryExtends(v, u.active, p, f);
    StaysPresent(u, v, p / 1024);
    ExtendsTransitive(u, v, PutEntry(v, u.active, p, f));
    StaysPresent(u, PutEntry(v, u.active, p, f), p / 1024);
  }

  lemma ExtendsSelf(w: World)
    requires Structured(w)
    ensures Extends(w, w)
  {
  }

  lemma {:induction false} MapHereExtends(w: World, p: Page, f: Frame)
    requires CanMapHere(w, p)
    ensures Extends(w, MapHere(w, p, f))
    ensures Present(Slot(MapHere(w, p, f), w.active, p / 1024))
    ensures |MapHere(w, p, f).pm.free| == |w.pm.free| - TablesNeeded(w, p / 1024)
    ensures |Reachable(MapHere(w, p, f).pm)| == |Reachable(w.pm)| - TablesNeeded(w, p / 1024)
    decreases TablesNeeded(w, p / 1024)
  {
    var i := p / 1024;
    if Present(Slot(w, w.active, i)) {
      ExtendsSelf(w);
      EnterExtends(w, w, p, f);
    } else {
      NewTableFacts(w, p);
      var u := NewTable(w, p);
      MapHereExtends(u, TableWindow(i), Pick(w.pm));
      EnterExtends(u, MapHere(u, TableWindow(i), Pick(w.pm)), p, f);
      ExtendsTransitive(w, u, MapHere(w, p, f));
    }
  }

  /** The slots whose tables are created when a page of slot `i` is mapped in the active context. */
  ghost function NewSlots(w: World, i: nat): set<nat>
    requires i < 1024
  {
    if Present(Slot(w, w.active, i)) then {}
    else if i < 1022 || Present(Slot(w, w.active, 2)) then {i}
    else {i, 2}
  }

  ghost predicate IsNewWindow(w: World, i: nat, q: Page)
    requires i < 1024
  {
    TABLE_WINDOWS <= q < TABLE_WINDOWS + 1024 && q - TABLE_WINDOWS in NewSlots(w, i)
  }

  lemma NewTableSlots(w: World, p: Page)
    requires CanMapHere(w, p) && !Present(Slot(w, w.active, p / 1024))
    ensures CanAlloc(w.pm)
    ensures var u, i := NewTable(w, p), p / 1024;
            && NewSlots(u, WindowSlot(i)) == NewSlots(w, i) - {i}
            && (forall d: Frame, j: nat | IsContext(w, d) && j < 1024 ::
                  Slot(u, d, j) == if d == w.active && j == i then Entry(Pick(w.pm)) else Slot(w, d, j))
            && (forall d: Frame, q: Page | IsContext(w, d) :: Translate(u, d, q) == Translate(w, d, q))
  {
    var i := p / 1024;
    EnoughToAlloc(w.pm, TablesNeeded(w, i));
    AddTableEffect(w, w.active, i);
    EntryFields(Pick(w.pm));
    WindowSlots(i);
    var u := NewTable(w, p);
    assert Slot(u, w.active, 2) == if i == 2 then Entry(Pick(w.pm)) else Slot(w, w.active, 2);
    assert Slot(u, w.active, 1) == Slot(w, w.active, 1);
  }

  /** The state in which the mapping of `p` is finally entered has everything but that entry. */
  lemma BeforeEntry(w: World, p: Page, d: Frame)
    requires CanMapHere(w, p) && !Present(Slot(w, w.active, p / 1024)) && IsContext(w, d)
    ensures CanAlloc(w.pm) && CanMapHere(NewTable(w, p), TableWindow(p / 1024))
    ensures var v := MapHere(NewTable(w, p), TableWindow(p / 1024), Pick(w.pm));
            && Structured(v) && v.active == w.active && IsContext(v, v.active) && IsContext(v, d)
            && Slot(v, v.active, p / 1024) == Entry(Pick(w.pm))
            && Present(Slot(v, v.active, p / 1024)) && FrameOf(Entry(Pick(w.pm))) == Pick(w.pm)
  {
    NewTableFacts(w, p);
    var u := NewTable(w, p);
    MapHereExtends(u, TableWindow(p / 1024), Pick(w.pm));
    StaysPresent(u, MapHere(u, TableWindow(p / 1024), Pick(w.pm)), p / 1024);
    EntryFields(Pick(w.pm));
  }

  lemma NewWindowSplit(w: World, p: Page, d: Frame, q: Page)
    requires CanMapHere(w, p) && !Present(Slot(w, w.active, p / 1024))
    ensures CanAlloc(w.pm)
    ensures var u, i := NewTable(w, p), p / 1024;
            && (IsNewWindow(w, i, q) <==> q == TableWindow(i) || IsNewWindow(u, WindowSlot(i), q))
            && (Affects(u.active, TableWindow(i), d, q) <==> q == TableWindow(i))
  {
    NewTableSlots(w, p);
    WindowSlots(p / 1024);
  }

  /** Exactly the missing slots become present, in the active context only. */
  lemma {:induction false} MapHereSlots(w: World, p: Page, f: Frame, d: Frame, j: nat)
    requires CanMapHere(w, p) && IsContext(w, d) && j < 1024
    ensures var v := MapHere(w, p, f);
            if d == w.active && j in NewSlots(w, p / 1024) then Present(Slot(v, d, j))
            else Slot(v, d, j) == Slot(w, d, j)
    decreases TablesNeeded(w, p / 1024)
  {
    var i := p / 1024;
    if Present(Slot(w, w.active, i)) {
      PutEntryStructure(w, w.active, p, f);
    } else {
      BeforeEntry(w, p, d);
      var u := NewTable(w, p);
      NewTableSlots(w, p);
      NewTableFacts(w, p);
      MapHereSlots(u, TableWindow(i), Pick(w.pm), d, j);
      PutEntryStructure(MapHere(u, TableWindow(i), Pick(w.pm)), w.active, p, f);
    }
  }

  /**
   Map correctness with frame: `p` translates to `f` wherever the written table is in use, and every
   page of every context other than a window of a new table translates as before.
   */
  lemma {:induction false} MapHereTranslations(w: World, p: Page, f: Frame, d: Frame, q: Page)
    requires CanMapHere(w, p) && IsContext(w, d)
    ensures var v := MapHere(w, p, f);
            && (Affects(w.active, p, d, q) ==> Translate(v, d, q) == Some(f))
            && (!Affects(w.active, p, d, q) && !IsNewWindow(w, p / 1024, q) ==>
                  Translate(v, d, q) == Translate(w, d, q))
    decreases TablesNeeded(w, p / 1024)
  {
    var i := p / 1024;
    if Present(Slot(w, w.active, i)) {
      PutEntryTranslations(w, w.active, p, f, d, q);
    } else {
      BeforeEntry(w, p, d);
      var u := NewTable(w, p);
      NewTableFacts(w, p);
      AddTableTranslations(w, w.active, i, d, q);
      MapHereTranslations(u, TableWindow(i), Pick(w.pm), d, q);
      NewWindowSplit(w, p, d, q);
      PutEntryTranslations(MapHere(u, TableWindow(i), Pick(w.pm)), w.active, p, f, d, q);
    }
  }

  /** Every new table gets its window, unless the window itself is being mapped elsewhere. */
  lemma {:induction false} NewTablesGetWindows(w: World, p: Page, f: Frame, j: nat)
    requires CanMapHere(w, p)
    requires j in NewSlots(w, p / 1024) && j < 1024 && TableWindow(j) != p
    ensures TableWindowOk(MapHere(w, p, f), j)
    decreases TablesNeeded(w, p / 1024)
  {
    var i := p / 1024;
    BeforeEntry(w, p, w.active);
    var u := NewTable(w, p);
    var v := MapHere(u, TableWindow(i), Pick(w.pm));
    NewTableSlots(w, p);
    NewTableFacts(w, p);
    PutEntryStructure(v, w.active, p, f);
    PutEntryTranslations(v, w.active, p, f, w.active, TableWindow(j));
    if j == i {
      MapHereTranslations(u, TableWindow(i), Pick(w.pm), w.active, TableWindow(i));
      EntryFields(Pick(w.pm));
    } else {
      NewTablesGetWindows(u, TableWindow(i), Pick(w.pm), j);
    }
  }

  /** The self-map stays coherent under every mapping of a page that shows nothing. */
  lemma MapHereKeepsCoherence(w: World, p: Page, f: Frame)
    requires Coherent(w) && CanMapHere(w, p) && Spare(w, p)
    ensures Inv(MapHere(w, p, f))
  {
    var v := MapHere(w, p, f);
    MapHereExtends(w, p, f);
    FixedWindowsStay(w, p, f);
    forall j: nat | j < 1024 ensures TableWindowOk(v, j) {
      assert TableWindowOk(w, j);
      if IsTableWindow(p, j) {
        SpareWindowStaysSpare(w, p, f, j);
      } else {
        TableWindowStays(w, p, f, j);
      }
    }
  }

  /** Mapping the window of an absent slot does not create that slot's table. */
  lemma SpareWindowStaysSpare(w: World, p: Page, f: Frame, j: nat)
    requires CanMapHere(w, p) && IsTableWindow(p, j) && !Present(Slot(w, w.active, j))
    ensures !Present(Slot(MapHere(w, p, f), w.active, j)) && MapHere(w, p, f).active == w.active
  {
    MapHereActive(w, p, f);
    MapHereSlots(w, p, f, w.active, j);
    SpareSlotNotNew(w, p, j);
  }

  lemma SpareSlotNotNew(w: World, p: Page, j: nat)
    requires Present(Slot(w, w.active, 1)) && IsTableWindow(p, j)
    ensures j !in NewSlots(w, p / 1024)
  {
    WindowSlots(j);
  }

  lemma FixedWindowsStay(w: World, p: Page, f: Frame)
    requires CanMapHere(w, p) && p != CONTEXT_WINDOW && p != DIRECTORY_WINDOW
    ensures var v := MapHere(w, p, f);
            && v.active == w.active && v.cr3 == w.cr3
            && Translate(v, w.active, CONTEXT_WINDOW) == Translate(w, w.active, CONTEXT_WINDOW)
            && Translate(v, w.active, DIRECTORY_WINDOW) == Translate(w, w.active, DIRECTORY_WINDOW)
            && Present(Slot(v, w.active, 1))
            && (Sole(w) ==> Sole(v))
            && (Present(Slot(w, w.active, 2)) ==> Present(Slot(v, w.active, 2)))
  {
    MapHereExtends(w, p, f);
    MapHereTranslations(w, p, f, w.active, CONTEXT_WINDOW);
    MapHereTranslations(w, p, f, w.active, DIRECTORY_WINDOW);
    MapHereSlots(w, p, f, w.active, 1);
    MapHereSlots(w, p, f, w.active, 2);
  }

  lemma TableWindowStays(w: World, p: Page, f: Frame, j: nat)
    requires CanMapHere(w, p) && j < 1024 && TableWindow(j) != p
    requires TableWindowOk(w, j)
    ensures TableWindowOk(MapHere(w, p, f), j)
  {
    if j in NewSlots(w, p / 1024) {
      NewTablesGetWindows(w, p, f, j);
    } else {
      OldTableWindowStays(w, p, f, j);
    }
  }

  lemma OldTableWindowStays(w: World, p: Page, f: Frame, j: nat)
    requires CanMapHere(w, p) && j < 1024 && TableWindow(j) != p && j !in NewSlots(w, p / 1024)
    requires TableWindowOk(w, j)
    ensures TableWindowOk(MapHere(w, p, f), j)
  {
    MapHereSlots(w, p, f, w.active, j);
    assert !IsNewWindow(w, p / 1024, TableWindow(j)) && !Affects(w.active, p, w.active, TableWindow(j));
    MapHereTranslations(w, p, f, w.active, TableWindow(j));
    MapHereActive(w, p, f);
  }

  lemma MapHereActive(w: World, p: Page, f: Frame)
    requires CanMapHere(w, p)
    ensures MapHere(w, p, f).active == w.active && MapHere(w, p, f).cr3 == w.cr3
  {
    MapHereExtends(w, p, f);
  }
}
