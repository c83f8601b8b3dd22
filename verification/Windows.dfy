/**
 What the code does when it edits the active address space: every directory and table is reached through
 its window page, by whatever that page translates to at the moment.
 */
module Windows {
  import opened Words
  import opened Pmm
  import opened Mmu
  import opened World
  import opened Mapping
  import opened OtherContext

  /** The frame behind page `q` of the address space in CR3 (meant for pages that are mapped). */
  ghost function Seen(w: World, q: Page): Frame {
    var t := Walk(w.mem, w.cr3, q);
    if t.Some? then t.value else 0
  }

  ghost predicate Mapped(w: World, q: Page) {
    Walk(w.mem, w.cr3, q).Some?
  }

  /** The entry of page `p`, written into frame `g`. */
  ghost function PutIn(w: World, g: Frame, p: Page, f: Frame): World {
    w.(mem := Store(w.mem, g, p % 1024, Entry(f)))
  }

  /** The entry of page `p`, written wherever the window of its table leads. */
  ghost function WriteThrough(w: World, p: Page, f: Frame): World {
    PutIn(w, Seen(w, TableWindow(p / 1024)), p, f)
  }

  /** An entry for `p` in frame `g` can change no other page of the address space in CR3. */
  ghost predicate Harmless(w: World, g: Frame, p: Page) {
    && g != w.cr3
    && forall i: nat | i < 1024 && Present(w.mem[w.cr3][i]) && FrameOf(w.mem[w.cr3][i]) == g :: i == p / 1024
  }

  /** Mapping `p` is a single write: its slot is present as seen, and its table's window leads somewhere. */
  ghost predicate Direct(w: World, p: Page) {
    && Mapped(w, DIRECTORY_WINDOW) && Present(w.mem[Seen(w, DIRECTORY_WINDOW)][p / 1024])
    && Mapped(w, TableWindow(p / 1024)) && Harmless(w, Seen(w, TableWindow(p / 1024)), p)
  }

  /** The windows that mapping `p` goes through are truthful. */
  ghost predicate ThroughWindows(w: World, p: Page) {
    && Structured(w) && CanEnter(w, p)
    && (Sole(w) || Present(Slot(w, w.active, 2)))
    && Translate(w, w.active, DIRECTORY_WINDOW) == Some(w.cr3)
    && TableWindowOk(w, 1)
    && TableWindowOk(w, p / 1024)
    && (!Present(Slot(w, w.active, p / 1024)) ==> TableWindowOk(w, WindowSlot(p / 1024)))
  }

  lemma CoherentIsReady(w: World, p: Page)
    requires Inv(w) && CanEnter(w, p)
    ensures ThroughWindows(w, p)
  {
    assert TableWindowOk(w, 1) && TableWindowOk(w, p / 1024) && TableWindowOk(w, WindowSlot(p / 1024));
  }

  lemma PutInWalk(w: World, g: Frame, p: Page, f: Frame, q: Page)
    requires Harmless(w, g, p)
    ensures WalkedTable(PutIn(w, g, p, f).mem, w.cr3, q) == WalkedTable(w.mem, w.cr3, q)
    ensures q != p ==> Walk(PutIn(w, g, p, f).mem, w.cr3, q) == Walk(w.mem, w.cr3, q)
    ensures WalkedTable(w.mem, w.cr3, p) == Some(g) ==> Walk(PutIn(w, g, p, f).mem, w.cr3, p) == Some(f)
    ensures WalkedTable(w.mem, w.cr3, p) != Some(g) ==>
              Walk(PutIn(w, g, p, f).mem, w.cr3, p) == Walk(w.mem, w.cr3, p)
  {
    StoreAndWalk(w.mem, w.cr3, g, p % 1024, Entry(f), q);
    StoreAndWalk(w.mem, w.cr3, g, p % 1024, Entry(f), p);
    EntryFields(f);
  }

  lemma HarmlessTable(w: World, c: Frame, p: Page)
    requires Structured(w) && IsContext(w, c) && Present(Slot(w, c, p / 1024))
    ensures Harmless(w, TableOf(w, c, p / 1024), p)
  {
    TablesAreNotDirectories(w, c, p / 1024, w.active);
    forall i: nat
      | i < 1024 && Present(w.mem[w.cr3][i]) && FrameOf(w.mem[w.cr3][i]) == TableOf(w, c, p / 1024)
      ensures i == p / 1024
    {
      assert Present(Slot(w, w.active, i)) && TableOf(w, w.active, i) == TableOf(w, c, p / 1024);
    }
  }

  /** With truthful windows and a present slot the code writes the entry that is meant. */
  lemma DirectEntry(w: World, p: Page, f: Frame)
    requires Structured(w) && Present(Slot(w, w.active, p / 1024)) && TableWindowOk(w, p / 1024)
    ensures Mapped(w, TableWindow(p / 1024)) && Harmless(w, Seen(w, TableWindow(p / 1024)), p)
    ensures WriteThrough(w, p, f) == PutEntry(w, w.active, p, f)
  {
    HarmlessTable(w, w.active, p);
  }

  lemma ReadyIsDirect(w: World, p: Page, f: Frame)
    requires ThroughWindows(w, p) && Present(Slot(w, w.active, p / 1024))
    ensures Direct(w, p) && MapHere(w, p, f) == WriteThrough(w, p, f) == PutEntry(w, w.active, p, f)
  {
    DirectEntry(w, p, f);
  }

  // ----- creating a table -----

  /** A table for slot 2 has to come first. */
  ghost predicate NeedsSlot2(w: World, p: Page) {
    p / 1024 >= 1022 && !Present(Slot(w, w.active, 2))
  }

  /** Apart from that, the window of a new table is a single write, whoever else shares the slot. */
  lemma NewWindowIsDirect(w: World, p: Page, t: Frame)
    requires ThroughWindows(w, p) && !Present(Slot(w, w.active, p / 1024)) && !NeedsSlot2(w, p)
    ensures CanAlloc(w.pm)
    ensures var u, q := NewTable(w, p), TableWindow(p / 1024);
            Direct(u, q) && CanEnter(u, q) && MapHere(u, q, t) == WriteThrough(u, q, t) == PutEntry(u, u.active, q, t)
  {
    NewTableEnters(w, p);
    var u, i := NewTable(w, p), p / 1024;
    var q, j := TableWindow(i), WindowSlot(i);
    WindowSlots(i);
    WindowSlots(j);
    assert Present(Slot(w, w.active, j)) && TableWindowOk(w, j);
    AddTableTranslations(w, w.active, i, w.active, DIRECTORY_WINDOW);
    AddTableTranslations(w, w.active, i, w.active, TableWindow(j));
    AddTableSlots(w, w.active, i, w.active);
    TablesAreNotDirectories(w, w.active, j, w.active);
    assert Slot(u, w.active, j) == Slot(w, w.active, j);
    OldTableHarmless(w, p, j, q);
  }

  lemma OldTableHarmless(w: World, p: Page, j: nat, q: Page)
    requires Structured(w) && CanEnter(w, p) && !Present(Slot(w, w.active, p / 1024))
    requires j < 1024 && Present(Slot(w, w.active, j)) && q / 1024 == j
    ensures CanAlloc(w.pm) && Harmless(NewTable(w, p), TableOf(w, w.active, j), q)
  {
    NewTableEnters(w, p);
    HarmlessTable(w, w.active, q);
    var u, g := NewTable(w, p), TableOf(w, w.active, j);
    TablesAreNotDirectories(w, w.active, j, w.active);
    assert Pick(w.pm) in w.pm.free;
    EntryFields(Pick(w.pm));
    forall k: nat | k < 1024 && Present(u.mem[u.cr3][k]) && FrameOf(u.mem[u.cr3][k]) == g ensures k == q / 1024 {
      assert u.mem[u.cr3][k] == Slot(u, w.active, k);
    }
  }

  /** A table for slot 2 is needed only for tables of the user half, which leave the structure intact. */
  lemma NewTableIsReady(w: World, p: Page)
    requires ThroughWindows(w, p) && !Present(Slot(w, w.active, p / 1024)) && NeedsSlot2(w, p)
    ensures CanAlloc(w.pm) && CanMapHere(w, p) && ThroughWindows(NewTable(w, p), TableWindow(p / 1024))
  {
    NewTableSlots(w, p);
    NewTableFacts(w, p);
    var u, i := NewTable(w, p), p / 1024;
    WindowSlots(i);
    assert Slot(u, w.active, 1) == Slot(w, w.active, 1);
    assert Slot(u, w.active, 2) == Slot(w, w.active, 2);
    assert TableWindowOk(u, 1) && TableWindowOk(u, WindowSlot(i)) && TableWindowOk(u, WindowSlot(WindowSlot(i)));
  }

  /** The new table is now shown by its window, and is in use nowhere else. */
  ghost predicate TableAtHand(v: World, p: Page, t: Frame) {
    && Walk(v.mem, v.cr3, TableWindow(p / 1024)) == Some(t)
    && Harmless(v, t, p) && TableOf(v, v.active, p / 1024) == t
  }

  lemma NewTableAtHand(w: World, p: Page)
    requires ThroughWindows(w, p) && !Present(Slot(w, w.active, p / 1024))
    ensures CanAlloc(w.pm) && CanEnter(NewTable(w, p), TableWindow(p / 1024))
    ensures var v := MapHere(NewTable(w, p), TableWindow(p / 1024), Pick(w.pm));
            TableAtHand(v, p, Pick(w.pm)) && v.active == w.active && v.cr3 == w.cr3
  {
    NewTableEnters(w, p);
    if NeedsSlot2(w, p) {
      NewTableIsReady(w, p);
      NewTableSlots(w, p);
      BeforeEntry(w, p, w.active);
      var v := MapHere(NewTable(w, p), TableWindow(p / 1024), Pick(w.pm));
      MapHereTranslations(NewTable(w, p), TableWindow(p / 1024), Pick(w.pm), w.active, TableWindow(p / 1024));
      HarmlessTable(v, v.active, p);
      NewTableFacts(w, p);
      MapHereActive(NewTable(w, p), TableWindow(p / 1024), Pick(w.pm));
    } else {
      NewTableAtHandDirectly(w, p);
    }
  }

  lemma NewTableAtHandDirectly(w: World, p: Page)
    requires ThroughWindows(w, p) && !Present(Slot(w, w.active, p / 1024)) && !NeedsSlot2(w, p)
    ensures CanAlloc(w.pm) && CanEnter(NewTable(w, p), TableWindow(p / 1024))
    ensures var v := MapHere(NewTable(w, p), TableWindow(p / 1024), Pick(w.pm));
            TableAtHand(v, p, Pick(w.pm)) && v.active == w.active && v.cr3 == w.cr3
  {
    NewWindowIsDirect(w, p, Pick(w.pm));
    NewTableEnters(w, p);
    var t, u, i := Pick(w.pm), NewTable(w, p), p / 1024;
    var q, j := TableWindow(i), WindowSlot(i);
    WindowSlots(i);
    EntryFields(t);
    var g := Seen(u, TableWindow(j));
    PutInWalk(u, g, q, t, q);
    var v := WriteThrough(u, q, t);
    TablesAreNotDirectories(w, w.active, j, w.active);
    assert Slot(u, w.active, j) == Slot(w, w.active, j);
    AddTableTranslations(w, w.active, i, w.active, TableWindow(j));
    assert TableWindowOk(w, j);
    assert t in w.pm.free && ContextOk(w, w.active);
    assert v.mem[v.cr3] == u.mem[u.cr3] && v.mem[v.active] == w.mem[w.active];
    NewFrameHarmless(w, p);
  }

  lemma NewFrameHarmless(w: World, p: Page)
    requires Structured(w) && CanEnter(w, p) && !Present(Slot(w, w.active, p / 1024))
    ensures CanAlloc(w.pm) && Harmless(NewTable(w, p), Pick(w.pm), p)
  {
    NewTableEnters(w, p);
    var t, u := Pick(w.pm), NewTable(w, p);
    assert t in w.pm.free && ContextOk(w, w.active);
    EntryFields(t);
    forall k: nat | k < 1024 && Present(u.mem[u.cr3][k]) && FrameOf(u.mem[u.cr3][k]) == t ensures k == p / 1024 {
      assert Slot(u, w.active, k) == if k == p / 1024 then Entry(t) else Slot(w, w.active, k);
      assert Present(Slot(w, w.active, k)) ==> HasRole(w, TableOf(w, w.active, k), TableRole(w.active, k));
    }
  }

  // ----- vmm_map_page in the active context, either way -----

  ghost predicate PresentAsSeen(w: World, p: Page) {
    Present(w.mem[Seen(w, DIRECTORY_WINDOW)][p / 1024])
  }

  lemma PresentCase(w: World, p: Page, f: Frame)
    requires ThroughWindows(w, p) || Direct(w, p)
    requires PresentAsSeen(w, p)
    ensures Direct(w, p) && (ThroughWindows(w, p) ==> MapHere(w, p, f) == WriteThrough(w, p, f))
  {
    if ThroughWindows(w, p) {
      ReadyIsDirect(w, p, f);
    }
  }

  lemma AbsentCase(w: World, p: Page, f: Frame)
    requires ThroughWindows(w, p) || Direct(w, p)
    requires !PresentAsSeen(w, p)
    ensures ThroughWindows(w, p) && !Direct(w, p) && !Present(Slot(w, w.active, p / 1024))
    ensures CanAlloc(w.pm) && CanEnter(NewTable(w, p), TableWindow(p / 1024))
    ensures var v, t := MapHere(NewTable(w, p), TableWindow(p / 1024), Pick(w.pm)), Pick(w.pm);
            && Walk(v.mem, v.cr3, TableWindow(p / 1024)) == Some(t) && Harmless(v, t, p)
            && PutIn(v, t, p, f) == MapHere(w, p, f)
  {
    NewTableAtHand(w, p);
  }

  // ----- when a mapping in the active context keeps the invariant -----

  /** A new table in a shared slot reaches one context only. */
  lemma MapHereTears(w: World, p: Page, f: Frame)
    requires Inv(w) && CanEnter(w, p) && !Mappable(w, w.active, p)
    ensures !Structured(MapHere(w, p, f))
  {
    var a, i := w.active, p / 1024;
    var d: Frame :| IsContext(w, d) && d != a;
    CoherentIsReady(w, p);
    WindowSlots(i);
    NewWindowIsDirect(w, p, Pick(w.pm));
    NewTableAtHand(w, p);
    var t := Pick(w.pm);
    var v := PutEntry(NewTable(w, p), a, TableWindow(i), t);
    assert MapHere(w, p, f) == PutIn(v, t, p, f);
    OneContextExtended(w, p, f, d, v);
    assert IsContext(MapHere(w, p, f), a) && IsContext(MapHere(w, p, f), d);
    assert !(ContextOk(MapHere(w, p, f), a) && ContextOk(MapHere(w, p, f), d));
  }

  lemma OneContextExtended(w: World, p: Page, f: Frame, d: Frame, v: World)
    requires Structured(w) && IsContext(w, d) && d != w.active && CanEnter(w, p) && !Mappable(w, w.active, p)
    requires CanAlloc(w.pm) && v == PutEntry(NewTable(w, p), w.active, TableWindow(p / 1024), Pick(w.pm))
    ensures var x := PutIn(v, Pick(w.pm), p, f);
            Present(Slot(x, w.active, p / 1024)) && !Present(Slot(x, d, p / 1024))
            && IsContext(x, w.active) && IsContext(x, d)
  {
    var a, i, t := w.active, p / 1024, Pick(w.pm);
    NewTableEnters(w, p);
    WindowSlots(i);
    EntryFields(t);
    TablesAreNotDirectories(w, a, 1, a);
    TablesAreNotDirectories(w, a, 1, d);
    assert t in w.pm.free && ContextOk(w, a) && ContextOk(w, d);
    assert Slot(NewTable(w, p), a, 1) == Slot(w, a, 1);
    assert Slot(w, d, i) == Slot(w, a, i);
  }

  /** If the page is a window in use, the frame is the one it shows. */
  ghost predicate MeansRight(w: World, p: Page, f: Frame) {
    && (p == CONTEXT_WINDOW ==> f == w.active)
    && (p == DIRECTORY_WINDOW ==> f == w.cr3)
    && (forall j: nat | IsTableWindow(p, j) && Present(Slot(w, w.active, j)) :: f == TableOf(w, w.active, j))
  }

  lemma WindowInUse(w: World, p: Page, f: Frame)
    requires Inv(w) && !Spare(w, p)
    ensures Translate(w, w.active, p).Some? && Present(Slot(w, w.active, p / 1024))
    ensures MeansRight(w, p, f) <==> Translate(w, w.active, p) == Some(f)
  {
    if p >= TABLE_WINDOWS {
      var j := p - TABLE_WINDOWS;
      assert IsTableWindow(p, j) && TableWindowOk(w, j);
    }
  }

  /**
   For every page and frame: vmm_map_page in the active context keeps the invariant if and only if it needs
   no new table in a slot shared with other contexts, and turns no window in use to another frame.
   */
  lemma MapKeepsInvExactly(w: World, p: Page, f: Frame)
    requires Inv(w) && CanEnter(w, p)
    ensures Inv(MapHere(w, p, f)) <==> Mappable(w, w.active, p) && MeansRight(w, p, f)
  {
    if !Mappable(w, w.active, p) {
      MapHereTears(w, p, f);
    } else if Spare(w, p) {
      MapHereKeepsCoherence(w, p, f);
    } else {
      WindowInUse(w, p, f);
      WindowRemapped(w, p, f);
    }
  }

  lemma WindowRemapped(w: World, p: Page, f: Frame)
    requires Inv(w) && CanMapHere(w, p) && !Spare(w, p) && Present(Slot(w, w.active, p / 1024))
    ensures Inv(MapHere(w, p, f)) <==> MeansRight(w, p, f)
  {
    var v := MapHere(w, p, f);
    PutEntryStructure(w, w.active, p, f);
    assert forall j: nat | j < 1024 :: Slot(v, v.active, j) == Slot(w, w.active, j);
    PutEntryTranslations(w, w.active, p, f, w.active, p);
    WindowInUse(w, p, f);
    if MeansRight(w, p, f) {
      forall q: Page ensures Translate(v, v.active, q) == Translate(w, w.active, q) {
        PutEntryTranslations(w, w.active, p, f, w.active, q);
      }
      CoherenceKept(w, v);
    } else if Inv(v) {
      assert !Spare(v, p);
      WindowShows(w, v, p);
    }
  }

  /** What a window in use shows depends on the directory only. */
  lemma WindowShows(w: World, v: World, p: Page)
    requires Inv(w) && Inv(v) && v.active == w.active && v.cr3 == w.cr3 && !Spare(w, p)
    requires forall j: nat | j < 1024 :: Slot(v, v.active, j) == Slot(w, w.active, j)
    ensures Translate(v, v.active, p) == Translate(w, w.active, p)
  {
    if p >= TABLE_WINDOWS {
      var j := p - TABLE_WINDOWS;
      assert TableWindowOk(w, j) && TableWindowOk(v, j);
    }
  }

  /** Every window in use counts as mapped, so vmm_alloc_at never gives one away. */
  lemma WindowFrameInUse(w: World, p: Page)
    requires Inv(w) && !Spare(w, p)
    ensures Translate(w, w.active, p).Some?
    ensures Translate(w, w.active, p).value in w.roles && !w.roles[Translate(w, w.active, p).value].Data?
    ensures Translate(w, w.active, p).value != 0
  {
    assert ContextOk(w, w.active);
    if p >= TABLE_WINDOWS {
      var j := p - TABLE_WINDOWS;
      assert TableWindowOk(w, j);
      assert HasRole(w, TableOf(w, w.active, j), TableRole(w.active, j));
    }
  }
}
