/** Mappings in a context that is not the active one, edited through the three TEMP windows. */
module OtherContext {
  import opened Words
  import opened Pmm
  import opened World
  import opened Mapping

  /** Coherence depends only on the active directory's slots and on what the windows in use show. */
  lemma CoherenceKept(w: World, v: World)
    requires Coherent(w)
    requires v.active == w.active && v.cr3 == w.cr3
    requires forall d: Frame :: IsContext(v, d) ==> IsContext(w, d)
    requires forall j: nat | j < 1024 :: Slot(v, v.active, j) == Slot(w, w.active, j)
    requires forall q: Page | !Spare(w, q) :: Translate(v, v.active, q) == Translate(w, w.active, q)
    ensures Coherent(v)
  {
    forall j: nat | j < 1024 ensures TableWindowOk(v, j) {
      assert TableWindowOk(w, j);
      assert Present(Slot(w, w.active, j)) ==> !Spare(w, TableWindow(j));
    }
    assert Slot(v, v.active, 1) == Slot(w, w.active, 1);
    assert Slot(v, v.active, 2) == Slot(w, w.active, 2);
    assert !Spare(w, CONTEXT_WINDOW) && !Spare(w, DIRECTORY_WINDOW);
  }

  /** Pointing a TEMP window somewhere else is a single entry in the shared table of slot 2. */
  lemma PointTemp(w: World, q: Page, f: Frame)
    requires Inv(w) && IsTempWindow(q) && Present(Slot(w, w.active, 2))
    ensures CanMapHere(w, q) && MapHere(w, q, f) == PutEntry(w, w.active, q, f)
    ensures Inv(PutEntry(w, w.active, q, f)) && SameDirectories(w, PutEntry(w, w.active, q, f))
    ensures Present(Slot(PutEntry(w, w.active, q, f), w.active, 2))
    ensures Translate(PutEntry(w, w.active, q, f), w.active, q) == Some(f)
  {
    assert q / 1024 == 2;
    MapHereKeepsCoherence(w, q, f);
    PutEntryStructure(w, w.active, q, f);
    PutEntryTranslations(w, w.active, q, f, w.active, q);
  }

  ghost predicate CanMapThere(w: World, c: Frame, p: Page) {
    && Inv(w)
    && IsContext(w, c) && c != w.active
    && Mappable(w, c, p)
    && Enough(w.pm, if Present(Slot(w, c, p / 1024)) then 0 else 1)
  }

  /** The TEMP windows show context `c` and its directory. */
  ghost function ShowContext(w: World, c: Frame): World {
    var w1 := PutEntry(w, w.active, TEMP_CONTEXT, c);
    PutEntry(w1, w.active, TEMP_DIRECTORY, Dir(w1, c))
  }

  ghost function EnsureTable(w: World, c: Frame, i: nat): World
    requires i < 1024 && (Present(Slot(w, c, i)) || CanAlloc(w.pm))
  {
    if Present(Slot(w, c, i)) then w else AddTable(w, c, i)
  }

  lemma ShowContextFacts(w: World, c: Frame)
    requires Inv(w) && IsContext(w, c) && Present(Slot(w, w.active, 2))
    ensures var w1, v := PutEntry(w, w.active, TEMP_CONTEXT, c), ShowContext(w, c);
            && Inv(w1) && Inv(v) && SameDirectories(w, w1) && SameDirectories(w, v)
            && Present(Slot(w1, w.active, 2)) && Present(Slot(v, w.active, 2))
            && Dir(w1, c) == Dir(w, c) && Dir(v, c) == Dir(w, c)
            && Translate(w1, w.active, TEMP_CONTEXT) == Some(c)
            && Translate(v, w.active, TEMP_DIRECTORY) == Some(Dir(w, c))
            && v.pm == w.pm && v.roles == w.roles
  {
    PointTemp(w, TEMP_CONTEXT, c);
    var w1 := PutEntry(w, w.active, TEMP_CONTEXT, c);
    PointTemp(w1, TEMP_DIRECTORY, Dir(w1, c));
  }

  lemma OtherImpliesSlot2(w: World, c: Frame)
    requires Inv(w) && IsContext(w, c) && c != w.active
    ensures Present(Slot(w, w.active, 2)) && !Sole(w)
  {
  }

  lemma EnsureTableFacts(w: World, c: Frame, i: nat)
    requires Inv(w) && IsContext(w, c) && c != w.active && i < 1024
    requires Present(Slot(w, c, i)) || (KERNEL_SLOTS <= i && CanAlloc(w.pm))
    ensures var v := EnsureTable(w, c, i);
            && Inv(v) && Extends(w, v) && Present(Slot(v, c, i)) && Present(Slot(v, w.active, 2))
            && (forall d: Frame, q: Page | IsContext(w, d) :: Translate(v, d, q) == Translate(w, d, q))
            && (forall d: Frame, j: nat | IsContext(w, d) && j < 1024 && !(d == c && j == i) ::
                  Slot(v, d, j) == Slot(w, d, j))
  {
    OtherImpliesSlot2(w, c);
    if Present(Slot(w, c, i)) {
      ExtendsSelf(w);
    } else {
      AddTableEffect(w, c, i);
      AddTableExtends(w, c, i);
      EntryFields(Pick(w.pm));
      CoherenceKept(w, AddTable(w, c, i));
    }
  }

  /** Context `c`, not active, after `p` has been mapped to `f`; the TEMP windows are left behind. */
  ghost function MapThere(w: World, c: Frame, p: Page, f: Frame): World
    requires CanMapThere(w, c, p)
  {
    ShowContextReady(w, c, p);
    var w3 := EnsureTable(ShowContext(w, c), c, p / 1024);
    var w4 := PutEntry(w3, w.active, TEMP_TABLE, TableOf(w3, c, p / 1024));
    PutEntry(w4, c, p, f)
  }

  lemma ShowContextReady(w: World, c: Frame, p: Page)
    requires CanMapThere(w, c, p)
    ensures var v := ShowContext(w, c);
            && Inv(v) && IsContext(v, c) && c != v.active && v.active == w.active
            && Slot(v, c, p / 1024) == Slot(w, c, p / 1024)
            && (Present(Slot(v, c, p / 1024)) || (KERNEL_SLOTS <= p / 1024 && CanAlloc(v.pm)))
  {
    OtherImpliesSlot2(w, c);
    ShowContextFacts(w, c);
    if !Present(Slot(w, c, p / 1024)) {
      EnoughToAlloc(w.pm, 1);
    }
  }

  /** The state just before the entry of `p` is written: everything is in place and shown. */
  ghost function TableShown(w: World, c: Frame, p: Page): World
    requires CanMapThere(w, c, p)
  {
    ShowContextReady(w, c, p);
    var w3 := EnsureTable(ShowContext(w, c), c, p / 1024);
    PutEntry(w3, w.active, TEMP_TABLE, TableOf(w3, c, p / 1024))
  }

  lemma TableShownFacts(w: World, c: Frame, p: Page)
    requires CanMapThere(w, c, p)
    ensures var v := TableShown(w, c, p);
            && Inv(v) && Extends(w, v) && IsContext(v, c) && Present(Slot(v, c, p / 1024))
            && Translate(v, w.active, TEMP_TABLE) == Some(TableOf(v, c, p / 1024))
            && |v.pm.free| == |w.pm.free| - (if Present(Slot(w, c, p / 1024)) then 0 else 1)
  {
    OtherImpliesSlot2(w, c);
    ShowContextFacts(w, c);
    ShowContextReady(w, c, p);
    var w2 := ShowContext(w, c);
    assert Extends(w, w2);
    EnsureTableFacts(w2, c, p / 1024);
    var w3 := EnsureTable(w2, c, p / 1024);
    ExtendsTransitive(w, w2, w3);
    PointTemp(w3, TEMP_TABLE, TableOf(w3, c, p / 1024));
    PutEntryExtends(w3, w.active, TEMP_TABLE, TableOf(w3, c, p / 1024));
    ExtendsTransitive(w, w3, TableShown(w, c, p));
    if !Present(Slot(w, c, p / 1024)) {
      AllocSpends(w2.pm);
    }
  }

  lemma TableShownTranslations(w: World, c: Frame, p: Page, d: Frame, q: Page)
    requires CanMapThere(w, c, p) && IsContext(w, d) && !IsTempWindow(q)
    ensures Translate(TableShown(w, c, p), d, q) == Translate(w, d, q)
  {
    OtherImpliesSlot2(w, c);
    ShowContextFacts(w, c);
    ShowContextReady(w, c, p);
    var w1 := PutEntry(w, w.active, TEMP_CONTEXT, c);
    var w2 := ShowContext(w, c);
    EnsureTableFacts(w2, c, p / 1024);
    var w3 := EnsureTable(w2, c, p / 1024);
    PutEntryTranslations(w, w.active, TEMP_CONTEXT, c, d, q);
    PutEntryTranslations(w1, w.active, TEMP_DIRECTORY, Dir(w1, c), d, q);
    PutEntryTranslations(w3, w.active, TEMP_TABLE, TableOf(w3, c, p / 1024), d, q);
  }

  lemma TableShownSlots(w: World, c: Frame, p: Page, d: Frame, j: nat)
    requires CanMapThere(w, c, p) && IsContext(w, d) && j < 1024 && !(d == c && j == p / 1024)
    ensures Slot(TableShown(w, c, p), d, j) == Slot(w, d, j)
  {
    OtherImpliesSlot2(w, c);
    ShowContextReady(w, c, p);
    var w2 := ShowContext(w, c);
    ShowContextSlots(w, c, d, j);
    ShowTableSlots(w2, c, p / 1024, d, j);
  }

  lemma ShowContextSlots(w: World, c: Frame, d: Frame, j: nat)
    requires Inv(w) && IsContext(w, c) && Present(Slot(w, w.active, 2)) && IsContext(w, d) && j < 1024
    ensures IsContext(ShowContext(w, c), d) && Slot(ShowContext(w, c), d, j) == Slot(w, d, j)
  {
    ShowContextFacts(w, c);
  }

  lemma ShowTableSlots(w: World, c: Frame, i: nat, d: Frame, j: nat)
    requires Inv(w) && IsContext(w, c) && c != w.active && i < 1024
    requires Present(Slot(w, c, i)) || (KERNEL_SLOTS <= i && CanAlloc(w.pm))
    requires IsContext(w, d) && j < 1024 && !(d == c && j == i)
    ensures var u := EnsureTable(w, c, i);
            Slot(PutEntry(u, u.active, TEMP_TABLE, TableOf(u, c, i)), d, j) == Slot(w, d, j)
  {
    EnsureTableFacts(w, c, i);
    var u := EnsureTable(w, c, i);
    PutEntryStructure(u, u.active, TEMP_TABLE, TableOf(u, c, i));
  }

  /** At most one table is created, contexts and present slots stay. */
  lemma MapThereExtends(w: World, c: Frame, p: Page, f: Frame)
    requires CanMapThere(w, c, p)
    ensures Extends(w, MapThere(w, c, p, f))
    ensures |MapThere(w, c, p, f).pm.free| == |w.pm.free| - (if Present(Slot(w, c, p / 1024)) then 0 else 1)
  {
    TableShownFacts(w, c, p);
    var v := TableShown(w, c, p);
    PutEntryExtends(v, c, p, f);
    ExtendsTransitive(w, v, MapThere(w, c, p, f));
  }

  lemma MapThereSlots(w: World, c: Frame, p: Page, f: Frame, d: Frame, j: nat)
    requires CanMapThere(w, c, p) && IsContext(w, d) && j < 1024
    ensures var v := MapThere(w, c, p, f);
            if d == c && j == p / 1024 then Present(Slot(v, d, j)) else Slot(v, d, j) == Slot(w, d, j)
  {
    TableShownFacts(w, c, p);
    PutEntryStructure(TableShown(w, c, p), c, p, f);
    if !(d == c && j == p / 1024) {
      TableShownSlots(w, c, p, d, j);
    }
  }

  /** Map correctness with frame, for a context that is not active. */
  lemma MapThereTranslations(w: World, c: Frame, p: Page, f: Frame, d: Frame, q: Page)
    requires CanMapThere(w, c, p) && IsContext(w, d)
    ensures Affects(c, p, d, q) ==> Translate(MapThere(w, c, p, f), d, q) == Some(f)
    ensures !Affects(c, p, d, q) && !IsTempWindow(q) ==>
              Translate(MapThere(w, c, p, f), d, q) == Translate(w, d, q)
  {
    TableShownFacts(w, c, p);
    PutEntryTranslations(TableShown(w, c, p), c, p, f, d, q);
    if !IsTempWindow(q) {
      TableShownTranslations(w, c, p, d, q);
    }
  }

  lemma StaysSpare(w: World, c: Frame, p: Page, q: Page)
    requires CanMapThere(w, c, p) && Spare(w, q)
    ensures Spare(TableShown(w, c, p), q)
  {
    TableShownActive(w, c, p);
    if IsWindow(q) {
      TableShownSlots(w, c, p, w.active, q - TABLE_WINDOWS);
    }
  }

  lemma TableShownActive(w: World, c: Frame, p: Page)
    requires CanMapThere(w, c, p)
    ensures TableShown(w, c, p).active == w.active && IsContext(w, w.active) && c != w.active
  {
    TableShownFacts(w, c, p);
  }

  lemma SpareEntryKeepsCoherence(u: World, c: Frame, p: Page, f: Frame)
    requires Inv(u) && IsContext(u, c) && Present(Slot(u, c, p / 1024)) && Spare(u, p)
    ensures Inv(PutEntry(u, c, p, f))
  {
    PutEntryStructure(u, c, p, f);
    forall q: Page | !Spare(u, q)
      ensures Translate(PutEntry(u, c, p, f), u.active, q) == Translate(u, u.active, q)
    {
      PutEntryTranslations(u, c, p, f, u.active, q);
    }
    CoherenceKept(u, PutEntry(u, c, p, f));
  }

  lemma MapThereKeepsCoherence(w: World, c: Frame, p: Page, f: Frame)
    requires CanMapThere(w, c, p) && Spare(w, p)
    ensures Inv(MapThere(w, c, p, f))
  {
    TableShownFacts(w, c, p);
    StaysSpare(w, c, p, p);
    SpareEntryKeepsCoherence(TableShown(w, c, p), c, p, f);
  }
}
