/** What a switch that arrives does to the translations of all pages in all contexts. */
module SwitchEffect {
  import opened Words
  import opened World
  import opened Mapping
  import opened OtherContext
  import opened Windows
  import opened Switching
  import opened SwitchOutcome

  /** The page is a window that shows something once context `c` is active. */
  ghost predicate ShownIn(w: World, c: Frame, q: Page) {
    IsWindow(q) && (TABLE_WINDOWS <= q ==> Present(Slot(w, c, q - TABLE_WINDOWS)))
  }

  /** The identity mapping of the target's directory writes page `q` of context `d`. */
  ghost predicate IdentityWrites(w: World, c: Frame, d: Frame, q: Page) {
    && c != w.active
    && (q == TEMP_CONTEXT || Affects(w.active, Dir(w, c), d, q) || IsNewWindow(w, Dir(w, c) / 1024, q))
  }

  /** A switch to context `c` writes page `q` of context `d`. */
  ghost predicate SwitchWrites(w: World, c: Frame, d: Frame, q: Page) {
    ShownIn(w, c, q) || IdentityWrites(w, c, d, q)
  }

  /** The page leads to a context block, a directory or a table. */
  ghost predicate LeadsToStructure(w: World, d: Frame, q: Page) {
    match Translate(w, d, q)
    case Some(f) => f in w.roles && !w.roles[f].Data?
    case None => false
  }

  lemma KernelPageShared(w: World, d: Frame, q: Page)
    requires Structured(w) && IsContext(w, d) && q / 1024 < KERNEL_SLOTS
    ensures Translate(w, d, q) == Translate(w, w.active, q)
  {
    assert ContextOk(w, d);
    assert Slot(w, d, q / 1024) == Slot(w, w.active, q / 1024);
  }

  // ----- the identity mapping -----

  lemma IdentifiedOthers(w: World, c: Frame, d: Frame, q: Page)
    requires CanSwitch(w, c) && SwitchWorks(w, c) && IsContext(w, d)
    ensures !IdentityWrites(w, c, d, q) ==> Translate(Identified(w, c), d, q) == Translate(w, d, q)
    ensures c != w.active && Affects(w.active, Dir(w, c), d, q) ==>
              Translate(Identified(w, c), d, q) == Some(Dir(w, c))
  {
    if c != w.active {
      CanIdentify(w, c);
      OtherImpliesSlot2(w, c);
      PutEntryTranslations(w, w.active, TEMP_CONTEXT, c, d, q);
      MapHereTranslations(PutEntry(w, w.active, TEMP_CONTEXT, c), Dir(w, c), Dir(w, c), d, q);
    }
  }

  /** The window of a new table shows that table. */
  lemma NewWindowLeads(u: World, p: Page, f: Frame, q: Page)
    requires CanMapHere(u, p) && IsNewWindow(u, p / 1024, q)
    ensures LeadsToStructure(MapHere(u, p, f), u.active, q)
  {
    var v, j := MapHere(u, p, f), q - TABLE_WINDOWS;
    if p == q {
      SpareSlotNotNew(u, p, j);
    }
    NewTablesGetWindows(u, p, f, j);
    MapHereSlots(u, p, f, u.active, j);
    MapHereExtends(u, p, f);
    TableHasRole(v, j);
  }

  lemma TableHasRole(v: World, j: nat)
    requires Structured(v) && j < 1024 && Present(Slot(v, v.active, j))
    ensures HasRole(v, TableOf(v, v.active, j), TableRole(v.active, j))
  {
    assert ContextOk(v, v.active);
  }

  lemma IdentifiedWindow(w: World, c: Frame, q: Page)
    requires CanSwitch(w, c) && SwitchWorks(w, c) && c != w.active && IsNewWindow(w, Dir(w, c) / 1024, q)
    ensures LeadsToStructure(Identified(w, c), w.active, q)
  {
    CanIdentify(w, c);
    NewWindowLeads(PutEntry(w, w.active, TEMP_CONTEXT, c), Dir(w, c), Dir(w, c), q);
  }

  lemma IdentifiedLeads(w: World, c: Frame, d: Frame, q: Page)
    requires CanSwitch(w, c) && SwitchWorks(w, c) && IsContext(w, d) && IdentityWrites(w, c, d, q)
    ensures LeadsToStructure(Identified(w, c), d, q)
  {
    IdentifiedFacts(w, c);
    var v := Identified(w, c);
    if Affects(w.active, Dir(w, c), d, q) {
      IdentifiedOthers(w, c, d, q);
      assert ContextOk(v, c);
    } else {
      if q != TEMP_CONTEXT {
        IdentifiedWindow(w, c, q);
      }
      KernelPageShared(v, d, q);
    }
  }

  // ----- the windows -----

  lemma {:induction false} RewrittenOthers(u: World, c: Frame, n: nat, d: Frame, q: Page)
    requires n <= 1024 && Rewriting(u, c, 0) && IsContext(u, d) && !ShownIn(u, c, q)
    ensures Translate(Rewritten(u, c, n), d, q) == Translate(u, d, q)
  {
    if n > 0 {
      RewrittenFacts(u, c, n - 1);
      var t := Rewritten(u, c, n - 1);
      RewrittenOthers(u, c, n - 1, d, q);
      if Present(Slot(t, c, n - 1)) {
        WindowSlotPresent(t, c, n - 1);
        PutEntryTranslations(t, t.active, TableWindow(n - 1), TableOf(t, c, n - 1), d, q);
      }
    }
  }

  lemma PointedOthers(u: World, c: Frame, d: Frame, q: Page)
    requires ReadyToPoint(u, c) && IsContext(u, d) && q != CONTEXT_WINDOW && q != DIRECTORY_WINDOW
    ensures Translate(Pointed(u, c), d, q) == Translate(u, d, q)
  {
    PointedFacts(u, c);
    PutEntryTranslations(u, u.active, CONTEXT_WINDOW, c, d, q);
    var t := ContextPointed(u, c);
    PutEntryStructure(u, u.active, CONTEXT_WINDOW, c);
    PutEntryTranslations(t, t.active, DIRECTORY_WINDOW, Dir(u, c), d, q);
  }

  /** Apart from the windows that come into use, only the identity mapping counts. */
  lemma AfterIdentified(w: World, c: Frame, d: Frame, q: Page)
    requires CanSwitch(w, c) && SwitchWorks(w, c) && IsContext(w, d) && !ShownIn(w, c, q)
    ensures Translate(Switch(w, c), d, q) == Translate(Identified(w, c), d, q)
    ensures forall f: Frame | f in Identified(w, c).roles ::
              f in Switch(w, c).roles && Switch(w, c).roles[f] == Identified(w, c).roles[f]
  {
    SwitchArrives(w, c);
    IdentifiedFacts(w, c);
    var u := Identified(w, c);
    TargetSlots(w, c);
    PointedOthers(u, c, d, q);
    PointedFacts(u, c);
    RewrittenFacts(Pointed(u, c), c, 1024);
    RewrittenOthers(Pointed(u, c), c, 1024, d, q);
  }

  /** The target's directory stays as it is. */
  lemma TargetSlots(w: World, c: Frame)
    requires CanSwitch(w, c) && SwitchWorks(w, c)
    ensures forall j: nat | j < 1024 ::
              Slot(Identified(w, c), c, j) == Slot(w, c, j) && Slot(Switch(w, c), c, j) == Slot(w, c, j)
  {
    SwitchArrives(w, c);
    IdentifiedFacts(w, c);
    var u := Identified(w, c);
    PointedFacts(u, c);
    RewrittenFacts(Pointed(u, c), c, 1024);
    forall j: nat | j < 1024 ensures Slot(u, c, j) == Slot(w, c, j) {
      IdentifiedSlot(w, c, j);
    }
    WindowsOnly(u, Pointed(u, c), Rewritten(Pointed(u, c), c, 1024), c);
  }

  lemma IdentifiedSlot(w: World, c: Frame, j: nat)
    requires CanSwitch(w, c) && SwitchWorks(w, c) && j < 1024
    ensures Slot(Identified(w, c), c, j) == Slot(w, c, j)
  {
    if c != w.active {
      CanIdentify(w, c);
      MapHereSlots(PutEntry(w, w.active, TEMP_CONTEXT, c), Dir(w, c), Dir(w, c), c, j);
    }
  }

  lemma WindowsOnly(u: World, t: World, v: World, c: Frame)
    requires SameDirectories(u, t) && SameDirectories(t, v) && IsContext(u, c)
    ensures forall j: nat | j < 1024 :: Slot(v, c, j) == Slot(u, c, j)
  {
  }

  /**
   Every page of every context translates as before unless the switch writes it. The page numbered like the
   target's directory leads to that directory afterwards, unless it is a window in use; and whatever is
   written leads to a context block, a directory or a table.
   */
  lemma SwitchTranslations(w: World, c: Frame, d: Frame, q: Page)
    requires CanSwitch(w, c) && SwitchWorks(w, c) && IsContext(w, d)
    ensures IsContext(Switch(w, c), d)
    ensures !SwitchWrites(w, c, d, q) ==> Translate(Switch(w, c), d, q) == Translate(w, d, q)
    ensures c != w.active && Affects(w.active, Dir(w, c), d, q) && !ShownIn(w, c, q) ==>
              Translate(Switch(w, c), d, q) == Some(Dir(w, c))
    ensures SwitchWrites(w, c, d, q) ==> LeadsToStructure(Switch(w, c), d, q)
  {
    SwitchArrives(w, c);
    BeforeLoad(w, c);
    var v := Switch(w, c);
    if ShownIn(w, c, q) {
      TargetSlots(w, c);
      WindowFrameInUse(v, q);
      KernelPageShared(v, d, q);
    } else {
      AfterIdentified(w, c, d, q);
      IdentifiedOthers(w, c, d, q);
      if IdentityWrites(w, c, d, q) {
        IdentifiedLeads(w, c, d, q);
      }
    }
  }

  lemma SwitchKeepsRoles(w: World, c: Frame, f: Frame)
    requires CanSwitch(w, c) && SwitchWorks(w, c)
    ensures f in w.roles ==> f in Switch(w, c).roles && Switch(w, c).roles[f] == w.roles[f]
    ensures f !in w.pm.free ==> f !in Switch(w, c).pm.free
  {
    SwitchArrives(w, c);
    BeforeLoad(w, c);
  }
}
