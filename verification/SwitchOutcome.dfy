/**
 Where the stores of a context switch lead, for every target: that none of them faults, which of them go
 astray, and exactly when the switch leaves the target active and coherent.
 */
module SwitchOutcome {
  import opened Words
  import opened Pmm
  import opened Mmu
  import opened World
  import opened Mapping
  import opened OtherContext
  import opened Windows
  import opened Switching

  // ----- windows that lie in tables of their own -----

  /** The table of slot `j` of the active directory is nothing else besides. */
  ghost predicate OwnTable(u: World, c: Frame, j: nat)
    requires j < 1024
  {
    var t := TableOf(u, u.active, j);
    && Present(Slot(u, u.active, j)) && t != u.active && t != c && t != u.cr3 && t != Dir(u, c)
    && (forall i: nat | i < 1024 && Present(Slot(u, u.active, i)) && TableOf(u, u.active, i) == t :: i == j)
  }

  /** And slot `j` is the same in both directories. */
  ghost predicate SharedTable(u: World, c: Frame, j: nat)
    requires j < 1024
  {
    OwnTable(u, c, j) && Slot(u, c, j) == Slot(u, u.active, j)
  }

  /** All that the rewriting of the windows relies on; it does not ask that the contexts agree elsewhere. */
  ghost predicate Steady(u: World, c: Frame) {
    && u.cr3 == Dir(u, u.active)
    && SharedTable(u, c, 1)
    && (Present(Slot(u, u.active, 2)) ==> SharedTable(u, c, 2))
    && HighWindows(u, c)
    && Walk(u.mem, u.cr3, TableWindow(1)) == Some(TableOf(u, u.active, 1))
    && (Walk(u.mem, u.cr3, DIRECTORY_WINDOW) == Some(u.cr3) ||
        Walk(u.mem, u.cr3, DIRECTORY_WINDOW) == Some(Dir(u, c)))
  }

  /** Context blocks and directories of the two contexts are untouched. */
  ghost predicate SameCore(u: World, v: World, c: Frame) {
    && v.active == u.active && v.cr3 == u.cr3 && v.pm == u.pm && v.roles == u.roles
    && v.mem[u.active] == u.mem[u.active] && v.mem[c] == u.mem[c]
    && v.mem[u.cr3] == u.mem[u.cr3] && v.mem[Dir(u, c)] == u.mem[Dir(u, c)]
  }

  /** The page lies in slot 1 or 2, and the window of that slot's table is truthful. */
  ghost predicate AtHand(u: World, q: Page) {
    && (q / 1024 == 1 || q / 1024 == 2) && Present(Slot(u, u.active, q / 1024))
    && Walk(u.mem, u.cr3, TableWindow(q / 1024)) == Some(TableOf(u, u.active, q / 1024))
  }

  /** The entry written is not one that would turn the window of slot 1 or of the directory elsewhere. */
  ghost predicate Truthful(u: World, c: Frame, q: Page, f: Frame) {
    && (q == TableWindow(1) ==> f == TableOf(u, u.active, 1))
    && (q == DIRECTORY_WINDOW ==> f == u.cr3 || f == Dir(u, c))
  }

  lemma SteadyDirect(u: World, c: Frame, q: Page, f: Frame)
    requires Steady(u, c) && AtHand(u, q)
    ensures Direct(u, q) && WriteThrough(u, q, f) == PutEntry(u, u.active, q, f)
    ensures SameCore(u, WriteThrough(u, q, f), c)
  {
    var j := q / 1024;
    assert SharedTable(u, c, j);
    var g := Seen(u, TableWindow(j));
    forall i: nat | i < 1024 && Present(u.mem[u.cr3][i]) && FrameOf(u.mem[u.cr3][i]) == g ensures i == j {
      assert u.mem[u.cr3][i] == Slot(u, u.active, i);
    }
  }

  lemma SteadyWalks(u: World, c: Frame, q: Page, f: Frame, p: Page)
    requires Steady(u, c) && AtHand(u, q)
    ensures var v := WriteThrough(u, q, f);
            Walk(v.mem, v.cr3, p) == if p == q then Some(f) else Walk(u.mem, u.cr3, p)
  {
    SteadyDirect(u, c, q, f);
    PutInWalk(u, Seen(u, TableWindow(q / 1024)), q, f, p);
  }

  lemma SteadyWrite(u: World, c: Frame, q: Page, f: Frame)
    requires Steady(u, c) && AtHand(u, q) && Truthful(u, c, q, f)
    ensures Steady(WriteThrough(u, q, f), c) && SameCore(u, WriteThrough(u, q, f), c)
  {
    var v := WriteThrough(u, q, f);
    SteadyDirect(u, c, q, f);
    SteadyWalks(u, c, q, f, TableWindow(1));
    SteadyWalks(u, c, q, f, DIRECTORY_WINDOW);
    forall i: nat | i < 1024 ensures Slot(v, u.active, i) == Slot(u, u.active, i) && Slot(v, c, i) == Slot(u, c, i) {}
  }

  // ----- vmm_map_context, wherever the windows are steady -----

  /** The windows of the first `n` slots have been rewritten. */
  ghost predicate Rounded(u: World, v: World, c: Frame, n: nat) {
    && Steady(v, c) && SameCore(u, v, c)
    && Walk(v.mem, v.cr3, DIRECTORY_WINDOW) == Some(Dir(v, c))
    && Walk(v.mem, v.cr3, CONTEXT_WINDOW) == Some(c)
    && (n > 2 && Present(Slot(v, v.active, 2)) ==> AtHand(v, TableWindow(1022)))
    && (forall p: Page | !IsWindow(p) :: Walk(v.mem, v.cr3, p) == Walk(u.mem, u.cr3, p))
  }

  lemma FirstTwo(u: World, c: Frame)
    requires Steady(u, c)
    ensures Direct(u, CONTEXT_WINDOW)
    ensures var t := ContextShownThrough(u, c);
            Mapped(t, CONTEXT_WINDOW) && Direct(t, DIRECTORY_WINDOW) && Fetched(t, CONTEXT_WINDOW) == Dir(u, c)
    ensures BothShownThrough(u, c) == Pointed(u, c) && Rounded(u, BothShownThrough(u, c), c, 0)
  {
    SteadyDirect(u, c, CONTEXT_WINDOW, c);
    SteadyWrite(u, c, CONTEXT_WINDOW, c);
    var t := ContextShownThrough(u, c);
    SteadyWalks(u, c, CONTEXT_WINDOW, c, CONTEXT_WINDOW);
    SteadyWalks(u, c, CONTEXT_WINDOW, c, TableWindow(1));
    SteadyDirect(t, c, DIRECTORY_WINDOW, Dir(u, c));
    SteadyWrite(t, c, DIRECTORY_WINDOW, Dir(u, c));
    var v := BothShownThrough(u, c);
    forall p: Page ensures Walk(v.mem, v.cr3, p) ==
        if p == DIRECTORY_WINDOW then Some(Dir(u, c))
        else if p == CONTEXT_WINDOW then Some(c) else Walk(u.mem, u.cr3, p)
    {
      SteadyWalks(u, c, CONTEXT_WINDOW, c, p);
      SteadyWalks(t, c, DIRECTORY_WINDOW, Dir(u, c), p);
    }
  }

  lemma RoundSlot(v: World, c: Frame, n: nat)
    requires n < 1024 && Rounded(v, v, c, n) && Present(Slot(v, c, n))
    ensures AtHand(v, TableWindow(n)) && Truthful(v, c, TableWindow(n), TableOf(v, c, n))
  {
    WindowSlots(n);
    if n >= 1022 {
      assert TableWindow(n) / 1024 == TableWindow(1022) / 1024 == 2;
    }
  }

  lemma OneRound(u: World, v: World, c: Frame, n: nat)
    requires n < 1024 && Rounded(u, v, c, n)
    ensures RoundReady(v, n) && Round(v, n) == RewriteOne(v, c, n) && Rounded(u, Round(v, n), c, n + 1)
  {
    if Present(Slot(v, c, n)) {
      var q, f := TableWindow(n), TableOf(v, c, n);
      RoundSlot(v, c, n);
      SteadyDirect(v, c, q, f);
      SteadyWrite(v, c, q, f);
      forall p: Page ensures Walk(Round(v, n).mem, v.cr3, p) == if p == q then Some(f) else Walk(v.mem, v.cr3, p) {
        SteadyWalks(v, c, q, f, p);
      }
      assert IsWindow(q) && q != DIRECTORY_WINDOW && q != CONTEXT_WINDOW;
      assert TableWindow(1022) / 1024 == 2;
    }
  }

  lemma {:induction false} AllRounds(u: World, s: World, c: Frame, n: nat)
    requires n <= 1024 && Rounded(u, s, c, 0)
    ensures Rounds(s, n) == Rewritten(s, c, n) && Rounded(u, Rounds(s, n), c, n)
    ensures forall k: nat | k < n :: RoundReady(Rounds(s, k), k)
  {
    if n > 0 {
      AllRounds(u, s, c, n - 1);
      OneRound(u, Rounds(s, n - 1), c, n - 1);
    }
  }

  /** From a steady state the code faults nowhere, rewrites the windows as meant, and touches nothing else. */
  lemma SteadyTraversal(u: World, c: Frame)
    requires Steady(u, c)
    ensures Traversable(u, c)
    ensures ContextMapped(u, c) == Rewritten(Pointed(u, c), c, 1024)
    ensures Rounded(u, ContextMapped(u, c), c, 1024)
  {
    FirstTwo(u, c);
    AllRounds(u, BothShownThrough(u, c), c, 1024);
  }

  // ----- the usual case -----

  lemma ReadyIsSteady(u: World, c: Frame)
    requires ReadyToPoint(u, c)
    ensures Steady(u, c)
  {
    assert ContextOk(u, c) && ContextOk(u, u.active);
    assert Slot(u, c, 1) == Slot(u, u.active, 1) && Slot(u, c, 2) == Slot(u, u.active, 2);
    TablesAreNotDirectories(u, u.active, 1, u.active);
    TablesAreNotDirectories(u, u.active, 1, c);
    if Present(Slot(u, u.active, 2)) {
      TablesAreNotDirectories(u, u.active, 2, u.active);
      TablesAreNotDirectories(u, u.active, 2, c);
    }
  }

  // ----- a directory whose page needs a table in the kernel half -----

  /** The identity mapping gives the active context a kernel table that the target does not get. */
  ghost predicate TornApart(w: World, c: Frame) {
    c != w.active && Dir(w, c) / 1024 < KERNEL_SLOTS && !Present(Slot(w, w.active, Dir(w, c) / 1024))
  }

  /** The state in which the kernel half of the active context has just been extended. */
  ghost predicate Extended(w: World, v: World, c: Frame) {
    && v.active == w.active && v.cr3 == w.cr3 && v.mem[w.active] == w.mem[w.active] && v.mem[c] == w.mem[c]
    && v.mem[Dir(w, c)] == w.mem[Dir(w, c)]
    && (exists t: Frame :: t in w.pm.free && v.mem[w.cr3] == w.mem[w.cr3][Dir(w, c) / 1024 := Entry(t)])
    && (forall x: Frame | IsContext(w, x) :: IsContext(v, x))
    && (forall q: Page | q == TableWindow(1) || q == DIRECTORY_WINDOW || q == TEMP_CONTEXT ::
          Walk(v.mem, v.cr3, q) == Walk(w.mem, w.cr3, q))
  }

  lemma IdentityExtends(u: World, c: Frame)
    requires Inv(u) && IsContext(u, c) && TornApart(u, c) && CanEnter(u, Dir(u, c))
    requires Present(Slot(u, u.active, 2))
    ensures Extended(u, MapHere(u, Dir(u, c), Dir(u, c)), c)
  {
    var d := Dir(u, c);
    CoherentIsReady(u, d);
    NewTableEnters(u, d);
    NewWindowIsDirect(u, d, Pick(u.pm));
    NewTableAtHand(u, d);
    WindowSlots(d / 1024);
    var v := PutEntry(NewTable(u, d), u.active, TableWindow(d / 1024), Pick(u.pm));
    assert MapHere(u, d, d) == PutIn(v, Pick(u.pm), d, d);
    IdentityFrames(u, c, v);
    IdentityWalk(u, c, v, TableWindow(1));
    IdentityWalk(u, c, v, DIRECTORY_WINDOW);
    IdentityWalk(u, c, v, TEMP_CONTEXT);
  }

  lemma IdentityFrames(u: World, c: Frame, v: World)
    requires Structured(u) && IsContext(u, c) && TornApart(u, c) && CanEnter(u, Dir(u, c))
    requires CanAlloc(u.pm)
    requires v == PutEntry(NewTable(u, Dir(u, c)), u.active, TableWindow(Dir(u, c) / 1024), Pick(u.pm))
    ensures var x := PutIn(v, Pick(u.pm), Dir(u, c), Dir(u, c));
            && x.active == u.active && x.cr3 == u.cr3 && x.mem[u.active] == u.mem[u.active] && x.mem[c] == u.mem[c]
            && x.mem[Dir(u, c)] == u.mem[Dir(u, c)]
            && x.mem[u.cr3] == u.mem[u.cr3][Dir(u, c) / 1024 := Entry(Pick(u.pm))]
            && Pick(u.pm) in u.pm.free && forall y: Frame | IsContext(u, y) :: IsContext(x, y)
  {
    var a, n := u.active, NewTable(u, Dir(u, c));
    NewTableEnters(u, Dir(u, c));
    WindowSlots(Dir(u, c) / 1024);
    TablesAreNotDirectories(u, a, 1, a);
    TablesAreNotDirectories(u, a, 1, c);
    assert Pick(u.pm) in u.pm.free && ContextOk(u, a) && ContextOk(u, c);
    assert Slot(n, a, 1) == Slot(u, a, 1);
  }

  lemma IdentityWalk(u: World, c: Frame, v: World, q: Page)
    requires Inv(u) && IsContext(u, c) && TornApart(u, c) && CanEnter(u, Dir(u, c))
    requires Present(Slot(u, u.active, 2)) && (q / 1024 == 1 || q / 1024 == 2)
    requires q != TableWindow(Dir(u, c) / 1024)
    requires CanAlloc(u.pm)
    requires v == PutEntry(NewTable(u, Dir(u, c)), u.active, TableWindow(Dir(u, c) / 1024), Pick(u.pm))
    ensures Walk(PutIn(v, Pick(u.pm), Dir(u, c), Dir(u, c)).mem, u.cr3, q) == Walk(u.mem, u.cr3, q)
  {
    var d, a, t := Dir(u, c), u.active, Pick(u.pm);
    CoherentIsReady(u, d);
    NewTableEnters(u, d);
    NewWindowIsDirect(u, d, t);
    NewTableAtHand(u, d);
    WindowSlots(d / 1024);
    var n := NewTable(u, d);
    PutInWalk(n, Seen(n, TableWindow(1)), TableWindow(d / 1024), t, q);
    PutInWalk(v, t, d, d, q);
    AddTableTranslations(u, a, d / 1024, a, q);
  }

  lemma ExtendedIsSteady(w: World, v: World, c: Frame)
    requires Inv(w) && IsContext(w, c) && TornApart(w, c) && Extended(w, v, c) && Present(Slot(w, w.active, 2))
    ensures Steady(v, c)
    ensures Present(Slot(v, v.active, Dir(w, c) / 1024)) && !Present(Slot(v, c, Dir(w, c) / 1024))
  {
    var t: Frame :| t in w.pm.free && v.mem[w.cr3] == w.mem[w.cr3][Dir(w, c) / 1024 := Entry(t)];
    EntryFields(t);
    assert TableWindowOk(w, 1);
    assert ContextOk(w, c) && ContextOk(w, w.active);
    SlotsExtended(w, v, c, t);
    OldTableShared(w, v, c, t, 1);
    OldTableShared(w, v, c, t, 2);
  }

  lemma SlotsExtended(w: World, v: World, c: Frame, t: Frame)
    requires Inv(w) && IsContext(w, c) && TornApart(w, c) && Extended(w, v, c)
    requires v.mem[w.cr3] == w.mem[w.cr3][Dir(w, c) / 1024 := Entry(t)]
    ensures Dir(v, w.active) == w.cr3 && Dir(v, c) == Dir(w, c)
    ensures forall j: nat | j < 1024 ::
              && Slot(v, c, j) == Slot(w, c, j)
              && Slot(v, w.active, j) == if j == Dir(w, c) / 1024 then Entry(t) else Slot(w, w.active, j)
    ensures forall j: nat | j < KERNEL_SLOTS :: Slot(w, c, j) == Slot(w, w.active, j)
  {
    assert ContextOk(w, c) && ContextOk(w, w.active);
  }

  lemma OldTableShared(w: World, v: World, c: Frame, t: Frame, j: nat)
    requires Inv(w) && IsContext(w, c) && TornApart(w, c) && Extended(w, v, c)
    requires t in w.pm.free && v.mem[w.cr3] == w.mem[w.cr3][Dir(w, c) / 1024 := Entry(t)]
    requires 1 <= j <= 2 && Present(Slot(w, w.active, j))
    ensures SharedTable(v, c, j)
  {
    SlotsExtended(w, v, c, t);
    TablesAreNotDirectories(w, w.active, j, w.active);
    TablesAreNotDirectories(w, w.active, j, c);
    EntryFields(t);
  }

  /** All stores land where they are meant to, yet afterwards the two contexts disagree about a kernel slot. */
  lemma TearsApart(w: World, c: Frame)
    requires CanSwitch(w, c) && TornApart(w, c)
    ensures var u := Identified(w, c);
            Traversable(u, c) && Mapped(ContextMapped(u, c), LoadWindow(w, c))
    ensures !Structured(Switch(w, c))
  {
    CanIdentify(w, c);
    var s := PutEntry(w, w.active, TEMP_CONTEXT, c);
    var u, i := Identified(w, c), Dir(w, c) / 1024;
    assert Slot(s, s.active, i) == Slot(w, w.active, i);
    IdentityExtends(s, c);
    ExtendedIsSteady(s, u, c);
    SteadyTraversal(u, c);
    var v, a := Switch(w, c), w.active;
    assert !IsWindow(TEMP_CONTEXT);
    assert v.roles == u.roles && IsContext(v, a);
    assert Slot(v, a, i) == Slot(u, a, i) && Slot(v, c, i) == Slot(u, c, i);
    assert !ContextOk(v, a);
  }

  // ----- a directory in the frame numbered like the window of slot 1 -----

  /** The window of slot 1 now shows the target's directory; the active context is as it was. */
  ghost predicate Astray(u: World, c: Frame) {
    && u.cr3 == Dir(u, u.active) && c != u.active
    && Present(Slot(u, u.active, 1)) && OwnTable(u, c, 2)
    && Dir(u, c) != u.cr3 && Dir(u, c) != u.active && Dir(u, c) != c && Dir(u, c) != TableOf(u, u.active, 1)
    && (forall i: nat | i < 1024 && Present(Slot(u, u.active, i)) :: TableOf(u, u.active, i) != Dir(u, c))
    && Walk(u.mem, u.cr3, TableWindow(1)) == Some(Dir(u, c))
    && Walk(u.mem, u.cr3, TableWindow(2)) == Some(TableOf(u, u.active, 2))
    && Walk(u.mem, u.cr3, CONTEXT_WINDOW) == Some(u.active)
    && Walk(u.mem, u.cr3, DIRECTORY_WINDOW) == Some(u.cr3)
    && Walk(u.mem, u.cr3, TEMP_CONTEXT).Some?
  }

  /** The target's directory now begins with an entry that takes its own context block for a table. */
  ghost predicate Scribbled(u: World, v: World, c: Frame) {
    && Astray(v, c) && v.active == u.active && v.roles == u.roles && Dir(v, c) == Dir(u, c)
    && Slot(v, c, 0) == Entry(c)
  }

  lemma AstrayDirect(u: World, c: Frame, q: Page)
    requires Astray(u, c) && (q / 1024 == 1 || q / 1024 == 2)
    ensures Direct(u, q)
    ensures Seen(u, TableWindow(q / 1024)) == if q / 1024 == 1 then Dir(u, c) else TableOf(u, u.active, 2)
  {
    forall i: nat
      | i < 1024 && Present(u.mem[u.cr3][i]) && FrameOf(u.mem[u.cr3][i]) == Seen(u, TableWindow(q / 1024))
      ensures i == q / 1024
    {
      assert u.mem[u.cr3][i] == Slot(u, u.active, i);
    }
  }

  lemma AstrayWalks(u: World, c: Frame, q: Page, f: Frame, p: Page)
    requires Astray(u, c) && (q / 1024 == 1 || q / 1024 == 2)
    ensures p != q || q / 1024 == 1 ==> Walk(WriteThrough(u, q, f).mem, u.cr3, p) == Walk(u.mem, u.cr3, p)
  {
    AstrayDirect(u, c, q);
    PutInWalk(u, Seen(u, TableWindow(q / 1024)), q, f, p);
    if WalkedTable(u.mem, u.cr3, q) == Some(Dir(u, c)) {
      assert TableOf(u, u.active, q / 1024) != Dir(u, c);
    }
  }

  lemma StrayWrite(u: World, c: Frame, q: Page, f: Frame)
    requires Astray(u, c) && (q / 1024 == 1 || q / 1024 == 2)
    requires q != TEMP_CONTEXT
    ensures var v := WriteThrough(u, q, f);
            && Astray(v, c) && v.active == u.active && v.cr3 == u.cr3 && v.roles == u.roles && v.mem[c] == u.mem[c]
            && v.mem[Dir(u, c)] == if q / 1024 == 1 then u.mem[Dir(u, c)][q % 1024 := Entry(f)] else u.mem[Dir(u, c)]
  {
    AstrayDirect(u, c, q);
    AstrayWalks(u, c, q, f, TableWindow(1));
    AstrayWalks(u, c, q, f, TableWindow(2));
    AstrayWalks(u, c, q, f, CONTEXT_WINDOW);
    AstrayWalks(u, c, q, f, DIRECTORY_WINDOW);
    AstrayWalks(u, c, q, f, TEMP_CONTEXT);
    var v := WriteThrough(u, q, f);
    forall i: nat | i < 1024 ensures Slot(v, u.active, i) == Slot(u, u.active, i) {}
    assert TableOf(v, v.active, 2) == TableOf(u, u.active, 2);
  }

  lemma StrayRound(u: World, v: World, c: Frame, n: nat)
    requires n < 1024 && Scribbled(u, v, c)
    ensures RoundReady(v, n) && Scribbled(u, Round(v, n), c)
  {
    var q := TableWindow(n);
    WindowSlots(n);
    if Present(v.mem[v.cr3][n]) {
      AstrayDirect(v, c, q);
      StrayWrite(v, c, q, FrameOf(v.mem[v.cr3][n]));
      assert q / 1024 == 1 ==> q % 1024 == n + 2;
    }
  }

  lemma {:induction false} StrayRounds(u: World, s: World, c: Frame, n: nat)
    requires n <= 1024 && Scribbled(u, s, c)
    ensures Scribbled(u, Rounds(s, n), c)
    ensures forall k: nat | k < n :: RoundReady(Rounds(s, k), k)
  {
    if n > 0 {
      StrayRounds(u, s, c, n - 1);
      StrayRound(u, Rounds(s, n - 1), c, n - 1);
    }
  }

  /** The first entry meant for the table of slot 1 lands in the target's directory, and so do the others. */
  lemma StrayTraversal(u: World, c: Frame)
    requires Astray(u, c)
    ensures Traversable(u, c) && Scribbled(u, ContextMapped(u, c), c)
  {
    var t := ContextShownThrough(u, c);
    AstrayDirect(u, c, CONTEXT_WINDOW);
    StrayWrite(u, c, CONTEXT_WINDOW, c);
    assert Scribbled(u, t, c);
    AstrayDirect(t, c, DIRECTORY_WINDOW);
    StrayWrite(t, c, DIRECTORY_WINDOW, Fetched(t, CONTEXT_WINDOW));
    assert Scribbled(u, BothShownThrough(u, c), c);
    StrayRounds(u, BothShownThrough(u, c), c, 1024);
  }

  lemma IdentityGoesAstray(s: World, c: Frame)
    requires Inv(s) && IsContext(s, c) && c != s.active && Present(Slot(s, s.active, 2))
    requires Dir(s, c) == TableWindow(1) && Translate(s, s.active, TEMP_CONTEXT).Some?
    ensures Astray(PutEntry(s, s.active, Dir(s, c), Dir(s, c)), c)
  {
    var a, d := s.active, Dir(s, c);
    var u := PutEntry(s, a, d, d);
    WindowSlots(1);
    WindowSlots(2);
    PutEntryStructure(s, a, d, d);
    assert ContextOk(s, a) && ContextOk(s, c);
    assert TableWindowOk(s, 2);
    PutEntryTranslations(s, a, d, d, a, TableWindow(1));
    PutEntryTranslations(s, a, d, d, a, TableWindow(2));
    PutEntryTranslations(s, a, d, d, a, CONTEXT_WINDOW);
    PutEntryTranslations(s, a, d, d, a, DIRECTORY_WINDOW);
    PutEntryTranslations(s, a, d, d, a, TEMP_CONTEXT);
    TablesAreNotDirectories(s, a, 2, a);
    TablesAreNotDirectories(s, a, 2, c);
    NotATable(s, c);
    forall i: nat | i < 1024 ensures Slot(u, a, i) == Slot(s, a, i) {}
  }

  lemma NotATable(s: World, c: Frame)
    requires Structured(s) && IsContext(s, c)
    ensures forall i: nat | i < 1024 && Present(Slot(s, s.active, i)) :: TableOf(s, s.active, i) != Dir(s, c)
  {
    forall i: nat | i < 1024 && Present(Slot(s, s.active, i)) ensures TableOf(s, s.active, i) != Dir(s, c) {
      TablesAreNotDirectories(s, s.active, i, c);
    }
  }

  lemma GoesAstray(w: World, c: Frame)
    requires CanSwitch(w, c) && c != w.active && Dir(w, c) == TableWindow(1)
    ensures var u := Identified(w, c);
            Traversable(u, c) && Mapped(ContextMapped(u, c), LoadWindow(w, c))
    ensures !Structured(Switch(w, c))
  {
    CanIdentify(w, c);
    var s, d := PutEntry(w, w.active, TEMP_CONTEXT, c), Dir(w, c);
    WindowSlots(1);
    assert Identified(w, c) == PutEntry(s, s.active, d, d);
    IdentityGoesAstray(s, c);
    var u := Identified(w, c);
    StrayTraversal(u, c);
    var v := Switch(w, c);
    EntryFields(c);
    assert IsContext(v, c) && Slot(v, c, 0) == Entry(c);
    assert !HasRole(v, TableOf(v, c, 0), TableRole(c, 0));
    assert !ContextOk(v, c);
  }

  // ----- the usual case -----

  /** Everything but the last load is as meant. */
  lemma ArrivesInPlace(w: World, c: Frame)
    requires CanSwitch(w, c) && KeepsStructure(w, c)
    ensures var u := Identified(w, c);
            && Traversable(u, c) && Mapped(ContextMapped(u, c), LoadWindow(w, c))
            && ContextMapped(u, c) == Rewritten(Pointed(u, c), c, 1024)
  {
    IdentifiedIsReady(w, c);
    ReadyIsSteady(Identified(w, c), c);
    SteadyTraversal(Identified(w, c), c);
    LoadFinds(w, c);
  }

  /** The switch as it is meant to be. */
  lemma SwitchArrives(w: World, c: Frame)
    requires CanSwitch(w, c) && SwitchWorks(w, c)
    ensures Switch(w, c) == Rewritten(Pointed(Identified(w, c), c), c, 1024).(active := c, cr3 := Dir(w, c))
    ensures Inv(Switch(w, c))
  {
    ArrivesInPlace(w, c);
    LoadFinds(w, c);
    BeforeLoad(w, c);
    ActivatedInv(Rewritten(Pointed(Identified(w, c), c), c, 1024), c);
  }

  /** With the TEMP_CONTEXT window displaced, CR3 is loaded from the target's directory instead of its block. */
  lemma LoadsTheWrongWord(w: World, c: Frame)
    requires CanSwitch(w, c) && c != w.active && Dir(w, c) == TEMP_CONTEXT
    ensures !Structured(Switch(w, c))
  {
    OtherImpliesSlot2(w, c);
    assert TEMP_CONTEXT / 1024 == 2 && TEMP_CONTEXT != TableWindow(1);
    ArrivesInPlace(w, c);
    LoadFinds(w, c);
    var u, v := ContextMapped(Identified(w, c), c), Switch(w, c);
    assert ContextOk(w, c);
    assert v.cr3 == TableOf(w, c, 0);
    if Present(Slot(w, c, 0)) {
      assert HasRole(w, TableOf(w, c, 0), TableRole(c, 0));
    }
    assert v.cr3 != Dir(w, c) && Dir(v, c) == Dir(w, c);
  }

  /** Whatever the target, the code neither faults nor leaves a stale translation on its way to CR3. */
  lemma SwitchNeverFaults(w: World, c: Frame)
    requires CanSwitch(w, c)
    ensures var u := Identified(w, c);
            Traversable(u, c) && Mapped(ContextMapped(u, c), LoadWindow(w, c))
  {
    if KeepsStructure(w, c) {
      ArrivesInPlace(w, c);
    } else if Dir(w, c) == TableWindow(1) {
      GoesAstray(w, c);
    } else {
      TearsApart(w, c);
    }
  }

  /**
   A context switch leaves the target active and coherent if and only if the target is active already, or
   its directory is in neither of the frames 0x403 and 0x803, and the page numbered like that frame needs
   no new table in the kernel half. In all other cases not even the structure survives.
   */
  lemma SwitchCoherent(w: World, c: Frame)
    requires CanSwitch(w, c)
    ensures Inv(Switch(w, c)) <==>
            c == w.active ||
            (Dir(w, c) != 0x403 && Dir(w, c) != 0x803 &&
             (Present(Slot(w, w.active, Dir(w, c) / 1024)) || KERNEL_SLOTS <= Dir(w, c) / 1024))
    ensures Inv(Switch(w, c)) <==> SwitchWorks(w, c)
    ensures !Inv(Switch(w, c)) ==> !Structured(Switch(w, c))
    ensures Switch(w, c).active == c
  {
    if SwitchWorks(w, c) {
      SwitchArrives(w, c);
    } else if Dir(w, c) == TableWindow(1) {
      GoesAstray(w, c);
    } else if TornApart(w, c) {
      TearsApart(w, c);
    } else {
      LoadsTheWrongWord(w, c);
    }
  }
}
