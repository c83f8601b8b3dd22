/**
 vmm_activate_context and vmm_map_context: the windows are rewritten, in the still active address space,
 to describe the target, and then CR3 is loaded. The function Switch follows the code's own loads and
 stores; the rest of the module finds out where they lead.
 */
module Switching {
  import opened Words
  import opened World
  import opened Mapping
  import opened OtherContext
  import opened Windows

  /** Any context can be asked for, as long as there is a frame for the table its directory's page may need. */
  ghost predicate CanSwitch(w: World, c: Frame) {
    && Inv(w) && IsContext(w, c)
    && (c != w.active ==> Enough(w.pm, TablesNeeded(w, Dir(w, c) / 1024)))
  }

  /**
   Before switching to another context the code maps the page numbered like the target's directory
   frame onto that frame. That page must not be the window of slot 1, through which most windows are
   edited, and must not need a table in the kernel half, which the target would not share.
   */
  ghost predicate KeepsStructure(w: World, c: Frame) {
    c == w.active ||
    (Dir(w, c) != TableWindow(1) &&
     (Present(Slot(w, w.active, Dir(w, c) / 1024)) || KERNEL_SLOTS <= Dir(w, c) / 1024))
  }

  /** Nor must it be the TEMP_CONTEXT window, through which the directory's address is fetched at last. */
  ghost predicate SwitchWorks(w: World, c: Frame) {
    KeepsStructure(w, c) && (c == w.active || Dir(w, c) != TEMP_CONTEXT)
  }

  // ----- the code, load by load and store by store -----

  ghost function Identified(w: World, c: Frame): World
    requires CanSwitch(w, c)
  {
    if c == w.active then w else
    CanIdentify(w, c);
    MapHere(PutEntry(w, w.active, TEMP_CONTEXT, c), Dir(w, c), Dir(w, c))
  }

  /** The address found in the first word of the page `q`. */
  ghost function Fetched(w: World, q: Page): Frame {
    FrameOf(w.mem[Seen(w, q)][0])
  }

  ghost function ContextShownThrough(u: World, c: Frame): World {
    WriteThrough(u, CONTEXT_WINDOW, c)
  }

  ghost function BothShownThrough(u: World, c: Frame): World {
    var t := ContextShownThrough(u, c);
    WriteThrough(t, DIRECTORY_WINDOW, Fetched(t, CONTEXT_WINDOW))
  }

  /** One round of the loop over the directory in view. */
  ghost function Round(u: World, n: nat): World
    requires n < 1024
  {
    var pde := u.mem[Seen(u, DIRECTORY_WINDOW)][n];
    if Present(pde) then WriteThrough(u, TableWindow(n), FrameOf(pde)) else u
  }

  ghost function Rounds(u: World, n: nat): World
    requires n <= 1024
  {
    if n == 0 then u else Round(Rounds(u, n - 1), n - 1)
  }

  /** The windows after vmm_map_context. */
  ghost function ContextMapped(u: World, c: Frame): World {
    Rounds(BothShownThrough(u, c), 1024)
  }

  /** The window the directory's address is fetched through at last. */
  function LoadWindow(w: World, c: Frame): Page {
    if c == w.active then CONTEXT_WINDOW else TEMP_CONTEXT
  }

  ghost function Switch(w: World, c: Frame): World
    requires CanSwitch(w, c)
  {
    var u := ContextMapped(Identified(w, c), c);
    u.(active := c, cr3 := Fetched(u, LoadWindow(w, c)))
  }

  /** No load or store on the way faults, and no store outdates a cached translation but that of its page. */
  ghost predicate Traversable(u: World, c: Frame) {
    && Direct(u, CONTEXT_WINDOW)
    && Mapped(ContextShownThrough(u, c), CONTEXT_WINDOW)
    && Direct(ContextShownThrough(u, c), DIRECTORY_WINDOW)
    && (forall n: nat | n < 1024 :: RoundReady(Rounds(BothShownThrough(u, c), n), n))
  }

  ghost predicate RoundReady(u: World, n: nat)
    requires n < 1024
  {
    && Mapped(u, DIRECTORY_WINDOW)
    && (Present(u.mem[Seen(u, DIRECTORY_WINDOW)][n]) ==> Direct(u, TableWindow(n)))
  }

  // ----- first stage: the identity mapping -----

  lemma CanIdentify(w: World, c: Frame)
    requires CanSwitch(w, c) && c != w.active
    ensures var u := PutEntry(w, w.active, TEMP_CONTEXT, c);
            && Inv(u) && CanEnter(u, Dir(w, c)) && Present(Slot(u, w.active, 2)) && Dir(u, c) == Dir(w, c)
            && IsContext(u, c) && u.active == w.active && SameDirectories(w, u)
            && Translate(u, u.active, TEMP_CONTEXT) == Some(c)
            && (KeepsStructure(w, c) || Dir(w, c) == TableWindow(1) ==> CanMapHere(u, Dir(w, c)))
  {
    OtherImpliesSlot2(w, c);
    PointTemp(w, TEMP_CONTEXT, c);
    var u := PutEntry(w, w.active, TEMP_CONTEXT, c);
    assert Slot(u, u.active, Dir(w, c) / 1024) == Slot(w, w.active, Dir(w, c) / 1024);
    assert Slot(u, u.active, 2) == Slot(w, w.active, 2);
  }

  /** Windows of slots 1022 and 1023 lie in slot 2. */
  ghost predicate HighWindows(u: World, c: Frame) {
    forall j: nat | 1022 <= j < 1024 && Present(Slot(u, c, j)) :: Present(Slot(u, u.active, 2))
  }

  /** What the rewriting of the windows starts from. */
  ghost predicate ReadyToPoint(u: World, c: Frame) {
    && Structured(u) && IsContext(u, c) && IsContext(u, u.active)
    && Present(Slot(u, u.active, 1)) && TableWindowOk(u, 1)
    && (Sole(u) || Present(Slot(u, u.active, 2)))
    && HighWindows(u, c)
    && (Translate(u, u.active, DIRECTORY_WINDOW) == Some(u.cr3) ||
        Translate(u, u.active, DIRECTORY_WINDOW) == Some(Dir(u, c)))
  }

  lemma IdentifiedFacts(w: World, c: Frame)
    requires CanSwitch(w, c) && KeepsStructure(w, c)
    ensures var u := Identified(w, c);
            && Extends(w, u) && ReadyToPoint(u, c) && Dir(u, c) == Dir(w, c)
            && (c != w.active ==>
                  Translate(u, w.active, TEMP_CONTEXT) == Some(if Dir(w, c) == TEMP_CONTEXT then Dir(w, c) else c))
  {
    if c == w.active {
      ExtendsSelf(w);
      assert TableWindowOk(w, 1) && TableWindowOk(w, 1022) && TableWindowOk(w, 1023);
    } else {
      CanIdentify(w, c);
      var u := PutEntry(w, w.active, TEMP_CONTEXT, c);
      IdentityStep(u, c);
      ExtendsTransitive(w, u, Identified(w, c));
    }
  }

  lemma IdentityStep(u: World, c: Frame)
    requires Inv(u) && IsContext(u, c) && c != u.active && Present(Slot(u, u.active, 2))
    requires CanMapHere(u, Dir(u, c)) && Dir(u, c) != TableWindow(1)
    ensures var v, d := MapHere(u, Dir(u, c), Dir(u, c)), Dir(u, c);
            && Extends(u, v) && ReadyToPoint(v, c) && Dir(v, c) == d
            && (Translate(u, u.active, TEMP_CONTEXT) == Some(c) ==>
                  Translate(v, u.active, TEMP_CONTEXT) == Some(if d == TEMP_CONTEXT then d else c))
  {
    var d := Dir(u, c);
    MapHereExtends(u, d, d);
    MapHereSlots(u, d, d, u.active, 1);
    MapHereSlots(u, d, d, u.active, 2);
    assert TableWindowOk(u, 1);
    TableWindowStays(u, d, d, 1);
    MapHereTranslations(u, d, d, u.active, DIRECTORY_WINDOW);
    MapHereTranslations(u, d, d, u.active, TEMP_CONTEXT);
  }

  // ----- second stage: the windows -----

  ghost function ContextPointed(u: World, c: Frame): World {
    PutEntry(u, u.active, CONTEXT_WINDOW, c)
  }

  ghost function Pointed(u: World, c: Frame): World {
    PutEntry(ContextPointed(u, c), u.active, DIRECTORY_WINDOW, Dir(u, c))
  }

  /** The windows of the first `n` slots describe context `c`. */
  ghost predicate Rewriting(u: World, c: Frame, n: nat)
    requires n <= 1024
  {
    && ReadyToPoint(u, c)
    && Translate(u, u.active, CONTEXT_WINDOW) == Some(c)
    && Translate(u, u.active, DIRECTORY_WINDOW) == Some(Dir(u, c))
    && (forall j: nat | j < n && Present(Slot(u, c, j)) ::
          Translate(u, u.active, TableWindow(j)) == Some(TableOf(u, c, j)))
  }

  lemma PutWindow(u: World, c: Frame, q: Page, f: Frame)
    requires ReadyToPoint(u, c) && Present(Slot(u, u.active, q / 1024)) && q / 1024 < KERNEL_SLOTS
    requires q == TableWindow(1) ==> f == TableOf(u, u.active, 1)
    requires q == DIRECTORY_WINDOW ==> f == Dir(u, c)
    ensures var v := PutEntry(u, u.active, q, f);
            && ReadyToPoint(v, c) && SameDirectories(u, v) && Extends(u, v)
            && Translate(v, u.active, q) == Some(f)
            && (forall p: Page | p != q :: Translate(v, u.active, p) == Translate(u, u.active, p))
  {
    PutEntryExtends(u, u.active, q, f);
    PutEntryEffect(u, u.active, q, f);
    var v := PutEntry(u, u.active, q, f);
    assert Slot(v, v.active, 1) == Slot(u, u.active, 1) && Slot(v, v.active, 2) == Slot(u, u.active, 2);
    forall j: nat | 1022 <= j < 1024 && Present(Slot(v, c, j)) ensures Present(Slot(v, v.active, 2)) {
      assert Slot(v, c, j) == Slot(u, c, j);
    }
  }

  lemma PointedFacts(u: World, c: Frame)
    requires ReadyToPoint(u, c)
    ensures var t, v := ContextPointed(u, c), Pointed(u, c);
            && ReadyToPoint(t, c) && Dir(t, c) == Dir(u, c) && t.active == u.active
            && Translate(t, u.active, CONTEXT_WINDOW) == Some(c)
            && Rewriting(v, c, 0) && Extends(u, v) && SameDirectories(u, v)
            && (forall p: Page | p != CONTEXT_WINDOW && p != DIRECTORY_WINDOW ::
                  Translate(v, u.active, p) == Translate(u, u.active, p))
  {
    PutWindow(u, c, CONTEXT_WINDOW, c);
    var t := ContextPointed(u, c);
    PutWindow(t, c, DIRECTORY_WINDOW, Dir(u, c));
    ExtendsTransitive(u, t, Pointed(u, c));
  }

  lemma IdentifiedIsReady(w: World, c: Frame)
    requires CanSwitch(w, c) && KeepsStructure(w, c)
    ensures ReadyToPoint(Identified(w, c), c)
  {
    IdentifiedFacts(w, c);
  }

  /** One round of the loop over the directory: the window of a present slot is rewritten. */
  ghost function RewriteOne(u: World, c: Frame, n: nat): World
    requires n < 1024
  {
    if Present(Slot(u, c, n)) then PutEntry(u, u.active, TableWindow(n), TableOf(u, c, n)) else u
  }

  ghost function Rewritten(u: World, c: Frame, n: nat): World
    requires n <= 1024
  {
    if n == 0 then u else RewriteOne(Rewritten(u, c, n - 1), c, n - 1)
  }

  lemma WindowSlotPresent(u: World, c: Frame, n: nat)
    requires n < 1024 && Rewriting(u, c, n) && Present(Slot(u, c, n))
    ensures Present(Slot(u, u.active, WindowSlot(n))) && WindowSlot(n) < KERNEL_SLOTS
    ensures TableWindowOk(u, WindowSlot(n))
    ensures n < KERNEL_SLOTS ==> TableOf(u, c, n) == TableOf(u, u.active, n)
  {
    WindowSlots(n);
    assert ContextOk(u, c);
    assert Slot(u, c, 2) == Slot(u, u.active, 2);
    assert n < KERNEL_SLOTS ==> Slot(u, c, n) == Slot(u, u.active, n);
    if n >= 1022 {
      assert Translate(u, u.active, TableWindow(2)) == Some(TableOf(u, c, 2));
    }
  }

  lemma RewriteOneFacts(u: World, c: Frame, n: nat)
    requires n < 1024 && Rewriting(u, c, n)
    ensures var v := RewriteOne(u, c, n);
            && Rewriting(v, c, n + 1) && Extends(u, v) && SameDirectories(u, v)
            && (forall p: Page | !IsWindow(p) :: Translate(v, u.active, p) == Translate(u, u.active, p))
  {
    if Present(Slot(u, c, n)) {
      WindowSlotPresent(u, c, n);
      PutWindow(u, c, TableWindow(n), TableOf(u, c, n));
      OneMoreWindow(u, RewriteOne(u, c, n), c, n);
    } else {
      ExtendsSelf(u);
    }
  }

  lemma OneMoreWindow(u: World, v: World, c: Frame, n: nat)
    requires n < 1024 && Rewriting(u, c, n) && ReadyToPoint(v, c) && SameDirectories(u, v)
    requires Translate(v, u.active, TableWindow(n)) == Some(TableOf(u, c, n))
    requires forall p: Page | p != TableWindow(n) :: Translate(v, u.active, p) == Translate(u, u.active, p)
    ensures Rewriting(v, c, n + 1)
  {
    assert forall j: nat | j < 1024 :: Slot(v, c, j) == Slot(u, c, j);
  }

  lemma {:induction false} RewrittenFacts(u: World, c: Frame, n: nat)
    requires n <= 1024 && Rewriting(u, c, 0)
    ensures var v := Rewritten(u, c, n);
            && Rewriting(v, c, n) && Extends(u, v) && SameDirectories(u, v)
            && (forall p: Page | !IsWindow(p) :: Translate(v, u.active, p) == Translate(u, u.active, p))
  {
    if n == 0 {
      ExtendsSelf(u);
    } else {
      RewrittenFacts(u, c, n - 1);
      var t := Rewritten(u, c, n - 1);
      RewriteOneFacts(t, c, n - 1);
      ExtendsTransitive(u, t, Rewritten(u, c, n));
    }
  }

  // ----- third stage: CR3 -----

  lemma ActivatedInv(u: World, c: Frame)
    requires Rewriting(u, c, 1024)
    ensures Inv(u.(active := c, cr3 := Dir(u, c)))
  {
    var v := u.(active := c, cr3 := Dir(u, c));
    assert ContextOk(u, c);
    forall d: Frame | IsContext(v, d) ensures ContextOk(v, d) {
      assert ContextOk(u, d);
      forall i: nat | i < 1024 ensures Slot(v, d, i) == Slot(u, d, i) && Slot(v, v.active, i) == Slot(u, c, i) {}
      forall i: nat | i < KERNEL_SLOTS ensures Slot(v, d, i) == Slot(v, v.active, i) {
        assert Slot(u, d, i) == Slot(u, u.active, i) == Slot(u, c, i);
      }
    }
    forall q: Page | IsWindow(q) ensures Translate(v, c, q) == Translate(u, u.active, q) {
      assert Slot(u, c, q / 1024) == Slot(u, u.active, q / 1024);
    }
    assert IsWindow(CONTEXT_WINDOW) && IsWindow(DIRECTORY_WINDOW);
    forall j: nat | j < 1024 ensures TableWindowOk(v, j) {
      assert IsWindow(TableWindow(j));
      assert Slot(v, c, j) == Slot(u, c, j);
    }
    assert Slot(u, c, 1) == Slot(u, u.active, 1) && Slot(u, c, 2) == Slot(u, u.active, 2);
    assert Slot(v, c, 1) == Slot(u, c, 1) && Slot(v, c, 2) == Slot(u, c, 2);
  }

  lemma BeforeLoad(w: World, c: Frame)
    requires CanSwitch(w, c) && KeepsStructure(w, c)
    ensures var u := Rewritten(Pointed(Identified(w, c), c), c, 1024);
            && Rewriting(u, c, 1024) && Extends(w, u) && Dir(u, c) == Dir(w, c)
  {
    IdentifiedFacts(w, c);
    var u1 := Identified(w, c);
    PointedFacts(u1, c);
    var u2 := Pointed(u1, c);
    RewrittenFacts(u2, c, 1024);
    ExtendsTransitive(w, u1, u2);
    ExtendsTransitive(w, u2, Rewritten(u2, c, 1024));
  }

  /** What the fetch of the directory address finds. */
  lemma LoadFinds(w: World, c: Frame)
    requires CanSwitch(w, c) && KeepsStructure(w, c)
    ensures var u := Rewritten(Pointed(Identified(w, c), c), c, 1024);
            && Rewriting(u, c, 1024) && u.active == w.active && u.cr3 == w.cr3
            && (c == w.active ==> Translate(u, u.active, CONTEXT_WINDOW) == Some(c))
            && (c != w.active ==>
                  Translate(u, u.active, TEMP_CONTEXT) == Some(if Dir(w, c) == TEMP_CONTEXT then Dir(w, c) else c))
            && FrameOf(u.mem[c][0]) == Dir(w, c)
            && (Dir(w, c) == TEMP_CONTEXT ==> u.mem[Dir(w, c)] == w.mem[Dir(w, c)])
  {
    BeforeLoad(w, c);
    IdentifiedFacts(w, c);
    var u1 := Identified(w, c);
    PointedFacts(u1, c);
    var u2 := Pointed(u1, c);
    RewrittenFacts(u2, c, 1024);
    if c != w.active && Dir(w, c) == TEMP_CONTEXT {
      CanIdentify(w, c);
      var u0 := PutEntry(w, w.active, TEMP_CONTEXT, c);
      PointTemp(u0, TEMP_CONTEXT, Dir(w, c));
    }
  }
}
