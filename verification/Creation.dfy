/** vmm_create_context, stated on physical memory. */
module Creation {
  import opened Words
  import opened Pmm
  import opened Mmu
  import opened World
  import opened Mapping
  import opened OtherContext
  import opened Contexts

  const USER_SPACE_START: Word := 0x4000_0000
  const KERNEL_SPACE_START: Word := 0x00a0_0000

  /** A directory that shares slots 0..255 with `t` and has nothing else. */
  function KernelHalf(t: Table): (h: Table)
    ensures forall i: nat | i < 1024 :: h[i] == if i < KERNEL_SLOTS then t[i] else 0
  {
    t[..KERNEL_SLOTS] + Zeros()[KERNEL_SLOTS..]
  }

  /** The first `n` entries of a directory under construction. */
  function Filled(t: Table, n: nat): (h: Table)
    requires n <= 1024
    ensures forall i: nat | i < 1024 :: h[i] == if i < n && i < KERNEL_SLOTS then t[i] else 0
  {
    KernelHalf(t)[..n] + Zeros()[n..]
  }

  ghost predicate CanCreate(w: World) {
    Inv(w) && Enough(w.pm, 2 + TablesNeeded(w, 2))
  }

  // ----- the stages of the operation -----

  /** The context frame is taken and shown; a table for slot 2 may have been created for that. */
  ghost function ContextShown(w: World): World
    requires CanCreate(w)
  {
    ClaimFacts(w, 2 + TablesNeeded(w, 2));
    assert TEMP_CONTEXT / 1024 == 2;
    MapHere(Claim(w), TEMP_CONTEXT, Pick(w.pm))
  }

  lemma ClaimExtends(w: World)
    requires CanCreate(w)
    ensures CanAlloc(w.pm)
    ensures var s, c := Claim(w), Pick(w.pm);
            && Inv(s) && Extends(w, s) && CanMapHere(s, TEMP_CONTEXT)
            && IsTaken(s, c) && Blank(s.mem[c])
            && |s.pm.free| == |w.pm.free| - 1 && |Reachable(s.pm)| == |Reachable(w.pm)| - 1
            && TablesNeeded(s, TEMP_CONTEXT / 1024) == TablesNeeded(w, 2)
  {
    ClaimFacts(w, 2 + TablesNeeded(w, 2));
    AllocSpends(w.pm);
    assert TEMP_CONTEXT / 1024 == 2;
  }

  lemma ContextShownFacts(w: World)
    requires CanCreate(w)
    ensures CanAlloc(w.pm)
    ensures var v, c := ContextShown(w), Pick(w.pm);
            && Inv(v) && Extends(w, v) && Present(Slot(v, w.active, 2)) && IsContext(v, w.active)
            && Translate(v, w.active, TEMP_CONTEXT) == Some(c)
            && IsTaken(v, c) && Blank(v.mem[c])
            && Enough(v.pm, 1)
            && |v.pm.free| == |w.pm.free| - 1 - TablesNeeded(w, 2)
  {
    ClaimExtends(w);
    var s, c := Claim(w), Pick(w.pm);
    ShownAfterClaim(s, c);
    ExtendsTransitive(w, s, ContextShown(w));
  }

  lemma ShownAfterClaim(s: World, c: Frame)
    requires Inv(s) && CanMapHere(s, TEMP_CONTEXT)
    requires IsTaken(s, c) && Blank(s.mem[c])
    ensures var v := MapHere(s, TEMP_CONTEXT, c);
            && Inv(v) && Extends(s, v) && Present(Slot(v, s.active, 2))
            && Translate(v, s.active, TEMP_CONTEXT) == Some(c)
            && IsTaken(v, c) && Blank(v.mem[c])
            && |v.pm.free| == |s.pm.free| - TablesNeeded(s, TEMP_CONTEXT / 1024)
            && |Reachable(v.pm)| == |Reachable(s.pm)| - TablesNeeded(s, TEMP_CONTEXT / 1024)
  {
    MapHereExtends(s, TEMP_CONTEXT, c);
    MapHereKeepsCoherence(s, TEMP_CONTEXT, c);
    MapHereSpares(s, TEMP_CONTEXT, c, c);
    MapHereTranslations(s, TEMP_CONTEXT, c, s.active, TEMP_CONTEXT);
  }

  /** The directory frame is taken and entered in the context block. */
  ghost function Entered(v: World, c: Frame): World
    requires CanAlloc(v.pm)
  {
    var s := Claim(v);
    SetFrame(s, c, s.mem[c][0 := AddressOf(Pick(v.pm))])
  }

  /** The directory is shown, too. */
  ghost function DirectoryShown(v: World, c: Frame): World
    requires CanAlloc(v.pm)
  {
    PutEntry(Entered(v, c), v.active, TEMP_DIRECTORY, Pick(v.pm))
  }

  lemma DirectoryEntered(v: World, c: Frame)
    requires Inv(v) && Present(Slot(v, v.active, 2)) && Enough(v.pm, 1)
    requires IsTaken(v, c)
    ensures CanAlloc(v.pm)
    ensures var t := Entered(v, c);
            && Inv(t) && t.active == v.active && t.cr3 == v.cr3 && t.pm.free <= v.pm.free
            && SameDirectories(v, t) && t.roles == v.roles
            && Present(Slot(t, t.active, 2)) && t.mem[c] == v.mem[c][0 := AddressOf(Pick(v.pm))]
            && FrameOf(AddressOf(Pick(v.pm))) == Pick(v.pm)
            && (forall x: Frame, q: Page | IsContext(v, x) :: Translate(t, x, q) == Translate(v, x, q))
  {
    ClaimFacts(v, 1);
    var s := Claim(v);
    SetFrameEffect(s, c, s.mem[c][0 := AddressOf(Pick(v.pm))]);
    SetFrameKeepsInv(s, c, s.mem[c][0 := AddressOf(Pick(v.pm))]);
    assert Slot(Entered(v, c), v.active, 2) == Slot(v, v.active, 2);
  }

  /** What holds between the claiming of the two frames and their registration. */
  ghost predicate Drafted(u: World, c: Frame, d: Frame) {
    && Inv(u) && Present(Slot(u, u.active, 2)) && IsContext(u, u.active)
    && IsTaken(u, c) && IsTaken(u, d) && c != d
    && u.mem[c][0] == AddressOf(d)
  }

  lemma DirectoryShownFacts(v: World, c: Frame)
    requires Inv(v) && Present(Slot(v, v.active, 2)) && Enough(v.pm, 1)
    requires IsTaken(v, c)
    ensures CanAlloc(v.pm)
    ensures var u, d := DirectoryShown(v, c), Pick(v.pm);
            && Drafted(u, c, d) && SameDirectories(v, u) && u.roles == v.roles
            && u.mem[c] == v.mem[c][0 := AddressOf(d)] && Blank(u.mem[d])
            && Translate(u, u.active, TEMP_DIRECTORY) == Some(d)
            && Translate(u, u.active, TEMP_CONTEXT) == Translate(v, v.active, TEMP_CONTEXT)
  {
    ClaimFacts(v, 1);
    DirectoryEntered(v, c);
    var d, t := Pick(v.pm), Entered(v, c);
    PointTemp(t, TEMP_DIRECTORY, d);
    assert ContextOk(t, t.active);
    assert HasRole(t, TableOf(t, t.active, 2), TableRole(t.active, 2));
    PutEntryTranslations(t, t.active, TEMP_DIRECTORY, d, t.active, TEMP_CONTEXT);
  }

  /** The directory is filled and the allocation pointers are set: the context is complete. */
  ghost function Registered(u: World, c: Frame, d: Frame): World {
    var s := SetFrame(u, d, KernelHalf(u.mem[u.cr3]));
    SetFrame(s, c, s.mem[c][1 := USER_SPACE_START][2 := KERNEL_SPACE_START])
      .(roles := u.roles[c := ContextBlock][d := Directory(c)])
  }

  lemma RegisteredOld(u: World, c: Frame, d: Frame, x: Frame)
    requires Drafted(u, c, d) && IsContext(u, x)
    ensures var v := Registered(u, c, d);
            && IsContext(v, x) && v.mem[x] == u.mem[x] && v.mem[Dir(u, x)] == u.mem[Dir(u, x)]
            && (forall q: Page :: Translate(v, x, q) == Translate(u, x, q))
            && ContextOk(v, x)
  {
    var v := Registered(u, c, d);
    assert ContextOk(u, x) && ContextOk(u, u.active);
    forall i: nat | i < 1024
      ensures Slot(v, x, i) == Slot(u, x, i) && Slot(v, v.active, i) == Slot(u, u.active, i)
    {
    }
    forall q: Page ensures Translate(v, x, q) == Translate(u, x, q) {
      assert Slot(v, x, q / 1024) == Slot(u, x, q / 1024);
      if Present(Slot(u, x, q / 1024)) {
        assert HasRole(u, TableOf(u, x, q / 1024), TableRole(x, q / 1024));
      }
    }
  }

  lemma RegisteredNew(u: World, c: Frame, d: Frame)
    requires Drafted(u, c, d)
    ensures var v := Registered(u, c, d);
            && IsContext(v, c) && Dir(v, c) == d && ContextOk(v, c)
            && (forall i: nat | i < 1024 :: Slot(v, c, i) == if i < KERNEL_SLOTS then Slot(u, u.active, i) else 0)
            && (forall q: Page :: Translate(v, c, q) ==
                  if q / 1024 < KERNEL_SLOTS then Translate(u, u.active, q) else None)
            && v.mem[c][1] == USER_SPACE_START && v.mem[c][2] == KERNEL_SPACE_START
  {
    var v := Registered(u, c, d);
    EntryFields(d);
    RegisteredOld(u, c, d, u.active);
    assert ContextOk(u, u.active);
    forall i: nat | i < 1024
      ensures Present(Slot(v, c, i)) ==> HasRole(v, TableOf(v, c, i), TableRole(c, i))
      ensures !Present(Slot(v, c, i)) ==> Slot(v, c, i) == 0
    {
      if i < KERNEL_SLOTS && Present(Slot(u, u.active, i)) {
        assert HasRole(u, TableOf(u, u.active, i), TableRole(u.active, i));
      }
    }
    forall q: Page
      ensures Translate(v, c, q) == if q / 1024 < KERNEL_SLOTS then Translate(u, u.active, q) else None
    {
      assert Slot(v, c, q / 1024) == if q / 1024 < KERNEL_SLOTS then Slot(u, u.active, q / 1024) else 0;
      if q / 1024 < KERNEL_SLOTS && Present(Slot(u, u.active, q / 1024)) {
        assert HasRole(u, TableOf(u, u.active, q / 1024), TableRole(u.active, q / 1024));
      }
    }
  }

  lemma RegisteredInv(u: World, c: Frame, d: Frame)
    requires Drafted(u, c, d)
    ensures Inv(Registered(u, c, d))
  {
    var v := Registered(u, c, d);
    RegisteredOld(u, c, d, u.active);
    RegisteredNew(u, c, d);
    forall x: Frame | IsContext(v, x) ensures ContextOk(v, x) {
      if x != c {
        assert IsContext(u, x);
        RegisteredOld(u, c, d, x);
      }
    }
    forall j: nat | j < 1024 ensures TableWindowOk(v, j) {
      assert TableWindowOk(u, j);
      assert Slot(v, v.active, j) == Slot(u, u.active, j);
    }
    assert CacheAgrees(u.pm);
    assert Slot(v, v.active, 1) == Slot(u, u.active, 1) && Slot(v, v.active, 2) == Slot(u, u.active, 2);
  }

  ghost function Create(w: World): World
    requires CanCreate(w)
  {
    ContextShownFacts(w);
    var c, v := Pick(w.pm), ContextShown(w);
    DirectoryShownFacts(v, c);
    Registered(DirectoryShown(v, c), c, Pick(v.pm))
  }

  // ----- what the operation achieves -----

  /** The frame of the new context block. */
  ghost function NewContext(w: World): Frame
    requires CanCreate(w)
  {
    ContextShownFacts(w);
    Pick(w.pm)
  }

  lemma CreateKeepsInv(w: World)
    requires CanCreate(w)
    ensures Inv(Create(w))
    ensures NewContext(w) in w.pm.free && IsContext(Create(w), NewContext(w))
    ensures Create(w).active == w.active && Create(w).cr3 == w.cr3
  {
    ContextShownFacts(w);
    var c, v := Pick(w.pm), ContextShown(w);
    DirectoryShownFacts(v, c);
    RegisteredInv(DirectoryShown(v, c), c, Pick(v.pm));
    RegisteredNew(DirectoryShown(v, c), c, Pick(v.pm));
  }

  /** The new context shares the kernel half and maps no user page. */
  lemma CreateNew(w: World, q: Page)
    requires CanCreate(w)
    ensures var v, c := Create(w), NewContext(w);
            && (q < 0x4_0000 ==> Translate(v, c, q) == Translate(v, w.active, q))
            && (0x4_0000 <= q ==> Translate(v, c, q) == None)
            && v.mem[c][1] == 0x4000_0000 && v.mem[c][2] == 0x00a0_0000
  {
    ContextShownFacts(w);
    var c, v := Pick(w.pm), ContextShown(w);
    DirectoryShownFacts(v, c);
    var u, d := DirectoryShown(v, c), Pick(v.pm);
    RegisteredNew(u, c, d);
    RegisteredOld(u, c, d, w.active);
  }

  /** Every other context is as it was, except for windows. */
  lemma CreateOld(w: World, x: Frame, q: Page)
    requires CanCreate(w) && IsContext(w, x)
    requires !IsTempWindow(q) && !IsNewWindow(w, 2, q)
    ensures IsContext(Create(w), x) && x != NewContext(w) && Create(w).mem[x] == w.mem[x]
    ensures Translate(Create(w), x, q) == Translate(w, x, q)
  {
    ContextShownFacts(w);
    var c, v := Pick(w.pm), ContextShown(w);
    ShownOld(w, x, q);
    DirectoryShownFacts(v, c);
    var u, d := DirectoryShown(v, c), Pick(v.pm);
    DirectoryShownOld(v, c, x, q);
    RegisteredOld(u, c, d, x);
  }

  lemma ShownOld(w: World, x: Frame, q: Page)
    requires CanCreate(w) && IsContext(w, x)
    requires !IsTempWindow(q) && !IsNewWindow(w, 2, q)
    ensures CanAlloc(w.pm) && IsContext(ContextShown(w), x) && x != Pick(w.pm)
    ensures ContextShown(w).mem[x] == w.mem[x] && Translate(ContextShown(w), x, q) == Translate(w, x, q)
  {
    ClaimExtends(w);
    MapHereExtends(Claim(w), TEMP_CONTEXT, Pick(w.pm));
    MapHereTranslations(Claim(w), TEMP_CONTEXT, Pick(w.pm), x, q);
  }

  lemma DirectoryShownOld(v: World, c: Frame, x: Frame, q: Page)
    requires Inv(v) && Present(Slot(v, v.active, 2)) && Enough(v.pm, 1)
    requires IsTaken(v, c) && IsContext(v, x) && !IsTempWindow(q)
    ensures CanAlloc(v.pm) && Translate(DirectoryShown(v, c), x, q) == Translate(v, x, q)
  {
    DirectoryEntered(v, c);
    PutEntryTranslations(Entered(v, c), v.active, TEMP_DIRECTORY, Pick(v.pm), x, q);
  }
}
