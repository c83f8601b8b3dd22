/**
 Where the frames go: every frame that leaves the allocator is in use as a context block, a directory, a
 table or somebody's data, so over any run the frames that are free or in use stay the same.
 */
module Accounts {
  import opened Words
  import opened Pmm
  import opened Mmu
  import opened World
  import opened Mapping
  import opened OtherContext
  import opened Contexts
  import opened Creation
  import opened Switching
  import opened SwitchOutcome
  import opened Allocation
  import Runs

  /** The frames that are free or have a role. */
  ghost function Known(w: World): set<Frame> {
    w.pm.free + w.roles.Keys
  }

  lemma AddTableKnown(w: World, c: Frame, i: nat)
    requires CacheAgrees(w.pm) && i < 1024 && CanAlloc(w.pm)
    ensures Known(AddTable(w, c, i)) == Known(w)
  {
    assert AddTable(w, c, i).roles.Keys == w.roles.Keys + {Pick(w.pm)};
  }

  lemma ClaimDataKnown(w: World)
    requires CacheAgrees(w.pm) && CanAlloc(w.pm)
    ensures Known(ClaimData(w)) == Known(w)
  {
    assert ClaimData(w).roles.Keys == w.roles.Keys + {Pick(w.pm)};
  }

  // ----- mapping -----

  lemma {:induction false} MapHereKnown(w: World, p: Page, f: Frame)
    requires CanMapHere(w, p)
    ensures Known(MapHere(w, p, f)) == Known(w)
    decreases TablesNeeded(w, p / 1024)
  {
    if !Present(Slot(w, w.active, p / 1024)) {
      NewTableFacts(w, p);
      AddTableKnown(w, w.active, p / 1024);
      MapHereKnown(NewTable(w, p), TableWindow(p / 1024), Pick(w.pm));
    }
  }

  lemma MapThereKnown(w: World, c: Frame, p: Page, f: Frame)
    requires CanMapThere(w, c, p)
    ensures Known(MapThere(w, c, p, f)) == Known(w)
  {
    OtherImpliesSlot2(w, c);
    ShowContextReady(w, c, p);
    var u := ShowContext(w, c);
    assert Known(u) == Known(w);
    if !Present(Slot(u, c, p / 1024)) {
      AddTableKnown(u, c, p / 1024);
    }
    assert Known(EnsureTable(u, c, p / 1024)) == Known(w);
  }

  lemma MapKnown(w: World, c: Frame, p: Page, f: Frame)
    requires CanMap(w, c, p)
    ensures Known(Map(w, c, p, f)) == Known(w)
  {
    if c == w.active {
      MapHereKnown(w, p, f);
    } else {
      MapThereKnown(w, c, p, f);
    }
  }

  // ----- creating a context -----

  /** The context frame is gone from the allocator and has no role yet. */
  lemma ContextShownKnown(w: World)
    requires CanCreate(w)
    ensures CanAlloc(w.pm) && Known(ContextShown(w)) + {Pick(w.pm)} == Known(w)
  {
    ClaimExtends(w);
    MapHereKnown(Claim(w), TEMP_CONTEXT, Pick(w.pm));
    assert Pick(w.pm) in w.pm.free;
  }

  lemma RegisteredKnown(u: World, c: Frame, d: Frame)
    ensures Known(Registered(u, c, d)) == Known(u) + {c, d}
  {
    assert Registered(u, c, d).roles.Keys == u.roles.Keys + {c, d};
  }

  lemma DirectoryShownKnown(v: World, c: Frame)
    requires CacheAgrees(v.pm) && CanAlloc(v.pm)
    ensures Known(DirectoryShown(v, c)) + {Pick(v.pm)} == Known(v)
  {
    assert Pick(v.pm) in v.pm.free;
  }

  lemma CreateKnown(w: World)
    requires CanCreate(w)
    ensures Known(Create(w)) == Known(w)
  {
    ContextShownFacts(w);
    ContextShownKnown(w);
    var c, v := Pick(w.pm), ContextShown(w);
    CompletedKnown(v, c, Known(w));
  }

  lemma CompletedKnown(v: World, c: Frame, all: set<Frame>)
    requires CacheAgrees(v.pm) && CanAlloc(v.pm) && Known(v) + {c} == all
    ensures Known(Registered(DirectoryShown(v, c), c, Pick(v.pm))) == all
  {
    DirectoryShownKnown(v, c);
    RegisteredKnown(DirectoryShown(v, c), c, Pick(v.pm));
  }

  // ----- switching -----

  lemma {:induction false} RewrittenKnown(u: World, c: Frame, n: nat)
    requires n <= 1024
    ensures Known(Rewritten(u, c, n)) == Known(u)
  {
    if n > 0 {
      RewrittenKnown(u, c, n - 1);
    }
  }

  lemma SwitchKnown(w: World, c: Frame)
    requires CanSwitch(w, c) && SwitchWorks(w, c)
    ensures Known(Switch(w, c)) == Known(w)
  {
    SwitchArrives(w, c);
    if c != w.active {
      CanIdentify(w, c);
      MapHereKnown(PutEntry(w, w.active, TEMP_CONTEXT, c), Dir(w, c), Dir(w, c));
    }
    RewrittenKnown(Pointed(Identified(w, c), c), c, 1024);
  }

  // ----- runs -----

  lemma StepKnown(w: World, op: Runs.Op)
    requires Runs.Enabled(w, op) && Inv(w)
    ensures Known(Runs.Step(w, op)) == Known(w)
  {
    match op
    case MapOp(c, p, f) => MapKnown(w, c, p, f);
    case CreateOp => CreateKnown(w);
    case SwitchOp(c) => SwitchKnown(w, c);
    case AllocAtOp(c, p) =>
      ClaimDataKnown(w);
      if !SaysMapped(Lookup(w, p)) {
        MapKnown(ClaimData(w), c, p, Pick(w.pm));
      }
    case AllocKernelOp =>
      ClaimDataKnown(w);
      MapKnown(ClaimData(w), w.active, NextKernelPage(w), Pick(w.pm));
  }

  lemma {:induction false} RunKnown(w: World, ops: seq<Runs.Op>)
    requires Runs.Runnable(w, ops) && Inv(w)
    ensures Inv(Runs.Run(w, ops)) && Known(Runs.Run(w, ops)) == Known(w)
    decreases |ops|
  {
    if ops != [] {
      StepKnown(w, ops[0]);
      Runs.StepKeepsInv(w, ops[0]);
      RunKnown(Runs.Step(w, ops[0]), ops[1..]);
    }
  }

  // ----- what the roles stand for -----

  /** A directory is that of its context, and a table is in the slot it was made for. */
  ghost predicate Serves(w: World, f: Frame)
    requires f in w.roles
  {
    match w.roles[f]
    case ContextBlock => true
    case Directory(c) => IsContext(w, c) && Dir(w, c) == f
    case KernelTable(i) =>
      i < KERNEL_SLOTS && Present(Slot(w, w.active, i)) && TableOf(w, w.active, i) == f
    case UserTable(c, i) =>
      KERNEL_SLOTS <= i < 1024 && IsContext(w, c) && Present(Slot(w, c, i)) && TableOf(w, c, i) == f
    case Data => true
  }

  ghost predicate AllServe(w: World) {
    forall f: Frame | f in w.roles :: Serves(w, f)
  }

  lemma StillServes(w: World, v: World, f: Frame)
    requires Extends(w, v) && IsContext(w, w.active) && f in w.roles && Serves(w, f)
    ensures f in v.roles && Serves(v, f)
  {
  }

  lemma ExtensionServes(w: World, v: World)
    requires Extends(w, v) && IsContext(w, w.active) && AllServe(w)
    requires forall f: Frame | f in v.roles && f !in w.roles :: Serves(v, f)
    ensures AllServe(v)
  {
    forall f: Frame | f in v.roles ensures Serves(v, f) {
      if f in w.roles {
        StillServes(w, v, f);
      }
    }
  }

  lemma AddTableServes(w: World, c: Frame, i: nat)
    requires Structured(w) && AllServe(w) && IsContext(w, c) && CanAlloc(w.pm)
    requires i < 1024 && !Present(Slot(w, c, i))
    requires KERNEL_SLOTS <= i || Sole(w)
    ensures AllServe(AddTable(w, c, i))
  {
    AddTableExtends(w, c, i);
    EntryFields(Pick(w.pm));
    ExtensionServes(w, AddTable(w, c, i));
  }

  lemma PutEntryServes(w: World, c: Frame, p: Page, f: Frame)
    requires Structured(w) && AllServe(w) && IsContext(w, c) && Present(Slot(w, c, p / 1024))
    ensures AllServe(PutEntry(w, c, p, f))
  {
    PutEntryExtends(w, c, p, f);
    ExtensionServes(w, PutEntry(w, c, p, f));
  }

  lemma {:induction false} MapHereServes(w: World, p: Page, f: Frame)
    requires CanMapHere(w, p) && AllServe(w)
    ensures AllServe(MapHere(w, p, f))
    decreases TablesNeeded(w, p / 1024)
  {
    if Present(Slot(w, w.active, p / 1024)) {
      PutEntryServes(w, w.active, p, f);
    } else {
      NewTableFacts(w, p);
      AddTableServes(w, w.active, p / 1024);
      MapHereServes(NewTable(w, p), TableWindow(p / 1024), Pick(w.pm));
      BeforeEntry(w, p, w.active);
      PutEntryServes(MapHere(NewTable(w, p), TableWindow(p / 1024), Pick(w.pm)), w.active, p, f);
    }
  }

  lemma TableShownServes(w: World, c: Frame, p: Page)
    requires CanMapThere(w, c, p) && AllServe(w)
    ensures AllServe(TableShown(w, c, p))
  {
    OtherImpliesSlot2(w, c);
    ShowContextFacts(w, c);
    ShowContextReady(w, c, p);
    var w1, w2, i := PutEntry(w, w.active, TEMP_CONTEXT, c), ShowContext(w, c), p / 1024;
    PutEntryServes(w, w.active, TEMP_CONTEXT, c);
    PutEntryServes(w1, w.active, TEMP_DIRECTORY, Dir(w1, c));
    if !Present(Slot(w2, c, i)) {
      AddTableServes(w2, c, i);
    }
    EnsureTableFacts(w2, c, i);
    var w3 := EnsureTable(w2, c, i);
    PutEntryServes(w3, w.active, TEMP_TABLE, TableOf(w3, c, i));
  }

  lemma MapServes(w: World, c: Frame, p: Page, f: Frame)
    requires CanMap(w, c, p) && AllServe(w)
    ensures AllServe(Map(w, c, p, f))
  {
    if c == w.active {
      MapHereServes(w, p, f);
    } else {
      TableShownServes(w, c, p);
      TableShownFacts(w, c, p);
      PutEntryServes(TableShown(w, c, p), c, p, f);
    }
  }

  lemma ClaimDataServes(w: World)
    requires Inv(w) && CanAlloc(w.pm) && AllServe(w)
    ensures AllServe(ClaimData(w))
  {
    ClaimDataFacts(w);
    ExtensionServes(w, ClaimData(w));
  }

  lemma SetFrameServes(w: World, g: Frame, t: Table)
    requires Structured(w) && CanSetFrame(w, g, t) && AllServe(w)
    ensures AllServe(SetFrame(w, g, t))
  {
    SetFrameEffect(w, g, t);
    var v := SetFrame(w, g, t);
    forall f: Frame | f in v.roles ensures Serves(v, f) {
      assert Serves(w, f);
      assert forall d: Frame, i: nat | IsContext(w, d) && i < 1024 :: Slot(v, d, i) == Slot(w, d, i);
    }
  }

  lemma RegisteredServes(u: World, c: Frame, d: Frame)
    requires Drafted(u, c, d) && AllServe(u)
    ensures AllServe(Registered(u, c, d))
  {
    var v := Registered(u, c, d);
    RegisteredNew(u, c, d);
    forall f: Frame | f in v.roles ensures Serves(v, f) {
      if f != c && f != d {
        assert Serves(u, f);
        match u.roles[f]
        case Directory(x) => RegisteredOld(u, c, d, x);
        case KernelTable(i) => RegisteredOld(u, c, d, u.active);
        case UserTable(x, i) => RegisteredOld(u, c, d, x);
        case _ =>
      }
    }
  }

  lemma CreateServes(w: World)
    requires CanCreate(w) && AllServe(w)
    ensures AllServe(Create(w))
  {
    ContextShownFacts(w);
    ClaimExtends(w);
    var c, v := Pick(w.pm), ContextShown(w);
    ExtensionServes(w, Claim(w));
    MapHereServes(Claim(w), TEMP_CONTEXT, c);
    DirectoryEntered(v, c);
    DirectoryShownFacts(v, c);
    EnteredServes(v, c);
    PutEntryServes(Entered(v, c), v.active, TEMP_DIRECTORY, Pick(v.pm));
    RegisteredServes(DirectoryShown(v, c), c, Pick(v.pm));
  }

  lemma EnteredServes(v: World, c: Frame)
    requires Inv(v) && Enough(v.pm, 1) && IsTaken(v, c) && AllServe(v)
    ensures CanAlloc(v.pm) && AllServe(Entered(v, c))
  {
    ClaimFacts(v, 1);
    var s := Claim(v);
    assert forall f: Frame | f in s.roles :: Serves(v, f) ==> Serves(s, f);
    SetFrameServes(s, c, s.mem[c][0 := AddressOf(Pick(v.pm))]);
  }

  lemma SwitchServes(w: World, c: Frame)
    requires CanSwitch(w, c) && SwitchWorks(w, c) && AllServe(w)
    ensures AllServe(Switch(w, c))
  {
    SwitchArrives(w, c);
    IdentifiedFacts(w, c);
    if c != w.active {
      CanIdentify(w, c);
      OtherImpliesSlot2(w, c);
      var s := PutEntry(w, w.active, TEMP_CONTEXT, c);
      PutEntryServes(w, w.active, TEMP_CONTEXT, c);
      MapHereServes(s, Dir(w, c), Dir(w, c));
    }
    var u := Identified(w, c);
    PointedFacts(u, c);
    RewrittenFacts(Pointed(u, c), c, 1024);
    RewrittenServes(u, c);
    ActivatedServes(Rewritten(Pointed(u, c), c, 1024), c);
    BeforeLoad(w, c);
  }

  lemma RewrittenServes(u: World, c: Frame)
    requires ReadyToPoint(u, c) && AllServe(u)
    ensures AllServe(Rewritten(Pointed(u, c), c, 1024))
  {
    PointedFacts(u, c);
    RewrittenFacts(Pointed(u, c), c, 1024);
    var v := Rewritten(Pointed(u, c), c, 1024);
    ExtendsTransitive(u, Pointed(u, c), v);
    RewrittenRoles(Pointed(u, c), c, 1024);
    ExtensionServes(u, v);
  }

  lemma {:induction false} RewrittenRoles(u: World, c: Frame, n: nat)
    requires n <= 1024
    ensures Rewritten(u, c, n).roles == u.roles
  {
    if n > 0 {
      RewrittenRoles(u, c, n - 1);
    }
  }

  lemma ActivatedServes(u: World, c: Frame)
    requires Structured(u) && IsContext(u, c) && AllServe(u)
    ensures AllServe(u.(active := c, cr3 := Dir(u, c)))
  {
    var v := u.(active := c, cr3 := Dir(u, c));
    assert ContextOk(u, c);
    forall f: Frame | f in v.roles ensures Serves(v, f) {
      assert Serves(u, f);
      if u.roles[f].KernelTable? {
        assert Slot(u, c, u.roles[f].slot) == Slot(u, u.active, u.roles[f].slot);
      }
    }
  }

  lemma StepServes(w: World, op: Runs.Op)
    requires Runs.Enabled(w, op) && Inv(w) && AllServe(w)
    ensures AllServe(Runs.Step(w, op))
  {
    match op
    case MapOp(c, p, f) => MapServes(w, c, p, f);
    case CreateOp => CreateServes(w);
    case SwitchOp(c) => SwitchServes(w, c);
    case AllocAtOp(c, p) =>
      ClaimDataServes(w);
      if !SaysMapped(Lookup(w, p)) {
        MapServes(ClaimData(w), c, p, Pick(w.pm));
      }
    case AllocKernelOp =>
      ClaimDataServes(w);
      MapServes(ClaimData(w), w.active, NextKernelPage(w), Pick(w.pm));
      KernelMappedFacts(w);
      var v := KernelMapped(w);
      SetFrameServes(v, v.active, v.mem[v.active][2 := NextPage(v.mem[v.active][2])]);
  }

  lemma {:induction false} RunServes(w: World, ops: seq<Runs.Op>)
    requires Runs.Runnable(w, ops) && Inv(w) && AllServe(w)
    ensures AllServe(Runs.Run(w, ops))
    decreases |ops|
  {
    if ops != [] {
      StepServes(w, ops[0]);
      Runs.StepKeepsInv(w, ops[0]);
      RunServes(Runs.Step(w, ops[0]), ops[1..]);
    }
  }

  /**
   Conservation: after any run every frame that was free or in use is free or in use, never both, and no
   other is; so the frames in use have grown by as many as the free ones have shrunk. Every directory
   and table in use is reached: it is what a context, or a slot of a context's directory, names.
   */
  lemma FramesConserved(w: World, ops: seq<Runs.Op>)
    requires Runs.Runnable(w, ops) && Inv(w) && AllServe(w)
    ensures var v := Runs.Run(w, ops);
            && v.pm.free !! v.roles.Keys
            && v.pm.free + v.roles.Keys == w.pm.free + w.roles.Keys
            && |v.pm.free| + |v.roles.Keys| == |w.pm.free| + |w.roles.Keys|
            && AllServe(v)
  {
    RunKnown(w, ops);
    RunServes(w, ops);
    var v := Runs.Run(w, ops);
    assert w.pm.free !! w.roles.Keys && v.pm.free !! v.roles.Keys;
    DisjointSizes(v.pm.free, v.roles.Keys);
    DisjointSizes(w.pm.free, w.roles.Keys);
  }
}
