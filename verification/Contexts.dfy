/**
 The operations built on mapping, stated on physical memory: mapping in any context, creating a context,
 and the memory effects of writes that go neither to a directory nor to a table.
 */
module Contexts {
  import opened Words
  import opened Pmm
  import opened Mmu
  import opened World
  import opened Mapping
  import opened OtherContext

  // ----- mapping in any context -----

  ghost predicate CanMap(w: World, c: Frame, p: Page) {
    && Inv(w) && IsContext(w, c)
    && (if c == w.active then CanMapHere(w, p) else CanMapThere(w, c, p))
  }

  ghost function Map(w: World, c: Frame, p: Page, f: Frame): World
    requires CanMap(w, c, p)
  {
    if c == w.active then MapHere(w, p, f) else MapThere(w, c, p, f)
  }

  /** Page tables the mapping creates: at most two. */
  ghost function TablesCreated(w: World, c: Frame, p: Page): (n: nat)
    ensures n <= 2
  {
    if c == w.active then TablesNeeded(w, p / 1024) else if Present(Slot(w, c, p / 1024)) then 0 else 1
  }

  /** Pages of a new table's window, which only mappings in the active context create. */
  ghost predicate SideEffect(w: World, c: Frame, p: Page, q: Page) {
    if c == w.active then IsNewWindow(w, p / 1024, q) else IsTempWindow(q)
  }

  /**
   Map correctness with frame: `p` of `c` translates to `f`; so does `p` of every other context if `p`
   is a kernel page; apart from that and from the windows, every page of every context is as before.
   */
  lemma MapTranslations(w: World, c: Frame, p: Page, f: Frame, d: Frame, q: Page)
    requires CanMap(w, c, p) && IsContext(w, d)
    ensures Affects(c, p, d, q) ==> Translate(Map(w, c, p, f), d, q) == Some(f)
    ensures !Affects(c, p, d, q) && !SideEffect(w, c, p, q) ==>
              Translate(Map(w, c, p, f), d, q) == Translate(w, d, q)
  {
    if c == w.active {
      MapHereTranslations(w, p, f, d, q);
    } else {
      MapThereTranslations(w, c, p, f, d, q);
    }
  }

  lemma MapExtends(w: World, c: Frame, p: Page, f: Frame)
    requires CanMap(w, c, p)
    ensures Extends(w, Map(w, c, p, f))
    ensures |Map(w, c, p, f).pm.free| == |w.pm.free| - TablesCreated(w, c, p)
  {
    if c == w.active {
      MapHereExtends(w, p, f);
    } else {
      MapThereExtends(w, c, p, f);
    }
  }

  lemma MapKeepsInv(w: World, c: Frame, p: Page, f: Frame)
    requires CanMap(w, c, p) && Spare(w, p)
    ensures Inv(Map(w, c, p, f))
  {
    if c == w.active {
      MapHereKeepsCoherence(w, p, f);
    } else {
      MapThereKeepsCoherence(w, c, p, f);
    }
  }

  /** A user mapping in one context changes no user translation in any other. */
  lemma UserIsolation(w: World, c: Frame, p: Page, f: Frame, d: Frame, q: Page)
    requires CanMap(w, c, p) && IsContext(w, d)
    requires 0x4_0000 <= q && (d != c || q != p)
    ensures Translate(Map(w, c, p, f), d, q) == Translate(w, d, q)
  {
    MapTranslations(w, c, p, f, d, q);
  }

  // ----- writes to frames that are neither directories nor tables -----

  ghost predicate IsPayload(w: World, g: Frame) {
    g !in w.pm.free && (g in w.roles ==> w.roles[g].Data?)
  }

  /** Handed out by the allocator, and not yet in use. */
  ghost predicate IsTaken(w: World, g: Frame) {
    g !in w.pm.free && g !in w.roles && g != 0
  }

  ghost function SetFrame(w: World, g: Frame, t: Table): World {
    w.(mem := w.mem[g := t])
  }

  /** The frame holds no part of a translation: a payload frame, or a context block whose first word stays. */
  ghost predicate CanSetFrame(w: World, g: Frame, t: Table) {
    IsPayload(w, g) || (IsContext(w, g) && t[0] == w.mem[g][0])
  }

  lemma SetFrameEffect(w: World, g: Frame, t: Table)
    requires Structured(w) && CanSetFrame(w, g, t)
    ensures var v := SetFrame(w, g, t);
            && Structured(v)
            && (forall d: Frame | IsContext(w, d) :: Dir(v, d) == Dir(w, d) && v.mem[Dir(w, d)] == w.mem[Dir(w, d)])
            && (forall d: Frame, q: Page | IsContext(w, d) :: Translate(v, d, q) == Translate(w, d, q))
  {
    var v := SetFrame(w, g, t);
    forall d: Frame | IsContext(w, d)
      ensures Dir(v, d) == Dir(w, d) && v.mem[Dir(w, d)] == w.mem[Dir(w, d)]
      ensures v.mem[d][0] == w.mem[d][0]
    {
      assert ContextOk(w, d);
    }
    forall d: Frame | IsContext(w, d) ensures ContextOk(v, d) {
      assert ContextOk(w, d) && IsContext(w, w.active);
      forall i: nat | i < 1024
        ensures Slot(v, d, i) == Slot(w, d, i) && Slot(v, v.active, i) == Slot(w, w.active, i)
      {
      }
    }
    forall d: Frame, q: Page | IsContext(w, d) ensures Translate(v, d, q) == Translate(w, d, q) {
      assert ContextOk(w, d);
      assert Slot(v, d, q / 1024) == Slot(w, d, q / 1024);
      if Present(Slot(w, d, q / 1024)) {
        assert HasRole(w, TableOf(w, d, q / 1024), TableRole(d, q / 1024));
      }
    }
    assert CacheAgrees(w.pm);
  }

  lemma SetFrameKeepsInv(w: World, g: Frame, t: Table)
    requires Inv(w) && CanSetFrame(w, g, t)
    ensures Inv(SetFrame(w, g, t))
  {
    SetFrameEffect(w, g, t);
    var v := SetFrame(w, g, t);
    forall j: nat | j < 1024 ensures Slot(v, v.active, j) == Slot(w, w.active, j) {}
    CoherenceKept(w, v);
  }

  // ----- frames taken from the allocator but not yet in use -----

  ghost function Claim(w: World): World
    requires CanAlloc(w.pm)
  {
    w.(pm := AfterAlloc(w.pm))
  }

  lemma ClaimFacts(w: World, n: nat)
    requires Inv(w) && Enough(w.pm, n) && n > 0
    ensures CanAlloc(w.pm) && Inv(Claim(w)) && Enough(Claim(w).pm, n - 1)
    ensures IsTaken(Claim(w), Pick(w.pm)) && Blank(w.mem[Pick(w.pm)])
  {
    EnoughToAlloc(w.pm, n);
    AllocSpends(w.pm);
    var v := Claim(w);
    assert Pick(w.pm) in w.pm.free;
    forall d: Frame | IsContext(v, d) ensures ContextOk(v, d) {
      assert ContextOk(w, d);
      forall i: nat | i < 1024
        ensures Slot(v, d, i) == Slot(w, d, i) && Slot(v, v.active, i) == Slot(w, w.active, i)
      {
      }
    }
    forall j: nat | j < 1024 ensures Slot(v, v.active, j) == Slot(w, w.active, j) {}
    CoherenceKept(w, v);
  }

  lemma PutEntrySpares(w: World, c: Frame, p: Page, f: Frame, g: Frame)
    requires Structured(w) && IsContext(w, c) && Present(Slot(w, c, p / 1024)) && IsPayload(w, g)
    ensures PutEntry(w, c, p, f).mem[g] == w.mem[g]
  {
    assert ContextOk(w, c);
    assert HasRole(w, TableOf(w, c, p / 1024), TableRole(c, p / 1024));
  }

  lemma NewTableSpares(w: World, p: Page, g: Frame)
    requires CanMapHere(w, p) && !Present(Slot(w, w.active, p / 1024)) && IsPayload(w, g)
    ensures CanAlloc(w.pm)
    ensures var u := NewTable(w, p);
            && u.mem[g] == w.mem[g] && IsPayload(u, g) && (g in u.roles <==> g in w.roles)
  {
    NewTableEnters(w, p);
    assert ContextOk(w, w.active);
    assert Pick(w.pm) in w.pm.free;
  }

  /** Mapping touches no frame that holds neither tables nor directories. */
  lemma {:induction false} MapHereSpares(w: World, p: Page, f: Frame, g: Frame)
    requires CanMapHere(w, p) && IsPayload(w, g)
    ensures var v := MapHere(w, p, f);
            && v.mem[g] == w.mem[g] && IsPayload(v, g)
            && (g in v.roles <==> g in w.roles)
    decreases TablesNeeded(w, p / 1024)
  {
    if Present(Slot(w, w.active, p / 1024)) {
      PutEntrySpares(w, w.active, p, f, g);
    } else {
      NewTableFacts(w, p);
      NewTableSpares(w, p, g);
      BeforeEntry(w, p, w.active);
      var u := NewTable(w, p);
      MapHereSpares(u, TableWindow(p / 1024), Pick(w.pm), g);
      PutEntrySpares(MapHere(u, TableWindow(p / 1024), Pick(w.pm)), w.active, p, f, g);
    }
  }
}
