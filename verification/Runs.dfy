/** Properties of whole runs of the memory manager. */
module Runs {
  import opened Words
  import opened Pmm
  import opened World
  import opened Mapping
  import opened Contexts
  import opened Creation
  import opened Switching
  import opened SwitchOutcome
  import opened SwitchEffect
  import opened Allocation

  datatype Op =
    | MapOp(ctx: Frame, page: Page, frame: Frame)
    | CreateOp
    | SwitchOp(ctx: Frame)
    | AllocAtOp(ctx: Frame, page: Page)
    | AllocKernelOp

  /** Callers map no window that shows something; everything else is the operation's own precondition. */
  ghost predicate Enabled(w: World, op: Op) {
    match op
    case MapOp(c, p, f) => CanMap(w, c, p) && Spare(w, p)
    case CreateOp => CanCreate(w)
    case SwitchOp(c) => CanSwitch(w, c) && SwitchWorks(w, c)
    case AllocAtOp(c, p) => CanAllocAt(w, c, p)
    case AllocKernelOp => CanAllocKernel(w)
  }

  ghost function Step(w: World, op: Op): World
    requires Enabled(w, op)
  {
    match op
    case MapOp(c, p, f) => Map(w, c, p, f)
    case CreateOp => Create(w)
    case SwitchOp(c) => Switch(w, c)
    case AllocAtOp(c, p) => Allocation.AllocAt(w, c, p)
    case AllocKernelOp => Allocation.AllocKernel(w)
  }

  ghost predicate Runnable(w: World, ops: seq<Op>)
    decreases |ops|
  {
    ops != [] ==> Enabled(w, ops[0]) && Runnable(Step(w, ops[0]), ops[1..])
  }

  ghost function Run(w: World, ops: seq<Op>): World
    requires Runnable(w, ops)
    decreases |ops|
  {
    if ops == [] then w else Run(Step(w, ops[0]), ops[1..])
  }

  // ----- the invariant -----

  lemma StepKeepsInv(w: World, op: Op)
    requires Inv(w) && Enabled(w, op)
    ensures Inv(Step(w, op))
  {
    match op
    case MapOp(c, p, f) => MapKeepsInv(w, c, p, f);
    case CreateOp => CreateKeepsInv(w);
    case SwitchOp(c) => SwitchCoherent(w, c);
    case AllocAtOp(c, p) =>
      if SaysMapped(Lookup(w, p)) {
        Refused(w, c, p);
      } else {
        Granted(w, c, p);
      }
    case AllocKernelOp => KernelGranted(w);
  }

  lemma {:induction false} RunKeepsInv(w: World, ops: seq<Op>)
    requires Inv(w) && Runnable(w, ops)
    ensures Inv(Run(w, ops))
    decreases |ops|
  {
    if ops != [] {
      StepKeepsInv(w, ops[0]);
      RunKeepsInv(Step(w, ops[0]), ops[1..]);
    }
  }

  /** After any run all contexts agree on the kernel half: on its directory slots and on its translations. */
  lemma KernelHalfAgreement(w: World, ops: seq<Op>, c: Frame, d: Frame, q: Page)
    requires Inv(w) && Runnable(w, ops)
    requires IsContext(Run(w, ops), c) && IsContext(Run(w, ops), d) && q < 0x4_0000
    ensures Slot(Run(w, ops), c, q / 1024) == Slot(Run(w, ops), d, q / 1024)
    ensures Translate(Run(w, ops), c, q) == Translate(Run(w, ops), d, q)
  {
    RunKeepsInv(w, ops);
    var v := Run(w, ops);
    assert ContextOk(v, c) && ContextOk(v, d);
    assert Slot(v, c, q / 1024) == Slot(v, v.active, q / 1024) == Slot(v, d, q / 1024);
  }

  lemma DisagreementBreaksStructure(v: World, c: Frame, d: Frame, i: nat)
    requires IsContext(v, c) && IsContext(v, d) && i < KERNEL_SLOTS
    requires Slot(v, c, i) != Slot(v, d, i)
    ensures !Structured(v)
  {
    assert !(ContextOk(v, c) && ContextOk(v, d));
  }

  /** The agreement is why a table may enter a kernel slot only while there is a single context. */
  lemma SharingCondition(w: World, c: Frame, i: nat)
    requires Structured(w) && IsContext(w, c) && CanAlloc(w.pm)
    requires i < 1024 && !Present(Slot(w, c, i))
    ensures Structured(AddTable(w, c, i)) <==> 256 <= i || Sole(w)
  {
    if KERNEL_SLOTS <= i || Sole(w) {
      AddTableStructure(w, c, i);
    } else {
      var d: Frame :| IsContext(w, d) && d != w.active;
      var other := if c == w.active then d else w.active;
      AddTableSlots(w, c, i, c);
      AddTableSlots(w, c, i, other);
      assert ContextOk(w, c) && ContextOk(w, other);
      assert Slot(w, c, i) == Slot(w, w.active, i) == Slot(w, other, i);
      EntryFields(Pick(w.pm));
      DisagreementBreaksStructure(AddTable(w, c, i), c, other, i);
    }
  }

  // ----- isolation -----

  /** The operation writes page `q` of context `c`. */
  ghost predicate Touches(w: World, op: Op, c: Frame, q: Page) {
    match op
    case MapOp(d, p, f) => Affects(d, p, c, q) || SideEffect(w, d, p, q)
    case CreateOp => IsTempWindow(q) || IsNewWindow(w, 2, q)
    case SwitchOp(d) => SwitchWrites(w, d, c, q)
    case AllocAtOp(d, p) => !SaysMapped(Lookup(w, p)) && (Affects(d, p, c, q) || SideEffect(w, d, p, q))
    case AllocKernelOp => Affects(w.active, NextKernelPage(w), c, q) || IsNewWindow(w, NextKernelPage(w) / 1024, q)
  }

  /** One operation changes no page of any context except those it writes. */
  lemma StepIsolation(w: World, op: Op, c: Frame, q: Page)
    requires Inv(w) && Enabled(w, op) && IsContext(w, c) && !Touches(w, op, c, q)
    ensures IsContext(Step(w, op), c) && Translate(Step(w, op), c, q) == Translate(w, c, q)
  {
    match op
    case MapOp(d, p, f) =>
      MapExtends(w, d, p, f);
      MapTranslations(w, d, p, f, c, q);
    case CreateOp =>
      CreateOld(w, c, q);
    case SwitchOp(d) =>
      SwitchTranslations(w, d, c, q);
    case AllocAtOp(d, p) =>
      AllocAtIsolation(w, d, p, c, q);
    case AllocKernelOp =>
      KernelOthers(w, c, q);
      KernelGranted(w);
  }

  lemma AllocAtIsolation(w: World, d: Frame, p: Page, c: Frame, q: Page)
    requires CanAllocAt(w, d, p) && IsContext(w, c)
    requires SaysMapped(Lookup(w, p)) || (!Affects(d, p, c, q) && !SideEffect(w, d, p, q))
    ensures IsContext(Allocation.AllocAt(w, d, p), c)
    ensures Translate(Allocation.AllocAt(w, d, p), c, q) == Translate(w, c, q)
  {
    ClaimDataFacts(w);
    if !SaysMapped(Lookup(w, p)) {
      ClaimDataOthers(w, d, p, c, q);
    }
  }

  /** What a write to a user page means: the page was asked for, or a switch identifies a directory with it. */
  lemma UserPagesTouched(w: World, op: Op, c: Frame, q: Page)
    requires 0x4_0000 <= q
    ensures Touches(w, op, c, q) ==>
              match op
              case MapOp(d, p, f) => d == c && p == q
              case CreateOp => false
              case SwitchOp(d) => d != w.active && c == w.active && q == Dir(w, d)
              case AllocAtOp(d, p) => d == c && p == q
              case AllocKernelOp => c == w.active && q == NextKernelPage(w)
  {
  }

  ghost predicate NeverTouched(w: World, ops: seq<Op>, c: Frame, q: Page)
    requires Runnable(w, ops)
    decreases |ops|
  {
    ops != [] ==> !Touches(w, ops[0], c, q) && NeverTouched(Step(w, ops[0]), ops[1..], c, q)
  }

  /** Over any run, a page of a context keeps its translation as long as no operation writes it. */
  lemma {:induction false} RunIsolation(w: World, ops: seq<Op>, c: Frame, q: Page)
    requires Inv(w) && Runnable(w, ops) && IsContext(w, c) && NeverTouched(w, ops, c, q)
    ensures IsContext(Run(w, ops), c) && Translate(Run(w, ops), c, q) == Translate(w, c, q)
    decreases |ops|
  {
    if ops != [] {
      StepKeepsInv(w, ops[0]);
      StepIsolation(w, ops[0], c, q);
      RunIsolation(Step(w, ops[0]), ops[1..], c, q);
    }
  }
}
