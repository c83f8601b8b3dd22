/** Pages handed out by vmm_alloc_at and vmm_alloc_kernel: when they stay apart, and when they are lost. */
module Requests {
  import opened Words
  import opened Pmm
  import opened World
  import opened Mapping
  import opened Contexts
  import opened Windows
  import opened Switching
  import opened SwitchOutcome
  import opened SwitchEffect
  import opened Allocation
  import opened Runs

  datatype Request = PageAt(page: Page) | KernelPage

  datatype Grant = Grant(page: Page, frame: Frame)

  /** A request to the active context. */
  ghost function Asked(w: World, r: Request): Runs.Op {
    if r.PageAt? then AllocAtOp(w.active, r.page) else AllocKernelOp
  }

  ghost predicate MayRequest(w: World, r: Request) {
    match r
    case PageAt(p) => Runs.Enabled(w, AllocAtOp(w.active, p))
    case KernelPage => Runs.Enabled(w, AllocKernelOp)
  }

  ghost function Served(w: World, r: Request): World
    requires MayRequest(w, r)
  {
    Runs.Step(w, Asked(w, r))
  }

  /** The page the request is about. */
  ghost function Target(w: World, r: Request): Page {
    if r.PageAt? then r.page else NextKernelPage(w)
  }

  /** The page handed out, if the request is not refused. */
  ghost function Grants(w: World, r: Request): seq<Grant>
    requires MayRequest(w, r)
  {
    if r.PageAt? && SaysMapped(Lookup(w, r.page)) then [] else [Grant(Target(w, r), Pick(w.pm))]
  }

  /** The grant stands in context `d`. */
  ghost predicate StandsIn(v: World, d: Frame, g: Grant) {
    Translate(v, d, g.page) == Some(g.frame) && HasRole(v, g.frame, Data) && g.frame !in v.pm.free
  }

  ghost predicate Stands(v: World, g: Grant) {
    StandsIn(v, v.active, g)
  }

  /** Every grant still stands and no two grants share a page or a frame. */
  ghost predicate Distinct(w: World, ledger: seq<Grant>) {
    && (forall k: nat | k < |ledger| :: Stands(w, ledger[k]))
    && (forall j: nat, k: nat | j < k < |ledger| ::
          ledger[j].page != ledger[k].page && ledger[j].frame != ledger[k].frame)
  }

  /**
   The request takes page `p` from whoever has it: a kernel page is handed out whether or not it is mapped,
   and the window of a new table shows that table, whatever the page was used for.
   */
  ghost predicate Hits(w: World, r: Request, p: Page) {
    (r.KernelPage? && p == NextKernelPage(w)) || IsNewWindow(w, Target(w, r) / 1024, p)
  }

  // ----- one request -----

  /** A page that is not hit, and mapped to a frame other than 0, keeps its mapping. */
  lemma MappingStands(w: World, r: Request, p: Page, f: Frame)
    requires Inv(w) && MayRequest(w, r) && !Hits(w, r, p)
    requires Translate(w, w.active, p) == Some(f) && f != 0
    ensures Served(w, r).active == w.active && Translate(Served(w, r), w.active, p) == Some(f)
  {
    LookupAgrees(w, p);
    StepIsolation(w, Asked(w, r), w.active, p);
    ServedActive(w, r);
  }

  lemma ServedActive(w: World, r: Request)
    requires Inv(w) && MayRequest(w, r)
    ensures Inv(Served(w, r)) && Served(w, r).active == w.active && IsContext(w, w.active)
  {
    StepKeepsInv(w, Asked(w, r));
    match r
    case PageAt(q) =>
      ClaimDataFacts(w);
      if !SaysMapped(Lookup(w, q)) {
        Granted(w, w.active, q);
      }
    case KernelPage =>
      KernelGranted(w);
  }

  lemma DataStays(w: World, r: Request, f: Frame)
    requires Inv(w) && MayRequest(w, r)
    ensures f in w.roles ==> f in Served(w, r).roles && Served(w, r).roles[f] == w.roles[f]
    ensures f !in w.pm.free ==> f !in Served(w, r).pm.free
  {
    match r
    case PageAt(q) =>
      ClaimDataFacts(w);
      if !SaysMapped(Lookup(w, q)) {
        Granted(w, w.active, q);
      }
    case KernelPage =>
      KernelKeepsRoles(w, f);
  }

  lemma OldGrantStands(w: World, r: Request, g: Grant)
    requires Inv(w) && MayRequest(w, r) && !Hits(w, r, g.page) && Stands(w, g)
    ensures Stands(Served(w, r), g)
  {
    MappingStands(w, r, g.page, g.frame);
    DataStays(w, r, g.frame);
  }

  /** What a grant hands out is backed as promised, and by a frame no one had. */
  lemma NewGrantStands(w: World, r: Request)
    requires Inv(w) && MayRequest(w, r) && Grants(w, r) != []
    ensures Stands(Served(w, r), Grants(w, r)[0])
    ensures Grants(w, r)[0].frame in w.pm.free && Grants(w, r)[0].frame !in w.roles
  {
    match r
    case PageAt(q) =>
      Granted(w, w.active, q);
      ClaimDataFacts(w);
      MapExtends(ClaimData(w), w.active, q, Pick(w.pm));
    case KernelPage =>
      KernelGranted(w);
      KernelMappedFacts(w);
      ClaimDataFacts(w);
      MapExtends(ClaimData(w), w.active, NextKernelPage(w), Pick(w.pm));
  }

  lemma MapOpensWindow(u: World, p: Page, f: Frame, q: Page)
    requires CanMapHere(u, p) && IsNewWindow(u, p / 1024, q)
    ensures !Spare(MapHere(u, p, f), q)
  {
    MapHereActive(u, p, f);
    MapHereSlots(u, p, f, u.active, q - TABLE_WINDOWS);
  }

  /** The windows of tables the request creates are in use afterwards. */
  lemma WindowOpened(w: World, r: Request, p: Page)
    requires Inv(w) && MayRequest(w, r) && IsNewWindow(w, Target(w, r) / 1024, p)
    ensures !Spare(Served(w, r), p)
  {
    ClaimDataSlots(w, Target(w, r) / 1024);
    match r
    case PageAt(q) =>
      if !SaysMapped(Lookup(w, q)) {
        MapOpensWindow(ClaimData(w), q, Pick(w.pm), p);
      }
    case KernelPage =>
      MapOpensWindow(ClaimData(w), NextKernelPage(w), Pick(w.pm), p);
      KernelMappedFacts(w);
      PointerKeepsSlots(KernelMapped(w), p - TABLE_WINDOWS);
  }

  lemma PointerKeepsSlots(v: World, j: nat)
    requires Inv(v) && IsContext(v, v.active) && j < 1024
    ensures PointerMoved(v).active == v.active && Slot(PointerMoved(v), v.active, j) == Slot(v, v.active, j)
  {
    assert ContextOk(v, v.active);
  }

  /** A frame with data is behind no window in use. */
  lemma WindowIsNoGrant(v: World, g: Grant)
    requires Inv(v) && !Spare(v, g.page)
    ensures !Stands(v, g)
  {
    WindowFrameInUse(v, g.page);
  }

  /** A grant that is hit loses its page, to the new grant or to a table. */
  lemma HitGrantIsLost(w: World, r: Request, g: Grant)
    requires Inv(w) && MayRequest(w, r) && Stands(w, g) && Hits(w, r, g.page)
    ensures Inv(Served(w, r)) && !Stands(Served(w, r), g)
    ensures !Spare(Served(w, r), g.page) || Grants(w, r) == [Grant(g.page, Pick(w.pm))]
  {
    ServedActive(w, r);
    if IsNewWindow(w, Target(w, r) / 1024, g.page) {
      WindowOpened(w, r, g.page);
      WindowIsNoGrant(Served(w, r), g);
    } else {
      KernelGranted(w);
    }
  }

  /** A grant names a standing one's page only by hitting it. */
  lemma NewPage(w: World, r: Request, g: Grant)
    requires Inv(w) && MayRequest(w, r) && Stands(w, g) && !Hits(w, r, g.page)
    ensures Grants(w, r) != [] ==> Grants(w, r)[0].page != g.page
  {
    LookupAgrees(w, g.page);
  }

  lemma OneMoreGrant(w: World, v: World, ledger: seq<Grant>, more: seq<Grant>)
    requires Distinct(w, ledger) && |more| <= 1
    requires forall k: nat | k < |ledger| :: Stands(v, ledger[k])
    requires more != [] ==> Stands(v, more[0])
    requires forall k: nat | k < |ledger| && more != [] ::
               more[0].page != ledger[k].page && more[0].frame != ledger[k].frame
    ensures Distinct(v, ledger + more)
  {
    var all := ledger + more;
    forall k: nat | k < |all| ensures Stands(v, all[k]) {
      assert all[k] == if k < |ledger| then ledger[k] else more[0];
    }
  }

  /** No grant of the ledger is hit. */
  ghost predicate Misses(w: World, r: Request, ledger: seq<Grant>) {
    forall k: nat | k < |ledger| :: !Hits(w, r, ledger[k].page)
  }

  lemma ServedKeepsDistinct(w: World, r: Request, ledger: seq<Grant>)
    requires Inv(w) && MayRequest(w, r) && Distinct(w, ledger) && Misses(w, r, ledger)
    ensures Distinct(Served(w, r), ledger + Grants(w, r))
  {
    var v, more := Served(w, r), Grants(w, r);
    if more != [] {
      NewGrantStands(w, r);
    }
    forall k: nat | k < |ledger|
      ensures Stands(v, ledger[k])
      ensures more != [] ==> more[0].page != ledger[k].page && more[0].frame != ledger[k].frame
    {
      OldGrantStands(w, r, ledger[k]);
      NewPage(w, r, ledger[k]);
    }
    OneMoreGrant(w, v, ledger, more);
  }

  /** One request keeps the ledger in order if and only if it hits none of its grants. */
  lemma DistinctExactly(w: World, r: Request, ledger: seq<Grant>)
    requires Inv(w) && MayRequest(w, r) && Distinct(w, ledger)
    ensures Distinct(Served(w, r), ledger + Grants(w, r)) <==> Misses(w, r, ledger)
  {
    if Misses(w, r, ledger) {
      ServedKeepsDistinct(w, r, ledger);
    } else {
      var k: nat :| k < |ledger| && Hits(w, r, ledger[k].page);
      assert Stands(w, ledger[k]);
      HitGrantIsLost(w, r, ledger[k]);
      assert (ledger + Grants(w, r))[k] == ledger[k];
    }
  }

  // ----- whole runs, exactly -----

  ghost predicate Serviceable(w: World, rs: seq<Request>)
    decreases |rs|
  {
    rs != [] ==> MayRequest(w, rs[0]) && Serviceable(Served(w, rs[0]), rs[1..])
  }

  ghost function AfterAll(w: World, rs: seq<Request>): World
    requires Serviceable(w, rs)
    decreases |rs|
  {
    if rs == [] then w else AfterAll(Served(w, rs[0]), rs[1..])
  }

  ghost function AllGrants(w: World, rs: seq<Request>): seq<Grant>
    requires Serviceable(w, rs)
    decreases |rs|
  {
    if rs == [] then [] else Grants(w, rs[0]) + AllGrants(Served(w, rs[0]), rs[1..])
  }

  /** No request hits a grant made before it. */
  ghost predicate NoneHit(w: World, rs: seq<Request>, ledger: seq<Grant>)
    requires Serviceable(w, rs)
    decreases |rs|
  {
    rs != [] ==> Misses(w, rs[0], ledger) && NoneHit(Served(w, rs[0]), rs[1..], ledger + Grants(w, rs[0]))
  }

  lemma LedgerOrder(a: seq<Grant>, b: seq<Grant>, c: seq<Grant>)
    ensures a + (b + c) == (a + b) + c
  {
  }

  /** A grant once made and lost. */
  ghost predicate Lost(v: World, g: Grant) {
    Translate(v, v.active, g.page) != Some(g.frame) && HasRole(v, g.frame, Data) && g.frame !in v.pm.free
  }

  /** No request gives back what was lost. */
  lemma LostOnce(w: World, r: Request, g: Grant)
    requires Inv(w) && MayRequest(w, r) && Lost(w, g)
    ensures Lost(Served(w, r), g)
  {
    ServedActive(w, r);
    DataStays(w, r, g.frame);
    var op := Asked(w, r);
    if IsNewWindow(w, Target(w, r) / 1024, g.page) {
      WindowOpened(w, r, g.page);
      WindowIsNoGrant(Served(w, r), g);
    } else if Touches(w, op, w.active, g.page) {
      assert g.page == Target(w, r) && Grants(w, r) != [];
      NewGrantStands(w, r);
    } else {
      StepIsolation(w, op, w.active, g.page);
    }
  }

  lemma {:induction false} LostForGood(w: World, rs: seq<Request>, g: Grant)
    requires Inv(w) && Serviceable(w, rs) && Lost(w, g)
    ensures Lost(AfterAll(w, rs), g)
    decreases |rs|
  {
    if rs != [] {
      LostOnce(w, rs[0], g);
      ServedActive(w, rs[0]);
      LostForGood(Served(w, rs[0]), rs[1..], g);
    }
  }

  /**
   Over any run of page requests in one active context, all pages handed out are different, are backed by
   different frames that were free and hold neither contexts nor directories nor tables, and stay mapped
   to those frames, if and only if no request hits a page handed out before it.
   */
  lemma {:induction false} NoAliasingExactly(w: World, rs: seq<Request>, ledger: seq<Grant>)
    requires Inv(w) && Serviceable(w, rs) && Distinct(w, ledger)
    ensures Distinct(AfterAll(w, rs), ledger + AllGrants(w, rs)) <==> NoneHit(w, rs, ledger)
    decreases |rs|
  {
    if rs == [] {
      assert ledger + [] == ledger;
    } else if Misses(w, rs[0], ledger) {
      var v, more := Served(w, rs[0]), Grants(w, rs[0]);
      ServedActive(w, rs[0]);
      ServedKeepsDistinct(w, rs[0], ledger);
      NoAliasingExactly(v, rs[1..], ledger + more);
      LedgerOrder(ledger, more, AllGrants(v, rs[1..]));
    } else {
      var k: nat :| k < |ledger| && Hits(w, rs[0], ledger[k].page);
      assert Stands(w, ledger[k]);
      HitGrantIsLost(w, rs[0], ledger[k]);
      DataStays(w, rs[0], ledger[k].frame);
      LostForGood(Served(w, rs[0]), rs[1..], ledger[k]);
      assert (ledger + AllGrants(w, rs))[k] == ledger[k];
    }
  }

  // ----- the two ways to lose a page -----

  /**
   vmm_alloc_at may be given the page that next_kernelspace will reach; vmm_alloc_kernel then hands the
   same page out again, and the first grant is lost.
   */
  lemma HeapCollision(w: World)
    requires Inv(w) && MayRequest(w, PageAt(NextKernelPage(w)))
    requires !SaysMapped(Lookup(w, NextKernelPage(w)))
    requires MayRequest(Served(w, PageAt(NextKernelPage(w))), KernelPage)
    ensures var r := PageAt(NextKernelPage(w));
            var v := Served(w, r);
            && |Grants(w, r)| == 1 && Grants(v, KernelPage)[0].page == Grants(w, r)[0].page
            && Stands(v, Grants(w, r)[0]) && !Stands(Served(v, KernelPage), Grants(w, r)[0])
  {
    var r := PageAt(NextKernelPage(w));
    NewGrantStands(w, r);
    NextStays(w, NextKernelPage(w));
    ServedActive(w, r);
    HitGrantIsLost(Served(w, r), KernelPage, Grants(w, r)[0]);
  }

  /**
   It may also be given the window of an absent slot, which is mapped nowhere yet. The first request for a
   page of that slot turns the window to the new table, and the first grant is lost.
   */
  lemma WindowCollision(w: World, p: Page, j: nat, r: Request)
    requires Inv(w) && IsTableWindow(p, j) && MayRequest(w, PageAt(p)) && !SaysMapped(Lookup(w, p))
    requires MayRequest(Served(w, PageAt(p)), r) && Target(Served(w, PageAt(p)), r) / 1024 == j
    ensures var v := Served(w, PageAt(p));
            && |Grants(w, PageAt(p))| == 1
            && Stands(v, Grants(w, PageAt(p))[0]) && !Stands(Served(v, r), Grants(w, PageAt(p))[0])
  {
    var v := Served(w, PageAt(p));
    NewGrantStands(w, PageAt(p));
    ServedActive(w, PageAt(p));
    SpareAfterwards(w, p, j);
    SpareIsNew(v, p, j);
    HitGrantIsLost(v, r, Grants(w, PageAt(p))[0]);
  }

  lemma SpareIsNew(v: World, p: Page, j: nat)
    requires IsTableWindow(p, j) && !Present(Slot(v, v.active, j))
    ensures IsNewWindow(v, j, p)
  {
  }

  lemma SpareAfterwards(w: World, p: Page, j: nat)
    requires Inv(w) && IsTableWindow(p, j) && MayRequest(w, PageAt(p)) && !SaysMapped(Lookup(w, p))
    ensures !Present(Slot(Served(w, PageAt(p)), w.active, j))
  {
    UnmappedIsSpare(w, p);
    ClaimDataFacts(w);
    SpareWindowStaysSpare(ClaimData(w), p, Pick(w.pm), j);
  }

  // ----- when no page is lost, as seen from the list of requests -----

  /** Requests for other pages leave next_kernelspace alone. */
  lemma NextStays(w: World, p: Page)
    requires Inv(w) && MayRequest(w, PageAt(p))
    ensures Served(w, PageAt(p)).active == w.active && NextKernelPage(Served(w, PageAt(p))) == NextKernelPage(w)
  {
    if SaysMapped(Lookup(w, p)) {
      Refused(w, w.active, p);
    } else {
      Granted(w, w.active, p);
    }
  }

  /** A request for a kernel page moves it up by one page; behind the last page it starts again from 0. */
  lemma NextMoves(w: World)
    requires Inv(w) && MayRequest(w, KernelPage)
    ensures Served(w, KernelPage).active == w.active
    ensures NextKernelPage(Served(w, KernelPage)) == FollowingPage(NextKernelPage(w))
  {
    KernelGranted(w);
    var p := NextKernelPage(w);
    FollowingAddress(p);
    assert Served(w, KernelPage).mem[w.active][2] == NextPage(AddressOf(p));
  }

  function FollowingPage(p: Page): Page {
    if p + 1 < FRAMES then p + 1 else 0
  }

  lemma FollowingAddress(p: Page)
    ensures FrameOf(NextPage(AddressOf(p))) == FollowingPage(p)
  {
  }

  function KernelRequests(rs: seq<Request>): nat {
    if rs == [] then 0 else (if rs[0].KernelPage? then 1 else 0) + KernelRequests(rs[1..])
  }

  /** The page is one of the next `n` pages from next_kernelspace on. */
  ghost predicate OnHeap(w: World, n: nat, p: Page) {
    NextKernelPage(w) <= p < NextKernelPage(w) + n
  }

  /** The requests' kernel pages do not run over the end of memory. */
  ghost predicate HeapFits(w: World, rs: seq<Request>) {
    NextKernelPage(w) + KernelRequests(rs) <= FRAMES
  }

  /** One of the requests is about page `p`. */
  ghost predicate IsTarget(w: World, rs: seq<Request>, p: Page) {
    PageAt(p) in rs || OnHeap(w, KernelRequests(rs), p)
  }

  /** The page is not the window of a table that one of the requests is going to need. */
  ghost predicate NoWindowOf(w: World, rs: seq<Request>, p: Page) {
    forall q: Page | IsTarget(w, rs, q) :: !IsNewWindow(w, q / 1024, p)
  }

  /** None of the requests has a use for the page. */
  ghost predicate Clear(w: World, rs: seq<Request>, p: Page) {
    !OnHeap(w, KernelRequests(rs), p) && NoWindowOf(w, rs, p)
  }

  /** The pages asked for are not in the heap's way, and no target is the window of a table another needs. */
  ghost predicate Undisturbed(w: World, rs: seq<Request>) {
    && HeapFits(w, rs)
    && (forall p: Page | PageAt(p) in rs :: !OnHeap(w, KernelRequests(rs), p))
    && (forall p: Page | IsTarget(w, rs, p) :: NoWindowOf(w, rs, p))
  }

  ghost predicate AllClear(w: World, rs: seq<Request>, ledger: seq<Grant>) {
    forall k: nat | k < |ledger| :: Clear(w, rs, ledger[k].page)
  }

  lemma HeapLater(w: World, rs: seq<Request>, p: Page)
    requires Inv(w) && rs != [] && MayRequest(w, rs[0]) && HeapFits(w, rs)
    ensures Served(w, rs[0]).active == w.active
    ensures OnHeap(Served(w, rs[0]), KernelRequests(rs[1..]), p) <==>
            OnHeap(w, KernelRequests(rs), p) && !(rs[0].KernelPage? && p == NextKernelPage(w))
    ensures HeapFits(Served(w, rs[0]), rs[1..])
  {
    match rs[0]
    case PageAt(q) => NextStays(w, q);
    case KernelPage => NextMoves(w);
  }

  lemma TargetsLater(w: World, rs: seq<Request>, p: Page)
    requires Inv(w) && rs != [] && MayRequest(w, rs[0]) && HeapFits(w, rs)
    ensures IsTarget(Served(w, rs[0]), rs[1..], p) ==> IsTarget(w, rs, p)
    ensures IsTarget(w, rs, Target(w, rs[0]))
  {
    HeapLater(w, rs, p);
    assert rs[0] in rs;
  }

  /** Present slots stay present, so that later requests need no further tables. */
  lemma NewWindowsLater(w: World, r: Request, i: nat, p: Page)
    requires Inv(w) && MayRequest(w, r) && i < 1024
    ensures IsNewWindow(Served(w, r), i, p) ==> IsNewWindow(w, i, p)
  {
    SlotStaysPresent(w, r, i);
    SlotStaysPresent(w, r, 2);
  }

  lemma SlotStaysPresent(w: World, r: Request, i: nat)
    requires Inv(w) && MayRequest(w, r) && i < 1024
    ensures Served(w, r).active == w.active
    ensures Present(Slot(w, w.active, i)) ==> Present(Slot(Served(w, r), w.active, i))
  {
    ServedActive(w, r);
    match r
    case PageAt(q) =>
      ClaimDataFacts(w);
      if !SaysMapped(Lookup(w, q)) {
        Granted(w, w.active, q);
      }
    case KernelPage =>
      KernelMappedFacts(w);
      PointerKeepsSlots(KernelMapped(w), i);
  }

  lemma WindowsLater(w: World, rs: seq<Request>, p: Page)
    requires Inv(w) && rs != [] && MayRequest(w, rs[0]) && HeapFits(w, rs) && NoWindowOf(w, rs, p)
    ensures NoWindowOf(Served(w, rs[0]), rs[1..], p)
  {
    forall q: Page | IsTarget(Served(w, rs[0]), rs[1..], q)
      ensures !IsNewWindow(Served(w, rs[0]), q / 1024, p)
    {
      TargetsLater(w, rs, q);
      NewWindowsLater(w, rs[0], q / 1024, p);
    }
  }

  lemma ClearLater(w: World, rs: seq<Request>, p: Page)
    requires Inv(w) && rs != [] && MayRequest(w, rs[0]) && HeapFits(w, rs) && Clear(w, rs, p)
    ensures !Hits(w, rs[0], p) && Clear(Served(w, rs[0]), rs[1..], p)
  {
    HeapLater(w, rs, p);
    WindowsLater(w, rs, p);
    TargetsLater(w, rs, p);
  }

  lemma StaysUndisturbed(w: World, rs: seq<Request>)
    requires Inv(w) && rs != [] && MayRequest(w, rs[0]) && Undisturbed(w, rs)
    ensures Undisturbed(Served(w, rs[0]), rs[1..])
  {
    HeapLater(w, rs, 0);
    forall p: Page | PageAt(p) in rs[1..] ensures !OnHeap(Served(w, rs[0]), KernelRequests(rs[1..]), p) {
      HeapLater(w, rs, p);
    }
    forall p: Page | IsTarget(Served(w, rs[0]), rs[1..], p) ensures NoWindowOf(Served(w, rs[0]), rs[1..], p) {
      TargetsLater(w, rs, p);
      WindowsLater(w, rs, p);
    }
  }

  lemma TargetClear(w: World, rs: seq<Request>)
    requires Inv(w) && rs != [] && MayRequest(w, rs[0]) && Undisturbed(w, rs)
    ensures Clear(Served(w, rs[0]), rs[1..], Target(w, rs[0]))
  {
    var p := Target(w, rs[0]);
    TargetsLater(w, rs, p);
    HeapLater(w, rs, p);
    WindowsLater(w, rs, p);
    assert rs[0].PageAt? ==> PageAt(p) in rs;
  }

  lemma LedgerClear(w: World, rs: seq<Request>, ledger: seq<Grant>)
    requires Inv(w) && rs != [] && MayRequest(w, rs[0]) && Undisturbed(w, rs) && AllClear(w, rs, ledger)
    ensures Misses(w, rs[0], ledger)
    ensures AllClear(Served(w, rs[0]), rs[1..], ledger + Grants(w, rs[0]))
  {
    var v, all := Served(w, rs[0]), ledger + Grants(w, rs[0]);
    TargetClear(w, rs);
    forall k: nat | k < |ledger|
      ensures !Hits(w, rs[0], ledger[k].page) && Clear(v, rs[1..], ledger[k].page)
    {
      ClearLater(w, rs, ledger[k].page);
    }
    forall k: nat | k < |all| ensures Clear(v, rs[1..], all[k].page) {
      assert all[k] == if k < |ledger| then ledger[k] else Grants(w, rs[0])[0];
    }
  }

  lemma {:induction false} ClearMisses(w: World, rs: seq<Request>, ledger: seq<Grant>)
    requires Inv(w) && Serviceable(w, rs) && Undisturbed(w, rs) && AllClear(w, rs, ledger)
    ensures NoneHit(w, rs, ledger)
    decreases |rs|
  {
    if rs != [] {
      LedgerClear(w, rs, ledger);
      ServedActive(w, rs[0]);
      StaysUndisturbed(w, rs);
      ClearMisses(Served(w, rs[0]), rs[1..], ledger + Grants(w, rs[0]));
    }
  }

  /**
   No page is lost, as long as nobody asks for a page that next_kernelspace is going to reach, and no page
   asked for is the window of a slot whose table is still to be created.
   */
  lemma NoAliasing(w: World, rs: seq<Request>, ledger: seq<Grant>)
    requires Inv(w) && Serviceable(w, rs) && Distinct(w, ledger)
    requires Undisturbed(w, rs) && AllClear(w, rs, ledger)
    ensures Distinct(AfterAll(w, rs), ledger + AllGrants(w, rs))
  {
    ClearMisses(w, rs, ledger);
    NoAliasingExactly(w, rs, ledger);
  }

  /** And every page mapped beforehand, other than to frame 0, keeps its mapping if the requests have no use for it. */
  lemma {:induction false} EarlierMappingsSurvive(w: World, rs: seq<Request>, p: Page, f: Frame)
    requires Inv(w) && Serviceable(w, rs) && HeapFits(w, rs) && Clear(w, rs, p)
    requires Translate(w, w.active, p) == Some(f) && f != 0
    ensures AfterAll(w, rs).active == w.active && Translate(AfterAll(w, rs), w.active, p) == Some(f)
    decreases |rs|
  {
    if rs != [] {
      ClearLater(w, rs, p);
      HeapLater(w, rs, p);
      MappingStands(w, rs[0], p, f);
      ServedActive(w, rs[0]);
      EarlierMappingsSurvive(Served(w, rs[0]), rs[1..], p, f);
    }
  }

  // ----- switches in between -----

  /**
   A grant made in any context survives a switch if and only if the switch does not write its page. A
   kernel page is lost, in all contexts, if it is numbered like the frame of the target's directory.
   */
  lemma SwitchKeepsGrants(w: World, c: Frame, d: Frame, g: Grant)
    requires Inv(w) && CanSwitch(w, c) && SwitchWorks(w, c) && IsContext(w, d) && StandsIn(w, d, g)
    ensures IsContext(Switch(w, c), d)
    ensures StandsIn(Switch(w, c), d, g) <==> !SwitchWrites(w, c, d, g.page)
    ensures c != w.active && g.page == Dir(w, c) && g.page / 1024 < KERNEL_SLOTS ==> !StandsIn(Switch(w, c), d, g)
  {
    SwitchTranslations(w, c, d, g.page);
    SwitchKeepsRoles(w, c, g.frame);
  }

  /**
   So the kernel's own heap can lose a page to a switch that works: the next kernel page may be numbered
   like the frame of some context's directory, and switching to that context replaces the page.
   */
  lemma SwitchCollision(w: World, c: Frame)
    requires MayRequest(w, KernelPage) && IsContext(w, c) && c != w.active
    requires Dir(w, c) == NextKernelPage(w) && Dir(w, c) / 1024 < KERNEL_SLOTS
    requires Dir(w, c) != TableWindow(1) && Dir(w, c) != TEMP_CONTEXT
    ensures var u, g := Served(w, KernelPage), Grants(w, KernelPage)[0];
            && CanSwitch(u, c) && SwitchWorks(u, c) && Stands(u, g) && Inv(Switch(u, c))
            && !StandsIn(Switch(u, c), w.active, g)
  {
    var u, g := Served(w, KernelPage), Grants(w, KernelPage)[0];
    NewGrantStands(w, KernelPage);
    ServedActive(w, KernelPage);
    KernelPageKeepsContext(w, c);
    assert Present(Slot(u, u.active, g.page / 1024));
    SwitchCoherent(u, c);
    SwitchKeepsGrants(u, c, u.active, g);
  }

  lemma KernelPageKeepsContext(w: World, c: Frame)
    requires CanAllocKernel(w) && IsContext(w, c) && c != w.active
    ensures IsContext(AllocKernel(w), c) && Dir(AllocKernel(w), c) == Dir(w, c)
  {
    KernelGranted(w);
    ClaimDataFacts(w);
    MapExtends(ClaimData(w), w.active, NextKernelPage(w), Pick(w.pm));
  }
}
