/**
 The physical page allocator of kernel/memory/pmm.c: a bitmap of 32768 words (bit set = page free)
 with a one-entry cache `next_bit`. The abstract value is the set of free frames and the cached frame.
 */
module Pmm {
  import opened Words
  import opened Bits

  const BITMAP_WORDS := 32768
  const SENTINEL := 0xbadc0de
  /** The search starts at word 8, that is at 1 MiB. */
  const FIRST_SEARCHED := 256

  // ----- abstract allocator -----

  datatype PmmState = PmmState(free: set<Frame>, cache: Option<Frame>)

  /** The cache, when filled, names a free frame. */
  ghost predicate CacheAgrees(s: PmmState) {
    s.cache.Some? ==> s.cache.value in s.free
  }

  ghost predicate IsLeast(free: set<Frame>, f: Frame) {
    && f in free && FIRST_SEARCHED <= f
    && forall g | g in free && FIRST_SEARCHED <= g :: f <= g
  }

  /** The frames an allocation can reach: those the search visits and the cached one. */
  ghost function Reachable(s: PmmState): set<Frame> {
    (set f | f in s.free && FIRST_SEARCHED <= f) + (if s.cache.Some? then {s.cache.value} else {})
  }

  ghost predicate CanAlloc(s: PmmState) {
    s.cache.Some? || exists f :: f in s.free && FIRST_SEARCHED <= f
  }

  lemma {:induction false} LeastExists(free: set<Frame>, bound: Frame)
    requires bound in free && FIRST_SEARCHED <= bound
    ensures exists f :: IsLeast(free, f)
    decreases bound
  {
    if g :| g in free && FIRST_SEARCHED <= g < bound {
      LeastExists(free, g);
    } else {
      assert IsLeast(free, bound);
    }
  }

  lemma CanAllocReachable(s: PmmState)
    ensures CanAlloc(s) <==> Reachable(s) != {}
  {
    if f :| f in s.free && FIRST_SEARCHED <= f {
      assert f in Reachable(s);
    }
    if s.cache.Some? {
      assert s.cache.value in Reachable(s);
    }
    if f :| f in Reachable(s) {
      assert CanAlloc(s);
    }
  }

  /** The frame the next allocation hands out. */
  ghost function Pick(s: PmmState): (f: Frame)
    requires CanAlloc(s)
    ensures s.cache.Some? ==> f == s.cache.value
    ensures s.cache.None? ==> IsLeast(s.free, f)
    ensures CacheAgrees(s) ==> f in s.free
    ensures f in Reachable(s)
  {
    if s.cache.Some? then s.cache.value else
    var g :| g in s.free && FIRST_SEARCHED <= g;
    LeastExists(s.free, g);
    var f :| IsLeast(s.free, f);
    f
  }

  ghost function AfterAlloc(s: PmmState): (t: PmmState)
    requires CanAlloc(s)
    ensures CacheAgrees(t)
  {
    PmmState(s.free - {Pick(s)}, None)
  }

  ghost function AfterFree(s: PmmState, f: Frame): (t: PmmState)
    ensures CacheAgrees(s) ==> CacheAgrees(t)
  {
    PmmState(s.free + {f}, if s.cache.None? then Some(f) else s.cache)
  }

  /** `pmm_search_page` fills the cache with the least free frame from 1 MiB on, if there is one. */
  ghost function AfterSearch(s: PmmState): (t: PmmState)
    ensures CacheAgrees(s) ==> CacheAgrees(t)
  {
    if exists f :: f in s.free && FIRST_SEARCHED <= f
    then s.(cache := Some(Pick(s.(cache := None))))
    else s
  }

  /** Each allocation costs exactly one reachable frame, unless the cache named a low frame. */
  lemma AllocSpends(s: PmmState)
    requires CanAlloc(s) && CacheAgrees(s)
    ensures Reachable(AfterAlloc(s)) == Reachable(s) - {Pick(s)}
    ensures |Reachable(AfterAlloc(s))| == |Reachable(s)| - 1
    ensures |AfterAlloc(s).free| == |s.free| - 1
  {
    var f, t := Pick(s), AfterAlloc(s);
    assert forall g :: g in Reachable(t) <==> g in Reachable(s) && g != f;
    assert Reachable(t) == Reachable(s) - {f};
  }

  /**
   With an empty cache the frame handed out is the lowest free one at or above 1 MiB; the next allocation
   then goes on upwards from there.
   */
  lemma LowestFirst(s: PmmState)
    requires s.cache.None? && CanAlloc(s)
    ensures Pick(s) >= 0x100 && Pick(s) in s.free && forall g: Frame | g in s.free && g >= 0x100 :: Pick(s) <= g
    ensures CanAlloc(AfterAlloc(s)) ==> Pick(s) < Pick(AfterAlloc(s))
    ensures CanAlloc(AfterAlloc(s)) <==> exists g: Frame :: g in s.free && g >= 0x100 && g != Pick(s)
  {
    var t := AfterAlloc(s);
    if CanAlloc(t) {
      assert Pick(t) in t.free && Pick(t) != Pick(s);
    }
    forall g: Frame | g in s.free && g >= 0x100 && g != Pick(s) ensures CanAlloc(t) {
      assert g in t.free && FIRST_SEARCHED <= g;
    }
  }

  /** The search caches the lowest free frame at or above 1 MiB, and changes nothing if there is none. */
  lemma SearchFillsCache(s: PmmState)
    ensures AfterSearch(s).free == s.free
    ensures (forall g: Frame | g in s.free :: g < 0x100) ==> AfterSearch(s) == s
    ensures (exists g: Frame :: g in s.free && g >= 0x100) ==>
              && AfterSearch(s).cache.Some?
              && AfterSearch(s).cache.value in s.free && AfterSearch(s).cache.value >= 0x100
              && forall g: Frame | g in s.free && g >= 0x100 :: AfterSearch(s).cache.value <= g
  {
    if g: Frame :| g in s.free && g >= 0x100 {
      assert FIRST_SEARCHED <= g;
      LowestFirst(s.(cache := None));
    }
  }

  /** A frame freed while the cache is empty is the next to be handed out; otherwise a free changes nothing. */
  lemma FreedIsNext(s: PmmState, f: Frame)
    ensures CanAlloc(AfterFree(s, f))
    ensures s.cache.None? ==> Pick(AfterFree(s, f)) == f
    ensures s.cache.Some? ==> Pick(AfterFree(s, f)) == Pick(s)
  {
  }

  // ----- runs of allocations and frees -----

  datatype Op = Alloc | Free(frame: Frame)

  ghost predicate Enabled(s: PmmState, op: Op) {
    op.Alloc? ==> CanAlloc(s)
  }

  ghost function Step(s: PmmState, op: Op): PmmState
    requires Enabled(s, op)
  {
    if op.Alloc? then AfterAlloc(s) else AfterFree(s, op.frame)
  }

  ghost predicate Runs(s: PmmState, ops: seq<Op>)
    decreases |ops|
  {
    ops != [] ==> Enabled(s, ops[0]) && Runs(Step(s, ops[0]), ops[1..])
  }

  ghost function Run(s: PmmState, ops: seq<Op>): PmmState
    requires Runs(s, ops)
    decreases |ops|
  {
    if ops == [] then s else Run(Step(s, ops[0]), ops[1..])
  }

  /** A frame that is not free stays out of the free set for as long as nobody frees it. */
  lemma {:induction false} TakenStaysTaken(s: PmmState, ops: seq<Op>, f: Frame)
    requires Runs(s, ops) && CacheAgrees(s)
    requires f !in s.free
    requires Free(f) !in ops
    ensures f !in Run(s, ops).free && CacheAgrees(Run(s, ops))
    decreases |ops|
  {
    if ops != [] {
      assert ops[0] in ops;
      TakenStaysTaken(Step(s, ops[0]), ops[1..], f);
    }
  }

  /** No frame is handed out twice without having been freed in between, whatever happens in between. */
  lemma {:induction false} NeverTwice(s: PmmState, between: seq<Op>)
    requires CanAlloc(s) && CacheAgrees(s)
    requires Runs(AfterAlloc(s), between)
    requires CanAlloc(Run(AfterAlloc(s), between))
    ensures Pick(Run(AfterAlloc(s), between)) == Pick(s) ==> Free(Pick(s)) in between
  {
    if Free(Pick(s)) !in between {
      TakenStaysTaken(AfterAlloc(s), between, Pick(s));
    }
  }

  /** The frames handed out and not yet given back after a run that began with `out` outstanding. */
  ghost function Outstanding(s: PmmState, ops: seq<Op>, out: set<Frame>): set<Frame>
    requires Runs(s, ops)
    decreases |ops|
  {
    if ops == [] then out else
    Outstanding(Step(s, ops[0]), ops[1..],
                if ops[0].Alloc? then out + {Pick(s)} else out - {ops[0].frame})
  }

  ghost predicate FreesOnlyOutstanding(s: PmmState, ops: seq<Op>, out: set<Frame>)
    requires Runs(s, ops)
    decreases |ops|
  {
    ops != [] ==>
      && (ops[0].Free? ==> ops[0].frame in out)
      && FreesOnlyOutstanding(Step(s, ops[0]), ops[1..],
                              if ops[0].Alloc? then out + {Pick(s)} else out - {ops[0].frame})
  }

  lemma DisjointSizes(a: set<Frame>, b: set<Frame>)
    requires a !! b
    ensures |a + b| == |a| + |b|
  {
  }

  lemma {:induction false} Partition(s: PmmState, ops: seq<Op>, out: set<Frame>)
    requires CacheAgrees(s) && Runs(s, ops)
    requires s.free !! out && FreesOnlyOutstanding(s, ops, out)
    ensures CacheAgrees(Run(s, ops))
    ensures Run(s, ops).free !! Outstanding(s, ops, out)
    ensures Run(s, ops).free + Outstanding(s, ops, out) == s.free + out
    decreases |ops|
  {
    if ops != [] {
      var out' := if ops[0].Alloc? then out + {Pick(s)} else out - {ops[0].frame};
      var s' := Step(s, ops[0]);
      assert s'.free + out' == s.free + out;
      Partition(s', ops[1..], out');
    }
  }

  /**
   Conservation: as long as callers free only what they hold, every frame is either free or held,
   never both and never lost, so the number of set bits plus the number of held frames is constant.
   */
  lemma Conservation(s: PmmState, ops: seq<Op>, out: set<Frame>)
    requires CacheAgrees(s) && Runs(s, ops)
    requires s.free !! out && FreesOnlyOutstanding(s, ops, out)
    ensures CacheAgrees(Run(s, ops))
    ensures Run(s, ops).free !! Outstanding(s, ops, out)
    ensures Run(s, ops).free + Outstanding(s, ops, out) == s.free + out
    ensures |Run(s, ops).free| + |Outstanding(s, ops, out)| == |s.free| + |out|
  {
    Partition(s, ops, out);
    DisjointSizes(Run(s, ops).free, Outstanding(s, ops, out));
    DisjointSizes(s.free, out);
  }

  // ----- the bitmap -----

  ghost predicate BitOf(b: seq<Word>, f: Frame)
    requires |b| == BITMAP_WORDS
  {
    Bit(b[f / 32], f % 32)
  }

  ghost function FreeSet(b: seq<Word>): (s: set<Frame>)
    requires |b| == BITMAP_WORDS
    ensures forall f: Frame :: f in s <==> BitOf(b, f)
  {
    set f: Frame | 0 <= f < FRAMES && BitOf(b, f)
  }

  lemma FreeSetClear(b: seq<Word>, f: Frame)
    requires |b| == BITMAP_WORDS
    ensures FreeSet(b[f / 32 := ClearWordBit(b[f / 32], f % 32)]) == FreeSet(b) - {f}
  {
    var c := b[f / 32 := ClearWordBit(b[f / 32], f % 32)];
    forall g: Frame ensures BitOf(c, g) <==> BitOf(b, g) && g != f {
      if g / 32 == f / 32 {
        ClearBit(b[f / 32], f % 32, g % 32);
      }
    }
  }

  lemma FreeSetSet(b: seq<Word>, f: Frame)
    requires |b| == BITMAP_WORDS
    ensures FreeSet(b[f / 32 := SetWordBit(b[f / 32], f % 32)]) == FreeSet(b) + {f}
  {
    var c := b[f / 32 := SetWordBit(b[f / 32], f % 32)];
    forall g: Frame ensures BitOf(c, g) <==> BitOf(b, g) || g == f {
      if g / 32 == f / 32 {
        SetBit(b[f / 32], f % 32, g % 32);
      }
    }
  }

  class PageAllocator {
    const bitmap: array<Word>
    var nextBit: Word

    ghost predicate Valid()
      reads this, bitmap
    {
      && bitmap.Length == BITMAP_WORDS
      && (nextBit == SENTINEL || (nextBit < FRAMES && BitOf(bitmap[..], nextBit)))
    }

    ghost function State(): (s: PmmState)
      requires Valid()
      reads this, bitmap
      ensures CacheAgrees(s)
    {
      PmmState(FreeSet(bitmap[..]), if nextBit == SENTINEL then None else Some(nextBit))
    }

    /** The initial image of the two static variables. */
    constructor ()
      ensures Valid() && State() == PmmState({}, None) && fresh(bitmap)
    {
      bitmap := new Word[BITMAP_WORDS](_ => 0);
      nextBit := SENTINEL;
      new;
      forall f: Frame ensures !BitOf(bitmap[..], f) {
        ZeroHasNoBits(f % 32);
      }
      assert FreeSet(bitmap[..]) == {};
    }

    method SearchPage()
      requires Valid()
      modifies this`nextBit
      ensures Valid() && State() == AfterSearch(old(State()))
    {
      for i := 8 to BITMAP_WORDS
        invariant unchanged(this)
        invariant forall f: Frame | FIRST_SEARCHED <= f < 32 * i :: !BitOf(bitmap[..], f)
      {
        if bitmap[i] != 0 {
          for j := 0 to 32
            invariant unchanged(this)
            invariant forall k: nat | k < j :: !Bit(bitmap[i], k)
          {
            if Bit(bitmap[i], j) {
              nextBit := i * 32 + j;
              assert (i * 32 + j) / 32 == i && (i * 32 + j) % 32 == j;
              assert IsLeast(FreeSet(bitmap[..]), nextBit);
              return;
            }
          }
          WordWidth();
          NoBits(bitmap[i], 32);
          assert false;
        }
        forall f: Frame | 32 * i <= f < 32 * (i + 1)
          ensures !BitOf(bitmap[..], f)
        {
          ZeroHasNoBits(f % 32);
        }
      }
    }

    method Alloc() returns (page: Word)
      requires Valid() && CanAlloc(State())
      modifies this`nextBit, bitmap
      ensures Valid() && State() == AfterAlloc(old(State()))
      ensures page == AddressOf(Pick(old(State())))
    {
      if nextBit == SENTINEL {
        SearchPage();
      }
      page := nextBit * PAGE_SIZE;
      FreeSetClear(bitmap[..], nextBit);
      ghost var after := bitmap[..][nextBit / 32 := ClearWordBit(bitmap[nextBit / 32], nextBit % 32)];
      bitmap[nextBit / 32] := ClearWordBit(bitmap[nextBit / 32], nextBit % 32);
      assert bitmap[..] == after;
      nextBit := SENTINEL;
    }

    method Free(page: Word)
      requires Valid()
      modifies this`nextBit, bitmap
      ensures Valid() && State() == AfterFree(old(State()), FrameOf(page))
    {
      var selector := page / PAGE_SIZE / 32;
      var bit := (page / PAGE_SIZE) % 32;
      FreeSetSet(bitmap[..], FrameOf(page));
      ghost var after := bitmap[..][selector := SetWordBit(bitmap[selector], bit)];
      bitmap[selector] := SetWordBit(bitmap[selector], bit);
      assert bitmap[..] == after;
      if nextBit == SENTINEL {
        nextBit := page / PAGE_SIZE;
      }
    }
  }
}
