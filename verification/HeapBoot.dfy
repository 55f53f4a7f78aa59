/**
 The kernel heap at boot, on a machine whose memory map makes the lowest pages
 available: where the arena and the page tables kheap_init makes for it come to lie, and
 what the headers written into the arena do to them.
 */
module HeapBoot {
  import opened Machine
  import opened FrameSet
  import opened PageTables
  import opened PagingRuns
  import opened HeapBlocks
  import opened HeapArena
  import opened PageRanges
  import opened HeapRuns
  import opened HeapWords
  import opened HeapPlacement

  /** Pages 1 to m - 1 are available, and the bitmap covers them. */
  ghost predicate LowMemory(rs: seq<Region>, m: nat) {
    8 <= m <= InitFrames(rs).limit && forall b :: 1 <= b < m ==> Spanned(rs, b)
  }

  /** Such a map: one available region of `pages` pages, from address 0 on. */
  function FlatMap(pages: nat): seq<Region> {
    [Region(0, pages * PAGE, AVAILABLE)]
  }

  lemma FlatIsLow(pages: nat, m: nat)
    requires 8 <= m <= pages / 32 * 32 && pages < TWO32 / PAGE
    ensures LowMemory(FlatMap(pages), m) && SumLen(FlatMap(pages)) < TWO32
  {
    var rs := FlatMap(pages);
    assert (pages * PAGE) / PAGE == pages;
    assert rs[..|rs| - 1] == [] && SumLen(rs[..0]) == 0;
    assert SumLen(rs) == pages * PAGE && InitTotal(rs) == pages;
    forall b | 1 <= b < m ensures Spanned(rs, b) {
      assert Spans(rs[0], b);
    }
  }

  lemma InitUsed(rs: seq<Region>, b: nat)
    ensures b in InitFrames(rs).used <==> b < InitFrames(rs).limit && (b == 0 || !Spanned(rs, b))
  {
    var spanned := Spanned(rs, b);
  }

  /** Frame 0 is used and frames 1 to m - 1 are free. */
  ghost predicate LowFree(fs: Frames, m: nat) {
    WellFormed(fs) && 8 <= m <= fs.limit && 0 in fs.used && forall b :: 1 <= b < m ==> b !in fs.used
  }

  lemma LowMemoryIsFree(rs: seq<Region>, m: nat)
    requires LowMemory(rs, m) && SumLen(rs) < TWO32
    ensures LowFree(InitFrames(rs), m)
  {
    InitCounter(rs);
    forall b: nat ensures b in InitFrames(rs).used <==> b < InitFrames(rs).limit && (b == 0 || !Spanned(rs, b)) {
      InitUsed(rs, b);
    }
  }

  lemma FirstTwo(fs: Frames, m: nat)
    requires LowFree(fs, m)
    ensures Lowest(fs) == Some(1) && Lowest(Take(fs)) == Some(2)
  {
    LowestIs(fs, 1);
    LowestIs(Take(fs), 2);
  }

  /** The state paging_init leaves there: pd0 and its only table in frames 1 and 2, and
      frames 3 to m - 1 free. */
  ghost predicate AtBoot(w: World, m: nat) {
    && Inv(w) && w.pd0 == 1 && w.dirs == {1} && w.tables == {2} && 8 <= m <= w.frames.limit
    && UsedBelow(w.frames, 3) && (forall b :: 3 <= b < m ==> b !in w.frames.used)
    && forall i :: 0 <= i < ENTRIES ==> Slot(w.mem, w.pd0, i) == if i == 0 then Some(2) else None
  }

  lemma BootFromFrames(mem: Memory, fs: Frames, m: nat)
    requires LowFree(fs, m)
    ensures AtBoot(InitialWorld(mem, fs), m)
  {
    FirstTwo(fs, m);
    InitialInvIff(mem, fs);
    InitialSlots(mem, fs);
    assert Take(Take(fs)).used == fs.used + {1, 2};
  }

  lemma BootFromMap(mem: Memory, rs: seq<Region>, m: nat)
    requires LowMemory(rs, m) && SumLen(rs) < TWO32
    ensures WellFormed(InitFrames(rs)) && AtBoot(InitialWorld(mem, InitFrames(rs)), m)
  {
    LowMemoryIsFree(rs, m);
    BootFromFrames(mem, InitFrames(rs), m);
  }

  /** A machine of `pages` pages comes to such a state. */
  lemma BootOnFlatMemory(mem: Memory, pages: nat, m: nat) returns (w: World)
    requires 8 <= m <= pages / 32 * 32 && pages < TWO32 / PAGE
    ensures WellFormed(InitFrames(FlatMap(pages)))
    ensures w == InitialWorld(mem, InitFrames(FlatMap(pages))) && AtBoot(w, m)
  {
    FlatIsLow(pages, m);
    BootFromMap(mem, FlatMap(pages), m);
    w := InitialWorld(mem, InitFrames(FlatMap(pages)));
  }

  // ------------------------------------------------------------ the arena's tables

  lemma BootMissing(w: World, m: nat, n: nat)
    requires AtBoot(w, m) && n == ARENA_PAGES
    ensures MissingSlots(w, 3 * PAGE, n, w.pd0) == {1, 2, 3, 4}
  {
    var s := MissingSlots(w, 3 * PAGE, n, w.pd0);
    assert (3 * PAGE) / PAGE / ENTRIES == 0;
    forall i | 0 <= i < ENTRIES ensures i in s <==> i in {1, 2, 3, 4} {
      assert Slot(w.mem, w.pd0, i) == if i == 0 then Some(2) else None;
    }
  }

  lemma FourLeft(fs: Frames)
    requires fs.limit >= 8 && forall b :: 4 <= b < 8 ==> b !in fs.used
    ensures |Available(fs)| >= 4
  {
    var some: set<nat> := {4, 5, 6, 7};
    assert some <= Available(fs);
    SubsetSize(some, Available(fs));
    assert |some| == 4;
  }

  lemma BootReserved(w: World, m: nat)
    requires AtBoot(w, m)
    ensures Lowest(w.frames) == Some(3) && Lowest(Reserved(w).frames) == Some(4)
    ensures Inv(Reserved(w)) && |Available(Reserved(w).frames)| >= 4
    ensures Reserved(w).frames.used == w.frames.used + {3}
  {
    LowestIs(w.frames, 3);
    LowestIs(Reserved(w).frames, 4);
    StepKeepsInv(w, AllocFrame);
    FourLeft(Reserved(w).frames);
  }

  lemma BootArenaFits(w: World, m: nat, n: nat)
    requires AtBoot(w, m) && n == ARENA_PAGES
    ensures ArenaFits(w, 3, n) && MissingSlots(Reserved(w), 3 * PAGE, n, w.pd0) == {1, 2, 3, 4}
  {
    BootReserved(w, m);
    BootMissing(w, m, n);
    assert MissingSlots(Reserved(w), 3 * PAGE, n, w.pd0) == MissingSlots(w, 3 * PAGE, n, w.pd0);
    assert (3 * PAGE) / PAGE == 3;
  }

  lemma FourTaken(fs: Frames)
    requires UsedBelow(fs, 4) && fs.limit >= 8 && forall b :: 4 <= b < 8 ==> b !in fs.used
    ensures TakeMany(fs, 4).used == fs.used + {4, 5, 6, 7} && TakeMany(fs, 4).limit == fs.limit
  {
    LowestIs(fs, 4);
    LowestIs(Take(fs), 5);
    LowestIs(Take(Take(fs)), 6);
    LowestIs(Take(Take(Take(fs))), 7);
    assert TakeMany(fs, 4) == Take(Take(Take(Take(fs))));
  }

  lemma BootTaken(w: World, m: nat, n: nat)
    requires AtBoot(w, m) && n == ARENA_PAGES
    ensures ArenaFits(w, 3, n)
    ensures var fs := HeapWorld(w, 3, n).frames;
            fs.used == w.frames.used + {3, 4, 5, 6, 7} && fs.limit == w.frames.limit
  {
    BootArenaFits(w, m, n);
    BootReserved(w, m);
    assert |{1, 2, 3, 4}| == 4;
    HeapWorldTakes(w, 3, n, 4, HeapWorld(w, 3, n).frames);
    FourTaken(Reserved(w).frames);
  }

  /** After kheap_init frames 0 to 7 are used: four tables have been made, in 4 to 7. */
  lemma BootFrames(w: World, m: nat, n: nat)
    requires AtBoot(w, m) && n == ARENA_PAGES
    ensures ArenaFits(w, 3, n)
    ensures var t := HeapWorld(w, 3, n);
            && Inv(t) && t.pd0 == 1 && t.dirs == {1} && t.frames.limit == w.frames.limit
            && t.frames.used == w.frames.used + {3, 4, 5, 6, 7}
            && (forall f :: f in t.tables ==> f == 2 || 4 <= f < 8)
  {
    BootTaken(w, m, n);
    BootReserved(w, m);
    var w1, t := Reserved(w), HeapWorld(w, 3, n);
    MapPagesKeepsInv(w1, 3 * PAGE, 3 * PAGE, n, w.pd0);
    RangeTables(w1, 3 * PAGE, 3 * PAGE, n, w.pd0);
    assert NewTables(w1, t);
    forall f | f in t.tables ensures f == 2 || 4 <= f < 8 {
      assert f in t.frames.used;
    }
  }

  /** Each slot of the arena leads to a table. */
  lemma ArenaSlots(w: World, m: nat, n: nat, i: nat)
    requires AtBoot(w, m) && n == ARENA_PAGES && i <= 4
    ensures ArenaFits(w, 3, n) && Slot(HeapWorld(w, 3, n).mem, 1, i).Some?
    ensures i == 0 ==> Slot(HeapWorld(w, 3, n).mem, 1, i) == Some(2)
  {
    BootArenaFits(w, m, n);
    assert InDir(w, 1, i);
    if i == 0 {
      assert InDir(Reserved(w), 1, 0);
      MapPagesKeepsSlots(Reserved(w), 3 * PAGE, 3 * PAGE, n, 1, 1, 0);
    } else {
      RangeFills(Reserved(w), 3 * PAGE, 3 * PAGE, n, 1, i, HeapWorld(w, 3, n));
    }
  }

  /** The header kheap_init writes at the front of the arena changes no translation: its
      frame is the one frame of the arena that was taken. */
  lemma FirstHeaderOffTables(w: World, f: nat, n: nat, d: nat, x: Word)
    requires ArenaFits(w, f, n) && d in w.dirs && d < FRAMES
    ensures var w2 := HeapWorld(w, f, n);
            && Inv(w2) && OffTables(w2, f * PAGE)
            && Translate(PutHeader(w2.mem, f * PAGE, ARENA - HEADER, 0, 1), d, x) == Translate(w2.mem, d, x)
  {
    var w2 := HeapWorld(w, f, n);
    MapPagesKeepsInv(Reserved(w), f * PAGE, f * PAGE, n, w.pd0);
    RangeTables(Reserved(w), f * PAGE, f * PAGE, n, w.pd0);
    assert (f * PAGE) / PAGE == f && (f * PAGE + HEADER - 1) / PAGE == f;
    HeaderOffTables(w2, f * PAGE, ARENA - HEADER, 0, 1, d, x);
  }

  lemma SlotInTables(w: World, d: nat, i: nat)
    requires Inv(w) && d in w.dirs && d < FRAMES && i < ENTRIES
    ensures Slot(w.mem, d, i).Some? ==> Slot(w.mem, d, i).value in w.tables
  {
    assert InDir(w, d, i);
  }

  lemma SlotsDiffer(w: World, d: nat, i: nat, j: nat)
    requires Inv(w) && d in w.dirs && d < FRAMES && i < j < ENTRIES && Slot(w.mem, d, i).Some?
    ensures Slot(w.mem, d, i) != Slot(w.mem, d, j)
  {
    assert InDir(w, d, i) && InDir(w, d, j);
    assert Meet(w, d, i, d, j) ==> i == j;
  }

  /** The table of a slot of the arena. */
  lemma ArenaTable(w: World, m: nat, n: nat, i: nat) returns (f: nat)
    requires AtBoot(w, m) && n == ARENA_PAGES && 1 <= i <= 4
    ensures ArenaFits(w, 3, n) && Slot(HeapWorld(w, 3, n).mem, 1, i) == Some(f) && 4 <= f < 8
  {
    BootFrames(w, m, n);
    ArenaSlots(w, m, n, 0);
    ArenaSlots(w, m, n, i);
    var t := HeapWorld(w, 3, n);
    SlotInTables(t, 1, i);
    SlotsDiffer(t, 1, 0, i);
    f := Slot(t.mem, 1, i).value;
  }

  /** Four different numbers from 4 to 7 are all of them. */
  lemma AllFour(a: nat, b: nat, c: nat, d: nat, f: nat)
    requires 4 <= a < 8 && 4 <= b < 8 && 4 <= c < 8 && 4 <= d < 8 && 4 <= f < 8
    requires a != b && a != c && a != d && b != c && b != d && c != d
    ensures f == a || f == b || f == c || f == d
  {}

  lemma TableFound(w: World, m: nat, n: nat, f: nat) returns (i: nat)
    requires AtBoot(w, m) && n == ARENA_PAGES && 4 <= f < 8
    ensures ArenaFits(w, 3, n) && 1 <= i <= 4 && Slot(HeapWorld(w, 3, n).mem, 1, i) == Some(f)
  {
    BootFrames(w, m, n);
    var f1 := ArenaTable(w, m, n, 1);
    var f2 := ArenaTable(w, m, n, 2);
    var f3 := ArenaTable(w, m, n, 3);
    var f4 := ArenaTable(w, m, n, 4);
    var t := HeapWorld(w, 3, n);
    SlotsDiffer(t, 1, 1, 2); SlotsDiffer(t, 1, 1, 3); SlotsDiffer(t, 1, 1, 4);
    SlotsDiffer(t, 1, 2, 3); SlotsDiffer(t, 1, 2, 4); SlotsDiffer(t, 1, 3, 4);
    AllFour(f1, f2, f3, f4, f);
    i := if f == f1 then 1 else if f == f2 then 2 else if f == f3 then 3 else 4;
  }

  lemma NoTable(w: World, m: nat, n: nat, f: nat, i: nat)
    requires AtBoot(w, m) && n == ARENA_PAGES && f >= 8 && i < ENTRIES
    ensures ArenaFits(w, 3, n) && Slot(HeapWorld(w, 3, n).mem, 1, i) != Some(f)
  {
    BootFrames(w, m, n);
    SlotInTables(HeapWorld(w, 3, n), 1, i);
  }

  /** The hypothesis that the arena belongs to the heap fails at boot: of the arena's
      frames, which start at frame 3, the second to fifth are page tables of the arena, the
      second that of slot 1. */
  lemma BootArenaHoldsTables(w: World, m: nat, n: nat)
    requires AtBoot(w, m) && n == ARENA_PAGES
    ensures ArenaFits(w, 3, n) && TableInArena(w, HeapWorld(w, 3, n), 3, n)
    ensures var t := HeapWorld(w, 3, n);
            && (forall f :: 4 <= f < 8 ==> f in t.tables && InArena(3, n, f))
            && Slot(t.mem, w.pd0, 1) == Some(4)
  {
    BootFrames(w, m, n);
    BootReserved(w, m);
    BootArenaFits(w, m, n);
    ArenaTableIff(w, 3, n);
    FirstTableSlot(Reserved(w), 3 * PAGE, 3 * PAGE, n, w.pd0, 1);
    forall f | 4 <= f < 8 ensures f in HeapWorld(w, 3, n).tables {
      var i := TableFound(w, m, n, f);
      SlotInTables(HeapWorld(w, 3, n), 1, i);
    }
  }

  // -------------------------------------------------------- the first split header

  /** The first request on an untouched heap that the arena can serve, and what it leaves
      behind the block it is served. */
  lemma FirstServed(start: nat, size: nat, frames: seq<nat>) returns (q: nat, rest: Block)
    requires 0 < size <= ARENA - PAGE
    ensures 1 <= q < ARENA_PAGES && (q - 1) * PAGE < size <= q * PAGE
    ensures rest == Block(start + HEADER + q * PAGE, ARENA - q * PAGE - 2 * HEADER, true)
    ensures AllocStep(Fresh(start), size, frames).blocks == [Block(start, q * PAGE, false), rest]
  {
    RoundUpServesIff(size);
    var n := RoundUp(size);
    q := n / PAGE;
    assert n == q * PAGE;
    rest := Block(start + HEADER + n, ARENA - n - 2 * HEADER, true);
    assert FirstFit(Fresh(start), n) == 0;
  }

  lemma RestPlace(q: nat, a: nat)
    requires 1 <= q < ARENA_PAGES && a == 3 * PAGE + HEADER + q * PAGE
    ensures a < TWO32 && a / PAGE == 3 + q && a % PAGE == HEADER && a % 4 == 0 && a + HEADER <= TWO32
    ensures a % PAGE / 4 + 2 == 5
  {
    assert a == PAGE * (3 + q) + HEADER;
  }

  /** Entry 5 of a table of the arena leads to its own page, or nowhere. */
  lemma FifthEntry(w: World, m: nat, n: nat, i: nat)
    requires AtBoot(w, m) && n == ARENA_PAGES && FreeFramesClear(w) && 0 < i < ENTRIES
    ensures ArenaFits(w, 3, n)
    ensures var t := HeapWorld(w, 3, n);
            Slot(t.mem, 1, i).Some? ==> Leaf(t.mem[Slot(t.mem, 1, i).value], 5) != Some(0)
  {
    BootArenaFits(w, m, n);
    var x := PageAt(i, 5);
    PageAtSplits(i, 5);
    ArenaIdentity(w, 3, n, x);
    assert Slot(w.mem, 1, i).None?;
  }

  /** The header that a first request of q pages leaves behind the block it is served. */
  lemma RestOnTable(w: World, m: nat, n: nat, q: nat, a: Word, size: Word)
    requires AtBoot(w, m) && n == ARENA_PAGES && FreeFramesClear(w)
    requires 1 <= q < ARENA_PAGES && a == 3 * PAGE + HEADER + q * PAGE && a + HEADER <= TWO32
    ensures ArenaFits(w, 3, n)
    ensures var t := HeapWorld(w, 3, n);
            (forall x: Word :: Translate(PutHeader(t.mem, a, size, 0, 1), 1, x) == Translate(t.mem, 1, x)) <==> q > 4
  {
    RestPlace(q, a);
    BootArenaFits(w, m, n);
    var t := HeapWorld(w, 3, n);
    if q <= 4 {
      var i := TableFound(w, m, n, 3 + q);
      FifthEntry(w, m, n, i);
      FreeHeaderIff(t.mem, a, size, 0, 1);
    } else {
      forall i | 0 <= i < ENTRIES ensures Slot(t.mem, 1, i) != Some(3 + q) {
        NoTable(w, m, n, 3 + q, i);
      }
      WithinFrame(a);
      HeaderHarmlessIff(t.mem, a, size, 0, 1, 1);
    }
  }

  /** The header of what the first request leaves of the arena keeps every translation
      exactly when the request is of more than four pages: up to that, it is written over
      one of the arena's own page tables. */
  lemma FirstSplitIff(w: World, m: nat, n: nat, size: nat, frames: seq<nat>)
    requires AtBoot(w, m) && n == ARENA_PAGES && FreeFramesClear(w) && 0 < size <= ARENA - PAGE
    ensures ArenaFits(w, 3, n)
    ensures var t := HeapWorld(w, 3, n);
            var bs := AllocStep(Fresh(3 * PAGE), size, frames).blocks;
            && |bs| == 2 && bs[1].free && bs[1].addr + HEADER <= TWO32 && bs[1].size < TWO32
            && ((forall x: Word ::
                   Translate(PutHeader(t.mem, bs[1].addr, bs[1].size, 0, 1), 1, x) == Translate(t.mem, 1, x))
                <==> size > 4 * PAGE)
  {
    var q, rest := FirstServed(3 * PAGE, size, frames);
    RestPlace(q, rest.addr);
    RestOnTable(w, m, n, q, rest.addr, rest.size);
    assert q > 4 <==> size > 4 * PAGE;
  }

  /** A header whose `next`, NULL, lands on an entry of a table takes that page away. */
  lemma HeaderUnmaps(mem: Memory, d: nat, i: nat, a: Word, size: Word, free: Word)
    requires d < FRAMES && i < ENTRIES && a % 4 == 0 && a % PAGE + HEADER <= PAGE && a + HEADER <= TWO32
    requires d != a / PAGE && Slot(mem, d, i) == Some(a / PAGE)
    ensures Translate(PutHeader(mem, a, size, 0, free), d, PageAt(i, a % PAGE / 4 + 1)) == None
  {
    var t, k := a / PAGE, a % PAGE / 4;
    assert (a + 4) / PAGE == t && (a + 8) / PAGE == t;
    assert (a + 4) % PAGE / 4 == k + 1 && (a + 8) % PAGE / 4 == k + 2;
    PageAtSplits(i, k + 1);
  }

  /** What that comes to for a first request of one page or less: a page inside the arena
      that was mapped to itself no longer is mapped. */
  lemma FirstSplitUnmapsArena(w: World, m: nat, n: nat, size: nat, frames: seq<nat>)
    requires AtBoot(w, m) && n == ARENA_PAGES && FreeFramesClear(w) && 0 < size <= PAGE
    ensures ArenaFits(w, 3, n)
    ensures var t, x := HeapWorld(w, 3, n), PageAt(1, 4);
            var bs := AllocStep(Fresh(3 * PAGE), size, frames).blocks;
            && |bs| == 2 && bs[1].addr + HEADER <= TWO32 && bs[1].size < TWO32
            && InArena(3, n, x / PAGE) && Translate(t.mem, w.pd0, x) == Some(x)
            && Translate(PutHeader(t.mem, bs[1].addr, bs[1].size, 0, 1), w.pd0, x) == None
  {
    var q, rest := FirstServed(3 * PAGE, size, frames);
    assert q == 1;
    RestPlace(q, rest.addr);
    BootArenaHoldsTables(w, m, n);
    PageAtSplits(1, 4);
    assert PageAt(1, 4) / PAGE == 1028;
    ArenaIdentity(w, 3, n, PageAt(1, 4));
    HeaderUnmaps(HeapWorld(w, 3, n).mem, w.pd0, 1, rest.addr, rest.size, 1);
  }

  // --------------------------------------------------------- growth after boot

  lemma {:induction false} GrowthLowest(fs: Frames, f: nat, n: nat, bs: seq<Block>, size: nat)
    requires UsedBelow(fs, f) && n == ARENA_PAGES && Tiles(bs, f * PAGE, f * PAGE + ARENA)
    ensures Lowest(fs).Some? ==>
              (Separated(bs + [Block(TakenPtr(fs), size, false)])
               <==> forall b :: f <= b < f + n && b < fs.limit ==> b in fs.used)
  {
    if Lowest(fs).Some? {
      var g := Lowest(fs).value;
      ArenaGrowthIff(bs, f * PAGE, Block(g * PAGE, size, false));
      assert f <= g;
      if g < f + n {
        assert g * PAGE < f * PAGE + ARENA;
      }
    }
  }

  /** The heap grows into memory it does not already claim exactly when no frame of the
      arena is left to hand out, in any state a run after kheap_init reaches that gives
      back no frame below the arena. */
  lemma {:induction false} GrowthSeparatedIff(w: World, f: nat, n: nat, ops: seq<PagingRuns.Op>,
                                              bs: seq<Block>, size: nat)
    requires ArenaFits(w, f, n) && n == ARENA_PAGES && KeepsBelow(ops, f)
    requires Inv(HeapWorld(w, f, n)) && PagingRuns.LegalRun(HeapWorld(w, f, n), ops)
    requires Tiles(bs, f * PAGE, f * PAGE + ARENA)
    ensures var fs := PagingRuns.Run(HeapWorld(w, f, n), ops).frames;
            Lowest(fs).Some? ==>
              (Separated(bs + [Block(TakenPtr(fs), size, false)])
               <==> forall b :: f <= b < f + n && b < fs.limit ==> b in fs.used)
  {
    HeapWorldInv(w, f, n);
    RunKeepsBelow(HeapWorld(w, f, n), ops, f);
    GrowthLowest(PagingRuns.Run(HeapWorld(w, f, n), ops).frames, f, n, bs, size);
  }
}
