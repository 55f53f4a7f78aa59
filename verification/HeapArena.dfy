/**
 The heap's arena: kheap_init takes its first frame from the allocator and maps the rest
 without reserving it.
 */
module HeapArena {
  import opened Machine
  import opened FrameSet
  import opened PageTables
  import opened PagingRuns
  import opened PageRanges

  const ARENA_PAGES: nat := 4096

  /** The state kheap_init maps the arena in: its first frame is taken. */
  function Reserved(w: World): World {
    w.(frames := Take(w.frames))
  }

  ghost predicate ArenaFits(w: World, f: nat, n: nat) {
    && Inv(w) && w.pd0 < FRAMES && Lowest(w.frames) == Some(f) && f + n <= FRAMES
    && RangeFits(Reserved(w), f * PAGE, n, w.pd0)
  }

  /** What kheap_init does to memory: take frame f, and map the arena of n pages from
      there on to itself. */
  function HeapWorld(w: World, f: nat, n: nat): World
    requires WellFormed(w.frames) && w.pd0 < FRAMES && f < FRAMES
  {
    MapPages(Reserved(w), f * PAGE, f * PAGE, n, w.pd0)
  }

  /** Of the allocator, that takes a frame for each slot the arena lacks. */
  lemma HeapWorldTakes(w: World, f: nat, n: nat, k: nat, fs: Frames)
    requires ArenaFits(w, f, n) && n > 0 && k == |MissingSlots(Reserved(w), f * PAGE, n, w.pd0)|
    requires fs == HeapWorld(w, f, n).frames
    ensures fs == TakeMany(Reserved(w).frames, k)
  {
    RangeTakes(Reserved(w), f * PAGE, f * PAGE, n, w.pd0, fs);
  }

  predicate InArena(f: nat, n: nat, b: nat) {
    f <= b < f + n
  }

  ghost predicate TableInArena(w: World, w': World, f: nat, n: nat) {
    exists b :: b in w'.tables && b !in w.tables && InArena(f, n, b)
  }

  /** kheap_init reserves the arena's first frame only.  Of the page tables it makes to
      map the arena, one stands inside the arena exactly when one is needed and the next
      free frame lies there. */
  lemma ArenaTableIff(w: World, f: nat, n: nat)
    requires ArenaFits(w, f, n)
    ensures TableInArena(w, HeapWorld(w, f, n), f, n)
            <==> MissingSlots(Reserved(w), f * PAGE, n, w.pd0) != {}
                 && Lowest(Reserved(w).frames).Some? && InArena(f, n, Lowest(Reserved(w).frames).value)
  {
    var w1 := Reserved(w);
    RangeTables(w1, f * PAGE, f * PAGE, n, w.pd0);
    FirstTable(w1, f * PAGE, f * PAGE, n, w.pd0);
    var w2 := HeapWorld(w, f, n);
    if TableInArena(w, w2, f, n) {
      var b :| b in w2.tables && b !in w.tables && InArena(f, n, b);
    } else if Lowest(w1.frames).Some? {
      assert Lowest(w1.frames).value !in w.tables;
    }
  }

  /** No frame below f is given back. */
  predicate KeepsBelow(ops: seq<PagingRuns.Op>, f: nat) {
    forall i :: 0 <= i < |ops| ==> ops[i].FreeFrame? ==> ops[i].f >= f
  }

  lemma StepKeepsBelow(w: World, op: PagingRuns.Op, f: nat)
    requires Inv(w) && PagingRuns.Legal(w, op) && w.pd0 < FRAMES && UsedBelow(w.frames, f)
    requires op.FreeFrame? ==> op.f >= f
    ensures UsedBelow(PagingRuns.Step(w, op).frames, f)
  {
    if op.Map? {
      var t := MapEffect(w, op.phys, op.va, op.d);
    }
  }

  lemma {:induction false} RunKeepsBelow(w: World, ops: seq<PagingRuns.Op>, f: nat)
    requires Inv(w) && PagingRuns.LegalRun(w, ops) && KeepsBelow(ops, f) && UsedBelow(w.frames, f)
    ensures UsedBelow(PagingRuns.Run(w, ops).frames, f)
    decreases |ops|
  {
    if ops != [] {
      StepKeepsInv(w, ops[0]);
      StepKeepsBelow(w, ops[0], f);
      RunKeepsBelow(PagingRuns.Step(w, ops[0]), ops[1..], f);
    }
  }

  lemma HeapWorldInv(w: World, f: nat, n: nat)
    requires ArenaFits(w, f, n)
    ensures Inv(HeapWorld(w, f, n)) && UsedBelow(HeapWorld(w, f, n).frames, f)
  {
    MapPagesKeepsInv(Reserved(w), f * PAGE, f * PAGE, n, w.pd0);
    RangeTables(Reserved(w), f * PAGE, f * PAGE, n, w.pd0);
  }

  /** After kheap_init and any run of the frame and paging routines that gives back no
      frame below the arena, the next frame the allocator hands to anyone is an arena
      frame exactly while one is free. */
  lemma NextFrameInArenaIff(w: World, f: nat, n: nat, ops: seq<PagingRuns.Op>)
    requires ArenaFits(w, f, n) && KeepsBelow(ops, f)
    requires Inv(HeapWorld(w, f, n)) && PagingRuns.LegalRun(HeapWorld(w, f, n), ops)
    ensures var fs := PagingRuns.Run(HeapWorld(w, f, n), ops).frames;
            Lowest(fs).Some? && InArena(f, n, Lowest(fs).value)
            <==> exists b: nat :: InArena(f, n, b) && b < fs.limit && b !in fs.used
  {
    HeapWorldInv(w, f, n);
    RunKeepsBelow(HeapWorld(w, f, n), ops, f);
    var fs := PagingRuns.Run(HeapWorld(w, f, n), ops).frames;
    if b: nat :| InArena(f, n, b) && b < fs.limit && b !in fs.used {
      assert Lowest(fs).Some? && f <= Lowest(fs).value <= b;
    }
  }

  /** The arena reaches into the slot after its first. */
  lemma NextSlot(f: nat, n: nat)
    requires n == ARENA_PAGES && f + n <= FRAMES
    ensures var i := f / ENTRIES + 1;
            0 < i < ENTRIES && (f * PAGE) / PAGE / ENTRIES <= i && i * ENTRIES < (f * PAGE) / PAGE + n
  {
    assert (f * PAGE) / PAGE == f;
  }

  lemma BootSlotMissing(mem: Memory, frames: Frames, f: nat, n: nat)
    requires WellFormed(frames) && 0 in frames.used
    requires Lowest(frames).Some? && Lowest(Take(frames)).Some?
    requires n == ARENA_PAGES && ArenaFits(InitialWorld(mem, frames), f, n)
    ensures var w := InitialWorld(mem, frames);
            MissingSlots(Reserved(w), f * PAGE, n, w.pd0) != {}
  {
    var w := InitialWorld(mem, frames);
    InitialSlots(mem, frames);
    NextSlot(f, n);
    MissingHas(Reserved(w), f * PAGE, n, w.pd0, f / ENTRIES + 1);
  }

  /** At boot, right after paging_init, a table is always needed: the heap's arena holds
      one of its own page tables exactly when the next free frame lies in it. */
  lemma BootArenaHoldsTableIff(mem: Memory, frames: Frames, f: nat, n: nat)
    requires WellFormed(frames) && 0 in frames.used
    requires Lowest(frames).Some? && Lowest(Take(frames)).Some?
    requires n == ARENA_PAGES && ArenaFits(InitialWorld(mem, frames), f, n)
    ensures var w := InitialWorld(mem, frames);
            Lowest(Reserved(w).frames).Some?
            && (TableInArena(w, HeapWorld(w, f, n), f, n) <==> InArena(f, n, Lowest(Reserved(w).frames).value))
  {
    var w := InitialWorld(mem, frames);
    BootSlotMissing(mem, frames, f, n);
    ArenaTableIff(w, f, n);
    FirstTable(Reserved(w), f * PAGE, f * PAGE, n, w.pd0);
  }

  /** With every free frame clear beforehand, kheap_init maps each arena address to
      itself in the kernel directory and changes no other translation there. */
  lemma ArenaIdentity(w: World, f: nat, n: nat, x: Word)
    requires ArenaFits(w, f, n) && FreeFramesClear(w)
    ensures var w2 := HeapWorld(w, f, n);
            Translate(w2.mem, w.pd0, x)
            == if f <= x / PAGE < f + n then Some(x) else Translate(w.mem, w.pd0, x)
  {
    var p := f * PAGE;
    assert p / PAGE == f;
    assert FreeFramesClear(Reserved(w));
    MapRangeTranslate(Reserved(w), p, p, n, w.pd0, w.pd0, x);
    assert InRange(p, n, x) ==> RangeTarget(p, p, x) == x;
  }
}
