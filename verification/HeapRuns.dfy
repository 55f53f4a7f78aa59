/**
 Whole runs of the kernel heap: any sequence of kheap_alloc and kheap_free calls,
 starting from the block list kheap_init leaves.
 */
module HeapRuns {
  import opened Machine
  import opened HeapBlocks

  datatype Outcome = Outcome(blocks: seq<Block>, ptr: nat)

  /** The growth path.  `frames` lists the frames obtained before the first refusal:
      with fewer than needed the list is left alone.  When no frame is asked for
      (the wrapped case) the code still returns the null block's payload. */
  function Grow(bs: seq<Block>, n: nat, frames: seq<nat>): Outcome {
    if FramesNeeded(n) == 0 then Outcome(bs, HEADER)
    else if |frames| < FramesNeeded(n) then Outcome(bs, 0)
    else Outcome(bs + [Block(frames[0], n, false)], frames[0] + HEADER)
  }

  function AllocStep(bs: seq<Block>, size: nat, frames: seq<nat>): Outcome {
    if size == 0 then Outcome(bs, 0)
    else
      var n := RoundUp(size);
      var i := FirstFit(bs, n);
      if i < |bs| then Outcome(Place(bs, i, n), bs[i].Payload()) else Grow(bs, n, frames)
  }

  /** kheap_free may be given NULL or the payload of a block of the list. */
  predicate Releasable(bs: seq<Block>, ptr: nat) {
    ptr == 0 || (ptr >= HEADER && Find(bs, ptr - HEADER) < |bs|)
  }

  function FreeStep(bs: seq<Block>, ptr: nat): seq<Block>
    requires Releasable(bs, ptr)
  {
    if ptr == 0 then bs else Coalesce(Freed(bs, Find(bs, ptr - HEADER)))
  }

  datatype Op = Alloc(size: nat, frames: seq<nat>) | Free(ptr: nat)

  predicate Legal(bs: seq<Block>, op: Op) {
    match op
    case Alloc(size, frames) => size < TWO32
    case Free(ptr) => Releasable(bs, ptr)
  }

  function Step(bs: seq<Block>, op: Op): seq<Block>
    requires Legal(bs, op)
  {
    match op
    case Alloc(size, frames) => AllocStep(bs, size, frames).blocks
    case Free(ptr) => FreeStep(bs, ptr)
  }

  predicate LegalRun(bs: seq<Block>, ops: seq<Op>)
    decreases |ops|
  {
    ops == [] || (Legal(bs, ops[0]) && LegalRun(Step(bs, ops[0]), ops[1..]))
  }

  function Run(bs: seq<Block>, ops: seq<Op>): seq<Block>
    requires LegalRun(bs, ops)
    decreases |ops|
  {
    if ops == [] then bs else Run(Step(bs, ops[0]), ops[1..])
  }

  /** The list kheap_init leaves. */
  function Fresh(start: nat): seq<Block> {
    [Block(start, ARENA - HEADER, true)]
  }

  /** Requests answered from the list, and not wrapped by the rounding. */
  predicate FromArena(bs: seq<Block>, op: Op) {
    op.Alloc? && op.size > 0 ==> op.size <= TWO32 - PAGE && FirstFit(bs, RoundUp(op.size)) < |bs|
  }

  predicate ArenaRun(bs: seq<Block>, ops: seq<Op>)
    decreases |ops|
  {
    ops == [] || (Legal(bs, ops[0]) && FromArena(bs, ops[0]) && ArenaRun(Step(bs, ops[0]), ops[1..]))
  }

  lemma {:induction false} ArenaRunIsLegal(bs: seq<Block>, ops: seq<Op>)
    requires ArenaRun(bs, ops)
    ensures LegalRun(bs, ops)
    decreases |ops|
  {
    if ops != [] {
      ArenaRunIsLegal(Step(bs, ops[0]), ops[1..]);
    }
  }

  // ---------------------------------------------------------------- first fit

  /** A request is served from the first block that is free and large enough, an exact fit
      included: the answer lies twelve bytes behind its start, and more than a header left
      over becomes a free block behind it. */
  lemma {:induction false} AllocTakesFirst(bs: seq<Block>, size: nat, frames: seq<nat>, i: nat)
    requires 0 < size < TWO32 && i < |bs| && bs[i].free && bs[i].size >= RoundUp(size)
    requires forall j :: 0 <= j < i ==> !(bs[j].free && bs[j].size >= RoundUp(size))
    ensures var n, b, r := RoundUp(size), bs[i], AllocStep(bs, size, frames);
            && r.ptr == b.addr + 12
            && r.blocks == bs[..i]
               + (if b.size > n + 12
                  then [Block(b.addr, n, false), Block(b.addr + 12 + n, b.size - n - 12, true)]
                  else [Block(b.addr, b.size, false)])
               + bs[i + 1..]
  {
    var k := FirstFit(bs, RoundUp(size));
    assert k == i;
  }

  /** Without such a block the list is left alone, or one live block of the rounded size is
      appended at the first frame obtained; that is when no frame is missing. */
  lemma {:induction false} AllocFindsNone(bs: seq<Block>, size: nat, frames: seq<nat>)
    requires 0 < size < TWO32
    requires forall j :: 0 <= j < |bs| ==> !(bs[j].free && bs[j].size >= RoundUp(size))
    ensures var n, r := RoundUp(size), AllocStep(bs, size, frames);
            if n < TWO32 - 4096 && |frames| > n / 4096
            then r.blocks == bs + [Block(frames[0], n, false)] && r.ptr == frames[0] + 12
            else r.blocks == bs && r.ptr == if n == TWO32 - 4096 then 12 else 0
  {
    var n := RoundUp(size);
    RoundUpAligned(size);
    FramesHoldRequestIff(n);
    assert FirstFit(bs, n) == |bs|;
  }

  // ------------------------------------------------------------ fragmentation

  lemma StepKeepsFewPairs(bs: seq<Block>, op: Op)
    requires Legal(bs, op) && Pairs(bs) <= 1
    ensures Pairs(Step(bs, op)) <= 1
  {
    match op
    case Alloc(size, frames) =>
      var n := RoundUp(size);
      var i := FirstFit(bs, n);
      if size > 0 && i < |bs| {
        PlacePairs(bs, i, n);
      } else if size > 0 && 0 < FramesNeeded(n) <= |frames| {
        PairsAppend(bs, [Block(frames[0], n, false)]);
      }
    case Free(ptr) =>
      if ptr != 0 {
        var i := Find(bs, ptr - HEADER);
        FreedPairs(bs, i);
        CoalesceHalvesPairs(Freed(bs, i));
      }
  }

  lemma {:induction false} RunKeepsFewPairs(bs: seq<Block>, ops: seq<Op>)
    requires LegalRun(bs, ops) && Pairs(bs) <= 1
    ensures Pairs(Run(bs, ops)) <= 1
    decreases |ops|
  {
    if ops != [] {
      StepKeepsFewPairs(bs, ops[0]);
      RunKeepsFewPairs(Step(bs, ops[0]), ops[1..]);
    }
  }

  /** In every list any run reaches, growth included, at most one pair of neighbours is
      free on both sides, and there are at most two blocks for each live one, plus two.
      Memory holds that list as long as allocations are safe (KernelHeap.AllocSafe), which
      they are on the runs of HeapPlacement.PlacedForever. */
  lemma FragmentationBound(start: nat, ops: seq<Op>)
    requires LegalRun(Fresh(start), ops)
    ensures var bs := Run(Fresh(start), ops); Pairs(bs) <= 1 && |bs| <= 2 * |Used(bs)| + 2
  {
    RunKeepsFewPairs(Fresh(start), ops);
    BlocksBound(Run(Fresh(start), ops));
  }

  /** A release leaves no free neighbours exactly when, with the block marked free, no
      three blocks in a row are.  On a list without free neighbours that is to say: unless
      the released block stands between two free ones. */
  lemma ReleaseLeavesNoPairIff(bs: seq<Block>, ptr: nat)
    requires ptr != 0 && Releasable(bs, ptr)
    ensures var i := Find(bs, ptr - HEADER);
            && (Pairs(FreeStep(bs, ptr)) == 0 <==> NoFreeTriple(Freed(bs, i)))
            && (Pairs(bs) == 0 ==>
                  (Pairs(FreeStep(bs, ptr)) > 0 <==> 0 < i < |bs| - 1 && bs[i - 1].free && bs[i + 1].free))
  {
    var i := Find(bs, ptr - HEADER);
    PassLeavesNoPairIff(Freed(bs, i));
    if Pairs(bs) == 0 {
      FreedTripleIff(bs, i);
    }
  }

  lemma RunAgain(bs: seq<Block>, op: Op, ops: seq<Op>)
    requires Legal(bs, op) && LegalRun(Step(bs, op), ops)
    ensures LegalRun(bs, [op] + ops) && Run(bs, [op] + ops) == Run(Step(bs, op), ops)
    ensures FromArena(bs, op) && ArenaRun(Step(bs, op), ops) ==> ArenaRun(bs, [op] + ops)
  {
    assert ([op] + ops)[1..] == ops;
  }

  /** The list after two page requests on an untouched heap. */
  function TwoPages(start: nat, first: bool): seq<Block> {
    [Block(start, PAGE, first), Block(start + PAGE + HEADER, PAGE, false),
     Block(start + 2 * (PAGE + HEADER), ARENA - 2 * PAGE - 3 * HEADER, true)]
  }

  lemma TwoPagesServed(start: nat) returns (b: seq<Block>)
    ensures Legal(Fresh(start), Alloc(PAGE, [])) && FromArena(Fresh(start), Alloc(PAGE, []))
    ensures b == Step(Fresh(start), Alloc(PAGE, []))
    ensures Legal(b, Alloc(PAGE, [])) && FromArena(b, Alloc(PAGE, []))
    ensures Step(b, Alloc(PAGE, [])) == TwoPages(start, false)
  {
    assert RoundUp(PAGE) == PAGE;
    b := [Block(start, PAGE, false),
          Block(start + PAGE + HEADER, ARENA - PAGE - 2 * HEADER, true)];
    assert FirstFit(Fresh(start), PAGE) == 0;
    assert Step(Fresh(start), Alloc(PAGE, [])) == b;
    assert FirstFit(b[1..], PAGE) == 0;
    assert FirstFit(b, PAGE) == 1;
  }

  lemma TwoPagesReleased(start: nat) returns (b: seq<Block>)
    ensures Releasable(TwoPages(start, false), start + HEADER)
    ensures FreeStep(TwoPages(start, false), start + HEADER) == TwoPages(start, true)
    ensures Releasable(TwoPages(start, true), start + PAGE + 2 * HEADER)
    ensures b == FreeStep(TwoPages(start, true), start + PAGE + 2 * HEADER)
    ensures |b| == 2 && b[0] == Block(start, 2 * PAGE + HEADER, true)
    ensures b[1] == TwoPages(start, true)[2]
  {
    var used, free := TwoPages(start, false), TwoPages(start, true);
    assert free[1..][1..] == [free[2]] && [free[2]][1..] == [];
    assert Coalesce([free[2]]) == [free[2]];
    assert Coalesce(free[1..]) == free[1..];
    assert Freed(used, 0) == free;
    assert Find(free[1..], start + PAGE + HEADER) == 0;
    assert Find(free, start + PAGE + HEADER) == 1;
    assert Freed(free, 1)[2..] == [free[2]];
    b := Coalesce(Freed(free, 1));
  }

  lemma TwoPagesRun(start: nat) returns (ops: seq<Op>, b: seq<Block>)
    ensures ArenaRun(Fresh(start), ops) && LegalRun(Fresh(start), ops)
    ensures b == Run(Fresh(start), ops) && Used(b) == [] && |b| == 2
    ensures b[0].size == 2 * PAGE + HEADER && b[1].size == ARENA - 2 * PAGE - 3 * HEADER
  {
    var b1 := TwoPagesServed(start);
    b := TwoPagesReleased(start);
    NoneUsed(b);
    ops := RunFour(Fresh(start), Alloc(PAGE, []), b1, Alloc(PAGE, []), TwoPages(start, false),
                   Free(start + HEADER), TwoPages(start, true), Free(start + PAGE + 2 * HEADER), b);
  }

  lemma NoneUsed(b: seq<Block>)
    requires |b| == 2 && b[0].free && b[1].free
    ensures Used(b) == []
  {
    assert b[1..][1..] == [] && Used(b[1..]) == [];
  }

  lemma RunFour(b0: seq<Block>, p: Op, b1: seq<Block>, q: Op, b2: seq<Block>,
                r: Op, b3: seq<Block>, t: Op, b4: seq<Block>) returns (ops: seq<Op>)
    requires Legal(b0, p) && FromArena(b0, p) && Step(b0, p) == b1
    requires Legal(b1, q) && FromArena(b1, q) && Step(b1, q) == b2
    requires Legal(b2, r) && FromArena(b2, r) && Step(b2, r) == b3
    requires Legal(b3, t) && FromArena(b3, t) && Step(b3, t) == b4
    ensures ArenaRun(b0, ops) && LegalRun(b0, ops) && Run(b0, ops) == b4
  {
    RunAgain(b3, t, []);
    RunAgain(b2, r, [t] + []);
    RunAgain(b1, q, [r] + ([t] + []));
    RunAgain(b0, p, [q] + ([r] + ([t] + [])));
    ops := [p] + ([q] + ([r] + ([t] + [])));
  }

  lemma TooSmall(b: seq<Block>)
    requires |b| == 2
    requires b[0].size == 2 * PAGE + HEADER && b[1].size == ARENA - 2 * PAGE - 3 * HEADER
    ensures FirstFit(b, RoundUp(ARENA - PAGE)) == 2
  {
    assert b[1..] == [b[1]];
    assert FirstFit([b[1]], RoundUp(ARENA - PAGE)) == 1;
  }

  lemma FreshServes(start: nat)
    ensures FirstFit(Fresh(start), RoundUp(ARENA - PAGE)) < |Fresh(start)|
  {}

  /** The bound is reached: two page requests released in order leave two free
      blocks, and a request the untouched heap would serve finds no block. */
  lemma ReleasedHeapStaysSplit(start: nat) returns (ops: seq<Op>)
    ensures ArenaRun(Fresh(start), ops) && LegalRun(Fresh(start), ops)
    ensures var bs := Run(Fresh(start), ops);
            Used(bs) == [] && |bs| == 2
            && FirstFit(bs, RoundUp(ARENA - PAGE)) == |bs|
            && FirstFit(Fresh(start), RoundUp(ARENA - PAGE)) < |Fresh(start)|
  {
    var b: seq<Block>;
    ops, b := TwoPagesRun(start);
    TooSmall(b);
    FreshServes(start);
  }

  // ----------------------------------------------------- tiling, conservation

  lemma StepKeepsTiling(bs: seq<Block>, op: Op, lo: nat, hi: nat)
    requires Legal(bs, op) && FromArena(bs, op)
    requires Tiles(bs, lo, hi) && Positive(bs)
    ensures Tiles(Step(bs, op), lo, hi) && Positive(Step(bs, op))
  {
    match op
    case Alloc(size, frames) =>
      if size > 0 {
        var n := RoundUp(size);
        var i := FirstFit(bs, n);
        RoundUpServesIff(size);
        PlaceTiles(bs, i, n, lo, hi);
        PlaceSums(bs, i, n);
      }
    case Free(ptr) =>
      if ptr != 0 {
        var i := Find(bs, ptr - HEADER);
        FreedTiles(bs, i, lo, hi);
        FreedPositive(bs, i);
        CoalesceTiles(Freed(bs, i), lo, hi);
        CoalesceKeeps(Freed(bs, i));
      }
  }

  lemma {:induction false} RunKeepsTiling(bs: seq<Block>, ops: seq<Op>, lo: nat, hi: nat)
    requires ArenaRun(bs, ops) && LegalRun(bs, ops)
    requires Tiles(bs, lo, hi) && Positive(bs)
    ensures Tiles(Run(bs, ops), lo, hi) && Positive(Run(bs, ops))
    decreases |ops|
  {
    if ops != [] {
      StepKeepsTiling(bs, ops[0], lo, hi);
      RunKeepsTiling(Step(bs, ops[0]), ops[1..], lo, hi);
    }
  }

  lemma FreshTiles(start: nat)
    ensures Tiles(Fresh(start), start, start + ARENA) && Positive(Fresh(start))
  {
    assert Fresh(start)[1..] == [];
  }

  /** The list a run served from the arena leaves. */
  function ArenaList(start: nat, ops: seq<Op>): seq<Block>
    requires ArenaRun(Fresh(start), ops)
  {
    ArenaRunIsLegal(Fresh(start), ops);
    Run(Fresh(start), ops)
  }

  /** Over every run served from the arena the list tiles it exactly: blocks of
      positive size, in address order, each starting where the one before it ends,
      so no two share a byte. */
  lemma ArenaTiling(start: nat, ops: seq<Op>)
    requires ArenaRun(Fresh(start), ops)
    ensures var bs := ArenaList(start, ops);
            && Tiles(bs, start, start + ARENA) && Positive(bs)
            && Ascending(bs) && Separated(bs)
            && (forall b :: b in bs ==> start <= b.addr && b.End() <= start + ARENA)
            && (forall i :: 0 <= i < |bs| - 1 ==> bs[i].End() == bs[i + 1].addr)
            && Total(bs) == FreeBytes(bs) + Sizes(Used(bs)) + HEADER * |bs| == ARENA
  {
    FreshTiles(start);
    ArenaRunIsLegal(Fresh(start), ops);
    RunKeepsTiling(Fresh(start), ops, start, start + ARENA);
    TilesAscending(ArenaList(start, ops), start, start + ARENA);
    BytesAccounted(ArenaList(start, ops));
  }

  lemma {:induction false} AllFreePairs(bs: seq<Block>)
    requires Used(bs) == []
    ensures bs != [] ==> bs[0].free && |bs| == Pairs(bs) + 1
  {
    if |bs| >= 2 {
      assert bs[0].free;
      AllFreePairs(bs[1..]);
    }
  }

  lemma {:induction false} AllFreeMembers(bs: seq<Block>)
    requires Used(bs) == []
    ensures forall i :: 0 <= i < |bs| ==> bs[i].free
  {
    if bs != [] {
      assert bs[0].free;
      AllFreeMembers(bs[1..]);
      assert forall i :: 0 < i < |bs| ==> bs[i] == bs[1..][i - 1];
    }
  }

  /** The pass makes one block of an all-free list exactly when there are at most two. */
  lemma AllFreeBecomesFresh(bs: seq<Block>, start: nat)
    requires Used(bs) == [] && Tiles(bs, start, start + ARENA)
    ensures Coalesce(bs) == Fresh(start) <==> |bs| <= 2
  {
    var c := Coalesce(bs);
    CoalesceKeeps(bs);
    CoalesceTiles(bs, start, start + ARENA);
    AllFreePairs(c);
    PassLeavesNoPairIff(bs);
    AllFreeMembers(bs);
    if |bs| > 2 {
      assert bs[0].free && bs[0 + 1].free && bs[0 + 2].free;
    }
    if |c| == 1 {
      assert c[1..] == [] && c[0] == Block(start, ARENA - HEADER, true);
    }
  }

  /** Releasing the last live block of an arena-served run gives back the list
      kheap_init left exactly when there were at most two blocks. */
  lemma WholeAgainIff(start: nat, ops: seq<Op>, ptr: nat)
    requires ArenaRun(Fresh(start), ops) && ptr != 0 && Releasable(ArenaList(start, ops), ptr)
    requires Used(FreeStep(ArenaList(start, ops), ptr)) == []
    ensures var bs := ArenaList(start, ops); FreeStep(bs, ptr) == Fresh(start) <==> |bs| <= 2
  {
    var bs := ArenaList(start, ops);
    var i := Find(bs, ptr - HEADER);
    FreshTiles(start);
    ArenaRunIsLegal(Fresh(start), ops);
    RunKeepsTiling(Fresh(start), ops, start, start + ARENA);
    FreedTiles(bs, i, start, start + ARENA);
    CoalesceKeeps(Freed(bs, i));
    AllFreeBecomesFresh(Freed(bs, i), start);
  }

  /** What a step adds to the bytes the list accounts for: only a growth step that
      obtains all its frames adds any, the rounded request and one header. */
  function GrownBytes(bs: seq<Block>, op: Op): nat {
    if op.Alloc? && op.size > 0 && FirstFit(bs, RoundUp(op.size)) == |bs|
       && 0 < FramesNeeded(RoundUp(op.size)) <= |op.frames|
    then RoundUp(op.size) + HEADER
    else 0
  }

  function RunGrownBytes(bs: seq<Block>, ops: seq<Op>): nat
    requires LegalRun(bs, ops)
    decreases |ops|
  {
    if ops == [] then 0 else GrownBytes(bs, ops[0]) + RunGrownBytes(Step(bs, ops[0]), ops[1..])
  }

  lemma StepConserves(bs: seq<Block>, op: Op)
    requires Legal(bs, op)
    ensures Total(Step(bs, op)) == Total(bs) + GrownBytes(bs, op)
  {
    match op
    case Alloc(size, frames) =>
      var n := RoundUp(size);
      var i := FirstFit(bs, n);
      if size > 0 && i < |bs| {
        PlaceSums(bs, i, n);
      } else if size > 0 && 0 < FramesNeeded(n) <= |frames| {
        SumsAppend(bs, [Block(frames[0], n, false)]);
      }
    case Free(ptr) =>
      if ptr != 0 {
        var i := Find(bs, ptr - HEADER);
        FreedSums(bs, i);
        CoalesceKeeps(Freed(bs, i));
      }
  }

  lemma {:induction false} RunConserves(bs: seq<Block>, ops: seq<Op>)
    requires LegalRun(bs, ops)
    ensures Total(Run(bs, ops)) == Total(bs) + RunGrownBytes(bs, ops)
    decreases |ops|
  {
    if ops != [] {
      StepConserves(bs, ops[0]);
      RunConserves(Step(bs, ops[0]), ops[1..]);
    }
  }

  /** After any run, free bytes, live bytes and headers add up to the arena plus
      what growth added. */
  lemma Conservation(start: nat, ops: seq<Op>)
    requires LegalRun(Fresh(start), ops)
    ensures var bs := Run(Fresh(start), ops);
            FreeBytes(bs) + Sizes(Used(bs)) + HEADER * |bs| == ARENA + RunGrownBytes(Fresh(start), ops)
  {
    RunConserves(Fresh(start), ops);
    BytesAccounted(Run(Fresh(start), ops));
  }

  // ------------------------------------------------------------- live blocks

  /** `us'` is `us` with `u` inserted somewhere. */
  ghost predicate Inserted(us: seq<Block>, u: Block, us': seq<Block>) {
    exists k :: 0 <= k <= |us| && us' == us[..k] + [u] + us[k..]
  }

  lemma InsertedBetween(a: seq<Block>, u: Block, z: seq<Block>)
    ensures Inserted(a + z, u, a + [u] + z)
  {
    assert (a + z)[..|a|] == a && (a + z)[|a|..] == z;
  }

  /** An allocation that changes the list adds exactly one block to the live ones: its
      payload is the answer and holds between the rounded request and twelve bytes more.
      Otherwise the answer is NULL, or address 12 where the frame count wraps to zero. */
  lemma AllocLive(bs: seq<Block>, size: nat, frames: seq<nat>) returns (u: Block)
    requires 0 < size < TWO32
    ensures var r := AllocStep(bs, size, frames);
            if r.blocks != bs
            then Inserted(Used(bs), u, Used(r.blocks)) && r.ptr == u.Payload() && u in r.blocks && !u.free
                 && RoundUp(size) <= u.size <= RoundUp(size) + HEADER
            else r.ptr == 0 || (r.ptr == HEADER && RoundUp(size) == TWO32 - PAGE)
  {
    var n := RoundUp(size);
    var i := FirstFit(bs, n);
    RoundUpAligned(size);
    FramesHoldRequestIff(n);
    if i < |bs| {
      u := ServedLive(bs, i, n);
    } else {
      u := Block(if frames == [] then 0 else frames[0], n, false);
      GrownLive(bs, u);
    }
  }

  lemma ServedLive(bs: seq<Block>, i: nat, n: nat) returns (u: Block)
    requires i < |bs| && bs[i].Fits(n)
    ensures Inserted(Used(bs), u, Used(Place(bs, i, n))) && u in Place(bs, i, n)
    ensures u.addr == bs[i].addr && n <= u.size <= n + HEADER && !u.free
  {
    u := PlaceUsed(bs, i, n);
    InsertedBetween(Used(bs[..i]), u, Used(bs[i + 1..]));
  }

  lemma GrownLive(bs: seq<Block>, b: Block)
    requires !b.free
    ensures Inserted(Used(bs), b, Used(bs + [b]))
  {
    UsedAround(bs, b, []);
    assert bs + [b] + [] == bs + [b];
    InsertedBetween(Used(bs), b, []);
    assert Used(bs) + [] == Used(bs) && Used(bs) + [b] + [] == Used(bs) + [b];
  }

  // ------------------------------------------- requests near the end of 32 bits

  /** The answer is the payload of a live block of at least `size` bytes. */
  ghost predicate Serves(bs: seq<Block>, ptr: nat, size: nat) {
    exists b :: b in bs && !b.free && b.Payload() == ptr && b.size >= size
  }

  /** Address 0 is NULL, which ends a list. */
  ghost predicate NotAtNull(bs: seq<Block>) {
    forall b :: b in bs ==> b.addr != 0
  }

  lemma {:induction false} SizeBelowTotal(bs: seq<Block>)
    ensures forall b :: b in bs ==> b.size < Total(bs)
  {
    if bs != [] {
      SizeBelowTotal(bs[1..]);
      assert forall b :: b in bs ==> b == bs[0] || b in bs[1..];
    }
  }

  /** A request within a page of 2^32 rounds to zero, so any free block will do: the
      untouched heap answers its first byte with a block of no bytes. */
  lemma WrappedRequest(start: nat, frames: seq<nat>)
    ensures AllocStep(Fresh(start), TWO32 - 1, frames)
            == Outcome([Block(start, 0, false), Block(start + HEADER, ARENA - 2 * HEADER, true)], start + HEADER)
  {
    RoundUpServesIff(TWO32 - 1);
  }

  /** Requests of the page before that do not wrap the rounding but the frame count: no
      frame is asked for, and the answer is the payload of a block at address 0. */
  lemma {:induction false} UncountedRequest(bs: seq<Block>, size: nat, frames: seq<nat>)
    requires TWO32 - 2 * PAGE < size <= TWO32 - PAGE && Total(bs) < TWO32 - PAGE
    ensures AllocStep(bs, size, frames) == Outcome(bs, HEADER)
  {
    RoundUpServesIff(size);
    FramesHoldRequestIff(RoundUp(size));
    SizeBelowTotal(bs);
    assert RoundUp(size) == TWO32 - PAGE;
  }

  lemma AllocServes(bs: seq<Block>, size: nat, frames: seq<nat>)
    requires 0 < size <= TWO32 - 2 * PAGE && AllocStep(bs, size, frames).ptr != 0
    ensures var r := AllocStep(bs, size, frames); Serves(r.blocks, r.ptr, size)
  {
    RoundUpServesIff(size);
    var u := AllocLive(bs, size, frames);
  }

  lemma AllocMisses(bs: seq<Block>, size: nat, frames: seq<nat>)
    requires TWO32 - 2 * PAGE < size < TWO32 && Total(bs) < TWO32 - PAGE && NotAtNull(bs)
    ensures var r := AllocStep(bs, size, frames); !Serves(r.blocks, r.ptr, size)
  {
    if size <= TWO32 - PAGE {
      UncountedRequest(bs, size, frames);
    } else {
      RoundUpServesIff(size);
      SizeBelowTotal(bs);
      var i, r := FirstFit(bs, 0), AllocStep(bs, size, frames);
      if i < |bs| {
        PlaceSums(bs, i, 0);
        SizeBelowTotal(r.blocks);
      }
    }
  }

  /** An answer other than NULL is the payload of a live block that holds the request
      exactly for requests of at most 2^32 - 8192 bytes, whatever the list and whatever
      frames are to be had; NULL means that no block fits and the frames ran out. */
  lemma AllocServesIff(bs: seq<Block>, size: nat, frames: seq<nat>)
    requires 0 < size < TWO32 && Total(bs) < TWO32 - PAGE && NotAtNull(bs)
    ensures var r := AllocStep(bs, size, frames);
            && (r.ptr != 0 ==> (Serves(r.blocks, r.ptr, size) <==> size <= TWO32 - 2 * PAGE))
            && (r.ptr == 0 <==> FirstFit(bs, RoundUp(size)) == |bs| && |frames| < FramesNeeded(RoundUp(size)))
  {
    if size > TWO32 - 2 * PAGE {
      AllocMisses(bs, size, frames);
    } else if AllocStep(bs, size, frames).ptr != 0 {
      AllocServes(bs, size, frames);
    }
  }

  /** A release takes exactly the released block out of the live ones, moving and
      resizing no other. */
  lemma FreeLive(bs: seq<Block>, ptr: nat)
    requires ptr != 0 && Releasable(bs, ptr)
    ensures var b := bs[Find(bs, ptr - HEADER)];
            if b.free then Used(FreeStep(bs, ptr)) == Used(bs)
            else Inserted(Used(FreeStep(bs, ptr)), b, Used(bs))
  {
    var i := Find(bs, ptr - HEADER);
    CoalesceKeeps(Freed(bs, i));
    FreedUsed(bs, i);
    if bs[i].free {
      UsedAround(bs[..i], bs[i], bs[i + 1..]);
      FreedShape(bs, i);
    } else {
      InsertedBetween(Used(bs[..i]), bs[i], Used(bs[i + 1..]));
    }
  }

  lemma FindPlaced(bs: seq<Block>, i: nat, n: nat)
    requires Separated(bs) && i < |bs| && bs[i].Fits(n)
    ensures Find(Place(bs, i, n), bs[i].addr) == i
  {
    var p := Place(bs, i, n);
    assert p[i] == Carve(bs[i], n)[0];
    assert forall j :: 0 <= j < i ==> p[j] == bs[j];
  }

  /** What carving `n` bytes from `b` and releasing them leaves before the pass. */
  function Released(b: Block, n: nat): seq<Block>
    requires b.Fits(n)
  {
    Carve(b, n)[0 := Carve(b, n)[0].(free := true)]
  }

  lemma ReleasedFacts(b: Block, n: nat)
    requires b.Fits(n)
    ensures var c := Released(b, n);
            Used(c) == Used([b]) == [] && Total(c) == Total([b])
            && (c == [b] || (Pairs(c) == 1 && FreeBytes(c) == FreeBytes([b]) - HEADER))
  {
    var c := Released(b, n);
    if |c| == 2 {
      assert c[1..] == [c[1]];
      assert Used([c[1]]) == [] && FreeBytes([c[1]]) == c[1].size;
    }
  }

  lemma ReleasedInList(bs: seq<Block>, i: nat, n: nat)
    requires i < |bs| && bs[i].Fits(n)
    ensures bs == bs[..i] + [bs[i]] + bs[i + 1..]
    ensures Freed(Place(bs, i, n), i) == bs[..i] + Released(bs[i], n) + bs[i + 1..]
  {}

  lemma Replaced(a: seq<Block>, b: seq<Block>, c: seq<Block>, z: seq<Block>)
    requires Used(b) == Used(c)
    ensures Used(a + c + z) == Used(a + b + z)
    ensures FreeBytes(a + c + z) - FreeBytes(c) == FreeBytes(a + b + z) - FreeBytes(b)
    ensures Pairs(a + c + z) >= Pairs(c)
  {
    SumsAppend(a, c); SumsAppend(a + c, z); SumsAppend(a, b); SumsAppend(a + b, z);
    UsedAppend(a, c); UsedAppend(a + c, z); UsedAppend(a, b); UsedAppend(a + b, z);
    PairsAppend(a, c); PairsAppend(a + c, z);
  }

  /** `bs'` has the live blocks of `bs` and no fewer free bytes. */
  predicate Restores(bs: seq<Block>, bs': seq<Block>) {
    Used(bs') == Used(bs) && FreeBytes(bs') >= FreeBytes(bs)
  }

  lemma {:induction false} PlaceThenPass(bs: seq<Block>, i: nat, n: nat, f: seq<Block>)
    requires i < |bs| && bs[i].Fits(n) && f == Freed(Place(bs, i, n), i)
    ensures Restores(bs, Coalesce(f))
  {
    var c := Released(bs[i], n);
    ReleasedFacts(bs[i], n);
    ReleasedInList(bs, i, n);
    Replaced(bs[..i], [bs[i]], c, bs[i + 1..]);
    CoalesceKeeps(f);
    assert c != [bs[i]] ==> |Coalesce(f)| < |f|;
  }

  lemma {:induction false} GrowThenPass(bs: seq<Block>, b: Block, f: seq<Block>)
    requires !b.free && f == Freed(bs + [b], |bs|)
    ensures Restores(bs, Coalesce(f))
  {
    var bs' := bs + [b];
    assert bs'[..|bs|] == bs && bs'[|bs| + 1..] == [];
    FreedSums(bs', |bs|);
    SumsAppend(bs, [b]);
    FreedUsed(bs', |bs|);
    assert Used(bs) + [] == Used(bs);
    CoalesceKeeps(f);
  }

  lemma FindAppended(bs: seq<Block>, b: Block)
    requires Find(bs, b.addr) == |bs|
    ensures Find(bs + [b], b.addr) == |bs|
  {
    var bs' := bs + [b];
    assert forall j :: 0 <= j < |bs| ==> bs'[j] == bs[j];
    assert bs'[|bs|] == b;
  }

  lemma FreeStepAt(bs: seq<Block>, i: nat, addr: nat)
    requires Find(bs, addr) == i < |bs|
    ensures Releasable(bs, addr + HEADER) && FreeStep(bs, addr + HEADER) == Coalesce(Freed(bs, i))
  {}

  /** Releasing the answer of r restores `bs`. */
  predicate Undone(bs: seq<Block>, r: Outcome) {
    Releasable(r.blocks, r.ptr) && Restores(bs, FreeStep(r.blocks, r.ptr))
  }

  lemma {:induction false} ServedUndone(bs: seq<Block>, i: nat, n: nat, r: Outcome)
    requires Separated(bs) && i < |bs| && bs[i].Fits(n)
    requires r.blocks == Place(bs, i, n) && r.ptr == bs[i].Payload()
    ensures Undone(bs, r)
  {
    FindPlaced(bs, i, n);
    FreeStepAt(r.blocks, i, bs[i].addr);
    PlaceThenPass(bs, i, n, Freed(r.blocks, i));
  }

  lemma {:induction false} GrownUndone(bs: seq<Block>, b: Block, r: Outcome)
    requires !b.free && Find(bs, b.addr) == |bs|
    requires r.blocks == bs + [b] && r.ptr == b.Payload()
    ensures Undone(bs, r)
  {
    FindAppended(bs, b);
    FreeStepAt(r.blocks, |bs|, b.addr);
    GrowThenPass(bs, b, Freed(r.blocks, |bs|));
  }

  /** Releasing what an allocation has just answered, be it from the list, by growth or
      NULL, restores the live blocks and leaves at least as many free bytes as before. */
  lemma {:induction false} AllocThenFree(bs: seq<Block>, size: nat, frames: seq<nat>)
    requires Separated(bs) && size < TWO32
    requires RoundUp(size) != TWO32 - PAGE || FirstFit(bs, RoundUp(size)) < |bs|
    // Frames obtained for growth do not start at a block of the list.
    requires frames != [] ==> Find(bs, frames[0]) == |bs|
    ensures Undone(bs, AllocStep(bs, size, frames))
  {
    var n := RoundUp(size);
    var i := FirstFit(bs, n);
    var r := AllocStep(bs, size, frames);
    if r.ptr == 0 {
      assert r.blocks == bs;
    } else if i < |bs| {
      ServedUndone(bs, i, n, r);
    } else {
      RoundUpAligned(size);
      FramesHoldRequestIff(n);
      GrownUndone(bs, Block(frames[0], n, false), r);
    }
  }
}
