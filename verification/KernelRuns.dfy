/**
 Runs of the kernel's memory stack as a whole: calls of the frame allocator, the paging
 routines and the heap in any order, the heap's growth taking its frames from the
 allocator the others share.
 */
module KernelRuns {
  import opened Machine
  import opened FrameSet
  import opened PageTables
  import opened PagingRuns
  import opened HeapBlocks
  import opened HeapRuns
  import opened HeapPlacement
  import opened HeapFrames
  import opened HeapArena
  import opened HeapBoot

  datatype Kernel = Kernel(world: World, blocks: seq<Block>)

  datatype Call = Paging(op: PagingRuns.Op) | Alloc(size: nat) | Free(ptr: nat)

  ghost predicate Ready(k: Kernel) {
    WellFormed(k.world.frames) && k.world.pd0 < FRAMES
  }

  predicate Legal(k: Kernel, c: Call) {
    match c
    case Paging(op) => PagingRuns.Legal(k.world, op)
    case Alloc(size) => size < TWO32
    case Free(ptr) => Releasable(k.blocks, ptr)
  }

  /** What the growth loop obtains for a request. */
  function Obtained(k: Kernel, size: nat): Grant
    requires Ready(k)
  {
    Grab(k.world, FramesNeeded(RoundUp(size)))
  }

  /** The request is answered without growth. */
  predicate FromList(k: Kernel, size: nat) {
    size == 0 || FirstFit(k.blocks, RoundUp(size)) < |k.blocks|
  }

  function Step(k: Kernel, c: Call): Kernel
    requires Ready(k) && Legal(k, c)
  {
    match c
    case Paging(op) => k.(world := PagingRuns.Step(k.world, op))
    case Alloc(size) =>
      Kernel(if FromList(k, size) then k.world else Obtained(k, size).world,
             AllocStep(k.blocks, size, Obtained(k, size).frames).blocks)
    case Free(ptr) => k.(blocks := FreeStep(k.blocks, ptr))
  }

  /** Mapping a page takes the lowest free frame or none. */
  lemma MapFrames(w: World, phys: Word, va: Word, d: nat)
    requires d < FRAMES && WellFormed(w.frames)
    ensures var w' := MapPage(w, phys, va, d);
            WellFormed(w'.frames) && w'.pd0 == w.pd0 && (w'.frames == w.frames || w'.frames == Take(w.frames))
  {
    NullIff(w.frames);
  }

  lemma {:induction false} GrabInOrder(w: World, k: nat, grant: Grant)
    requires Obtains(w, k, grant)
    ensures WellFormed(grant.world.frames) && grant.world.pd0 == w.pd0
    decreases k
  {
    if k == 0 || TakenPtr(w.frames) == 0 {
      GrabRefused(w, k, grant);
    } else {
      var w', rest := TakingTurn(w, k, grant);
      GrabInOrder(w', k - 1, rest);
    }
  }

  lemma StepReady(k: Kernel, c: Call)
    requires Ready(k) && Legal(k, c)
    ensures Ready(Step(k, c))
  {
    match c
    case Paging(op) =>
      if op.Map? { MapFrames(k.world, op.phys, op.va, op.d); }
    case Alloc(size) =>
      if !FromList(k, size) {
        var grant := ObtainsIs(k.world, FramesNeeded(RoundUp(size)));
        GrabInOrder(k.world, FramesNeeded(RoundUp(size)), grant);
      }
    case Free(ptr) =>
  }

  ghost predicate LegalRun(k: Kernel, calls: seq<Call>)
    requires Ready(k)
    decreases |calls|
  {
    calls == [] || (Legal(k, calls[0]) && (StepReady(k, calls[0]); LegalRun(Step(k, calls[0]), calls[1..])))
  }

  ghost function Run(k: Kernel, calls: seq<Call>): Kernel
    requires Ready(k) && LegalRun(k, calls)
    decreases |calls|
  {
    if calls == [] then k
    else
      StepReady(k, calls[0]);
      Run(Step(k, calls[0]), calls[1..])
  }

  // ------------------------------------------------- no frame is ever given back

  /** Blocks are in address order, apart, and below every frame that is left. */
  ghost predicate BelowFree(k: Kernel) {
    && Ready(k) && 0 in k.world.frames.used && Ascending(k.blocks) && Placed(k.blocks)
    && BlocksBelow(k.blocks, k.world.frames)
  }

  ghost predicate BlocksBelow(bs: seq<Block>, fs: Frames) {
    forall b, g :: b in bs && 0 <= g < fs.limit && g !in fs.used ==> b.End() <= g * PAGE
  }

  /** The free frames of fs' were free in fs. */
  ghost predicate OnlyTakes(fs: Frames, fs': Frames) {
    fs.used <= fs'.used && fs'.limit == fs.limit
  }

  lemma BlocksStayBelow(bs: seq<Block>, bs': seq<Block>, fs: Frames, fs': Frames)
    requires BlocksBelow(bs, fs) && OnlyTakes(fs, fs')
    requires forall b' :: b' in bs' ==> exists b :: b in bs && b'.End() <= b.End()
    ensures BlocksBelow(bs', fs')
  {}

  lemma TakeOnly(fs: Frames)
    ensures OnlyTakes(fs, Take(fs))
    ensures Lowest(fs).Some? ==> UsedBelow(Take(fs), Lowest(fs).value + 1)
  {}

  lemma StillBelow(fs: Frames, fs': Frames, n: nat)
    requires UsedBelow(fs, n) && OnlyTakes(fs, fs')
    ensures UsedBelow(fs', n)
  {}

  /** Everything the growth loop obtains, and the row from its first frame on, lies below
      the frames it leaves free. */
  lemma {:induction false} GrabBelow(w: World, k: nat, grant: Grant)
    requires Obtains(w, k, grant) && 0 in w.frames.used
    ensures OnlyTakes(w.frames, grant.world.frames)
    ensures grant.frames != [] ==>
              var end := grant.frames[0] / PAGE + |grant.frames|;
              && grant.frames[0] == TakenPtr(w.frames) > 0 && grant.frames[0] % PAGE == 0
              && end <= w.frames.limit && UsedBelow(grant.world.frames, end)
    decreases k
  {
    NullIff(w.frames);
    if k == 0 || TakenPtr(w.frames) == 0 {
      GrabRefused(w, k, grant);
      TakeOnly(w.frames);
    } else {
      var p := TakenPtr(w.frames);
      var w1 := w.(frames := Take(w.frames));
      var w', rest := TakingTurn(w, k, grant);
      MapFrames(w1, p, p, w.pd0);
      TakeOnly(w.frames);
      TakeOnly(w1.frames);
      GrabBelow(w', k - 1, rest);
      StillBelow(Take(w.frames), rest.world.frames, p / PAGE + 1);
      NullIff(w'.frames);
      if rest.frames != [] {
        BeyondUsed(w'.frames, p / PAGE + 1);
      }
    }
  }

  lemma BeyondUsed(fs: Frames, n: nat)
    requires WellFormed(fs) && UsedBelow(fs, n) && TakenPtr(fs) != 0
    ensures TakenPtr(fs) / PAGE >= n
  {
    assert (Lowest(fs).value * PAGE) / PAGE == Lowest(fs).value;
  }

  /** A growth block lies within the row its frames start. */
  lemma GrowthEnds(n: nat, frames: seq<nat>)
    requires n < TWO32 && n % PAGE == 0 && frames != [] && frames[0] % PAGE == 0
    requires 0 < FramesNeeded(n) <= |frames|
    ensures frames[0] + HEADER + n <= (frames[0] / PAGE + |frames|) * PAGE
  {
    FramesHoldRequestIff(n);
  }

  // Every block of bs' ends where some block of bs does, or before.
  ghost predicate EndsWithin(bs: seq<Block>, bs': seq<Block>) {
    forall b' :: b' in bs' ==> exists b :: b in bs && b'.End() <= b.End()
  }

  lemma PlaceEnds(bs: seq<Block>, i: nat, n: nat)
    requires i < |bs| && bs[i].Fits(n)
    ensures EndsWithin(bs, Place(bs, i, n))
  {
    CarveInside(bs[i], n);
    assert bs[i] in bs;
    forall b' | b' in Place(bs, i, n) ensures exists b :: b in bs && b'.End() <= b.End() {
      if b' in Carve(bs[i], n) { assert b'.End() <= bs[i].End(); } else { assert b' in bs; }
    }
  }

  lemma ReleaseEnds(bs: seq<Block>, i: nat)
    requires Ascending(bs) && i < |bs|
    ensures EndsWithin(bs, Coalesce(Freed(bs, i)))
  {
    var f := Freed(bs, i);
    var c := Coalesce(f);
    AscendingFreed(bs, i);
    forall b' | b' in c ensures exists b :: b in bs && b'.End() <= b.End() {
      var k :| 0 <= k < |c| && c[k] == b';
      var x := PassIndex(f, k);
      var y := if MergedAt(f, x) then x + 1 else x;
      if y > x { assert f[x].End() <= f[y].addr; }
      assert bs[y] in bs && b'.End() <= bs[y].End();
    }
  }

  lemma GrowthGoesUpward(k: Kernel, size: nat)
    requires BelowFree(k) && size < TWO32 && !FromList(k, size)
    ensures var op := HeapRuns.Alloc(size, Obtained(k, size).frames);
            && GrowsUpward(k.blocks, op)
            && OnlyTakes(k.world.frames, Obtained(k, size).world.frames)
            && (GrownBytes(k.blocks, op) > 0 ==>
                  BlocksBelow([GrownBlock(op)], Obtained(k, size).world.frames))
  {
    var n := RoundUp(size);
    var grant := ObtainsIs(k.world, FramesNeeded(n));
    GrabBelow(k.world, FramesNeeded(n), grant);
    RoundUpAligned(size);
    NullIff(k.world.frames);
    if 0 < FramesNeeded(n) <= |grant.frames| {
      GrowthEnds(n, grant.frames);
      var g := Lowest(k.world.frames).value;
      assert grant.frames[0] == g * PAGE;
      assert forall b :: b in k.blocks ==> b.End() <= g * PAGE;
    }
  }

  /** A call that gives back no frame. */
  predicate Keeps(c: Call) {
    c.Paging? ==> !c.op.FreeFrame?
  }

  lemma PagingTakes(w: World, op: PagingRuns.Op)
    requires WellFormed(w.frames) && w.pd0 < FRAMES && PagingRuns.Legal(w, op) && !op.FreeFrame?
    ensures OnlyTakes(w.frames, PagingRuns.Step(w, op).frames)
  {
    TakeOnly(w.frames);
    if op.Map? { MapFrames(w, op.phys, op.va, op.d); }
  }

  lemma HeapBelowFree(k: Kernel, op: HeapRuns.Op, k': Kernel)
    requires BelowFree(k) && Ready(k') && HeapRuns.Legal(k.blocks, op) && GrowsUpward(k.blocks, op)
    requires k'.blocks == HeapRuns.Step(k.blocks, op) && OnlyTakes(k.world.frames, k'.world.frames)
    requires EndsWithin(k.blocks, k'.blocks) || BlocksBelow(k'.blocks, k'.world.frames)
    ensures BelowFree(k')
  {
    StepUpward(k.blocks, op);
    if EndsWithin(k.blocks, k'.blocks) {
      BlocksStayBelow(k.blocks, k'.blocks, k.world.frames, k'.world.frames);
    }
  }

  lemma AllocBelowFree(k: Kernel, size: nat)
    requires BelowFree(k) && size < TWO32
    ensures BelowFree(Step(k, Call.Alloc(size)))
  {
    var k' := Step(k, Call.Alloc(size));
    var n := RoundUp(size);
    StepReady(k, Call.Alloc(size));
    if FromList(k, size) {
      if size > 0 { PlaceEnds(k.blocks, FirstFit(k.blocks, n), n); }
    } else {
      GrowthGoesUpward(k, size);
      BlocksStayBelow(k.blocks, k.blocks, k.world.frames, k'.world.frames);
    }
    HeapBelowFree(k, HeapRuns.Alloc(size, Obtained(k, size).frames), k');
  }

  lemma StepBelowFree(k: Kernel, c: Call)
    requires BelowFree(k) && Legal(k, c) && Keeps(c)
    ensures BelowFree(Step(k, c))
  {
    StepReady(k, c);
    match c
    case Paging(op) =>
      PagingTakes(k.world, op);
      BlocksStayBelow(k.blocks, k.blocks, k.world.frames, Step(k, c).world.frames);
    case Alloc(size) => AllocBelowFree(k, size);
    case Free(ptr) =>
      if ptr != 0 {
        ReleaseEnds(k.blocks, Find(k.blocks, ptr - HEADER));
      }
      HeapBelowFree(k, HeapRuns.Free(ptr), Step(k, c));
  }

  /** Over every run that gives back no frame, growth goes upward and no two blocks of the
      heap share a byte, whatever gaps its releases merge across. */
  lemma {:induction false} BelowFreeForever(k: Kernel, calls: seq<Call>)
    requires BelowFree(k) && LegalRun(k, calls) && forall i :: 0 <= i < |calls| ==> Keeps(calls[i])
    ensures BelowFree(Run(k, calls))
    decreases |calls|
  {
    if calls != [] {
      StepReady(k, calls[0]);
      StepBelowFree(k, calls[0]);
      BelowFreeForever(Step(k, calls[0]), calls[1..]);
    }
  }

  /** A heap that still tiles its arena, once every frame of the arena has been taken. */
  lemma TiledBelowFree(k: Kernel, f: nat, n: nat)
    requires Ready(k) && 0 < f && f + n <= FRAMES && n == ARENA_PAGES
    requires Tiles(k.blocks, f * PAGE, f * PAGE + ARENA) && UsedBelow(k.world.frames, f + n)
    ensures BelowFree(k)
  {
    TilesAscending(k.blocks, f * PAGE, f * PAGE + ARENA);
  }

  // ------------------------------------------------------- a run that does overlap

  lemma {:induction false} RunAppend(k: Kernel, a: seq<Call>, b: seq<Call>)
    requires Ready(k) && LegalRun(k, a) && Ready(Run(k, a)) && LegalRun(Run(k, a), b)
    ensures LegalRun(k, a + b) && Run(k, a + b) == Run(Run(k, a), b)
    decreases |a|
  {
    if a == [] {
      assert a + b == b;
    } else {
      StepReady(k, a[0]);
      assert (a + b)[1..] == a[1..] + b;
      RunAppend(Step(k, a[0]), a[1..], b);
    }
  }

  lemma OneCall(k: Kernel, c: Call)
    requires Ready(k) && Legal(k, c)
    ensures LegalRun(k, [c]) && Run(k, [c]) == Step(k, c) && Ready(Step(k, c))
  {
    StepReady(k, c);
    assert [c][1..] == [];
  }

  /** pd0 in frame 1, tables below frame 8, a table for the pages from 4096 on, and of the
      frames below 4103 exactly those of `free` are left. */
  ghost predicate Stage(w: World, free: set<nat>) {
    && Inv(w) && w.pd0 == 1 && w.dirs == {1} && (forall f :: f in w.tables ==> f < 8)
    && w.frames.limit >= 4103 && Slot(w.mem, 1, 4).Some?
    && forall b :: 0 <= b < 4103 ==> (b !in w.frames.used <==> b in free)
  }

  lemma PageSlot(f: nat)
    requires 4096 <= f < 4103
    ensures f * PAGE < TWO32 && PdIndex(f * PAGE) == 4
  {}

  /** Growth by two frames, when f and f + 1 are the lowest that are left. */
  lemma StageGrow(w: World, f: nat, free: set<nat>, grant: Grant)
    requires Stage(w, free) && 4096 <= f < 4102 && f in free && f + 1 in free
    requires (forall b :: b in free ==> b == f || b == f + 1) && Obtains(w, 2, grant)
    ensures grant.frames == [f * PAGE, (f + 1) * PAGE] && Stage(grant.world, {})
  {
    LowestIs(w.frames, f);
    PageSlot(f);
    PageSlot(f + 1);
    forall b | f <= b < f + 2 && b * PAGE < TWO32 ensures Slot(w.mem, 1, PdIndex(b * PAGE)).Some? {
      PageSlot(b);
    }
    GrabRow(w, f, 2, grant);
    assert FrameRow(f * PAGE, 2) == [f * PAGE] + FrameRow(f * PAGE + PAGE, 1);
    assert FrameRow(f * PAGE + PAGE, 1) == [f * PAGE + PAGE] + FrameRow(f * PAGE + 2 * PAGE, 0);
  }

  lemma StageFree(w: World, free: set<nat>, f: nat)
    requires Stage(w, free) && 8 <= f < 4103 && f !in free
    ensures PagingRuns.Legal(w, FreeFrame(f)) && Stage(PagingRuns.Step(w, FreeFrame(f)), free + {f})
  {
    StepKeepsInv(w, FreeFrame(f));
  }

  /** Taking frames until all below f are used. */
  lemma {:induction false} TakeUpTo(k: Kernel, f: nat) returns (calls: seq<Call>)
    requires Ready(k) && f <= k.world.frames.limit
    ensures LegalRun(k, calls)
    ensures var t := Run(k, calls);
            && t == k.(world := k.world.(frames := t.world.frames)) && WellFormed(t.world.frames)
            && t.world.frames.limit == k.world.frames.limit && UsedBelow(t.world.frames, f)
            && forall b :: b in t.world.frames.used <==> b in k.world.frames.used || (b < f && b >= 0)
    decreases match Lowest(k.world.frames) case None => 0 case Some(g) => if g < f then f - g else 0
  {
    var fs := k.world.frames;
    if Lowest(fs).None? || Lowest(fs).value >= f {
      calls := [];
    } else {
      var c := Paging(AllocFrame);
      var k' := Step(k, c);
      StepReady(k, c);
      TakeOnly(fs);
      var rest := TakeUpTo(k', f);
      calls := [c] + rest;
      assert calls[1..] == rest;
    }
  }

  // The list of blocks along the run; s is where the arena starts.

  /** All of the arena served but its last page, of which the header leaves less. */
  function Served(s: nat): seq<Block> {
    [Block(s, ARENA - PAGE, false), Block(s + ARENA - PAGE + HEADER, PAGE - 2 * HEADER, true)]
  }

  lemma ArenaServed(s: nat, frames: seq<nat>)
    ensures AllocStep(Fresh(s), ARENA - PAGE, frames).blocks == Served(s)
    ensures FirstFit(Fresh(s), RoundUp(ARENA - PAGE)) < |Fresh(s)|
  {
    var q, rest := FirstServed(s, ARENA - PAGE, frames);
    assert q == ARENA_PAGES - 1;
  }

  /** A page that no block fits is served by growth. */
  lemma PageGrown(bs: seq<Block>, at: nat, frames: seq<nat>)
    requires (forall b :: b in bs ==> !b.Fits(PAGE)) && |frames| == 2 && frames[0] == at
    ensures RoundUp(PAGE) == PAGE && FramesNeeded(PAGE) == 2 && FirstFit(bs, PAGE) == |bs|
    ensures AllocStep(bs, PAGE, frames).blocks == bs + [Block(at, PAGE, false)]
  {}

  /** Releasing the growth block behind the arena's last block merges the two. */
  lemma FarReleased(s: nat, far: nat, near: nat)
    requires far > near > s + ARENA - PAGE + HEADER
    ensures var bs := Served(s) + [Block(far, PAGE, false)] + [Block(near, PAGE, false)];
            Releasable(bs, far + HEADER)
            && FreeStep(bs, far + HEADER)
               == [bs[0], Block(s + ARENA - PAGE + HEADER, 2 * PAGE - HEADER, true), bs[3]]
  {
    var bs := Served(s) + [Block(far, PAGE, false)] + [Block(near, PAGE, false)];
    assert Find(bs[1..][1..], far) == 0 && Find(bs[1..], far) == 1;
    FreeStepAt(bs, 2, far);
    var f := Freed(bs, 2);
    assert f[1..][2..] == [bs[3]] && [bs[3]][1..] == [];
    assert Coalesce([bs[3]]) == [bs[3]];
    assert Coalesce(f[1..]) == [Merge(f[1], f[2])] + Coalesce(f[1..][2..]);
    assert Coalesce(f) == [f[0]] + Coalesce(f[1..]);
  }

  /** One more page is then served across the end of the arena. */
  lemma LastServed(s: nat, b: Block, frames: seq<nat>)
    requires !b.free && b.addr == s + ARENA
    ensures var bs := [Block(s, ARENA - PAGE, false),
                       Block(s + ARENA - PAGE + HEADER, 2 * PAGE - HEADER, true), b];
            !Separated(Used(AllocStep(bs, PAGE, frames).blocks))
  {
    var u, m := Block(s, ARENA - PAGE, false), Block(s + ARENA - PAGE + HEADER, 2 * PAGE - HEADER, true);
    var bs := [u, m, b];
    assert RoundUp(PAGE) == PAGE;
    assert FirstFit(bs[1..], PAGE) == 0 && FirstFit(bs, PAGE) == 1;
    var v := Block(m.addr, PAGE, false);
    var c := PlaceUsed(bs, 1, PAGE);
    assert bs[..1] == [u] && bs[2..] == [b];
    assert Used([u]) == [u] && Used([b]) == [b];
    var used := Used(Place(bs, 1, PAGE));
    assert used == [u] + [c] + [b] && used[1] == c && used[2] == b;
    assert !c.Misses(b);
  }

  lemma Extend(k: Kernel, calls: seq<Call>, c: Call)
    requires Ready(k) && LegalRun(k, calls) && Ready(Run(k, calls)) && Legal(Run(k, calls), c)
    ensures LegalRun(k, calls + [c]) && Run(k, calls + [c]) == Step(Run(k, calls), c)
    ensures Ready(Step(Run(k, calls), c))
  {
    OneCall(Run(k, calls), c);
    RunAppend(k, calls, [c]);
  }

  /** A page served by growth from frames f and f + 1. */
  lemma GrowthCall(k: Kernel, f: nat, free: set<nat>)
    requires Ready(k) && Stage(k.world, free) && 4096 <= f < 4102 && f in free && f + 1 in free
    requires (forall b :: b in free ==> b == f || b == f + 1) && forall b :: b in k.blocks ==> !b.Fits(PAGE)
    ensures var t := Step(k, Call.Alloc(PAGE));
            Stage(t.world, {}) && t.blocks == k.blocks + [Block(f * PAGE, PAGE, false)]
  {
    PageNeeds();
    var grant := ObtainsIs(k.world, 2);
    StageGrow(k.world, f, free, grant);
    PageGrown(k.blocks, f * PAGE, grant.frames);
  }

  lemma PageNeeds()
    ensures RoundUp(PAGE) == PAGE && FramesNeeded(PAGE) == 2
  {}

  /** Frames 4099 and 4100 are given back, one after the other. */
  lemma FreeCalls(k: Kernel)
    requires Ready(k) && Stage(k.world, {})
    ensures Legal(k, Paging(FreeFrame(4099)))
    ensures var t := Step(k, Paging(FreeFrame(4099)));
            && Ready(t) && t.blocks == k.blocks && Legal(t, Paging(FreeFrame(4100)))
            && Stage(Step(t, Paging(FreeFrame(4100))).world, {4099, 4100})
            && Step(t, Paging(FreeFrame(4100))).blocks == k.blocks
  {
    StageFree(k.world, {}, 4099);
    var t := Step(k, Paging(FreeFrame(4099)));
    assert {} + {4099} == {4099};
    StageFree(t.world, {4099}, 4100);
    assert {4099} + {4100} == {4099, 4100};
  }

  /** Everything below frame 4101 is taken. */
  lemma TakeCalls(k: Kernel, free: set<nat>) returns (calls: seq<Call>)
    requires Ready(k) && Stage(k.world, free) && 4101 in free && 4102 in free
    ensures LegalRun(k, calls) && Ready(Run(k, calls)) && Run(k, calls).blocks == k.blocks
    ensures Stage(Run(k, calls).world, {4101, 4102})
  {
    calls := TakeUpTo(k, 4101);
    SameDirectories(k.world, Run(k, calls).world);
  }

  /** From the state right after kheap_init to where the far growth block is released. */
  lemma OverlapCalls(k0: Kernel, s: nat, free: set<nat>) returns (calls: seq<Call>)
    requires Ready(k0) && k0.blocks == Fresh(s) && s == 3 * PAGE
    requires Stage(k0.world, free) && 4101 in free && 4102 in free
    ensures LegalRun(k0, calls)
    ensures Run(k0, calls).blocks == Served(s) + [Block(4101 * PAGE, PAGE, false)] + [Block(4099 * PAGE, PAGE, false)]
    ensures Ready(Run(k0, calls))
  {
    ArenaServed(s, Obtained(k0, ARENA - PAGE).frames);
    OneCall(k0, Call.Alloc(ARENA - PAGE));
    var k1 := Step(k0, Call.Alloc(ARENA - PAGE));
    var takes := TakeCalls(k1, free);
    RunAppend(k0, [Call.Alloc(ARENA - PAGE)], takes);
    calls := [Call.Alloc(ARENA - PAGE)] + takes;
    GrowthCall(Run(k0, calls), 4101, {4101, 4102});
    Extend(k0, calls, Call.Alloc(PAGE));
    calls := calls + [Call.Alloc(PAGE)];
    FreeCalls(Run(k0, calls));
    Extend(k0, calls, Paging(FreeFrame(4099)));
    calls := calls + [Paging(FreeFrame(4099))];
    Extend(k0, calls, Paging(FreeFrame(4100)));
    calls := calls + [Paging(FreeFrame(4100))];
    GrowthCall(Run(k0, calls), 4099, {4099, 4100});
    Extend(k0, calls, Call.Alloc(PAGE));
    calls := calls + [Call.Alloc(PAGE)];
  }

  lemma OverlapEnds(k0: Kernel, s: nat, free: set<nat>) returns (calls: seq<Call>)
    requires Ready(k0) && k0.blocks == Fresh(s) && s == 3 * PAGE
    requires Stage(k0.world, free) && 4101 in free && 4102 in free
    ensures LegalRun(k0, calls) && !Separated(Used(Run(k0, calls).blocks))
  {
    calls := OverlapCalls(k0, s, free);
    FarReleased(s, 4101 * PAGE, 4099 * PAGE);
    Extend(k0, calls, Call.Free(4101 * PAGE + HEADER));
    calls := calls + [Call.Free(4101 * PAGE + HEADER)];
    var k := Run(k0, calls);
    LastServed(s, k.blocks[2], Obtained(k, PAGE).frames);
    Extend(k0, calls, Call.Alloc(PAGE));
    calls := calls + [Call.Alloc(PAGE)];
  }

  lemma FreeAfter(used: set<nat>, used': set<nat>, m: nat) returns (free: set<nat>)
    requires m == 4103 && used' == used + {3, 4, 5, 6, 7}
    requires forall b :: 0 <= b < m ==> (b in used <==> b < 3)
    ensures 4101 in free && 4102 in free && forall b :: 0 <= b < m ==> (b !in used' <==> b in free)
  {
    free := Range(8, m - 8);
  }

  lemma BootStage(w: World, m: nat, n: nat, t: World) returns (free: set<nat>)
    requires AtBoot(w, m) && m == 4103 && n == ARENA_PAGES
    requires ArenaFits(w, 3, n) && t == HeapWorld(w, 3, n)
    ensures Stage(t, free) && 4101 in free && 4102 in free
  {
    BootFrames(w, m, n);
    ArenaSlots(w, m, n, 4);
    free := FreeAfter(w.frames.used, t.frames.used, m);
  }

  /** On a machine of 4128 pages or more, from what kheap_init leaves: a run of the
      kernel's own calls, with every frame handed out by its allocator, after which two
      live blocks of the heap overlap.  It gives frames back; without that there is no such
      run once the arena's frames are taken (BelowFreeForever). */
  lemma GapMergeOverlapsLive(mem: Memory, pages: nat, n: nat) returns (w: World, calls: seq<Call>)
    requires 4128 <= pages < TWO32 / PAGE && n == ARENA_PAGES
    ensures WellFormed(InitFrames(FlatMap(pages))) && w == InitialWorld(mem, InitFrames(FlatMap(pages)))
    ensures ArenaFits(w, 3, n)
    ensures var k0 := Kernel(HeapWorld(w, 3, n), Fresh(3 * PAGE));
            Ready(k0) && LegalRun(k0, calls) && !Separated(Used(Run(k0, calls).blocks))
  {
    w := BootOnFlatMemory(mem, pages, 4103);
    BootArenaFits(w, 4103, n);
    var free := BootStage(w, 4103, n, HeapWorld(w, 3, n));
    calls := OverlapEnds(Kernel(HeapWorld(w, 3, n), Fresh(3 * PAGE)), 3 * PAGE, free);
  }
}
