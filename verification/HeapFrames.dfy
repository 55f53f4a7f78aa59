/**
 The frames the heap's growth takes from the allocator, and the page tables it brings
 about on the way.
 */
module HeapFrames {
  import opened Machine
  import opened FrameSet
  import opened PageTables
  import opened PagingRuns

  datatype Grant = Grant(world: World, frames: seq<nat>)

  /** The growth loop: take a frame, map it to itself, `k` times over or until the
      allocator refuses.  Mapping may itself take a frame for a page table. */
  function Grab(w: World, k: nat): Grant
    requires WellFormed(w.frames) && w.pd0 < FRAMES
    decreases k
  {
    if k == 0 then Grant(w, [])
    else if TakenPtr(w.frames) == 0 then Grant(w.(frames := Take(w.frames)), [])
    else
      NullIff(w.frames);
      var p := TakenPtr(w.frames);
      var mapped := MapPage(w.(frames := Take(w.frames)), p, p, w.pd0);
      var rest := Grab(mapped, k - 1);
      Grant(rest.world, [p] + rest.frames)
  }

  predicate Consecutive(frames: seq<nat>) {
    forall i :: 0 <= i < |frames| ==> frames[i] == frames[0] + i * PAGE
  }

  /** The first k frames from f on are free. */
  predicate FreeRun(fs: Frames, f: nat, k: nat) {
    f + k <= fs.limit && forall b :: f <= b < f + k ==> b !in fs.used
  }

  /** pd0 has a table for each of the first k frames from f on. */
  predicate TablesReady(w: World, f: nat, k: nat)
    requires w.pd0 < FRAMES
  {
    forall b :: f <= b < f + k && b * PAGE < TWO32 ==> Slot(w.mem, w.pd0, PdIndex(b * PAGE)).Some?
  }

  lemma GrabTurn(w: World, k: nat)
    requires WellFormed(w.frames) && w.pd0 < FRAMES && k > 0 && TakenPtr(w.frames) != 0
    ensures var p := TakenPtr(w.frames);
            p < TWO32
            && var w' := MapPage(w.(frames := Take(w.frames)), p, p, w.pd0);
               WellFormed(w'.frames) && w'.pd0 == w.pd0
               && Grab(w, k) == Grant(Grab(w', k - 1).world, [p] + Grab(w', k - 1).frames)
  {
    NullIff(w.frames);
  }

  /** The loop in state w with k frames to go completes `grant`, of which it has i. */
  ghost predicate Remains(grant: Grant, i: nat, w: World, k: nat) {
    && WellFormed(w.frames) && w.pd0 < FRAMES && i <= |grant.frames|
    && Grab(w, k) == Grant(grant.world, grant.frames[i..])
  }

  lemma AllRemains(w: World, k: nat)
    requires WellFormed(w.frames) && w.pd0 < FRAMES
    ensures Remains(Grab(w, k), 0, w, k)
  {
    assert Grab(w, k).frames[0..] == Grab(w, k).frames;
  }

  lemma NoneRemains(grant: Grant, i: nat, w: World)
    requires Remains(grant, i, w, 0)
    ensures w == grant.world && i == |grant.frames|
  {}

  /** One turn of the loop: refused, or one frame further. */
  lemma OneRemains(grant: Grant, i: nat, w: World, k: nat)
    requires k > 0 && Remains(grant, i, w, k)
    ensures TakenPtr(w.frames) == 0 ==> i == |grant.frames| && w.(frames := Take(w.frames)) == grant.world
    ensures TakenPtr(w.frames) != 0 ==>
              var p := TakenPtr(w.frames);
              && p < TWO32 && i < |grant.frames| && grant.frames[i] == p
              && Remains(grant, i + 1, MapPage(w.(frames := Take(w.frames)), p, p, w.pd0), k - 1)
  {
    NullIff(w.frames);
    if TakenPtr(w.frames) != 0 {
      GrabTurn(w, k);
      var s := grant.frames[i..];
      assert s[1..] == grant.frames[i + 1..] && s[0] == grant.frames[i];
    }
  }

  lemma {:induction false} GrabHead(w: World, k: nat)
    requires WellFormed(w.frames) && w.pd0 < FRAMES && k > 0
    ensures var frames := Grab(w, k).frames;
            && (frames == [] <==> TakenPtr(w.frames) == 0)
            && (frames != [] ==> frames[0] == TakenPtr(w.frames))
  {
    if TakenPtr(w.frames) != 0 {
      GrabTurn(w, k);
    }
  }

  /** One turn of the loop when the frame's slot has a table: only that frame goes. */
  lemma GrabStep(w: World)
    requires Inv(w) && w.pd0 < FRAMES && Lowest(w.frames).Some?
    ensures var f := Lowest(w.frames).value;
            && TakenPtr(w.frames) == f * PAGE > 0 && f * PAGE < TWO32
            && Inv(w.(frames := Take(w.frames)))
            && var mapped := MapPage(w.(frames := Take(w.frames)), f * PAGE, f * PAGE, w.pd0);
               && mapped.pd0 == w.pd0
               && (if Slot(w.mem, w.pd0, PdIndex(f * PAGE)).Some?
                   then Inv(mapped) && mapped.frames == Take(w.frames)
                        && forall i :: 0 <= i < ENTRIES ==> Slot(mapped.mem, w.pd0, i) == Slot(w.mem, w.pd0, i)
                   else mapped.frames == Take(Take(w.frames)))
  {
    NullIff(w.frames);
    var f := Lowest(w.frames).value;
    StepKeepsInv(w, AllocFrame);
    var w1 := w.(frames := Take(w.frames));
    if Slot(w.mem, w.pd0, PdIndex(f * PAGE)).Some? {
      MapKeepsInv(w1, f * PAGE, f * PAGE, w.pd0);
      var t := MapEffect(w1, f * PAGE, f * PAGE, w.pd0);
      assert forall i :: 0 <= i < ENTRIES ==> InDir(w1, w.pd0, i);
    }
  }

  /** The growth path assumes the frames it is given lie one after the other.  They do
      exactly when that many frames from the lowest free one on are free and no page
      table has to be made before the last of them. */
  lemma {:induction false} GrabConsecutiveIff(w: World, k: nat)
    requires Inv(w) && w.pd0 < FRAMES && k > 0 && Lowest(w.frames).Some?
    ensures var f := Lowest(w.frames).value;
            |Grab(w, k).frames| == k && Consecutive(Grab(w, k).frames)
            <==> FreeRun(w.frames, f, k) && TablesReady(w, f, k - 1)
    decreases k
  {
    var f := Lowest(w.frames).value;
    GrabStep(w);
    var mapped := MapPage(w.(frames := Take(w.frames)), f * PAGE, f * PAGE, w.pd0);
    GrabFront(w, k);
    if k == 1 {
      OneFrame(mapped, f * PAGE);
    } else if Lowest(mapped.frames) != Some(f + 1) {
      GapAfter(w, mapped, f, k);
      GapMeans(w, k);
    } else {
      GrabNext(w, k);
      GrabConsecutiveIff(mapped, k - 1);
      GrabConsecutiveStep(mapped, f, k);
    }
  }

  lemma OneFrame(w: World, p: nat)
    requires WellFormed(w.frames) && w.pd0 < FRAMES
    ensures var all := [p] + Grab(w, 0).frames; |all| == 1 && Consecutive(all)
  {}

  lemma GrabFront(w: World, k: nat)
    requires Inv(w) && w.pd0 < FRAMES && k > 0 && Lowest(w.frames).Some?
    ensures var f := Lowest(w.frames).value;
            && f * PAGE < TWO32
            && var mapped := MapPage(w.(frames := Take(w.frames)), f * PAGE, f * PAGE, w.pd0);
               WellFormed(mapped.frames) && mapped.pd0 == w.pd0
               && Grab(w, k).frames == [f * PAGE] + Grab(mapped, k - 1).frames
  {
    GrabStep(w);
    GrabTurn(w, k);
  }

  lemma GapAfter(w: World, mapped: World, f: nat, k: nat)
    requires k > 1 && WellFormed(mapped.frames) && mapped.pd0 < FRAMES && Lowest(mapped.frames) != Some(f + 1)
    ensures var all := [f * PAGE] + Grab(mapped, k - 1).frames; !(|all| == k && Consecutive(all))
  {
    var rest := Grab(mapped, k - 1).frames;
    GrabHead(mapped, k - 1);
    NullIff(mapped.frames);
    var all := [f * PAGE] + rest;
    if |all| == k {
      assert all[1] == rest[0] == TakenPtr(mapped.frames) != (f + 1) * PAGE;
    }
  }

  /** What is known of the allocator when the frame after f does not come next. */
  lemma GapMeans(w: World, k: nat)
    requires Inv(w) && w.pd0 < FRAMES && k > 1 && Lowest(w.frames).Some?
    requires var f := Lowest(w.frames).value;
             f * PAGE < TWO32
             && Lowest(MapPage(w.(frames := Take(w.frames)), f * PAGE, f * PAGE, w.pd0).frames) != Some(f + 1)
    ensures var f := Lowest(w.frames).value; !(FreeRun(w.frames, f, k) && TablesReady(w, f, k - 1))
  {
    var f := Lowest(w.frames).value;
    GrabStep(w);
    if Slot(w.mem, w.pd0, PdIndex(f * PAGE)).Some? {
      LowestIsNext(Take(w.frames), f + 1);
    } else {
      assert !TablesReady(w, f, k - 1);
    }
  }

  /** When it does come next, no table was made and the state is the same but for f. */
  lemma GrabNext(w: World, k: nat)
    requires Inv(w) && w.pd0 < FRAMES && k > 1 && Lowest(w.frames).Some?
    requires var f := Lowest(w.frames).value;
             f * PAGE < TWO32
             && Lowest(MapPage(w.(frames := Take(w.frames)), f * PAGE, f * PAGE, w.pd0).frames) == Some(f + 1)
    ensures var f := Lowest(w.frames).value;
            var mapped := MapPage(w.(frames := Take(w.frames)), f * PAGE, f * PAGE, w.pd0);
            && Inv(mapped) && mapped.pd0 == w.pd0
            && TakenPtr(mapped.frames) == (f + 1) * PAGE
            && (FreeRun(w.frames, f, k) <==> FreeRun(mapped.frames, f + 1, k - 1))
            && (TablesReady(w, f, k - 1) <==> TablesReady(mapped, f + 1, k - 2))
  {
    var f := Lowest(w.frames).value;
    GrabStep(w);
    var mapped := MapPage(w.(frames := Take(w.frames)), f * PAGE, f * PAGE, w.pd0);
    if Slot(w.mem, w.pd0, PdIndex(f * PAGE)).Some? {
      FreeRunStep(w, mapped, f, k);
    } else {
      NextAfterTwo(w.frames);
    }
  }

  lemma NextAfterTwo(fs: Frames)
    requires WellFormed(fs) && Lowest(fs).Some?
    ensures var f := Lowest(fs).value; f + 1 in Take(Take(fs)).used || f + 1 >= fs.limit
  {
    var f := Lowest(fs).value;
    if f + 1 < fs.limit && f + 1 !in fs.used {
      LowestIs(Take(fs), f + 1);
    }
  }

  lemma LowestIsNext(fs: Frames, b: nat)
    requires forall c :: 0 <= c < b ==> c in fs.used
    requires Lowest(fs) != Some(b)
    ensures b in fs.used || b >= fs.limit
  {
    if b !in fs.used && b < fs.limit {
      LowestIs(fs, b);
    }
  }

  lemma ConsecutiveCons(a: nat, rest: seq<nat>)
    requires rest != [] && rest[0] == a + PAGE
    ensures Consecutive([a] + rest) <==> Consecutive(rest)
  {
    var all := [a] + rest;
    if Consecutive(all) {
      forall i | 0 <= i < |rest| ensures rest[i] == rest[0] + i * PAGE {
        assert rest[i] == all[i + 1];
      }
    }
  }

  lemma GrabConsecutiveStep(mapped: World, f: nat, k: nat)
    requires k > 1 && WellFormed(mapped.frames) && mapped.pd0 < FRAMES && TakenPtr(mapped.frames) == (f + 1) * PAGE
    ensures var rest := Grab(mapped, k - 1).frames;
            |[f * PAGE] + rest| == k && Consecutive([f * PAGE] + rest) <==> |rest| == k - 1 && Consecutive(rest)
  {
    GrabHead(mapped, k - 1);
    ConsecutiveCons(f * PAGE, Grab(mapped, k - 1).frames);
  }

  lemma FreeRunStep(w: World, mapped: World, f: nat, k: nat)
    requires w.pd0 < FRAMES && mapped.pd0 == w.pd0 && k > 1
    requires Lowest(w.frames) == Some(f) && mapped.frames == Take(w.frames)
    requires f * PAGE < TWO32 && Slot(w.mem, w.pd0, PdIndex(f * PAGE)).Some?
    requires forall i :: 0 <= i < ENTRIES ==> Slot(mapped.mem, w.pd0, i) == Slot(w.mem, w.pd0, i)
    ensures FreeRun(w.frames, f, k) <==> FreeRun(mapped.frames, f + 1, k - 1)
    ensures TablesReady(w, f, k - 1) <==> TablesReady(mapped, f + 1, k - 2)
  {}

  // ------------------------------------------- what growth does to the page tables

  /** Every turn of the loop that takes a frame finds another for the table it needs. */
  ghost predicate TablesFound(w: World, k: nat)
    requires WellFormed(w.frames) && w.pd0 < FRAMES
    decreases k
  {
    k == 0 || TakenPtr(w.frames) == 0 ||
      (NullIff(w.frames);
       var p, w1 := TakenPtr(w.frames), w.(frames := Take(w.frames));
       CanMap(w1, p, w.pd0) && TablesFound(MapPage(w1, p, p, w.pd0), k - 1))
  }

  lemma GrabTurnInv(w: World) returns (w1: World)
    requires Inv(w) && w.pd0 < FRAMES && TakenPtr(w.frames) != 0
    ensures w1 == w.(frames := Take(w.frames)) && Inv(w1) && w1.pd0 == w.pd0 && TakenPtr(w.frames) < TWO32
    ensures CanMap(w1, TakenPtr(w.frames), w.pd0) ==>
              Inv(MapPage(w1, TakenPtr(w.frames), TakenPtr(w.frames), w.pd0))
    ensures !CanMap(w1, TakenPtr(w.frames), w.pd0) ==>
              0 in MapPage(w1, TakenPtr(w.frames), TakenPtr(w.frames), w.pd0).tables
  {
    NullIff(w.frames);
    StepKeepsInv(w, AllocFrame);
    w1 := w.(frames := Take(w.frames));
    var p := TakenPtr(w.frames);
    if CanMap(w1, p, w.pd0) {
      MapKeepsInv(w1, p, p, w.pd0);
    } else {
      NullIff(w1.frames);
    }
  }

  /** The loop obtains `grant`.  The quantifier has Grab unfolded only where a proof
      names it. */
  ghost predicate Obtains(w: World, k: nat, grant: Grant) {
    WellFormed(w.frames) && w.pd0 < FRAMES && forall j: nat :: j == k ==> grant == Grab(w, j)
  }

  lemma ObtainsIs(w: World, k: nat) returns (grant: Grant)
    requires WellFormed(w.frames) && w.pd0 < FRAMES
    ensures Obtains(w, k, grant) && grant == Grab(w, k)
  {
    grant := Grab(w, k);
  }

  /** The same for TablesFound. */
  ghost predicate Finds(w: World, k: nat, found: bool) {
    WellFormed(w.frames) && w.pd0 < FRAMES && forall j: nat :: j == k ==> (found <==> TablesFound(w, j))
  }

  lemma FindsIs(w: World, k: nat) returns (found: bool)
    requires WellFormed(w.frames) && w.pd0 < FRAMES
    ensures Finds(w, k, found) && found == TablesFound(w, k)
  {
    found := TablesFound(w, k);
  }

  /** `grant` is what the loop obtains; after a first turn that takes p, it goes on from
      w' and obtains `rest`. */
  ghost predicate GoesOn(grant: Grant, k: nat, p: nat, w': World, rest: Grant) {
    && k > 0 && Obtains(w', k - 1, rest)
    && grant.world == rest.world && grant.frames == [p] + rest.frames
  }

  /** A turn that takes a frame. */
  lemma TakingTurn(w: World, k: nat, grant: Grant) returns (w': World, rest: Grant)
    requires Obtains(w, k, grant) && k > 0 && TakenPtr(w.frames) != 0
    ensures TakenPtr(w.frames) < TWO32
    ensures w' == MapPage(w.(frames := Take(w.frames)), TakenPtr(w.frames), TakenPtr(w.frames), w.pd0)
    ensures w'.pd0 == w.pd0 && GoesOn(grant, k, TakenPtr(w.frames), w', rest)
  {
    assert grant == Grab(w, k);
    GrabTurn(w, k);
    w' := MapPage(w.(frames := Take(w.frames)), TakenPtr(w.frames), TakenPtr(w.frames), w.pd0);
    rest := ObtainsIs(w', k - 1);
  }

  lemma ZeroTurn(w: World, k: nat, grant: Grant) returns (w': World, rest: Grant)
    requires Obtains(w, k, grant) && 0 in w.tables && k > 0 && TakenPtr(w.frames) != 0
    ensures GoesOn(grant, k, TakenPtr(w.frames), w', rest) && 0 in w'.tables
  {
    w', rest := TakingTurn(w, k, grant);
  }

  lemma GrabRefused(w: World, k: nat, grant: Grant)
    requires Obtains(w, k, grant) && (k == 0 || TakenPtr(w.frames) == 0)
    ensures grant == Grant(if k == 0 then w else w.(frames := Take(w.frames)), [])
  {
    assert grant == Grab(w, k);
  }

  lemma {:induction false} ZeroStaysInGrab(w: World, k: nat, grant: Grant)
    requires Obtains(w, k, grant) && 0 in w.tables
    ensures 0 in grant.world.tables
    decreases k
  {
    if k == 0 || TakenPtr(w.frames) == 0 {
      GrabRefused(w, k, grant);
    } else {
      var w', rest := ZeroTurn(w, k, grant);
      ZeroStaysInGrab(w', k - 1, rest);
    }
  }

  lemma FoundTurn(w: World, k: nat, found: bool) returns (p: Word, w1: World)
    requires Inv(w) && Finds(w, k, found) && k > 0 && TakenPtr(w.frames) != 0
    ensures p == TakenPtr(w.frames) && w1 == w.(frames := Take(w.frames)) && Inv(w1)
    ensures found ==> CanMap(w1, p, w.pd0)
    ensures CanMap(w1, p, w.pd0) ==> Inv(MapPage(w1, p, p, w.pd0)) && Finds(MapPage(w1, p, p, w.pd0), k - 1, found)
    ensures !CanMap(w1, p, w.pd0) ==> 0 in MapPage(w1, p, p, w.pd0).tables
  {
    assert found <==> TablesFound(w, k);
    w1 := GrabTurnInv(w);
    p := TakenPtr(w.frames);
    if CanMap(w1, p, w.pd0) {
      var again := FindsIs(MapPage(w1, p, p, w.pd0), k - 1);
    }
  }

  lemma RefusedInv(w: World, k: nat, grant: Grant, found: bool)
    requires Inv(w) && Obtains(w, k, grant) && Finds(w, k, found) && (k == 0 || TakenPtr(w.frames) == 0)
    ensures grant == Grant(w, []) && found
  {
    assert found <==> TablesFound(w, k);
    GrabRefused(w, k, grant);
    NullIff(w.frames);
    assert TakenPtr(w.frames) == 0 ==> Take(w.frames) == w.frames;
  }

  lemma {:induction false} InvGrab(w: World, k: nat, grant: Grant, found: bool)
    requires Inv(w) && Obtains(w, k, grant) && Finds(w, k, found)
    ensures Inv(grant.world) <==> found
    decreases k
  {
    if k == 0 || TakenPtr(w.frames) == 0 {
      RefusedInv(w, k, grant, found);
    } else {
      var w', rest := TakingTurn(w, k, grant);
      var p, w1 := FoundTurn(w, k, found);
      if CanMap(w1, p, w.pd0) {
        InvGrab(w', k - 1, rest, found);
      } else {
        ZeroStaysInGrab(w', k - 1, rest);
      }
    }
  }

  /** The growth loop looks at its own frames for NULL, not at those of the tables it
      brings about.  It keeps directories and tables apart exactly when each of them is
      found. */
  lemma GrabKeepsInvIff(w: World, k: nat)
    requires Inv(w) && w.pd0 < FRAMES
    ensures Inv(Grab(w, k).world) <==> TablesFound(w, k)
  {
    var grant := ObtainsIs(w, k);
    var found := FindsIs(w, k);
    InvGrab(w, k, grant, found);
  }

  lemma TranslateTurn(w: World, p: Word, w1: World, x: Word)
    requires Inv(w) && w.pd0 < FRAMES && FreeFramesClear(w)
    requires p == TakenPtr(w.frames) != 0 && w1 == w.(frames := Take(w.frames))
    requires Inv(w1) && CanMap(w1, p, w.pd0)
    ensures FreeFramesClear(MapPage(w1, p, p, w.pd0))
    ensures Translate(MapPage(w1, p, p, w.pd0).mem, w.pd0, x)
            == if x / PAGE * PAGE == p then Some(x) else Translate(w.mem, w.pd0, x)
  {
    NullIff(w.frames);
    FreeFramesStayClear(w1, p, p, w.pd0);
    InvRange(w);
    assert Slot(w.mem, w.pd0, PdIndex(p)).None? ==> ClearBut(w.mem[Lowest(w1.frames).value], ENTRIES);
    MapTranslate(w1, p, p, w.pd0, w.pd0, x);
    assert p == p / PAGE * PAGE;
  }

  lemma {:induction false} TranslateGrab(w: World, k: nat, x: Word, grant: Grant)
    requires Inv(w) && Obtains(w, k, grant) && Finds(w, k, true) && FreeFramesClear(w)
    ensures Translate(grant.world.mem, w.pd0, x)
            == if x / PAGE * PAGE in grant.frames then Some(x) else Translate(w.mem, w.pd0, x)
    decreases k
  {
    if k == 0 || TakenPtr(w.frames) == 0 {
      RefusedInv(w, k, grant, true);
    } else {
      var w', rest := TakingTurn(w, k, grant);
      var p, w1 := FoundTurn(w, k, true);
      TranslateTurn(w, p, w1, x);
      TranslateGrab(w', k - 1, x, rest);
    }
  }

  /** Under that condition, and with free frames clear, every address of every frame the
      growth loop is granted translates to itself afterwards, and every other address as
      before. */
  lemma GrabTranslates(w: World, k: nat, x: Word)
    requires Inv(w) && w.pd0 < FRAMES && TablesFound(w, k) && FreeFramesClear(w)
    ensures var grant := Grab(w, k);
            Translate(grant.world.mem, w.pd0, x)
            == if x / PAGE * PAGE in grant.frames then Some(x) else Translate(w.mem, w.pd0, x)
  {
    var grant := ObtainsIs(w, k);
    var found := FindsIs(w, k);
    TranslateGrab(w, k, x, grant);
  }

  /** The first k frames from f on, as addresses. */
  function FrameRow(at: nat, k: nat): seq<nat>
    decreases k
  {
    if k == 0 then [] else [at] + FrameRow(at + PAGE, k - 1)
  }

  lemma LowestAfter(fs: Frames, f: nat, k: nat)
    requires Lowest(fs) == Some(f) && k > 1 && FreeRun(fs, f, k)
    ensures Lowest(Take(fs)) == Some(f + 1) && FreeRun(Take(fs), f + 1, k - 1)
  {
    LowestIs(Take(fs), f + 1);
  }

  /** From w to t, the frames f to f + k - 1 are taken, and the directory is as it was. */
  ghost predicate RowTaken(w: World, t: World, f: nat, k: nat) {
    && Inv(t) && t.pd0 == w.pd0 < FRAMES && t.tables == w.tables && t.dirs == w.dirs
    && t.frames.limit == w.frames.limit
    && (forall b :: b in t.frames.used <==> b in w.frames.used || f <= b < f + k)
    && forall i :: 0 <= i < ENTRIES ==> Slot(t.mem, w.pd0, i) == Slot(w.mem, w.pd0, i)
  }

  lemma RowTakenOn(w: World, w': World, t: World, f: nat, k: nat)
    requires k > 0 && RowTaken(w, w', f, 1) && RowTaken(w', t, f + 1, k - 1)
    ensures RowTaken(w, t, f, k)
  {}

  lemma RowTurn(w: World, f: nat, k: nat, grant: Grant) returns (w': World, rest: Grant)
    requires Inv(w) && Obtains(w, k, grant) && k > 0 && Lowest(w.frames) == Some(f)
    requires FreeRun(w.frames, f, k) && TablesReady(w, f, k)
    ensures RowTaken(w, w', f, 1) && GoesOn(grant, k, f * PAGE, w', rest) && TablesReady(w', f + 1, k - 1)
    ensures k > 1 ==> Lowest(w'.frames) == Some(f + 1) && FreeRun(w'.frames, f + 1, k - 1)
    ensures k == 1 ==> rest == Grant(w', [])
  {
    GrabStep(w);
    w', rest := TakingTurn(w, k, grant);
    var w1 := w.(frames := Take(w.frames));
    assert Slot(w.mem, w.pd0, PdIndex(f * PAGE)).Some?;
    var t := MapEffect(w1, f * PAGE, f * PAGE, w.pd0);
    assert w.tables + {t} == w.tables;
    if k > 1 {
      LowestAfter(w.frames, f, k);
    } else {
      GrabRefused(w', 0, rest);
    }
  }

  /** With the lowest k free frames in a row and a table ready for each, the growth loop
      takes that row, and nothing else changes in the allocator or the directory. */
  lemma {:induction false} GrabRow(w: World, f: nat, k: nat, grant: Grant)
    requires Inv(w) && Obtains(w, k, grant) && k > 0 && Lowest(w.frames) == Some(f)
    requires FreeRun(w.frames, f, k) && TablesReady(w, f, k)
    ensures grant.frames == FrameRow(f * PAGE, k) && RowTaken(w, grant.world, f, k)
    decreases k
  {
    var w', rest := RowTurn(w, f, k, grant);
    if k > 1 {
      GrabRow(w', f + 1, k - 1, rest);
      RowTakenOn(w, w', rest.world, f, k);
    }
  }
}
