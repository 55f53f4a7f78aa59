/**
 Ranges of mappings: how they compose, which tables they make, and when there are
 frames enough for those.
 */
module PageRanges {
  import opened Machine
  import opened FrameSet
  import opened PageTables
  import opened PagingRuns

  // ------------------------------------------------------ the tables of a range

  /** The tables t has over w stand in frames that were free in w. */
  ghost predicate NewTables(w: World, t: World) {
    && w.tables <= t.tables && w.frames.used <= t.frames.used && t.frames.limit == w.frames.limit
    && forall b :: b in t.tables && b !in w.tables ==> b < w.frames.limit && b !in w.frames.used
  }

  lemma NewTablesAgain(w: World, w': World, t: World)
    requires NewTables(w, w') && NewTables(w', t)
    ensures NewTables(w, t)
  {}

  lemma MapNewTables(w: World, phys: Word, va: Word, d: nat)
    requires Inv(w) && d in w.dirs && d < FRAMES && CanMap(w, va, d)
    ensures NewTables(w, MapPage(w, phys, va, d))
  {
    var t := MapEffect(w, phys, va, d);
  }

  /** Tables made for a range stand in frames that were free before it. */
  lemma {:induction false} RangeTables(w: World, phys: Word, va: Word, n: nat, d: nat)
    requires RangeFits(w, va, n, d)
    ensures NewTables(w, MapPages(w, phys, va, n, d))
    decreases n
  {
    if n > 0 {
      RangeFitsStep(w, phys, va, n, d);
      UnfoldMapPages(w, phys, va, n, d);
      MapNewTables(w, phys, va, d);
      if n > 1 {
        var w' := MapPage(w, phys, va, d);
        RangeTables(w', Wrap(phys + PAGE), Wrap(va + PAGE), n - 1, d);
        NewTablesAgain(w, w', MapPages(w, phys, va, n, d));
      }
    }
  }

  lemma MissingHas(w: World, va: Word, n: nat, d: nat, i: nat)
    requires d < FRAMES && i < ENTRIES && n > 0 && va / PAGE / ENTRIES <= i && i * ENTRIES < va / PAGE + n
    requires Slot(w.mem, d, i).None?
    ensures i in MissingSlots(w, va, n, d)
  {}

  lemma MissingFirst(w: World, va: Word, n: nat, d: nat)
    requires d < FRAMES && n > 0 && Slot(w.mem, d, PdIndex(va)).None?
    ensures PdIndex(va) in MissingSlots(w, va, n, d)
  {
    assert PdIndex(va) == va / PAGE / ENTRIES;
  }

  lemma OnePageMissing(w: World, va: Word, d: nat)
    requires d < FRAMES && Slot(w.mem, d, PdIndex(va)).Some?
    ensures MissingSlots(w, va, 1, d) == {}
  {
    forall i | i in MissingSlots(w, va, 1, d) ensures i == PdIndex(va) {
      assert PdIndex(va) == va / PAGE / ENTRIES;
    }
  }

  lemma MissingPassedOn(w: World, phys: Word, va: Word, n: nat, d: nat)
    requires Inv(w) && d in w.dirs && d < FRAMES && va / PAGE + n <= TWO32 / PAGE && n > 1
    requires Slot(w.mem, d, PdIndex(va)).Some?
    ensures MissingSlots(MapPage(w, phys, va, d), Wrap(va + PAGE), n - 1, d) == MissingSlots(w, va, n, d)
    ensures MapPage(w, phys, va, d).frames == w.frames && MapPage(w, phys, va, d).tables == w.tables
  {
    NextPage(va);
    var t := MapEffect(w, phys, va, d);
    var w' := MapPage(w, phys, va, d);
    assert w.tables + {t} == w.tables;
    var p := va / PAGE;
    assert PdIndex(va) == p / ENTRIES;
    forall i | 0 <= i < ENTRIES
      ensures i in MissingSlots(w', Wrap(va + PAGE), n - 1, d) <==> i in MissingSlots(w, va, n, d)
    {
      assert InDir(w, d, i);
    }
  }

  /** If a range needs a table, the first one made takes the lowest free frame; if it
      needs none, none is made. */
  lemma {:induction false} FirstTable(w: World, phys: Word, va: Word, n: nat, d: nat)
    requires RangeFits(w, va, n, d)
    ensures var t := MapPages(w, phys, va, n, d);
            if MissingSlots(w, va, n, d) == {} then t.tables == w.tables
            else Lowest(w.frames).Some? && Lowest(w.frames).value in t.tables
    decreases n
  {
    if n > 0 {
      RangeFitsStep(w, phys, va, n, d);
      var w' := MapPage(w, phys, va, d);
      UnfoldMapPages(w, phys, va, n, d);
      if Slot(w.mem, d, PdIndex(va)).None? {
        MissingFirst(w, va, n, d);
        FirstTableNow(w, phys, va, n, d);
      } else if n > 1 {
        MissingPassedOn(w, phys, va, n, d);
        FirstTable(w', Wrap(phys + PAGE), Wrap(va + PAGE), n - 1, d);
      } else {
        OnePageMissing(w, va, d);
        var t := MapEffect(w, phys, va, d);
        assert w.tables + {t} == w.tables;
      }
    }
  }

  /** The first table made serves the lowest slot that lacks one. */
  lemma {:induction false} FirstTableSlot(w: World, phys: Word, va: Word, n: nat, d: nat, i: nat)
    requires RangeFits(w, va, n, d) && i in MissingSlots(w, va, n, d)
    requires forall j :: j in MissingSlots(w, va, n, d) ==> i <= j
    ensures Slot(MapPages(w, phys, va, n, d).mem, d, i) == Lowest(w.frames)
    decreases n
  {
    RangeFitsStep(w, phys, va, n, d);
    var w' := MapPage(w, phys, va, d);
    UnfoldMapPages(w, phys, va, n, d);
    if Slot(w.mem, d, PdIndex(va)).None? {
      MissingFirst(w, va, n, d);
      assert PdIndex(va) == va / PAGE / ENTRIES;
      var t := MapEffect(w, phys, va, d);
      assert InDir(w, d, i) && InDir(w', d, i);
      if n > 1 {
        MapPagesKeepsSlots(w', Wrap(phys + PAGE), Wrap(va + PAGE), n - 1, d, d, i);
      }
    } else if n > 1 {
      MissingPassedOn(w, phys, va, n, d);
      FirstTableSlot(w', Wrap(phys + PAGE), Wrap(va + PAGE), n - 1, d, i);
    } else {
      OnePageMissing(w, va, d);
    }
  }

  lemma OneMissing(w: World, va: Word, d: nat, i: nat)
    requires d < FRAMES && i in MissingSlots(w, va, 1, d)
    ensures i == PdIndex(va)
  {
    assert PdIndex(va) == va / PAGE / ENTRIES;
  }

  lemma FillNow(w: World, phys: Word, va: Word, n: nat, d: nat)
    requires RangeFits(w, va, n, d) && n > 0
    ensures Slot(MapPages(w, phys, va, n, d).mem, d, PdIndex(va)).Some?
  {
    RangeFitsStep(w, phys, va, n, d);
    UnfoldMapPages(w, phys, va, n, d);
    var t := MapEffect(w, phys, va, d);
    var w' := MapPage(w, phys, va, d);
    assert InDir(w, d, PdIndex(va)) && InDir(w', d, PdIndex(va));
    if n > 1 {
      MapPagesKeepsSlots(w', Wrap(phys + PAGE), Wrap(va + PAGE), n - 1, d, d, PdIndex(va));
    }
  }

  lemma FillLater(w: World, phys: Word, va: Word, n: nat, d: nat, i: nat, t: World) returns (w1: World)
    requires RangeFits(w, va, n, d) && n > 1 && i in MissingSlots(w, va, n, d) && i != PdIndex(va)
    requires t == MapPages(w, phys, va, n, d)
    ensures RangeFits(w1, Wrap(va + PAGE), n - 1, d) && i in MissingSlots(w1, Wrap(va + PAGE), n - 1, d)
    ensures t == MapPages(w1, Wrap(phys + PAGE), Wrap(va + PAGE), n - 1, d)
  {
    RangeFitsStep(w, phys, va, n, d);
    UnfoldMapPages(w, phys, va, n, d);
    w1 := MapPage(w, phys, va, d);
    if Slot(w.mem, d, PdIndex(va)).Some? {
      MissingPassedOn(w, phys, va, n, d);
    } else {
      MissingFilled(w, phys, va, n, d);
    }
  }

  /** Every slot a range lacks has a table afterwards. */
  lemma {:induction false} RangeFills(w: World, phys: Word, va: Word, n: nat, d: nat, i: nat, t: World)
    requires RangeFits(w, va, n, d) && i in MissingSlots(w, va, n, d) && t == MapPages(w, phys, va, n, d)
    ensures Slot(t.mem, d, i).Some?
    decreases n
  {
    if n == 1 {
      OneMissing(w, va, d, i);
    }
    if i == PdIndex(va) {
      FillNow(w, phys, va, n, d);
    } else {
      var w1 := FillLater(w, phys, va, n, d, i, t);
      RangeFills(w1, Wrap(phys + PAGE), Wrap(va + PAGE), n - 1, d, i, t);
    }
  }

  lemma FirstTableNow(w: World, phys: Word, va: Word, n: nat, d: nat)
    requires RangeFits(w, va, n, d) && n > 0 && Slot(w.mem, d, PdIndex(va)).None?
    ensures Lowest(w.frames).Some? && Lowest(w.frames).value in MapPages(w, phys, va, n, d).tables
  {
    RangeFitsStep(w, phys, va, n, d);
    var t := MapEffect(w, phys, va, d);
    var w' := MapPage(w, phys, va, d);
    UnfoldMapPages(w, phys, va, n, d);
    assert t in w'.tables;
    if n > 1 {
      RangeTables(w', Wrap(phys + PAGE), Wrap(va + PAGE), n - 1, d);
    }
  }

  // ------------------------------------------------------------- enough frames

  /** Once frame 0 counts as a table it always does. */
  lemma {:induction false} ZeroStaysTable(w: World, phys: Word, va: Word, n: nat, d: nat)
    requires d < FRAMES && WellFormed(w.frames) && 0 in w.tables
    ensures 0 in MapPages(w, phys, va, n, d).tables
    decreases n
  {
    if n > 0 {
      NullIff(w.frames);
      UnfoldMapPages(w, phys, va, n, d);
      ZeroStaysTable(MapPage(w, phys, va, d), Wrap(phys + PAGE), Wrap(va + PAGE), n - 1, d);
    }
  }

  /** Filling an empty slot takes it, and nothing else, off the list of missing ones. */
  lemma MissingFilled(w: World, phys: Word, va: Word, n: nat, d: nat)
    requires Inv(w) && d in w.dirs && d < FRAMES && va / PAGE + n <= TWO32 / PAGE
    requires n > 1 && CanMap(w, va, d) && Slot(w.mem, d, PdIndex(va)).None?
    ensures PdIndex(va) in MissingSlots(w, va, n, d)
    ensures MissingSlots(MapPage(w, phys, va, d), Wrap(va + PAGE), n - 1, d)
            == MissingSlots(w, va, n, d) - {PdIndex(va)}
  {
    NextPage(va);
    MissingFirst(w, va, n, d);
    var t := MapEffect(w, phys, va, d);
    var w' := MapPage(w, phys, va, d);
    var p := va / PAGE;
    assert PdIndex(va) == p / ENTRIES;
    forall i | 0 <= i < ENTRIES
      ensures i in MissingSlots(w', Wrap(va + PAGE), n - 1, d)
              <==> i in MissingSlots(w, va, n, d) && i != PdIndex(va)
    {
      assert InDir(w, d, i);
    }
  }

  /** A range that does not wrap keeps directories and tables apart exactly when there is
      a free frame for every table it lacks. */
  lemma {:induction false} RangeFitsIff(w: World, phys: Word, va: Word, n: nat, d: nat)
    requires Inv(w) && d in w.dirs && d < FRAMES && va / PAGE + n <= TWO32 / PAGE
    ensures Inv(MapPages(w, phys, va, n, d)) <==> |MissingSlots(w, va, n, d)| <= |Available(w.frames)|
    decreases n
  {
    if RangeFits(w, va, n, d) {
      MapPagesKeepsInv(w, phys, va, n, d);
    } else if !CanMap(w, va, d) {
      FirstPageFails(w, phys, va, n, d);
    } else {
      var w1 := RangeLacks(w, phys, va, n, d);
      RangeFitsIff(w1, Wrap(phys + PAGE), Wrap(va + PAGE), n - 1, d);
    }
  }

  lemma FirstPageFails(w: World, phys: Word, va: Word, n: nat, d: nat)
    requires d < FRAMES && WellFormed(w.frames) && n > 0 && !CanMap(w, va, d)
    ensures !Inv(MapPages(w, phys, va, n, d))
  {
    NullIff(w.frames);
    UnfoldMapPages(w, phys, va, n, d);
    ZeroStaysTable(MapPage(w, phys, va, d), Wrap(phys + PAGE), Wrap(va + PAGE), n - 1, d);
  }

  /** A page that can be mapped leaves a range as short of frames as it was. */
  lemma RangeLacks(w: World, phys: Word, va: Word, n: nat, d: nat) returns (w1: World)
    requires Inv(w) && d in w.dirs && d < FRAMES && va / PAGE + n <= TWO32 / PAGE && CanMap(w, va, d)
    requires |MissingSlots(w, va, n, d)| > |Available(w.frames)|
    ensures n > 1 && Inv(w1) && w1.dirs == w.dirs && Wrap(va + PAGE) / PAGE == va / PAGE + 1
    ensures MapPages(w, phys, va, n, d) == MapPages(w1, Wrap(phys + PAGE), Wrap(va + PAGE), n - 1, d)
    ensures |MissingSlots(w1, Wrap(va + PAGE), n - 1, d)| > |Available(w1.frames)|
  {
    if n <= 1 { OneFits(w, va, n, d); }
    NextPage(va);
    MapKeepsInv(w, phys, va, d);
    UnfoldMapPages(w, phys, va, n, d);
    var t := MapEffect(w, phys, va, d);
    w1 := MapPage(w, phys, va, d);
    if Slot(w.mem, d, PdIndex(va)).None? {
      MissingFilled(w, phys, va, n, d);
      AvailableAfterTake(w.frames);
    } else {
      MissingPassedOn(w, phys, va, n, d);
    }
  }

  lemma OneFits(w: World, va: Word, n: nat, d: nat)
    requires d < FRAMES && CanMap(w, va, d) && n <= 1
    ensures |MissingSlots(w, va, n, d)| <= |Available(w.frames)|
  {
    var s := MissingSlots(w, va, n, d);
    if n == 0 {
      assert s == {};
    } else if Slot(w.mem, d, PdIndex(va)).None? {
      assert PdIndex(va) == va / PAGE / ENTRIES;
      assert s <= {PdIndex(va)};
      SubsetSize(s, {PdIndex(va)});
      assert Lowest(w.frames).value in Available(w.frames);
    } else {
      OnePageMissing(w, va, d);
    }
  }

  // ------------------------------------------------ which frames the tables take

  /** The allocator after k frames have been taken. */
  function TakeMany(fs: Frames, k: nat): Frames
    decreases k
  {
    if k == 0 then fs else TakeMany(Take(fs), k - 1)
  }

  lemma OnlyMissing(w: World, va: Word, d: nat)
    requires d < FRAMES && Slot(w.mem, d, PdIndex(va)).None?
    ensures MissingSlots(w, va, 1, d) == {PdIndex(va)}
  {
    assert PdIndex(va) == va / PAGE / ENTRIES;
  }

  lemma LastTakes(w: World, phys: Word, va: Word, d: nat)
    requires RangeFits(w, va, 1, d)
    ensures MapPages(w, phys, va, 1, d).frames == TakeMany(w.frames, |MissingSlots(w, va, 1, d)|)
  {
    RangeFitsStep(w, phys, va, 1, d);
    UnfoldMapPages(w, phys, va, 1, d);
    var t := MapEffect(w, phys, va, d);
    if Slot(w.mem, d, PdIndex(va)).Some? {
      OnePageMissing(w, va, d);
    } else {
      OnlyMissing(w, va, d);
      assert TakeMany(w.frames, 1) == TakeMany(Take(w.frames), 0);
    }
  }

  /** Mapping a page takes a frame exactly when it fills a missing slot of the range. */
  lemma TurnTakes(w: World, phys: Word, va: Word, n: nat, d: nat, fs: Frames) returns (w1: World, k: nat)
    requires RangeFits(w, va, n, d) && n > 1 && fs == MapPages(w, phys, va, n, d).frames
    ensures RangeFits(w1, Wrap(va + PAGE), n - 1, d) && k == |MissingSlots(w1, Wrap(va + PAGE), n - 1, d)|
    ensures fs == MapPages(w1, Wrap(phys + PAGE), Wrap(va + PAGE), n - 1, d).frames
    ensures TakeMany(w.frames, |MissingSlots(w, va, n, d)|) == TakeMany(w1.frames, k)
  {
    RangeFitsStep(w, phys, va, n, d);
    UnfoldMapPages(w, phys, va, n, d);
    var t := MapEffect(w, phys, va, d);
    w1 := MapPage(w, phys, va, d);
    k := |MissingSlots(w1, Wrap(va + PAGE), n - 1, d)|;
    if Slot(w.mem, d, PdIndex(va)).Some? {
      MissingPassedOn(w, phys, va, n, d);
    } else {
      MissingFilled(w, phys, va, n, d);
      assert |MissingSlots(w, va, n, d)| == k + 1;
    }
  }

  /** Mapping a range takes one frame, the lowest free one, for each slot it lacks. */
  lemma {:induction false} RangeTakes(w: World, phys: Word, va: Word, n: nat, d: nat, fs: Frames)
    requires RangeFits(w, va, n, d) && n > 0 && fs == MapPages(w, phys, va, n, d).frames
    ensures fs == TakeMany(w.frames, |MissingSlots(w, va, n, d)|)
    decreases n
  {
    if n == 1 {
      LastTakes(w, phys, va, d);
    } else {
      var w1, k := TurnTakes(w, phys, va, n, d, fs);
      RangeTakes(w1, Wrap(phys + PAGE), Wrap(va + PAGE), n - 1, d, fs);
    }
  }
}
