/**
 What mapping, unmapping and copying do to translation, and what every run of the
 paging and frame routines keeps.
 */
module PagingRuns {
  import opened Machine
  import opened FrameSet
  import opened PageTables

  // ------------------------------------------------------- effect of one call

  lemma MapEffect(w: World, phys: Word, va: Word, d: nat) returns (t: nat)
    requires Inv(w) && d in w.dirs && d < FRAMES && CanMap(w, va, d)
    ensures t < FRAMES && t !in w.dirs && t != 0
    ensures var w' := MapPage(w, phys, va, d);
            && w'.tables == w.tables + {t} && w'.dirs == w.dirs && w'.pd0 == w.pd0
            && (if Slot(w.mem, d, PdIndex(va)).Some?
                then t in w.tables && Slot(w.mem, d, PdIndex(va)) == Some(t) && w'.frames == w.frames
                else Lowest(w.frames) == Some(t) && t !in w.tables && w'.frames == Take(w.frames))
            && (forall e, i :: InDir(w, e, i) ==>
                  Slot(w'.mem, e, i) == if e == d && i == PdIndex(va) then Some(t) else Slot(w.mem, e, i))
            && (forall f :: 0 <= f < FRAMES && f != t && f !in w.dirs ==> w'.mem[f] == w.mem[f])
            && w'.mem[t] == w.mem[t][PtIndex(va) := Entry(phys)]
  {
    t := MapShape(w, phys, va, d);
    var e := SlotEntry(w, va, d, t);
    var linked := Put(w.mem, d, PdIndex(va), e);
    assert linked[t] == w.mem[t];
  }

  /** Mapping keeps directories and tables in distinct used frames exactly when a frame
      is left for a table or none is needed: otherwise frame 0 becomes a table. */
  lemma MapKeepsInvIff(w: World, phys: Word, va: Word, d: nat)
    requires Inv(w) && d in w.dirs && d < FRAMES
    ensures Inv(MapPage(w, phys, va, d)) <==> CanMap(w, va, d)
  {
    NullIff(w.frames);
    if CanMap(w, va, d) {
      MapKeepsInv(w, phys, va, d);
    }
  }

  lemma MapKeepsInv(w: World, phys: Word, va: Word, d: nat)
    requires Inv(w) && d in w.dirs && d < FRAMES && CanMap(w, va, d)
    ensures Inv(MapPage(w, phys, va, d))
  {
    var t := MapEffect(w, phys, va, d);
    var w' := MapPage(w, phys, va, d);
    assert forall e, i :: InDir(w', e, i) <==> InDir(w, e, i);
    if Slot(w.mem, d, PdIndex(va)).Some? {
      assert forall e, i :: InDir(w, e, i) ==> Slot(w'.mem, e, i) == Slot(w.mem, e, i);
      assert forall e, i, f, j :: InDir(w, e, i) && InDir(w, f, j) ==> (Meet(w', e, i, f, j) <==> Meet(w, e, i, f, j));
    } else {
      assert t !in w.frames.used;
      forall e, i, f, j | InDir(w, e, i) && InDir(w, f, j) && Meet(w', e, i, f, j)
        ensures (e == f && i == j) || Meet(w, e, i, f, j)
      {}
    }
  }

  /** Mapping a page is seen by every directory that reaches the same table through
      the slot, and by nothing else, provided a newly taken table frame holds no
      present entry. */
  lemma MapTranslate(w: World, phys: Word, va: Word, d: nat, e: nat, x: Word)
    requires Inv(w) && d in w.dirs && e in w.dirs && d < FRAMES && e < FRAMES && CanMap(w, va, d)
    requires Slot(w.mem, d, PdIndex(va)).Some? || ClearBut(w.mem[Lowest(w.frames).value], PtIndex(va))
    ensures var w' := MapPage(w, phys, va, d);
            Translate(w'.mem, e, x)
            == if SamePage(x, va) && Slot(w'.mem, e, PdIndex(va)) == Slot(w'.mem, d, PdIndex(va))
               then Some(phys / PAGE * PAGE + x % PAGE)
               else Translate(w.mem, e, x)
  {
    var t := MapEffect(w, phys, va, d);
    var w' := MapPage(w, phys, va, d);
    MapKeepsInv(w, phys, va, d);
    SplitAddress(x, va);
    EntryCoding(phys);
    var i := PdIndex(x);
    assert InDir(w', e, i) && InDir(w', d, PdIndex(va)) && InDir(w, e, i) && InDir(w, d, PdIndex(va));
    if Slot(w'.mem, e, i) == Some(t) {
      assert Meet(w', e, i, d, PdIndex(va));
      assert i == PdIndex(va);
      assert PtIndex(x) != PtIndex(va) ==> Leaf(w'.mem[t], PtIndex(x)) == Leaf(w.mem[t], PtIndex(x));
    } else if Slot(w'.mem, e, i).Some? {
      var s := Slot(w'.mem, e, i).value;
      assert s == Slot(w.mem, e, i).value && s in w.tables;
      assert w'.mem[s] == w.mem[s];
    }
  }

  function PageAt(i: nat, k: nat): Word
    requires i < ENTRIES && k < ENTRIES
  {
    i * 0x40_0000 + k * PAGE
  }

  lemma PageAtSplits(i: nat, k: nat)
    requires i < ENTRIES && k < ENTRIES
    ensures PdIndex(PageAt(i, k)) == i && PtIndex(PageAt(i, k)) == k && PageAt(i, k) % PAGE == 0
  {
    assert PageAt(i, k) / PAGE == i * ENTRIES + k && PageAt(i, k) % PAGE == 0;
  }

  /** Two mappings through two empty slots of a directory: what the first one's table
      holds in the end.  With no frame left, both tables are frame 0. */
  lemma TwoMappings(w: World, phys: Word, va: Word, phys': Word, va': Word, d: nat) returns (t: nat)
    requires Inv(w) && d in w.dirs && d < FRAMES && PdIndex(va) != PdIndex(va')
    requires Slot(w.mem, d, PdIndex(va)).None? && Slot(w.mem, d, PdIndex(va')).None?
    ensures t < FRAMES
    ensures var w1 := MapPage(w, phys, va, d);
            WellFormed(w1.frames)
            && var w2 := MapPage(w1, phys', va', d);
               && Slot(w1.mem, d, PdIndex(va)) == Slot(w2.mem, d, PdIndex(va)) == Some(t)
               && w1.mem[t] == w.mem[t][PtIndex(va) := Entry(phys)]
               && w2.mem[t] == if Full(w.frames) then w1.mem[t][PtIndex(va') := Entry(phys')] else w1.mem[t]
  {
    InvRange(w);
    NullIff(w.frames);
    var w1 := MapPage(w, phys, va, d);
    NullIff(w1.frames);
    var t' := TakenPtr(w1.frames) / PAGE;
    t := TakenPtr(w.frames) / PAGE;
    EntryCoding(t * PAGE); EntryCoding(t' * PAGE);
    assert t != d && t' != d;
    assert Slot(w1.mem, d, PdIndex(va')).None?;
    assert t == t' <==> Full(w.frames);
  }

  lemma LeafWritten(t: Table, k: nat, phys: Word, j: nat)
    requires k < ENTRIES && j < ENTRIES
    ensures Leaf(t[k := Entry(phys)], j) == if j == k then Some(phys / PAGE) else Leaf(t, j)
  {
    EntryCoding(phys);
  }

  /** One entry written into the table behind a slot: which translations remain. */
  lemma SlotKeptIff(m: Memory, m': Memory, d: nat, i: nat, t: nat, k: nat, phys: Word)
    requires d < FRAMES && i < ENTRIES && t < FRAMES && k < ENTRIES
    requires Slot(m, d, i) == Slot(m', d, i) == Some(t) && m'[t] == m[t][k := Entry(phys)]
    ensures (forall x: Word :: PdIndex(x) == i ==> Translate(m', d, x) == Translate(m, d, x))
            <==> Translate(m, d, PageAt(i, k)) == Some(phys / PAGE * PAGE)
    ensures forall x: Word :: PdIndex(x) == i ==>
              Translate(m', d, x)
              == if PtIndex(x) == k then Some(phys / PAGE * PAGE + x % PAGE) else Translate(m, d, x)
  {
    forall x: Word | PdIndex(x) == i
      ensures Translate(m', d, x)
              == if PtIndex(x) == k then Some(phys / PAGE * PAGE + x % PAGE) else Translate(m, d, x)
    {
      LeafWritten(m[t], k, phys, PtIndex(x));
    }
    PageAtSplits(i, k);
  }

  /** Exhaustion is not checked: with no frame left the table "allocated" is frame 0.  Of
      two pages mapped through two empty slots, the first keeps its translation exactly
      when a frame was left for its table, or the pages differ in their table position,
      or they lead to one frame.  The whole first slot keeps its translations exactly
      when a frame was left, or the second mapping says nothing new there. */
  lemma ExhaustionIff(w: World, phys: Word, va: Word, phys': Word, va': Word, d: nat)
    requires Inv(w) && d in w.dirs && d < FRAMES && PdIndex(va) != PdIndex(va')
    requires Slot(w.mem, d, PdIndex(va)).None? && Slot(w.mem, d, PdIndex(va')).None?
    ensures var w1 := MapPage(w, phys, va, d);
            WellFormed(w1.frames)
            && var w2 := MapPage(w1, phys', va', d);
               && (Translate(w2.mem, d, va) == Some(phys / PAGE * PAGE + va % PAGE)
                   <==> !Full(w.frames) || PtIndex(va) != PtIndex(va') || SamePage(phys, phys'))
               && ((forall x: Word :: PdIndex(x) == PdIndex(va) ==> Translate(w2.mem, d, x) == Translate(w1.mem, d, x))
                   <==> !Full(w.frames)
                        || Translate(w1.mem, d, PageAt(PdIndex(va), PtIndex(va'))) == Some(phys' / PAGE * PAGE))
  {
    var t := TwoMappings(w, phys, va, phys', va', d);
    var w1 := MapPage(w, phys, va, d);
    var w2 := MapPage(w1, phys', va', d);
    LeafWritten(w.mem[t], PtIndex(va), phys, PtIndex(va));
    assert Translate(w1.mem, d, va) == Some(phys / PAGE * PAGE + va % PAGE);
    if Full(w.frames) {
      SlotKeptIff(w1.mem, w2.mem, d, PdIndex(va), t, PtIndex(va'), phys');
    }
  }

  /** No entry of the table is present, other than possibly entry k. */
  predicate ClearBut(t: Table, k: nat) {
    forall j :: 0 <= j < ENTRIES && j != k ==> Leaf(t, j).None?
  }

  /** A fresh table is not cleared by the code.  Populating an empty slot leaves every
      other page of the directory untranslated as before exactly when the frame taken
      for the table happens to hold no present entry elsewhere. */
  lemma FreshTableIff(w: World, phys: Word, va: Word, d: nat)
    requires Inv(w) && d in w.dirs && d < FRAMES && CanMap(w, va, d)
    requires Slot(w.mem, d, PdIndex(va)).None?
    ensures (forall x: Word :: !SamePage(x, va) ==>
               Translate(MapPage(w, phys, va, d).mem, d, x) == Translate(w.mem, d, x))
            <==> ClearBut(w.mem[Lowest(w.frames).value], PtIndex(va))
  {
    var t := MapEffect(w, phys, va, d);
    var w' := MapPage(w, phys, va, d);
    var i := PdIndex(va);
    assert InDir(w, d, i);
    if ClearBut(w.mem[t], PtIndex(va)) {
      forall x: Word | !SamePage(x, va) ensures Translate(w'.mem, d, x) == Translate(w.mem, d, x) {
        MapTranslate(w, phys, va, d, d, x);
      }
    } else {
      var k :| 0 <= k < ENTRIES && k != PtIndex(va) && Leaf(w.mem[t], k).Some?;
      var x := PageAt(i, k);
      PageAtSplits(i, k);
      SplitAddress(x, va);
      assert Leaf(w'.mem[t], k) == Leaf(w.mem[t], k);
      assert Translate(w'.mem, d, x).Some? && Translate(w.mem, d, x).None?;
    }
  }

  /** Unmapping takes the page away from every directory that reaches the same table
      and changes no other translation. */
  lemma UnmapTranslate(w: World, va: Word, d: nat, e: nat, x: Word)
    requires Inv(w) && d in w.dirs && e in w.dirs && d < FRAMES && e < FRAMES
    ensures var w' := UnmapPage(w, va, d);
            && Slot(w'.mem, e, PdIndex(x)) == Slot(w.mem, e, PdIndex(x))
            && Translate(w'.mem, e, x)
               == if SamePage(x, va) && Slot(w.mem, e, PdIndex(va)) == Slot(w.mem, d, PdIndex(va))
                  then None
                  else Translate(w.mem, e, x)
  {
    SplitAddress(x, va);
    assert InDir(w, e, PdIndex(x)) && InDir(w, d, PdIndex(va));
    assert Slot(w.mem, d, PdIndex(va)).Some? ==> Slot(w.mem, d, PdIndex(va)).value in w.tables;
    assert Meet(w, e, PdIndex(x), d, PdIndex(va)) ==> PdIndex(x) == PdIndex(va);
  }

  lemma UnmapKeepsInv(w: World, va: Word, d: nat)
    requires Inv(w) && d in w.dirs && d < FRAMES
    ensures Inv(UnmapPage(w, va, d))
  {
    assert InDir(w, d, PdIndex(va));
    if Slot(w.mem, d, PdIndex(va)).Some? {
      assert Slot(w.mem, d, PdIndex(va)).value in w.tables;
      SameDirectories(w, UnmapPage(w, va, d));
    }
  }

  /** A change that leaves every directory frame, and the roles of frames, alone. */
  lemma SameDirectories(w: World, w': World)
    requires Inv(w) && w'.dirs == w.dirs && w'.tables == w.tables && w'.pd0 == w.pd0
    requires WellFormed(w'.frames) && 0 in w'.frames.used && w.dirs + w.tables <= w'.frames.used
    requires forall d :: d in w.dirs && d < FRAMES ==> w'.mem[d] == w.mem[d]
    ensures Inv(w')
    ensures forall d, i :: InDir(w, d, i) ==> InDir(w', d, i) && Slot(w'.mem, d, i) == Slot(w.mem, d, i)
  {
    InvRange(w);
    assert forall d, i :: InDir(w', d, i) <==> InDir(w, d, i);
    assert forall d, i, e, j :: InDir(w, d, i) && InDir(w, e, j) ==> (Meet(w', d, i, e, j) <==> Meet(w, d, i, e, j));
  }

  /** Unmap undoes a map of an unmapped page, in every directory and at every address. */
  lemma UnmapUndoesMap(w: World, phys: Word, va: Word, d: nat, e: nat, x: Word)
    requires Inv(w) && d in w.dirs && e in w.dirs && d < FRAMES && e < FRAMES && CanMap(w, va, d)
    requires Slot(w.mem, d, PdIndex(va)).Some? || ClearBut(w.mem[Lowest(w.frames).value], PtIndex(va))
    requires Translate(w.mem, d, va).None?
    ensures Translate(UnmapPage(MapPage(w, phys, va, d), va, d).mem, e, x) == Translate(w.mem, e, x)
  {
    var w' := MapPage(w, phys, va, d);
    var t := MapEffect(w, phys, va, d);
    MapKeepsInv(w, phys, va, d);
    MapTranslate(w, phys, va, d, e, x);
    UnmapTranslate(w', va, d, e, x);
    SplitAddress(x, va);
    assert InDir(w, e, PdIndex(va)) && InDir(w, d, PdIndex(va));
  }

  lemma NewDirectoryKeepsInv(w: World)
    requires Inv(w) && w.pd0 < FRAMES
    ensures Inv(NewDirectory(w))
  {
    if Lowest(w.frames).Some? {
      var d := Lowest(w.frames).value;
      var w' := NewDirectory(w);
      InvRange(w);
      assert d !in w.dirs + w.tables && d != 0;
      assert forall e, i :: InDir(w', e, i) ==>
        Slot(w'.mem, e, i) == Slot(w.mem, if e == d then w.pd0 else e, i);
      forall e, i, f, j | InDir(w', e, i) && InDir(w', f, j) && Meet(w', e, i, f, j)
        ensures i == j
      {
        var e', f' := if e == d then w.pd0 else e, if f == d then w.pd0 else f;
        assert InDir(w, e', i) && InDir(w, f', j) && Meet(w, e', i, f', j);
      }
      forall e, i, f | InDir(w', e, i) && InDir(w', f, i) && e != f && Meet(w', e, i, f, i)
        ensures Slot(w'.mem, w'.pd0, i) == Slot(w'.mem, e, i)
      {
        if e != d && f != d { assert InDir(w, e, i) && InDir(w, f, i) && Meet(w, e, i, f, i); }
      }
      forall e, i | InDir(w', e, i) && Slot(w'.mem, e, i).Some?
        ensures Slot(w'.mem, e, i).value in w'.tables
      {
        assert InDir(w, if e == d then w.pd0 else e, i);
      }
    }
  }

  /** A new directory translates every address exactly as pd0 does. */
  lemma NewDirectoryTranslatesAlike(w: World, va: Word)
    requires Inv(w) && w.pd0 < FRAMES && Lowest(w.frames).Some?
    ensures var d := Lowest(w.frames).value;
            && d !in w.dirs + w.tables && d in NewDirectory(w).dirs
            && Translate(NewDirectory(w).mem, d, va) == Translate(w.mem, w.pd0, va)
            && Translate(NewDirectory(w).mem, w.pd0, va) == Translate(w.mem, w.pd0, va)
  {
    var d := Lowest(w.frames).value;
    assert InDir(w, w.pd0, PdIndex(va));
    assert Slot(w.mem, w.pd0, PdIndex(va)).Some? ==> Slot(w.mem, w.pd0, PdIndex(va)).value in w.tables;
  }

  // -------------------------------------------------------------------- runs

  /** One call of a routine, or one store by anyone else.  Table frames are never
      freed and nobody else writes into directories or tables. */
  datatype Op =
    | AllocFrame
    | FreeFrame(f: nat)
    | Store(f: nat, i: nat, v: Word)
    | NewDir
    | Map(phys: Word, va: Word, d: nat)
    | Unmap(va: Word, d: nat)

  predicate Legal(w: World, op: Op) {
    match op
    case AllocFrame => true
    case FreeFrame(f) => 0 < f < w.frames.limit && f !in w.dirs + w.tables
    case Store(f, i, v) => f < FRAMES && i < ENTRIES && f !in w.dirs + w.tables
    case NewDir => true
    case Map(phys, va, d) => d in w.dirs && d < FRAMES && CanMap(w, va, d)
    case Unmap(va, d) => d in w.dirs && d < FRAMES
  }

  function Step(w: World, op: Op): World
    requires w.pd0 < FRAMES && WellFormed(w.frames) && Legal(w, op)
  {
    match op
    case AllocFrame => w.(frames := Take(w.frames))
    case FreeFrame(f) => w.(frames := Give(w.frames, f))
    case Store(f, i, v) => w.(mem := Put(w.mem, f, i, v))
    case NewDir => NewDirectory(w)
    case Map(phys, va, d) => MapPage(w, phys, va, d)
    case Unmap(va, d) => UnmapPage(w, va, d)
  }

  ghost predicate LegalRun(w: World, ops: seq<Op>)
    requires Inv(w)
    decreases |ops|
  {
    if ops == [] then true
    else
      InvRange(w);
      Legal(w, ops[0]) && (StepKeepsInv(w, ops[0]); LegalRun(Step(w, ops[0]), ops[1..]))
  }

  ghost function Run(w: World, ops: seq<Op>): World
    requires Inv(w) && LegalRun(w, ops)
    decreases |ops|
  {
    if ops == [] then w
    else
      InvRange(w);
      StepKeepsInv(w, ops[0]);
      Run(Step(w, ops[0]), ops[1..])
  }

  /** Every step keeps the invariant, and a directory or table it creates stands in a
      frame that was free. */
  lemma StepKeepsInv(w: World, op: Op)
    requires Inv(w) && Legal(w, op)
    ensures w.pd0 < FRAMES && Inv(Step(w, op))
    ensures var w' := Step(w, op);
            && w'.pd0 == w.pd0 && w.dirs <= w'.dirs && w.tables <= w'.tables
            && (w'.dirs + w'.tables - (w.dirs + w.tables)) !! w.frames.used
  {
    InvRange(w);
    match op
    case AllocFrame => SameDirectories(w, Step(w, op));
    case FreeFrame(f) => SameDirectories(w, Step(w, op));
    case Store(f, i, v) => SameDirectories(w, Step(w, op));
    case NewDir => NewDirectoryKeepsInv(w);
    case Map(phys, va, d) =>
      MapKeepsInv(w, phys, va, d);
      var t := MapEffect(w, phys, va, d);
    case Unmap(va, d) => UnmapKeepsInv(w, va, d);
  }

  /** A step rewrites a directory or table only as the directory or the table of the
      page it maps or unmaps. */
  lemma StepTouches(w: World, op: Op, f: nat)
    requires Inv(w) && Legal(w, op) && w.pd0 < FRAMES && f in w.dirs + w.tables && f < FRAMES
    ensures Step(w, op).mem[f] != w.mem[f] ==>
              match op
              case Map(phys, va, d) =>
                if f in w.dirs then f == d && Slot(w.mem, d, PdIndex(va)).None?
                else Slot(w.mem, d, PdIndex(va)) == Some(f)
              case Unmap(va, d) => Slot(w.mem, d, PdIndex(va)) == Some(f)
              case _ => false
  {
    InvRange(w);
    if op.Map? {
      var t := MapShape(w, op.phys, op.va, op.d);
      assert InDir(w, op.d, PdIndex(op.va));
      if Slot(w.mem, op.d, PdIndex(op.va)).Some? {
        assert w.mem[op.d][PdIndex(op.va) := w.mem[op.d][PdIndex(op.va)]] == w.mem[op.d];
      }
    }
  }

  /** A populated slot keeps its table. */
  lemma StepKeepsSlot(w: World, op: Op, d: nat, i: nat)
    requires Inv(w) && Legal(w, op) && w.pd0 < FRAMES && InDir(w, d, i) && Slot(w.mem, d, i).Some?
    ensures InDir(Step(w, op), d, i) && Slot(Step(w, op).mem, d, i) == Slot(w.mem, d, i)
  {
    StepKeepsInv(w, op);
    if op.Map? {
      var t := MapEffect(w, op.phys, op.va, op.d);
    } else if op.Unmap? {
      assert InDir(w, op.d, PdIndex(op.va));
    } else {
      StepTouches(w, op, d);
    }
  }

  /** Over every run, all directories and tables occupy distinct used frames. */
  lemma {:induction false} DistinctFrames(w: World, ops: seq<Op>)
    requires Inv(w) && LegalRun(w, ops)
    ensures var t := Run(w, ops);
            && Inv(t) && t.pd0 == w.pd0 && w.dirs <= t.dirs && w.tables <= t.tables
            && t.dirs !! t.tables && t.dirs + t.tables <= t.frames.used
    decreases |ops|
  {
    if ops != [] {
      InvRange(w);
      StepKeepsInv(w, ops[0]);
      DistinctFrames(Step(w, ops[0]), ops[1..]);
    }
  }

  /** A slot two directories share (any slot present when one was copied from pd0) is
      shared for ever: they agree on every address of it after any run. */
  lemma {:induction false} SharedForever(w: World, ops: seq<Op>, d: nat, e: nat, i: nat)
    requires Inv(w) && LegalRun(w, ops) && InDir(w, d, i) && InDir(w, e, i)
    requires Slot(w.mem, d, i).Some? && Slot(w.mem, e, i) == Slot(w.mem, d, i)
    ensures var t := Run(w, ops);
            && Slot(t.mem, d, i) == Slot(t.mem, e, i) == Slot(w.mem, d, i)
            && forall va: Word :: PdIndex(va) == i ==> Translate(t.mem, d, va) == Translate(t.mem, e, va)
    decreases |ops|
  {
    if ops != [] {
      InvRange(w);
      StepKeepsInv(w, ops[0]);
      StepKeepsSlot(w, ops[0], d, i);
      StepKeepsSlot(w, ops[0], e, i);
      SharedForever(Step(w, ops[0]), ops[1..], d, e, i);
    }
  }

  /** Slot i of a directory other than pd0 is empty, or leads elsewhere than pd0's. */
  predicate Private(w: World, d: nat, i: nat)
    requires w.pd0 < FRAMES
  {
    InDir(w, d, i) && d != w.pd0 && !Meet(w, d, i, w.pd0, i)
  }

  lemma StepKeepsPrivate(w: World, op: Op, d: nat, i: nat)
    requires Inv(w) && Legal(w, op) && w.pd0 < FRAMES && Private(w, d, i)
    ensures Private(Step(w, op), d, i)
  {
    StepKeepsInv(w, op);
    assert InDir(w, w.pd0, i);
    if op.Map? {
      var t := MapEffect(w, op.phys, op.va, op.d);
    } else if op.Unmap? {
      UnmapKeepsInv(w, op.va, op.d);
      assert InDir(w, op.d, PdIndex(op.va));
    } else {
      StepTouches(w, op, d);
      StepTouches(w, op, w.pd0);
    }
  }

  /** A slot that was empty when the directory was copied is private once populated:
      after any run no other directory reaches its table through any slot. */
  lemma {:induction false} PrivateForever(w: World, ops: seq<Op>, d: nat, i: nat)
    requires Inv(w) && LegalRun(w, ops) && w.pd0 < FRAMES && Private(w, d, i)
    ensures var t := Run(w, ops);
            && Inv(t) && InDir(t, d, i)
            && forall e, j :: InDir(t, e, j) && e != d ==> !Meet(t, d, i, e, j)
    decreases |ops|
  {
    if ops == [] {
      assert InDir(w, w.pd0, i);
    } else {
      StepKeepsInv(w, ops[0]);
      StepKeepsPrivate(w, ops[0], d, i);
      PrivateForever(Step(w, ops[0]), ops[1..], d, i);
    }
  }

  /** The two sides of a copy: slots present in pd0 are shared, the others private. */
  lemma CopySlots(w: World, i: nat)
    requires Inv(w) && w.pd0 < FRAMES && Lowest(w.frames).Some? && i < ENTRIES
    ensures var d, w' := Lowest(w.frames).value, NewDirectory(w);
            && InDir(w', d, i)
            && (if Slot(w.mem, w.pd0, i).Some? then Meet(w', d, i, w.pd0, i) else Private(w', d, i))
  {}

  // -------------------------------------------------------------- map ranges

  /** Every frame the allocator can still hand out holds no present entry. */
  ghost predicate FreeFramesClear(w: World) {
    forall f :: 0 <= f < w.frames.limit && f < FRAMES && f !in w.frames.used ==> ClearBut(w.mem[f], ENTRIES)
  }

  predicate InRange(va: Word, n: nat, x: Word) {
    va / PAGE <= x / PAGE < va / PAGE + n
  }

  /** Slots of `d` that a range of n pages from `va` needs tables for. */
  function MissingSlots(w: World, va: Word, n: nat, d: nat): set<nat>
    requires d < FRAMES
  {
    set i | 0 <= i < ENTRIES && n > 0 && va / PAGE / ENTRIES <= i && i * ENTRIES < va / PAGE + n
            && Slot(w.mem, d, i).None? :: i
  }

  /** There is a frame for every missing table, and the range does not wrap. */
  ghost predicate RangeFits(w: World, va: Word, n: nat, d: nat) {
    && Inv(w) && d in w.dirs && d < FRAMES
    && va / PAGE + n <= TWO32 / PAGE
    && |MissingSlots(w, va, n, d)| <= |Available(w.frames)|
  }

  lemma AvailableAfterTake(f: Frames)
    requires Lowest(f).Some?
    ensures |Available(Take(f))| == |Available(f)| - 1
  {
    var b := Lowest(f).value;
    assert Available(Take(f)) == Available(f) - {b};
    assert b in Available(f);
  }

  lemma RangeCanMap(w: World, va: Word, n: nat, d: nat)
    requires RangeFits(w, va, n, d) && n > 0
    ensures CanMap(w, va, d)
  {
    if Slot(w.mem, d, PdIndex(va)).None? {
      assert PdIndex(va) == va / PAGE / ENTRIES;
      assert PdIndex(va) in MissingSlots(w, va, n, d);
      assert Available(w.frames) != {};
    }
  }

  /** Mapping one page uses up a free frame exactly when it fills a missing slot. */
  lemma MissingShrinks(w: World, phys: Word, va: Word, n: nat, d: nat)
    requires RangeFits(w, va, n, d) && n > 1 && CanMap(w, va, d)
    ensures var w' := MapPage(w, phys, va, d);
            |MissingSlots(w', Wrap(va + PAGE), n - 1, d)| <= |Available(w'.frames)|
  {
    NextPage(va);
    var t := MapEffect(w, phys, va, d);
    var w' := MapPage(w, phys, va, d);
    assert InDir(w, d, PdIndex(va));
    var missing, missing' := MissingSlots(w, va, n, d), MissingSlots(w', Wrap(va + PAGE), n - 1, d);
    forall i | i in missing' ensures i in missing && i != PdIndex(va) {
      assert InDir(w, d, i);
    }
    if Slot(w.mem, d, PdIndex(va)).None? {
      assert PdIndex(va) == va / PAGE / ENTRIES;
      assert PdIndex(va) in missing;
      SubsetSize(missing', missing - {PdIndex(va)});
      AvailableAfterTake(w.frames);
    } else {
      SubsetSize(missing', missing);
    }
  }

  lemma FreeFramesStayClear(w: World, phys: Word, va: Word, d: nat)
    requires Inv(w) && d in w.dirs && d < FRAMES && CanMap(w, va, d) && FreeFramesClear(w)
    ensures FreeFramesClear(MapPage(w, phys, va, d))
  {
    InvRange(w);
    var t := MapEffect(w, phys, va, d);
    var w' := MapPage(w, phys, va, d);
    forall f | 0 <= f < w'.frames.limit && f < FRAMES && f !in w'.frames.used
      ensures ClearBut(w'.mem[f], ENTRIES)
    {
      assert f !in w.frames.used;
      assert f != t && f !in w.dirs;
      assert w'.mem[f] == w.mem[f];
    }
  }

  lemma RangeFitsStep(w: World, phys: Word, va: Word, n: nat, d: nat)
    requires RangeFits(w, va, n, d) && n > 0
    ensures CanMap(w, va, d)
    ensures var w' := MapPage(w, phys, va, d);
            Inv(w') && w'.dirs == w.dirs && w'.pd0 == w.pd0
            && (n > 1 ==> RangeFits(w', Wrap(va + PAGE), n - 1, d))
  {
    RangeCanMap(w, va, n, d);
    MapKeepsInv(w, phys, va, d);
    if n > 1 {
      NextPage(va);
      MissingShrinks(w, phys, va, n, d);
    }
    var t := MapEffect(w, phys, va, d);
  }

  /** What a range update from `va` to `phys` makes of translating x under d. */
  function RangeTarget(phys: Word, va: Word, x: Word): int {
    (phys / PAGE + (x / PAGE - va / PAGE)) * PAGE + x % PAGE
  }

  /** The first page of a range, under any directory. */
  lemma FirstPage(w: World, phys: Word, va: Word, n: nat, d: nat, e: nat, x: Word)
    requires RangeFits(w, va, n, d) && FreeFramesClear(w) && n > 0 && e in w.dirs && e < FRAMES
    ensures var w' := MapPage(w, phys, va, d);
            Translate(w'.mem, e, x)
            == if SamePage(x, va) && Slot(w'.mem, e, PdIndex(va)) == Slot(w'.mem, d, PdIndex(va))
               then Some(RangeTarget(phys, va, x))
               else Translate(w.mem, e, x)
  {
    RangeCanMap(w, va, n, d);
    InvRange(w);
    assert Slot(w.mem, d, PdIndex(va)).None? ==> ClearBut(w.mem[Lowest(w.frames).value], ENTRIES);
    MapTranslate(w, phys, va, d, e, x);
    assert SamePage(x, va) ==> RangeTarget(phys, va, x) == phys / PAGE * PAGE + x % PAGE;
  }

  lemma {:induction false} MapPagesKeepsInv(w: World, phys: Word, va: Word, n: nat, d: nat)
    requires RangeFits(w, va, n, d)
    ensures var t := MapPages(w, phys, va, n, d); Inv(t) && t.dirs == w.dirs && t.pd0 == w.pd0
    decreases n
  {
    if n > 0 {
      RangeFitsStep(w, phys, va, n, d);
      if n > 1 {
        MapPagesKeepsInv(MapPage(w, phys, va, d), Wrap(phys + PAGE), Wrap(va + PAGE), n - 1, d);
      }
    }
  }

  /** Mapping a range keeps every slot but the empty ones of its own directory. */
  lemma {:induction false} MapPagesKeepsSlots(w: World, phys: Word, va: Word, n: nat, d: nat, e: nat, i: nat)
    requires RangeFits(w, va, n, d) && InDir(w, e, i) && (e != d || Slot(w.mem, d, i).Some?)
    ensures Slot(MapPages(w, phys, va, n, d).mem, e, i) == Slot(w.mem, e, i)
    decreases n
  {
    if n > 0 {
      RangeFitsStep(w, phys, va, n, d);
      UnfoldMapPages(w, phys, va, n, d);
      var t := MapEffect(w, phys, va, d);
      if n > 1 {
        MapPagesKeepsSlots(MapPage(w, phys, va, d), Wrap(phys + PAGE), Wrap(va + PAGE), n - 1, d, e, i);
      }
    }
  }

  /** Whether e reaches d's table for the first page is settled when that is mapped. */
  lemma FirstSlotSettled(w: World, phys: Word, va: Word, n: nat, d: nat, e: nat)
    requires RangeFits(w, va, n, d) && n > 1 && e in w.dirs && e < FRAMES
    ensures var w', t, i := MapPage(w, phys, va, d), MapPages(w, phys, va, n, d), PdIndex(va);
            Slot(t.mem, e, i) == Slot(w'.mem, e, i) && Slot(t.mem, d, i) == Slot(w'.mem, d, i)
  {
    RangeFitsStep(w, phys, va, n, d);
    UnfoldMapPages(w, phys, va, n, d);
    var t := MapEffect(w, phys, va, d);
    var w', i := MapPage(w, phys, va, d), PdIndex(va);
    assert InDir(w, d, i) && InDir(w, e, i);
    assert InDir(w', d, i) && InDir(w', e, i);
    MapPagesKeepsSlots(w', Wrap(phys + PAGE), Wrap(va + PAGE), n - 1, d, d, i);
    MapPagesKeepsSlots(w', Wrap(phys + PAGE), Wrap(va + PAGE), n - 1, d, e, i);
  }

  /** x lies in the range, and e reaches the table d has for it in the end. */
  predicate Reaches(t: World, va: Word, n: nat, d: nat, e: nat, x: Word)
    requires d < FRAMES && e < FRAMES
  {
    InRange(va, n, x) && Slot(t.mem, e, PdIndex(x)) == Slot(t.mem, d, PdIndex(x))
  }

  /** paging_map_range refines a range update of the translation: page k of the range
      goes to the k-th page from `phys` in every directory that reaches the same table,
      and every other address, under every directory, is translated as before. */
  lemma {:induction false} MapRangeTranslate(w: World, phys: Word, va: Word, n: nat, d: nat, e: nat, x: Word)
    requires RangeFits(w, va, n, d) && FreeFramesClear(w) && e in w.dirs && e < FRAMES
    requires phys / PAGE + n <= TWO32 / PAGE
    ensures var t := MapPages(w, phys, va, n, d);
            Translate(t.mem, e, x)
            == if Reaches(t, va, n, d, e, x) then Some(RangeTarget(phys, va, x)) else Translate(w.mem, e, x)
    decreases n
  {
    if n > 0 {
      FirstPage(w, phys, va, n, d, e, x);
      RangeFitsStep(w, phys, va, n, d);
      UnfoldMapPages(w, phys, va, n, d);
      SplitAddress(x, va);
      if n > 1 {
        FreeFramesStayClear(w, phys, va, d);
        NextRange(phys, va, n, x);
        FirstSlotSettled(w, phys, va, n, d, e);
        MapRangeTranslate(MapPage(w, phys, va, d), Wrap(phys + PAGE), Wrap(va + PAGE), n - 1, d, e, x);
      }
    }
  }

  lemma UnfoldMapPages(w: World, phys: Word, va: Word, n: nat, d: nat)
    requires d < FRAMES && WellFormed(w.frames) && n > 0
    ensures MapPages(w, phys, va, n, d)
            == MapPages(MapPage(w, phys, va, d), Wrap(phys + PAGE), Wrap(va + PAGE), n - 1, d)
    ensures n == 1 ==> MapPages(w, phys, va, n, d) == MapPage(w, phys, va, d)
  {}

  lemma NextRange(phys: Word, va: Word, n: nat, x: Word)
    requires n > 1 && va / PAGE + n <= TWO32 / PAGE && phys / PAGE + n <= TWO32 / PAGE
    ensures InRange(Wrap(va + PAGE), n - 1, x) <==> InRange(va, n, x) && !SamePage(x, va)
    ensures Wrap(phys + PAGE) / PAGE + (n - 1) <= TWO32 / PAGE
    ensures RangeTarget(Wrap(phys + PAGE), Wrap(va + PAGE), x) == RangeTarget(phys, va, x)
  {
    NextPage(va);
    NextPage(phys);
  }

  lemma NextPage(va: Word)
    requires va / PAGE + 1 < TWO32 / PAGE
    ensures Wrap(va + PAGE) == va + PAGE && Wrap(va + PAGE) / PAGE == va / PAGE + 1
  {}

  // -------------------------------------------------------------- paging_init

  function FirstDirectory(table: Word): Table {
    seq(ENTRIES, i => if i == 0 then Entry(table) else 0)
  }

  function IdentityTable(): Table {
    seq(ENTRIES, k => Entry(Wrap(k * PAGE)))
  }

  /** The tables paging_init writes: slot 0 of `pd` leads to `pt`, which maps the first
      1024 pages to themselves. */
  function InitialMemory(mem: Memory, pd: nat, pt: nat): Memory
    requires pd < FRAMES && pt < FRAMES
  {
    mem[pd := FirstDirectory(pt * PAGE)][pt := IdentityTable()]
  }

  /** Whatever pmm_alloc_block answers is taken for a frame, NULL included. */
  function InitialWorld(mem: Memory, frames: Frames): World
    requires WellFormed(frames)
  {
    NullIff(frames);
    NullIff(Take(frames));
    var pd, pt := TakenPtr(frames) / PAGE, TakenPtr(Take(frames)) / PAGE;
    World(InitialMemory(mem, pd, pt), Take(Take(frames)), pd, {pd}, {pt})
  }

  lemma InitialSlots(mem: Memory, frames: Frames)
    requires WellFormed(frames) && Lowest(frames).Some? && Lowest(Take(frames)).Some?
    ensures var w := InitialWorld(mem, frames);
            && w.pd0 == Lowest(frames).value && w.tables == {Lowest(Take(frames)).value}
            && forall i :: 0 <= i < ENTRIES ==>
                 Slot(w.mem, w.pd0, i) == if i == 0 then Some(Lowest(Take(frames)).value) else None
  {
    EntryCoding(Lowest(Take(frames)).value * PAGE);
  }

  /** paging_init does not look for NULL: it leaves a directory and a table in distinct
      used frames exactly when two frames are free. */
  lemma InitialInvIff(mem: Memory, frames: Frames)
    requires WellFormed(frames) && 0 in frames.used
    ensures Inv(InitialWorld(mem, frames)) <==> Lowest(frames).Some? && Lowest(Take(frames)).Some?
  {
    var w := InitialWorld(mem, frames);
    if Lowest(frames).Some? && Lowest(Take(frames)).Some? {
      InitialSlots(mem, frames);
      assert forall d, i :: InDir(w, d, i) ==> d == w.pd0;
    }
  }

  lemma IdentityLeaf(k: nat)
    requires k < ENTRIES
    ensures Leaf(IdentityTable(), k) == Some(k)
  {
    assert Wrap(k * PAGE) == k * PAGE && (k * PAGE) / PAGE == k;
    EntryCoding(k * PAGE);
  }

  /** After paging_init the invariant holds, the first 4 MiB translate to themselves
      and nothing else is mapped. */
  lemma InitialTranslation(mem: Memory, frames: Frames, va: Word)
    requires WellFormed(frames) && 0 in frames.used
    requires Lowest(frames).Some? && Lowest(Take(frames)).Some?
    ensures var w := InitialWorld(mem, frames);
            && Inv(w)
            && Translate(w.mem, w.pd0, va) == if va < 0x40_0000 then Some(va) else None
  {
    InitialInvIff(mem, frames);
    InitialSlots(mem, frames);
    if va < 0x40_0000 {
      var k := PtIndex(va);
      assert k * PAGE + va % PAGE == va;
      IdentityLeaf(k);
    }
  }
}
