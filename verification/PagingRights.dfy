/**
 The rights that come with a translation: the flag bits of directory and table entries,
 and what every run of the paging routines keeps of them.
 */
module PagingRights {
  import opened Machine
  import opened PageTables
  import opened PagingRuns

  /** Where an access to a virtual address goes, and what it may do there. */
  datatype Access = Access(phys: nat, writable: bool, user: bool)

  // Bits 1 and 2 of an entry.
  predicate Writable(e: Word) { e / 2 % 2 == 1 }

  predicate User(e: Word) { e / 4 % 2 == 1 }

  /** The translation with its rights: those that both entries on the way give. */
  function Reach(mem: Memory, d: nat, va: Word): Option<Access>
    requires d < FRAMES
  {
    match Slot(mem, d, PdIndex(va))
    case None => None
    case Some(t) =>
      match Leaf(mem[t], PtIndex(va))
      case None => None
      case Some(f) =>
        var up, low := mem[d][PdIndex(va)], mem[t][PtIndex(va)];
        Some(Access(f * PAGE + va % PAGE, Writable(up) && Writable(low), User(up) && User(low)))
  }

  /** Present and writable, and no other bit below 12. */
  predicate Clean(e: Word) {
    e % 4096 == 3
  }

  lemma CleanBits(e: Word)
    requires Clean(e)
    ensures Present(e) && Writable(e) && !User(e)
  {
    var q := e / 4096;
    assert e == 4096 * q + 3;
    assert e / 2 == 2048 * q + 1 && e / 4 == 1024 * q;
  }

  lemma EntryWritable(addr: Word)
    ensures Writable(Entry(addr))
    ensures addr % 4096 == 0 ==> Clean(Entry(addr))
  {
    Halves(addr / 4);
    assert Entry(addr) == 4 * (addr / 4) + 3;
    if addr % 4096 == 0 { Thousands(addr / 4096); }
  }

  lemma Halves(q: nat)
    ensures (4 * q + 3) / 2 % 2 == 1
  {
    assert (4 * q + 3) / 2 == 2 * q + 1;
  }

  lemma Thousands(q: nat)
    ensures 4096 * q / 4 == 1024 * q && (4096 * q + 3) % 4096 == 3
  {}

  // ---------------------------------------------------------------- directories

  /** Every entry of every directory is 0 or clean. */
  ghost predicate DirsClean(w: World) {
    forall d: nat, i: nat :: InDir(w, d, i) ==> w.mem[d][i] == 0 || Clean(w.mem[d][i])
  }

  lemma MapDirEntries(w: World, phys: Word, va: Word, d: nat, e: nat, i: nat)
    requires Inv(w) && d in w.dirs && d < FRAMES && CanMap(w, va, d) && InDir(w, e, i)
    ensures var v := MapPage(w, phys, va, d).mem[e][i];
            v == w.mem[e][i] || Clean(v)
  {
    var t := MapShape(w, phys, va, d);
    EntryWritable(t * PAGE);
  }

  lemma StepKeepsDirsClean(w: World, op: Op)
    requires Inv(w) && Legal(w, op) && w.pd0 < FRAMES && DirsClean(w)
    ensures DirsClean(Step(w, op))
  {
    var w' := Step(w, op);
    InvRange(w);
    StepKeepsInv(w, op);
    forall e: nat, i: nat | InDir(w', e, i) ensures w'.mem[e][i] == 0 || Clean(w'.mem[e][i]) {
      match op
      case Map(phys, va, d) => MapDirEntries(w, phys, va, d, e, i);
      case NewDir => assert InDir(w, w.pd0, i);
      case _ =>
        assert InDir(w, e, i);
        StepTouches(w, op, e);
    }
  }

  /** Over every run every directory entry is 0 or has exactly its two low bits set beside
      the frame. */
  lemma {:induction false} DirsCleanForever(w: World, ops: seq<Op>)
    requires Inv(w) && LegalRun(w, ops) && DirsClean(w)
    ensures DirsClean(Run(w, ops))
    decreases |ops|
  {
    if ops != [] {
      StepKeepsInv(w, ops[0]);
      StepKeepsDirsClean(w, ops[0]);
      DirsCleanForever(Step(w, ops[0]), ops[1..]);
    }
  }

  // --------------------------------------------------------------- effect of one call

  /** A mapping is seen, writable and for the kernel alone, at its page by every directory
      that reaches the same table; every other access goes where it did, with the rights
      it had. */
  lemma MapReach(w: World, phys: Word, va: Word, d: nat, e: nat, x: Word)
    requires Inv(w) && d in w.dirs && e in w.dirs && d < FRAMES && e < FRAMES && CanMap(w, va, d)
    requires DirsClean(w)
    requires Slot(w.mem, d, PdIndex(va)).Some? || ClearBut(w.mem[FrameSet.Lowest(w.frames).value], PtIndex(va))
    ensures var w' := MapPage(w, phys, va, d);
            Reach(w'.mem, e, x)
            == if SamePage(x, va) && Slot(w'.mem, e, PdIndex(va)) == Slot(w'.mem, d, PdIndex(va))
               then Some(Access(phys / PAGE * PAGE + x % PAGE, true, false))
               else Reach(w.mem, e, x)
  {
    var t := MapEffect(w, phys, va, d);
    var w' := MapPage(w, phys, va, d);
    MapTranslate(w, phys, va, d, e, x);
    MapKeepsInv(w, phys, va, d);
    SplitAddress(x, va);
    var i := PdIndex(x);
    assert InDir(w', e, i) && InDir(w', d, PdIndex(va)) && InDir(w, e, i) && InDir(w, d, PdIndex(va));
    MapDirEntries(w, phys, va, d, e, i);
    UpperEntry(w, phys, va, d, e, i);
    if Slot(w'.mem, e, i) == Some(t) {
      assert Meet(w', e, i, d, PdIndex(va));
      CleanBits(w'.mem[e][i]);
      EntryWritable(phys);
      EntryCoding(phys);
    } else if Slot(w'.mem, e, i).Some? {
      assert Slot(w.mem, e, i).value in w.tables;
    }
  }

  /** A directory entry changes only where an empty slot is filled. */
  lemma UpperEntry(w: World, phys: Word, va: Word, d: nat, e: nat, i: nat)
    requires Inv(w) && d in w.dirs && d < FRAMES && CanMap(w, va, d) && InDir(w, e, i)
    ensures Slot(w.mem, e, i).Some? ==> MapPage(w, phys, va, d).mem[e][i] == w.mem[e][i]
  {
    var t := MapShape(w, phys, va, d);
  }

  /** Unmapping takes an access away from every directory that reaches the same table, and
      leaves every other, rights included, as it was. */
  lemma UnmapReach(w: World, va: Word, d: nat, e: nat, x: Word)
    requires Inv(w) && d in w.dirs && e in w.dirs && d < FRAMES && e < FRAMES
    ensures Reach(UnmapPage(w, va, d).mem, e, x)
            == if SamePage(x, va) && Slot(w.mem, e, PdIndex(va)) == Slot(w.mem, d, PdIndex(va))
               then None
               else Reach(w.mem, e, x)
  {
    UnmapTranslate(w, va, d, e, x);
    SplitAddress(x, va);
    assert InDir(w, e, PdIndex(x)) && InDir(w, d, PdIndex(va));
    assert Slot(w.mem, d, PdIndex(va)).Some? ==> Slot(w.mem, d, PdIndex(va)).value in w.tables;
    assert Meet(w, e, PdIndex(x), d, PdIndex(va)) ==> PdIndex(x) == PdIndex(va);
  }

  /** A new directory gives every access that pd0 gives, with the same rights. */
  lemma NewDirectoryReachesAlike(w: World, va: Word)
    requires Inv(w) && w.pd0 < FRAMES && FrameSet.Lowest(w.frames).Some?
    ensures var d := FrameSet.Lowest(w.frames).value;
            && d !in w.dirs + w.tables
            && Reach(NewDirectory(w).mem, d, va) == Reach(w.mem, w.pd0, va)
            && Reach(NewDirectory(w).mem, w.pd0, va) == Reach(w.mem, w.pd0, va)
  {
    NewDirectoryTranslatesAlike(w, va);
    assert InDir(w, w.pd0, PdIndex(va));
    assert Slot(w.mem, w.pd0, PdIndex(va)).Some? ==> Slot(w.mem, w.pd0, PdIndex(va)).value in w.tables;
  }

  lemma IdentityEntry(k: nat)
    requires k < ENTRIES
    ensures Clean(IdentityTable()[k]) && Leaf(IdentityTable(), k) == Some(k)
  {
    IdentityLeaf(k);
    assert Wrap(k * PAGE) == k * PAGE;
    EntryWritable(k * PAGE);
  }

  /** After paging_init the first 4 MiB are accessible at their own addresses, writable and
      for the kernel alone, and nothing else is. */
  lemma InitialReach(mem: Memory, frames: FrameSet.Frames, va: Word)
    requires FrameSet.WellFormed(frames) && 0 in frames.used
    requires FrameSet.Lowest(frames).Some? && FrameSet.Lowest(FrameSet.Take(frames)).Some?
    ensures var w := InitialWorld(mem, frames);
            Inv(w) && DirsClean(w) && TableClean(w, FrameSet.Lowest(FrameSet.Take(frames)).value)
    ensures var w := InitialWorld(mem, frames);
            Reach(w.mem, w.pd0, va) == if va < 0x40_0000 then Some(Access(va, true, false)) else None
  {
    var w, pt := InitialWorld(mem, frames), FrameSet.Lowest(FrameSet.Take(frames)).value;
    InitialTranslation(mem, frames, va);
    InitialSlots(mem, frames);
    EntryWritable(pt * PAGE);
    forall k | 0 <= k < ENTRIES ensures Clean(w.mem[pt][k]) {
      IdentityEntry(k);
    }
    assert w.mem[w.pd0] == FirstDirectory(pt * PAGE);
    CleanBits(w.mem[w.pd0][0]);
    CleanBits(w.mem[pt][PtIndex(va)]);
  }

  // ------------------------------------------------------------- entries of tables

  /** Every entry of the table at t is 0 or clean. */
  ghost predicate TableClean(w: World, t: nat) {
    t < FRAMES && forall k :: 0 <= k < ENTRIES ==> w.mem[t][k] == 0 || Clean(w.mem[t][k])
  }

  /** The entries in s are entries of tables, each of them 0 or clean. */
  ghost predicate EntriesClean(w: World, s: set<(nat, nat)>) {
    forall t, k :: (t, k) in s ==>
      t in w.tables && t < FRAMES && k < ENTRIES && (w.mem[t][k] == 0 || Clean(w.mem[t][k]))
  }

  /** The table a mapping writes to: the one of its slot, or the one it makes. */
  function TableOf(w: World, va: Word, d: nat): nat
    requires d < FRAMES && CanMap(w, va, d)
  {
    match Slot(w.mem, d, PdIndex(va))
    case Some(t) => t
    case None => FrameSet.Lowest(w.frames).value
  }

  /** The entry a call writes. */
  function Written(w: World, op: Op): set<(nat, nat)>
    requires Legal(w, op)
  {
    match op
    case Map(_, va, d) => {(TableOf(w, va, d), PtIndex(va))}
    case Unmap(va, d) => if Slot(w.mem, d, PdIndex(va)).Some? then {(TableOf(w, va, d), PtIndex(va))} else {}
    case _ => {}
  }

  /** All entries the calls of a run write. */
  ghost function AllWritten(w: World, ops: seq<Op>): set<(nat, nat)>
    requires Inv(w) && LegalRun(w, ops)
    decreases |ops|
  {
    if ops == [] then {}
    else
      InvRange(w);
      StepKeepsInv(w, ops[0]);
      Written(w, ops[0]) + AllWritten(Step(w, ops[0]), ops[1..])
  }

  /** Mappings are to whole pages. */
  predicate ToPages(op: Op) {
    op.Map? ==> op.phys % 4096 == 0
  }

  lemma MapWrites(w: World, phys: Word, va: Word, d: nat)
    requires Inv(w) && d in w.dirs && d < FRAMES && CanMap(w, va, d)
    ensures var t, w' := TableOf(w, va, d), MapPage(w, phys, va, d);
            && t in w'.tables && t < FRAMES && w'.mem[t] == w.mem[t][PtIndex(va) := Entry(phys)]
            && w.tables <= w'.tables
            && forall f :: f in w.tables && f < FRAMES && f != t ==> w'.mem[f] == w.mem[f]
  {
    var t := MapEffect(w, phys, va, d);
    InvRange(w);
  }

  lemma UnmapWrites(w: World, va: Word, d: nat)
    requires Inv(w) && d in w.dirs && d < FRAMES && Slot(w.mem, d, PdIndex(va)).Some?
    ensures var t, w' := Slot(w.mem, d, PdIndex(va)).value, UnmapPage(w, va, d);
            && t in w'.tables && w'.tables == w.tables && w'.mem[t] == w.mem[t][PtIndex(va) := 0]
            && forall f :: f < FRAMES && f != t && f >= 0 ==> w'.mem[f] == w.mem[f]
  {
    assert InDir(w, d, PdIndex(va));
  }

  lemma StepKeepsEntriesClean(w: World, op: Op, s: set<(nat, nat)>)
    requires Inv(w) && Legal(w, op) && w.pd0 < FRAMES && EntriesClean(w, s) && ToPages(op)
    ensures EntriesClean(Step(w, op), s + Written(w, op))
  {
    StepKeepsInv(w, op);
    match op
    case Map(phys, va, d) =>
      MapWrites(w, phys, va, d);
      EntryWritable(phys);
    case Unmap(va, d) =>
      if Slot(w.mem, d, PdIndex(va)).Some? { UnmapWrites(w, va, d); }
    case NewDir =>
      assert FrameSet.Lowest(w.frames).Some? ==> FrameSet.Lowest(w.frames).value !in w.tables;
    case _ =>
  }

  /** Over every run, every entry of a table that was 0 or clean at its start, or that a
      call of it has written, is 0 or has exactly its two low bits set beside the frame. */
  lemma {:induction false} EntriesCleanForever(w: World, ops: seq<Op>, s: set<(nat, nat)>)
    requires Inv(w) && LegalRun(w, ops) && EntriesClean(w, s)
    requires forall i :: 0 <= i < |ops| ==> ToPages(ops[i])
    ensures EntriesClean(Run(w, ops), s + AllWritten(w, ops))
    decreases |ops|
  {
    if ops == [] {
      assert s + AllWritten(w, ops) == s;
    } else {
      StepKeepsInv(w, ops[0]);
      StepKeepsEntriesClean(w, ops[0], s);
      var w', s' := Step(w, ops[0]), s + Written(w, ops[0]);
      EntriesCleanForever(w', ops[1..], s');
      assert s + AllWritten(w, ops) == s' + AllWritten(w', ops[1..]);
    }
  }
}
