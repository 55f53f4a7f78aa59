/**
 Two-level page tables in physical memory, as values: what each routine of paging.c
 makes of memory and of the frame allocator.  Memory is 2^20 frames of 1024 words; a
 directory or table is named by its frame number.
 */
module PageTables {
  import opened Machine
  import opened FrameSet

  const FRAMES: nat := 0x10_0000
  const ENTRIES: nat := 1024

  type Table = t: seq<Word> | |t| == ENTRIES witness seq(ENTRIES, _ => 0)
  type Memory = m: seq<Table> | |m| == FRAMES ghost witness seq<Table>(FRAMES, _ => ZeroTable())

  function ZeroTable(): Table { seq(ENTRIES, _ => 0) }

  // The 10/10/12 split of an address and the coding of an entry.  The bit
  // expressions of the code are shown equal to these in Bits.EntryMasks.
  function PdIndex(va: Word): (i: nat)
    ensures i < ENTRIES
  {
    va / 0x40_0000
  }

  function PtIndex(va: Word): (i: nat)
    ensures i < ENTRIES
  {
    va / PAGE % ENTRIES
  }

  function Entry(addr: Word): Word { addr - addr % 4 + 3 }

  predicate Present(e: Word) { e % 2 == 1 }

  function Target(e: Word): (f: nat)
    ensures f < FRAMES
  {
    e / PAGE
  }

  predicate SamePage(a: Word, b: Word) { a / PAGE == b / PAGE }

  lemma SplitAddress(a: Word, b: Word)
    ensures SamePage(a, b) <==> PdIndex(a) == PdIndex(b) && PtIndex(a) == PtIndex(b)
  {
    assert a / 0x40_0000 == a / PAGE / ENTRIES && b / 0x40_0000 == b / PAGE / ENTRIES;
  }

  lemma EntryCoding(addr: Word)
    ensures Present(Entry(addr)) && Target(Entry(addr)) == addr / PAGE
  {
    var q, r := addr / PAGE, addr % PAGE;
    assert addr == PAGE * q + r;
    WordInPage(q, r);
    Quotient(q, r / 4 * 4 + 3);
  }

  /** The entry for the r-th byte of page q. */
  lemma WordInPage(q: nat, r: nat)
    requires r < PAGE && PAGE * q + r < TWO32
    ensures r / 4 * 4 + 3 < PAGE && Entry(PAGE * q + r) == PAGE * q + (r / 4 * 4 + 3)
    ensures Present(Entry(PAGE * q + r))
  {
    var k, m := 1024 * q + r / 4, r % 4;
    assert PAGE * q + r == 4 * k + m;
    Remainder(k, m);
    assert Entry(PAGE * q + r) == 2 * (2 * k + 1) + 1;
    Remainder(2 * k + 1, 0);
  }

  lemma Remainder(k: nat, m: nat)
    requires m < 4
    ensures (4 * k + m) % 4 == m && (2 * k + 1) % 2 == 1
  {}

  lemma Quotient(q: nat, r: nat)
    requires r < PAGE
    ensures (PAGE * q + r) / PAGE == q
  {}

  /** The table a directory slot leads to. */
  function Slot(mem: Memory, d: nat, i: nat): Option<nat>
    requires d < FRAMES && i < ENTRIES
  {
    if Present(mem[d][i]) then Some(Target(mem[d][i])) else None
  }

  /** The page an entry of a table leads to. */
  function Leaf(t: Table, k: nat): Option<nat>
    requires k < ENTRIES
  {
    if Present(t[k]) then Some(Target(t[k])) else None
  }

  /** What the processor makes of a virtual address under directory `d`. */
  function Translate(mem: Memory, d: nat, va: Word): Option<nat>
    requires d < FRAMES
  {
    match Slot(mem, d, PdIndex(va))
    case None => None
    case Some(t) =>
      match Leaf(mem[t], PtIndex(va))
      case None => None
      case Some(f) => Some(f * PAGE + va % PAGE)
  }

  function Put(mem: Memory, f: nat, i: nat, v: Word): Memory
    requires f < FRAMES && i < ENTRIES
  {
    mem[f := mem[f][i := v]]
  }

  /** Memory, the allocator, and which frames hold directories and tables. */
  datatype World = World(mem: Memory, frames: Frames, pd0: nat, dirs: set<nat>, tables: set<nat>)

  // ---------------------------------------------------------------- routines

  function MapPage(w: World, phys: Word, va: Word, d: nat): World
    requires d < FRAMES && WellFormed(w.frames)
  {
    match Slot(w.mem, d, PdIndex(va))
    case Some(t) => w.(mem := Put(w.mem, t, PtIndex(va), Entry(phys)))
    case None =>
      NullIff(w.frames);
      var t := TakenPtr(w.frames) / PAGE;
      var linked := Put(w.mem, d, PdIndex(va), Entry(t * PAGE));
      w.(mem := Put(linked, t, PtIndex(va), Entry(phys)),
         frames := Take(w.frames),
         tables := w.tables + {t})
  }

  function UnmapPage(w: World, va: Word, d: nat): World
    requires d < FRAMES
  {
    match Slot(w.mem, d, PdIndex(va))
    case None => w
    case Some(t) => w.(mem := Put(w.mem, t, PtIndex(va), 0))
  }

  /** paging_new_directory when a frame is left; otherwise nothing happens. */
  function NewDirectory(w: World): World
    requires w.pd0 < FRAMES && WellFormed(w.frames)
  {
    match Lowest(w.frames)
    case None => w
    case Some(d) => w.(mem := w.mem[d := w.mem[w.pd0]], frames := Take(w.frames), dirs := w.dirs + {d})
  }

  /** The loop of paging_map_range: n pages from `phys` and `va` on. */
  function MapPages(w: World, phys: Word, va: Word, n: nat, d: nat): World
    requires d < FRAMES && WellFormed(w.frames)
    decreases n, w
  {
    if n == 0 then w
    else MapPages(MapPage(w, phys, va, d), Wrap(phys + PAGE), Wrap(va + PAGE), n - 1, d)
  }

  /** How many pages paging_map_range maps, in 32-bit arithmetic. */
  function PageCount(size: Word): nat {
    Wrap(size + 0xFFF) / 0x1000
  }

  lemma PageCountIff(size: Word)
    ensures size <= PageCount(size) * PAGE <==> size <= TWO32 - PAGE
    ensures size <= TWO32 - PAGE && size > 0 ==> (PageCount(size) - 1) * PAGE < size
    ensures size == 0 || size > TWO32 - PAGE <==> PageCount(size) == 0
  {
    if size <= TWO32 - PAGE {
      assert Wrap(size + 0xFFF) == size + 0xFFF;
    } else {
      assert Wrap(size + 0xFFF) == size + 0xFFF - TWO32;
    }
  }

  // --------------------------------------------------------------- invariant

  /** Directories and tables occupy distinct used frames other than frame 0, every
      present slot leads to a table, a table serves one slot number only, and two
      directories share a table only where pd0 has it too. */
  ghost predicate Inv(w: World) {
    && WellFormed(w.frames) && 0 in w.frames.used
    && w.pd0 in w.dirs && 0 !in w.dirs + w.tables
    && w.dirs !! w.tables && w.dirs + w.tables <= w.frames.used
    && SlotsLeadToTables(w) && SlotsDistinct(w) && SharedThroughPd0(w)
  }

  predicate InDir(w: World, d: nat, i: nat) {
    d in w.dirs && d < FRAMES && i < ENTRIES
  }

  ghost predicate SlotsLeadToTables(w: World) {
    forall d, i :: InDir(w, d, i) && Slot(w.mem, d, i).Some? ==>
      Slot(w.mem, d, i).value in w.tables
  }

  /** Slot i of d and slot j of e lead to one table. */
  predicate Meet(w: World, d: nat, i: nat, e: nat, j: nat)
    requires d < FRAMES && e < FRAMES && i < ENTRIES && j < ENTRIES
  {
    Slot(w.mem, d, i).Some? && Slot(w.mem, d, i) == Slot(w.mem, e, j)
  }

  ghost predicate SlotsDistinct(w: World) {
    forall d, e, i, j :: InDir(w, d, i) && InDir(w, e, j) && Meet(w, d, i, e, j) ==> i == j
  }

  ghost predicate SharedThroughPd0(w: World) {
    w.pd0 < FRAMES &&
    forall d, e, i :: InDir(w, d, i) && InDir(w, e, i) && d != e && Meet(w, d, i, e, i) ==>
      Slot(w.mem, w.pd0, i) == Slot(w.mem, d, i)
  }

  lemma InvRange(w: World)
    requires Inv(w)
    ensures forall f :: f in w.dirs + w.tables ==> 0 < f < FRAMES
  {
    assert forall f :: f in w.dirs + w.tables ==> f in w.frames.used;
  }

  /** A frame is left for a table, or none is needed. */
  predicate CanMap(w: World, va: Word, d: nat)
    requires d < FRAMES
  {
    Slot(w.mem, d, PdIndex(va)).Some? || Lowest(w.frames).Some?
  }

  /** What one mapping changes: slot PdIndex(va) of `d`, when it was empty, and one
      word of one table. */
  lemma MapShape(w: World, phys: Word, va: Word, d: nat) returns (t: nat)
    requires Inv(w) && d in w.dirs && d < FRAMES && CanMap(w, va, d)
    ensures t < FRAMES && t !in w.dirs && t != 0
    ensures if Slot(w.mem, d, PdIndex(va)).Some?
            then t in w.tables && Slot(w.mem, d, PdIndex(va)) == Some(t)
            else Lowest(w.frames) == Some(t) && t !in w.tables
    ensures MapPage(w, phys, va, d)
            == w.(mem := Put(Put(w.mem, d, PdIndex(va), SlotEntry(w, va, d, t)), t, PtIndex(va), Entry(phys)),
                  frames := if Slot(w.mem, d, PdIndex(va)).Some? then w.frames else Take(w.frames),
                  tables := w.tables + {t})
    ensures Present(SlotEntry(w, va, d, t)) && Target(SlotEntry(w, va, d, t)) == t
  {
    InvRange(w);
    NullIff(w.frames);
    if Slot(w.mem, d, PdIndex(va)).Some? {
      t := Slot(w.mem, d, PdIndex(va)).value;
      assert w.mem[d][PdIndex(va) := w.mem[d][PdIndex(va)]] == w.mem[d];
      assert Put(w.mem, d, PdIndex(va), SlotEntry(w, va, d, t)) == w.mem;
      assert w.tables + {t} == w.tables;
    } else {
      t := TakenPtr(w.frames) / PAGE;
      EntryCoding(t * PAGE);
    }
  }

  function SlotEntry(w: World, va: Word, d: nat, t: nat): Word
    requires d < FRAMES && t < FRAMES
  {
    if Slot(w.mem, d, PdIndex(va)).Some? then w.mem[d][PdIndex(va)] else Entry(t * PAGE)
  }
}
