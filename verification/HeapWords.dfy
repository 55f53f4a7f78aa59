/**
 Heap headers as the words they are written to, and what they do to translation when
 those words belong to a page table.
 */
module HeapWords {
  import opened Machine
  import opened PageTables
  import opened PagingRuns
  import opened HeapBlocks

  /** `*(uint32_t *)a = v`. */
  function PutWord(mem: Memory, a: Word, v: Word): Memory {
    Put(mem, a / PAGE, a % PAGE / 4, v)
  }

  /** The three words of a header at `a`. */
  function PutHeader(mem: Memory, a: Word, size: Word, next: Word, free: Word): Memory
    requires a + HEADER <= TWO32
  {
    PutWord(PutWord(PutWord(mem, a, size), a + 4, next), a + 8, free)
  }

  /** An entry that leads where v, seen as an entry, leads. */
  function LeafOf(v: Word): Option<nat> {
    if Present(v) then Some(Target(v)) else None
  }

  // --------------------------------------------------------- which words are read

  /** Entry k of the table behind slot i of d is read alike. */
  predicate ReadAlike(mem: Memory, mem': Memory, d: nat, i: nat, k: nat)
    requires d < FRAMES && i < ENTRIES && k < ENTRIES
  {
    match Slot(mem, d, i)
    case None => true
    case Some(t) => Leaf(mem'[t], k) == Leaf(mem[t], k)
  }

  lemma OnePageAlike(mem: Memory, mem': Memory, d: nat, i: nat, k: nat)
    requires d < FRAMES && mem'[d] == mem[d] && i < ENTRIES && k < ENTRIES
    requires Translate(mem', d, PageAt(i, k)) == Translate(mem, d, PageAt(i, k))
    ensures ReadAlike(mem, mem', d, i, k)
  {
    PageAtSplits(i, k);
  }

  /** A change that leaves a directory's own frame alone keeps its translations exactly
      when it keeps what every entry of every table the directory reaches leads to. */
  lemma SameTranslationsIff(mem: Memory, mem': Memory, d: nat)
    requires d < FRAMES && mem'[d] == mem[d]
    ensures (forall x: Word :: Translate(mem', d, x) == Translate(mem, d, x))
            <==> forall i, k :: 0 <= i < ENTRIES && 0 <= k < ENTRIES ==> ReadAlike(mem, mem', d, i, k)
  {
    if forall x: Word :: Translate(mem', d, x) == Translate(mem, d, x) {
      forall i, k | 0 <= i < ENTRIES && 0 <= k < ENTRIES ensures ReadAlike(mem, mem', d, i, k) {
        OnePageAlike(mem, mem', d, i, k);
      }
    } else {
      var x: Word :| Translate(mem', d, x) != Translate(mem, d, x);
      assert !ReadAlike(mem, mem', d, PdIndex(x), PtIndex(x));
    }
  }

  // ------------------------------------------------------------ headers on tables

  /** Writing v at `a` keeps what d reads: no slot of d leads there, or the entry led
      where v leads. */
  ghost predicate Harmless(mem: Memory, d: nat, a: Word, v: Word)
    requires d < FRAMES
  {
    forall i :: 0 <= i < ENTRIES && Slot(mem, d, i) == Some(a / PAGE) ==>
      Leaf(mem[a / PAGE], a % PAGE / 4) == LeafOf(v)
  }

  /** The word at entry k of frame t after a header has been written. */
  function WordAfter(mem: Memory, a: Word, size: Word, next: Word, free: Word, t: nat, k: nat): Word
    requires t < FRAMES && k < ENTRIES
  {
    var at := t * ENTRIES + k;
    if at == a / 4 then size
    else if at == a / 4 + 1 then next
    else if at == a / 4 + 2 then free
    else mem[t][k]
  }

  lemma WordPlace(a: Word)
    requires a % 4 == 0
    ensures a / PAGE * ENTRIES + a % PAGE / 4 == a / 4
    ensures a + 4 < TWO32 ==> (a + 4) / 4 == a / 4 + 1 && (a + 4) % 4 == 0
  {
    var q, r := a / PAGE, a % PAGE;
    assert a == PAGE * q + r && r % 4 == 0;
    assert a / 4 == ENTRIES * q + r / 4;
  }

  lemma PlaceIs(t: nat, k: nat, t': nat, k': nat)
    requires k < ENTRIES && k' < ENTRIES
    ensures t * ENTRIES + k == t' * ENTRIES + k' <==> t == t' && k == k'
  {}

  lemma PutWordAt(mem: Memory, a: Word, v: Word, t: nat, k: nat)
    requires a % 4 == 0 && t < FRAMES && k < ENTRIES
    ensures PutWord(mem, a, v)[t][k] == if t * ENTRIES + k == a / 4 then v else mem[t][k]
  {
    WordPlace(a);
    PlaceIs(t, k, a / PAGE, a % PAGE / 4);
  }

  lemma PutHeaderAt(mem: Memory, a: Word, size: Word, next: Word, free: Word, t: nat, k: nat)
    requires a % 4 == 0 && a + HEADER <= TWO32 && t < FRAMES && k < ENTRIES
    ensures PutHeader(mem, a, size, next, free)[t][k] == WordAfter(mem, a, size, next, free, t, k)
  {
    var m1 := PutWord(mem, a, size);
    var m2 := PutWord(m1, a + 4, next);
    WordPlace(a);
    WordPlace(a + 4);
    PutWordAt(mem, a, size, t, k);
    PutWordAt(m1, a + 4, next, t, k);
    PutWordAt(m2, a + 8, free, t, k);
  }

  /** None of the words of a header at `a` lies in frame d. */
  predicate Outside(a: Word, d: nat) {
    a / PAGE != d && (a + 4) / PAGE != d && (a + 8) / PAGE != d
  }

  lemma AllAlike(mem: Memory, a: Word, size: Word, next: Word, free: Word, d: nat, i: nat, k: nat)
    requires a % 4 == 0 && a + HEADER <= TWO32 && d < FRAMES && i < ENTRIES && k < ENTRIES
    requires Harmless(mem, d, a, size) && Harmless(mem, d, a + 4, next) && Harmless(mem, d, a + 8, free)
    ensures ReadAlike(mem, PutHeader(mem, a, size, next, free), d, i, k)
  {
    if Slot(mem, d, i).Some? {
      var t := Slot(mem, d, i).value;
      PutHeaderAt(mem, a, size, next, free, t, k);
      WordPlace(a);
      WordPlace(a + 4);
      WordPlace(a + 8);
      PlaceIs(t, k, a / PAGE, a % PAGE / 4);
      PlaceIs(t, k, (a + 4) / PAGE, (a + 4) % PAGE / 4);
      PlaceIs(t, k, (a + 8) / PAGE, (a + 8) % PAGE / 4);
    }
  }

  lemma AlikeHarmless(mem: Memory, a: Word, size: Word, next: Word, free: Word, d: nat, b: Word, v: Word)
    requires a % 4 == 0 && a + HEADER <= TWO32 && d < FRAMES
    requires (b == a && v == size) || (b == a + 4 && v == next) || (b == a + 8 && v == free)
    requires forall i, k :: 0 <= i < ENTRIES && 0 <= k < ENTRIES ==>
               ReadAlike(mem, PutHeader(mem, a, size, next, free), d, i, k)
    ensures Harmless(mem, d, b, v)
  {
    var t, k := b / PAGE, b % PAGE / 4;
    WordPlace(a);
    WordPlace(a + 4);
    WordPlace(b);
    PutHeaderAt(mem, a, size, next, free, t, k);
    forall i | 0 <= i < ENTRIES && Slot(mem, d, i) == Some(t) ensures Leaf(mem[t], k) == LeafOf(v) {
      assert ReadAlike(mem, PutHeader(mem, a, size, next, free), d, i, k);
    }
  }

  /** A header written outside a directory keeps the directory's translations exactly when
      each of its three words is harmless. */
  lemma HeaderHarmlessIff(mem: Memory, a: Word, size: Word, next: Word, free: Word, d: nat)
    requires a % 4 == 0 && a + HEADER <= TWO32 && d < FRAMES && Outside(a, d)
    ensures (forall x: Word :: Translate(PutHeader(mem, a, size, next, free), d, x) == Translate(mem, d, x))
            <==> Harmless(mem, d, a, size) && Harmless(mem, d, a + 4, next) && Harmless(mem, d, a + 8, free)
  {
    var mem' := PutHeader(mem, a, size, next, free);
    SameTranslationsIff(mem, mem', d);
    if Harmless(mem, d, a, size) && Harmless(mem, d, a + 4, next) && Harmless(mem, d, a + 8, free) {
      forall i, k | 0 <= i < ENTRIES && 0 <= k < ENTRIES ensures ReadAlike(mem, mem', d, i, k) {
        AllAlike(mem, a, size, next, free, d, i, k);
      }
    } else if forall i, k :: 0 <= i < ENTRIES && 0 <= k < ENTRIES ==> ReadAlike(mem, mem', d, i, k) {
      AlikeHarmless(mem, a, size, next, free, d, a, size);
      AlikeHarmless(mem, a, size, next, free, d, a + 4, next);
      AlikeHarmless(mem, a, size, next, free, d, a + 8, free);
    }
  }

  /** In particular the header of a free block, within one frame: exactly when no slot of
      the directory leads to that frame.  It takes that the entry under `free` does not
      lead to frame 0 already. */
  lemma FreeHeaderIff(mem: Memory, a: Word, size: Word, next: Word, d: nat)
    requires a % 4 == 0 && a + HEADER <= TWO32 && a % PAGE + HEADER <= PAGE && d < FRAMES && d != a / PAGE
    requires Leaf(mem[a / PAGE], a % PAGE / 4 + 2) != Some(0)
    ensures (forall x: Word :: Translate(PutHeader(mem, a, size, next, 1), d, x) == Translate(mem, d, x))
            <==> forall i :: 0 <= i < ENTRIES ==> Slot(mem, d, i) != Some(a / PAGE)
  {
    WithinFrame(a);
    HeaderHarmlessIff(mem, a, size, next, 1, d);
    assert LeafOf(1) == Some(0);
  }

  lemma WithinFrame(a: Word)
    requires a % 4 == 0 && a % PAGE + HEADER <= PAGE
    ensures (a + 4) / PAGE == (a + 8) / PAGE == a / PAGE
    ensures (a + 8) % PAGE / 4 == a % PAGE / 4 + 2
  {
    assert (a + 8) % PAGE == a % PAGE + 8;
  }

  // ----------------------------------------------------------- headers off tables

  /** The frames a header at `a` lies in hold neither a directory nor a table. */
  predicate OffTables(w: World, a: Word) {
    a / PAGE !in w.dirs + w.tables && (a + HEADER - 1) / PAGE !in w.dirs + w.tables
  }

  /** A header written off the tables keeps the table invariant, and every translation of
      every directory. */
  lemma HeaderOffTables(w: World, a: Word, size: Word, next: Word, free: Word, d: nat, x: Word)
    requires Inv(w) && a + HEADER <= TWO32 && OffTables(w, a) && d in w.dirs && d < FRAMES
    ensures var w' := w.(mem := PutHeader(w.mem, a, size, next, free));
            Inv(w') && Translate(w'.mem, d, x) == Translate(w.mem, d, x)
  {
    InvRange(w);
    var w' := w.(mem := PutHeader(w.mem, a, size, next, free));
    assert (a + 4) / PAGE == a / PAGE || (a + 4) / PAGE == (a + HEADER - 1) / PAGE;
    assert forall f :: f in w.dirs + w.tables && f < FRAMES ==> w'.mem[f] == w.mem[f];
    SameDirectories(w, w');
    assert InDir(w, d, PdIndex(x));
  }
}
