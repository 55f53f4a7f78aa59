/**
 The frame allocator as a set of used frames and a counter.  Only frames below
 `limit` (32 for each whole word of the bitmap) are ever handed out.
 */
module FrameSet {
  import opened Machine

  datatype Frames = Frames(used: set<nat>, limit: nat, counter: Word)

  ghost predicate WellFormed(f: Frames) {
    && f.limit <= TWO32 / PAGE
    && forall b :: b in f.used ==> b < f.limit
  }

  ghost predicate Full(f: Frames) {
    forall b :: 0 <= b < f.limit ==> b in f.used
  }

  /** The lowest free frame at or above `from`. */
  function LowestFrom(f: Frames, from: nat): (r: Option<nat>)
    ensures r.None? ==> forall b :: from <= b < f.limit ==> b in f.used
    ensures r.Some? ==> from <= r.value < f.limit && r.value !in f.used
    ensures r.Some? ==> forall b :: from <= b < r.value ==> b in f.used
    decreases f.limit - from
  {
    if from >= f.limit then None
    else if from !in f.used then Some(from)
    else LowestFrom(f, from + 1)
  }

  function Lowest(f: Frames): (r: Option<nat>)
    ensures r.None? <==> Full(f)
    ensures r.Some? ==> r.value < f.limit && r.value !in f.used
    ensures r.Some? ==> forall b :: 0 <= b < r.value ==> b in f.used
  {
    LowestFrom(f, 0)
  }

  lemma LowestIs(f: Frames, b: nat)
    requires b < f.limit && b !in f.used && forall c :: 0 <= c < b ==> c in f.used
    ensures Lowest(f) == Some(b)
  {}

  predicate UsedBelow(f: Frames, n: nat) {
    forall b :: 0 <= b < n ==> b in f.used
  }

  /** The pointer pmm_alloc_block answers: NULL when nothing is free. */
  function TakenPtr(f: Frames): nat {
    match Lowest(f)
    case None => 0
    case Some(b) => b * PAGE
  }

  function Take(f: Frames): Frames {
    match Lowest(f)
    case None => f
    case Some(b) => f.(used := f.used + {b}, counter := Wrap(f.counter + 1))
  }

  function Give(f: Frames, b: nat): Frames {
    if b in f.used then f.(used := f.used - {b}, counter := Wrap(f.counter - 1)) else f
  }

  /** NULL means "no frame left" exactly because frame 0 is never free: otherwise it
      also means that frame 0 was handed out.  The address never wraps. */
  lemma NullIff(f: Frames)
    requires WellFormed(f)
    ensures TakenPtr(f) == 0 <==> Full(f) || 0 !in f.used
    ensures TakenPtr(f) < TWO32 && TakenPtr(f) % PAGE == 0
    ensures !Full(f) ==> TakenPtr(f) / PAGE !in f.used && TakenPtr(f) / PAGE in Take(f).used
  {
    if Lowest(f).Some? {
      assert (Lowest(f).value * PAGE) / PAGE == Lowest(f).value;
    } else if f.limit > 0 {
      assert 0 in f.used;
    }
  }

  // ------------------------------------------------------------------- runs

  datatype Op = TakeFrame | GiveFrame(b: nat)

  /** The allocator together with the frames its callers hold. */
  datatype Session = Session(frames: Frames, held: set<nat>)

  function Step(s: Session, op: Op): Session {
    match op
    case TakeFrame =>
      Session(Take(s.frames), if Lowest(s.frames).None? then s.held else s.held + {Lowest(s.frames).value})
    case GiveFrame(b) => Session(Give(s.frames, b), s.held - {b})
  }

  /** Frees are in range and never of frame 0; they may repeat. */
  predicate Legal(s: Session, op: Op) {
    op.GiveFrame? ==> 0 < op.b < s.frames.limit
  }

  predicate LegalRun(s: Session, ops: seq<Op>)
    decreases |ops|
  {
    ops == [] || (Legal(s, ops[0]) && LegalRun(Step(s, ops[0]), ops[1..]))
  }

  function Run(s: Session, ops: seq<Op>): Session
    decreases |ops|
  {
    if ops == [] then s else Run(Step(s, ops[0]), ops[1..])
  }

  /** used_blocks less the number of used frames, modulo 2^32. */
  function Drift(f: Frames): Word {
    Wrap(f.counter - |f.used|)
  }

  lemma StepKeepsDrift(s: Session, op: Op)
    ensures Drift(Step(s, op).frames) == Drift(s.frames)
  {
    var f := s.frames;
    match op
    case TakeFrame =>
      if Lowest(f).Some? {
        assert |f.used + {Lowest(f).value}| == |f.used| + 1;
        WrapTwice(f.counter + 1, 0 - (|f.used| + 1));
      }
    case GiveFrame(b) =>
      if b in f.used {
        assert |f.used - {b}| == |f.used| - 1;
        WrapTwice(f.counter - 1, 1 - |f.used|);
      }
  }

  /** Over every run of allocations and in-range frees, repeated frees included, the
      counter and the number of used frames move in step. */
  lemma {:induction false} CounterLockStep(s: Session, ops: seq<Op>)
    requires LegalRun(s, ops)
    ensures Drift(Run(s, ops).frames) == Drift(s.frames)
    decreases |ops|
  {
    if ops != [] {
      StepKeepsDrift(s, ops[0]);
      CounterLockStep(Step(s, ops[0]), ops[1..]);
    }
  }

  ghost predicate Sound(s: Session) {
    && WellFormed(s.frames)
    && s.held <= s.frames.used
    && 0 in s.frames.used
  }

  /** Over every run no frame a caller holds is handed out again, and NULL is
      answered exactly when every frame is used. */
  lemma {:induction false} NeverHandsOutHeld(s: Session, ops: seq<Op>)
    requires Sound(s) && LegalRun(s, ops)
    ensures var t := Run(s, ops);
            && Sound(t)
            && (TakenPtr(t.frames) == 0 <==> Full(t.frames))
            && (!Full(t.frames) ==> TakenPtr(t.frames) / PAGE !in t.held)
    decreases |ops|
  {
    if ops == [] {
      NullIff(s.frames);
    } else {
      NeverHandsOutHeld(Step(s, ops[0]), ops[1..]);
    }
  }

  // -------------------------------------------------------- the memory map

  const AVAILABLE: nat := 1

  /** An entry of the boot memory map, in bytes. */
  datatype Region = Region(addr: nat, len: nat, kind: nat)

  /** The blocks pmm_init clears for a region. */
  predicate Spans(r: Region, b: nat) {
    r.kind == AVAILABLE && r.addr / PAGE <= b < r.addr / PAGE + r.len / PAGE
  }

  /** Every byte of the block lies in the region. */
  predicate Inside(r: Region, b: nat) {
    r.kind == AVAILABLE && r.addr <= b * PAGE && (b + 1) * PAGE <= r.addr + r.len
  }

  predicate Spanned(rs: seq<Region>, b: nat) {
    exists i :: 0 <= i < |rs| && Spans(rs[i], b)
  }

  function SumLen(rs: seq<Region>): nat {
    if rs == [] then 0
    else SumLen(rs[..|rs| - 1]) + (if rs[|rs| - 1].kind == AVAILABLE then rs[|rs| - 1].len else 0)
  }

  function SumBlocks(rs: seq<Region>): nat {
    if rs == [] then 0
    else SumBlocks(rs[..|rs| - 1]) + BlocksOf(rs[|rs| - 1])
  }

  /** The whole blocks pmm_init counts for a region. */
  function BlocksOf(r: Region): nat {
    if r.kind == AVAILABLE then r.len / PAGE else 0
  }

  /** A region's cleared blocks are the blocks that lie wholly inside it exactly when
      it starts on a page or is shorter than one. */
  lemma SpansInsideIff(r: Region)
    requires r.kind == AVAILABLE
    ensures (forall b :: Spans(r, b) <==> Inside(r, b)) <==> r.addr % PAGE == 0 || r.len < PAGE
  {
    var first := r.addr / PAGE;
    if r.addr % PAGE == 0 || r.len < PAGE {
      forall b ensures Spans(r, b) <==> Inside(r, b) {}
    } else {
      assert Spans(r, first) && !Inside(r, first);
    }
  }

  /** Whole blocks never add up to more than the bytes hold. */
  lemma {:induction false} SumBlocksBound(rs: seq<Region>)
    ensures SumBlocks(rs) <= SumLen(rs) / PAGE
  {
    if rs != [] {
      SumBlocksBound(rs[..|rs| - 1]);
    }
  }

  /** The state pmm_init leaves. */
  function InitTotal(rs: seq<Region>): Word {
    Wrap(SumLen(rs)) / PAGE
  }

  function InitFrames(rs: seq<Region>): Frames {
    var total := InitTotal(rs);
    Frames(set b | 0 <= b < total / 32 * 32 && (b == 0 || !Spanned(rs, b)) :: b,
           total / 32 * 32,
           Wrap(total - SumBlocks(rs) + 1))
  }

  /** On page-based regions a covered block is free after pmm_init exactly when it is
      not block 0 and lies wholly in an available region. */
  lemma InitFreeIff(rs: seq<Region>, b: nat)
    requires forall i :: 0 <= i < |rs| && rs[i].kind == AVAILABLE ==> rs[i].addr % PAGE == 0
    requires b < InitFrames(rs).limit
    ensures b !in InitFrames(rs).used <==> b != 0 && exists i :: 0 <= i < |rs| && Inside(rs[i], b)
  {
    forall i | 0 <= i < |rs| ensures Spans(rs[i], b) <==> Inside(rs[i], b) {
      if rs[i].kind == AVAILABLE { SpansInsideIff(rs[i]); }
    }
    if Spanned(rs, b) {
      var i :| 0 <= i < |rs| && Spans(rs[i], b);
      assert Inside(rs[i], b);
    }
    assert forall i :: 0 <= i < |rs| && Inside(rs[i], b) ==> Spans(rs[i], b);
    assert b in InitFrames(rs).used <==> b == 0 || !Spanned(rs, b);
  }

  /** While the available bytes fit in 32 bits the counter never underflows: it ends
      at least 1, counting every spanned block but one as free. */
  lemma {:induction false} InitCounter(rs: seq<Region>)
    requires SumLen(rs) < TWO32
    ensures InitFrames(rs).counter == InitTotal(rs) - SumBlocks(rs) + 1 >= 1
    ensures WellFormed(InitFrames(rs))
  {
    SumBlocksBound(rs);
    assert Wrap(SumLen(rs)) == SumLen(rs);
    assert 1 <= InitTotal(rs) - SumBlocks(rs) + 1 < TWO32;
  }

  /** The n numbers from `lo`. */
  ghost function Range(lo: nat, n: nat): (s: set<nat>)
    ensures |s| == n && forall b :: b in s <==> lo <= b < lo + n
  {
    if n == 0 then {} else Range(lo, n - 1) + {lo + n - 1}
  }

  /** The frames a memory map makes free, wherever they lie. */
  ghost function Covered(rs: seq<Region>): set<nat> {
    if rs == [] then {}
    else
      var r := rs[|rs| - 1];
      Covered(rs[..|rs| - 1]) + (if r.kind == AVAILABLE then Range(r.addr / PAGE, r.len / PAGE) else {})
  }

  lemma SpannedLast(rs: seq<Region>, b: nat)
    requires rs != []
    ensures Spanned(rs, b) <==> Spanned(rs[..|rs| - 1], b) || Spans(rs[|rs| - 1], b)
  {
    var rest := rs[..|rs| - 1];
    if Spanned(rs, b) {
      var i :| 0 <= i < |rs| && Spans(rs[i], b);
      if i < |rest| { assert Spans(rest[i], b); }
    }
    if Spanned(rest, b) {
      var i :| 0 <= i < |rest| && Spans(rest[i], b);
      assert Spans(rs[i], b);
    }
  }

  lemma {:induction false} CoveredIsSpanned(rs: seq<Region>, b: nat)
    ensures b in Covered(rs) <==> Spanned(rs, b)
  {
    if rs != [] {
      CoveredIsSpanned(rs[..|rs| - 1], b);
      SpannedLast(rs, b);
    }
  }

  ghost predicate Disjoint(rs: seq<Region>) {
    forall i, j, b :: 0 <= i < j < |rs| ==> !(Spans(rs[i], b) && Spans(rs[j], b))
  }

  lemma {:induction false} CoveredSize(rs: seq<Region>)
    requires Disjoint(rs)
    ensures |Covered(rs)| == SumBlocks(rs)
  {
    if rs != [] {
      var rest, r := rs[..|rs| - 1], rs[|rs| - 1];
      forall i, j, b | 0 <= i < j < |rest| ensures !(Spans(rest[i], b) && Spans(rest[j], b)) {
        assert rest[i] == rs[i] && rest[j] == rs[j];
      }
      CoveredSize(rest);
      if r.kind == AVAILABLE {
        var s := Range(r.addr / PAGE, r.len / PAGE);
        assert Covered(rs) == Covered(rest) + s;
        forall b | b in Covered(rest) ensures b !in s {
          CoveredIsSpanned(rest, b);
          var i :| 0 <= i < |rest| && Spans(rest[i], b);
          assert rest[i] == rs[i] && !(Spans(rs[i], b) && Spans(r, b));
        }
        assert Covered(rest) !! s;
      } else {
        assert Covered(rs) == Covered(rest);
      }
    }
  }

  /** The byte at x lies in an available region; available ones are of kind 1. */
  predicate Holds(r: Region, x: nat) {
    r.kind == 1 && r.addr <= x < r.addr + r.len
  }

  /** No byte lies in two available regions. */
  ghost predicate BytesDisjoint(rs: seq<Region>) {
    forall i, j, x :: 0 <= i < j < |rs| ==> !(Holds(rs[i], x) && Holds(rs[j], x))
  }

  /** `bytes` are the bytes that lie in some available region. */
  ghost predicate AreAvailable(rs: seq<Region>, bytes: set<nat>) {
    forall x :: x in bytes <==> exists i :: 0 <= i < |rs| && Holds(rs[i], x)
  }

  lemma LastBytes(rs: seq<Region>, bytes: set<nat>) returns (front: set<nat>, last: set<nat>)
    requires rs != [] && BytesDisjoint(rs) && AreAvailable(rs, bytes)
    ensures BytesDisjoint(rs[..|rs| - 1]) && AreAvailable(rs[..|rs| - 1], front)
    ensures forall x :: x in last <==> Holds(rs[|rs| - 1], x)
    ensures bytes == front + last && front !! last
  {
    var rest, r := rs[..|rs| - 1], rs[|rs| - 1];
    front := set x | x in bytes && exists i :: 0 <= i < |rest| && Holds(rest[i], x);
    last := set x | x in bytes && Holds(r, x);
    forall x ensures x in last <==> Holds(r, x) {
      if Holds(r, x) { assert Holds(rs[|rs| - 1], x); }
    }
    forall x ensures x in front <==> exists i :: 0 <= i < |rest| && Holds(rest[i], x) {
      if i :| 0 <= i < |rest| && Holds(rest[i], x) { assert Holds(rs[i], x); }
    }
    forall x | x in bytes ensures x in front || x in last {
      var i :| 0 <= i < |rs| && Holds(rs[i], x);
      if i < |rest| { assert Holds(rest[i], x); }
    }
    forall x | x in front ensures x !in last {
      var i :| 0 <= i < |rest| && Holds(rest[i], x);
      assert Holds(rs[i], x) && !(Holds(rs[i], x) && Holds(rs[|rs| - 1], x));
    }
    forall i, j, x | 0 <= i < j < |rest| ensures !(Holds(rest[i], x) && Holds(rest[j], x)) {
      assert rest[i] == rs[i] && rest[j] == rs[j];
    }
  }

  lemma RegionSize(r: Region, bytes: set<nat>)
    requires forall x :: x in bytes <==> Holds(r, x)
    ensures |bytes| == if r.kind == 1 then r.len else 0
  {
    if r.kind == 1 {
      assert bytes == Range(r.addr, r.len);
    } else {
      assert bytes == {};
    }
  }

  /** On regions that share no byte, what pmm_init sums up is the number of bytes that lie
      in some available region. */
  lemma {:induction false} SumLenCounts(rs: seq<Region>, bytes: set<nat>)
    requires BytesDisjoint(rs) && AreAvailable(rs, bytes)
    ensures SumLen(rs) == |bytes|
  {
    if rs == [] {
      assert bytes == {};
    } else {
      var front, last := LastBytes(rs, bytes);
      SumLenCounts(rs[..|rs| - 1], front);
      RegionSize(rs[|rs| - 1], last);
    }
  }

  /** The blocks pmm_init counts are the whole pages of those bytes, as long as they fit in
      32 bits; the ones its bitmap covers are the whole words of those. */
  lemma InitTotalCounts(rs: seq<Region>, bytes: set<nat>)
    requires BytesDisjoint(rs) && AreAvailable(rs, bytes) && |bytes| < TWO32
    ensures InitTotal(rs) * 4096 <= |bytes| < (InitTotal(rs) + 1) * 4096
    ensures var limit := InitFrames(rs).limit; limit % 32 == 0 && limit <= InitTotal(rs) < limit + 32
  {
    SumLenCounts(rs, bytes);
    assert Wrap(SumLen(rs)) == SumLen(rs);
  }

  /** The frames the allocator can still hand out. */
  ghost function Available(f: Frames): set<nat> {
    Range(0, f.limit) - f.used
  }

  lemma AvailableIsCovered(rs: seq<Region>)
    ensures Available(InitFrames(rs)) == set b | b in Covered(rs) && 0 < b < InitFrames(rs).limit
  {
    var f := InitFrames(rs);
    forall b: nat ensures b in Available(f) <==> b in Covered(rs) && 0 < b < f.limit {
      CoveredIsSpanned(rs, b);
    }
  }

  lemma KeptSize(s: set<nat>, limit: nat)
    ensures var kept := set b | b in s && 0 < b < limit;
            |kept| <= |s - {0}|
            && (|kept| == |s - {0}| <==> forall b :: b in s && b > 0 ==> b < limit)
  {
    var kept := set b | b in s && 0 < b < limit;
    SubsetSize(kept, s - {0});
    if forall b :: b in s && b > 0 ==> b < limit {
      assert kept == s - {0};
    } else {
      var b :| b in s && b > 0 && b >= limit;
      assert b in s - {0} && b !in kept;
    }
  }

  /** On disjoint regions that include block 0, the count pmm_init announces is the
      number of frames it can hand out exactly when every available block lies below
      the covered limit; a memory hole or a partial last word breaks it. */
  lemma AnnouncedFreeIff(rs: seq<Region>)
    requires Disjoint(rs) && SumLen(rs) < TWO32 && Spanned(rs, 0)
    ensures var f := InitFrames(rs);
            var announced := InitTotal(rs) - f.counter;
            && announced == SumBlocks(rs) - 1
            && |Available(f)| <= announced
            && (|Available(f)| == announced <==> forall b :: b > 0 && Spanned(rs, b) ==> b < f.limit)
  {
    InitCounter(rs);
    CoveredSize(rs);
    AvailableIsCovered(rs);
    KeptSize(Covered(rs), InitFrames(rs).limit);
    forall b: nat ensures b in Covered(rs) <==> Spanned(rs, b) {
      CoveredIsSpanned(rs, b);
    }
    assert |Covered(rs) - {0}| == |Covered(rs)| - 1;
  }

  lemma {:induction false} SubsetSize<T>(a: set<T>, b: set<T>)
    requires a <= b
    ensures |a| <= |b|
    ensures |a| == |b| ==> a == b
  {
    if a != {} {
      var x :| x in a;
      SubsetSize(a - {x}, b - {x});
    } else if b != {} {
      var x :| x in b;
      assert |b| > 0;
    }
  }
}
