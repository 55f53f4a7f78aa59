/**
 The kernel heap seen as the list of its blocks, in list order.  The functions
 here say what one pass of each loop of heap.c does to that list; the lemmas say
 what the list keeps.
 */
module HeapBlocks {
  import opened Machine

  const HEADER: nat := 12
  const ARENA: nat := 16 * 1024 * 1024

  datatype Block = Block(addr: nat, size: nat, free: bool) {
    function End(): nat { addr + HEADER + size }

    function Payload(): nat { addr + HEADER }

    predicate Fits(n: nat) { free && size >= n }

    /** The two blocks share no byte. */
    predicate Misses(b: Block) { End() <= b.addr || b.End() <= addr }
  }

  // ---------------------------------------------------------------- requests

  /** The request rounded up to whole pages, in 32-bit arithmetic. */
  function RoundUp(size: nat): nat {
    var s := Wrap(size + PAGE - 1);
    s - s % PAGE
  }

  /** How many frames a growth step asks for, in 32-bit arithmetic. */
  function FramesNeeded(n: nat): nat {
    Wrap(Wrap(n + HEADER) + PAGE - 1) / PAGE
  }

  /** Rounding serves the request exactly when the addition does not wrap; a
      wrapped request rounds to zero. */
  lemma RoundUpServesIff(size: nat)
    requires 0 < size < TWO32
    ensures size <= RoundUp(size) <==> size <= TWO32 - PAGE
    ensures size <= TWO32 - PAGE ==> RoundUp(size) % PAGE == 0 && RoundUp(size) < size + PAGE
    ensures size > TWO32 - PAGE ==> RoundUp(size) == 0
  {
    var t := size + PAGE - 1;
    if size <= TWO32 - PAGE {
      assert t % TWO32 == t;
      assert (t - t % PAGE) % PAGE == 0;
    } else {
      assert t % TWO32 == t - TWO32;
    }
  }

  lemma RoundUpAligned(size: nat)
    ensures RoundUp(size) < TWO32 && RoundUp(size) % PAGE == 0
  {
    var s := Wrap(size + PAGE - 1);
    assert s == s / PAGE * PAGE + s % PAGE;
    assert RoundUp(size) == s / PAGE * PAGE;
  }

  /** The frames asked for hold the rounded request and its header exactly when
      neither addition of the growth path wraps; otherwise none is asked for. */
  lemma FramesHoldRequestIff(n: nat)
    requires n % PAGE == 0 && n < TWO32
    ensures n + HEADER <= PAGE * FramesNeeded(n) <==> n < TWO32 - PAGE
    ensures n == TWO32 - PAGE ==> FramesNeeded(n) == 0
    ensures n < TWO32 - PAGE ==> FramesNeeded(n) == n / PAGE + 1
  {
    var k := n / PAGE;
    assert n == PAGE * k && k <= TWO32 / PAGE - 1;
    assert n <= TWO32 - PAGE;
    assert (n + HEADER) % TWO32 == n + HEADER;
    if n < TWO32 - PAGE {
      assert k <= TWO32 / PAGE - 2;
      assert (n + HEADER + PAGE - 1) % TWO32 == n + HEADER + PAGE - 1;
      assert (n + HEADER + PAGE - 1) / PAGE == k + 1;
    } else {
      assert (n + HEADER + PAGE - 1) % TWO32 == HEADER - 1;
    }
  }

  // -------------------------------------------------------------- operations

  /** Position of the first block that can serve `n` bytes, |bs| if none can. */
  function FirstFit(bs: seq<Block>, n: nat): (i: nat)
    ensures i <= |bs|
    ensures i < |bs| ==> bs[i].free && bs[i].size >= n
    ensures forall j :: 0 <= j < i ==> !(bs[j].free && bs[j].size >= n)
  {
    if bs == [] || bs[0].Fits(n) then 0 else 1 + FirstFit(bs[1..], n)
  }

  /** Position of the block whose header is at `addr`, |bs| if there is none. */
  function Find(bs: seq<Block>, addr: nat): (i: nat)
    ensures i <= |bs|
    ensures i < |bs| ==> bs[i].addr == addr
    ensures forall j :: 0 <= j < i ==> bs[j].addr != addr
  {
    if bs == [] || bs[0].addr == addr then 0 else 1 + Find(bs[1..], addr)
  }

  /** What serving `n` bytes from `b` leaves in its place. */
  function Carve(b: Block, n: nat): seq<Block>
    requires b.size >= n
  {
    if b.size > n + HEADER
    then [Block(b.addr, n, false), Block(b.addr + HEADER + n, b.size - n - HEADER, true)]
    else [b.(free := false)]
  }

  function Place(bs: seq<Block>, i: nat, n: nat): seq<Block>
    requires i < |bs| && bs[i].size >= n
  {
    bs[..i] + Carve(bs[i], n) + bs[i + 1..]
  }

  function Merge(a: Block, b: Block): Block {
    Block(a.addr, a.size + b.size + HEADER, true)
  }

  /** The single pass of kheap_free: it steps past a block it has just merged. */
  function Coalesce(bs: seq<Block>): seq<Block> {
    if bs == [] then []
    else if |bs| >= 2 && bs[0].free && bs[1].free then [Merge(bs[0], bs[1])] + Coalesce(bs[2..])
    else [bs[0]] + Coalesce(bs[1..])
  }

  function Freed(bs: seq<Block>, i: nat): seq<Block>
    requires i < |bs|
  {
    bs[i := bs[i].(free := true)]
  }

  // ---------------------------------------------------------------- measures

  /** Neighbours in the list that are both free. */
  function Pairs(bs: seq<Block>): nat {
    if |bs| < 2 then 0 else (if bs[0].free && bs[1].free then 1 else 0) + Pairs(bs[1..])
  }

  /** The allocated blocks, in list order. */
  function Used(bs: seq<Block>): seq<Block> {
    if bs == [] then [] else (if bs[0].free then [] else [bs[0]]) + Used(bs[1..])
  }

  function FreeBytes(bs: seq<Block>): nat {
    if bs == [] then 0 else (if bs[0].free then bs[0].size else 0) + FreeBytes(bs[1..])
  }

  function Sizes(bs: seq<Block>): nat {
    if bs == [] then 0 else bs[0].size + Sizes(bs[1..])
  }

  /** Headers and payloads of all blocks. */
  function Total(bs: seq<Block>): nat {
    if bs == [] then 0 else HEADER + bs[0].size + Total(bs[1..])
  }

  ghost predicate AllFree(bs: seq<Block>) {
    forall b :: b in bs ==> b.free
  }

  ghost predicate Positive(bs: seq<Block>) {
    forall b :: b in bs ==> b.size > 0
  }

  /** The blocks fill [lo, hi) in address order, without gap or overlap. */
  ghost predicate Tiles(bs: seq<Block>, lo: nat, hi: nat) {
    if bs == [] then lo == hi else bs[0].addr == lo && Tiles(bs[1..], bs[0].End(), hi)
  }

  /** Blocks in address order, possibly with gaps between them. */
  ghost predicate Ascending(bs: seq<Block>) {
    forall i, j :: 0 <= i < j < |bs| ==> bs[i].End() <= bs[j].addr
  }

  /** No two blocks share a byte; the list order need not be the address order. */
  ghost predicate Separated(bs: seq<Block>) {
    forall i, j :: 0 <= i < j < |bs| ==> bs[i].Misses(bs[j])
  }

  ghost predicate Owns(bs: seq<Block>, a: nat) {
    exists b :: b in bs && b.addr <= a < b.End()
  }

  // ----------------------------------------------------- measures and append

  lemma Regroup<T>(x: seq<T>, y: seq<T>, z: seq<T>)
    ensures x + (y + z) == x + y + z
  {}

  lemma {:induction false} PairsAppend(a: seq<Block>, b: seq<Block>)
    ensures Pairs(a + b) == Pairs(a) + Pairs(b)
                            + (if a != [] && b != [] && a[|a| - 1].free && b[0].free then 1 else 0)
  {
    if a == [] {
      assert a + b == b;
    } else {
      PairsAppend(a[1..], b);
      assert (a + b)[1..] == a[1..] + b;
    }
  }

  lemma {:induction false} UsedAppend(a: seq<Block>, b: seq<Block>)
    ensures Used(a + b) == Used(a) + Used(b)
  {
    if a == [] {
      assert a + b == b;
    } else {
      UsedAppend(a[1..], b);
      assert (a + b)[1..] == a[1..] + b;
      Regroup(if a[0].free then [] else [a[0]], Used(a[1..]), Used(b));
    }
  }

  lemma UsedAround(a: seq<Block>, b: Block, z: seq<Block>)
    ensures b.free ==> Used(a + [b] + z) == Used(a) + Used(z)
    ensures !b.free ==> Used(a + [b] + z) == Used(a) + [b] + Used(z)
  {
    UsedAppend(a, [b]);
    UsedAppend(a + [b], z);
    if b.free {
      assert Used([b]) == [];
      assert Used(a + [b]) == Used(a);
    } else {
      assert Used([b]) == [b];
    }
  }

  lemma {:induction false} SumsAppend(a: seq<Block>, b: seq<Block>)
    ensures Total(a + b) == Total(a) + Total(b)
    ensures FreeBytes(a + b) == FreeBytes(a) + FreeBytes(b)
  {
    if a == [] {
      assert a + b == b;
    } else {
      SumsAppend(a[1..], b);
      assert (a + b)[1..] == a[1..] + b;
    }
  }

  lemma {:induction false} TilesAppend(a: seq<Block>, b: seq<Block>, lo: nat, hi: nat)
    ensures Tiles(a + b, lo, hi) <==> Tiles(a, lo, lo + Total(a)) && Tiles(b, lo + Total(a), hi)
  {
    if a == [] {
      assert a + b == b;
    } else {
      TilesAppend(a[1..], b, a[0].End(), hi);
      assert (a + b)[1..] == a[1..] + b;
    }
  }

  // -------------------------------------------------- the coalescing pass

  lemma {:induction false} CoalesceFront(bs: seq<Block>)
    ensures Coalesce(bs) == [] <==> bs == []
    ensures bs != [] ==> Coalesce(bs)[0].addr == bs[0].addr && Coalesce(bs)[0].free == bs[0].free
  {}

  /** A pass at least halves the number of free neighbour pairs. */
  lemma {:induction false} CoalesceHalvesPairs(bs: seq<Block>)
    ensures 2 * Pairs(Coalesce(bs)) <= Pairs(bs)
  {
    if |bs| >= 2 && bs[0].free && bs[1].free {
      CoalesceHalvesPairs(bs[2..]);
      CoalesceFront(bs[2..]);
      assert bs[1..][1..] == bs[2..];
      assert Coalesce(bs)[1..] == Coalesce(bs[2..]);
    } else if bs != [] {
      CoalesceHalvesPairs(bs[1..]);
      CoalesceFront(bs[1..]);
      assert Coalesce(bs)[1..] == Coalesce(bs[1..]);
    }
  }

  /** No three blocks in a row are free. */
  predicate NoFreeTriple(bs: seq<Block>) {
    forall i :: 0 <= i < |bs| - 2 ==> !(bs[i].free && bs[i + 1].free && bs[i + 2].free)
  }

  lemma NoFreeTripleCons(bs: seq<Block>)
    requires bs != []
    ensures NoFreeTriple(bs)
            <==> NoFreeTriple(bs[1..]) && !(|bs| > 2 && bs[0].free && bs[1].free && bs[2].free)
  {
    if NoFreeTriple(bs) {
      forall i | 0 <= i < |bs| - 3 ensures !(bs[1..][i].free && bs[1..][i + 1].free && bs[1..][i + 2].free) {
        assert !(bs[i + 1].free && bs[i + 2].free && bs[i + 3].free);
      }
    } else {
      var i :| 0 <= i < |bs| - 2 && bs[i].free && bs[i + 1].free && bs[i + 2].free;
      if i > 0 {
        assert bs[1..][i - 1].free && bs[1..][i].free && bs[1..][i + 1].free;
      }
    }
  }

  /** Coalescing is complete, leaving no free neighbours, exactly when no three blocks in
      a row were free before the pass. */
  lemma {:induction false} PassLeavesNoPairIff(bs: seq<Block>)
    ensures Pairs(Coalesce(bs)) == 0 <==> NoFreeTriple(bs)
  {
    if |bs| >= 2 && bs[0].free && bs[1].free {
      PassLeavesNoPairIff(bs[2..]);
      CoalesceFront(bs[2..]);
      NoFreeTripleCons(bs);
      NoFreeTripleCons(bs[1..]);
      assert bs[1..][1..] == bs[2..];
      assert Coalesce(bs)[1..] == Coalesce(bs[2..]);
    } else if bs != [] {
      PassLeavesNoPairIff(bs[1..]);
      CoalesceFront(bs[1..]);
      NoFreeTripleCons(bs);
      assert Coalesce(bs)[1..] == Coalesce(bs[1..]);
    }
  }

  lemma {:induction false} NoPairAt(bs: seq<Block>, i: nat)
    requires Pairs(bs) == 0 && i < |bs| - 1
    ensures !(bs[i].free && bs[i + 1].free)
  {
    if i > 0 {
      NoPairAt(bs[1..], i - 1);
    }
  }

  /** Seen before the release: on a list without free neighbours, releasing a used block
      leaves three free blocks in a row exactly when both its neighbours are free. */
  lemma FreedTripleIff(bs: seq<Block>, i: nat)
    requires i < |bs| && Pairs(bs) == 0
    ensures NoFreeTriple(Freed(bs, i)) <==> !(0 < i < |bs| - 1 && bs[i - 1].free && bs[i + 1].free)
  {
    var f := Freed(bs, i);
    if 0 < i < |bs| - 1 && bs[i - 1].free && bs[i + 1].free {
      assert f[i - 1].free && f[i - 1 + 1].free && f[i - 1 + 2].free;
    } else {
      forall j | 0 <= j < |f| - 2 ensures !(f[j].free && f[j + 1].free && f[j + 2].free) {
        NoPairAt(bs, j);
        NoPairAt(bs, j + 1);
      }
    }
  }

  lemma {:induction false} CoalesceKeepsUsed(bs: seq<Block>)
    ensures Used(Coalesce(bs)) == Used(bs) && Total(Coalesce(bs)) == Total(bs)
    ensures Positive(bs) ==> Positive(Coalesce(bs))
  {
    if |bs| >= 2 && bs[0].free && bs[1].free {
      CoalesceKeepsUsed(bs[2..]);
      assert bs[1..][1..] == bs[2..];
      assert Coalesce(bs)[1..] == Coalesce(bs[2..]);
    } else if bs != [] {
      CoalesceKeepsUsed(bs[1..]);
      assert Coalesce(bs)[1..] == Coalesce(bs[1..]);
    }
  }

  lemma {:induction false} CoalesceFreesHeaders(bs: seq<Block>)
    ensures |Coalesce(bs)| <= |bs| && (Pairs(bs) > 0 ==> |Coalesce(bs)| < |bs|)
    ensures FreeBytes(Coalesce(bs)) == FreeBytes(bs) + HEADER * (|bs| - |Coalesce(bs)|)
  {
    if |bs| >= 2 && bs[0].free && bs[1].free {
      CoalesceFreesHeaders(bs[2..]);
      assert bs[1..][1..] == bs[2..];
      assert Coalesce(bs)[1..] == Coalesce(bs[2..]);
    } else if bs != [] {
      CoalesceFreesHeaders(bs[1..]);
      assert Coalesce(bs)[1..] == Coalesce(bs[1..]);
    }
  }

  /** A pass neither moves, resizes, reorders nor drops an allocated block, keeps
      the bytes of headers and payloads, and turns each merged header into free
      payload. */
  lemma {:induction false} CoalesceKeeps(bs: seq<Block>)
    ensures Used(Coalesce(bs)) == Used(bs)
    ensures Total(Coalesce(bs)) == Total(bs)
    ensures |Coalesce(bs)| <= |bs|
    ensures FreeBytes(Coalesce(bs)) == FreeBytes(bs) + HEADER * (|bs| - |Coalesce(bs)|)
    ensures Positive(bs) ==> Positive(Coalesce(bs))
    ensures Pairs(bs) > 0 ==> |Coalesce(bs)| < |bs|
  {
    CoalesceKeepsUsed(bs);
    CoalesceFreesHeaders(bs);
  }

  lemma {:induction false} CoalesceTiles(bs: seq<Block>, lo: nat, hi: nat)
    requires Tiles(bs, lo, hi)
    ensures Tiles(Coalesce(bs), lo, hi)
  {
    if |bs| >= 2 && bs[0].free && bs[1].free {
      assert bs[1..][1..] == bs[2..];
      CoalesceTiles(bs[2..], bs[1].End(), hi);
      assert Coalesce(bs)[1..] == Coalesce(bs[2..]);
    } else if bs != [] {
      CoalesceTiles(bs[1..], bs[0].End(), hi);
      assert Coalesce(bs)[1..] == Coalesce(bs[1..]);
    }
  }

  /** A run of k free blocks alone becomes ceil(k/2) free blocks. */
  lemma {:induction false} CoalesceFreeRun(run: seq<Block>)
    requires AllFree(run)
    ensures AllFree(Coalesce(run))
    ensures |Coalesce(run)| == (|run| + 1) / 2
  {
    if |run| >= 2 {
      assert run[0] in run && run[1] in run;
      CoalesceFreeRun(run[2..]);
    } else if |run| == 1 {
      assert Coalesce(run) == run;
    }
  }

  /** The pass treats what lies before a used block and what starts at it apart. */
  lemma {:induction false} CoalesceSplitsBeforeUsed(a: seq<Block>, b: seq<Block>)
    requires b == [] || !b[0].free
    ensures Coalesce(a + b) == Coalesce(a) + Coalesce(b)
  {
    if a == [] {
      assert a + b == b;
    } else if |a| >= 2 && a[0].free && a[1].free {
      CoalesceSplitsBeforeUsed(a[2..], b);
      assert (a + b)[2..] == a[2..] + b;
      Regroup([Merge(a[0], a[1])], Coalesce(a[2..]), Coalesce(b));
    } else {
      CoalesceSplitsBeforeUsed(a[1..], b);
      assert (a + b)[1..] == a[1..] + b;
      assert Coalesce(a + b) == [a[0]] + Coalesce(a[1..] + b);
      Regroup([a[0]], Coalesce(a[1..]), Coalesce(b));
    }
  }

  lemma CoalesceSplitsAfterUsed(a: seq<Block>, b: seq<Block>)
    requires a == [] || !a[|a| - 1].free
    ensures Coalesce(a + b) == Coalesce(a) + Coalesce(b)
  {
    if a == [] {
      assert a + b == b;
    } else {
      var front, u := a[..|a| - 1], a[|a| - 1..];
      assert a == front + u;
      Regroup(front, u, b);
      CoalesceSplitsBeforeUsed(front, u + b);
      CoalesceSplitsBeforeUsed(front, u);
      CoalesceUsedFirst(u, b);
      Regroup(Coalesce(front), u, Coalesce(b));
    }
  }

  lemma CoalesceUsedFirst(u: seq<Block>, b: seq<Block>)
    requires |u| == 1 && !u[0].free
    ensures Coalesce(u) == u && Coalesce(u + b) == u + Coalesce(b)
  {
    assert (u + b)[1..] == b && u[1..] == [];
  }

  /** Exact effect of the pass: wherever a maximal run of k free blocks stands in
      the list, ceil(k/2) free blocks holding the same bytes stand after it, and the
      rest of the list is treated as if the run were not there. */
  lemma CoalesceMaximalRun(pre: seq<Block>, run: seq<Block>, post: seq<Block>)
    requires pre == [] || !pre[|pre| - 1].free
    requires post == [] || !post[0].free
    requires AllFree(run)
    ensures Coalesce(pre + run + post) == Coalesce(pre) + Coalesce(run) + Coalesce(post)
    ensures |Coalesce(run)| == (|run| + 1) / 2 && AllFree(Coalesce(run))
    ensures Total(Coalesce(run)) == Total(run)
  {
    CoalesceSplitsBeforeUsed(pre + run, post);
    CoalesceSplitsAfterUsed(pre, run);
    CoalesceFreeRun(run);
    CoalesceKeeps(run);
  }

  // ----------------------------------------------------- one allocation

  lemma CarveFacts(b: Block, n: nat)
    requires b.Fits(n)
    ensures Pairs(Carve(b, n)) == 0 && !Carve(b, n)[0].free
    ensures Total(Carve(b, n)) == Total([b])
    ensures FreeBytes(Carve(b, n)) <= FreeBytes([b])
    ensures Used([b]) == [] && |Used(Carve(b, n))| == 1
    ensures var u := Used(Carve(b, n))[0]; u.addr == b.addr && n <= u.size <= n + HEADER && !u.free
    ensures Tiles(Carve(b, n), b.addr, b.End())
    ensures n > 0 ==> Positive(Carve(b, n))
  {
    var c := Carve(b, n);
    assert c[1..] == [] || c[1..] == [c[1]];
    if |c| == 2 {
      assert Used(c[1..]) == [] && c[1..][1..] == [];
    }
  }

  lemma {:induction false} PlaceSums(bs: seq<Block>, i: nat, n: nat)
    requires i < |bs| && bs[i].Fits(n)
    ensures Total(Place(bs, i, n)) == Total(bs)
    ensures FreeBytes(Place(bs, i, n)) <= FreeBytes(bs)
    ensures n > 0 && Positive(bs) ==> Positive(Place(bs, i, n))
  {
    var a, c, z := bs[..i], Carve(bs[i], n), bs[i + 1..];
    assert bs == a + [bs[i]] + z;
    CarveFacts(bs[i], n);
    SumsAppend(a, c); SumsAppend(a + c, z);
    SumsAppend(a, [bs[i]]); SumsAppend(a + [bs[i]], z);
  }

  /** Serving a request never adds a pair of free neighbours. */
  lemma {:induction false} PlacePairs(bs: seq<Block>, i: nat, n: nat)
    requires i < |bs| && bs[i].Fits(n)
    ensures Pairs(Place(bs, i, n)) <= Pairs(bs)
  {
    var a, c, z := bs[..i], Carve(bs[i], n), bs[i + 1..];
    assert bs == a + [bs[i]] + z;
    CarveFacts(bs[i], n);
    PairsAppend(a, c); PairsAppend(a + c, z);
    PairsAppend(a, [bs[i]]); PairsAppend(a + [bs[i]], z);
  }

  /** Serving a request adds one live block, at the chosen place, of between `n`
      and `n + 12` bytes, and leaves every other live block as it was. */
  lemma PlaceUsed(bs: seq<Block>, i: nat, n: nat) returns (u: Block)
    requires i < |bs| && bs[i].Fits(n)
    ensures u.addr == bs[i].addr && n <= u.size <= n + HEADER && !u.free
    ensures Used(bs) == Used(bs[..i]) + Used(bs[i + 1..])
    ensures Used(Place(bs, i, n)) == Used(bs[..i]) + [u] + Used(bs[i + 1..])
    ensures u in Place(bs, i, n)
  {
    var a, c, z := bs[..i], Carve(bs[i], n), bs[i + 1..];
    assert bs == a + [bs[i]] + z;
    CarveFacts(bs[i], n);
    u := Used(c)[0];
    assert u == c[0];
    UsedAppend(a, c); UsedAppend(a + c, z);
    UsedAppend(a, [bs[i]]); UsedAppend(a + [bs[i]], z);
  }

  lemma PlaceTiles(bs: seq<Block>, i: nat, n: nat, lo: nat, hi: nat)
    requires i < |bs| && bs[i].Fits(n)
    requires Tiles(bs, lo, hi)
    ensures Tiles(Place(bs, i, n), lo, hi)
  {
    var a, c, z := bs[..i], Carve(bs[i], n), bs[i + 1..];
    assert bs == a + ([bs[i]] + z);
    assert Place(bs, i, n) == a + (c + z);
    CarveFacts(bs[i], n);
    TilesAppend(a, [bs[i]] + z, lo, hi);
    TilesAppend(a, c + z, lo, hi);
    TilesAppend([bs[i]], z, lo + Total(a), hi);
    TilesAppend(c, z, lo + Total(a), hi);
  }

  // ------------------------------------------------------------ one release

  lemma FreedShape(bs: seq<Block>, i: nat)
    requires i < |bs|
    ensures bs == bs[..i] + [bs[i]] + bs[i + 1..]
    ensures Freed(bs, i) == bs[..i] + [bs[i].(free := true)] + bs[i + 1..]
  {}

  /** Releasing a block adds at most two pairs of free neighbours before the pass. */
  lemma FreedPairs(bs: seq<Block>, i: nat)
    requires i < |bs|
    ensures Pairs(Freed(bs, i)) <= Pairs(bs) + 2
  {
    var a, z := bs[..i], bs[i + 1..];
    var b, f := [bs[i]], [bs[i].(free := true)];
    FreedShape(bs, i);
    PairsAppend(a, b); PairsAppend(a + b, z);
    PairsAppend(a, f); PairsAppend(a + f, z);
  }

  lemma FreedSums(bs: seq<Block>, i: nat)
    requires i < |bs|
    ensures Total(Freed(bs, i)) == Total(bs)
    ensures FreeBytes(Freed(bs, i)) == FreeBytes(bs) + (if bs[i].free then 0 else bs[i].size)
  {
    var a, z := bs[..i], bs[i + 1..];
    var b, f := [bs[i]], [bs[i].(free := true)];
    FreedShape(bs, i);
    SumsAppend(a, b); SumsAppend(a + b, z); SumsAppend(a, f); SumsAppend(a + f, z);
  }

  /** Releasing a block takes that block, and no other, out of the live ones. */
  lemma FreedUsed(bs: seq<Block>, i: nat)
    requires i < |bs|
    ensures !bs[i].free ==> Used(bs) == Used(bs[..i]) + [bs[i]] + Used(bs[i + 1..])
    ensures Used(Freed(bs, i)) == Used(bs[..i]) + Used(bs[i + 1..])
  {
    FreedShape(bs, i);
    UsedAround(bs[..i], bs[i], bs[i + 1..]);
    UsedAround(bs[..i], bs[i].(free := true), bs[i + 1..]);
  }

  lemma FreedPositive(bs: seq<Block>, i: nat)
    requires i < |bs| && Positive(bs)
    ensures Positive(Freed(bs, i))
  {
    assert bs[i] in bs;
  }

  lemma {:induction false} FreedTiles(bs: seq<Block>, i: nat, lo: nat, hi: nat)
    requires i < |bs|
    ensures Tiles(Freed(bs, i), lo, hi) <==> Tiles(bs, lo, hi)
  {
    if i > 0 {
      FreedTiles(bs[1..], i - 1, bs[0].End(), hi);
      assert Freed(bs, i)[1..] == Freed(bs[1..], i - 1);
    } else {
      assert Freed(bs, i)[1..] == bs[1..];
    }
  }

  // ------------------------------------------------------------- consequences

  /** Free blocks outnumber used ones by at most one, plus one for each pair. */
  lemma {:induction false} BlocksBound(bs: seq<Block>)
    ensures |bs| <= 2 * |Used(bs)| + Pairs(bs) + (if bs != [] && bs[0].free then 1 else 0)
  {
    if bs != [] {
      BlocksBound(bs[1..]);
    }
  }

  /** Every byte of the list is free payload, live payload or header. */
  lemma {:induction false} BytesAccounted(bs: seq<Block>)
    ensures FreeBytes(bs) + Sizes(Used(bs)) + HEADER * |bs| == Total(bs)
  {
    if bs != [] {
      BytesAccounted(bs[1..]);
      assert bs[0].free ==> Used(bs) == Used(bs[1..]);
      assert !bs[0].free ==> Used(bs)[1..] == Used(bs[1..]);
    }
  }

  lemma {:induction false} TilesAscending(bs: seq<Block>, lo: nat, hi: nat)
    requires Tiles(bs, lo, hi)
    ensures Ascending(bs) && Separated(bs)
    ensures hi == lo + Total(bs)
    ensures forall b :: b in bs ==> lo <= b.addr && b.End() <= hi
    ensures forall i :: 0 <= i < |bs| - 1 ==> bs[i].End() == bs[i + 1].addr
  {
    if bs != [] {
      TilesAscending(bs[1..], bs[0].End(), hi);
      forall b | b in bs ensures lo <= b.addr && b.End() <= hi {
        if b != bs[0] { assert b in bs[1..]; }
      }
      forall i, j | 0 <= i < j < |bs| ensures bs[i].End() <= bs[j].addr {
        assert bs[j] == bs[1..][j - 1] && bs[j] in bs[1..];
        if i > 0 { assert bs[i] == bs[1..][i - 1]; }
      }
      forall i | 0 <= i < |bs| - 1 ensures bs[i].End() == bs[i + 1].addr {
        if i > 0 { assert bs[i] == bs[1..][i - 1] && bs[i + 1] == bs[1..][i]; }
      }
    }
  }
}
