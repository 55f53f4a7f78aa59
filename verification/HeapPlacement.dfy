/**
 Where the blocks of the heap lie, growth included.  kheap_free never checks that the
 blocks it merges touch, and the growth path never checks where its frames lie: here is
 what that does to the bytes the heap lays claim to.
 */
module HeapPlacement {
  import opened Machine
  import FrameSet
  import opened HeapBlocks
  import opened HeapRuns

  // ------------------------------------------------ merging across a gap

  /** Every merge of the pass joins blocks that touch. */
  predicate MergesTouch(bs: seq<Block>) {
    if bs == [] then true
    else if |bs| >= 2 && bs[0].free && bs[1].free
    then bs[0].End() == bs[1].addr && MergesTouch(bs[2..])
    else MergesTouch(bs[1..])
  }

  lemma OwnsAppend(a: seq<Block>, b: seq<Block>, x: nat)
    ensures Owns(a + b, x) <==> Owns(a, x) || Owns(b, x)
  {
    assert forall c :: c in a + b <==> c in a || c in b;
  }

  lemma {:induction false} TouchingMergesKeepBytes(bs: seq<Block>, x: nat)
    requires MergesTouch(bs)
    ensures Owns(Coalesce(bs), x) <==> Owns(bs, x)
  {
    if |bs| >= 2 && bs[0].free && bs[1].free {
      TouchingMergesKeepBytes(bs[2..], x);
      var m := [Merge(bs[0], bs[1])];
      OwnsAppend(m, Coalesce(bs[2..]), x);
      assert bs == bs[..2] + bs[2..];
      OwnsAppend(bs[..2], bs[2..], x);
      assert bs[..2] == [bs[0], bs[1]];
      assert m[0] in m && bs[0] in bs[..2] && bs[1] in bs[..2];
    } else if bs != [] {
      TouchingMergesKeepBytes(bs[1..], x);
      OwnsAppend([bs[0]], Coalesce(bs[1..]), x);
      assert bs == [bs[0]] + bs[1..];
      OwnsAppend([bs[0]], bs[1..], x);
    }
  }

  lemma GapByte(bs: seq<Block>, m: Block, c: seq<Block>)
    requires Ascending(bs) && |bs| >= 2 && bs[0].End() != bs[1].addr && m == Merge(bs[0], bs[1])
    ensures Owns([m] + c, bs[0].End()) && !Owns(bs, bs[0].End())
  {
    var x := bs[0].End();
    assert bs[0].End() <= bs[1].addr;
    assert m in [m] && m.addr <= x < m.End();
    OwnsAppend([m], c, x);
    forall b | b in bs ensures !(b.addr <= x < b.End()) {
      var j :| 0 <= j < |bs| && bs[j] == b;
      if j > 1 { assert bs[1].End() <= bs[j].addr; }
    }
  }

  lemma ClaimedLater(front: seq<Block>, z: seq<Block>, first: Block, c: seq<Block>, x: nat)
    requires Owns(c, x) && !Owns(z, x) && forall b :: b in front ==> b.End() <= x
    ensures Owns([first] + c, x) && !Owns(front + z, x)
  {
    OwnsAppend([first], c, x);
    OwnsAppend(front, z, x);
  }

  lemma {:induction false} GapMergeClaimsByte(bs: seq<Block>) returns (x: nat)
    requires Ascending(bs) && !MergesTouch(bs)
    ensures Owns(Coalesce(bs), x) && !Owns(bs, x) && bs[0].End() <= x
  {
    var both := bs[0].free && bs[1].free;
    if both && bs[0].End() != bs[1].addr {
      x := bs[0].End();
      GapByte(bs, Merge(bs[0], bs[1]), Coalesce(bs[2..]));
    } else {
      var n := if both then 2 else 1;
      var front, z := bs[..n], bs[n..];
      x := GapMergeClaimsByte(z);
      assert bs == front + z && z[0] == bs[n];
      assert forall j :: 0 <= j < n ==> bs[j].End() <= bs[n].addr;
      ClaimedLater(front, z, if both then Merge(bs[0], bs[1]) else bs[0], Coalesce(z), x);
    }
  }

  /** kheap_free never checks that the blocks it merges touch.  On a list in address
      order, the heap lays claim to the same bytes before and after the pass exactly
      when every pair it merges does touch. */
  lemma PassKeepsBytesIff(bs: seq<Block>)
    requires Ascending(bs)
    ensures (forall x :: Owns(Coalesce(bs), x) <==> Owns(bs, x)) <==> MergesTouch(bs)
  {
    if MergesTouch(bs) {
      forall x ensures Owns(Coalesce(bs), x) <==> Owns(bs, x) {
        TouchingMergesKeepBytes(bs, x);
      }
    } else {
      var x := GapMergeClaimsByte(bs);
    }
  }

  lemma {:induction false} TilingMergesTouch(bs: seq<Block>, lo: nat, hi: nat)
    requires Tiles(bs, lo, hi)
    ensures MergesTouch(bs)
  {
    if |bs| >= 2 && bs[0].free && bs[1].free {
      assert bs[1..][1..] == bs[2..];
      TilingMergesTouch(bs[2..], bs[1].End(), hi);
    } else if bs != [] {
      TilingMergesTouch(bs[1..], bs[0].End(), hi);
    }
  }

  /** What the merge of the two blocks claims, seen from where the second one lies. */
  lemma MergeClaimsIff(a: Block, b: Block)
    requires a.free && b.free && a.addr != b.addr
    ensures (forall x :: Owns([Merge(a, b)], x) <==> Owns([a, b], x)) <==> b.addr == a.End()
  {
    var m := Merge(a, b);
    assert m in [m] && a in [a, b] && b in [a, b];
    if b.addr == a.End() {
      assert forall x: nat :: Owns([m], x) <==> m.addr <= x < m.End();
      assert forall x: nat :: Owns([a, b], x) <==> a.addr <= x < a.End() || b.addr <= x < b.End();
    } else if b.addr < a.addr {
      assert Owns([a, b], b.addr) && !Owns([m], b.addr);
    } else {
      var x := if b.addr < a.End() then m.End() - 1 else a.End();
      assert Owns([m], x) && !Owns([a, b], x);
    }
  }

  /** Growth on an untouched heap, and release of what it answered: the heap then claims
      the bytes it had, and no others, exactly when the growth frames start where the
      arena ends, wherever else they lie. */
  lemma GrowthReleaseKeepsBytesIff(start: nat, size: nat, frames: seq<nat>)
    requires 0 < size <= TWO32 - 2 * PAGE && RoundUp(size) > ARENA - HEADER
    requires |frames| >= FramesNeeded(RoundUp(size)) && frames != [] && frames[0] != start
    ensures var r := AllocStep(Fresh(start), size, frames);
            Releasable(r.blocks, r.ptr)
            && ((forall x :: Owns(FreeStep(r.blocks, r.ptr), x) <==> Owns(r.blocks, x))
                <==> frames[0] == start + ARENA)
  {
    var n := RoundUp(size);
    RoundUpServesIff(size);
    FramesHoldRequestIff(n);
    var a, b := Fresh(start)[0], Block(frames[0], n, true);
    var bs := [a, b.(free := false)];
    assert AllocStep(Fresh(start), size, frames) == Outcome(bs, b.Payload());
    SecondReleased(a, b);
    MergeClaimsIff(a, b);
    forall x: nat ensures Owns([a, b], x) <==> Owns(bs, x) {
      assert b in [a, b] && bs[1] in bs && a in bs && a in [a, b];
    }
  }

  lemma SecondReleased(a: Block, b: Block)
    requires a.free && b.free && a.addr != b.addr
    ensures var bs := [a, b.(free := false)];
            Releasable(bs, b.Payload()) && FreeStep(bs, b.Payload()) == [Merge(a, b)]
  {
    var bs := [a, b.(free := false)];
    assert bs[1..] == [bs[1]];
    assert Find(bs[1..], b.addr) == 0;
    FreeStepAt(bs, 1, b.addr);
    assert Freed(bs, 1) == [a, b] && [a, b][2..] == [];
  }

  // --------------------------------------------------- blocks that do not overlap

  /** No block of `bs` shares a byte with x. */
  ghost predicate Clear(bs: seq<Block>, x: Block) {
    forall b :: b in bs ==> x.Misses(b)
  }

  /** The blocks lie in 32-bit memory past NULL, and no two of them share a byte. */
  ghost predicate Placed(bs: seq<Block>) {
    Separated(bs) && forall b :: b in bs ==> 0 < b.addr && b.End() <= TWO32
  }

  lemma SeparatedTail(bs: seq<Block>)
    requires bs != [] && Separated(bs)
    ensures Clear(bs[1..], bs[0]) && Separated(bs[1..])
  {
    var z := bs[1..];
    forall j | 0 <= j < |z| ensures bs[0].Misses(z[j]) {
      assert z[j] == bs[j + 1];
    }
    forall i, j | 0 <= i < j < |z| ensures z[i].Misses(z[j]) {
      assert z[i] == bs[i + 1] && z[j] == bs[j + 1];
    }
  }

  lemma SeparatedCons(x: Block, z: seq<Block>)
    requires Clear(z, x) && Separated(z)
    ensures Separated([x] + z)
  {
    var bs := [x] + z;
    forall i, j | 0 <= i < j < |bs| ensures bs[i].Misses(bs[j]) {
      assert bs[j] == z[j - 1] && z[j - 1] in z;
      if i > 0 { assert bs[i] == z[i - 1]; }
    }
  }

  lemma ClearAppend(a: seq<Block>, b: seq<Block>, x: Block)
    ensures Clear(a + b, x) <==> Clear(a, x) && Clear(b, x)
  {
    assert forall c :: c in a + b <==> c in a || c in b;
  }

  /** Every block of a misses every block of b. */
  ghost predicate Apart(a: seq<Block>, b: seq<Block>) {
    forall c :: c in a ==> Clear(b, c)
  }

  lemma {:induction false} SeparatedAppend(a: seq<Block>, b: seq<Block>)
    ensures Separated(a + b) <==> Separated(a) && Separated(b) && Apart(a, b)
  {
    if a == [] {
      assert a + b == b;
    } else {
      var x, z := a[0], a[1..];
      SeparatedAppend(z, b);
      assert a == [x] + z && a + b == [x] + (z + b);
      ClearAppend(z, b, x);
      assert forall c :: c in a <==> c == x || c in z;
      if Separated(a + b) {
        SeparatedTail(a + b);
        SeparatedCons(x, z);
      } else if Separated(a) && Separated(b) && Apart(a, b) {
        SeparatedTail(a);
        SeparatedCons(x, z + b);
      }
    }
  }

  lemma SeparatedPlace(bs: seq<Block>, i: nat, n: nat)
    requires Separated(bs) && i < |bs| && bs[i].Fits(n)
    ensures Separated(Place(bs, i, n))
  {
    var a, x, z, c := bs[..i], bs[i], bs[i + 1..], Carve(bs[i], n);
    assert bs == a + [x] + z;
    SeparatedAppend(a + [x], z); SeparatedAppend(a, [x]);
    SeparatedAppend(a + c, z); SeparatedAppend(a, c);
    CarveInside(x, n);
    forall b | b in a ensures Clear(c, b) {
      assert x in [x] && b.Misses(x);
    }
    forall b | b in a + c ensures Clear(z, b) {
      assert x in a + [x] && Clear(z, x);
    }
  }

  lemma CarveInside(x: Block, n: nat)
    requires x.size >= n
    ensures Separated(Carve(x, n))
    ensures forall b :: b in Carve(x, n) ==> x.addr <= b.addr && b.End() <= x.End()
  {}

  lemma PlacedPlace(bs: seq<Block>, i: nat, n: nat)
    requires Placed(bs) && i < |bs| && bs[i].Fits(n)
    ensures Placed(Place(bs, i, n))
  {
    SeparatedPlace(bs, i, n);
    CarveInside(bs[i], n);
  }

  // ------------------------------------------------- what a pass does to them

  /** The pass merges the blocks at j and j + 1: both are free, and it has not merged
      the one at j into the one before. */
  predicate MergedAt(bs: seq<Block>, j: nat) {
    j + 1 < |bs| && bs[j].free && bs[j + 1].free && !(j > 0 && MergedAt(bs, j - 1))
  }

  /** The block at x is not merged into the one before it. */
  predicate KeptAt(bs: seq<Block>, x: nat) {
    x < |bs| && !(x > 0 && MergedAt(bs, x - 1))
  }

  /** What the pass makes of a block it keeps. */
  function After(bs: seq<Block>, x: nat): Block
    requires x < |bs|
  {
    if MergedAt(bs, x) then Merge(bs[x], bs[x + 1]) else bs[x]
  }

  /** Every merged block, laid from its left end on, ends within 32 bits and before the
      header of any other block that is kept. */
  ghost predicate PassFits(bs: seq<Block>) {
    && (forall j: nat :: MergedAt(bs, j) ==> After(bs, j).End() <= TWO32)
    && forall j: nat, x: nat :: MergedAt(bs, j) && KeptAt(bs, x) ==> !(bs[j].addr < bs[x].addr < After(bs, j).End())
  }

  /** How many blocks the first turn of the pass takes in. */
  function Turn(bs: seq<Block>): (n: nat)
    requires bs != []
    ensures 1 <= n <= |bs|
  {
    if |bs| >= 2 && bs[0].free && bs[1].free then 2 else 1
  }

  lemma TurnMerges(bs: seq<Block>)
    requires bs != []
    ensures (MergedAt(bs, 0) <==> Turn(bs) == 2) && !MergedAt(bs, Turn(bs) - 1)
  {
    assert Turn(bs) == 2 ==> MergedAt(bs, 0);
  }

  lemma {:induction false} MergedShift(bs: seq<Block>, j: nat)
    requires bs != []
    ensures MergedAt(bs, Turn(bs) + j) <==> MergedAt(bs[Turn(bs)..], j)
  {
    if j == 0 {
      TurnMerges(bs);
    } else {
      MergedShift(bs, j - 1);
    }
  }

  lemma KeptShift(bs: seq<Block>, x: nat)
    requires bs != [] && x < |bs| - Turn(bs)
    ensures KeptAt(bs, Turn(bs) + x) <==> KeptAt(bs[Turn(bs)..], x)
    ensures After(bs, Turn(bs) + x) == After(bs[Turn(bs)..], x)
  {
    MergedShift(bs, x);
    if x == 0 {
      TurnMerges(bs);
    } else {
      MergedShift(bs, x - 1);
    }
  }

  lemma CoalesceTurn(bs: seq<Block>)
    requires bs != []
    ensures KeptAt(bs, 0) && Coalesce(bs) == [After(bs, 0)] + Coalesce(bs[Turn(bs)..])
  {}

  /** Each block the pass leaves is made of one it keeps, and the other way round. */
  lemma {:induction false} PassIndex(bs: seq<Block>, k: nat) returns (x: nat)
    requires k < |Coalesce(bs)|
    ensures KeptAt(bs, x) && Coalesce(bs)[k] == After(bs, x)
  {
    CoalesceTurn(bs);
    if k == 0 {
      x := 0;
    } else {
      var y := PassIndex(bs[Turn(bs)..], k - 1);
      KeptShift(bs, y);
      x := Turn(bs) + y;
    }
  }

  lemma {:induction false} PassIndexOf(bs: seq<Block>, x: nat) returns (k: nat)
    requires KeptAt(bs, x)
    ensures k < |Coalesce(bs)| && Coalesce(bs)[k] == After(bs, x)
  {
    CoalesceTurn(bs);
    if x == 0 {
      k := 0;
    } else {
      KeptShift(bs, x - Turn(bs));
      var l := PassIndexOf(bs[Turn(bs)..], x - Turn(bs));
      k := l + 1;
    }
  }

  lemma AfterMisses(bs: seq<Block>, x: nat, y: nat)
    requires Separated(bs) && PassFits(bs) && KeptAt(bs, x) && KeptAt(bs, y) && x != y
    ensures After(bs, x).Misses(After(bs, y))
  {
    assert x < y ==> bs[x].Misses(bs[y]);
    assert y < x ==> bs[y].Misses(bs[x]);
  }

  lemma PassFitsTail(bs: seq<Block>)
    requires bs != [] && PassFits(bs)
    ensures PassFits(bs[Turn(bs)..])
  {
    var n := Turn(bs);
    var z := bs[n..];
    forall j: nat | MergedAt(z, j) ensures After(z, j).End() <= TWO32 {
      MergedShift(bs, j);
      KeptShift(bs, j);
    }
    forall j: nat, x: nat | MergedAt(z, j) && KeptAt(z, x) ensures !(z[j].addr < z[x].addr < After(z, j).End()) {
      MergedShift(bs, j);
      KeptShift(bs, j);
      KeptShift(bs, x);
    }
  }

  lemma PlacedTail(bs: seq<Block>, n: nat)
    requires Placed(bs) && n <= |bs|
    ensures Placed(bs[n..])
  {
    var z := bs[n..];
    forall i, j | 0 <= i < j < |z| ensures z[i].Misses(z[j]) {
      assert z[i] == bs[n + i] && z[j] == bs[n + j];
    }
  }

  lemma {:induction false} FitKeepsPlaced(bs: seq<Block>)
    requires Placed(bs) && PassFits(bs)
    ensures Placed(Coalesce(bs))
  {
    if bs != [] {
      var n := Turn(bs);
      var z, first := bs[n..], After(bs, 0);
      PassFitsTail(bs);
      PlacedTail(bs, n);
      FitKeepsPlaced(z);
      CoalesceTurn(bs);
      forall b | b in Coalesce(z) ensures first.Misses(b) {
        var k :| 0 <= k < |Coalesce(z)| && Coalesce(z)[k] == b;
        var x := PassIndex(z, k);
        KeptShift(bs, x);
        AfterMisses(bs, 0, n + x);
      }
      SeparatedCons(first, Coalesce(z));
      assert bs[0] in bs;
    }
  }

  lemma PlacedMustFit(bs: seq<Block>)
    requires Placed(bs) && Placed(Coalesce(bs))
    ensures PassFits(bs)
  {
    forall j: nat | MergedAt(bs, j) ensures After(bs, j).End() <= TWO32 {
      var k := PassIndexOf(bs, j);
      assert Coalesce(bs)[k] in Coalesce(bs);
    }
    forall j: nat, x: nat | MergedAt(bs, j) && KeptAt(bs, x)
      ensures !(bs[j].addr < bs[x].addr < After(bs, j).End())
    {
      OneMustFit(bs, j, x);
    }
  }

  lemma OneMustFit(bs: seq<Block>, j: nat, x: nat)
    requires Separated(Coalesce(bs)) && MergedAt(bs, j) && KeptAt(bs, x)
    ensures !(bs[j].addr < bs[x].addr < After(bs, j).End())
  {
    var c := Coalesce(bs);
    var k := PassIndexOf(bs, j);
    var l := PassIndexOf(bs, x);
    if k < l { assert c[k].Misses(c[l]); }
    if l < k { assert c[l].Misses(c[k]); }
  }

  /** A pass keeps the blocks apart exactly when its merges fit, whether or not the
      blocks they join touch. */
  lemma PassPlacedIff(bs: seq<Block>)
    requires Placed(bs)
    ensures Placed(Coalesce(bs)) <==> PassFits(bs)
  {
    if PassFits(bs) {
      FitKeepsPlaced(bs);
    } else if Placed(Coalesce(bs)) {
      PlacedMustFit(bs);
    }
  }

  /** Which blocks a release merges, on a list without free neighbours: the block before
      the released one with it, or else the released one with the block behind. */
  lemma ReleaseMerges(bs: seq<Block>, i: nat, j: nat)
    requires Pairs(bs) == 0 && i < |bs| && !bs[i].free
    ensures MergedAt(Freed(bs, i), j)
            <==> if i > 0 && bs[i - 1].free then j == i - 1 else j == i && i + 1 < |bs| && bs[i + 1].free
  {
    var f := Freed(bs, i);
    if j + 1 < |bs| { NoPairAt(bs, j); }
    if 0 < j < |bs| { NoPairAt(bs, j - 1); }
    if 0 < i { NoPairAt(bs, i - 1); }
    if 1 < i { NoPairAt(bs, i - 2); }
  }

  /** The merge of the blocks at j and j + 1 misses all others. */
  ghost predicate MergeMisses(bs: seq<Block>, j: nat)
    requires j + 1 < |bs|
  {
    var m := Merge(bs[j], bs[j + 1]);
    m.End() <= TWO32 && forall x :: 0 <= x < |bs| && x != j && x != j + 1 ==> m.Misses(bs[x])
  }

  lemma OneMergeFitsIff(bs: seq<Block>, j: nat)
    requires Separated(bs) && j + 1 < |bs| && forall k: nat :: MergedAt(bs, k) <==> k == j
    ensures PassFits(bs) <==> MergeMisses(bs, j)
  {
    assert MergedAt(bs, j);
    forall x | 0 <= x < |bs| && x != j && x != j + 1
      ensures KeptAt(bs, x)
      ensures !(bs[j].addr < bs[x].addr < After(bs, j).End()) <==> After(bs, j).Misses(bs[x])
    {
      assert x < j ==> bs[x].Misses(bs[j]);
      assert j < x ==> bs[j].Misses(bs[x]);
    }
    assert !KeptAt(bs, j + 1);
  }

  lemma NoMergeFits(bs: seq<Block>)
    requires forall k: nat :: !MergedAt(bs, k)
    ensures PassFits(bs)
  {}

  /** Which merges of a release miss the other blocks, on a list without free neighbours. */
  ghost predicate ReleaseMisses(bs: seq<Block>, i: nat)
    requires i < |bs|
  {
    var f := Freed(bs, i);
    if i > 0 && bs[i - 1].free then MergeMisses(f, i - 1)
    else i + 1 < |bs| && bs[i + 1].free ==> MergeMisses(f, i)
  }

  lemma {:induction false} ReleaseFitsIff(bs: seq<Block>, i: nat, f: seq<Block>)
    requires Separated(f) && Pairs(bs) == 0 && i < |bs| && !bs[i].free && f == Freed(bs, i)
    ensures PassFits(f) <==> ReleaseMisses(bs, i)
  {
    forall j: nat ensures MergedAt(f, j)
      <==> if i > 0 && bs[i - 1].free then j == i - 1 else j == i && i + 1 < |bs| && bs[i + 1].free
    {
      ReleaseMerges(bs, i, j);
    }
    if i > 0 && bs[i - 1].free {
      OneMergeFitsIff(f, i - 1);
    } else if i + 1 < |bs| && bs[i + 1].free {
      OneMergeFitsIff(f, i);
    } else {
      NoMergeFits(f);
    }
  }

  /** A release on a list without free neighbours, seen before it: the blocks stay apart
      exactly when the one merge it brings about, if any, misses all the other blocks. */
  lemma {:induction false} ReleasePlacedIff(bs: seq<Block>, i: nat)
    requires Placed(bs) && Pairs(bs) == 0 && i < |bs| && !bs[i].free
    ensures Placed(Coalesce(Freed(bs, i))) <==> ReleaseMisses(bs, i)
  {
    PlacedFreed(bs, i);
    PassPlacedIff(Freed(bs, i));
    ReleaseFitsIff(bs, i, Freed(bs, i));
  }

  /** In address order every merge fits. */
  lemma AscendingFits(bs: seq<Block>)
    requires Ascending(bs) && forall b :: b in bs ==> b.End() <= TWO32
    ensures PassFits(bs)
  {
    forall j: nat | MergedAt(bs, j) ensures After(bs, j).End() <= bs[j + 1].End() <= TWO32 {
      assert bs[j].End() <= bs[j + 1].addr && bs[j + 1] in bs;
    }
    forall j: nat, x: nat | MergedAt(bs, j) && KeptAt(bs, x) ensures !(bs[j].addr < bs[x].addr < After(bs, j).End()) {
      assert bs[j].End() <= bs[j + 1].addr;
      if x < j { assert bs[x].End() <= bs[j].addr; }
      if x > j + 1 { assert bs[j + 1].End() <= bs[x].addr; }
    }
  }

  lemma AscendingCons(x: Block, z: seq<Block>)
    requires Ascending(z) && forall b :: b in z ==> x.End() <= b.addr
    ensures Ascending([x] + z)
  {
    var bs := [x] + z;
    forall i, j | 0 <= i < j < |bs| ensures bs[i].End() <= bs[j].addr {
      assert bs[j] == z[j - 1] && z[j - 1] in z;
      if i > 0 { assert bs[i] == z[i - 1]; }
    }
  }

  lemma AscendingTail(bs: seq<Block>, n: nat)
    requires Ascending(bs) && n <= |bs|
    ensures Ascending(bs[n..])
  {
    var z := bs[n..];
    forall i, j | 0 <= i < j < |z| ensures z[i].End() <= z[j].addr {
      assert z[i] == bs[n + i] && z[j] == bs[n + j];
    }
  }

  /** Where the first turn of the pass ends, in address order. */
  lemma AfterFirst(bs: seq<Block>, b: Block)
    requires Ascending(bs) && bs != [] && b in Coalesce(bs[Turn(bs)..])
    ensures After(bs, 0).End() <= b.addr
  {
    var n := Turn(bs);
    var c := Coalesce(bs[n..]);
    var k :| 0 <= k < |c| && c[k] == b;
    var x := PassIndex(bs[n..], k);
    assert b.addr == bs[n + x].addr;
    assert bs[n - 1].End() <= bs[n + x].addr;
    if n == 2 { assert bs[0].End() <= bs[1].addr; }
  }

  /** The pass keeps address order, gap or no gap. */
  lemma {:induction false} AscendingCoalesce(bs: seq<Block>)
    requires Ascending(bs)
    ensures Ascending(Coalesce(bs))
  {
    if bs != [] {
      var c := Coalesce(bs[Turn(bs)..]);
      AscendingTail(bs, Turn(bs));
      AscendingCoalesce(bs[Turn(bs)..]);
      CoalesceTurn(bs);
      forall b | b in c ensures After(bs, 0).End() <= b.addr {
        AfterFirst(bs, b);
      }
      AscendingCons(After(bs, 0), c);
    }
  }

  lemma PlacedFreed(bs: seq<Block>, i: nat)
    requires Placed(bs) && i < |bs|
    ensures Placed(Freed(bs, i))
  {
    var f := Freed(bs, i);
    forall j, k | 0 <= j < k < |f| ensures f[j].Misses(f[k]) {
      assert bs[j].Misses(bs[k]);
    }
    assert bs[i] in bs;
  }

  // ------------------------------------------------------ runs that stay apart

  /** The block a successful growth step appends. */
  function GrownBlock(op: Op): Block
    requires op.Alloc? && op.frames != []
  {
    Block(op.frames[0], RoundUp(op.size), false)
  }

  /** What keeps blocks apart: a growth block lies in memory no block claims, and the
      merges of a release fit. */
  ghost predicate StepSafe(bs: seq<Block>, op: Op)
    requires Legal(bs, op)
  {
    match op
    case Alloc(size, frames) =>
      GrownBytes(bs, op) > 0 ==>
        var b := GrownBlock(op); Clear(bs, b) && 0 < b.addr && b.End() <= TWO32
    case Free(ptr) => ptr != 0 ==> PassFits(Freed(bs, Find(bs, ptr - HEADER)))
  }

  lemma PlacedAppendIff(bs: seq<Block>, b: Block)
    requires Placed(bs)
    ensures Placed(bs + [b]) <==> Clear(bs, b) && 0 < b.addr && b.End() <= TWO32
  {
    SeparatedAppend(bs, [b]);
    assert b in bs + [b];
    assert b in [b];
    assert Apart(bs, [b]) <==> Clear(bs, b);
  }

  /** An allocation or release keeps the blocks apart exactly when it is safe. */
  lemma StepPlacedIff(bs: seq<Block>, op: Op)
    requires Legal(bs, op) && Placed(bs)
    ensures Placed(Step(bs, op)) <==> StepSafe(bs, op)
  {
    match op
    case Alloc(size, frames) =>
      if GrownBytes(bs, op) > 0 {
        PlacedAppendIff(bs, GrownBlock(op));
      } else if size > 0 && FirstFit(bs, RoundUp(size)) < |bs| {
        PlacedPlace(bs, FirstFit(bs, RoundUp(size)), RoundUp(size));
      }
    case Free(ptr) =>
      if ptr != 0 {
        var i := Find(bs, ptr - HEADER);
        PlacedFreed(bs, i);
        PassPlacedIff(Freed(bs, i));
      }
  }

  ghost predicate SafeRun(bs: seq<Block>, ops: seq<Op>)
    decreases |ops|
  {
    ops == [] || (Legal(bs, ops[0]) && StepSafe(bs, ops[0]) && SafeRun(Step(bs, ops[0]), ops[1..]))
  }

  /** No two blocks ever share a byte along the run. */
  ghost predicate AlwaysPlaced(bs: seq<Block>, ops: seq<Op>)
    requires LegalRun(bs, ops)
    decreases |ops|
  {
    Placed(bs) && (ops == [] || AlwaysPlaced(Step(bs, ops[0]), ops[1..]))
  }

  /** Over any run, blocks stay apart all along exactly when every step is safe. */
  lemma {:induction false} AlwaysPlacedIff(bs: seq<Block>, ops: seq<Op>)
    requires Placed(bs) && LegalRun(bs, ops)
    ensures AlwaysPlaced(bs, ops) <==> SafeRun(bs, ops)
    decreases |ops|
  {
    if ops != [] {
      StepPlacedIff(bs, ops[0]);
      if StepSafe(bs, ops[0]) {
        AlwaysPlacedIff(Step(bs, ops[0]), ops[1..]);
      }
    }
  }

  lemma {:induction false} SafeRunKeepsPlaced(bs: seq<Block>, ops: seq<Op>)
    requires Placed(bs) && SafeRun(bs, ops)
    ensures LegalRun(bs, ops) && Placed(Run(bs, ops))
    decreases |ops|
  {
    if ops != [] {
      StepPlacedIff(bs, ops[0]);
      SafeRunKeepsPlaced(Step(bs, ops[0]), ops[1..]);
    }
  }

  /** The addresses the list lays claim to. */
  ghost function Bytes(bs: seq<Block>): set<nat> {
    if bs == [] then {} else FrameSet.Range(bs[0].addr, HEADER + bs[0].size) + Bytes(bs[1..])
  }

  lemma {:induction false} BytesOwned(bs: seq<Block>, x: nat)
    ensures x in Bytes(bs) <==> Owns(bs, x)
  {
    if bs != [] {
      BytesOwned(bs[1..], x);
      OwnsAppend([bs[0]], bs[1..], x);
      assert bs == [bs[0]] + bs[1..] && bs[0] in [bs[0]];
    }
  }

  lemma {:induction false} BytesSize(bs: seq<Block>)
    requires Separated(bs)
    ensures |Bytes(bs)| == Total(bs)
  {
    if bs != [] {
      SeparatedTail(bs);
      BytesSize(bs[1..]);
      var front := FrameSet.Range(bs[0].addr, HEADER + bs[0].size);
      forall x | x in front ensures x !in Bytes(bs[1..]) {
        BytesOwned(bs[1..], x);
      }
      assert front !! Bytes(bs[1..]);
    }
  }

  /** Blocks that do not overlap never add up to more than 32 bits can count, so no size
      a merge computes wraps. */
  lemma PlacedTotal(bs: seq<Block>, top: nat)
    requires Placed(bs) && top == TWO32 - 1
    ensures Total(bs) <= top
  {
    forall x | x in Bytes(bs) ensures 0 < x <= top {
      BytesOwned(bs, x);
    }
    BytesSize(bs);
    FrameSet.SubsetSize(Bytes(bs), FrameSet.Range(1, top));
  }

  lemma FreshPlaced(start: nat)
    requires 0 < start && start + ARENA <= TWO32
    ensures Placed(Fresh(start))
  {}

  /** From the list kheap_init leaves, over every run of safe steps, growth included, no
      two blocks share a byte and their sizes never wrap. */
  lemma PlacedForever(start: nat, ops: seq<Op>)
    requires 0 < start && start + ARENA <= TWO32 && SafeRun(Fresh(start), ops)
    ensures LegalRun(Fresh(start), ops)
    ensures Placed(Run(Fresh(start), ops)) && Total(Run(Fresh(start), ops)) < TWO32
  {
    FreshPlaced(start);
    SafeRunKeepsPlaced(Fresh(start), ops);
    PlacedTotal(Run(Fresh(start), ops), TWO32 - 1);
  }

  lemma {:induction false} TiledRunIsSafe(bs: seq<Block>, ops: seq<Op>, lo: nat, hi: nat)
    requires ArenaRun(bs, ops) && Tiles(bs, lo, hi) && Positive(bs) && hi <= TWO32
    ensures SafeRun(bs, ops)
    decreases |ops|
  {
    if ops != [] {
      StepKeepsTiling(bs, ops[0], lo, hi);
      TiledRunIsSafe(Step(bs, ops[0]), ops[1..], lo, hi);
      if ops[0].Free? && ops[0].ptr != 0 {
        var i := Find(bs, ops[0].ptr - HEADER);
        FreedTiles(bs, i, lo, hi);
        TilesAscending(Freed(bs, i), lo, hi);
        AscendingFits(Freed(bs, i));
      }
    }
  }

  /** Every run served from the arena is safe. */
  lemma ArenaRunIsSafe(start: nat, ops: seq<Op>)
    requires ArenaRun(Fresh(start), ops) && start + ARENA <= TWO32
    ensures SafeRun(Fresh(start), ops)
  {
    FreshTiles(start);
    TiledRunIsSafe(Fresh(start), ops, start, start + ARENA);
  }

  lemma {:induction false} TilesCover(bs: seq<Block>, lo: nat, hi: nat, x: nat) returns (b: Block)
    requires Tiles(bs, lo, hi) && lo <= x < hi
    ensures b in bs && b.addr <= x < b.End()
  {
    if x < bs[0].End() {
      b := bs[0];
    } else {
      b := TilesCover(bs[1..], bs[0].End(), hi, x);
    }
  }

  /** Growth on a tiled arena: the new block misses all others exactly when it lies
      outside the arena. */
  lemma ArenaGrowthIff(bs: seq<Block>, start: nat, b: Block)
    requires Tiles(bs, start, start + ARENA)
    ensures Separated(bs + [b]) <==> b.End() <= start || start + ARENA <= b.addr
  {
    TilesAscending(bs, start, start + ARENA);
    SeparatedAppend(bs, [b]);
    assert b in [b];
    if b.End() <= start || start + ARENA <= b.addr {
      assert Apart(bs, [b]);
    } else {
      var c := TilesCover(bs, start, start + ARENA, if b.addr < start then start else b.addr);
      assert !c.Misses(b);
    }
  }

  // -------------------------------------------------- runs whose growth goes upward

  /** Every block of a ends before any block of b. */
  ghost predicate Below(a: seq<Block>, b: seq<Block>) {
    forall c, d :: c in a && d in b ==> c.End() <= d.addr
  }

  lemma {:induction false} AscendingAppend(a: seq<Block>, b: seq<Block>)
    ensures Ascending(a + b) <==> Ascending(a) && Ascending(b) && Below(a, b)
  {
    if a == [] {
      assert a + b == b;
    } else {
      var x, z := a[0], a[1..];
      AscendingAppend(z, b);
      assert a == [x] + z && a + b == [x] + (z + b);
      assert forall c :: c in z + b <==> c in z || c in b;
      if Ascending(a + b) {
        AscendingHead(a + b);
        AscendingTail(a + b, 1);
        AscendingCons(x, z);
      } else if Ascending(a) && Ascending(b) && Below(a, b) {
        AscendingHead(a);
        AscendingTail(a, 1);
        AscendingCons(x, z + b);
      }
    }
  }

  lemma AscendingHead(bs: seq<Block>)
    requires Ascending(bs) && bs != []
    ensures forall b :: b in bs[1..] ==> bs[0].End() <= b.addr
  {
    forall b | b in bs[1..] ensures bs[0].End() <= b.addr {
      var j :| 0 <= j < |bs[1..]| && bs[1..][j] == b;
      assert bs[j + 1] == b;
    }
  }

  lemma BelowInside(a: seq<Block>, x: Block, z: seq<Block>, c: seq<Block>)
    requires Below(a, [x]) && Below(a + [x], z)
    requires forall b :: b in c ==> x.addr <= b.addr && b.End() <= x.End()
    ensures Below(a, c) && Below(a + c, z)
  {
    assert x in [x] && x in a + [x];
    assert forall b :: b in a ==> b in a + [x];
  }

  lemma {:induction false} AscendingPlace(bs: seq<Block>, i: nat, n: nat)
    requires Ascending(bs) && i < |bs| && bs[i].Fits(n)
    ensures Ascending(Place(bs, i, n))
  {
    var a, x, z, c := bs[..i], bs[i], bs[i + 1..], Carve(bs[i], n);
    assert bs == a + [x] + z;
    AscendingAppend(a + [x], z); AscendingAppend(a, [x]);
    CarveInside(x, n);
    BelowInside(a, x, z, c);
    AscendingCarve(x, n);
    AscendingAppend(a, c);
    AscendingAppend(a + c, z);
  }

  lemma AscendingCarve(x: Block, n: nat)
    requires x.size >= n
    ensures Ascending(Carve(x, n))
  {}

  lemma AscendingFreed(bs: seq<Block>, i: nat)
    requires Ascending(bs) && i < |bs|
    ensures Ascending(Freed(bs, i))
  {
    var f := Freed(bs, i);
    forall j, k | 0 <= j < k < |f| ensures f[j].End() <= f[k].addr {
      assert bs[j].End() <= bs[k].addr;
    }
  }

  /** A growth block lies past all others. */
  ghost predicate GrowsUpward(bs: seq<Block>, op: Op) {
    GrownBytes(bs, op) > 0 ==>
      var b := GrownBlock(op); Below(bs, [b]) && 0 < b.addr && b.End() <= TWO32
  }

  lemma {:induction false} AllocUpward(bs: seq<Block>, op: Op)
    requires op.Alloc? && Legal(bs, op) && Ascending(bs) && GrowsUpward(bs, op)
    ensures StepSafe(bs, op) && Ascending(Step(bs, op))
  {
    var n := RoundUp(op.size);
    if GrownBytes(bs, op) > 0 {
      var b := GrownBlock(op);
      assert b in [b];
      assert Step(bs, op) == bs + [b];
      AscendingAppend(bs, [b]);
    } else if op.size > 0 && FirstFit(bs, n) < |bs| {
      assert Step(bs, op) == Place(bs, FirstFit(bs, n), n);
      AscendingPlace(bs, FirstFit(bs, n), n);
    }
  }

  lemma {:induction false} FreeUpward(bs: seq<Block>, op: Op)
    requires op.Free? && Legal(bs, op) && Ascending(bs) && Placed(bs)
    ensures StepSafe(bs, op) && Ascending(Step(bs, op))
  {
    if op.ptr != 0 {
      var i := Find(bs, op.ptr - HEADER);
      AscendingFreed(bs, i);
      PlacedFreed(bs, i);
      AscendingFits(Freed(bs, i));
      AscendingCoalesce(Freed(bs, i));
    }
  }

  lemma {:induction false} StepUpward(bs: seq<Block>, op: Op)
    requires Legal(bs, op) && Ascending(bs) && Placed(bs) && GrowsUpward(bs, op)
    ensures StepSafe(bs, op) && Ascending(Step(bs, op)) && Placed(Step(bs, op))
  {
    if op.Alloc? {
      AllocUpward(bs, op);
    } else {
      FreeUpward(bs, op);
    }
    StepPlacedIff(bs, op);
  }

  ghost predicate UpwardRun(bs: seq<Block>, ops: seq<Op>)
    decreases |ops|
  {
    ops == [] || (Legal(bs, ops[0]) && GrowsUpward(bs, ops[0]) && UpwardRun(Step(bs, ops[0]), ops[1..]))
  }

  /** Over every run whose growth goes upward the list stays in address order and no two
      blocks share a byte, whatever gaps its releases merge across. */
  lemma {:induction false} UpwardForever(bs: seq<Block>, ops: seq<Op>)
    requires Ascending(bs) && Placed(bs) && UpwardRun(bs, ops)
    ensures LegalRun(bs, ops) && SafeRun(bs, ops)
    ensures Ascending(Run(bs, ops)) && Placed(Run(bs, ops))
    decreases |ops|
  {
    if ops != [] {
      StepUpward(bs, ops[0]);
      UpwardForever(Step(bs, ops[0]), ops[1..]);
    }
  }
}
