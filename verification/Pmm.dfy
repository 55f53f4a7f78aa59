/** kernel/src/pmm/pmm.c: the physical-frame bitmap, updated in place. */
module Pmm {
  import opened Machine
  import opened Bits
  import opened FrameSet

  /** Bit b of a bitmap of 32-bit words. */
  predicate Bit(words: seq<Word>, b: nat)
    requires b < 32 * |words|
  {
    HasBit(words[b / 32], b % 32)
  }

  /** The set of used frames the first `total / 32` words stand for. */
  ghost function Decode(words: seq<Word>, total: Word, counter: Word): Frames
    requires total / 32 <= |words|
  {
    Frames(set b | 0 <= b < total / 32 * 32 && Bit(words, b) :: b, total / 32 * 32, counter)
  }

  lemma DecodeTaken(words: seq<Word>, total: Word, counter: Word, b: nat, words': seq<Word>)
    requires total / 32 <= |words| == |words'| && b < total / 32 * 32
    requires !Bit(words, b) && forall c :: 0 <= c < b ==> Bit(words, c)
    requires forall c :: 0 <= c < 32 * |words| ==> (Bit(words', c) <==> c == b || Bit(words, c))
    ensures TakenPtr(Decode(words, total, counter)) == b * PAGE
    ensures Decode(words', total, Wrap(counter + 1)) == Take(Decode(words, total, counter))
  {
    var f := Decode(words, total, counter);
    forall c | 0 <= c < b ensures c in f.used { assert Bit(words, c); }
    LowestIs(f, b);
    assert Decode(words', total, Wrap(counter + 1)).used == f.used + {b};
  }

  lemma DecodeFull(words: seq<Word>, total: Word, counter: Word)
    requires total / 32 <= |words|
    requires forall c :: 0 <= c < total / 32 * 32 ==> Bit(words, c)
    ensures Full(Decode(words, total, counter))
  {
    var f := Decode(words, total, counter);
    forall c | 0 <= c < f.limit ensures c in f.used { assert Bit(words, c); }
  }

  lemma WordBits(words: seq<Word>, i: nat)
    requires i < |words| && forall k :: 0 <= k < 32 ==> HasBit(words[i], k)
    ensures forall b :: 32 * i <= b < 32 * (i + 1) ==> Bit(words, b)
  {
    forall b | 32 * i <= b < 32 * (i + 1) ensures Bit(words, b) {
      assert b / 32 == i && HasBit(words[i], b % 32);
    }
  }

  lemma FullWordBits(words: seq<Word>, i: nat)
    requires i < |words| && words[i] == ONES
    ensures forall b :: 32 * i <= b < 32 * (i + 1) ==> Bit(words, b)
  {
    WordTests(words[i], 0);
    WordBits(words, i);
  }

  lemma DecodeInit(words: seq<Word>, rs: seq<Region>)
    requires InitTotal(rs) / 32 <= |words|
    requires forall c :: 0 <= c < InitTotal(rs) / 32 * 32 ==> (Bit(words, c) <==> c == 0 || !Spanned(rs, c))
    ensures Decode(words, InitTotal(rs), InitFrames(rs).counter) == InitFrames(rs)
  {}

  class FrameAllocator {
    // The words from the bitmap's address on; pmm_init decides how many are covered.
    const bitmap: array<Word>
    var totalBlocks: Word
    var usedBlocks: Word

    constructor (memory: array<Word>)
      ensures bitmap == memory && totalBlocks == 0 && usedBlocks == 0
    {
      bitmap := memory;
      totalBlocks, usedBlocks := 0, 0;
    }

    ghost predicate Valid()
      reads this
    {
      totalBlocks / 32 <= bitmap.Length && totalBlocks <= TWO32 / PAGE
    }

    ghost function Limit(): nat
      reads this
    {
      totalBlocks / 32 * 32
    }

    /** The set of used frames the bitmap stands for. */
    ghost function View(): (f: Frames)
      requires Valid()
      reads this, bitmap
      ensures WellFormed(f) && f.limit == Limit() && f.counter == usedBlocks
    {
      Decode(bitmap[..], totalBlocks, usedBlocks)
    }

    /** The blocks of an available region have 32-bit numbers and bits in the memory
        the bitmap lies in. */
    predicate Clearable(r: Region) {
      r.kind == AVAILABLE && r.len >= PAGE ==>
        r.addr / PAGE + r.len / PAGE <= 32 * bitmap.Length && r.addr / PAGE + r.len / PAGE < TWO32
    }

    method BitmapSet(bit: nat)
      requires bit < 32 * bitmap.Length
      modifies bitmap
      ensures forall b :: 0 <= b < 32 * bitmap.Length ==>
                (Bit(bitmap[..], b) <==> b == bit || old(Bit(bitmap[..], b)))
    {
      bitmap[bit / 32] := SetWord(bitmap[bit / 32], bit % 32);
      forall b | 0 <= b < 32 * bitmap.Length
        ensures Bit(bitmap[..], b) <==> b == bit || old(Bit(bitmap[..], b))
      {
        SetAndClear(old(bitmap[bit / 32]), bit % 32, b % 32);
      }
    }

    method BitmapUnset(bit: nat)
      requires bit < 32 * bitmap.Length
      modifies bitmap
      ensures forall b :: 0 <= b < 32 * bitmap.Length ==>
                (Bit(bitmap[..], b) <==> b != bit && old(Bit(bitmap[..], b)))
    {
      bitmap[bit / 32] := ClearWord(bitmap[bit / 32], bit % 32);
      forall b | 0 <= b < 32 * bitmap.Length
        ensures Bit(bitmap[..], b) <==> b != bit && old(Bit(bitmap[..], b))
      {
        SetAndClear(old(bitmap[bit / 32]), bit % 32, b % 32);
      }
    }

    method BitmapTest(bit: nat) returns (r: bool)
      requires bit < 32 * bitmap.Length
      ensures r <==> Bit(bitmap[..], bit)
    {
      r := And(bitmap[bit / 32], Shl1(bit % 32)) != 0;
      WordTests(bitmap[bit / 32], bit % 32);
    }

    /** pmm_init: count the available bytes, fill the covered words, clear the blocks
        of the available regions, and take block 0 back. */
    method Init(regions: seq<Region>)
      requires bitmap.Length > 0 && InitTotal(regions) / 32 <= bitmap.Length
      requires forall r :: r in regions ==> Clearable(r)
      modifies this, bitmap
      ensures Valid() && totalBlocks == InitTotal(regions)
      ensures View() == InitFrames(regions)
    {
      var memBytes := AvailableBytes(regions);
      totalBlocks := memBytes / PAGE;
      usedBlocks := totalBlocks;
      FillCovered();
      ClearRegions(regions);
      for i := 0 to 0x1000 / PAGE
        invariant totalBlocks == InitTotal(regions)
        invariant usedBlocks == Wrap(totalBlocks - SumBlocks(regions) + i)
        invariant forall b :: 0 <= b < Limit() ==> (Bit(bitmap[..], b) <==> b < i || !Spanned(regions, b))
      {
        BitmapSet(i);
        WrapTwice(totalBlocks - SumBlocks(regions) + i, 1);
        usedBlocks := Wrap(usedBlocks + 1);
      }
      DecodeInit(bitmap[..], regions);
    }

    method FillCovered()
      requires Valid()
      modifies bitmap
      ensures forall b :: 0 <= b < Limit() ==> Bit(bitmap[..], b)
    {
      for i := 0 to totalBlocks / 32
        invariant forall w :: 0 <= w < i ==> bitmap[w] == ONES
      {
        bitmap[i] := ONES;
      }
      forall b | 0 <= b < Limit() ensures Bit(bitmap[..], b) {
        FullWordBits(bitmap[..], b / 32);
      }
    }

    method ClearRegions(regions: seq<Region>)
      requires Valid()
      requires forall r :: r in regions ==> Clearable(r)
      modifies this`usedBlocks, bitmap
      ensures usedBlocks == Wrap(old(usedBlocks) - SumBlocks(regions))
      ensures forall b :: 0 <= b < 32 * bitmap.Length ==>
                (Bit(bitmap[..], b) <==> old(Bit(bitmap[..], b)) && !Spanned(regions, b))
    {
      for k := 0 to |regions|
        invariant usedBlocks == Wrap(old(usedBlocks) - SumBlocks(regions[..k]))
        invariant forall b :: 0 <= b < 32 * bitmap.Length ==>
                    (Bit(bitmap[..], b) <==> old(Bit(bitmap[..], b)) && !Spanned(regions[..k], b))
      {
        WrapTwice(old(usedBlocks) - SumBlocks(regions[..k]), 0 - BlocksOf(regions[k]));
        ClearRegion(regions[k]);
        SpannedMore(regions, k);
      }
      assert regions[..|regions|] == regions;
    }

    /** The body of pmm_init's second walk, for one entry. */
    method ClearRegion(r: Region)
      requires Clearable(r)
      modifies this`usedBlocks, bitmap
      ensures forall b :: 0 <= b < 32 * bitmap.Length ==>
                (Bit(bitmap[..], b) <==> old(Bit(bitmap[..], b)) && !Spans(r, b))
      ensures usedBlocks == Wrap(old(usedBlocks) - BlocksOf(r))
    {
      if r.kind == AVAILABLE {
        var startBlock := Wrap(r.addr / PAGE);
        var blocks := Wrap(r.len / PAGE);
        assert blocks > 0 ==> startBlock == r.addr / PAGE;
        for i := 0 to blocks
          invariant usedBlocks == Wrap(old(usedBlocks) - i)
          invariant forall b :: 0 <= b < 32 * bitmap.Length ==>
                      (Bit(bitmap[..], b) <==> old(Bit(bitmap[..], b)) && !(startBlock <= b < startBlock + i))
        {
          BitmapUnset(startBlock + i);
          WrapTwice(old(usedBlocks) - i, -1);
          usedBlocks := Wrap(usedBlocks - 1);
        }
      }
    }

    /** pmm_alloc_block. */
    method AllocBlock() returns (p: nat)
      requires Valid()
      modifies this`usedBlocks, bitmap
      ensures Valid() && totalBlocks == old(totalBlocks)
      ensures p == TakenPtr(old(View())) && View() == Take(old(View()))
    {
      ghost var words := bitmap[..];
      for i := 0 to totalBlocks / 32
        invariant bitmap[..] == words && usedBlocks == old(usedBlocks)
        invariant forall b :: 0 <= b < 32 * i ==> Bit(words, b)
      {
        if bitmap[i] != ONES {
          for j := 0 to 32
            invariant bitmap[..] == words && usedBlocks == old(usedBlocks)
            invariant forall b :: 0 <= b < 32 * i + j ==> Bit(words, b)
          {
            var bit := Shl1(j);
            WordTests(bitmap[i], j);
            assert (32 * i + j) / 32 == i && (32 * i + j) % 32 == j;
            if And(bitmap[i], bit) == 0 {
              BitmapSet(i * 32 + j);
              usedBlocks := Wrap(usedBlocks + 1);
              DecodeTaken(words, totalBlocks, old(usedBlocks), i * 32 + j, bitmap[..]);
              return (i * 32 + j) * PAGE;
            }
          }
        } else {
          FullWordBits(words, i);
        }
      }
      DecodeFull(words, totalBlocks, usedBlocks);
      return 0;
    }

    /** pmm_free_block.  Blocks past the covered ones are unknown to the allocator, yet
        freeing one still moves the counter when its bit happens to be set. */
    method FreeBlock(p: nat)
      requires Valid() && p / PAGE < 32 * bitmap.Length
      modifies this`usedBlocks, bitmap
      ensures Valid() && totalBlocks == old(totalBlocks)
      ensures p / PAGE < Limit() ==> View() == Give(old(View()), p / PAGE)
      ensures p / PAGE >= Limit() ==>
                View().used == old(View()).used
                && usedBlocks == Wrap(old(usedBlocks) - if old(Bit(bitmap[..], p / PAGE)) then 1 else 0)
    {
      var block := p / PAGE;
      var set' := BitmapTest(block);
      if set' {
        BitmapUnset(block);
        usedBlocks := Wrap(usedBlocks - 1);
      }
    }
  }

  /** The first walk of pmm_init: a 32-bit sum of the 64-bit region lengths. */
  method AvailableBytes(regions: seq<Region>) returns (memBytes: Word)
    ensures memBytes == Wrap(SumLen(regions))
  {
    memBytes := 0;
    for k := 0 to |regions|
      invariant memBytes == Wrap(SumLen(regions[..k]))
    {
      assert regions[..k + 1][..k] == regions[..k];
      if regions[k].kind == AVAILABLE {
        memBytes := Wrap(memBytes + regions[k].len);
      }
    }
    assert regions[..|regions|] == regions;
  }

  function SetWord(w: Word, j: nat): Word
    requires j < 32
  {
    SetAndClear(w, j, j);
    Or(w, Shl1(j))
  }

  function ClearWord(w: Word, j: nat): Word
    requires j < 32
  {
    SetAndClear(w, j, j);
    And(w, Not(Shl1(j), 32))
  }

  lemma SpannedMore(rs: seq<Region>, k: nat)
    requires k < |rs|
    ensures SumBlocks(rs[..k + 1]) == SumBlocks(rs[..k]) + BlocksOf(rs[k])
    ensures forall b :: Spanned(rs[..k + 1], b) <==> Spanned(rs[..k], b) || Spans(rs[k], b)
  {
    var some := rs[..k + 1];
    assert some[..|some| - 1] == rs[..k] && some[|some| - 1] == rs[k];
    forall b: nat ensures Spanned(some, b) <==> Spanned(rs[..k], b) || Spans(rs[k], b) {
      SpannedLast(some, b);
    }
  }
}
