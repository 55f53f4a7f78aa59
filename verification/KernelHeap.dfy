/** kernel/src/cpu/heap/heap.c: headers written through pointers, loops along `next`. */
module KernelHeap {
  import opened Machine
  import opened FrameSet
  import opened PageTables
  import opened Paging
  import opened HeapBlocks
  import opened HeapRuns
  import opened HeapList
  import opened HeapArena
  import opened HeapFrames
  import opened HeapPlacement

  /** Where the growth loop writes the header for its i-th frame. */
  function WrittenAt(frames: seq<nat>, i: nat): Word
    requires frames != []
  {
    Wrap(frames[0] + i * PAGE)
  }

  /** The headers the growth loop has written a page apart behind the new block's, one for
      each further frame, as if the frames were in a row; each leads to its frame. */
  ghost predicate RowWritten(hs: Headers, frames: seq<nat>, i: nat) {
    i <= |frames| && forall j :: 0 < j < i ==> RowHeader(hs, frames, j)
  }

  ghost predicate RowHeader(hs: Headers, frames: seq<nat>, j: nat)
    requires j < |frames|
  {
    var at := WrittenAt(frames, j);
    at in hs && hs[at].size == PAGE - HEADER && hs[at].next == frames[j] && !hs[at].free
  }

  lemma WrittenApart(frames: seq<nat>, i: nat, j: nat)
    requires frames != [] && i < j < TWO32 / PAGE
    ensures WrittenAt(frames, i) != WrittenAt(frames, j)
  {
    var d := (j - i) * PAGE;
    assert 0 < d < TWO32 && frames[0] + j * PAGE == frames[0] + i * PAGE + d;
  }

  lemma RowGrows(hs: Headers, hs': Headers, frames: seq<nat>, i: nat)
    requires i < |frames| && i < TWO32 / PAGE && frames[i] < TWO32
    requires i > 0 ==> hs' == hs[WrittenAt(frames, i) := Header(PAGE - HEADER, frames[i], false)]
    ensures RowWritten(hs, frames, i) ==> RowWritten(hs', frames, i + 1)
  {
    if RowWritten(hs, frames, i) {
      forall j | 0 < j < i + 1 ensures RowHeader(hs', frames, j) {
        if j < i {
          WrittenApart(frames, j, i);
          assert RowHeader(hs, frames, j);
        }
      }
    }
  }

  /** A header written away from a list leaves it as it is. */
  lemma ListStands(hs: Headers, hs': Headers, head: nat, bs: seq<Block>, at: nat)
    requires Linked(hs, head, bs) && Away(bs, at)
    requires forall a :: a in hs && a != at ==> a in hs' && hs'[a] == hs[a]
    ensures Linked(hs', head, bs)
  {
    SegmentElsewhere(hs, hs', head, bs, 0);
  }

  /** A write to the last block of a list that the row misses. */
  lemma RowKept(hs: Headers, hs': Headers, bs: seq<Block>, n: nat, frames: seq<nat>)
    requires GrowthSafe(bs, n, frames) && RowWritten(hs, frames, |frames|)
    requires forall a :: a in hs && (bs == [] || a != LastAddr(bs)) ==> a in hs' && hs'[a] == hs[a]
    ensures RowWritten(hs', frames, |frames|)
  {
    forall j | 0 < j < |frames| ensures RowHeader(hs', frames, j) {
      assert RowHeader(hs, frames, j);
      assert Away(bs, WrittenAt(frames, j));
      if bs != [] { assert bs[|bs| - 1] in bs; }
    }
  }

  /** Growth harms no block of the list: the headers it writes meet none of the list's,
      and a block it appends keeps the sizes within 32 bits. */
  ghost predicate GrowthSafe(bs: seq<Block>, n: nat, frames: seq<nat>) {
    && (frames != [] ==> forall i :: 0 <= i < |frames| ==> Away(bs, WrittenAt(frames, i)))
    && (0 < FramesNeeded(n) <= |frames| ==> Total(bs) + n + HEADER < TWO32)
  }

  /** So does serving n bytes from the i-th block: the header of the remainder meets none
      of the list's. */
  ghost predicate SplitSafe(bs: seq<Block>, i: nat, n: nat)
    requires i < |bs|
  {
    bs[i].size > n + HEADER ==> Away(bs, bs[i].addr + HEADER + n) && bs[i].End() <= TWO32
  }

  ghost predicate AllocSafe(bs: seq<Block>, size: nat, frames: seq<nat>) {
    size > 0 ==>
      var n := RoundUp(size);
      var i := FirstFit(bs, n);
      if i < |bs| then SplitSafe(bs, i, n) else GrowthSafe(bs, n, frames)
  }

  class Heap {
    const paging: PageMapper
    // The headers written into memory, by address.
    var headers: Headers
    var heapStart: Word
    var freeList: Word
    ghost var blocks: seq<Block>

    constructor (p: PageMapper)
      ensures paging == p && freeList == 0 && blocks == [] && heapStart == 0 && Valid()
    {
      paging := p;
      headers, heapStart, freeList, blocks := map[], 0, 0, [];
    }

    ghost predicate Valid()
      reads this
    {
      Linked(headers, freeList, blocks) && Total(blocks) < TWO32
    }

    /** kheap_init: nothing when no frame is left; otherwise one free block over the
        arena, mapped to itself page by page. */
    method Init()
      requires paging.Valid()
      requires 0 in paging.pmm.View().used
      modifies this, paging`mem, paging`tables, paging.pmm`usedBlocks, paging.pmm.bitmap
      ensures paging.Valid()
      ensures Lowest(old(paging.pmm.View())).None? ==>
                heapStart == 0 && paging.View() == old(paging.View())
                && headers == old(headers) && freeList == old(freeList) && blocks == old(blocks)
      ensures Lowest(old(paging.pmm.View())).Some? ==>
                var f := Lowest(old(paging.pmm.View())).value;
                heapStart == f * PAGE && Valid() && blocks == Fresh(heapStart)
                && paging.View() == HeapWorld(old(paging.View()), f, ARENA_PAGES)
                && (f + ARENA_PAGES <= FRAMES ==> Placed(blocks))
    {
      NullIff(paging.pmm.View());
      heapStart := paging.pmm.AllocBlock();
      if heapStart == 0 {
        return;
      }
      ghost var f, n := Lowest(old(paging.pmm.View())).value, ARENA_PAGES;
      ghost var goal := HeapWorld(old(paging.View()), f, n);
      ArenaAhead(old(paging.View()), f, n);
      MapArena(ARENA, n, goal);
      WriteFirst();
      if f + n <= FRAMES {
        FreshPlaced(heapStart);
      }
    }

    /** The header kheap_init writes at the front of the arena. */
    method WriteFirst()
      requires heapStart != 0
      modifies this`headers, this`freeList, this`blocks
      ensures Valid() && freeList == heapStart && blocks == Fresh(heapStart)
    {
      headers := headers[heapStart := Header(ARENA - HEADER, 0, true)];
      freeList := heapStart;
      blocks := Fresh(heapStart);
      FreshLinked(headers, freeList);
    }

    /** The mapping loop of kheap_init. */
    method MapArena(bytes: nat, ghost n: nat, ghost goal: World)
      requires bytes == n * PAGE && Covering(0, heapStart, n, goal)
      modifies paging`mem, paging`tables, paging.pmm`usedBlocks, paging.pmm.bitmap
      ensures paging.Valid() && paging.View() == goal
    {
      ghost var k: nat := n;
      var i: nat, page: Word := 0, heapStart;
      while i < bytes
        invariant i + k * PAGE == bytes && Covering(i, page, k, goal)
      {
        page := CoverNext(i, page, k, goal);
        i, k := i + PAGE, k - 1;
      }
      paging.HeadingDone(page, page, paging.pd0, goal);
    }

    /** kheap_init with `i` bytes of the arena mapped, up to `page`, and k pages to go. */
    ghost predicate Covering(i: nat, page: Word, k: nat, goal: World)
      reads this, paging, paging.pmm, paging.pmm.bitmap
    {
      page == Wrap(heapStart + i) && paging.Heading(page, page, k, paging.pd0, goal)
    }

    lemma {:induction false} ArenaAhead(w: World, f: nat, n: nat)
      requires paging.Valid() && WellFormed(w.frames) && w.pd0 < FRAMES && f < FRAMES
      requires heapStart == f * PAGE && paging.View() == Reserved(w)
      ensures Covering(0, heapStart, n, HeapWorld(w, f, n))
    {
      assert paging.Heading(heapStart, heapStart, n, paging.pd0, HeapWorld(w, f, n));
    }

    /** One turn of that loop. */
    method CoverNext(i: nat, page: Word, ghost k: nat, ghost goal: World) returns (next: Word)
      requires k > 0 && Covering(i, page, k, goal)
      modifies paging`mem, paging`tables, paging.pmm`usedBlocks, paging.pmm.bitmap
      ensures Covering(i + PAGE, next, k - 1, goal)
    {
      paging.MapNext(page, page, paging.pd0, k, goal);
      WrapTwice(heapStart + i, PAGE);
      next := Wrap(heapStart + (i + PAGE));
    }

    /** kheap_alloc.  The answer and the frames are those of the allocation step on any
        list; so is the list, as long as the headers written meet none of its own. */
    method Alloc(size: Word) returns (ptr: nat)
      requires Valid() && paging.Valid()
      modifies this`headers, this`freeList, this`blocks
      modifies paging`mem, paging`tables, paging.pmm`usedBlocks, paging.pmm.bitmap
      ensures paging.Valid()
      ensures var n := RoundUp(size);
              var served := size == 0 || FirstFit(old(blocks), n) < |old(blocks)|;
              var grant := Grab(old(paging.View()), FramesNeeded(n));
              var op := HeapRuns.Alloc(size, grant.frames);
              && ptr == AllocStep(old(blocks), size, grant.frames).ptr
              && paging.View() == (if served then old(paging.View()) else grant.world)
              && (AllocSafe(old(blocks), size, grant.frames) ==>
                    Valid() && blocks == AllocStep(old(blocks), size, grant.frames).blocks
                    && (Placed(old(blocks)) ==> (Placed(blocks) <==> StepSafe(old(blocks), op))))
      // Serving from the list writes only inside the free block that is chosen.
      ensures var i := FirstFit(old(blocks), RoundUp(size));
              size > 0 && i < |old(blocks)| && SplitSafe(old(blocks), i, RoundUp(size)) ==>
                KeptOutside(old(headers), headers, old(blocks)[i])
    {
      if size == 0 {
        return 0;
      }
      var n := RoundUp(size);
      RoundUpAligned(size);
      ghost var bs, frames := blocks, Grab(paging.View(), FramesNeeded(n)).frames;
      var current, previous := Walk(n);
      if current != 0 {
        Serve(current, n, FirstFit(blocks, n));
        ptr := current + HEADER;
      } else {
        ptr := Grow(n, previous);
      }
      AllocPlacedIff(bs, size, frames);
    }

    /** The walk of kheap_alloc: the first block that fits, and the one before it; NULL
        and the last block when none does. */
    method Walk(n: nat) returns (current: Word, previous: Word)
      requires Valid()
      ensures var i := FirstFit(blocks, n);
              if i < |blocks| then current == blocks[i].addr != 0 && previous == LastAddr(blocks[..i])
              else current == 0 && previous == LastAddr(blocks)
    {
      current, previous := freeList, 0;
      ghost var i: nat := 0;
      assert blocks[0..] == blocks;
      while current != 0
        invariant i <= |blocks| && Segment(headers, current, blocks[i..], 0)
        invariant i <= FirstFit(blocks, n)
        invariant previous == LastAddr(blocks[..i])
        decreases |blocks| - i
      {
        var h := headers[current];
        if h.free && h.size >= n {
          assert blocks[i].Fits(n);
          return;
        }
        previous, current := current, h.next;
        assert blocks[i..][1..] == blocks[i + 1..];
        FirstFitBeyond(blocks, n, i);
        i := i + 1;
      }
      assert blocks[..|blocks|] == blocks;
    }

    /** The inside of kheap_alloc's walk once a block fits: split it if more than a
        header is left over, and mark it used. */
    method Serve(current: Word, n: nat, ghost i: nat)
      requires Valid()
      requires i < |blocks| && blocks[i].addr == current && blocks[i].Fits(n)
      modifies this`headers, this`blocks
      ensures blocks == Place(old(blocks), i, n)
      ensures SplitSafe(old(blocks), i, n) ==> Valid() && KeptOutside(old(headers), headers, old(blocks)[i])
    {
      ghost var bs := blocks;
      PlacedHeader(headers, freeList, bs, i);
      PlaceSums(bs, i, n);
      if headers[current].size > n + HEADER {
        Split(current, n);
        if SplitSafe(bs, i, n) {
          LinkedPlace(old(headers), freeList, bs, i, n);
        }
      } else {
        LinkedWhole(headers, freeList, bs, i, n);
        headers := headers[current := headers[current].(free := false)];
      }
      blocks := Place(bs, i, n);
    }

    /** The writes of a split, and the mark. */
    method Split(current: Word, n: nat)
      requires current in headers && headers[current].size > n + HEADER
      modifies this`headers
      ensures headers == SplitHeaders(old(headers), current, n)
    {
      var h := headers[current];
      var newBlock := Wrap(current + HEADER + n);
      headers := headers[newBlock := Header(h.size - n - HEADER, h.next, true)];
      FieldWrites(headers, current, newBlock, n);
      headers := headers[current := headers[current].(next := newBlock)];
      headers := headers[current := headers[current].(size := n)];
      headers := headers[current := headers[current].(free := false)];
    }

    /** The growth path of kheap_alloc, `previous` being the last block of the list. */
    method Grow(n: nat, previous: nat) returns (ptr: nat)
      requires Valid() && paging.Valid() && n < TWO32 && n % PAGE == 0
      requires previous == LastAddr(blocks)
      modifies this`headers, this`freeList, this`blocks
      modifies paging`mem, paging`tables, paging.pmm`usedBlocks, paging.pmm.bitmap
      ensures paging.Valid()
      ensures var grant := Grab(old(paging.View()), FramesNeeded(n));
              var r := HeapRuns.Grow(old(blocks), n, grant.frames);
              && ptr == r.ptr && paging.View() == grant.world
              && (GrowthSafe(old(blocks), n, grant.frames) ==>
                    Valid() && blocks == r.blocks && RowWritten(headers, grant.frames, |grant.frames|))
    {
      var numBlocksNeeded := CountFrames(n);
      ghost var grant := Grab(paging.View(), numBlocksNeeded);
      AllRemains(paging.View(), numBlocksNeeded);
      LastLeadsNowhere(headers, freeList, blocks);
      ghost var safe := GrowthSafe(blocks, n, grant.frames);
      var newBlock, failed := ObtainFrames(n, numBlocksNeeded, grant, safe);
      if failed {
        return 0;
      }
      GrowthDone(n, grant, safe, numBlocksNeeded, newBlock);
      ghost var bs, hs := blocks, headers;
      Append(newBlock, previous, n);
      if safe {
        RowKept(hs, headers, bs, n, grant.frames);
      }
      ptr := newBlock + HEADER;
    }

    /** What the end of the growth path needs to leave a list. */
    ghost predicate Appendable(newBlock: nat, n: nat)
      reads this
    {
      && Valid()
      && (newBlock != 0 ==>
            && newBlock < TWO32 && n < TWO32 && Away(blocks, newBlock) && Total(blocks) + n + HEADER < TWO32
            && newBlock in headers && headers[newBlock] == Header(n, 0, false))
    }

    /** The end of the growth path: make the last block, or the list head, lead to the
        new block, or to NULL when no frame was asked for. */
    method Append(newBlock: Word, previous: nat, ghost n: nat)
      requires previous == LastAddr(blocks) && LastWritten()
      modifies this`headers, this`freeList, this`blocks
      ensures forall a :: a in old(headers) && (old(blocks) == [] || a != previous) ==>
                a in headers && headers[a] == old(headers)[a]
      ensures old(Appendable(newBlock, n)) ==>
                Valid() && blocks == if newBlock == 0 then old(blocks) else old(blocks) + [Block(newBlock, n, false)]
    {
      if Appendable(newBlock, n) {
        LastLeadsNowhere(headers, freeList, blocks);
        if newBlock != 0 {
          ghost var b := Block(newBlock, n, false);
          LinkedAppend(headers, freeList, blocks, b);
          SumsAppend(blocks, [b]);
          blocks := blocks + [b];
        }
      }
      if previous != 0 {
        headers := headers[previous := headers[previous].(next := newBlock)];
      } else {
        freeList := newBlock;
      }
    }

    ghost predicate LastWritten()
      reads this
    {
      LastAddr(blocks) != 0 ==> LastAddr(blocks) in headers
    }

    /** The frame loop of the growth path: `failed` when the allocator runs out on the
        way, and otherwise the first frame, with the new block's header in it. */
    method ObtainFrames(n: nat, numBlocksNeeded: nat, ghost grant: Grant, ghost safe: bool)
      returns (newBlock: Word, failed: bool)
      requires Growing(n, grant, safe, 0, numBlocksNeeded, 0)
      modifies this`headers
      modifies paging`mem, paging`tables, paging.pmm`usedBlocks, paging.pmm.bitmap
      ensures failed ==> Refused(grant, safe) && |grant.frames| < numBlocksNeeded
      ensures !failed ==> Growing(n, grant, safe, numBlocksNeeded, 0, newBlock)
    {
      newBlock, failed := 0, false;
      ghost var k := numBlocksNeeded;
      var i := 0;
      while i < numBlocksNeeded
        invariant i + k == numBlocksNeeded && Growing(n, grant, safe, i, k, newBlock)
      {
        failed, newBlock := ObtainNext(newBlock, i, n, grant, safe, k);
        if failed {
          return;
        }
        i, k := i + 1, k - 1;
      }
    }

    lemma GrowthDone(n: nat, grant: Grant, safe: bool, i: nat, newBlock: Word)
      requires Growing(n, grant, safe, i, 0, newBlock) && i == FramesNeeded(n)
      ensures paging.Valid() && paging.View() == grant.world && |grant.frames| == i && LastWritten()
      ensures RowWritten(headers, grant.frames, |grant.frames|)
      ensures newBlock == if i == 0 then 0 else grant.frames[0]
      ensures safe ==> Appendable(newBlock, n)
    {
      NoneRemains(grant, i, paging.View());
      if safe && i > 0 {
        assert Away(blocks, WrittenAt(grant.frames, 0));
      }
    }

    /** The growth loop after i frames, with k to go. */
    ghost predicate Growing(n: nat, grant: Grant, safe: bool, i: nat, k: nat, newBlock: Word)
      reads this, paging, paging.pmm, paging.pmm.bitmap
    {
      && paging.Valid() && n < TWO32 && i + k <= TWO32 / PAGE && LastWritten()
      && Left(grant, i, k)
      && i <= |grant.frames| && (i > 0 <==> newBlock != 0) && (i > 0 ==> newBlock == grant.frames[0])
      && RowWritten(headers, grant.frames, i)
      && (safe ==> GrowthSafe(blocks, n, grant.frames) && Begun(n, i, newBlock))
    }

    /** k frames to go complete the grant, of which i have been obtained. */
    ghost predicate Left(grant: Grant, i: nat, k: nat)
      requires paging.Valid()
      reads this, paging, paging.pmm, paging.pmm.bitmap
    {
      forall w :: w == paging.View() ==> Remains(grant, i, w, k)
    }

    /** The growth loop after the allocator's refusal. */
    ghost predicate Refused(grant: Grant, safe: bool)
      reads this, paging, paging.pmm, paging.pmm.bitmap
    {
      && paging.Valid() && paging.View() == grant.world && (safe ==> Valid())
      && RowWritten(headers, grant.frames, |grant.frames|)
    }

    /** The list is as it was, and the new block's header stands beside it. */
    ghost predicate Begun(n: nat, i: nat, newBlock: Word)
      reads this
    {
      Valid() && n < TWO32 && (i > 0 ==> newBlock in headers && headers[newBlock] == Header(n, 0, false))
    }

    /** One turn of that loop with k frames to go: take a frame, map it to itself, write
        a header. */
    method ObtainNext(newBlock: Word, i: nat, n: nat, ghost grant: Grant, ghost safe: bool, ghost k: nat)
      returns (failed: bool, first: Word)
      requires k > 0 && Growing(n, grant, safe, i, k, newBlock)
      modifies this`headers
      modifies paging`mem, paging`tables, paging.pmm`usedBlocks, paging.pmm.bitmap
      ensures failed ==> Refused(grant, safe) && |grant.frames| == i
      ensures !failed ==> Growing(n, grant, safe, i + 1, k - 1, first)
    {
      var block := TakeMapped(grant, i, k);
      failed, first := block == 0, newBlock;
      if !failed {
        first := NoteFrame(newBlock, block, i, n, grant.frames);
      }
    }

    /** What the loop writes for its i-th frame: the new block's header in the first, a
        header nothing leads to in each of the others. */
    method NoteFrame(newBlock: Word, block: Word, i: nat, n: nat, ghost frames: seq<nat>) returns (first: Word)
      requires n < TWO32 && i < TWO32 / PAGE && LastWritten()
      requires i < |frames| && frames[i] == block != 0
      requires (i > 0 <==> newBlock != 0) && (i > 0 ==> newBlock == frames[0])
      modifies this`headers
      ensures first == frames[0] != 0 && LastWritten()
      ensures RowWritten(old(headers), frames, i) ==> RowWritten(headers, frames, i + 1)
      ensures GrowthSafe(blocks, n, frames) && old(Begun(n, i, newBlock)) ==> Begun(n, i + 1, first)
    {
      first := newBlock;
      if newBlock == 0 {
        first := block;
        headers := headers[first := Header(n, 0, false)];
      } else {
        var currentBlock := Wrap(newBlock + i * PAGE);
        headers := headers[currentBlock := Header(PAGE - HEADER, block, false)];
      }
      RowGrows(old(headers), headers, frames, i);
      if GrowthSafe(blocks, n, frames) && old(Begun(n, i, newBlock)) {
        assert Away(blocks, WrittenAt(frames, i));
        ListStands(old(headers), headers, freeList, blocks, WrittenAt(frames, i));
      }
    }

    /** One turn of that loop with k frames to go: take a frame and map it to itself. */
    method TakeMapped(ghost grant: Grant, ghost i: nat, ghost k: nat) returns (block: Word)
      requires paging.Valid() && k > 0 && Left(grant, i, k)
      modifies paging`mem, paging`tables, paging.pmm`usedBlocks, paging.pmm.bitmap
      ensures paging.Valid()
      ensures block == 0 ==> |grant.frames| == i && paging.View() == grant.world
      ensures block != 0 ==>
                i < |grant.frames| && grant.frames[i] == block && Left(grant, i + 1, k - 1)
    {
      OneRemains(grant, i, paging.View(), k);
      block := paging.pmm.AllocBlock();
      if block != 0 {
        paging.MapPage(block, block, paging.pd0);
      }
    }

    /** kheap_free. */
    method Free(ptr: nat)
      requires Valid() && Releasable(blocks, ptr)
      modifies this`headers, this`blocks
      ensures Valid() && blocks == FreeStep(old(blocks), ptr)
      ensures ptr == 0 ==> blocks == old(blocks) && headers == old(headers)
      ensures old(Placed(blocks)) ==> (Placed(blocks) <==> StepSafe(old(blocks), HeapRuns.Free(ptr)))
      // Besides the released header, only headers of blocks that end up free are written.
      ensures KeptBut(old(headers), ptr - HEADER, blocks)
    {
      if ptr == 0 {
        return;
      }
      ghost var i := Find(blocks, ptr - HEADER);
      FreeStepAt(blocks, i, ptr - HEADER);
      FreePlacedIff(blocks, ptr);
      Mark(ptr - HEADER);
      Pass();
      assert blocks == Coalesce(Freed(old(blocks), i));
    }

    /** The first write of kheap_free. */
    method Mark(block: nat)
      requires Valid() && Find(blocks, block) < |blocks|
      modifies this`headers, this`blocks
      ensures Valid() && blocks == Freed(old(blocks), Find(old(blocks), block))
      ensures block in old(headers)
      ensures headers == old(headers)[block := old(headers)[block].(free := true)]
    {
      ghost var i := Find(blocks, block);
      LinkedFlag(headers, freeList, blocks, i, true);
      headers := headers[block := headers[block].(free := true)];
      FreedSums(blocks, i);
      blocks := Freed(blocks, i);
    }

    /** The coalescing loop of kheap_free, over the list as it shrinks. */
    method Pass()
      requires Valid()
      modifies this`headers, this`blocks
      ensures Valid() && blocks == Coalesce(old(blocks)) && KeptBut(old(headers), -1, blocks)
    {
      var current := freeList;
      ghost var done: seq<Block>, rest, goal := [], blocks, Coalesce(blocks);
      assert blocks == done + rest;
      while current != 0
        invariant Passing(done, rest, current, goal) && KeptBut(old(headers), -1, done)
        decreases |rest|
      {
        PassHere(headers, freeList, done, rest);
        var next := headers[current].next;
        if headers[current].free && next != 0 && headers[next].free {
          MergeNext(current, next, done, rest, goal);
          done, rest := done + [Merge(rest[0], rest[1])], rest[2..];
        } else {
          PassOn(done, rest);
          done, rest := done + [rest[0]], rest[1..];
        }
        current := headers[current].next;
      }
      PassDone(done, rest, goal);
    }

    /** The pass with `done` behind it and `rest` to come, which will leave `goal`. */
    ghost predicate Passing(done: seq<Block>, rest: seq<Block>, current: nat, goal: seq<Block>)
      reads this
    {
      && Valid() && blocks == done + rest && current == FrontOr(rest, 0)
      && done + Coalesce(rest) == goal
    }

    /** Every header of `hs`, but for one at `at`, is as it was or heads a free block of
        `bs`. */
    ghost predicate KeptBut(hs: Headers, at: int, bs: seq<Block>)
      reads this
    {
      forall a :: a in hs && a != at ==> a in headers && (headers[a] == hs[a] || FreeAt(bs, a))
    }

    lemma PassDone(done: seq<Block>, rest: seq<Block>, goal: seq<Block>)
      requires Passing(done, rest, 0, goal)
      ensures blocks == done == goal
    {
      if rest != [] {
        PassHere(headers, freeList, done, rest);
      }
    }

    /** The two writes of the pass when the block at hand and the next are free. */
    method MergeNext(current: nat, next: nat, ghost done: seq<Block>, ghost rest: seq<Block>, ghost goal: seq<Block>)
      requires Passing(done, rest, current, goal) && |rest| > 1 && rest[0].free && rest[1].free
      requires current in headers && next == headers[current].next
      modifies this`headers, this`blocks
      ensures current in headers
      ensures var done' := done + [Merge(rest[0], rest[1])];
              && Passing(done', rest[2..], headers[current].next, goal)
              && forall hs :: old(KeptBut(hs, -1, done)) ==> KeptBut(hs, -1, done')
    {
      PassHere(headers, freeList, done, rest);
      PassMergeSums(done, rest);
      PassMerge(headers, freeList, done, rest);
      MergeWrites(headers, current, next, rest[0].size + rest[1].size + HEADER);
      headers := headers[current := headers[current].(size := headers[current].size + headers[next].size + HEADER)];
      headers := headers[current := headers[current].(next := headers[next].next)];
      blocks := done + [Merge(rest[0], rest[1])] + rest[2..];
      MergedIsFree(done, rest[0], rest[1]);
    }

    /** kheap_get_free_memory. */
    method GetFreeMemory() returns (freeMemory: Word)
      requires Valid()
      ensures freeMemory == FreeBytes(blocks)
    {
      freeMemory := 0;
      var current: nat := freeList;
      ghost var i: nat := 0;
      assert blocks[0..] == blocks;
      while current != 0
        invariant i <= |blocks| && Segment(headers, current, blocks[i..], 0)
        invariant freeMemory + FreeBytes(blocks[i..]) == FreeBytes(blocks)
        decreases |blocks| - i
      {
        BytesAccounted(blocks);
        assert blocks[i..][1..] == blocks[i + 1..];
        if headers[current].free {
          freeMemory := freeMemory + headers[current].size;
        }
        current := headers[current].next;
        i := i + 1;
      }
    }
  }

  lemma FreshLinked(hs: Headers, start: nat)
    requires start != 0 && start in hs && hs[start] == Header(ARENA - HEADER, 0, true)
    ensures Linked(hs, start, Fresh(start)) && Total(Fresh(start)) == ARENA
  {
    var bs := Fresh(start);
    assert bs[1..] == [];
  }

  function LastAddr(bs: seq<Block>): nat {
    if bs == [] then 0 else bs[|bs| - 1].addr
  }

  lemma FirstFitBeyond(bs: seq<Block>, n: nat, i: nat)
    requires i < |bs| && i <= FirstFit(bs, n) && !bs[i].Fits(n)
    ensures i + 1 <= FirstFit(bs, n)
  {}

  lemma LastLeadsNowhere(hs: Headers, head: nat, bs: seq<Block>)
    requires Linked(hs, head, bs)
    ensures bs == [] <==> LastAddr(bs) == 0
    ensures bs != [] ==> var p := LastAddr(bs); p in hs && hs[p := hs[p].(next := 0)] == hs
  {
    if bs != [] {
      var a, x := bs[..|bs| - 1], bs[|bs| - 1];
      var none: seq<Block> := [];
      assert bs == a + [x] + none;
      LinkedAround(hs, head, a, x, none);
    }
  }

  /** total_size and num_blocks_needed of the growth path. */
  method CountFrames(n: nat) returns (numBlocksNeeded: nat)
    ensures numBlocksNeeded == FramesNeeded(n)
  {
    var totalSize := Wrap(n + HEADER);
    numBlocksNeeded := Wrap(totalSize + PAGE - 1) / PAGE;
  }

  lemma MergedIsFree(done: seq<Block>, x: Block, y: Block)
    ensures FreeAt(done + [Merge(x, y)], x.addr)
    ensures forall a :: FreeAt(done, a) ==> FreeAt(done + [Merge(x, y)], a)
  {
    assert Merge(x, y) in done + [Merge(x, y)];
  }

  ghost predicate FreeAt(bs: seq<Block>, a: nat) {
    exists b :: b in bs && b.free && b.addr == a
  }

  /** What the pass sees at the front of the blocks it has not yet reached. */
  lemma PassHere(hs: Headers, head: nat, done: seq<Block>, rest: seq<Block>)
    requires Linked(hs, head, done + rest) && rest != []
    ensures var x := rest[0];
            && x.addr != 0 && x.addr in hs && hs[x.addr].size == x.size && hs[x.addr].free == x.free
            && hs[x.addr].next == FrontOr(rest[1..], 0)
    ensures |rest| > 1 ==>
              var y := rest[1];
              && y.addr != 0 && y.addr != rest[0].addr && y.addr in hs
              && hs[y.addr].size == y.size && hs[y.addr].free == y.free
  {
    var x, z := rest[0], rest[1..];
    assert done + rest == done + [x] + z;
    LinkedAround(hs, head, done, x, z);
    assert z != [] ==> z[0] in z;
  }

  lemma {:induction false} PassMerge(hs: Headers, head: nat, done: seq<Block>, rest: seq<Block>)
    requires Linked(hs, head, done + rest) && |rest| > 1 && rest[0].free && rest[1].free
    requires rest[0].size + rest[1].size + HEADER < TWO32
    ensures var x, y := rest[0], rest[1];
            && x.addr in hs && y.addr in hs && hs[y.addr].next == FrontOr(rest[2..], 0)
            && Linked(hs[x.addr := Header(x.size + y.size + HEADER, hs[y.addr].next, true)], head,
                      done + [Merge(x, y)] + rest[2..])
  {
    var x, y, z := rest[0], rest[1], rest[2..];
    assert done + rest == done + [x] + ([y] + z);
    LinkedMerge(hs, head, done, x, y, z);
    NextOfSecond(hs, head, done + [x], y, z);
  }

  lemma NextOfSecond(hs: Headers, head: nat, a: seq<Block>, y: Block, z: seq<Block>)
    requires Linked(hs, head, a + ([y] + z))
    ensures y.addr in hs && hs[y.addr].next == FrontOr(z, 0)
  {
    assert a + ([y] + z) == a + [y] + z;
    LinkedAround(hs, head, a, y, z);
  }

  lemma {:induction false} PassMergeSums(done: seq<Block>, rest: seq<Block>)
    requires |rest| > 1 && rest[0].free && rest[1].free
    ensures var m := [Merge(rest[0], rest[1])];
            && Total(done + m + rest[2..]) == Total(done + rest)
            && rest[0].size + rest[1].size + HEADER < Total(done + rest)
            && done + m + Coalesce(rest[2..]) == done + Coalesce(rest)
  {
    var m, z := [Merge(rest[0], rest[1])], rest[2..];
    assert rest[1..][1..] == z;
    SumsAppend(done, rest);
    SumsAppend(done + m, z);
    SumsAppend(done, m);
    Regroup(done, m, Coalesce(z));
  }

  lemma PassOn(done: seq<Block>, rest: seq<Block>)
    requires rest != [] && !(|rest| > 1 && rest[0].free && rest[1].free)
    ensures done + [rest[0]] + rest[1..] == done + rest
    ensures done + [rest[0]] + Coalesce(rest[1..]) == done + Coalesce(rest)
  {
    assert rest == [rest[0]] + rest[1..];
    Regroup(done, [rest[0]], rest[1..]);
    assert Coalesce(rest) == [rest[0]] + Coalesce(rest[1..]);
    Regroup(done, [rest[0]], Coalesce(rest[1..]));
  }

  /** A header written field by field is written once. */
  lemma FieldWrites(hs: Headers, a: nat, next: Word, size: Word)
    requires a in hs
    ensures var hs1 := hs[a := hs[a].(next := next)];
            var hs2 := hs1[a := hs1[a].(size := size)];
            hs2[a := hs2[a].(free := false)] == hs[a := Header(size, next, false)]
  {}

  lemma MergeWrites(hs: Headers, a: nat, b: nat, size: Word)
    requires a in hs && b in hs && a != b && hs[a].free
    ensures var hs1 := hs[a := hs[a].(size := size)];
            hs1[a := hs1[a].(next := hs1[b].next)] == hs[a := Header(size, hs[b].next, true)]
  {}

  lemma PlacedHeader(hs: Headers, head: nat, bs: seq<Block>, i: nat)
    requires Linked(hs, head, bs) && i < |bs|
    ensures bs[i].addr in hs && bs[i].addr != 0
    ensures hs[bs[i].addr].size == bs[i].size && hs[bs[i].addr].free == bs[i].free
    ensures bs[i] in bs
  {
    assert bs == bs[..i] + [bs[i]] + bs[i + 1..];
    LinkedAround(hs, head, bs[..i], bs[i], bs[i + 1..]);
  }

  /** Every header of `hs` that lies clear of block b is as it was. */
  ghost predicate KeptOutside(hs: Headers, hs': Headers, b: Block) {
    forall a :: a in hs && (a + HEADER <= b.addr || b.End() <= a) ==> a in hs' && hs'[a] == hs[a]
  }

  lemma LinkedWhole(hs: Headers, head: nat, bs: seq<Block>, i: nat, n: nat)
    requires Linked(hs, head, bs) && i < |bs| && bs[i].addr in hs && n <= bs[i].size <= n + HEADER
    ensures var hs' := hs[bs[i].addr := hs[bs[i].addr].(free := false)];
            Linked(hs', head, Place(bs, i, n)) && KeptOutside(hs, hs', bs[i])
  {
    LinkedFlag(hs, head, bs, i, false);
    assert Place(bs, i, n) == bs[i := bs[i].(free := false)];
  }

  /** The headers after the block at `a` is split to serve n bytes. */
  ghost function SplitHeaders(hs: Headers, a: Word, n: nat): Headers
    requires a in hs && hs[a].size > n + HEADER
  {
    var r := Wrap(a + HEADER + n);
    hs[r := Header(hs[a].size - n - HEADER, hs[a].next, true)][a := Header(n, r, false)]
  }

  lemma LinkedPlace(hs: Headers, head: nat, bs: seq<Block>, i: nat, n: nat)
    requires Linked(hs, head, bs) && i < |bs| && bs[i].addr in hs && bs[i].addr < TWO32
    requires hs[bs[i].addr].size == bs[i].size > n + HEADER && SplitSafe(bs, i, n)
    ensures Linked(SplitHeaders(hs, bs[i].addr, n), head, Place(bs, i, n))
    ensures KeptOutside(hs, SplitHeaders(hs, bs[i].addr, n), bs[i])
  {
    var a, x, z := bs[..i], bs[i], bs[i + 1..];
    var u := Block(x.addr, n, false);
    var r := Block(x.addr + HEADER + n, x.size - n - HEADER, true);
    assert bs == a + [x] + z;
    assert a + [u] + ([r] + z) == Place(bs, i, n);
    LinkedSplit(hs, head, a, x, u, r, z);
  }

  /** On blocks that do not overlap, a split meets no header of the list. */
  lemma PlacedSplitSafe(bs: seq<Block>, i: nat, n: nat)
    requires Placed(bs) && i < |bs|
    ensures SplitSafe(bs, i, n)
  {
    if bs[i].size > n + HEADER {
      var at := bs[i].addr + HEADER + n;
      forall b | b in bs ensures b.addr + HEADER <= at || at + HEADER <= b.addr {
        var j :| 0 <= j < |bs| && bs[j] == b;
        if j < i { assert bs[j].Misses(bs[i]); }
        if i < j { assert bs[i].Misses(bs[j]); }
      }
    }
  }

  /** The memory of the frame at f. */
  function FrameBlock(f: nat): Block {
    Block(f, PAGE - HEADER, false)
  }

  /** Frames in a row that hold no part of a block. */
  ghost predicate OwnRow(bs: seq<Block>, frames: seq<nat>) {
    Consecutive(frames) && forall f :: f in frames ==> 0 < f && f + PAGE <= TWO32 && Clear(bs, FrameBlock(f))
  }

  lemma FrameMisses(bs: seq<Block>, frames: seq<nat>, b: Block, i: nat)
    requires OwnRow(bs, frames) && i < |frames| && b in bs
    ensures b.End() <= frames[0] + i * PAGE || frames[0] + (i + 1) * PAGE <= b.addr
  {
    assert frames[i] in frames;
    assert FrameBlock(frames[i]).Misses(b);
  }

  lemma {:induction false} RowMisses(bs: seq<Block>, frames: seq<nat>, b: Block, k: nat)
    requires OwnRow(bs, frames) && 0 < k <= |frames| && b in bs
    ensures b.End() <= frames[0] || frames[0] + k * PAGE <= b.addr
  {
    FrameMisses(bs, frames, b, k - 1);
    if k > 1 {
      RowMisses(bs, frames, b, k - 1);
    }
  }

  /** Growth into such frames is safe, and its block misses all others. */
  lemma OwnRowIsSafe(bs: seq<Block>, n: nat, frames: seq<nat>)
    requires Placed(bs) && OwnRow(bs, frames) && n % PAGE == 0 && n < TWO32 - PAGE
    requires |frames| <= FramesNeeded(n)
    ensures GrowthSafe(bs, n, frames)
    ensures |frames| == FramesNeeded(n) ==>
              var b := Block(frames[0], n, false); Clear(bs, b) && 0 < b.addr && b.End() <= TWO32
  {
    FramesHoldRequestIff(n);
    if frames != [] {
      var last := |frames| - 1;
      assert frames[0] in frames && frames[last] in frames && frames[last] == frames[0] + last * PAGE;
      forall b | b in bs ensures b.End() <= frames[0] || frames[0] + |frames| * PAGE <= b.addr {
        RowMisses(bs, frames, b, |frames|);
      }
      forall i | 0 <= i < |frames| ensures Away(bs, WrittenAt(frames, i)) {
        assert frames[0] + i * PAGE <= frames[last];
      }
      if |frames| == FramesNeeded(n) {
        var b := Block(frames[0], n, false);
        PlacedAppendIff(bs, b);
        PlacedTotal(bs + [b], TWO32 - 1);
        SumsAppend(bs, [b]);
      }
    }
  }

  /** What a caller can go by: with blocks that do not overlap, and growth, if it comes to
      that, into frames of its own, an allocation is safe in both respects. */
  lemma AllocIsSafe(bs: seq<Block>, size: Word, frames: seq<nat>)
    requires Placed(bs) && size <= TWO32 - 2 * PAGE
    requires FirstFit(bs, RoundUp(size)) == |bs| ==>
               OwnRow(bs, frames) && |frames| <= FramesNeeded(RoundUp(size))
    ensures AllocSafe(bs, size, frames) && StepSafe(bs, HeapRuns.Alloc(size, frames))
  {
    if size > 0 {
      var n := RoundUp(size);
      var i := FirstFit(bs, n);
      RoundUpServesIff(size);
      if i < |bs| {
        PlacedSplitSafe(bs, i, n);
      } else {
        OwnRowIsSafe(bs, n, frames);
      }
    }
  }

  lemma AllocPlacedIff(bs: seq<Block>, size: Word, frames: seq<nat>)
    ensures var op := HeapRuns.Alloc(size, frames);
            Placed(bs) ==> (Placed(AllocStep(bs, size, frames).blocks) <==> StepSafe(bs, op))
  {
    if Placed(bs) {
      StepPlacedIff(bs, HeapRuns.Alloc(size, frames));
    }
  }

  lemma FreePlacedIff(bs: seq<Block>, ptr: nat)
    requires Releasable(bs, ptr)
    ensures Placed(bs) ==> (Placed(FreeStep(bs, ptr)) <==> StepSafe(bs, HeapRuns.Free(ptr)))
  {
    if Placed(bs) {
      StepPlacedIff(bs, HeapRuns.Free(ptr));
    }
  }
}
