/** kernel/src/paging/paging.c: page tables written in place, frames from the allocator. */
module Paging {
  import opened Machine
  import opened Bits
  import opened FrameSet
  import opened PageTables
  import opened PagingRuns
  import opened Pmm

  // (uint32_t *)-1
  const NO_DIRECTORY: Word := 0xFFFF_FFFF

  // The bit expressions of paging.c, with what they compute.

  /** x | 3 */
  method OrFlags(x: Word) returns (r: Word)
    ensures r == Entry(x)
  {
    OrThree(x);
    r := Or(x, 3);
  }

  /** x & ~0xFFF */
  method PageBase(x: Word) returns (r: Word)
    ensures r == x / PAGE * PAGE
  {
    EntryMasks(x);
    r := And(x, Not(0xFFF, 32));
  }

  /** x & 1 */
  method TestPresent(x: Word) returns (r: bool)
    ensures r == Present(x)
  {
    EntryMasks(x);
    r := And(x, 1) != 0;
  }

  /** va >> 22 and (va >> 12) & 0x03FF */
  method SplitIndices(va: Word) returns (pdIdx: nat, ptIdx: nat)
    ensures pdIdx == PdIndex(va) && ptIdx == PtIndex(va)
  {
    EntryMasks(va / 0x1000);
    pdIdx, ptIdx := va / 0x40_0000, And(va / 0x1000, 0x03FF);
  }

  class PageMapper {
    const pmm: FrameAllocator
    // Physical memory, as the words of its frames.
    var mem: Memory
    // The address of the kernel directory.
    var pd0: Word
    var pt0: Word
    ghost var dirs: set<nat>
    ghost var tables: set<nat>

    constructor (allocator: FrameAllocator, memory: Memory)
      ensures pmm == allocator && mem == memory
    {
      pmm, mem := allocator, memory;
      pd0, pt0, dirs, tables := 0, 0, {}, {};
    }

    ghost predicate Valid()
      reads this, pmm
    {
      pmm.Valid() && pd0 % PAGE == 0
    }

    ghost function View(): (w: World)
      requires Valid()
      reads this, pmm, pmm.bitmap
      ensures WellFormed(w.frames) && w.pd0 == pd0 / PAGE < FRAMES
    {
      World(mem, pmm.View(), pd0 / PAGE, dirs, tables)
    }

    /** `p[i] = v` for a table or directory at address p. */
    method Store(p: Word, i: nat, v: Word)
      requires i < ENTRIES
      modifies this`mem
      ensures mem == Put(old(mem), p / PAGE, i, v)
    {
      mem := mem[p / PAGE := mem[p / PAGE][i := v]];
    }

    /** paging_init. */
    method Init()
      requires Valid()
      modifies this, pmm`usedBlocks, pmm.bitmap
      ensures Valid() && View() == InitialWorld(old(mem), old(pmm.View()))
    {
      NullIff(pmm.View());
      pd0 := pmm.AllocBlock();
      NullIff(pmm.View());
      pt0 := pmm.AllocBlock();
      FillDirectory();
      FillIdentity();
      dirs, tables := {pd0 / PAGE}, {pt0 / PAGE};
    }

    /** The directory paging_init writes: slot 0 alone is present. */
    method FillDirectory()
      modifies this`mem
      ensures mem == old(mem)[pd0 / PAGE := FirstDirectory(pt0)]
    {
      var pd := pd0 / PAGE;
      var e := OrFlags(pt0);
      Store(pd0, 0, e);
      for i := 1 to 1024
        invariant mem == old(mem)[pd := mem[pd]]
        invariant forall k :: 0 <= k < i ==> mem[pd][k] == if k == 0 then Entry(pt0) else 0
      {
        Store(pd0, i, 0);
      }
      assert mem[pd] == FirstDirectory(pt0);
    }

    /** The table paging_init writes: page k leads to frame k. */
    method FillIdentity()
      modifies this`mem
      ensures mem == old(mem)[pt0 / PAGE := IdentityTable()]
    {
      var pt := pt0 / PAGE;
      var pageAddr: Word := 0;
      for pg := 0 to 1024
        invariant mem == old(mem)[pt := mem[pt]] && pageAddr == Wrap(pg * PAGE)
        invariant forall k :: 0 <= k < pg ==> mem[pt][k] == Entry(Wrap(k * PAGE))
      {
        var e := OrFlags(pageAddr);
        Store(pt0, pg, e);
        WrapTwice(pg * PAGE, PAGE);
        pageAddr := Wrap(pageAddr + 4096);
      }
      assert mem[pt] == IdentityTable();
    }

    /** paging_new_directory: the new directory, or NO_DIRECTORY when no frame is left. */
    method NewDirectory() returns (p: Word)
      requires Valid() && 0 in pmm.View().used && pd0 / PAGE in pmm.View().used
      modifies this`mem, this`dirs, pmm`usedBlocks, pmm.bitmap
      ensures Valid() && View() == PageTables.NewDirectory(old(View()))
      ensures p == if Lowest(old(pmm.View())).None? then 0xFFFF_FFFF else TakenPtr(old(pmm.View()))
      // The answer is the start of a page exactly when a frame was left.
      ensures p % 4096 == 0 <==> Lowest(old(pmm.View())).Some?
    {
      NullIff(pmm.View());
      var pd: Word := pmm.AllocBlock();
      if pd == 0 {
        return NO_DIRECTORY;
      }
      CopyDirectory(pd);
      dirs := dirs + {pd / PAGE};
      return pd;
    }

    /** The copying loop of paging_new_directory. */
    method CopyDirectory(pd: Word)
      requires pd / PAGE != pd0 / PAGE
      modifies this`mem
      ensures mem == old(mem)[pd / PAGE := old(mem)[pd0 / PAGE]]
    {
      for i := 0 to 1024
        invariant mem == old(mem)[pd / PAGE := mem[pd / PAGE]]
        invariant forall k :: 0 <= k < i ==> mem[pd / PAGE][k] == old(mem)[pd0 / PAGE][k]
      {
        Store(pd, i, mem[pd0 / PAGE][i]);
      }
      assert mem[pd / PAGE] == old(mem)[pd0 / PAGE];
    }

    /** paging_map_page. */
    method MapPage(physAddr: Word, virtAddr: Word, pd: Word)
      requires Valid() && pd % PAGE == 0
      modifies this`mem, this`tables, pmm`usedBlocks, pmm.bitmap
      ensures Valid() && View() == PageTables.MapPage(old(View()), physAddr, virtAddr, pd / PAGE)
    {
      var pdIdx, ptIdx := SplitIndices(virtAddr);
      var pt: Word;
      var present := TestPresent(mem[pd / PAGE][pdIdx]);
      if !present {
        NullIff(pmm.View());
        pt := pmm.AllocBlock();
        var link := OrFlags(pt);
        Store(pd, pdIdx, link);
        tables := tables + {pt / PAGE};
      } else {
        pt := PageBase(mem[pd / PAGE][pdIdx]);
      }
      var leaf := OrFlags(physAddr);
      Store(pt, ptIdx, leaf);
    }

    /** A mapping loop with n pages to go will end in `goal`. */
    ghost predicate Heading(physAddr: Word, virtAddr: Word, n: nat, pd: Word, goal: World)
      reads this, pmm, pmm.bitmap
    {
      && Valid() && pd % PAGE == 0
      && forall w :: w == View() ==> MapPages(w, physAddr, virtAddr, n, pd / PAGE) == goal
    }

    lemma {:induction false} HeadingDone(physAddr: Word, virtAddr: Word, pd: Word, goal: World)
      requires Heading(physAddr, virtAddr, 0, pd, goal)
      ensures Valid() && View() == goal
    {
      assert MapPages(View(), physAddr, virtAddr, 0, pd / PAGE) == View();
    }

    /** One turn of such a loop. */
    method MapNext(physAddr: Word, virtAddr: Word, pd: Word, ghost n: nat, ghost goal: World)
      requires n > 0 && Heading(physAddr, virtAddr, n, pd, goal)
      modifies this`mem, this`tables, pmm`usedBlocks, pmm.bitmap
      ensures Heading(Wrap(physAddr + PAGE), Wrap(virtAddr + PAGE), n - 1, pd, goal)
    {
      UnfoldMapPages(View(), physAddr, virtAddr, n, pd / PAGE);
      MapPage(physAddr, virtAddr, pd);
    }

    /** paging_unmap_page. */
    method UnmapPage(virtAddr: Word, pd: Word)
      requires Valid() && pd % PAGE == 0
      modifies this`mem
      ensures Valid() && View() == PageTables.UnmapPage(old(View()), virtAddr, pd / PAGE)
    {
      var pdIdx, ptIdx := SplitIndices(virtAddr);
      var present := TestPresent(mem[pd / PAGE][pdIdx]);
      if !present {
        return;
      }
      var pt := PageBase(mem[pd / PAGE][pdIdx]);
      Store(pt, ptIdx, 0);
    }

    /** paging_map_range. */
    method MapRange(physStart: Word, virtStart: Word, size: Word, pd: Word)
      requires Valid() && pd % PAGE == 0
      modifies this`mem, this`tables, pmm`usedBlocks, pmm.bitmap
      ensures Valid()
      ensures View() == MapPages(old(View()), physStart, virtStart, PageCount(size), pd / PAGE)
    {
      var numPages := Wrap(size + 0xFFF) / 0x1000;
      var physAddr: Word, virtAddr: Word := physStart, virtStart;
      ghost var goal := MapPages(View(), physStart, virtStart, numPages, pd / PAGE);
      for i := 0 to numPages
        invariant Heading(physAddr, virtAddr, numPages - i, pd, goal)
      {
        MapNext(physAddr, virtAddr, pd, numPages - i, goal);
        physAddr, virtAddr := Wrap(physAddr + 0x1000), Wrap(virtAddr + 0x1000);
      }
      HeadingDone(physAddr, virtAddr, pd, goal);
    }
  }
}
