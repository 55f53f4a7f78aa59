/** Block headers linked through memory, and the list of blocks they stand for. */
module HeapList {
  import opened Machine
  import opened HeapBlocks

  /** The header at the front of each block; `next` is an address, 0 for NULL. */
  datatype Header = Header(size: Word, next: Word, free: bool)

  type Headers = map<nat, Header>

  /** Where the blocks of `bs` begin, or `tail` when there are none. */
  function FrontOr(bs: seq<Block>, tail: nat): nat {
    if bs == [] then tail else bs[0].addr
  }

  /** Following `next` from `head` meets exactly the blocks of `bs`, then `tail`. */
  ghost predicate Segment(hs: Headers, head: nat, bs: seq<Block>, tail: nat)
    decreases |bs|
  {
    if bs == [] then head == tail
    else
      && head == bs[0].addr != 0
      && head in hs && hs[head].size == bs[0].size && hs[head].free == bs[0].free
      && Segment(hs, hs[head].next, bs[1..], tail)
  }

  /** A header at `addr` shares no byte with the header of any block of `bs`. */
  ghost predicate Away(bs: seq<Block>, addr: nat) {
    forall b :: b in bs ==> b.addr + HEADER <= addr || addr + HEADER <= b.addr
  }

  /** No two headers of the list share a byte. */
  ghost predicate Distinct(bs: seq<Block>) {
    bs == [] || (Away(bs[1..], bs[0].addr) && Distinct(bs[1..]))
  }

  /** The whole list, up to NULL, with no block met twice. */
  ghost predicate Linked(hs: Headers, head: nat, bs: seq<Block>) {
    Segment(hs, head, bs, 0) && Distinct(bs)
  }

  lemma {:induction false} SegmentAppend(hs: Headers, head: nat, a: seq<Block>, b: seq<Block>, tail: nat)
    ensures Segment(hs, head, a + b, tail)
            <==> Segment(hs, head, a, FrontOr(b, tail)) && Segment(hs, FrontOr(b, tail), b, tail)
    decreases |a|
  {
    if a == [] {
      assert a + b == b;
    } else {
      assert (a + b)[1..] == a[1..] + b;
      if head in hs { SegmentAppend(hs, hs[head].next, a[1..], b, tail); }
    }
  }

  lemma {:induction false} DistinctAppend(a: seq<Block>, b: seq<Block>)
    ensures Distinct(a + b) <==> Distinct(a) && Distinct(b) && forall c :: c in a ==> Away(b, c.addr)
  {
    if a == [] {
      assert a + b == b;
    } else {
      assert (a + b)[1..] == a[1..] + b;
      DistinctAppend(a[1..], b);
      assert forall c :: c in a <==> c == a[0] || c in a[1..];
      assert forall c :: c in a[1..] + b <==> c in a[1..] || c in b;
    }
  }

  /** Writes away from a segment leave it as it was. */
  lemma {:induction false} SegmentElsewhere(hs: Headers, hs': Headers, head: nat, bs: seq<Block>, tail: nat)
    requires Segment(hs, head, bs, tail)
    requires forall b :: b in bs && b.addr in hs ==> b.addr in hs' && hs'[b.addr] == hs[b.addr]
    ensures Segment(hs', head, bs, tail)
    decreases |bs|
  {
    if bs != [] {
      assert bs[0] in bs;
      SegmentElsewhere(hs, hs', hs[head].next, bs[1..], tail);
    }
  }

  /** A list cut around one block: what comes before leads to it, what follows starts
      at its `next`, and neither side has a header there. */
  lemma LinkedAround(hs: Headers, head: nat, a: seq<Block>, x: Block, z: seq<Block>)
    ensures Linked(hs, head, a + [x] + z) <==>
            && Segment(hs, head, a, x.addr) && x.addr != 0
            && x.addr in hs && hs[x.addr].size == x.size && hs[x.addr].free == x.free
            && Segment(hs, hs[x.addr].next, z, 0)
            && Distinct(a) && Distinct(z) && Away(a, x.addr) && Away(z, x.addr)
            && forall c :: c in a ==> Away(z, c.addr)
  {
    var xz := [x] + z;
    assert a + [x] + z == a + xz && xz[1..] == z;
    SegmentAppend(hs, head, a, xz, 0);
    DistinctAppend(a, xz);
    assert x in xz && forall c :: c in z ==> c in xz;
  }

  /** Rewriting one header in place, `next` included. */
  lemma {:induction false} LinkedRewrite(hs: Headers, head: nat, a: seq<Block>, x: Block,
                                         h: Header, x': Block, z': seq<Block>)
    requires Segment(hs, head, a, x.addr) && x.addr != 0
    requires x'.addr == x.addr && h.size == x'.size && h.free == x'.free
    requires Segment(hs, h.next, z', 0)
    requires Distinct(a) && Distinct(z') && Away(a, x.addr) && Away(z', x.addr)
    requires forall c :: c in a ==> Away(z', c.addr)
    ensures Linked(hs[x.addr := h], head, a + [x'] + z')
  {
    var hs' := hs[x.addr := h];
    SegmentElsewhere(hs, hs', head, a, x.addr);
    SegmentElsewhere(hs, hs', h.next, z', 0);
    LinkedAround(hs', head, a, x', z');
  }

  lemma LinkedFlag(hs: Headers, head: nat, bs: seq<Block>, i: nat, free: bool)
    requires Linked(hs, head, bs) && i < |bs|
    ensures bs[i].addr in hs
    ensures Linked(hs[bs[i].addr := hs[bs[i].addr].(free := free)], head, bs[i := bs[i].(free := free)])
  {
    var a, x, z := bs[..i], bs[i], bs[i + 1..];
    assert bs == a + [x] + z;
    LinkedAround(hs, head, a, x, z);
    LinkedRewrite(hs, head, a, x, hs[x.addr].(free := free), x.(free := free), z);
    assert bs[i := x.(free := free)] == a + [x.(free := free)] + z;
  }

  /** The two writes of a merge take the second block out of the list. */
  lemma LinkedMerge(hs: Headers, head: nat, a: seq<Block>, x: Block, y: Block, z: seq<Block>)
    requires Linked(hs, head, a + [x] + ([y] + z)) && x.size + y.size + HEADER < TWO32
    ensures x.addr in hs && y.addr in hs && hs[x.addr].next == y.addr && y.addr != 0
    ensures hs[x.addr].size == x.size && hs[y.addr].size == y.size
    ensures Linked(hs[x.addr := Header(x.size + y.size + HEADER, hs[y.addr].next, true)],
                   head, a + [Merge(x, y)] + z)
  {
    var yz := [y] + z;
    LinkedAround(hs, head, a, x, yz);
    assert yz[1..] == z && y in yz && forall c :: c in z ==> c in yz;
    LinkedRewrite(hs, head, a, x, Header(x.size + y.size + HEADER, hs[y.addr].next, true), Merge(x, y), z);
  }

  /** The writes of a split put the remainder after the block that is served. */
  lemma LinkedSplit(hs: Headers, head: nat, a: seq<Block>, x: Block, u: Block, r: Block, z: seq<Block>)
    requires Linked(hs, head, a + [x] + z)
    requires u.addr == x.addr && r.addr != 0 && Away(a + [x] + z, r.addr)
    requires u.size < TWO32 && r.size < TWO32 && r.addr < TWO32
    ensures x.addr in hs
    ensures Linked(hs[r.addr := Header(r.size, hs[x.addr].next, r.free)][x.addr := Header(u.size, r.addr, u.free)],
                   head, a + [u] + ([r] + z))
  {
    LinkedAround(hs, head, a, x, z);
    assert forall c :: c in a + [x] + z <==> c in a || c == x || c in z;
    var hs1 := hs[r.addr := Header(r.size, hs[x.addr].next, r.free)];
    SegmentElsewhere(hs, hs1, head, a, x.addr);
    SegmentElsewhere(hs, hs1, hs[x.addr].next, z, 0);
    var rz := [r] + z;
    assert rz[1..] == z;
    LinkedRewrite(hs1, head, a, x, Header(u.size, r.addr, u.free), u, rz);
  }

  /** Appending: the last block, or the head, is made to lead to the new one. */
  lemma LinkedAppend(hs: Headers, head: nat, bs: seq<Block>, b: Block)
    requires Linked(hs, head, bs) && b.addr != 0 && b.addr < TWO32 && b.size < TWO32
    requires b.addr in hs && hs[b.addr] == Header(b.size, 0, b.free)
    requires Away(bs, b.addr)
    ensures bs == [] ==> Linked(hs, b.addr, [b])
    ensures bs != [] ==>
              bs[|bs| - 1].addr in hs
              && Linked(hs[bs[|bs| - 1].addr := hs[bs[|bs| - 1].addr].(next := b.addr)], head, bs + [b])
  {
    if bs != [] {
      var a, x := bs[..|bs| - 1], bs[|bs| - 1];
      var none: seq<Block> := [];
      assert bs == a + [x] + none && bs + [b] == a + [x] + [b];
      LinkedAround(hs, head, a, x, none);
      assert x in bs && forall c :: c in a ==> c in bs;
      LinkedRewrite(hs, head, a, x, hs[x.addr].(next := b.addr), x, [b]);
    }
  }
}
