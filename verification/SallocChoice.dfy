/**
 Which block a call of salloc takes, and where free_list points after every call.  Both are stated by
 addresses alone: how far one has to go from one address to another, on around the arena.
 */
module SallocChoice {
  import opened SallocHeap
  import opened SallocMemory
  import opened SallocRuns

  /** The way from one address on to another, past the end of the arena if need be. */
  function Ahead(total: int, from: int, to: int): int {
    if to >= from then to - from else to - from + total
  }

  /** c is the next free block after b, going on around the arena. */
  ghost predicate NextFree(bs: seq<Block>, total: int, b: Block, c: Block) {
    && c in bs && c.free && c != b
    && forall d | d in bs && d.free && d != b :: Ahead(total, b.start, c.start) <= Ahead(total, b.start, d.start)
  }

  // ----- the ring in address order

  lemma FreeInside(bs: seq<Block>, total: int, i: nat)
    requires Tiling(bs, total) && i < |FreeBlocks(bs)|
    ensures 0 <= FreeBlocks(bs)[i].start < total
  {
    FreeBlocksExact(bs);
    BlocksApart(bs, total);
    assert FreeBlocks(bs)[i] in bs;
    var j :| 0 <= j < |bs| && bs[j] == FreeBlocks(bs)[i];
  }

  lemma FreeAscending(bs: seq<Block>, total: int, i: nat, j: nat)
    requires Tiling(bs, total) && i < j < |FreeBlocks(bs)|
    ensures FreeBlocks(bs)[i].start < FreeBlocks(bs)[j].start
  {
    BlocksApart(bs, total);
    FreeBlocksAscending(bs);
  }

  /** The ring lists the free blocks by their way from free_list. */
  lemma RingByWay(h: Heap, total: int, i: nat, j: nat)
    requires Tiling(h.blocks, total) && GoodRover(h.blocks, h.rover) && i < j < |RingFrom(h)|
    ensures Ahead(total, h.rover, RingFrom(h)[i].start) < Ahead(total, h.rover, RingFrom(h)[j].start)
  {
    var fs := FreeBlocks(h.blocks);
    var k, n := Locate(fs, h.rover), |fs|;
    var x, y := if i < n - k then i + k else i - (n - k), if j < n - k then j + k else j - (n - k);
    assert RingFrom(h)[i] == fs[x] && RingFrom(h)[j] == fs[y];
    FreeInside(h.blocks, total, x);
    FreeInside(h.blocks, total, y);
    if x < y { FreeAscending(h.blocks, total, x, y); } else { FreeAscending(h.blocks, total, y, x); }
    if k < x { FreeAscending(h.blocks, total, k, x); } else if x < k { FreeAscending(h.blocks, total, x, k); }
    if k < y { FreeAscending(h.blocks, total, k, y); } else if y < k { FreeAscending(h.blocks, total, y, k); }
  }

  lemma RingByWayAtMost(h: Heap, total: int, i: nat, j: nat)
    requires Tiling(h.blocks, total) && GoodRover(h.blocks, h.rover) && i <= j < |RingFrom(h)|
    ensures Ahead(total, h.rover, RingFrom(h)[i].start) <= Ahead(total, h.rover, RingFrom(h)[j].start)
  {
    if i < j { RingByWay(h, total, i, j); }
  }

  // ----- salloc

  /** The block a call that finds one works on: of all free blocks with room for the request, the first
      on the way from free_list. */
  lemma ChoosesFirst(rule: SplitRule, h: Heap, total: int, m: nat) returns (b: Block)
    requires ValidHeap(h, total) && !Allocate(rule, h, m).Null?
    ensures b in h.blocks && b.free && m <= b.Usable()
    ensures forall d | d in h.blocks && d.free && m <= d.Usable() ::
              Ahead(total, h.rover, b.start) <= Ahead(total, h.rover, d.start)
    ensures Allocate(rule, h, m).Region? ==> Allocate(rule, h, m).ptr == b.start + PAYLOAD
    ensures Allocate(rule, h, m) == Carve(rule, h, m, b) && b == RingFrom(h)[FirstFit(RingFrom(h), m)]
  {
    var ring := RingFrom(h);
    var j := FirstFit(ring, m);
    AllocateCases(rule, h, m, ring, j);
    b := ring[j];
    RingBlock(h, total, j);
    forall d | d in h.blocks && d.free && m <= d.Usable()
      ensures Ahead(total, h.rover, b.start) <= Ahead(total, h.rover, d.start)
    {
      var i := InRing(h, d);
      RingByWayAtMost(h, total, j, i);
    }
  }

  /** What a successful call makes of the block it chose: with room for a header left over it keeps
      exactly the request and frees the rest behind it, else it hands out the whole block. */
  lemma GrantsExactly(rule: SplitRule, h: Heap, total: int, m: nat) returns (b: Block)
    requires ValidHeap(h, total) && total < SIZE_T && Allocate(rule, h, m).Region?
    ensures b in h.blocks && b.free && m <= b.Usable() && Allocate(rule, h, m).ptr == b.start + PAYLOAD
    ensures var bs, slack := Allocate(rule, h, m).heap.blocks, b.Usable() - m;
            if slack >= HEADER then
              Block(b.start, PAYLOAD + m, false) in bs && Block(b.start + PAYLOAD + m, slack, true) in bs
            else b.(free := false) in bs
  {
    b := ChoosesFirst(rule, h, total, m);
    var i := BlockIndex(h.blocks, total, b);
    SlackBound(h.blocks, total, b);
    PiecesIn(h.blocks, i, m);
    CarveCases(rule, h, m, b, i, b.Usable() - m);
  }

  lemma BlockIndex(bs: seq<Block>, total: int, b: Block) returns (i: nat)
    requires Tiling(bs, total) && b in bs
    ensures i < |bs| && bs[i] == b && i == Locate(bs, b.start)
  {
    BlocksApart(bs, total);
    i :| i < |bs| && bs[i] == b;
    LocateAt(bs, i);
  }

  lemma PiecesIn(bs: seq<Block>, i: nat, m: int)
    requires i < |bs|
    ensures bs[i].(free := false) in TakeWhole(bs, i)
    ensures Block(bs[i].start, PAYLOAD + m, false) in SplitAt(bs, i, m)
    ensures Block(bs[i].start + PAYLOAD + m, bs[i].Usable() - m, true) in SplitAt(bs, i, m)
  {
    assert TakeWhole(bs, i)[i] == bs[i].(free := false);
    assert SplitAt(bs, i, m)[i] == Block(bs[i].start, PAYLOAD + m, false);
    assert SplitAt(bs, i, m)[i + 1] == Block(bs[i].start + PAYLOAD + m, bs[i].Usable() - m, true);
  }

  /** free_list after a successful call: where it was, unless the call took the block it pointed to.
      Then it is at the rest of that block, or, when there is none, at the next free block, or null. */
  lemma RoverAfterGrant(rule: SplitRule, h: Heap, total: int, m: nat) returns (b: Block)
    requires ValidHeap(h, total) && total < SIZE_T && Allocate(rule, h, m).Region?
    ensures b in h.blocks && b.free && m <= b.Usable() && Allocate(rule, h, m).ptr == b.start + PAYLOAD
    ensures var rover := Allocate(rule, h, m).heap.rover;
            && (b.start != h.rover ==> rover == h.rover)
            && (b.start == h.rover && b.Usable() - m >= HEADER ==> rover == b.start + PAYLOAD + m)
            && (b.start == h.rover && b.Usable() - m < HEADER ==>
                  if exists d :: d in h.blocks && d.free && d != b
                  then exists c :: NextFree(h.blocks, total, b, c) && rover == c.start
                  else rover == NULL)
  {
    b := ChoosesFirst(rule, h, total, m);
    var i := BlockIndex(h.blocks, total, b);
    SlackBound(h.blocks, total, b);
    CarveCases(rule, h, m, b, i, b.Usable() - m);
    if b.start == h.rover && b.Usable() - m < HEADER {
      NextOnRing(h, total, b);
    }
  }

  lemma NextOnRing(h: Heap, total: int, b: Block)
    requires Tiling(h.blocks, total) && GoodRover(h.blocks, h.rover) && b in h.blocks && b.free && b.start == h.rover
    ensures if exists d :: d in h.blocks && d.free && d != b
            then exists c :: NextFree(h.blocks, total, b, c) && RoverPast(h, b.start) == c.start
            else RoverPast(h, b.start) == NULL
  {
    var ring := RingFrom(h);
    var j := InRing(h, b);
    RingBlock(h, total, j);
    if |ring| > 1 {
      RingBlock(h, total, 1);
      RingByWay(h, total, 0, 1);
      forall d | d in h.blocks && d.free && d != b
        ensures Ahead(total, b.start, ring[1].start) <= Ahead(total, b.start, d.start)
      {
        var x := InRing(h, d);
        RingByWayAtMost(h, total, 1, x);
      }
      assert NextFree(h.blocks, total, b, ring[1]);
    } else {
      forall d | d in h.blocks && d.free
        ensures d == b
      {
        var x := InRing(h, d);
      }
    }
  }

  // ----- sfree

  /** The address a lies in block c. */
  predicate Inside(a: int, c: Block) { c.start <= a < c.End() }

  /** free_list after a free: the start of the block that now holds the address it had, so it moves only
      when that block was merged into the one before; and the freed block when it was null. */
  lemma RoverAfterFree(h: Heap, total: int, i: nat) returns (c: Block)
    requires ValidHeap(h, total) && i < |h.blocks| && !h.blocks[i].free
    ensures c in Release(h, i).blocks && Release(h, i).rover == c.start
    ensures h.rover != NULL ==> Inside(h.rover, c)
    ensures h.rover == NULL ==> c == h.blocks[i].(free := true)
  {
    if h.rover == NULL {
      c := RoverWasNull(h, total, i);
    } else {
      var j := RoverIndex(h.blocks, h.rover);
      c := RoverStays(h, total, i, j);
    }
  }

  lemma RoverWasNull(h: Heap, total: int, i: nat) returns (c: Block)
    requires ValidHeap(h, total) && i < |h.blocks| && !h.blocks[i].free && h.rover == NULL
    ensures c in Release(h, i).blocks && Release(h, i).rover == c.start && c == h.blocks[i].(free := true)
  {
    BlocksApart(h.blocks, total);
    NothingFree(h.blocks, h.rover);
    c := h.blocks[i].(free := true);
    assert MarkFree(h.blocks, i)[i] == c;
  }

  /** Block a of the heap holds address x and is the one that free_list points to. */
  ghost predicate At(h: Heap, a: nat, x: int) {
    a < |h.blocks| && h.blocks[a].start == h.rover && Inside(x, h.blocks[a])
  }

  lemma RoverStays(h: Heap, total: int, i: nat, j: nat) returns (c: Block)
    requires ValidHeap(h, total) && i < |h.blocks| && !h.blocks[i].free
    requires j < |h.blocks| && h.blocks[j].start == h.rover != NULL
    ensures c in Release(h, i).blocks && Release(h, i).rover == c.start && Inside(h.rover, c)
  {
    var marked := Heap(MarkFree(h.blocks, i), h.rover);
    MarkedAt(h, total, i, j);
    RightReady(h, total, i);
    var a := RightFollows(marked, total, i, j, h.rover);
    var d := LeftFollows(CoalesceRight(marked, i), total, i, a, h.rover);
    c := Release(h, i).blocks[d];
  }

  lemma MarkedAt(h: Heap, total: int, i: nat, j: nat)
    requires Tiling(h.blocks, total) && i < |h.blocks| && j < |h.blocks| && h.blocks[j].start == h.rover
    ensures Tiling(MarkFree(h.blocks, i), total)
    ensures At(Heap(MarkFree(h.blocks, i), h.rover), j, h.rover)
  {
    BlocksApart(h.blocks, total);
    MarkTiling(h.blocks, total, i);
  }

  lemma RightReady(h: Heap, total: int, i: nat)
    requires ValidHeap(h, total) && i < |h.blocks| && !h.blocks[i].free && h.rover != NULL
    ensures var g := CoalesceRight(Heap(MarkFree(h.blocks, i), h.rover), i);
            Tiling(g.blocks, total) && i < |g.blocks|
  {
    MarkKeeps(h.blocks, total, h.rover, i);
    CoalesceRightStays(Heap(MarkFree(h.blocks, i), h.rover), total, i);
  }

  lemma RightFollows(h: Heap, total: int, i: nat, a: nat, x: int) returns (d: nat)
    requires Tiling(h.blocks, total) && i < |h.blocks| && At(h, a, x)
    ensures At(CoalesceRight(h, i), d, x)
  {
    d := a;
    if i + 1 < |h.blocks| && h.blocks[i + 1].free { d := FollowsMerge(h, total, i, a, x); }
  }

  lemma LeftFollows(h: Heap, total: int, i: nat, a: nat, x: int) returns (d: nat)
    requires Tiling(h.blocks, total) && i < |h.blocks| && At(h, a, x)
    ensures At(CoalesceLeft(h, i), d, x)
  {
    d := a;
    if 0 < i && h.blocks[i - 1].free { d := FollowsMerge(h, total, i - 1, a, x); }
  }

  /** The heap after block p took in the block behind it. */
  function MergeHeap(h: Heap, p: nat): Heap
    requires p + 1 < |h.blocks|
  {
    Heap(MergeAt(h.blocks, p), if h.rover == h.blocks[p + 1].start then h.blocks[p].start else h.rover)
  }

  /** A merge keeps free_list at the start of the block with a given address in it. */
  lemma FollowsMerge(h: Heap, total: int, p: nat, a: nat, x: int) returns (d: nat)
    requires Tiling(h.blocks, total) && p + 1 < |h.blocks| && a < |h.blocks|
    requires h.blocks[a].start == h.rover && Inside(x, h.blocks[a])
    ensures d < |MergeHeap(h, p).blocks|
    ensures MergeHeap(h, p).blocks[d].start == MergeHeap(h, p).rover && Inside(x, MergeHeap(h, p).blocks[d])
  {
    BlocksApart(h.blocks, total);
    assert Abuts(h.blocks, p, total);
    d := if a <= p then a else a - 1;
    assert MergeAt(h.blocks, p)[d] ==
           if d == p then h.blocks[p].(size := h.blocks[p].size + h.blocks[p + 1].size) else h.blocks[a];
  }

  lemma NothingFree(bs: seq<Block>, rover: int)
    requires GoodRover(bs, rover) && rover == NULL && (forall i | 0 <= i < |bs| :: 0 <= bs[i].start)
    ensures forall i | 0 <= i < |bs| :: !bs[i].free
  {
    if i: nat :| i < |bs| && bs[i].free {
      StartHere(bs, i);
      var j := RoverIndex(bs, rover);
    }
  }
}
