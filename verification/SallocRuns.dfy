/**
 What the allocator promises over whole runs, stated on the heap value that SallocArena proves the
 pointer code to maintain.
 */
module SallocRuns {
  import opened SallocHeap
  import opened SallocMemory
  import opened SallocArena
  import opened Options

  // ----- the layout is determined by the live allocations

  /** A free block cannot end before the free block at the same place in a heap with the same
      live set: the allocated block behind it would lie inside the other one. */
  lemma FreeEnds(bs: seq<Block>, cs: seq<Block>, total: int, i: nat)
    requires WellFormed(bs, total) && WellFormed(cs, total) && Live(bs) == Live(cs)
    requires i < |bs| && i < |cs| && bs[i].start == cs[i].start && bs[i].free && cs[i].free
    ensures bs[i].End() >= cs[i].End()
  {
    BlocksApart(cs, total);
    assert Abuts(bs, i, total);
    if i + 1 < |bs| {
      assert !(bs[i].free && bs[i + 1].free);
      var next := bs[i + 1];
      assert next in Live(bs);
      var j :| 0 <= j < |cs| && cs[j] == next;
    } else {
      assert cs[i].End() <= total;
    }
  }

  lemma LiveAgrees(bs: seq<Block>, cs: seq<Block>, total: int, i: nat)
    requires Tiling(cs, total) && Live(bs) == Live(cs)
    requires i < |bs| && i < |cs| && bs[i].start == cs[i].start
    ensures !bs[i].free ==> cs[i] == bs[i]
  {
    if !bs[i].free {
      assert bs[i] in Live(bs);
      BlocksApart(cs, total);
      var j :| 0 <= j < |cs| && cs[j] == bs[i];
    }
  }

  lemma {:induction false} SamePrefixOf(bs: seq<Block>, cs: seq<Block>, total: int, k: nat)
    requires WellFormed(bs, total) && WellFormed(cs, total) && Live(bs) == Live(cs) && k <= |bs|
    ensures k <= |cs| && bs[..k] == cs[..k]
  {
    if k > 0 {
      var i := k - 1;
      SamePrefixOf(bs, cs, total, i);
      BlocksApart(bs, total);
      BlocksApart(cs, total);
      if i > 0 {
        assert bs[..i][i - 1] == cs[..i][i - 1];
        assert Abuts(bs, i - 1, total) && Abuts(cs, i - 1, total);
      }
      var b, c := bs[i], cs[i];
      LiveAgrees(bs, cs, total, i);
      LiveAgrees(cs, bs, total, i);
      if b.free && c.free {
        FreeEnds(bs, cs, total, i);
        FreeEnds(cs, bs, total, i);
      }
      assert bs[..k] == bs[..i] + [b] && cs[..k] == cs[..i] + [c];
    }
  }

  /** Canonical layout: two well-formed heaps holding the same live allocations are the same
      sequence of blocks, whatever calls led to them. */
  lemma LayoutIsCanonical(bs: seq<Block>, cs: seq<Block>, total: int)
    requires WellFormed(bs, total) && WellFormed(cs, total) && Live(bs) == Live(cs)
    ensures bs == cs
  {
    SamePrefixOf(bs, cs, total, |bs|);
    SamePrefixOf(cs, bs, total, |cs|);
    assert bs[..|bs|] == bs && cs[..|cs|] == cs;
  }

  // ----- one call

  lemma RingBlock(h: Heap, total: int, j: nat)
    requires Tiling(h.blocks, total) && GoodRover(h.blocks, h.rover) && j < |RingFrom(h)|
    ensures var i := Locate(h.blocks, RingFrom(h)[j].start);
            && i < |h.blocks| && h.blocks[i] == RingFrom(h)[j] && h.blocks[i].free
            && (RingFrom(h)[j].start == h.rover <==> j == 0)
  {
    var bs, ring, fs := h.blocks, RingFrom(h), FreeBlocks(h.blocks);
    var k := Locate(fs, h.rover);
    var f := if j < |fs| - k then j + k else j - (|fs| - k);
    assert ring[j] == fs[f];
    FreeBlocksExact(bs);
    BlocksApart(bs, total);
    FreeBlocksAscending(bs);
    var i :| 0 <= i < |bs| && bs[i] == fs[f];
    LocateAt(bs, i);
  }

  lemma LiveConcat(a: seq<Block>, b: seq<Block>, c: seq<Block>)
    ensures Live(a + b + c) == Live(a) + Live(b) + Live(c)
  {
  }

  /** Replacing a free block by blocks of which b is the only live one adds just b. */
  lemma CarveLive(bs: seq<Block>, total: int, i: nat, mid: seq<Block>, b: Block)
    requires Tiling(bs, total) && i < |bs| && bs[i].free && Live(mid) == {b}
    requires bs[i].start <= b.start && b.End() <= bs[i].End()
    ensures Live(bs[..i] + mid + bs[i + 1..]) == Live(bs) + {b}
    ensures forall c | c in Live(bs) :: c.End() <= b.start || b.End() <= c.start
  {
    assert bs == bs[..i] + [bs[i]] + bs[i + 1..];
    LiveConcat(bs[..i], [bs[i]], bs[i + 1..]);
    LiveConcat(bs[..i], mid, bs[i + 1..]);
    assert Live([bs[i]]) == {};
    LiveApart(bs, total, i, b);
  }

  lemma LiveApart(bs: seq<Block>, total: int, i: nat, b: Block)
    requires Tiling(bs, total) && i < |bs| && bs[i].free
    requires bs[i].start <= b.start && b.End() <= bs[i].End()
    ensures forall c | c in Live(bs) :: c.End() <= b.start || b.End() <= c.start
  {
    BlocksApart(bs, total);
    forall c | c in Live(bs)
      ensures c.End() <= b.start || b.End() <= c.start
    {
      var j :| 0 <= j < |bs| && bs[j] == c;
    }
  }

  /** A returned block: it starts at ptr - 16, is allocated, and has at least m usable bytes. */
  ghost predicate Granted(b: Block, ptr: int, m: int) {
    b.start == ptr - PAYLOAD && !b.free && m <= b.Usable()
  }

  /** Heap g is valid, and holds what h does plus one more allocation b, apart from the others. */
  ghost predicate Grants(h: Heap, g: Heap, total: int, b: Block) {
    var all :=
      && ValidHeap(g, total) && Live(g.blocks) == Live(h.blocks) + {b}
      && (forall c | c in Live(h.blocks) :: c.End() <= b.start || b.End() <= c.start);
    all
  }

  lemma SplitGrants(h: Heap, total: int, i: nat, m: nat)
    requires ValidHeap(h, total) && i < |h.blocks| && h.blocks[i].free
    requires m % 2 == 0 && SMALLEST <= m && HEADER <= h.blocks[i].Usable() - m
    ensures Grants(h, SplitHeap(h, i, m), total, Block(h.blocks[i].start, PAYLOAD + m, false))
  {
    var bs, a := h.blocks, h.blocks[i];
    var left, right := Block(a.start, PAYLOAD + m, false), Block(a.start + PAYLOAD + m, a.Usable() - m, true);
    SplitKeeps(bs, total, i, m);
    SplitRover(bs, h.rover, i, m);
    CarveLive(bs, total, i, [left, right], left);
  }

  lemma WholeGrants(h: Heap, total: int, i: nat)
    requires ValidHeap(h, total) && i < |h.blocks| && h.blocks[i].free
    ensures Grants(h, TakeHeap(h, i), total, h.blocks[i].(free := false))
  {
    var bs, b := h.blocks, h.blocks[i].(free := false);
    TakeKeeps(bs, total, i);
    TakenRover(bs, total, h.rover, i);
    CarveLive(bs, total, i, [b], b);
  }

  lemma TakenRover(bs: seq<Block>, total: int, rover: int, i: nat)
    requires Tiling(bs, total) && GoodRover(bs, rover) && i < |bs| && bs[i].free
    ensures GoodRover(TakeWhole(bs, i), RoverPast(Heap(bs, rover), bs[i].start))
  {
    BlocksApart(bs, total);
    FreeBlocksAscending(bs);
    var k := TakeRing(bs, i);
    TakeRover(bs, rover, i, k);
    TakeRoverGood(bs, rover, i, k, RoverPast(Heap(bs, rover), bs[i].start));
  }

  /** Everything a successful salloc does: the heap stays well formed, and exactly one new live
      block appears, at an address where no live block was. */
  lemma AllocateGrants(rule: SplitRule, h: Heap, total: int, m: nat) returns (b: Block)
    requires ValidHeap(h, total) && m % 2 == 0 && Allocate(rule, h, m).Region?
    ensures var o := Allocate(rule, h, m);
            && ValidHeap(o.heap, total)
            && Granted(b, o.ptr, m)
            && Live(o.heap.blocks) == Live(h.blocks) + {b}
            && (forall c | c in Live(h.blocks) :: c.End() <= b.start || b.End() <= c.start)
  {
    var ring := RingFrom(h);
    var j := FirstFit(ring, m);
    AllocateCases(rule, h, m, ring, j);
    RingBlock(h, total, j);
    b := CarveGrants(rule, h, total, m, Locate(h.blocks, ring[j].start));
  }

  lemma CarveGrants(rule: SplitRule, h: Heap, total: int, m: nat, i: nat) returns (b: Block)
    requires ValidHeap(h, total) && m % 2 == 0 && i < |h.blocks| && h.blocks[i].free && m <= h.blocks[i].Usable()
    requires i == Locate(h.blocks, h.blocks[i].start) && Carve(rule, h, m, h.blocks[i]).Region?
    ensures var o := Carve(rule, h, m, h.blocks[i]);
            Granted(b, o.ptr, m) && Grants(h, o.heap, total, b)
  {
    var a := h.blocks[i];
    CarveCases(rule, h, m, a, i, a.Usable() - m);
    if TakesSplit(rule, a.Usable() - m) {
      SplitGrants(h, total, i, m);
      b := Block(a.start, PAYLOAD + m, false);
    } else {
      WholeGrants(h, total, i);
      b := a.(free := false);
    }
  }

  /** salloc returns null exactly when no free block has room for the rounded request. */
  lemma NullIffNoFit(rule: SplitRule, h: Heap, total: int, m: nat)
    requires ValidHeap(h, total)
    ensures Allocate(rule, h, m).Null? <==> forall b | b in h.blocks && b.free :: b.Usable() < m
    ensures Allocate(rule, h, m).Null? ==> Allocate(rule, h, m).heap == h
  {
    var ring := RingFrom(h);
    var j := FirstFit(ring, m);
    if j < |ring| {
      RingBlock(h, total, j);
    } else {
      forall b | b in h.blocks && b.free
        ensures b.Usable() < m
      {
        var i := InRing(h, b);
      }
    }
  }

  /** Every free block is somewhere on the ring a search walks. */
  lemma InRing(h: Heap, b: Block) returns (j: nat)
    requires b in h.blocks && b.free
    ensures j < |RingFrom(h)| && RingFrom(h)[j] == b
  {
    var fs := FreeBlocks(h.blocks);
    var k := Locate(fs, h.rover);
    FreeBlocksExact(h.blocks);
    var f :| 0 <= f < |fs| && fs[f] == b;
    j := if f < k then f + (|fs| - k) else f - k;
  }

  lemma ReleaseLive(bs: seq<Block>, i: nat, merged: Block)
    requires i < |bs| && !bs[i].free && merged.free && Apart(bs)
    ensures Live(bs[..i - FreeBefore(bs, i)] + [merged] + bs[i + 1 + FreeAfter(bs, i)..]) == Live(bs) - {bs[i]}
  {
    var l, r := FreeBefore(bs, i), FreeAfter(bs, i);
    var pre, post := bs[..i - l], bs[i + 1 + r..];
    LiveConcat(pre, [merged], post);
    forall b | b in Live(bs) && b != bs[i]
      ensures b in pre || b in post
    {
      var j :| 0 <= j < |bs| && bs[j] == b;
      assert if j < i then b == pre[j] else b == post[j - (i + 1 + r)];
    }
    forall b | b in pre || b in post
      ensures b in bs && b != bs[i]
    {
    }
  }

  lemma CoalesceRightStays(h: Heap, total: int, i: nat)
    requires Tiling(h.blocks, total) && GoodRover(h.blocks, h.rover) && i < |h.blocks| && h.blocks[i].free
    ensures var g := CoalesceRight(h, i);
            && Tiling(g.blocks, total) && GoodRover(g.blocks, g.rover)
            && i < |g.blocks| && g.blocks[i].free && g.blocks[..i] == h.blocks[..i]
  {
    BlocksApart(h.blocks, total);
    if i + 1 < |h.blocks| && h.blocks[i + 1].free {
      MergeTiling(h.blocks, total, i);
      MergeRover(h.blocks, h.rover, i);
    }
  }

  lemma CoalesceLeftStays(h: Heap, total: int, i: nat)
    requires Tiling(h.blocks, total) && GoodRover(h.blocks, h.rover) && i < |h.blocks| && h.blocks[i].free
    ensures Tiling(CoalesceLeft(h, i).blocks, total)
    ensures GoodRover(CoalesceLeft(h, i).blocks, CoalesceLeft(h, i).rover)
  {
    BlocksApart(h.blocks, total);
    if 0 < i && h.blocks[i - 1].free {
      MergeTiling(h.blocks, total, i - 1);
      MergeRover(h.blocks, h.rover, i - 1);
    }
  }

  /** A release keeps the heap well formed. */
  lemma ReleaseKeeps(h: Heap, total: int, i: nat)
    requires ValidHeap(h, total) && i < |h.blocks| && !h.blocks[i].free
    ensures ValidHeap(Release(h, i), total)
  {
    ReleaseCoalesces(h, i);
    MarkKeeps(h.blocks, total, h.rover, i);
    var marked := Heap(MarkFree(h.blocks, i), if h.rover == NULL then h.blocks[i].start else h.rover);
    CoalesceRightStays(marked, total, i);
    CoalesceLeftStays(CoalesceRight(marked, i), total, i);
  }

  /** A release removes exactly one live block. */
  lemma ReleaseRemoves(h: Heap, total: int, i: nat)
    requires ValidHeap(h, total) && i < |h.blocks| && !h.blocks[i].free
    ensures Live(Release(h, i).blocks) == Live(h.blocks) - {h.blocks[i]}
  {
    var merged := ReleaseShape(h, i);
    BlocksApart(h.blocks, total);
    ReleaseLive(h.blocks, i, merged);
  }

  // ----- when the C code keeps the heap intact

  /** The wrapped comparison of the compiled code agrees with the rule in the comment exactly when
      the remainder has at least as many bytes as the header part it is reduced by. */
  lemma SplitTestsAgree(slack: nat)
    requires slack < SIZE_T
    ensures TakesSplit(Compiled, slack) == TakesSplit(Documented, slack) <==> slack >= PAYLOAD
  {
  }

  /** The rounded request covers the request exactly when the size_t addition cannot wrap. */
  lemma RoundingCovers(n: nat)
    requires n < SIZE_T
    ensures SMALLEST <= RoundRequest(n) && n <= RoundRequest(n) <==> n < SIZE_T - 8
    ensures RoundRequest(n) % 2 == 0
  {
    RoundedIsEven(n);
    TopOfRange(n, n / SMALLEST, n % SMALLEST);
  }

  /** Below the wrap, the remainder by 16 is added once more: the result is less than 16 bytes above the
      request, and twice the request modulo 16, so a multiple of 16 only when the request is one of 8. */
  lemma RoundingExact(n: nat)
    requires SMALLEST <= n < SIZE_T - 8
    ensures n <= RoundRequest(n) < n + SMALLEST && (RoundRequest(n) - 2 * n) % SMALLEST == 0
    ensures RoundRequest(n) % SMALLEST == 0 <==> n % 8 == 0
  {
    TopOfRange(n, n / SMALLEST, n % SMALLEST);
    TwiceRemainder(n, n / SMALLEST, n % SMALLEST);
  }

  lemma TwiceRemainder(n: nat, q: nat, r: nat)
    requires n == 16 * q + r && r < 16
    ensures (n + r - 2 * n) % 16 == 0 && ((n + r) % 16 == 0 <==> n % 8 == 0)
  {
    assert n + r - 2 * n == 16 * (0 - q);
    Shift16(0 - q, 0);
    Shift16(q, 2 * r);
    Shift8(2 * q, r);
    Doubled(r);
  }

  lemma Shift16(q: int, x: int)
    ensures (16 * q + x) % 16 == x % 16
  {
  }

  lemma Shift8(q: int, x: int)
    ensures (8 * q + x) % 8 == x % 8
  {
  }

  lemma Doubled(r: nat)
    requires r < 16
    ensures (2 * r) % 16 == 0 <==> r % 8 == 0
  {
  }

  lemma TopOfRange(n: nat, q: nat, r: nat)
    requires n < SIZE_T && n == 16 * q + r && r < 16
    ensures n + r >= SIZE_T <==> n >= SIZE_T - 8
    ensures n + r >= SIZE_T ==> n + r - SIZE_T < 16
  {
  }

  /** A request within 8 bytes of the size_t maximum is rounded to one smaller than the links of a
      free block; every other request is rounded to at least that. */
  lemma WrapsIff(n: nat)
    requires n < SIZE_T
    ensures RoundRequest(n) < SMALLEST <==> n >= SIZE_T - 8
  {
    RoundingCovers(n);
  }

  /** salloc breaks the heap in exactly two cases: the compiled test meets a first fit with less than
      16 bytes to spare, or, under either test, the rounding wraps and the first fit is split. */
  lemma BrokenIff(rule: SplitRule, h: Heap, total: int, n: nat)
    requires ValidHeap(h, total) && total < SIZE_T && n < SIZE_T
    ensures var ring := RingFrom(h);
            var m := RoundRequest(n);
            var j := FirstFit(ring, m);
            Allocate(rule, h, m).Broken? <==>
              j < |ring| && var slack := ring[j].Usable() - m;
                (rule.Compiled? && slack < PAYLOAD) || (n >= SIZE_T - 8 && slack >= HEADER)
  {
    var ring := RingFrom(h);
    var m := RoundRequest(n);
    var j := FirstFit(ring, m);
    AllocateCases(rule, h, m, ring, j);
    if j < |ring| {
      RingBlock(h, total, j);
      SlackBound(h.blocks, total, ring[j]);
      KeepsIff(rule, n, ring[j].Usable() - m);
      CarveCases(rule, h, m, ring[j], Locate(h.blocks, ring[j].start), ring[j].Usable() - m);
    }
  }

  lemma SlackBound(bs: seq<Block>, total: int, b: Block)
    requires Tiling(bs, total) && b in bs
    ensures b.Usable() < total
  {
    BlocksApart(bs, total);
    var i :| 0 <= i < |bs| && bs[i] == b;
  }

  lemma KeepsIff(rule: SplitRule, n: nat, slack: nat)
    requires n < SIZE_T && slack < SIZE_T
    ensures !KeepsHeap(rule, RoundRequest(n), slack) <==>
              (rule.Compiled? && slack < PAYLOAD) || (n >= SIZE_T - 8 && slack >= HEADER)
  {
    WrapsIff(n);
    SplitTestsAgree(slack);
  }

  lemma FreshRing()
    ensures RingFrom(InitialHeap(ALLOC_SIZE)) == [Block(0, ALLOC_SIZE, true)]
  {
    var b := Block(0, ALLOC_SIZE, true);
    assert FreeBlocks([b]) == FreeBlocks([]) + [b] == [b];
    assert Locate([b], 0) == 0;
  }

  /** A concrete broken call: asking a fresh arena for all of its usable bytes. */
  lemma ExactFitBreaks()
    ensures Allocate(Compiled, InitialHeap(ALLOC_SIZE), RoundRequest(ALLOC_SIZE - PAYLOAD)).Broken?
    ensures Allocate(Documented, InitialHeap(ALLOC_SIZE), RoundRequest(ALLOC_SIZE - PAYLOAD)).Region?
  {
    AllOfIt();
    NothingLeft();
    FreshCarve(Compiled, ALLOC_SIZE - PAYLOAD);
    FreshCarve(Documented, ALLOC_SIZE - PAYLOAD);
  }

  lemma AllOfIt()
    ensures RoundRequest(ALLOC_SIZE - PAYLOAD) == ALLOC_SIZE - PAYLOAD
  {
    assert (ALLOC_SIZE - PAYLOAD) % SMALLEST == 0;
  }

  lemma NothingLeft()
    ensures TakesSplit(Compiled, 0) && !TakesSplit(Documented, 0)
  {
  }

  lemma MostLeft(rule: SplitRule)
    ensures TakesSplit(rule, ALLOC_SIZE - PAYLOAD - 14) && RoundRequest(SIZE_T - 1) == 14
  {
  }

  /** Every request a fresh arena can meet is cut out of its one block. */
  lemma FreshCarve(rule: SplitRule, m: nat)
    requires m <= ALLOC_SIZE - PAYLOAD
    ensures var slack := ALLOC_SIZE - PAYLOAD - m;
            Allocate(rule, InitialHeap(ALLOC_SIZE), m).Broken? <==> TakesSplit(rule, slack) && !SplitFits(m, slack)
    ensures !Allocate(rule, InitialHeap(ALLOC_SIZE), m).Null?
  {
    var b, h := Block(0, ALLOC_SIZE, true), InitialHeap(ALLOC_SIZE);
    FreshRing();
    FirstFitIs([b], m, 0);
    AllocateCases(rule, h, m, [b], 0);
    assert Locate(h.blocks, 0) == 0;
    CarveCases(rule, h, m, b, 0, ALLOC_SIZE - PAYLOAD - m);
  }

  /** A concrete broken call that the comment's rule does not prevent: the largest size_t is rounded
      to 14, and the new header of the split lands on the header of the block being split. */
  lemma WrappedRequestBreaks(rule: SplitRule)
    ensures RoundRequest(SIZE_T - 1) == 14
    ensures Allocate(rule, InitialHeap(ALLOC_SIZE), RoundRequest(SIZE_T - 1)).Broken?
  {
    MostLeft(rule);
    FreshCarve(rule, 14);
  }

  /** What salloc promises its caller, for every request: null exactly when nothing fits, and else a
      new region apart from every live one.  The region covers the request exactly when the rounding
      does not wrap; it always covers the rounded request. */
  lemma SallocPromise(rule: SplitRule, h: Heap, total: int, n: nat) returns (b: Block)
    requires ValidHeap(h, total) && n < SIZE_T
    ensures var o := Allocate(rule, h, RoundRequest(n));
            && (o.Null? <==> forall c | c in h.blocks && c.free :: c.Usable() < RoundRequest(n))
            && (o.Region? ==>
                  && b.start + PAYLOAD == o.ptr && 0 <= b.start && b.End() <= total
                  && RoundRequest(n) <= b.End() - o.ptr
                  && (n < SIZE_T - 8 ==> n <= b.End() - o.ptr)
                  && (n >= SIZE_T - 8 && total < SIZE_T - 8 ==> n > b.End() - o.ptr)
                  && Live(o.heap.blocks) == Live(h.blocks) + {b} && b !in Live(h.blocks)
                  && forall c | c in Live(h.blocks) :: c.End() <= b.start || b.End() <= c.start)
  {
    RoundingCovers(n);
    RoundedIsEven(n);
    NullIffNoFit(rule, h, total, RoundRequest(n));
    var o := Allocate(rule, h, RoundRequest(n));
    b := Block(0, 0, true);
    if o.Region? {
      b := AllocateGrants(rule, h, total, RoundRequest(n));
      var i := LiveIndex(o.heap.blocks, total, b);
      BlocksApart(o.heap.blocks, total);
    }
  }

  /** Growing a full arena appends a block without touching head->prev, so prev stops being the
      circular inverse of next whatever the new memory holds. */
  lemma GrowthLosesPrevs(p: seq<int>, more: seq<int>, bs: seq<Block>, total: int, added: Block)
    requires Tiling(bs, total) && Prevs(p, bs) && |p| == total && added.start == total
    ensures !Prevs(p + more, bs + [added])
  {
    BlocksApart(bs, total);
    HeadPrev(p, bs);
    if Prevs(p + more, bs + [added]) {
      HeadPrev(p + more, bs + [added]);
    }
  }

  lemma HeadPrev(p: seq<int>, bs: seq<Block>)
    requires Prevs(p, bs) && bs != []
    ensures Behind(p, bs[|bs| - 1].start, bs[0].start)
  {
    assert Succ(|bs| - 1, |bs|) == 0;
  }

  // ----- round trip

  /** Freeing what salloc just returned restores the sequence of blocks, split or not. */
  lemma RoundTrip(rule: SplitRule, h: Heap, total: int, m: nat) returns (i: nat)
    requires ValidHeap(h, total) && m % 2 == 0 && Allocate(rule, h, m).Region?
    ensures var o := Allocate(rule, h, m);
            && i < |o.heap.blocks| && i == Locate(o.heap.blocks, o.ptr - PAYLOAD) && !o.heap.blocks[i].free
            && Release(o.heap, i).blocks == h.blocks
  {
    var o := Allocate(rule, h, m);
    var b := AllocateGrants(rule, h, total, m);
    i := LiveIndex(o.heap.blocks, total, b);
    ReleaseKeeps(o.heap, total, i);
    ReleaseRemoves(o.heap, total, i);
    assert b !in Live(h.blocks);
    LayoutIsCanonical(Release(o.heap, i).blocks, h.blocks, total);
  }

  lemma LiveIndex(bs: seq<Block>, total: int, b: Block) returns (i: nat)
    requires Tiling(bs, total) && b in Live(bs)
    ensures i < |bs| && bs[i] == b && i == Locate(bs, b.start)
  {
    BlocksApart(bs, total);
    i :| i < |bs| && bs[i] == b;
    LocateAt(bs, i);
  }

  // ----- runs

  /** What the program around the allocator does: call it, or write into the memory it was given. */
  datatype Call = Alloc(n: nat) | Free(ptr: int) | Write(cell: Cell, v: int)

  /** Index of the live block whose payload the cell shares a byte with, or |bs|. */
  function Owner(bs: seq<Block>, c: Cell): (i: nat)
    ensures i <= |bs|
    ensures i < |bs| ==> c.Writable(bs[i])
  {
    if bs == [] then 0 else if c.Writable(bs[0]) then 0 else 1 + Owner(bs[1..], c)
  }

  /** One legal call; None when it breaks the heap, frees something that is not live, or writes
      outside the live payloads. */
  function Step(rule: SplitRule, h: Heap, c: Call): Option<Heap> {
    match c
    case Alloc(n) =>
      var o := Allocate(rule, h, RoundRequest(n));
      if o.Broken? then None else Some(o.heap)
    case Free(ptr) =>
      var i := Locate(h.blocks, ptr - PAYLOAD);
      if i < |h.blocks| && !h.blocks[i].free then Some(Release(h, i)) else None
    case Write(c, v) =>
      if Owner(h.blocks, c) < |h.blocks| then Some(h) else None
  }

  function Run(rule: SplitRule, h: Heap, calls: seq<Call>): Option<Heap>
    decreases |calls|
  {
    if calls == [] then Some(h) else
      var next := Step(rule, h, calls[0]);
      if next.None? then None else Run(rule, next.value, calls[1..])
  }

  lemma StepKeeps(rule: SplitRule, h: Heap, total: int, c: Call)
    requires ValidHeap(h, total) && Step(rule, h, c).Some?
    ensures ValidHeap(Step(rule, h, c).value, total)
  {
    match c
    case Alloc(n) =>
      RoundedIsEven(n);
      if Allocate(rule, h, RoundRequest(n)).Region? {
        var b := AllocateGrants(rule, h, total, RoundRequest(n));
      }
    case Free(ptr) =>
      ReleaseKeeps(h, total, Locate(h.blocks, ptr - PAYLOAD));
    case Write(_, _) =>
  }

  /** Every reachable heap is well formed: blocks tile the arena, sizes are even and at least a
      header, no two adjacent blocks are free, and the rover is null iff nothing is free. */
  lemma {:induction false} RunKeeps(rule: SplitRule, h: Heap, total: int, calls: seq<Call>)
    requires ValidHeap(h, total) && Run(rule, h, calls).Some?
    ensures ValidHeap(Run(rule, h, calls).value, total)
    decreases |calls|
  {
    if calls != [] {
      StepKeeps(rule, h, total, calls[0]);
      RunKeeps(rule, Step(rule, h, calls[0]).value, total, calls[1..]);
    }
  }

  lemma NeighbourLives(bs: seq<Block>)
    requires Coalesced(bs) && |bs| > 1
    ensures Live(bs) != {}
  {
    assert !(bs[0].free && bs[1].free);
    assert (if bs[0].free then bs[1] else bs[0]) in Live(bs);
  }

  /** Without adjacent free blocks, an arena with nothing live is a single block. */
  lemma NothingLive(bs: seq<Block>, total: int)
    requires WellFormed(bs, total) && Live(bs) == {}
    ensures bs == [Block(0, total, true)]
  {
    assert Abuts(bs, 0, total);
    assert bs[0] !in Live(bs);
    if |bs| > 1 {
      NeighbourLives(bs);
    }
  }

  function FreeEach(order: seq<Block>): seq<Call> {
    if order == [] then [] else [Free(order[0].start + PAYLOAD)] + FreeEach(order[1..])
  }

  /** Freeing the live blocks, once each and in any order, gives back the untouched arena. */
  lemma {:induction false} FreeingAllRestores(rule: SplitRule, h: Heap, total: int, order: seq<Block>)
    requires ValidHeap(h, total)
    requires forall b :: b in order <==> b in Live(h.blocks)
    requires forall x, y | 0 <= x < y < |order| :: order[x] != order[y]
    ensures var r := Run(rule, h, FreeEach(order));
            r.Some? && r.value.blocks == [Block(0, total, true)]
    decreases |order|
  {
    if order == [] {
      NothingLive(h.blocks, total);
    } else {
      var b := order[0];
      assert b in order;
      var i := LiveIndex(h.blocks, total, b);
      ReleaseKeeps(h, total, i);
      ReleaseRemoves(h, total, i);
      RestOf(order, Live(h.blocks));
      FreeingAllRestores(rule, Release(h, i), total, order[1..]);
      var frees := FreeEach(order);
      assert frees[0] == Free(b.start + PAYLOAD) && frees[1..] == FreeEach(order[1..]);
      assert Step(rule, h, frees[0]) == Some(Release(h, i));
    }
  }

  lemma RestOf(order: seq<Block>, live: set<Block>)
    requires order != [] && forall b :: b in order <==> b in live
    requires forall x, y | 0 <= x < y < |order| :: order[x] != order[y]
    ensures forall c :: c in order[1..] <==> c in live - {order[0]}
  {
    forall c
      ensures c in order[1..] <==> c in live - {order[0]}
    {
      if c in order && c != order[0] {
        var x :| 0 <= x < |order| && order[x] == c;
        assert order[1..][x - 1] == c;
      }
    }
  }

  /** Two runs from the same start that leave the same allocations live leave the same layout. */
  lemma RunsConverge(rule: SplitRule, h: Heap, total: int, a: seq<Call>, b: seq<Call>)
    requires ValidHeap(h, total) && Run(rule, h, a).Some? && Run(rule, h, b).Some?
    ensures var x, y := Run(rule, h, a).value.blocks, Run(rule, h, b).value.blocks;
            Live(x) == Live(y) <==> x == y
  {
    RunKeeps(rule, h, total, a);
    RunKeeps(rule, h, total, b);
    if Live(Run(rule, h, a).value.blocks) == Live(Run(rule, h, b).value.blocks) {
      LayoutIsCanonical(Run(rule, h, a).value.blocks, Run(rule, h, b).value.blocks, total);
    }
  }

  // ----- the pointer code follows the runs

  /** Block b is live before and after the call, and the call does not write into it. */
  ghost predicate Spared(rule: SplitRule, h: Heap, c: Call, b: Block)
    requires Step(rule, h, c).Some?
  {
    b in Live(h.blocks) && b in Live(Step(rule, h, c).value.blocks) && !(c.Write? && c.cell.Writable(b))
  }

  /** Block b stays live through the run, and no call of it writes into b. */
  ghost predicate Untouched(rule: SplitRule, h: Heap, calls: seq<Call>, b: Block)
    requires Run(rule, h, calls).Some?
    decreases |calls|
  {
    b in Live(h.blocks)
    && (calls != [] ==> Spared(rule, h, calls[0], b) &&
                        Untouched(rule, Step(rule, h, calls[0]).value, calls[1..], b))
  }

  lemma SetSpares(m: Memory, c: Cell, v: int, b: Block)
    requires 0 <= c.base < |m.word| == |m.prev| == |m.nextFree| == |m.prevFree| && !b.free && !c.Writable(b)
    ensures PayloadKept(b, m, m.Set(c, v))
  {
  }

  method Perform(arena: Arena, c: Call)
    requires arena.Valid() && arena.total < SIZE_T && (c.Alloc? ==> c.n < SIZE_T)
    requires Step(arena.rule, arena.Abs(), c).Some?
    modifies arena, arena.word, arena.prev, arena.nextFree, arena.prevFree
    ensures arena.View() == Step(arena.rule, old(arena.Abs()), c)
    ensures forall b | Spared(arena.rule, old(arena.Abs()), c, b) :: PayloadKept(b, old(arena.Mem()), arena.Mem())
  {
    match c
    case Alloc(n) =>
      var r, fault := arena.Salloc(n);
    case Free(ptr) =>
      PerformFree(arena, ptr);
    case Write(cell, v) =>
      PerformWrite(arena, cell, v);
  }

  /** A free keeps the payloads of all blocks that stay live. */
  lemma FreeSpares(rule: SplitRule, h: Heap, total: int, ptr: int, m: Memory, m': Memory)
    requires ValidHeap(h, total) && Step(rule, h, Free(ptr)).Some?
    requires OthersKept(h.blocks, h.blocks[Locate(h.blocks, ptr - PAYLOAD)], m, m')
    ensures forall b | Spared(rule, h, Free(ptr), b) :: PayloadKept(b, m, m')
  {
    ReleaseRemoves(h, total, Locate(h.blocks, ptr - PAYLOAD));
  }

  method PerformFree(arena: Arena, ptr: int)
    requires arena.Valid() && Step(arena.rule, arena.Abs(), Free(ptr)).Some?
    modifies arena, arena.word, arena.prev, arena.nextFree, arena.prevFree
    ensures arena.View() == Step(arena.rule, old(arena.Abs()), Free(ptr))
    ensures forall b | Spared(arena.rule, old(arena.Abs()), Free(ptr), b) ::
              PayloadKept(b, old(arena.Mem()), arena.Mem())
  {
    ghost var h, m := arena.Abs(), arena.Mem();
    arena.Sfree(ptr);
    FreeSpares(arena.rule, h, arena.total, ptr, m, arena.Mem());
  }

  method PerformWrite(arena: Arena, cell: Cell, v: int)
    requires arena.Valid() && Step(arena.rule, arena.Abs(), Write(cell, v)).Some?
    modifies arena, arena.word, arena.prev, arena.nextFree, arena.prevFree
    ensures arena.View() == Step(arena.rule, old(arena.Abs()), Write(cell, v))
    ensures forall b | Spared(arena.rule, old(arena.Abs()), Write(cell, v), b) ::
              PayloadKept(b, old(arena.Mem()), arena.Mem())
  {
    ghost var h, m := arena.Abs(), arena.Mem();
    arena.CallerWrites(cell, v, h.blocks[Owner(h.blocks, cell)]);
    forall b | Spared(arena.rule, h, Write(cell, v), b)
      ensures PayloadKept(b, m, arena.Mem())
    {
      SetSpares(m, cell, v, b);
    }
  }

  /** Any legal sequence of calls on the real structure, with the callers writing what they like into
      their memory in between, ends in the heap the run predicts; and memory that stays allocated
      holds what its owner last wrote there. */
  method Execute(arena: Arena, calls: seq<Call>)
    requires arena.Valid() && arena.total < SIZE_T
    requires forall c | c in calls && c.Alloc? :: c.n < SIZE_T
    requires Run(arena.rule, arena.Abs(), calls).Some?
    modifies arena, arena.word, arena.prev, arena.nextFree, arena.prevFree
    ensures arena.View() == Run(arena.rule, old(arena.Abs()), calls)
    ensures forall b | Untouched(arena.rule, old(arena.Abs()), calls, b) ::
              PayloadKept(b, old(arena.Mem()), arena.Mem())
  {
    ghost var start, m := arena.Abs(), arena.Mem();
    for i := 0 to |calls|
      invariant arena.View().Some?
      invariant Run(arena.rule, arena.View().value, calls[i..]) == Run(arena.rule, start, calls)
      invariant forall b | Untouched(arena.rule, start, calls, b) ::
                  Untouched(arena.rule, arena.View().value, calls[i..], b) && PayloadKept(b, m, arena.Mem())
    {
      assert calls[i..][0] == calls[i] && calls[i..][1..] == calls[i + 1..];
      assert calls[i] in calls;
      ghost var h, m' := arena.Abs(), arena.Mem();
      Perform(arena, calls[i]);
      forall b | Untouched(arena.rule, start, calls, b)
        ensures Untouched(arena.rule, arena.View().value, calls[i + 1..], b) && PayloadKept(b, m, arena.Mem())
      {
        assert Spared(arena.rule, h, calls[i], b);
        KeptThrough(b, m, m', arena.Mem());
      }
    }
  }
}
