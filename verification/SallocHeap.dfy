/**
 The shared-memory allocator seen as a value: an arena cut into a sequence of blocks, and the
 block at which the search for free memory starts.  This is the specification against which the
 pointer-manipulating class in SallocArena.dfy is proved.
 */
module SallocHeap {
  const NULL := -1
  const HEADER := 32           // sizeof(salloc_t) on a 64-bit machine
  const PAYLOAD := 16          // offset of next_free, where an allocated payload begins
  const SMALLEST := 16         // SALLOC_SMALLEST_REGION
  const ALLOC_SIZE := 0x4000_0000
  const SIZE_T := 0x1_0000_0000_0000_0000

  datatype Block = Block(start: int, size: int, free: bool) {
    function End(): int { start + size }
    function Usable(): int { size - PAYLOAD }
    predicate Sound() { HEADER <= size && size % 2 == 0 }
  }

  /** The C code compares `_usable_size(split_size)` in size_t, where 0 - 16 wraps to a huge
      number; the comment above it states the rule without the wrap.  Both are modelled. */
  datatype SplitRule = Compiled | Documented

  /** rover is the C variable free_list: the start of the free block where a search begins. */
  datatype Heap = Heap(blocks: seq<Block>, rover: int)

  // ----- what a well-formed heap is

  ghost predicate Abuts(bs: seq<Block>, i: nat, total: int)
    requires i < |bs|
  {
    bs[i].End() == if i + 1 < |bs| then bs[i + 1].start else total
  }

  ghost predicate Tiles(bs: seq<Block>, total: int) {
    && |bs| > 0
    && bs[0].start == 0
    && (forall i | 0 <= i < |bs| :: Abuts(bs, i, total))
  }

  ghost predicate AllSound(bs: seq<Block>) {
    forall i | 0 <= i < |bs| :: bs[i].Sound()
  }

  ghost predicate Coalesced(bs: seq<Block>) {
    forall i, j | 0 <= i < |bs| && 0 <= j < |bs| && j == i + 1 :: !(bs[i].free && bs[j].free)
  }

  ghost predicate Tiling(bs: seq<Block>, total: int) {
    var all := Tiles(bs, total) && AllSound(bs);
    all
  }

  ghost predicate WellFormed(bs: seq<Block>, total: int) {
    var all := Tiling(bs, total) && Coalesced(bs);
    all
  }

  ghost predicate Apart(bs: seq<Block>) {
    forall i, j | 0 <= i < j < |bs| :: bs[i].start != bs[j].start
  }

  /** The free blocks in address order: the free ring, cut open at its lowest address. */
  function FreeBlocks(bs: seq<Block>): seq<Block> {
    if bs == [] then [] else
      FreeBlocks(bs[..|bs| - 1]) + if bs[|bs| - 1].free then [bs[|bs| - 1]] else []
  }

  /** Index of the block starting at a, or |bs| when there is none. */
  function Locate(bs: seq<Block>, a: int): (i: nat)
    ensures i <= |bs|
    ensures i < |bs| ==> bs[i].start == a
    ensures forall j | 0 <= j < i :: bs[j].start != a
  {
    if bs == [] then 0 else if bs[0].start == a then 0 else 1 + Locate(bs[1..], a)
  }

  ghost predicate GoodRover(bs: seq<Block>, rover: int) {
    var ring := FreeBlocks(bs);
    if ring == [] then rover == NULL else Locate(ring, rover) < |ring|
  }

  ghost predicate ValidHeap(h: Heap, total: int) {
    var all := WellFormed(h.blocks, total) && GoodRover(h.blocks, h.rover);
    all
  }

  function InitialHeap(total: int): Heap {
    Heap([Block(0, total, true)], 0)
  }

  /** The live allocations: what the callers of salloc still hold. */
  ghost function Live(bs: seq<Block>): set<Block> {
    set b | b in bs && !b.free
  }

  // ----- salloc

  /** A sum in size_t arithmetic. */
  function SizeT(x: nat): (r: nat)
    ensures r < SIZE_T && (x < SIZE_T ==> r == x) && (SIZE_T <= x < 2 * SIZE_T ==> r == x - SIZE_T)
    ensures x % 2 == 0 ==> r % 2 == 0
  {
    assert x % SIZE_T == x - 2 * (SIZE_T / 2 * (x / SIZE_T));
    x % SIZE_T
  }

  /** The rounding done by salloc. */
  function RoundRequest(n: nat): nat {
    if n < SMALLEST then SMALLEST
    else if n % SMALLEST != 0 then SizeT(n + n % SMALLEST)
    else n
  }

  lemma RoundedIsEven(n: nat)
    ensures RoundRequest(n) % 2 == 0
  {
    SumIsEven(n, n % SMALLEST);
  }

  lemma SumIsEven(n: nat, r: nat)
    requires r == n % SMALLEST
    ensures (n + r) % 2 == 0 && (r == 0 ==> n % 2 == 0)
  {
    var q := n / SMALLEST;
    assert n == 16 * q + r;
    DoubleIsEven(n + r, 8 * q + r);
    if r == 0 { DoubleIsEven(n, 8 * q); }
  }

  lemma DoubleIsEven(x: nat, half: nat)
    requires x == 2 * half
    ensures x % 2 == 0
  {
  }

  predicate TakesSplit(rule: SplitRule, slack: nat) {
    match rule
    case Compiled => (slack - PAYLOAD) % SIZE_T >= SMALLEST
    case Documented => slack - PAYLOAD >= SMALLEST
  }

  /** A split leaves two blocks with room for their own headers. */
  predicate SplitFits(m: nat, slack: nat) {
    SMALLEST <= m && HEADER <= slack
  }

  /** When handing out m bytes from a block with this slack leaves the heap intact. */
  predicate KeepsHeap(rule: SplitRule, m: nat, slack: nat) {
    TakesSplit(rule, slack) ==> SplitFits(m, slack)
  }

  /** The ring as a search meets it, starting at the rover. */
  function RingFrom(h: Heap): seq<Block> {
    var ring := FreeBlocks(h.blocks);
    var k := Locate(ring, h.rover);
    ring[k..] + ring[..k]
  }

  /** Index of the first block of the ring that has m usable bytes, or |ring|. */
  function FirstFit(ring: seq<Block>, m: int): (j: nat)
    ensures j <= |ring|
    ensures j < |ring| ==> ring[j].Usable() >= m
    ensures forall i | 0 <= i < j :: ring[i].Usable() < m
  {
    if ring == [] || ring[0].Usable() >= m then 0 else 1 + FirstFit(ring[1..], m)
  }

  function TakeWhole(bs: seq<Block>, i: nat): seq<Block>
    requires i < |bs|
  {
    bs[..i] + [bs[i].(free := false)] + bs[i + 1..]
  }

  function SplitAt(bs: seq<Block>, i: nat, m: int): seq<Block>
    requires i < |bs|
  {
    var b := bs[i];
    bs[..i]
    + [Block(b.start, PAYLOAD + m, false), Block(b.start + PAYLOAD + m, b.Usable() - m, true)]
    + bs[i + 1..]
  }

  lemma {:induction false} FirstFitIs(ring: seq<Block>, m: int, j: nat)
    requires j <= |ring| && forall i | 0 <= i < j :: ring[i].Usable() < m
    requires j < |ring| ==> ring[j].Usable() >= m
    ensures FirstFit(ring, m) == j
  {
  }

  datatype Outcome =
    | Null(heap: Heap)                   // no free block is big enough
    | Region(heap: Heap, ptr: int)       // the payload address handed out
    | Broken                             // the split writes a header over other memory

  /** Where free_list points after the free block at a was handed out whole. */
  function RoverPast(h: Heap, a: int): int {
    var ring := RingFrom(h);
    if a != h.rover then h.rover else if |ring| <= 1 then NULL else ring[1].start
  }

  /** The heap after free block i was handed out whole. */
  function TakeHeap(h: Heap, i: nat): Heap
    requires i < |h.blocks|
  {
    Heap(TakeWhole(h.blocks, i), RoverPast(h, h.blocks[i].start))
  }

  /** The heap after m payload bytes were cut out of free block i; free_list moves to the rest. */
  function SplitHeap(h: Heap, i: nat, m: int): Heap
    requires i < |h.blocks|
  {
    var a := h.blocks[i].start;
    Heap(SplitAt(h.blocks, i, m), if a == h.rover then a + PAYLOAD + m else h.rover)
  }

  /** Cut m payload bytes out of free block b, or hand the block out whole. */
  function Carve(rule: SplitRule, h: Heap, m: nat, b: Block): Outcome
    requires m <= b.Usable()
  {
    var i := Locate(h.blocks, b.start);
    if i == |h.blocks| || !KeepsHeap(rule, m, b.Usable() - m) then Broken
    else if TakesSplit(rule, b.Usable() - m) then
      Region(SplitHeap(h, i, m), b.start + PAYLOAD)
    else
      Region(TakeHeap(h, i), b.start + PAYLOAD)
  }

  lemma CarveCases(rule: SplitRule, h: Heap, m: nat, b: Block, i: nat, slack: nat)
    requires slack == b.Usable() - m && i == Locate(h.blocks, b.start) && i < |h.blocks|
    ensures !TakesSplit(rule, slack) ==>
              Carve(rule, h, m, b) == Region(TakeHeap(h, i), b.start + PAYLOAD)
    ensures TakesSplit(rule, slack) && SplitFits(m, slack) ==>
              Carve(rule, h, m, b) == Region(SplitHeap(h, i, m), b.start + PAYLOAD)
    ensures TakesSplit(rule, slack) && !SplitFits(m, slack) ==> Carve(rule, h, m, b) == Broken
  {
  }

  /** One call of _salloc with an already rounded request of m bytes, in a fixed arena. */
  function Allocate(rule: SplitRule, h: Heap, m: nat): Outcome {
    var ring := RingFrom(h);
    var j := FirstFit(ring, m);
    if j == |ring| then Null(h) else Carve(rule, h, m, ring[j])
  }

  lemma AllocateCases(rule: SplitRule, h: Heap, m: nat, ring: seq<Block>, j: nat)
    requires ring == RingFrom(h) && j == FirstFit(ring, m)
    ensures j == |ring| ==> Allocate(rule, h, m) == Null(h)
    ensures j < |ring| ==> Allocate(rule, h, m) == Carve(rule, h, m, ring[j])
  {
  }

  // ----- sfree

  function MarkFree(bs: seq<Block>, i: nat): seq<Block>
    requires i < |bs|
  {
    bs[..i] + [bs[i].(free := true)] + bs[i + 1..]
  }

  /** Block i absorbs its right neighbour. */
  function MergeAt(bs: seq<Block>, i: nat): seq<Block>
    requires i + 1 < |bs|
  {
    bs[..i] + [bs[i].(size := bs[i].size + bs[i + 1].size)] + bs[i + 2..]
  }

  /** coalesce(): merge block i with its right, then with its left neighbour, when they are free. */
  function CoalesceRight(h: Heap, i: nat): Heap
    requires i < |h.blocks|
  {
    if i + 1 < |h.blocks| && h.blocks[i + 1].free then
      Heap(MergeAt(h.blocks, i), if h.rover == h.blocks[i + 1].start then h.blocks[i].start else h.rover)
    else h
  }

  function CoalesceLeft(h: Heap, i: nat): Heap
    requires i < |h.blocks|
  {
    if 0 < i && h.blocks[i - 1].free then
      Heap(MergeAt(h.blocks, i - 1), if h.rover == h.blocks[i].start then h.blocks[i - 1].start else h.rover)
    else h
  }

  /** One call of sfree on the live block with index i. */
  function Release(h: Heap, i: nat): Heap
    requires i < |h.blocks|
  {
    var marked := Heap(MarkFree(h.blocks, i), if h.rover == NULL then h.blocks[i].start else h.rover);
    CoalesceLeft(CoalesceRight(marked, i), i)
  }

  // ----- facts about addresses and the free ring

  lemma {:induction false} Ascending(bs: seq<Block>, total: int, i: nat, j: nat)
    requires Tiling(bs, total) && i < j <= |bs|
    ensures bs[i].End() <= if j < |bs| then bs[j].start else total
    decreases j
  {
    assert Abuts(bs, i, total);
    if i + 1 < j {
      Ascending(bs, total, i, j - 1);
      assert bs[j - 1].Sound() && Abuts(bs, j - 1, total);
    }
  }

  /** Blocks are pairwise disjoint, have distinct starts and lie inside the arena. */
  lemma BlocksApart(bs: seq<Block>, total: int)
    requires Tiling(bs, total)
    ensures forall i, j | 0 <= i < j < |bs| :: bs[i].start + HEADER <= bs[i].End() <= bs[j].start
    ensures Apart(bs)
    ensures forall i | 0 <= i < |bs| :: 0 <= bs[i].start && bs[i].start + HEADER <= bs[i].End() <= total
  {
    forall i, j | 0 <= i < j < |bs|
      ensures bs[i].start + HEADER <= bs[i].End() <= bs[j].start
    {
      assert bs[i].Sound();
      Ascending(bs, total, i, j);
    }
    forall i | 0 <= i < |bs|
      ensures 0 <= bs[i].start && bs[i].start + HEADER <= bs[i].End() <= total
    {
      assert bs[i].Sound() && bs[0].Sound();
      Ascending(bs, total, i, |bs|);
      if i > 0 { Ascending(bs, total, 0, i); }
    }
  }

  lemma {:induction false} FreeBlocksConcat(a: seq<Block>, b: seq<Block>)
    ensures FreeBlocks(a + b) == FreeBlocks(a) + FreeBlocks(b)
  {
    if b == [] {
      assert a + b == a;
    } else {
      assert (a + b)[..|a + b| - 1] == a + b[..|b| - 1];
      FreeBlocksConcat(a, b[..|b| - 1]);
    }
  }

  /** The three-piece form in which every operation changes the heap. */
  lemma FreeBlocksSplice(a: seq<Block>, b: seq<Block>, c: seq<Block>)
    ensures FreeBlocks(a + b + c) == FreeBlocks(a) + FreeBlocks(b) + FreeBlocks(c)
  {
    FreeBlocksConcat(a + b, c);
    FreeBlocksConcat(a, b);
  }

  lemma {:induction false} FreeBlocksExact(bs: seq<Block>)
    ensures forall b :: b in FreeBlocks(bs) <==> b in bs && b.free
  {
    if bs != [] {
      FreeBlocksExact(bs[..|bs| - 1]);
      assert bs == bs[..|bs| - 1] + [bs[|bs| - 1]];
    }
  }

  lemma {:induction false} FreeBlocksAscending(bs: seq<Block>)
    requires forall i, j | 0 <= i < j < |bs| :: bs[i].start < bs[j].start
    ensures forall i, j | 0 <= i < j < |FreeBlocks(bs)| :: FreeBlocks(bs)[i].start < FreeBlocks(bs)[j].start
  {
    if bs != [] {
      var front := bs[..|bs| - 1];
      FreeBlocksAscending(front);
      FreeBlocksExact(front);
      forall i | 0 <= i < |FreeBlocks(front)|
        ensures FreeBlocks(front)[i].start < bs[|bs| - 1].start
      {
        assert FreeBlocks(front)[i] in front;
      }
    }
  }

  lemma LocateAt(bs: seq<Block>, i: nat)
    requires i < |bs| && Apart(bs)
    ensures Locate(bs, bs[i].start) == i
  {
  }

  lemma {:induction false} AllUsed(bs: seq<Block>)
    requires forall i | 0 <= i < |bs| :: !bs[i].free
    ensures FreeBlocks(bs) == []
  {
    if bs != [] {
      AllUsed(bs[..|bs| - 1]);
    }
  }
}
