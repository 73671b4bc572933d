/**
 The header words of the arena as sequences indexed by byte address, the predicates that tie
 them to a sequence of blocks, and what each pointer update does to those predicates.
 */
module SallocMemory {
  import opened SallocHeap

  // ----- the word __size_and_free: the free bit rides in the low bit of an even size

  function FreeBit(w: int): int { w % 2 }
  function SizePart(w: int): int { w - w % 2 }
  function Pack(size: int, free: bool): int { size + if free then 1 else 0 }

  lemma PackParts(size: int, free: bool)
    requires size % 2 == 0
    ensures SizePart(Pack(size, free)) == size && FreeBit(Pack(size, free)) == (if free then 1 else 0)
  {
  }

  // ----- circular neighbours

  function Succ(k: nat, n: nat): nat { if k + 1 >= n then 0 else k + 1 }
  function Pred(k: nat, n: nat): nat { if k == 0 then if n == 0 then 0 else n - 1 else k - 1 }

  ghost predicate Words(w: seq<int>, bs: seq<Block>) {
    forall b | b in bs :: 0 <= b.start < |w| && w[b.start] == Pack(b.size, b.free)
  }

  ghost predicate HeaderAt(bs: seq<Block>, a: int) {
    exists i :: 0 <= i < |bs| && bs[i].start == a
  }

  ghost predicate Behind(p: seq<int>, a: int, b: int) {
    0 <= b < |p| && p[b] == a
  }

  ghost predicate Linked(nf: seq<int>, pf: seq<int>, a: int, b: int) {
    0 <= a < |nf| && nf[a] == b && Behind(pf, a, b)
  }

  /** The stored prev is the circular inverse of the implicit next. */
  ghost predicate Prevs(p: seq<int>, bs: seq<Block>) {
    forall i {:trigger Succ(i, |bs|)} | 0 <= i < |bs| ::
      Behind(p, bs[i].start, bs[Succ(i, |bs|)].start)
  }

  /** next_free and prev_free link the ring in order and are mutually inverse. */
  ghost predicate Ring(nf: seq<int>, pf: seq<int>, ring: seq<Block>) {
    var all :=
      && |nf| == |pf|
      && Apart(ring)
      && (forall i {:trigger Succ(i, |ring|)} | 0 <= i < |ring| ::
            Linked(nf, pf, ring[i].start, ring[Succ(i, |ring|)].start));
    all
  }

  lemma RingNeighbours(nf: seq<int>, pf: seq<int>, ring: seq<Block>, k: nat)
    requires Ring(nf, pf, ring) && k < |ring|
    ensures Linked(nf, pf, ring[k].start, ring[Succ(k, |ring|)].start)
    ensures Linked(nf, pf, ring[Pred(k, |ring|)].start, ring[k].start)
  {
    assert Succ(Pred(k, |ring|), |ring|) == k;
  }

  function RingInsert(ring: seq<Block>, k: nat, node: Block): seq<Block>
    requires k < |ring|
  {
    ring[..k + 1] + [node] + ring[k + 1..]
  }

  function RingRemove(ring: seq<Block>, k: nat): seq<Block>
    requires k < |ring|
  {
    ring[..k] + ring[k + 1..]
  }

  lemma InsertApart(ring: seq<Block>, k: nat, node: Block)
    requires Apart(ring) && k < |ring| && !HeaderAt(ring, node.start)
    ensures Apart(RingInsert(ring, k, node))
  {
    var r := RingInsert(ring, k, node);
    forall i, j | 0 <= i < j < |r|
      ensures r[i].start != r[j].start
    {
      assert r[i] == if i <= k then ring[i] else if i == k + 1 then node else ring[i - 1];
      assert r[j] == if j <= k then ring[j] else if j == k + 1 then node else ring[j - 1];
    }
  }

  /** The four pointer writes of insert_free splice the node in after ring[k]. */
  lemma InsertLinks(nf: seq<int>, pf: seq<int>, ring: seq<Block>, k: nat, node: Block)
    requires Ring(nf, pf, ring) && k < |ring|
    requires 0 <= node.start < |nf| && !HeaderAt(ring, node.start)
    ensures 0 <= ring[k].start < |nf| && 0 <= nf[ring[k].start] < |nf|
    ensures Ring(nf[node.start := nf[ring[k].start]][ring[k].start := node.start],
                 pf[node.start := ring[k].start][nf[ring[k].start] := node.start],
                 RingInsert(ring, k, node))
  {
    RingNeighbours(nf, pf, ring, k);
    var n := |ring|;
    var after := ring[Succ(k, n)].start;
    var nf' := nf[node.start := after][ring[k].start := node.start];
    var pf' := pf[node.start := ring[k].start][after := node.start];
    var r := RingInsert(ring, k, node);
    InsertApart(ring, k, node);
    forall i | 0 <= i < |r|
      ensures Linked(nf', pf', r[i].start, r[Succ(i, |r|)].start)
    {
      var j := Succ(i, |r|);
      if i < k {
        assert j == Succ(i, n) && ring[j].start != after;
      } else if i > k + 1 {
        assert Succ(i - 1, n) == if j == 0 then 0 else j - 1;
        assert r[j] == ring[Succ(i - 1, n)] && Succ(i - 1, n) != Succ(k, n);
      }
    }
  }

  /** The writes of list_remove_free unlink ring[k]. */
  lemma RemoveLinks(nf: seq<int>, pf: seq<int>, ring: seq<Block>, k: nat)
    requires Ring(nf, pf, ring) && k < |ring|
    ensures 0 <= ring[k].start < |nf|
    ensures 0 <= nf[ring[k].start] < |nf| && 0 <= pf[ring[k].start] < |nf|
    ensures var x := ring[k].start;
            Ring(nf[pf[x] := nf[x]][x := NULL], pf[nf[x] := pf[x]][x := NULL], RingRemove(ring, k))
  {
    RingNeighbours(nf, pf, ring, k);
    var n := |ring|;
    var x := ring[k].start;
    var nf' := nf[pf[x] := nf[x]][x := NULL];
    var pf' := pf[nf[x] := pf[x]][x := NULL];
    var r := RingRemove(ring, k);
    forall i | 0 <= i < |r|
      ensures r[i] == ring[if i < k then i else i + 1]
    {
    }
    assert Apart(r);
    forall i | 0 <= i < |r|
      ensures Linked(nf', pf', r[i].start, r[Succ(i, |r|)].start)
    {
      var j := Succ(i, |r|);
      var i0 := if i < k then i else i + 1;
      var j0 := if j < k then j else j + 1;
      assert r[i] == ring[i0] && r[j] == ring[j0];
      if i0 == Pred(k, n) {
        assert j0 == Succ(k, n);
      } else {
        assert j0 == Succ(i0, n);
      }
    }
  }

  /** A ring has no distinguished first element. */
  lemma RotateLinks(nf: seq<int>, pf: seq<int>, a: seq<Block>, b: seq<Block>)
    requires Ring(nf, pf, a + b)
    ensures Ring(nf, pf, b + a)
  {
    var r, s := a + b, b + a;
    var n := |r|;
    forall i | 0 <= i < n
      ensures s[i] == r[if i < |b| then i + |a| else i - |b|]
    {
    }
    forall i | 0 <= i < |s|
      ensures Linked(nf, pf, s[i].start, s[Succ(i, |s|)].start)
    {
      var j := Succ(i, |s|);
      var i0 := if i < |b| then i + |a| else i - |b|;
      var j0 := if j < |b| then j + |a| else j - |b|;
      assert j0 == Succ(i0, n);
    }
  }

  /** insert(): the new right half gets its prev, and the block after it points back to it. */
  lemma SplitPrevs(p: seq<int>, bs: seq<Block>, i: nat, left: Block, right: Block)
    requires i < |bs| && Prevs(p, bs) && left.start == bs[i].start && 0 <= right.start < |p|
    requires Apart(bs)
    requires !HeaderAt(bs, right.start)
    ensures var after := bs[Succ(i, |bs|)].start;
            0 <= after < |p| &&
            Prevs(p[right.start := left.start][after := right.start], bs[..i] + [left, right] + bs[i + 1..])
  {
    var n := |bs|;
    var after := bs[Succ(i, n)].start;
    var p' := p[right.start := left.start][after := right.start];
    var cs := bs[..i] + [left, right] + bs[i + 1..];
    forall x | 0 <= x < |cs|
      ensures cs[x] == if x < i then bs[x] else if x == i then left else if x == i + 1 then right else bs[x - 1]
    {
    }
    forall x | 0 <= x < |cs|
      ensures Behind(p', cs[x].start, cs[Succ(x, |cs|)].start)
    {
      var y := Succ(x, |cs|);
      if x < i {
        assert y == Succ(x, n) && y != Succ(i, n);
      } else if x > i + 1 {
        assert Succ(x - 1, n) == if y == 0 then 0 else y - 1;
        assert cs[y].start == bs[Succ(x - 1, n)].start && Succ(x - 1, n) != Succ(i, n);
      }
    }
  }

  /** list_remove(): the block after the absorbed one points back past it. */
  lemma MergePrevs(p: seq<int>, bs: seq<Block>, i: nat, merged: Block)
    requires i + 1 < |bs| && Prevs(p, bs) && merged.start == bs[i].start
    requires Apart(bs)
    ensures var after := bs[Succ(i + 1, |bs|)].start;
            0 <= after < |p| && 0 <= bs[i + 1].start < |p| && p[bs[i + 1].start] == bs[i].start &&
            Prevs(p[after := bs[i].start][bs[i + 1].start := NULL], bs[..i] + [merged] + bs[i + 2..])
  {
    var n := |bs|;
    var after := bs[Succ(i + 1, n)].start;
    assert i + 1 == Succ(i, n);
    var p' := p[after := bs[i].start][bs[i + 1].start := NULL];
    var cs := bs[..i] + [merged] + bs[i + 2..];
    forall x | 0 <= x < |cs|
      ensures Behind(p', cs[x].start, cs[Succ(x, |cs|)].start)
    {
      var y := Succ(x, |cs|);
      var x0 := if x <= i then x else x + 1;
      if x != i {
        assert cs[x].start == bs[x0].start && cs[y].start == bs[Succ(x0, n)].start;
      } else {
        assert cs[y].start == after;
      }
    }
  }

  // ----- the words after each kind of change

  /** What the header macros read at the start of block i. */
  lemma HeaderWord(w: seq<int>, bs: seq<Block>, total: int, i: nat)
    requires i < |bs| && Words(w, bs) && Tiling(bs, total)
    ensures 0 <= bs[i].start < |w|
    ensures SizePart(w[bs[i].start]) == bs[i].size
    ensures FreeBit(w[bs[i].start]) == 1 <==> bs[i].free
  {
    assert bs[i] in bs && bs[i].Sound();
  }

  lemma WordsUpdate(w: seq<int>, bs: seq<Block>, i: nat, b: Block)
    requires i < |bs| && Words(w, bs) && Apart(bs) && b.start == bs[i].start
    ensures 0 <= b.start < |w|
    ensures Words(w[b.start := Pack(b.size, b.free)], bs[..i] + [b] + bs[i + 1..])
  {
    var cs := bs[..i] + [b] + bs[i + 1..];
    assert bs[i] in bs;
    forall c | c in cs
      ensures 0 <= c.start < |w| && w[b.start := Pack(b.size, b.free)][c.start] == Pack(c.size, c.free)
    {
      var j :| 0 <= j < |cs| && cs[j] == c;
      assert j != i ==> c == bs[j] && bs[j] in bs;
    }
  }

  lemma PrevsUpdate(p: seq<int>, bs: seq<Block>, i: nat, b: Block)
    requires i < |bs| && Prevs(p, bs) && b.start == bs[i].start
    ensures Prevs(p, bs[..i] + [b] + bs[i + 1..])
  {
    var cs := bs[..i] + [b] + bs[i + 1..];
    forall x | 0 <= x < |cs|
      ensures Behind(p, cs[x].start, cs[Succ(x, |cs|)].start)
    {
      assert cs[x].start == bs[x].start && cs[Succ(x, |cs|)].start == bs[Succ(x, |bs|)].start;
    }
  }

  // ----- handing out a whole block

  /** The free ring of a heap in which block i is replaced by other blocks. */
  lemma RingAround(bs: seq<Block>, i: nat, mid: seq<Block>)
    requires i < |bs|
    ensures FreeBlocks(bs[..i] + mid + bs[i + 1..])
         == FreeBlocks(bs[..i]) + FreeBlocks(mid) + FreeBlocks(bs[i + 1..])
    ensures FreeBlocks(bs)
         == FreeBlocks(bs[..i]) + (if bs[i].free then [bs[i]] else []) + FreeBlocks(bs[i + 1..])
  {
    FreeBlocksSplice(bs[..i], mid, bs[i + 1..]);
    FreeBlocksSplice(bs[..i], [bs[i]], bs[i + 1..]);
    assert bs == bs[..i] + [bs[i]] + bs[i + 1..];
    assert FreeBlocks([bs[i]]) == if bs[i].free then [bs[i]] else [];
  }

  /** Where block i sits in the free ring, and the ring without it. */
  lemma TakeRing(bs: seq<Block>, i: nat) returns (k: nat)
    requires i < |bs| && bs[i].free
    ensures k < |FreeBlocks(bs)| && FreeBlocks(bs)[k] == bs[i]
    ensures FreeBlocks(TakeWhole(bs, i)) == RingRemove(FreeBlocks(bs), k)
    ensures k == |FreeBlocks(bs[..i])|
  {
    k := |FreeBlocks(bs[..i])|;
    RingAround(bs, i, [bs[i].(free := false)]);
    AllUsed([bs[i].(free := false)]);
  }

  /** free_list after the block was unlinked: unchanged, or the next free block, or null. */
  lemma TakeRover(bs: seq<Block>, rover: int, i: nat, k: nat)
    requires i < |bs| && bs[i].free && GoodRover(bs, rover)
    requires Apart(FreeBlocks(bs)) && k < |FreeBlocks(bs)| && FreeBlocks(bs)[k] == bs[i]
    ensures var fs := FreeBlocks(bs);
            RoverPast(Heap(bs, rover), bs[i].start)
            == if bs[i].start != rover then rover else if |fs| == 1 then NULL else fs[Succ(k, |fs|)].start
  {
    var fs := FreeBlocks(bs);
    if bs[i].start == rover {
      LocateAt(fs, k);
      if |fs| > 1 {
        assert RingFrom(Heap(bs, rover))[1] == fs[Succ(k, |fs|)];
      }
    }
  }

  lemma TakeRoverGood(bs: seq<Block>, rover: int, i: nat, k: nat, rover': int)
    requires i < |bs| && GoodRover(bs, rover) && Apart(FreeBlocks(bs))
    requires k < |FreeBlocks(bs)| && FreeBlocks(bs)[k] == bs[i]
    requires FreeBlocks(TakeWhole(bs, i)) == RingRemove(FreeBlocks(bs), k)
    requires var fs := FreeBlocks(bs);
             rover' == if bs[i].start != rover then rover else if |fs| == 1 then NULL else fs[Succ(k, |fs|)].start
    ensures GoodRover(TakeWhole(bs, i), rover')
  {
    var fs := FreeBlocks(bs);
    var r := RingRemove(fs, k);
    if bs[i].start != rover {
      var l := Locate(fs, rover);
      assert r[if l < k then l else l - 1] == fs[l];
    } else if |fs| > 1 {
      var s := Succ(k, |fs|);
      assert r[if s < k then s else s - 1] == fs[s];
    }
  }

  lemma TakeKeeps(bs: seq<Block>, total: int, i: nat)
    requires i < |bs| && WellFormed(bs, total)
    ensures WellFormed(TakeWhole(bs, i), total)
  {
    var cs := TakeWhole(bs, i);
    forall j | 0 <= j < |cs|
      ensures Abuts(cs, j, total)
    {
      assert Abuts(bs, j, total);
    }
    forall j | 0 <= j < |cs|
      ensures cs[j].Sound()
    {
      assert bs[j].Sound();
    }
  }

  // ----- walking the free ring

  lemma RingWalk(w: seq<int>, nf: seq<int>, pf: seq<int>, h: Heap, total: int)
    requires Tiling(h.blocks, total) && Words(w, h.blocks) && GoodRover(h.blocks, h.rover)
    requires Ring(nf, pf, FreeBlocks(h.blocks))
    ensures Walkable(w, nf, pf, h.blocks, total, RingFrom(h))
    ensures if h.rover == NULL then RingFrom(h) == [] else RingFrom(h) != [] && RingFrom(h)[0].start == h.rover
  {
    var ring, fs := RingFrom(h), FreeBlocks(h.blocks);
    var k := Locate(fs, h.rover);
    assert fs == fs[..k] + fs[k..];
    RotateLinks(nf, pf, fs[..k], fs[k..]);
    RingEmptyIff(w, h, total);
    RingNodes(w, h, total);
  }

  lemma RingNodes(w: seq<int>, h: Heap, total: int)
    requires Tiling(h.blocks, total) && Words(w, h.blocks)
    ensures forall j | 0 <= j < |RingFrom(h)| :: RingNode(w, h.blocks, total, RingFrom(h)[j])
  {
    forall j | 0 <= j < |RingFrom(h)|
      ensures RingNode(w, h.blocks, total, RingFrom(h)[j])
    {
      RingMember(h, j);
      FreeNode(w, h.blocks, total, RingFrom(h)[j]);
    }
  }

  lemma RingMember(h: Heap, j: nat)
    requires j < |RingFrom(h)|
    ensures RingFrom(h)[j] in FreeBlocks(h.blocks)
  {
    var fs := FreeBlocks(h.blocks);
    var k := Locate(fs, h.rover);
    assert RingFrom(h)[j] == fs[if j < |fs| - k then j + k else j - (|fs| - k)];
  }

  lemma RingEmptyIff(w: seq<int>, h: Heap, total: int)
    requires Tiling(h.blocks, total) && Words(w, h.blocks) && GoodRover(h.blocks, h.rover)
    ensures RingFrom(h) == [] <==> h.rover == NULL
  {
    var fs := FreeBlocks(h.blocks);
    if fs != [] {
      FreeNode(w, h.blocks, total, fs[Locate(fs, h.rover)]);
    }
  }

  lemma FreeNode(w: seq<int>, bs: seq<Block>, total: int, b: Block)
    requires Tiling(bs, total) && Words(w, bs) && b in FreeBlocks(bs)
    ensures RingNode(w, bs, total, b)
  {
    FreeBlocksExact(bs);
    BlocksApart(bs, total);
    var i :| 0 <= i < |bs| && bs[i] == b;
    LocateAt(bs, i);
    HeaderWord(w, bs, total, i);
    assert b.Sound();
  }

  /** A ring a search can walk: linked, and made of free blocks of the heap. */
  ghost predicate Walkable(w: seq<int>, nf: seq<int>, pf: seq<int>, bs: seq<Block>, total: int, ring: seq<Block>) {
    Ring(nf, pf, ring) && forall j | 0 <= j < |ring| :: RingNode(w, bs, total, ring[j])
  }

  ghost predicate RingNode(w: seq<int>, bs: seq<Block>, total: int, b: Block) {
    var i := Locate(bs, b.start);
    && i < |bs| && bs[i] == b && b.free && b.Sound()
    && 0 <= b.start && b.End() <= total
    && 0 <= b.start < |w| && SizePart(w[b.start]) == b.size
  }

  // ----- payloads

  datatype Memory = Memory(word: seq<int>, prev: seq<int>, nextFree: seq<int>, prevFree: seq<int>) {
    function Set(c: Cell, v: int): Memory
      requires 0 <= c.base < |word| == |prev| == |nextFree| == |prevFree|
    {
      match c.field
      case Size => this.(word := word[c.base := v])
      case Prev => this.(prev := prev[c.base := v])
      case NextFree => this.(nextFree := nextFree[c.base := v])
      case PrevFree => this.(prevFree := prevFree[c.base := v])
    }

    predicate SameSize(m: Memory) {
      && |word| == |prev| == |nextFree| == |prevFree| == |m.word|
      && |word| == |m.prev| == |m.nextFree| == |m.prevFree|
    }
  }

  // In the predicates below the conjunction is bound to a name, which keeps it in one piece: the verifier
  // does not check its parts one by one wherever the predicate is required.

  /** Both pointer structures and the packed words of the memory describe the heap. */
  ghost predicate Describes(m: Memory, h: Heap, total: int) {
    var all :=
      && |m.word| == |m.prev| == |m.nextFree| == |m.prevFree| == total
      && Tiling(h.blocks, total)
      && Words(m.word, h.blocks)
      && Prevs(m.prev, h.blocks)
      && Ring(m.nextFree, m.prevFree, FreeBlocks(h.blocks))
      && GoodRover(h.blocks, h.rover);
    all
  }

  /** Linking the node into the ring and setting its free bit. */
  ghost predicate LinkEffect(m: Memory, m': Memory, ring: seq<Block>, ring': seq<Block>, node: int) {
    var all :=
      && m.SameSize(m') && 0 <= node < |m.word|
      && Ring(m'.nextFree, m'.prevFree, ring')
      && m'.word == m.word[node := Pack(SizePart(m.word[node]), true)] && m'.prev == m.prev
      && (forall o | 0 <= o < |m.word| && o != node && !HeaderAt(ring, o) ::
            m'.nextFree[o] == m.nextFree[o] && m'.prevFree[o] == m.prevFree[o]);
    all
  }

  /** Unlinking the node from the ring and clearing its free bit. */
  ghost predicate UnlinkEffect(m: Memory, m': Memory, ring: seq<Block>, ring': seq<Block>, node: int) {
    var all :=
      && m.SameSize(m') && 0 <= node < |m.word|
      && Ring(m'.nextFree, m'.prevFree, ring')
      && m'.word == m.word[node := Pack(SizePart(m.word[node]), false)] && m'.prev == m.prev
      && (forall o | 0 <= o < |m.word| && !HeaderAt(ring, o) ::
            m'.nextFree[o] == m.nextFree[o] && m'.prevFree[o] == m.prevFree[o]);
    all
  }

  /** The writes of insert_free, in one go. */
  lemma LinkDone(m: Memory, m': Memory, ring: seq<Block>, k: nat, b: Block)
    requires |m.word| == |m.prev| == |m.nextFree| == |m.prevFree| && Ring(m.nextFree, m.prevFree, ring)
    requires k < |ring| && 0 <= b.start < |m.word| && !HeaderAt(ring, b.start)
    requires 0 <= ring[k].start < |m.word| && 0 <= m.nextFree[ring[k].start] < |m.word|
    requires m' == Memory(m.word[b.start := Pack(SizePart(m.word[b.start]), true)], m.prev,
                          m.nextFree[b.start := m.nextFree[ring[k].start]][ring[k].start := b.start],
                          m.prevFree[b.start := ring[k].start][m.nextFree[ring[k].start] := b.start])
    ensures LinkEffect(m, m', ring, RingInsert(ring, k, b), b.start)
  {
    InsertLinks(m.nextFree, m.prevFree, ring, k, b);
    RingNeighbours(m.nextFree, m.prevFree, ring, k);
    assert HeaderAt(ring, ring[k].start) && HeaderAt(ring, ring[Succ(k, |ring|)].start);
  }

  /** The writes of list_remove_free, in one go. */
  lemma UnlinkDone(m: Memory, m': Memory, ring: seq<Block>, k: nat, x: int)
    requires |m.word| == |m.prev| == |m.nextFree| == |m.prevFree| && Ring(m.nextFree, m.prevFree, ring)
    requires k < |ring| && ring[k].start == x && 0 <= x < |m.word|
    requires 0 <= m.nextFree[x] < |m.word| && 0 <= m.prevFree[x] < |m.word|
    requires m' == Memory(m.word[x := Pack(SizePart(m.word[x]), false)], m.prev,
                          m.nextFree[m.prevFree[x] := m.nextFree[x]][x := NULL],
                          m.prevFree[m.nextFree[x] := m.prevFree[x]][x := NULL])
    ensures UnlinkEffect(m, m', ring, RingRemove(ring, k), x)
  {
    RemoveLinks(m.nextFree, m.prevFree, ring, k);
    RingNeighbours(m.nextFree, m.prevFree, ring, k);
    assert HeaderAt(ring, ring[Pred(k, |ring|)].start) && HeaderAt(ring, ring[Succ(k, |ring|)].start);
  }

  /** Cutting the node at bottom, of splitSize bytes, off the high end of the node at curr. */
  ghost predicate SplitEffect(m: Memory, m': Memory, ring: seq<Block>, ring': seq<Block>,
                              curr: int, size: int, bottom: int, splitSize: int) {
    var all :=
      && m.SameSize(m') && 0 <= curr < bottom < |m.word|
      && Ring(m'.nextFree, m'.prevFree, ring')
      && m'.word == m.word[curr := Pack(size, false)][bottom := Pack(splitSize, true)]
      && (var after := if bottom + splitSize >= |m.word| then 0 else bottom + splitSize;
          0 <= after && m'.prev == m.prev[bottom := curr][after := bottom])
      && (forall o | 0 <= o < |m.word| && o != bottom && !HeaderAt(ring, o) ::
            m'.nextFree[o] == m.nextFree[o] && m'.prevFree[o] == m.prevFree[o]);
    all
  }

  /** The 8-byte cell at address c shares a byte with the payload of b. */
  predicate InPayload(c: int, b: Block) {
    b.start + PAYLOAD < c + 8 && c < b.End()
  }

  predicate ByteOfCell(x: int, c: int) { c <= x < c + 8 }

  predicate ByteOfPayload(x: int, b: Block) { b.start + PAYLOAD <= x < b.End() }

  lemma SharesAByte(c: int, b: Block)
    requires b.start + PAYLOAD < b.End()
    ensures InPayload(c, b) <==> exists x :: ByteOfCell(x, c) && ByteOfPayload(x, b)
  {
    if InPayload(c, b) {
      var x := if c < b.start + PAYLOAD then b.start + PAYLOAD else c;
      assert ByteOfCell(x, c) && ByteOfPayload(x, b);
    }
  }

  /** No header word whose bytes lie in the payload of b differs between m and m'. */
  ghost predicate PayloadKept(b: Block, m: Memory, m': Memory) {
    var all :=
      && m.SameSize(m')
      && (forall o | 0 <= o < |m.word| && InPayload(o, b) :: m.word[o] == m'.word[o])
      && (forall o | 0 <= o < |m.word| && InPayload(o + 8, b) :: m.prev[o] == m'.prev[o])
      && (forall o | 0 <= o < |m.word| && InPayload(o + 16, b) :: m.nextFree[o] == m'.nextFree[o])
      && (forall o | 0 <= o < |m.word| && InPayload(o + 24, b) :: m.prevFree[o] == m'.prevFree[o]);
    all
  }

  /** Only headers of existing blocks, links of free blocks, and the header at x were written. */
  ghost predicate Confined(m: Memory, m': Memory, bs: seq<Block>, x: int) {
    var all :=
      && m.SameSize(m')
      && (forall o | 0 <= o < |m.word| && o != x && !HeaderAt(bs, o) ::
            m.word[o] == m'.word[o] && m.prev[o] == m'.prev[o])
      && (forall o | 0 <= o < |m.word| && o != x && !HeaderAt(FreeBlocks(bs), o) ::
            m.nextFree[o] == m'.nextFree[o] && m.prevFree[o] == m'.prevFree[o]);
    all
  }

  /** A cell of one block shares no byte with the payload of another; nor do size and prev. */
  lemma CellMisses(bs: seq<Block>, total: int, j: nat, b: Block, c: int)
    requires Tiling(bs, total) && j < |bs| && b in bs
    requires bs[j].start <= c && c + 8 <= if bs[j] == b then b.start + PAYLOAD else bs[j].End()
    ensures !InPayload(c, b)
  {
    BlocksApart(bs, total);
    var n :| 0 <= n < |bs| && bs[n] == b;
  }

  /** A header written inside block i, or over existing headers, misses every other live payload. */
  lemma ConfinedKeepsPayloads(m: Memory, m': Memory, bs: seq<Block>, total: int, x: int, i: nat, b: Block)
    requires Tiling(bs, total) && Confined(m, m', bs, x)
    requires i < |bs| && bs[i].start <= x && x + HEADER <= bs[i].End()
    requires b in bs && !b.free && b != bs[i]
    ensures PayloadKept(b, m, m')
  {
    forall o | o == x || HeaderAt(bs, o)
      ensures !InPayload(o, b) && !InPayload(o + 8, b)
    {
      var j: nat := if o == x then i else Locate(bs, o);
      assert bs[j].Sound();
      CellMisses(bs, total, j, b, o);
      CellMisses(bs, total, j, b, o + 8);
    }
    forall o | o == x || HeaderAt(FreeBlocks(bs), o)
      ensures !InPayload(o + 16, b) && !InPayload(o + 24, b)
    {
      var j := i;
      if o != x { j := FreeIndex(bs, o); }
      assert bs[j].Sound();
      CellMisses(bs, total, j, b, o + 16);
      CellMisses(bs, total, j, b, o + 24);
    }
  }

  lemma KeptThrough(b: Block, m: Memory, m': Memory, m'': Memory)
    requires PayloadKept(b, m, m') && PayloadKept(b, m', m'')
    ensures PayloadKept(b, m, m'')
  {
  }

  lemma BlockWord(m: Memory, h: Heap, total: int, i: nat)
    requires Describes(m, h, total) && i < |h.blocks|
    ensures 0 <= h.blocks[i].start < total && SizePart(m.word[h.blocks[i].start]) == h.blocks[i].size
  {
    HeaderWord(m.word, h.blocks, total, i);
  }

  // ----- what the callers write

  /** One of the four words a header at address base would have. */
  datatype Field = Size | Prev | NextFree | PrevFree
  datatype Cell = Cell(base: int, field: Field) {
    function Address(): int {
      match field
      case Size => base
      case Prev => base + 8
      case NextFree => base + 16
      case PrevFree => base + 24
    }

    /** A caller may write the bytes this cell shares with the payload of b. */
    predicate Writable(b: Block) { 0 <= base && !b.free && InPayload(Address(), b) }
  }

  /** A cell that shares a byte with a live payload holds nothing the allocator relies on. */
  lemma WritableMisses(bs: seq<Block>, total: int, b: Block, c: Cell)
    requires Tiling(bs, total) && b in bs && c.Writable(b)
    ensures 0 <= c.base < total
    ensures c.field.Size? || c.field.Prev? ==> !HeaderAt(bs, c.base)
    ensures c.field.NextFree? || c.field.PrevFree? ==> !HeaderAt(FreeBlocks(bs), c.base)
  {
    BlocksApart(bs, total);
    if (c.field.Size? || c.field.Prev?) && HeaderAt(bs, c.base) {
      var j :| 0 <= j < |bs| && bs[j].start == c.base;
      assert bs[j].Sound();
      CellMisses(bs, total, j, b, c.Address());
    }
    if (c.field.NextFree? || c.field.PrevFree?) && HeaderAt(FreeBlocks(bs), c.base) {
      var j := FreeIndex(bs, c.base);
      assert bs[j].Sound();
      CellMisses(bs, total, j, b, c.Address());
    }
  }

  /** Writing a cell that is no header word of a block, nor a link of a free one, changes neither
      pointer structure. */
  lemma WordsMiss(w: seq<int>, bs: seq<Block>, o: int, v: int)
    requires Words(w, bs) && 0 <= o < |w| && !HeaderAt(bs, o)
    ensures Words(w[o := v], bs)
  {
    forall b | b in bs
      ensures b.start != o
    {
      var j :| 0 <= j < |bs| && bs[j] == b;
    }
  }

  lemma PrevsMiss(p: seq<int>, bs: seq<Block>, o: int, v: int)
    requires Prevs(p, bs) && 0 <= o < |p| && !HeaderAt(bs, o)
    ensures Prevs(p[o := v], bs)
  {
    forall i | 0 <= i < |bs|
      ensures Behind(p[o := v], bs[i].start, bs[Succ(i, |bs|)].start)
    {
      assert bs[Succ(i, |bs|)].start != o;
    }
  }

  lemma RingMiss(nf: seq<int>, pf: seq<int>, ring: seq<Block>, o: int, v: int)
    requires Ring(nf, pf, ring) && 0 <= o < |nf| && !HeaderAt(ring, o)
    ensures Ring(nf[o := v], pf, ring) && Ring(nf, pf[o := v], ring)
  {
    forall i | 0 <= i < |ring|
      ensures Linked(nf[o := v], pf, ring[i].start, ring[Succ(i, |ring|)].start)
      ensures Linked(nf, pf[o := v], ring[i].start, ring[Succ(i, |ring|)].start)
    {
      assert ring[i].start != o && ring[Succ(i, |ring|)].start != o;
    }
  }

  /** The payloads of all live blocks but one are untouched. */
  ghost predicate OthersKept(bs: seq<Block>, except: Block, m: Memory, m': Memory) {
    forall b | b in bs && !b.free && b != except :: PayloadKept(b, m, m')
  }

  ghost predicate LiveKept(bs: seq<Block>, m: Memory, m': Memory) {
    forall b | b in bs && !b.free :: PayloadKept(b, m, m')
  }

  lemma AllKept(m: Memory, m': Memory, bs: seq<Block>, total: int, x: int, i: nat)
    requires Tiling(bs, total) && Confined(m, m', bs, x)
    requires i < |bs| && bs[i].start <= x && x + HEADER <= bs[i].End()
    ensures OthersKept(bs, bs[i], m, m')
  {
    forall b | b in bs && !b.free && b != bs[i]
      ensures PayloadKept(b, m, m')
    {
      ConfinedKeepsPayloads(m, m', bs, total, x, i, b);
    }
  }

  lemma FreeIndex(bs: seq<Block>, o: int) returns (j: nat)
    requires HeaderAt(FreeBlocks(bs), o)
    ensures j < |bs| && bs[j].start == o && bs[j].free
  {
    FreeBlocksExact(bs);
    var f :| 0 <= f < |FreeBlocks(bs)| && FreeBlocks(bs)[f].start == o;
    assert FreeBlocks(bs)[f] in bs;
    j :| j < |bs| && bs[j] == FreeBlocks(bs)[f];
  }

  /** What handing out block i whole may rely on before anything is written. */
  lemma TakeReady(m: Memory, h: Heap, total: int, i: nat) returns (k: nat)
    requires Describes(m, h, total) && i < |h.blocks| && h.blocks[i].free
    ensures 0 <= h.blocks[i].start < total
    ensures k < |FreeBlocks(h.blocks)| && FreeBlocks(h.blocks)[k] == h.blocks[i]
  {
    HeaderWord(m.word, h.blocks, total, i);
    k := TakeRing(h.blocks, i);
  }

  /** After the unlinking the memory describes the heap with block i handed out. */
  lemma TakeMemory(m: Memory, m': Memory, h: Heap, h': Heap, total: int, i: nat, k: nat)
    requires Describes(m, h, total) && Coalesced(h.blocks) && i < |h.blocks| && h.blocks[i].free
    requires k < |FreeBlocks(h.blocks)| && FreeBlocks(h.blocks)[k] == h.blocks[i]
    requires UnlinkEffect(m, m', FreeBlocks(h.blocks), RingRemove(FreeBlocks(h.blocks), k), h.blocks[i].start)
    requires h'.blocks == TakeWhole(h.blocks, i)
    requires var fs := FreeBlocks(h.blocks);
             h'.rover == if h.blocks[i].start != h.rover then h.rover
                         else if |fs| == 1 then NULL else fs[Succ(k, |fs|)].start
    ensures h' == TakeHeap(h, i)
    ensures Describes(m', h', total) && Coalesced(h'.blocks)
    ensures LiveKept(h.blocks, m, m')
  {
    var bs := h.blocks;
    BlocksApart(bs, total);
    FreeBlocksAscending(bs);
    SameRing(bs, i, k);
    TakeRover(bs, h.rover, i, k);
    TakeRoverGood(bs, h.rover, i, k, h'.rover);
    TakeKeeps(bs, total, i);
    TakeWords(m, m', bs, total, i, RingRemove(FreeBlocks(bs), k));
    AllKept(m, m', bs, total, bs[i].start, i);
  }

  /** The place of a block on the free ring is unique. */
  lemma SameRing(bs: seq<Block>, i: nat, k: nat)
    requires i < |bs| && bs[i].free && Apart(FreeBlocks(bs))
    requires k < |FreeBlocks(bs)| && FreeBlocks(bs)[k] == bs[i]
    ensures FreeBlocks(TakeWhole(bs, i)) == RingRemove(FreeBlocks(bs), k)
    ensures k == |FreeBlocks(bs[..i])|
  {
    var l := TakeRing(bs, i);
    assert FreeBlocks(bs)[l].start == FreeBlocks(bs)[k].start;
  }

  lemma TakeWords(m: Memory, m': Memory, bs: seq<Block>, total: int, i: nat, ring: seq<Block>)
    requires i < |bs| && Tiling(bs, total) && Words(m.word, bs) && Prevs(m.prev, bs) && bs[i].free
    requires UnlinkEffect(m, m', FreeBlocks(bs), ring, bs[i].start)
    ensures Words(m'.word, TakeWhole(bs, i)) && Prevs(m'.prev, TakeWhole(bs, i))
    ensures Confined(m, m', bs, bs[i].start)
  {
    BlocksApart(bs, total);
    HeaderWord(m.word, bs, total, i);
    WordsUpdate(m.word, bs, i, bs[i].(free := false));
    PrevsUpdate(m.prev, bs, i, bs[i].(free := false));
  }

  // ----- the fresh arena

  lemma InitialMemory(m: Memory, total: int)
    requires |m.word| == |m.prev| == |m.nextFree| == |m.prevFree| == total && HEADER <= total && total % 2 == 0
    requires m.word[0] == Pack(total, true) && m.prev[0] == 0 && m.nextFree[0] == 0 && m.prevFree[0] == 0
    ensures Describes(m, InitialHeap(total), total) && Coalesced(InitialHeap(total).blocks)
  {
    var b := Block(0, total, true);
    FreeOne(b);
    assert InitialHeap(total).blocks == [b];
    assert b.Sound() && Abuts([b], 0, total);
    StartHere([b], 0);
  }

  // ----- splitting a free block

  /** The ring after the new half was linked in behind block i, and block i unlinked. */
  lemma SplitRing(bs: seq<Block>, i: nat, m: int) returns (k: nat)
    requires i < |bs| && bs[i].free
    ensures k < |FreeBlocks(bs)| && FreeBlocks(bs)[k] == bs[i]
    ensures var ring := RingInsert(FreeBlocks(bs), k, SplitAt(bs, i, m)[i + 1]);
            ring[k] == bs[i] && FreeBlocks(SplitAt(bs, i, m)) == RingRemove(ring, k)
  {
    k := |FreeBlocks(bs[..i])|;
    var left, right := SplitAt(bs, i, m)[i], SplitAt(bs, i, m)[i + 1];
    RingAround(bs, i, [left, right]);
    assert [left, right][..1] == [left];
    assert FreeBlocks([left]) == [] && FreeBlocks([left, right]) == [right];
  }

  /** The right half starts at no existing header, except in an exact fit before a live block. */
  lemma SplitPlace(bs: seq<Block>, total: int, i: nat, m: int)
    requires i < |bs| && WellFormed(bs, total) && bs[i].free && SMALLEST <= m <= bs[i].Usable()
    ensures Apart(bs) && 0 <= bs[i].start && bs[i].End() <= total
    ensures !HeaderAt(FreeBlocks(bs), bs[i].start + PAYLOAD + m)
    ensures m < bs[i].Usable() ==> !HeaderAt(bs, bs[i].start + PAYLOAD + m)
    ensures bs[Succ(i, |bs|)].start == if bs[i].End() >= total then 0 else bs[i].End()
  {
    BlocksApart(bs, total);
    FreeBlocksExact(bs);
    assert Abuts(bs, i, total);
    forall b | b in bs
      ensures b.start != bs[i].start + PAYLOAD + m || (m == bs[i].Usable() && !b.free)
    {
      var j :| 0 <= j < |bs| && bs[j] == b;
      if j == i + 1 {
        assert !(bs[i].free && bs[j].free);
      }
    }
  }

  lemma SplitRover(bs: seq<Block>, rover: int, i: nat, m: int)
    requires i < |bs| && bs[i].free && GoodRover(bs, rover)
    ensures GoodRover(SplitAt(bs, i, m), if bs[i].start == rover then bs[i].start + PAYLOAD + m else rover)
  {
    var k := SplitRing(bs, i, m);
    var fs := FreeBlocks(bs);
    var r := FreeBlocks(SplitAt(bs, i, m));
    assert r[k] == SplitAt(bs, i, m)[i + 1];
    var l := Locate(fs, rover);
    if l != k {
      assert r[l] == fs[l];
    }
  }

  lemma SplitWords(w: seq<int>, bs: seq<Block>, i: nat, m: int, bottom: int)
    requires i < |bs| && Words(w, bs) && Apart(bs) && !HeaderAt(bs, bottom)
    requires bottom == bs[i].start + PAYLOAD + m && 0 <= bottom < |w|
    ensures 0 <= bs[i].start < |w|
    ensures var w' := w[bs[i].start := Pack(PAYLOAD + m, false)][bottom := Pack(bs[i].Usable() - m, true)];
            Words(w', SplitAt(bs, i, m))
  {
    var cs, b := SplitAt(bs, i, m), bs[i];
    var left, right := Block(b.start, PAYLOAD + m, false), Block(bottom, b.Usable() - m, true);
    assert b in bs;
    var w' := w[b.start := Pack(PAYLOAD + m, false)][bottom := Pack(b.Usable() - m, true)];
    forall c | c in cs
      ensures 0 <= c.start < |w'| && w'[c.start] == Pack(c.size, c.free)
    {
      if c != left && c != right {
        OtherOfSplit(bs, i, m, c);
      }
    }
  }

  /** A block of a split heap that is neither half was there before, and is not the one split. */
  lemma OtherOfSplit(bs: seq<Block>, i: nat, m: int, c: Block)
    requires i < |bs| && Apart(bs) && c in SplitAt(bs, i, m)
    requires c != Block(bs[i].start, PAYLOAD + m, false)
    requires c != Block(bs[i].start + PAYLOAD + m, bs[i].Usable() - m, true)
    ensures c in bs && c.start != bs[i].start && HeaderAt(bs, c.start)
  {
    var j :| 0 <= j < |SplitAt(bs, i, m)| && SplitAt(bs, i, m)[j] == c;
    assert bs[if j < i then j else j - 1] == c;
  }

  lemma SplitKeeps(bs: seq<Block>, total: int, i: nat, m: int)
    requires i < |bs| && WellFormed(bs, total) && bs[i].free
    requires SMALLEST <= m && m % 2 == 0 && HEADER <= bs[i].Usable() - m
    ensures WellFormed(SplitAt(bs, i, m), total)
  {
    var cs := SplitAt(bs, i, m);
    assert bs[i].Sound();
    forall j | 0 <= j < |cs|
      ensures Abuts(cs, j, total) && cs[j].Sound()
    {
      var j0 := if j <= i then j else j - 1;
      assert Abuts(bs, j0, total) && bs[j0].Sound();
    }
    forall j | 0 <= j < |cs|
      ensures cs[j].Sound()
    {
      var j0 := if j <= i then j else j - 1;
      assert Abuts(bs, j0, total) && bs[j0].Sound();
    }
    forall x, y | 0 <= x < |cs| && 0 <= y < |cs| && y == x + 1
      ensures !(cs[x].free && cs[y].free)
    {
      if x > i + 1 {
        assert !(bs[x - 1].free && bs[y - 1].free);
      } else if x == i + 1 {
        assert !(bs[i].free && bs[i + 1].free);
      } else if x + 1 < i {
        assert !(bs[x].free && bs[y].free);
      }
    }
  }

  // ----- a split whose right half has no room for a header

  lemma {:induction false} SamePrefix(w: seq<int>, w': seq<int>, bs: seq<Block>, cs: seq<Block>, total: int, i: nat)
    requires Tiling(bs, total) && Words(w, bs) && Tiling(cs, total) && Words(w', cs)
    requires |w| == |w'| && i < |bs| && forall j | 0 <= j < i :: w'[bs[j].start] == w[bs[j].start]
    ensures i < |cs| && cs[i].start == bs[i].start
  {
    if i > 0 {
      SamePrefix(w, w', bs, cs, total, i - 1);
      BlocksApart(bs, total);
      HeaderWord(w, bs, total, i - 1);
      HeaderWord(w', cs, total, i - 1);
      assert Abuts(bs, i - 1, total) && Abuts(cs, i - 1, total);
    }
  }

  /** A block too small for a header: no tiling of the arena agrees with the size words. */
  lemma SplinterCorrupts(w: seq<int>, w': seq<int>, bs: seq<Block>, cs: seq<Block>, total: int, i: nat, m: int)
    requires Tiling(bs, total) && Words(w, bs) && |w| == |w'| && i < |bs|
    requires m % 2 == 0 && 0 <= bs[i].Usable() - m < HEADER
    requires var bottom := bs[i].start + PAYLOAD + m;
             && 0 <= bs[i].start < bottom < total && bottom < |w|
             && w' == w[bs[i].start := Pack(PAYLOAD + m, false)][bottom := Pack(bs[i].Usable() - m, true)]
    ensures Tiling(cs, total) ==> !Words(w', cs)
  {
    if Tiling(cs, total) && Words(w', cs) {
      BlocksApart(bs, total);
      SamePrefix(w, w', bs, cs, total, i);
      HeaderWord(w', cs, total, i);
      assert bs[i].Sound() && Abuts(cs, i, total);
      HeaderWord(w', cs, total, i + 1);
    }
  }

  /** What a split may rely on before it writes anything: the free node at curr is ring[k]. */
  ghost predicate Splittable(m: Memory, ring: seq<Block>, k: nat, curr: int, req: int, bottom: int, splitSize: int) {
    var all :=
      && Ring(m.nextFree, m.prevFree, ring) && k < |ring| && ring[k].start == curr && !HeaderAt(ring, bottom)
      && 0 <= curr < bottom < |m.word| && req % 2 == 0 && splitSize % 2 == 0 && 0 <= splitSize
      && SizePart(m.word[curr]) == PAYLOAD + req + splitSize && FreeBit(m.word[curr]) == 1;
    all
  }

  lemma SplitReady(m: Memory, h: Heap, total: int, i: nat, req: int, bottom: int, splitSize: int) returns (k: nat)
    requires Describes(m, h, total) && Coalesced(h.blocks) && i < |h.blocks| && h.blocks[i].free
    requires SMALLEST <= req && req % 2 == 0 && 0 <= splitSize == h.blocks[i].Usable() - req
    requires bottom == h.blocks[i].start + PAYLOAD + req && bottom < total
    ensures Splittable(m, FreeBlocks(h.blocks), k, h.blocks[i].start, req, bottom, splitSize)
    ensures CanSplit(h.blocks, total, i, req, Block(bottom, splitSize, true))
    ensures k < |FreeBlocks(h.blocks)| && FreeBlocks(h.blocks)[k] == h.blocks[i]
  {
    HeaderWord(m.word, h.blocks, total, i);
    SplitPlace(h.blocks, total, i, req);
    assert h.blocks[i].Sound();
    EvenRest(h.blocks[i].size, req, splitSize);
    k := SplitRing(h.blocks, i, req);
  }

  lemma EvenRest(size: int, req: int, splitSize: int)
    requires size % 2 == 0 && req % 2 == 0 && splitSize == size - PAYLOAD - req
    ensures splitSize % 2 == 0
  {
  }

  /** The four steps of the else branch of _salloc, in one go. */
  lemma SplitDone(m: Memory, m1: Memory, m2: Memory, m3: Memory, ring: seq<Block>, k: nat, right: Block,
                  curr: int, req: int, splitSize: int)
    requires |m.word| == |m.prev| == |m.nextFree| == |m.prevFree|
    requires Splittable(m, ring, k, curr, req, right.start, splitSize)
    requires m1.nextFree == m.nextFree && m1.prevFree == m.prevFree
    requires m1.word == m.word[curr := Pack(PAYLOAD + req, false)][right.start := Pack(splitSize, true)]
    requires var after := if right.start + splitSize >= |m.word| then 0 else right.start + splitSize;
             m1.prev == m.prev[right.start := curr][after := right.start]
    requires LinkEffect(m1, m2, ring, RingInsert(ring, k, right), right.start)
    requires UnlinkEffect(m2, m3, RingInsert(ring, k, right), RingRemove(RingInsert(ring, k, right), k), curr)
    ensures SplitEffect(m, m3, ring, RingRemove(RingInsert(ring, k, right), k), curr, PAYLOAD + req,
                        right.start, splitSize)
  {
    PackParts(PAYLOAD + req, false);
    PackParts(splitSize, true);
    assert m3.word == m1.word;
    forall o | HeaderAt(RingInsert(ring, k, right), o)
      ensures o == right.start || HeaderAt(ring, o)
    {
      InsertedHeader(ring, k, right, o);
    }
  }

  lemma InsertedHeader(ring: seq<Block>, k: nat, right: Block, o: int)
    requires k < |ring| && HeaderAt(RingInsert(ring, k, right), o)
    ensures o == right.start || HeaderAt(ring, o)
  {
    var r := RingInsert(ring, k, right);
    var j :| 0 <= j < |r| && r[j].start == o;
    if j != k + 1 { assert ring[if j <= k then j else j - 1].start == o; }
  }

  /** Free block i can be cut into req payload bytes and the block right. */
  ghost predicate CanSplit(bs: seq<Block>, total: int, i: nat, req: int, right: Block) {
    var all :=
      && WellFormed(bs, total) && i < |bs| && bs[i].free
      && SMALLEST <= req && req % 2 == 0 && 0 <= right.size
      && right == Block(bs[i].start + PAYLOAD + req, bs[i].Usable() - req, true);
    all
  }

  /** What the writes of a split amount to, with and without room for a header. */
  lemma SplitOutcome(m: Memory, m': Memory, h: Heap, h': Heap, total: int, i: nat, k: nat, req: int, right: Block)
    requires Describes(m, h, total) && CanSplit(h.blocks, total, i, req, right) && h' == SplitHeap(h, i, req)
    requires k < |FreeBlocks(h.blocks)| && FreeBlocks(h.blocks)[k] == h.blocks[i]
    requires SplitEffect(m, m', FreeBlocks(h.blocks), RingRemove(RingInsert(FreeBlocks(h.blocks), k, right), k),
                         h.blocks[i].start, PAYLOAD + req, right.start, right.size)
    ensures HEADER <= right.size ==> Describes(m', h', total) && Coalesced(h'.blocks) && LiveKept(h.blocks, m, m')
    ensures right.size < HEADER ==> forall cs | Tiling(cs, total) :: !Words(m'.word, cs)
  {
    if HEADER <= right.size {
      SplitMemory(m, m', h, h', total, i, k, req, right);
    } else {
      SplinterMemory(m, m', h, total, i, req, RingRemove(RingInsert(FreeBlocks(h.blocks), k, right), k));
    }
  }

  /** After the writes of a split with room for a header the memory describes the split heap. */
  lemma SplitMemory(m: Memory, m': Memory, h: Heap, h': Heap, total: int, i: nat, k: nat, req: int, right: Block)
    requires Describes(m, h, total) && CanSplit(h.blocks, total, i, req, right) && h' == SplitHeap(h, i, req)
    requires HEADER <= right.size
    requires k < |FreeBlocks(h.blocks)| && FreeBlocks(h.blocks)[k] == h.blocks[i]
    requires SplitEffect(m, m', FreeBlocks(h.blocks), RingRemove(RingInsert(FreeBlocks(h.blocks), k, right), k),
                         h.blocks[i].start, PAYLOAD + req, right.start, right.size)
    ensures Describes(m', h', total) && Coalesced(h'.blocks) && LiveKept(h.blocks, m, m')
  {
    var ring := RingRemove(RingInsert(FreeBlocks(h.blocks), k, right), k);
    SplitArrays(m, m', h.blocks, total, i, req, right, ring);
    SplitShape(h, total, i, k, req, right);
  }

  /** The split heap is well formed, and the ring after the writes is its free ring. */
  lemma SplitShape(h: Heap, total: int, i: nat, k: nat, req: int, right: Block)
    requires CanSplit(h.blocks, total, i, req, right) && HEADER <= right.size && GoodRover(h.blocks, h.rover)
    requires k < |FreeBlocks(h.blocks)| && FreeBlocks(h.blocks)[k] == h.blocks[i]
    ensures var g := SplitHeap(h, i, req);
            && WellFormed(g.blocks, total) && GoodRover(g.blocks, g.rover)
            && FreeBlocks(g.blocks) == RingRemove(RingInsert(FreeBlocks(h.blocks), k, right), k)
  {
    SplitKeeps(h.blocks, total, i, req);
    SplitRover(h.blocks, h.rover, i, req);
    BlocksApart(h.blocks, total);
    FreeBlocksAscending(h.blocks);
    SplitSameRing(h.blocks, i, k, req, right);
  }

  lemma SplitArrays(m: Memory, m': Memory, bs: seq<Block>, total: int, i: nat, req: int, right: Block, ring: seq<Block>)
    requires CanSplit(bs, total, i, req, right) && HEADER <= right.size
    requires Words(m.word, bs) && Prevs(m.prev, bs) && |m.word| == total
    requires SplitEffect(m, m', FreeBlocks(bs), ring, bs[i].start, PAYLOAD + req, right.start, right.size)
    ensures Words(m'.word, SplitAt(bs, i, req)) && Prevs(m'.prev, SplitAt(bs, i, req))
    ensures LiveKept(bs, m, m')
  {
    SplitPlace(bs, total, i, req);
    SplitWordsDone(m, m', bs, i, req, right.start, right.size, ring);
    SplitPrevsDone(m, m', bs, i, req, right.start, right.size, ring);
    SplitLive(m, m', bs, total, i, req, right, ring);
  }

  lemma SplitWordsDone(m: Memory, m': Memory, bs: seq<Block>, i: nat, req: int, bottom: int, splitSize: int,
                       ring: seq<Block>)
    requires i < |bs| && Words(m.word, bs) && Apart(bs) && !HeaderAt(bs, bottom)
    requires bottom == bs[i].start + PAYLOAD + req && splitSize == bs[i].Usable() - req
    requires SplitEffect(m, m', FreeBlocks(bs), ring, bs[i].start, PAYLOAD + req, bottom, splitSize)
    ensures Words(m'.word, SplitAt(bs, i, req))
  {
    SplitWords(m.word, bs, i, req, bottom);
  }

  lemma SplitPrevsDone(m: Memory, m': Memory, bs: seq<Block>, i: nat, req: int, bottom: int, splitSize: int,
                       ring: seq<Block>)
    requires i < |bs| && Prevs(m.prev, bs) && Apart(bs) && !HeaderAt(bs, bottom)
    requires bottom == bs[i].start + PAYLOAD + req
    requires SplitEffect(m, m', FreeBlocks(bs), ring, bs[i].start, PAYLOAD + req, bottom, splitSize)
    requires bs[Succ(i, |bs|)].start == if bottom + splitSize >= |m.word| then 0 else bottom + splitSize
    ensures Prevs(m'.prev, SplitAt(bs, i, req))
  {
    SplitBehind(m.prev, bs, i, req, bottom);
  }

  lemma SplitLive(m: Memory, m': Memory, bs: seq<Block>, total: int, i: nat, req: int, right: Block, ring: seq<Block>)
    requires CanSplit(bs, total, i, req, right) && HEADER <= right.size && |m.word| == total
    requires SplitEffect(m, m', FreeBlocks(bs), ring, bs[i].start, PAYLOAD + req, right.start, right.size)
    ensures LiveKept(bs, m, m')
  {
    AfterEnd(bs, total, i);
    SplitConfined(m, m', bs, i, right.start, right.size, PAYLOAD + req, ring);
    AllKept(m, m', bs, total, right.start, i);
  }

  lemma SplitSameRing(bs: seq<Block>, i: nat, k: nat, req: int, right: Block)
    requires i < |bs| && bs[i].free && k < |FreeBlocks(bs)| && FreeBlocks(bs)[k] == bs[i]
    requires right == Block(bs[i].start + PAYLOAD + req, bs[i].Usable() - req, true) && Apart(FreeBlocks(bs))
    ensures FreeBlocks(SplitAt(bs, i, req)) == RingRemove(RingInsert(FreeBlocks(bs), k, right), k)
  {
    var l := SplitRing(bs, i, req);
    assert FreeBlocks(bs)[l].start == FreeBlocks(bs)[k].start;
  }

  /** After the writes of a split without room for a header no tiling agrees with the size words. */
  lemma SplinterMemory(m: Memory, m': Memory, h: Heap, total: int, i: nat, req: int, ring: seq<Block>)
    requires Describes(m, h, total) && i < |h.blocks|
    requires req % 2 == 0 && 0 <= h.blocks[i].Usable() - req < HEADER
    requires SplitEffect(m, m', FreeBlocks(h.blocks), ring, h.blocks[i].start, PAYLOAD + req,
                         h.blocks[i].start + PAYLOAD + req, h.blocks[i].Usable() - req)
    ensures forall cs | Tiling(cs, total) :: !Words(m'.word, cs)
  {
    forall cs: seq<Block> | Tiling(cs, total)
      ensures !Words(m'.word, cs)
    {
      SplinterCorrupts(m.word, m'.word, h.blocks, cs, total, i, req);
    }
  }

  /** The writes of a split are confined to the free block and its ring neighbours. */
  lemma SplitConfined(m: Memory, m': Memory, bs: seq<Block>, i: nat, bottom: int, splitSize: int, size: int,
                      ring: seq<Block>)
    requires i < |bs| && SplitEffect(m, m', FreeBlocks(bs), ring, bs[i].start, size, bottom, splitSize)
    requires bs[Succ(i, |bs|)].start == if bottom + splitSize >= |m.word| then 0 else bottom + splitSize
    ensures Confined(m, m', bs, bottom)
  {
    assert HeaderAt(bs, bs[i].start) && HeaderAt(bs, bs[Succ(i, |bs|)].start);
  }

  lemma SplitBehind(p: seq<int>, bs: seq<Block>, i: nat, m: int, bottom: int)
    requires i < |bs| && Prevs(p, bs) && Apart(bs) && !HeaderAt(bs, bottom)
    requires bottom == bs[i].start + PAYLOAD + m && 0 <= bottom < |p|
    ensures var after := bs[Succ(i, |bs|)].start;
            0 <= after < |p| && Prevs(p[bottom := bs[i].start][after := bottom], SplitAt(bs, i, m))
  {
    var b := bs[i];
    SplitPrevs(p, bs, i, Block(b.start, PAYLOAD + m, false), Block(bottom, b.Usable() - m, true));
  }

  // ----- giving a block back

  /** Index of the block d steps before block i, around the circle. */
  function Back(i: nat, d: nat, n: nat): nat
    requires i < n && d <= n
  {
    if d <= i then i - d else n + i - d
  }

  /** The d - 1 blocks nearest before block i are all allocated. */
  ghost predicate UsedBack(bs: seq<Block>, i: nat, d: nat)
    requires i < |bs| && d <= |bs|
  {
    forall e | 0 < e < d :: !bs[Back(i, e, |bs|)].free
  }

  /** One step of the backward walk. */
  lemma BackStep(w: seq<int>, p: seq<int>, bs: seq<Block>, total: int, i: nat, d: nat)
    requires Tiling(bs, total) && Words(w, bs) && Prevs(p, bs) && |w| == |p| == total
    requires i < |bs| && d < |bs|
    ensures var b := bs[Back(i, d, |bs|)];
            && 0 <= b.start < total && p[b.start] == bs[Back(i, d + 1, |bs|)].start
            && (FreeBit(w[b.start]) == 1 <==> b.free)
            && (b.start == bs[i].start <==> d == 0)
    ensures Back(i, |bs|, |bs|) == i
    ensures 0 < d && UsedBack(bs, i, d) && !bs[Back(i, d, |bs|)].free ==> UsedBack(bs, i, d + 1)
  {
    var c := Back(i, d, |bs|);
    BlocksApart(bs, total);
    Neighbours(w, p, bs, total, c);
    HeaderWord(w, bs, total, c);
    assert Pred(c, |bs|) == Back(i, d + 1, |bs|);
  }

  /** Walking back over used blocks from i ends at the last free block before i, in ring order. */
  lemma WalkedBack(bs: seq<Block>, i: nat, d: nat) returns (k: nat)
    requires i < |bs| && 0 < d < |bs| && !bs[i].free && bs[Back(i, d, |bs|)].free
    requires UsedBack(bs, i, d)
    ensures k < |FreeBlocks(bs)| && FreeBlocks(bs)[k] == bs[Back(i, d, |bs|)]
    ensures FreeBlocks(bs) == FreeBlocks(bs[..i]) + FreeBlocks(bs[i + 1..])
    ensures if d <= i then k + 1 == |FreeBlocks(bs[..i])|
            else FreeBlocks(bs[..i]) == [] && k + 1 == |FreeBlocks(bs)|
  {
    var c := Back(i, d, |bs|);
    RingAround(bs, i, []);
    assert FreeBlocks(bs) == FreeBlocks(bs[..i]) + FreeBlocks(bs[i + 1..]);
    if d <= i {
      LastFree(bs[..i], c, i, d, bs);
      k := |FreeBlocks(bs[..i])| - 1;
    } else {
      FirstFree(bs, i, d, c);
      k := |FreeBlocks(bs)| - 1;
    }
  }

  /** Going back past the start of the arena: nothing is free before block i, and block c is the last free one. */
  lemma FirstFree(bs: seq<Block>, i: nat, d: nat, c: nat)
    requires i < d < |bs| && c == Back(i, d, |bs|) && bs[c].free && UsedBack(bs, i, d)
    ensures FreeBlocks(bs[..i]) == []
    ensures FreeBlocks(bs[i + 1..]) != [] && FreeBlocks(bs[i + 1..])[|FreeBlocks(bs[i + 1..])| - 1] == bs[c]
  {
    forall j | 0 <= j < i
      ensures !bs[..i][j].free
    {
      assert j == Back(i, i - j, |bs|);
    }
    AllUsed(bs[..i]);
    forall j | c < j < |bs|
      ensures !bs[j].free
    {
      assert j == Back(i, |bs| + i - j, |bs|);
    }
    assert bs[i + 1..] == bs[i + 1..c] + [bs[c]] + bs[c + 1..];
    FreeBlocksSplice(bs[i + 1..c], [bs[c]], bs[c + 1..]);
    AllUsed(bs[c + 1..]);
    FreeOne(bs[c]);
  }

  lemma LastFree(pre: seq<Block>, c: nat, i: nat, d: nat, bs: seq<Block>)
    requires i < |bs| && pre == bs[..i] && 0 < d <= i && c == i - d && bs[c].free
    requires UsedBack(bs, i, d)
    ensures FreeBlocks(pre) != [] && FreeBlocks(pre)[|FreeBlocks(pre)| - 1] == bs[c]
  {
    forall j | c < j < i
      ensures !bs[j].free
    {
      assert j == Back(i, i - j, |bs|);
    }
    assert pre == bs[..c] + [bs[c]] + bs[c + 1..i];
    FreeBlocksSplice(bs[..c], [bs[c]], bs[c + 1..i]);
    AllUsed(bs[c + 1..i]);
    assert FreeBlocks([bs[c]]) == [bs[c]];
  }

  /** After insert_free the ring is the free ring of the heap with block i marked free. */
  lemma InsertedRing(nf: seq<int>, pf: seq<int>, bs: seq<Block>, i: nat, d: nat, k: nat)
    requires i < |bs| && 0 < d < |bs| && !bs[i].free && k < |FreeBlocks(bs)|
    requires FreeBlocks(bs) == FreeBlocks(bs[..i]) + FreeBlocks(bs[i + 1..])
    requires if d <= i then k + 1 == |FreeBlocks(bs[..i])|
             else FreeBlocks(bs[..i]) == [] && k + 1 == |FreeBlocks(bs)|
    requires Ring(nf, pf, RingInsert(FreeBlocks(bs), k, bs[i].(free := true)))
    ensures Ring(nf, pf, FreeBlocks(MarkFree(bs, i)))
  {
    var node, p, q := bs[i].(free := true), FreeBlocks(bs[..i]), FreeBlocks(bs[i + 1..]);
    RingAround(bs, i, [node]);
    FreeOne(node);
    assert FreeBlocks(MarkFree(bs, i)) == p + [node] + q;
    if d <= i {
      InsertAfter(p, q, node);
    } else {
      InsertAfter(q, [], node);
      NoneBefore(p, q, node);
      RotateLinks(nf, pf, q, [node]);
    }
  }

  lemma InsertAfter(p: seq<Block>, q: seq<Block>, node: Block)
    requires p != []
    ensures RingInsert(p + q, |p| - 1, node) == p + [node] + q
  {
  }

  lemma NoneBefore(p: seq<Block>, q: seq<Block>, node: Block)
    requires p == []
    ensures p + q == q + [] && q + [node] + [] == q + [node] && [node] + q == p + [node] + q
  {
  }

  lemma AllUsedAround(bs: seq<Block>, i: nat)
    requires i < |bs| && UsedBack(bs, i, |bs|)
    ensures forall j | 0 <= j < |bs| && j != i :: !bs[j].free
  {
    forall j | 0 <= j < |bs| && j != i
      ensures !bs[j].free
    {
      var e := if j < i then i - j else |bs| + i - j;
      assert j == Back(i, e, |bs|);
    }
  }

  lemma AloneRing(bs: seq<Block>, cs: seq<Block>, i: nat)
    requires i < |bs| && !bs[i].free && forall j | 0 <= j < |bs| && j != i :: !bs[j].free
    requires cs == MarkFree(bs, i)
    ensures FreeBlocks(bs) == [] && FreeBlocks(cs) == [bs[i].(free := true)]
  {
    AllUsed(bs);
    AllUsed(bs[..i]);
    AllUsed(bs[i + 1..]);
    var node := [bs[i].(free := true)];
    assert FreeBlocks(node) == node;
    FreeBlocksSplice(bs[..i], node, bs[i + 1..]);
  }

  /** With every other block allocated there is nothing to merge with. */
  lemma AloneRelease(h: Heap, i: nat)
    requires i < |h.blocks| && h.rover == NULL
    requires forall j | 0 <= j < |h.blocks| && j != i :: !h.blocks[j].free
    ensures Release(h, i) == Heap(MarkFree(h.blocks, i), h.blocks[i].start)
  {
  }

  /** What freeing the only free block may rely on before it writes anything. */
  lemma AloneReady(m: Memory, h: Heap, total: int, i: nat)
    requires Describes(m, h, total) && i < |h.blocks| && !h.blocks[i].free && UsedBack(h.blocks, i, |h.blocks|)
    ensures 0 <= h.blocks[i].start < total && FreeBlocks(h.blocks) == []
    ensures FreeBlocks(MarkFree(h.blocks, i)) == [h.blocks[i].(free := true)]
    ensures Release(h, i) == Heap(MarkFree(h.blocks, i), h.blocks[i].start)
  {
    HeaderWord(m.word, h.blocks, total, i);
    AllUsedAround(h.blocks, i);
    AloneRing(h.blocks, MarkFree(h.blocks, i), i);
    AloneRelease(h, i);
  }

  /** What linking a block in after its free predecessor may rely on before it writes anything. */
  lemma LinkReady(m: Memory, h: Heap, total: int, i: nat, d: nat) returns (k: nat)
    requires Describes(m, h, total) && i < |h.blocks| && !h.blocks[i].free
    requires 0 < d < |h.blocks| && h.blocks[Back(i, d, |h.blocks|)].free && UsedBack(h.blocks, i, d)
    ensures var bs, fs := h.blocks, FreeBlocks(h.blocks);
            && 0 <= bs[i].start < total && !HeaderAt(fs, bs[i].start) && h.rover != NULL
            && k < |fs| && fs[k] == bs[Back(i, d, |bs|)]
            && fs == FreeBlocks(bs[..i]) + FreeBlocks(bs[i + 1..])
            && if d <= i then k + 1 == |FreeBlocks(bs[..i])|
               else FreeBlocks(bs[..i]) == [] && k + 1 == |fs|
  {
    var bs := h.blocks;
    k := WalkedBack(bs, i, d);
    HeaderWord(m.word, bs, total, i);
    BlocksApart(bs, total);
    UsedNotInRing(bs, i);
    FreeNode(m.word, bs, total, FreeBlocks(bs)[Locate(FreeBlocks(bs), h.rover)]);
  }

  /** After the linking the memory describes the heap with block i marked free. */
  lemma MarkMemory(m: Memory, m': Memory, h: Heap, h': Heap, total: int, i: nat, ring: seq<Block>)
    requires Describes(m, h, total) && i < |h.blocks| && !h.blocks[i].free
    requires LinkEffect(m, m', FreeBlocks(h.blocks), ring, h.blocks[i].start)
    requires Ring(m'.nextFree, m'.prevFree, FreeBlocks(h'.blocks))
    requires h' == Heap(MarkFree(h.blocks, i), if h.rover == NULL then h.blocks[i].start else h.rover)
    ensures Describes(m', h', total)
    ensures Confined(m, m', h.blocks, h.blocks[i].start)
  {
    var bs := h.blocks;
    BlocksApart(bs, total);
    HeaderWord(m.word, bs, total, i);
    WordsUpdate(m.word, bs, i, bs[i].(free := true));
    PrevsUpdate(m.prev, bs, i, bs[i].(free := true));
    MarkKeeps(bs, total, h.rover, i);
  }

  lemma UsedNotInRing(bs: seq<Block>, i: nat)
    requires i < |bs| && !bs[i].free && Apart(bs)
    ensures !HeaderAt(FreeBlocks(bs), bs[i].start)
  {
    if HeaderAt(FreeBlocks(bs), bs[i].start) {
      var j := FreeIndex(bs, bs[i].start);
    }
  }

  /** Every header of cs, and every header of a free block of cs, is one of bs, but for x. */
  ghost predicate Within(cs: seq<Block>, bs: seq<Block>, x: int) {
    && (forall o :: HeaderAt(cs, o) ==> o == x || HeaderAt(bs, o))
    && (forall o :: HeaderAt(FreeBlocks(cs), o) ==> o == x || HeaderAt(FreeBlocks(bs), o))
  }

  /** A header of a free block needs no exception, so any other may take its place. */
  lemma ConfinedAtHeader(m: Memory, m': Memory, bs: seq<Block>, i: nat, x: int)
    requires i < |bs| && bs[i].free && Confined(m, m', bs, bs[i].start)
    ensures Confined(m, m', bs, x)
  {
    FreeHeader(bs, i);
    assert HeaderAt(bs, bs[i].start);
  }

  lemma ConfinedTwice(m: Memory, m': Memory, m'': Memory, bs: seq<Block>, cs: seq<Block>, x: int)
    requires Confined(m, m', bs, x) && Confined(m', m'', cs, x) && Within(cs, bs, x)
    ensures Confined(m, m'', bs, x)
  {
  }

  lemma MarkWithin(bs: seq<Block>, i: nat)
    requires i < |bs|
    ensures Within(MarkFree(bs, i), bs, bs[i].start)
  {
    var cs := MarkFree(bs, i);
    forall o | HeaderAt(cs, o)
      ensures HeaderAt(bs, o)
    {
      var j :| 0 <= j < |cs| && cs[j].start == o;
      assert bs[j].start == o;
    }
    forall o | HeaderAt(FreeBlocks(cs), o) && o != bs[i].start
      ensures HeaderAt(FreeBlocks(bs), o)
    {
      var j := FreeIndex(cs, o);
      assert cs[j] == bs[j];
      FreeHeader(bs, j);
    }
  }

  lemma MarkKeeps(bs: seq<Block>, total: int, rover: int, i: nat)
    requires i < |bs| && Tiling(bs, total) && !bs[i].free && GoodRover(bs, rover)
    ensures Tiling(MarkFree(bs, i), total)
    ensures rover != NULL ==> GoodRover(MarkFree(bs, i), rover)
    ensures GoodRover(MarkFree(bs, i), bs[i].start)
  {
    MarkTiling(bs, total, i);
    MarkRover(bs, MarkFree(bs, i), rover, i);
  }

  lemma MarkTiling(bs: seq<Block>, total: int, i: nat)
    requires i < |bs| && Tiling(bs, total)
    ensures Tiling(MarkFree(bs, i), total)
  {
    var cs := MarkFree(bs, i);
    forall j | 0 <= j < |cs|
      ensures Abuts(cs, j, total) && cs[j].Sound()
    {
      assert Abuts(bs, j, total) && bs[j].Sound();
    }
    assert forall j | 0 <= j < |cs| :: cs[j].Sound();
  }

  lemma MarkRover(bs: seq<Block>, cs: seq<Block>, rover: int, i: nat)
    requires i < |bs| && !bs[i].free && GoodRover(bs, rover) && cs == MarkFree(bs, i)
    ensures rover != NULL ==> GoodRover(cs, rover)
    ensures GoodRover(cs, bs[i].start)
  {
    StartHere(cs, i);
    if FreeBlocks(bs) != [] {
      var j := RoverIndex(bs, rover);
      StartHere(cs, j);
    }
  }

  /** The index of the block where a search starts. */
  lemma RoverIndex(bs: seq<Block>, rover: int) returns (j: nat)
    requires GoodRover(bs, rover) && FreeBlocks(bs) != []
    ensures j < |bs| && bs[j].free && bs[j].start == rover
  {
    var b := FreeBlocks(bs)[Locate(FreeBlocks(bs), rover)];
    j := FreeIndex(bs, b.start);
  }

  /** Any free block is a good place to start a search. */
  lemma StartHere(bs: seq<Block>, j: nat)
    requires j < |bs| && bs[j].free
    ensures GoodRover(bs, bs[j].start) && FreeBlocks(bs) != []
  {
    FreeBlocksExact(bs);
    assert bs[j] in FreeBlocks(bs);
  }

  lemma SameStarts(nf: seq<int>, pf: seq<int>, r: seq<Block>, k: nat, b: Block)
    requires Ring(nf, pf, r) && k < |r| && b.start == r[k].start
    ensures Ring(nf, pf, r[k := b])
  {
    var s := r[k := b];
    forall i | 0 <= i < |s|
      ensures Linked(nf, pf, s[i].start, s[Succ(i, |s|)].start)
    {
      assert Linked(nf, pf, r[i].start, r[Succ(i, |r|)].start);
    }
  }

  lemma MergeRing(bs: seq<Block>, i: nat) returns (k: nat)
    requires i + 1 < |bs| && bs[i].free && bs[i + 1].free
    ensures k + 1 < |FreeBlocks(bs)| && FreeBlocks(bs)[k] == bs[i] && FreeBlocks(bs)[k + 1] == bs[i + 1]
    ensures FreeBlocks(MergeAt(bs, i)) == RingRemove(FreeBlocks(bs), k + 1)[k := MergeAt(bs, i)[i]]
  {
    var pre, b, c, post := bs[..i], bs[i], bs[i + 1], bs[i + 2..];
    k := |FreeBlocks(pre)|;
    assert bs == pre + [b, c] + post;
    FreeTwo(b, c);
    FreeOne(MergeAt(bs, i)[i]);
    FreeBlocksSplice(pre, [b, c], post);
    FreeBlocksSplice(pre, [MergeAt(bs, i)[i]], post);
    TwoBecomeOne(FreeBlocks(pre), b, c, MergeAt(bs, i)[i], FreeBlocks(post));
  }

  lemma FreeOne(b: Block)
    requires b.free
    ensures FreeBlocks([b]) == [b]
  {
    assert [b][..0] == [];
  }

  lemma FreeTwo(b: Block, c: Block)
    requires b.free && c.free
    ensures FreeBlocks([b, c]) == [b, c]
  {
    assert [b, c] == [b] + [c];
    FreeBlocksConcat([b], [c]);
    FreeOne(b);
    FreeOne(c);
  }

  lemma TwoBecomeOne(p: seq<Block>, b: Block, c: Block, m: Block, q: seq<Block>)
    ensures var ring := p + [b, c] + q;
            RingRemove(ring, |p| + 1)[|p| := m] == p + [m] + q && ring[|p|] == b && ring[|p| + 1] == c
  {
    assert RingRemove(p + [b, c] + q, |p| + 1) == p + [b] + q;
  }

  lemma MergeTiling(bs: seq<Block>, total: int, i: nat)
    requires i + 1 < |bs| && Tiling(bs, total)
    ensures Tiling(MergeAt(bs, i), total)
  {
    var cs := MergeAt(bs, i);
    forall j | 0 <= j < |cs|
      ensures Abuts(cs, j, total)
    {
      assert Abuts(bs, if j < i then j else j + 1, total);
      assert Abuts(bs, i, total);
    }
    forall j | 0 <= j < |cs|
      ensures cs[j].Sound()
    {
      assert bs[if j <= i then j else j + 1].Sound();
      assert bs[i + 1].Sound();
    }
  }

  lemma MergeWords(w: seq<int>, w': seq<int>, bs: seq<Block>, i: nat)
    requires i + 1 < |bs| && Words(w, bs) && Apart(bs) && bs[i].free
    requires |w| == |w'| && 0 <= bs[i].start < |w|
    requires w'[bs[i].start] == Pack(bs[i].size + bs[i + 1].size, true)
    requires forall o | 0 <= o < |w| && o != bs[i].start && o != bs[i + 1].start :: w'[o] == w[o]
    ensures Words(w', MergeAt(bs, i))
  {
    var cs := MergeAt(bs, i);
    forall c | c in cs
      ensures 0 <= c.start < |w'| && w'[c.start] == Pack(c.size, c.free)
    {
      var j :| 0 <= j < |cs| && cs[j] == c;
      if j != i {
        assert c == bs[if j < i then j else j + 1] && c in bs;
      }
    }
  }

  lemma MergeRover(bs: seq<Block>, rover: int, i: nat)
    requires i + 1 < |bs| && bs[i].free && bs[i + 1].free && Apart(bs) && GoodRover(bs, rover)
    ensures GoodRover(MergeAt(bs, i), if rover == bs[i + 1].start then bs[i].start else rover)
  {
    var cs := MergeAt(bs, i);
    StartHere(bs, i);
    var j := RoverIndex(bs, rover);
    StartHere(cs, if j <= i then j else j - 1);
  }

  lemma MergeWithin(bs: seq<Block>, i: nat, x: int)
    requires i + 1 < |bs| && bs[i].free
    ensures Within(MergeAt(bs, i), bs, x)
  {
    var cs := MergeAt(bs, i);
    forall o | HeaderAt(cs, o)
      ensures HeaderAt(bs, o)
    {
      var j :| 0 <= j < |cs| && cs[j].start == o;
      assert bs[if j <= i then j else j + 1].start == o;
    }
    forall o | HeaderAt(FreeBlocks(cs), o)
      ensures HeaderAt(FreeBlocks(bs), o)
    {
      var j := FreeIndex(cs, o);
      var j0 := if j <= i then j else j + 1;
      assert bs[j0].start == o && bs[j0].free;
      FreeHeader(bs, j0);
    }
  }

  lemma FreeHeader(bs: seq<Block>, j: nat)
    requires j < |bs| && bs[j].free
    ensures HeaderAt(FreeBlocks(bs), bs[j].start)
  {
    FreeBlocksExact(bs);
    assert bs[j] in FreeBlocks(bs);
    var f :| 0 <= f < |FreeBlocks(bs)| && FreeBlocks(bs)[f] == bs[j];
  }

  /** What a merge may rely on before it writes anything. */
  lemma MergeReady(m: Memory, h: Heap, total: int, i: nat) returns (k: nat)
    requires Describes(m, h, total) && i + 1 < |h.blocks| && h.blocks[i].free && h.blocks[i + 1].free
    ensures var b, c := h.blocks[i], h.blocks[i + 1];
            && 0 <= b.start < total && 0 <= c.start < total && b.start != c.start
            && FreeBit(m.word[b.start]) == 1 && SizePart(m.word[c.start]) == c.size && 0 <= c.size
            && k + 1 < |FreeBlocks(h.blocks)| && FreeBlocks(h.blocks)[k] == b && FreeBlocks(h.blocks)[k + 1] == c
            && FreeBlocks(MergeAt(h.blocks, i)) == RingRemove(FreeBlocks(h.blocks), k + 1)[k := MergeAt(h.blocks, i)[i]]
  {
    BlocksApart(h.blocks, total);
    HeaderWord(m.word, h.blocks, total, i);
    HeaderWord(m.word, h.blocks, total, i + 1);
    assert h.blocks[i + 1].Sound();
    k := MergeRing(h.blocks, i);
  }

  /** What one branch of coalesce() writes, with both blocks next to each other on the ring. */
  ghost predicate AbsorbEffect(m: Memory, m': Memory, left: int, right: int, ring: seq<Block>, k: nat) {
    var all :=
      && m.SameSize(m') && k + 1 < |ring|
      && 0 <= left < |m.word| && 0 <= right < |m.word|
      && m'.word[left] == Pack(SizePart(m.word[left]) + SizePart(m.word[right]), true)
      && (forall o | 0 <= o < |m.word| && o != left && o != right :: m'.word[o] == m.word[o])
      && (var end := right + SizePart(m.word[right]);
          var after := if end >= |m.word| then 0 else end;
          0 <= after && m'.prev == m.prev[after := m.prev[right]][right := NULL])
      && Ring(m'.nextFree, m'.prevFree, RingRemove(ring, k + 1))
      && (forall o | 0 <= o < |m.word| && !HeaderAt(ring, o) ::
            m'.nextFree[o] == m.nextFree[o] && m'.prevFree[o] == m.prevFree[o]);
    all
  }

  /** After the writes the memory describes the heap with both blocks merged. */
  lemma MergeMemory(m: Memory, m': Memory, h: Heap, h': Heap, total: int, i: nat, k: nat)
    requires Describes(m, h, total) && i + 1 < |h.blocks| && h.blocks[i].free && h.blocks[i + 1].free
    requires k + 1 < |FreeBlocks(h.blocks)| && FreeBlocks(h.blocks)[k] == h.blocks[i]
    requires FreeBlocks(MergeAt(h.blocks, i)) == RingRemove(FreeBlocks(h.blocks), k + 1)[k := MergeAt(h.blocks, i)[i]]
    requires AbsorbEffect(m, m', h.blocks[i].start, h.blocks[i + 1].start, FreeBlocks(h.blocks), k)
    requires h'.blocks == MergeAt(h.blocks, i)
    requires h'.rover == if h.rover == h.blocks[i + 1].start then h.blocks[i].start else h.rover
    ensures Describes(m', h', total)
    ensures Confined(m, m', h.blocks, h.blocks[i].start)
  {
    var bs := h.blocks;
    MergeArrays(m, m', bs, total, i, k);
    MergeTiling(bs, total, i);
    BlocksApart(bs, total);
    MergeRover(bs, h.rover, i);
  }

  lemma MergeArrays(m: Memory, m': Memory, bs: seq<Block>, total: int, i: nat, k: nat)
    requires i + 1 < |bs| && Tiling(bs, total) && Words(m.word, bs) && Prevs(m.prev, bs) && |m.word| == total
    requires bs[i].free && bs[i + 1].free && k + 1 < |FreeBlocks(bs)| && FreeBlocks(bs)[k] == bs[i]
    requires FreeBlocks(MergeAt(bs, i)) == RingRemove(FreeBlocks(bs), k + 1)[k := MergeAt(bs, i)[i]]
    requires AbsorbEffect(m, m', bs[i].start, bs[i + 1].start, FreeBlocks(bs), k)
    ensures Words(m'.word, MergeAt(bs, i)) && Prevs(m'.prev, MergeAt(bs, i))
    ensures Ring(m'.nextFree, m'.prevFree, FreeBlocks(MergeAt(bs, i)))
    ensures Confined(m, m', bs, bs[i].start)
  {
    BlocksApart(bs, total);
    HeaderWord(m.word, bs, total, i);
    HeaderWord(m.word, bs, total, i + 1);
    MergeWords(m.word, m'.word, bs, i);
    MergeBehind(m, m', bs, total, i, k);
    SameStarts(m'.nextFree, m'.prevFree, RingRemove(FreeBlocks(bs), k + 1), k, MergeAt(bs, i)[i]);
  }

  lemma MergeBehind(m: Memory, m': Memory, bs: seq<Block>, total: int, i: nat, k: nat)
    requires i + 1 < |bs| && Tiling(bs, total) && Apart(bs) && Prevs(m.prev, bs) && |m.word| == total
    requires AbsorbEffect(m, m', bs[i].start, bs[i + 1].start, FreeBlocks(bs), k)
    requires SizePart(m.word[bs[i + 1].start]) == bs[i + 1].size
    ensures Prevs(m'.prev, MergeAt(bs, i)) && Confined(m, m', bs, bs[i].start)
  {
    assert Abuts(bs, i + 1, total);
    AfterEnd(bs, total, i + 1);
    MergePrevs(m.prev, bs, i, MergeAt(bs, i)[i]);
    MergeConfined(m, m', bs, i, k);
  }

  /** Where the block after block i starts. */
  lemma AfterEnd(bs: seq<Block>, total: int, i: nat)
    requires i < |bs| && Tiling(bs, total)
    ensures bs[Succ(i, |bs|)].start == if bs[i].End() >= total then 0 else bs[i].End()
  {
    assert Abuts(bs, i, total);
    BlocksApart(bs, total);
  }

  lemma MergeConfined(m: Memory, m': Memory, bs: seq<Block>, i: nat, k: nat)
    requires i + 1 < |bs| && |bs| > 0 && Prevs(m.prev, bs)
    requires AbsorbEffect(m, m', bs[i].start, bs[i + 1].start, FreeBlocks(bs), k)
    requires var end := bs[i + 1].start + SizePart(m.word[bs[i + 1].start]);
             bs[Succ(i + 1, |bs|)].start == if end >= |m.word| then 0 else end
    ensures Confined(m, m', bs, bs[i].start)
  {
    assert HeaderAt(bs, bs[i + 1].start) && HeaderAt(bs, bs[Succ(i + 1, |bs|)].start);
  }

  /** What next() and prev read around block i. */
  lemma Neighbours(w: seq<int>, p: seq<int>, bs: seq<Block>, total: int, i: nat)
    requires i < |bs| && Tiling(bs, total) && Words(w, bs) && Prevs(p, bs) && |w| == |p| == total
    ensures 0 <= bs[i].start < total && SizePart(w[bs[i].start]) == bs[i].size
    ensures bs[i].start == 0 <==> i == 0
    ensures i + 1 == |bs| <==> bs[i].End() >= total
    ensures i + 1 < |bs| ==> bs[i + 1].start == bs[i].End() && 0 <= bs[i].End() < total
    ensures i + 1 < |bs| ==> (FreeBit(w[bs[i].End()]) == 1 <==> bs[i + 1].free)
    ensures p[bs[i].start] == bs[Pred(i, |bs|)].start && 0 <= p[bs[i].start] < total
    ensures FreeBit(w[p[bs[i].start]]) == 1 <==> bs[Pred(i, |bs|)].free
  {
    BlocksApart(bs, total);
    HeaderWord(w, bs, total, i);
    if i + 1 < |bs| { HeaderWord(w, bs, total, i + 1); }
    HeaderWord(w, bs, total, Pred(i, |bs|));
    assert Succ(Pred(i, |bs|), |bs|) == i;
    assert Abuts(bs, i, total);
  }

  /** How many free neighbours a released block absorbs on each side. */
  function FreeBefore(bs: seq<Block>, i: nat): nat
    requires i < |bs|
  {
    if 0 < i && bs[i - 1].free then 1 else 0
  }

  function FreeAfter(bs: seq<Block>, i: nat): nat
    requires i < |bs|
  {
    if i + 1 < |bs| && bs[i + 1].free then 1 else 0
  }

  lemma RightShape(h: Heap, i: nat) returns (c: Block)
    requires i < |h.blocks|
    ensures CoalesceRight(h, i).blocks == h.blocks[..i] + [c] + h.blocks[i + 1 + FreeAfter(h.blocks, i)..]
    ensures c.start == h.blocks[i].start && c.free == h.blocks[i].free
    ensures i < |CoalesceRight(h, i).blocks| && CoalesceRight(h, i).blocks[i] == c
  {
    c := CoalesceRight(h, i).blocks[i];
  }

  lemma LeftShape(h: Heap, i: nat) returns (c: Block)
    requires i < |h.blocks| && h.blocks[i].free
    ensures CoalesceLeft(h, i).blocks == h.blocks[..i - FreeBefore(h.blocks, i)] + [c] + h.blocks[i + 1..]
    ensures c.start == h.blocks[i - FreeBefore(h.blocks, i)].start && c.free
  {
    c := CoalesceLeft(h, i).blocks[i - FreeBefore(h.blocks, i)];
  }

  lemma CoalesceShape(g: Heap, i: nat) returns (d: Block)
    requires i < |g.blocks| && g.blocks[i].free
    ensures var l, r := FreeBefore(g.blocks, i), FreeAfter(g.blocks, i);
            && CoalesceLeft(CoalesceRight(g, i), i).blocks == g.blocks[..i - l] + [d] + g.blocks[i + 1 + r..]
            && d.free && d.start == g.blocks[i - l].start
  {
    var c := RightShape(g, i);
    d := LeftShape(CoalesceRight(g, i), i);
    RightKeepsLeft(g.blocks, CoalesceRight(g, i).blocks, i, c);
  }

  lemma RightKeepsLeft(bs: seq<Block>, cs: seq<Block>, i: nat, c: Block)
    requires i < |bs| && c.start == bs[i].start && cs == bs[..i] + [c] + bs[i + 1 + FreeAfter(bs, i)..]
    ensures FreeBefore(cs, i) == FreeBefore(bs, i)
    ensures cs[..i - FreeBefore(bs, i)] == bs[..i - FreeBefore(bs, i)]
    ensures cs[i - FreeBefore(bs, i)].start == bs[i - FreeBefore(bs, i)].start
    ensures cs[i + 1..] == bs[i + 1 + FreeAfter(bs, i)..]
  {
    assert cs[..i] == bs[..i];
  }

  lemma SamePieces(bs: seq<Block>, marked: seq<Block>, cs: seq<Block>, i: nat, d: Block)
    requires i < |bs| && marked == MarkFree(bs, i)
    requires cs == marked[..i - FreeBefore(marked, i)] + [d] + marked[i + 1 + FreeAfter(marked, i)..]
    requires d.start == marked[i - FreeBefore(marked, i)].start
    ensures var l, r := FreeBefore(bs, i), FreeAfter(bs, i);
            cs == bs[..i - l] + [d] + bs[i + 1 + r..] && d.start == bs[i - l].start
  {
  }

  lemma MarkedShape(h: Heap, i: nat, marked: Heap) returns (d: Block)
    requires i < |h.blocks| && marked.blocks == MarkFree(h.blocks, i)
    ensures var l, r := FreeBefore(h.blocks, i), FreeAfter(h.blocks, i);
            && CoalesceLeft(CoalesceRight(marked, i), i).blocks == h.blocks[..i - l] + [d] + h.blocks[i + 1 + r..]
            && d.free && d.start == h.blocks[i - l].start
  {
    d := CoalesceShape(marked, i);
    SamePieces(h.blocks, marked.blocks, CoalesceLeft(CoalesceRight(marked, i), i).blocks, i, d);
  }

  /** A release replaces the block and its free neighbours by one free block. */
  lemma ReleaseShape(h: Heap, i: nat) returns (merged: Block)
    requires i < |h.blocks|
    ensures var l, r := FreeBefore(h.blocks, i), FreeAfter(h.blocks, i);
            && Release(h, i).blocks == h.blocks[..i - l] + [merged] + h.blocks[i + 1 + r..]
            && merged.free && merged.start == h.blocks[i - l].start
  {
    merged := MarkedShape(h, i, Heap(MarkFree(h.blocks, i), if h.rover == NULL then h.blocks[i].start else h.rover));
  }

  /** Releasing a live block leaves no two adjacent free blocks. */
  lemma ReleaseCoalesces(h: Heap, i: nat)
    requires i < |h.blocks| && Coalesced(h.blocks) && !h.blocks[i].free
    ensures Coalesced(Release(h, i).blocks)
  {
    var bs := h.blocks;
    var l, r := FreeBefore(bs, i), FreeAfter(bs, i);
    var merged := ReleaseShape(h, i);
    var cs := bs[..i - l] + [merged] + bs[i + 1 + r..];
    forall x, y | 0 <= x < |cs| && 0 <= y < |cs| && y == x + 1
      ensures !(cs[x].free && cs[y].free)
    {
      if y < i - l {
        assert !(bs[x].free && bs[y].free);
      } else if y == i - l {
        assert l == 1 ==> !(bs[x].free && bs[i - 1].free);
      } else if x == i - l {
        assert r == 1 ==> !(bs[i + 1].free && bs[y + l + r].free);
      } else {
        assert !(bs[x + l + r].free && bs[y + l + r].free);
      }
    }
  }
}
