/**
 salloc.c itself: the statics head (address 0 of the arena), total_size and free_list, and the
 four header words of every block, updated in place.
 */
module SallocArena {
  import opened SallocHeap
  import opened SallocMemory
  import opened Options

  class Arena {
    const rule: SplitRule
    const total: int
    // The header words, indexed by the address of the header.
    const word: array<int>        // __size_and_free, at header + 0
    const prev: array<int>        // at header + 8
    const nextFree: array<int>    // at header + 16, inside the payload of an allocated block
    const prevFree: array<int>    // at header + 24, likewise
    var freeList: int
    ghost var blocks: seq<Block>

    ghost predicate Separate() {
      && word.Length == prev.Length == nextFree.Length == prevFree.Length == total
      && word != prev && word != nextFree && word != prevFree
      && prev != nextFree && prev != prevFree && nextFree != prevFree
    }

    /** Both pointer structures and the packed words describe the same blocks. */
    ghost predicate Consistent()
      reads this, word, prev, nextFree, prevFree
    {
      Separate() && Describes(Mem(), Abs(), total)
    }

    ghost predicate Valid()
      reads this, word, prev, nextFree, prevFree
    {
      Consistent() && Coalesced(blocks)
    }

    ghost function Abs(): Heap
      reads this
    {
      Heap(blocks, freeList)
    }

    /** The heap this memory holds, if its pointer structures agree. */
    ghost function Draft(): Option<Heap>
      reads this, word, prev, nextFree, prevFree
    {
      if Consistent() then Some(Abs()) else None
    }

    /** The heap this memory holds, if it is valid. */
    ghost function View(): Option<Heap>
      reads this, word, prev, nextFree, prevFree
    {
      if Valid() then Some(Abs()) else None
    }

    ghost function Mem(): Memory
      reads this, word, prev, nextFree, prevFree
    {
      Memory(word[..], prev[..], nextFree[..], prevFree[..])
    }

    /** No reading of the size words, from head on, yields a tiling of the arena. */
    ghost predicate Corrupt()
      reads this, word
    {
      forall cs: seq<Block> :: Tiling(cs, total) ==> !Words(word[..], cs)
    }

    function Next(r: int): (n: int)
      requires 0 <= r < word.Length
      reads word
    {
      if r + SizePart(word[r]) >= total then 0 else r + SizePart(word[r])
    }

    constructor (rule: SplitRule)
      ensures Valid() && Abs() == InitialHeap(ALLOC_SIZE) && total == ALLOC_SIZE && this.rule == rule
      ensures fresh(word) && fresh(prev) && fresh(nextFree) && fresh(prevFree)
    {
      this.rule := rule;
      total := ALLOC_SIZE;
      word := new int[ALLOC_SIZE](_ => 0);
      prev := new int[ALLOC_SIZE](_ => 0);
      nextFree := new int[ALLOC_SIZE](_ => 0);
      prevFree := new int[ALLOC_SIZE](_ => 0);
      freeList := 0;
      blocks := [Block(0, ALLOC_SIZE, true)];
      new;
      SetSize(0, ALLOC_SIZE);
      SetFree(0, true);
      prev[0] := 0;
      nextFree[0] := 0;
      prevFree[0] := 0;
      InitialMemory(Mem(), total);
    }

    // ----- the header macros and the four list primitives

    method SetSize(r: int, size: int)
      requires 0 <= r < word.Length && size % 2 == 0
      modifies word
      ensures word[r] == Pack(size, FreeBit(old(word[r])) == 1) && SizePart(word[r]) == size
      ensures FreeBit(word[r]) == FreeBit(old(word[r]))
      ensures forall o | 0 <= o < word.Length && o != r :: word[o] == old(word[o])
    {
      word[r] := FreeBit(word[r]) + SizePart(size);
    }

    method SetFree(r: int, free: bool)
      requires 0 <= r < word.Length
      modifies word
      ensures word[r] == Pack(SizePart(old(word[r])), free) && SizePart(word[r]) == SizePart(old(word[r]))
      ensures forall o | 0 <= o < word.Length && o != r :: word[o] == old(word[o])
    {
      word[r] := SizePart(word[r]) + if free then 1 else 0;
    }

    method Insert(list: int, node: int)
      requires Separate() && 0 <= node < total && 0 <= Next(node)
      modifies prev
      ensures prev[..] == old(prev[..])[node := list][Next(node) := node]
    {
      prev[node] := list;
      prev[Next(node)] := node;
    }

    method ListRemove(node: int)
      requires Separate() && 0 <= node < total && 0 <= Next(node)
      modifies prev
      ensures prev[..] == old(prev[..])[Next(node) := old(prev[node])][node := NULL]
    {
      prev[Next(node)] := prev[node];
      prev[node] := NULL;
    }

    /** Splice node into the free ring after ring[k], and set its free bit. */
    method InsertFree(list: int, node: int, ghost ring: seq<Block>, ghost k: nat, ghost b: Block)
      requires Separate() && Ring(nextFree[..], prevFree[..], ring)
      requires k < |ring| && ring[k].start == list && b.start == node
      requires 0 <= node < total && !HeaderAt(ring, node)
      modifies nextFree, prevFree, word
      ensures LinkEffect(old(Mem()), Mem(), ring, RingInsert(ring, k, b), node)
    {
      ghost var m := Mem();
      RingNeighbours(m.nextFree, m.prevFree, ring, k);
      prevFree[node] := list;
      nextFree[node] := nextFree[list];
      nextFree[list] := node;
      prevFree[nextFree[node]] := node;
      SetFree(node, true);
      assert Mem().nextFree == m.nextFree[node := m.nextFree[list]][list := node];
      assert Mem().prevFree == m.prevFree[node := list][m.nextFree[list] := node];
      assert Mem().word == m.word[node := Pack(SizePart(m.word[node]), true)];
      LinkDone(m, Mem(), ring, k, b);
    }

    /** Unlink ring[k] and clear its free bit; free_list moves back or forward off the node. */
    method ListRemoveFree(node: int, combined: bool, ghost ring: seq<Block>, ghost k: nat)
      requires Separate() && Ring(nextFree[..], prevFree[..], ring)
      requires k < |ring| && ring[k].start == node && 0 <= node < total
      modifies nextFree, prevFree, word, this`freeList
      ensures UnlinkEffect(old(Mem()), Mem(), ring, RingRemove(ring, k), node)
      ensures freeList == if node != old(freeList) then old(freeList)
                          else if |ring| == 1 then NULL
                          else if combined then ring[Pred(k, |ring|)].start
                          else ring[Succ(k, |ring|)].start
    {
      ghost var m := Mem();
      RingNeighbours(m.nextFree, m.prevFree, ring, k);
      nextFree[prevFree[node]] := nextFree[node];
      prevFree[nextFree[node]] := prevFree[node];
      if node == freeList {
        if node == prevFree[node] {
          freeList := NULL;
        } else if combined {
          freeList := prevFree[node];
        } else {
          freeList := nextFree[node];
        }
      }
      prevFree[node] := NULL;
      nextFree[node] := NULL;
      SetFree(node, false);
      assert Mem().nextFree == m.nextFree[m.prevFree[node] := m.nextFree[node]][node := NULL];
      assert Mem().prevFree == m.prevFree[m.nextFree[node] := m.prevFree[node]][node := NULL];
      assert Mem().word == m.word[node := Pack(SizePart(m.word[node]), false)];
      UnlinkDone(m, Mem(), ring, k, node);
    }

    // ----- _salloc

    /** The header words of both halves of a split. */
    method SplitHeaders(curr: int, m: int, bottom: int, splitSize: int)
      requires 0 <= curr < bottom < word.Length && m % 2 == 0 && splitSize % 2 == 0
      requires SizePart(word[curr]) == PAYLOAD + m + splitSize
      modifies word
      ensures word[curr] == Pack(PAYLOAD + m, false) && word[bottom] == Pack(splitSize, true)
      ensures SizePart(word[bottom]) == splitSize
      ensures forall o | 0 <= o < word.Length && o != curr && o != bottom :: word[o] == old(word[o])
    {
      var left := SizePart(word[curr]) - splitSize;
      assert left == PAYLOAD + m;
      SetSize(bottom, splitSize);
      SetSize(curr, left);
      PackParts(splitSize, true);
      SetFree(bottom, true);
      SetFree(curr, false);
    }

    /** The writes of the else branch of _salloc, in the order of the C code. */
    method SplitWrites(curr: int, m: int, bottom: int, splitSize: int,
                       ghost ring: seq<Block>, ghost k: nat, ghost right: Block)
      requires Separate() && right.start == bottom && Splittable(Mem(), ring, k, curr, m, bottom, splitSize)
      modifies word, prev, nextFree, prevFree, this`freeList
      ensures SplitEffect(old(Mem()), Mem(), ring, RingRemove(RingInsert(ring, k, right), k), curr, PAYLOAD + m,
                          bottom, splitSize)
      ensures freeList == if curr == old(freeList) then bottom else old(freeList)
    {
      ghost var was := Mem();
      SplitHeaders(curr, m, bottom, splitSize);
      Insert(curr, bottom);
      ghost var headers := Mem();
      assert headers.word == was.word[curr := Pack(PAYLOAD + m, false)][bottom := Pack(splitSize, true)];
      InsertFree(curr, bottom, ring, k, right);
      ghost var linked := Mem();
      ListRemoveFree(curr, false, RingInsert(ring, k, right), k);
      SplitDone(was, headers, linked, Mem(), ring, k, right, curr, m, splitSize);
    }

    /** Walk the free ring from free_list to the first block with m usable bytes. */
    method FindFit(m: int, ghost ring: seq<Block>) returns (found: bool, curr: int, ghost j: nat)
      requires Separate() && Walkable(word[..], nextFree[..], prevFree[..], blocks, total, ring)
      requires ring != [] && ring[0].start == freeList
      ensures found <==> FirstFit(ring, m) < |ring|
      ensures found ==> curr == ring[FirstFit(ring, m)].start
      ensures j == FirstFit(ring, m)
    {
      found, curr, j := false, freeList, 0;
      while true
        invariant 0 <= j < |ring| && curr == ring[j].start && !found
        invariant forall i | 0 <= i < j :: ring[i].Usable() < m
        decreases |ring| - j
      {
        assert RingNode(word[..], blocks, total, ring[j]);
        RingNeighbours(nextFree[..], prevFree[..], ring, j);
        if SizePart(word[curr]) - PAYLOAD >= m {
          found := true;
          break;
        }
        curr := nextFree[curr];
        j := j + 1;
        if curr == freeList {
          break;
        }
      }
      FirstFitIs(ring, m, j);
    }

    /** Hand out a whole free block. */
    method GrantWhole(curr: int, ghost i: nat)
      requires Valid() && i < |blocks| && blocks[i].start == curr && blocks[i].free
      modifies this, word, prev, nextFree, prevFree
      ensures View() == Some(TakeHeap(old(Abs()), i))
      ensures LiveKept(old(blocks), old(Mem()), Mem())
    {
      ghost var h, m := Abs(), Mem();
      ghost var k := TakeReady(m, h, total, i);
      blocks := TakeWhole(blocks, i);
      ListRemoveFree(curr, false, FreeBlocks(h.blocks), k);
      TakeMemory(m, Mem(), h, Abs(), total, i, k);
    }

    /** Cut m payload bytes off the low end of a free block.  With a remainder smaller than a
        header the same writes corrupt the heap. */
    method GrantSplit(curr: int, m: int, ghost i: nat)
      requires Valid() && i < |blocks| && blocks[i].start == curr && blocks[i].free
      requires SMALLEST <= m <= blocks[i].Usable() && m % 2 == 0
      requires curr + PAYLOAD + m + HEADER <= total
      modifies this, word, prev, nextFree, prevFree
      ensures HEADER <= old(blocks)[i].Usable() - m ==>
                && View() == Some(SplitHeap(old(Abs()), i, m))
                && LiveKept(old(blocks), old(Mem()), Mem())
      ensures old(blocks)[i].Usable() - m < HEADER ==> Corrupt()
    {
      ghost var h, mem := Abs(), Mem();
      BlockWord(mem, h, total, i);
      var bottom := curr + PAYLOAD + m;
      var splitSize := SizePart(word[curr]) - PAYLOAD - m;
      ghost var k := SplitReady(mem, h, total, i, m, bottom, splitSize);
      ghost var ring, right := FreeBlocks(blocks), Block(bottom, splitSize, true);
      ghost var g := SplitHeap(h, i, m);
      if HEADER <= splitSize {
        blocks := g.blocks;
      }
      SplitWrites(curr, m, bottom, splitSize, ring, k, right);
      SplitOutcome(mem, Mem(), h, g, total, i, k, m, right);
      assert HEADER <= splitSize ==> Abs() == g;
    }

    /** The rest of _salloc, once the search has stopped at curr.  fault: the program would write
        a header over the header of the block being split, or outside the arena, and its header
        words stop being separate cells. */
    method Grant(curr: int, m: int, ghost b: Block) returns (r: int, fault: bool)
      requires Valid() && total < SIZE_T && 0 <= m <= b.Usable() && m % 2 == 0
      requires RingNode(word[..], blocks, total, b) && curr == b.start
      modifies this, word, prev, nextFree, prevFree
      ensures match Carve(rule, old(Abs()), m, b)
              case Null(h) => false
              case Region(h, p) => !fault && r == p && View() == Some(h) &&
                                   LiveKept(old(blocks), old(Mem()), Mem())
              case Broken => fault || Corrupt()
    {
      ghost var i := Locate(blocks, curr);
      var splitSize := SizePart(word[curr]) - PAYLOAD - m;
      CarveCases(rule, Abs(), m, b, i, splitSize);
      if !TakesSplit(rule, splitSize) {
        GrantWhole(curr, i);
      } else if m < SMALLEST || curr + PAYLOAD + m + HEADER > total {
        return NULL, true;
      } else {
        GrantSplit(curr, m, i);
      }
      return curr + PAYLOAD, false;
    }

    /** _salloc without growth. */
    method SallocSized(m: int) returns (r: int, fault: bool)
      requires Valid() && total < SIZE_T && 0 <= m && m % 2 == 0
      modifies this, word, prev, nextFree, prevFree
      ensures match Allocate(rule, old(Abs()), m)
              case Null(h) => !fault && r == NULL && View() == Some(h) && Mem() == old(Mem())
              case Region(h, p) => !fault && r == p && View() == Some(h) &&
                                   LiveKept(old(blocks), old(Mem()), Mem())
              case Broken => fault || Corrupt()
    {
      ghost var h, ring := Abs(), RingFrom(Abs());
      AllocateCases(rule, h, m, ring, FirstFit(ring, m));
      RingWalk(word[..], nextFree[..], prevFree[..], Abs(), total);
      if freeList == NULL {
        return NULL, false;
      }
      var found, curr;
      ghost var j;
      found, curr, j := FindFit(m, ring);
      if !found {
        return NULL, false;
      }
      assert RingNode(word[..], blocks, total, ring[j]);
      r, fault := Grant(curr, m, ring[j]);
    }

    /** salloc() in an arena that cannot grow: round the request, then search and carve. */
    method Salloc(n: nat) returns (r: int, fault: bool)
      requires Valid() && total < SIZE_T && n < SIZE_T
      modifies this, word, prev, nextFree, prevFree
      ensures match Allocate(rule, old(Abs()), RoundRequest(n))
              case Null(h) => !fault && r == NULL && View() == Some(h) && Mem() == old(Mem())
              case Region(h, p) => !fault && r == p && View() == Some(h) &&
                                   LiveKept(old(blocks), old(Mem()), Mem())
              case Broken => fault || Corrupt()
    {
      var size := n;
      if size < SMALLEST {
        size := SMALLEST;
      } else if size % SMALLEST != 0 {
        size := SizeT(size + size % SMALLEST);
      }
      RoundedIsEven(n);
      r, fault := SallocSized(size);
    }

    // ----- sfree

    /** The writes of one branch of coalesce(), in the order of the C code. */
    method AbsorbWrites(left: int, right: int, ghost ring: seq<Block>, ghost k: nat)
      requires Separate() && Ring(nextFree[..], prevFree[..], ring)
      requires k + 1 < |ring| && ring[k].start == left && ring[k + 1].start == right
      requires 0 <= left < total && 0 <= right < total && left != right && FreeBit(word[left]) == 1
      requires 0 <= right + SizePart(word[right])
      modifies word, prev, nextFree, prevFree, this`freeList
      ensures AbsorbEffect(old(Mem()), Mem(), left, right, ring, k)
      ensures freeList == if old(freeList) == right then left else old(freeList)
    {
      SetSize(left, SizePart(word[left]) + SizePart(word[right]));
      ListRemove(right);
      ListRemoveFree(right, true, ring, k + 1);
    }

    /** One branch of coalesce(): the left block absorbs the free block after it. */
    method Absorb(left: int, right: int, ghost i: nat)
      requires Consistent() && i + 1 < |blocks| && blocks[i].free && blocks[i + 1].free
      requires blocks[i].start == left && blocks[i + 1].start == right
      modifies this, word, prev, nextFree, prevFree
      ensures Draft() == Some(Heap(MergeAt(old(blocks), i), if old(freeList) == right then left else old(freeList)))
      ensures Confined(old(Mem()), Mem(), old(blocks), left)
    {
      ghost var h, m := Abs(), Mem();
      ghost var k := MergeReady(m, h, total, i);
      blocks := MergeAt(blocks, i);
      AbsorbWrites(left, right, FreeBlocks(h.blocks), k);
      MergeMemory(m, Mem(), h, Abs(), total, i, k);
    }

    /** The first branch: merge with the block after, when it is free and not across the end. */
    method AbsorbNext(block: int, ghost i: nat)
      requires Consistent() && i < |blocks| && blocks[i].start == block && blocks[i].free
      modifies this, word, prev, nextFree, prevFree
      ensures Draft() == Some(CoalesceRight(old(Abs()), i))
      ensures i < |blocks| && blocks[i].start == block && blocks[i].free
      ensures Confined(old(Mem()), Mem(), old(blocks), block) && Within(blocks, old(blocks), block)
    {
      Neighbours(word[..], prev[..], blocks, total, i);
      if Next(block) != 0 && FreeBit(word[Next(block)]) == 1 {
        MergeWithin(blocks, i, block);
        Absorb(block, Next(block), i);
      }
    }

    /** The second branch: merge with the block before. */
    method AbsorbPrev(block: int, ghost i: nat)
      requires Consistent() && i < |blocks| && blocks[i].start == block && blocks[i].free
      modifies this, word, prev, nextFree, prevFree
      ensures Draft() == Some(CoalesceLeft(old(Abs()), i))
      ensures Confined(old(Mem()), Mem(), old(blocks), block)
    {
      ghost var bs, m := blocks, Mem();
      Neighbours(word[..], prev[..], blocks, total, i);
      if block != 0 && FreeBit(word[prev[block]]) == 1 {
        Absorb(prev[block], block, i - 1);
        ConfinedAtHeader(m, Mem(), bs, i - 1, block);
      }
    }

    method Coalesce(block: int, ghost i: nat)
      requires Consistent() && i < |blocks| && blocks[i].start == block && blocks[i].free
      modifies this, word, prev, nextFree, prevFree
      ensures Draft() == Some(CoalesceLeft(CoalesceRight(old(Abs()), i), i))
      ensures Confined(old(Mem()), Mem(), old(blocks), block)
    {
      ghost var bs, m := blocks, Mem();
      AbsorbNext(block, i);
      ghost var cs, m' := blocks, Mem();
      AbsorbPrev(block, i);
      ConfinedTwice(m, m', Mem(), bs, cs, block);
    }

    /** The backward search of sfree: the nearest free block before this one, or the block itself. */
    method WalkBack(node: int, ghost i: nat) returns (curr: int, ghost d: nat)
      requires Valid() && i < |blocks| && blocks[i].start == node && !blocks[i].free
      ensures 0 < d <= |blocks| && UsedBack(blocks, i, d)
      ensures curr == blocks[Back(i, d, |blocks|)].start
      ensures curr == node <==> d == |blocks|
      ensures d < |blocks| ==> blocks[Back(i, d, |blocks|)].free
    {
      ghost var bs, n := blocks, |blocks|;
      BackStep(word[..], prev[..], bs, total, i, 0);
      curr, d := prev[node], 1;
      while true
        invariant 0 < d < n || d == n == 1
        invariant curr == bs[Back(i, d, n)].start && UsedBack(bs, i, d)
        decreases n - d
      {
        BackStep(word[..], prev[..], bs, total, i, if d == n then 0 else d);
        if FreeBit(word[curr]) == 1 {
          break;
        }
        curr := prev[curr];
        d := if d == n then n else d + 1;
        BackStep(word[..], prev[..], bs, total, i, if d == n then 0 else d);
        if curr == node {
          break;
        }
      }
    }

    /** The writes for a free list of this block alone. */
    method LinkSelf(node: int, ghost b: Block)
      requires Separate() && 0 <= node < total && b.start == node
      modifies word, nextFree, prevFree, this`freeList
      ensures LinkEffect(old(Mem()), Mem(), [], [b], node) && freeList == node
    {
      freeList := node;
      nextFree[node] := node;
      prevFree[node] := node;
      SetFree(node, true);
      assert Succ(0, 1) == 0;
    }

    /** No other block is free: the free list becomes this block alone. */
    method LinkAlone(node: int, ghost i: nat)
      requires Valid() && i < |blocks| && blocks[i].start == node && !blocks[i].free
      requires UsedBack(blocks, i, |blocks|)
      modifies this, word, nextFree, prevFree
      ensures Draft() == Some(Release(old(Abs()), i))
      ensures Confined(old(Mem()), Mem(), old(blocks), node)
    {
      ghost var h, m := Abs(), Mem();
      AloneReady(m, h, total, i);
      blocks := MarkFree(blocks, i);
      LinkSelf(node, blocks[i]);
      MarkMemory(m, Mem(), h, Abs(), total, i, FreeBlocks(blocks));
    }

    /** Link the block in after the nearest free block before it. */
    method LinkAfter(curr: int, node: int, ghost i: nat, ghost d: nat)
      requires Valid() && i < |blocks| && blocks[i].start == node && !blocks[i].free
      requires 0 < d < |blocks| && curr == blocks[Back(i, d, |blocks|)].start
      requires blocks[Back(i, d, |blocks|)].free && UsedBack(blocks, i, d)
      modifies this, word, nextFree, prevFree
      ensures Draft() == Some(Heap(MarkFree(old(blocks), i), old(freeList))) && old(freeList) != NULL
      ensures Confined(old(Mem()), Mem(), old(blocks), node)
    {
      ghost var h, m, b := Abs(), Mem(), blocks[i].(free := true);
      ghost var k := LinkReady(m, h, total, i, d);
      blocks := MarkFree(blocks, i);
      InsertFree(curr, node, FreeBlocks(h.blocks), k, b);
      InsertedRing(nextFree[..], prevFree[..], h.blocks, i, d, k);
      MarkMemory(m, Mem(), h, Abs(), total, i, RingInsert(FreeBlocks(h.blocks), k, b));
    }

    /** The body of sfree, from the block header on. */
    method FreeBlock(node: int, ghost i: nat)
      requires Valid() && i < |blocks| && blocks[i].start == node && !blocks[i].free
      modifies this, word, prev, nextFree, prevFree
      ensures Draft() == Some(Release(old(Abs()), i))
      ensures Confined(old(Mem()), Mem(), old(blocks), node)
    {
      ghost var bs, m := blocks, Mem();
      var curr;
      ghost var d;
      curr, d := WalkBack(node, i);
      if curr == node {
        LinkAlone(node, i);
      } else {
        LinkAfter(curr, node, i, d);
        MarkWithin(bs, i);
        ghost var m' := Mem();
        Coalesce(node, i);
        ConfinedTwice(m, m', Mem(), bs, MarkFree(bs, i), node);
      }
    }

    /** sfree: only for a pointer salloc returned that was not freed since. */
    method Sfree(ptr: int)
      requires Valid()
      requires var i := Locate(blocks, ptr - PAYLOAD); i < |blocks| && !blocks[i].free
      modifies this, word, prev, nextFree, prevFree
      ensures View() == Some(Release(old(Abs()), old(Locate(blocks, ptr - PAYLOAD))))
      ensures OthersKept(old(blocks), old(blocks[Locate(blocks, ptr - PAYLOAD)]), old(Mem()), Mem())
    {
      ghost var h, m := Abs(), Mem();
      ghost var i := Locate(blocks, ptr - PAYLOAD);
      assert blocks[i].Sound();
      ReleaseCoalesces(h, i);
      FreeBlock(ptr - PAYLOAD, i);
      AllKept(m, Mem(), h.blocks, total, ptr - PAYLOAD, i);
    }

    // ----- the callers

    /** A caller writes into its own payload: whatever the bytes, the allocator's structures stand. */
    method CallerWrites(c: Cell, v: int, ghost b: Block)
      requires Valid() && b in blocks && c.Writable(b)
      modifies word, prev, nextFree, prevFree
      ensures View() == Some(old(Abs()))
      ensures c.base < total && Mem() == old(Mem()).Set(c, v)
    {
      WritableMisses(blocks, total, b, c);
      match c.field {
        case Size =>
          WordsMiss(word[..], blocks, c.base, v);
          word[c.base] := v;
        case Prev =>
          PrevsMiss(prev[..], blocks, c.base, v);
          prev[c.base] := v;
        case NextFree =>
          RingMiss(nextFree[..], prevFree[..], FreeBlocks(blocks), c.base, v);
          nextFree[c.base] := v;
        case PrevFree =>
          RingMiss(nextFree[..], prevFree[..], FreeBlocks(blocks), c.base, v);
          prevFree[c.base] := v;
      }
    }
  }
}
