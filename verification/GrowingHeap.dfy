/**
 The growing heap of kernel/disabled/memory/heap.c.  An expansion starts a new block at the old end
 and rounds the new end up to a page, so up to 4095 bytes after the block belong to no block, ever.

 `list.mem` is the memory that the heap sees, one byte for every virtual address.  `Backed` says that
 physical memory really provides that: every byte of the heap has a byte of its own.
 */
module GrowingHeap {
  import opened Memory
  import opened Options
  import opened BlockList
  import opened LiveHeap
  import opened Sets
  import opened Pmm
  import opened PageTables
  import P = Paging

  const START: int := 0x40_0000
  const INITIAL_SIZE: int := 0x10_0000

  /** The next page boundary, on 32 bits. */
  function AlignPage(a: word): word {
    if a % PAGE_SIZE != 0 then Wrap(a / PAGE_SIZE * PAGE_SIZE + PAGE_SIZE) else a
  }

  /** The end of the heap after an expansion for `size` bytes. */
  function NewEnd(end: word, size: word): word {
    AlignPage(Wrap(end + size + HEADER))
  }

  /** The new block fits below the new end exactly while that end does not wrap. */
  lemma ExpansionExact(end: word, size: word)
    requires end % PAGE_SIZE == 0
    ensures end + 12 + size <= NewEnd(end, size) <==> end + size + 12 + 0x1000 <= 0x1_0000_0000
    ensures end + size + 12 + 0x1000 <= 0x1_0000_0000 ==>
              && end + size + 12 <= NewEnd(end, size) < end + size + 12 + 0x1000
              && NewEnd(end, size) % 0x1000 == 0
  {
    var a := end + size + HEADER;
    if a < WORD_LIMIT {
      assert Wrap(a) == a;
      if a + PAGE_SIZE > WORD_LIMIT { assert a / PAGE_SIZE * PAGE_SIZE + PAGE_SIZE == WORD_LIMIT; }
    }
  }

  // ---- Physical memory behind the heap ----

  /** Mapping more pages behind an owned range in new frames keeps all of it owned. */
  lemma OwnedExtended(s: Pages, s': Pages, lo: int, end: int, hi: int)
    requires |s.tables| == |s.dir| == |s'.tables| == |s'.dir| == ENTRIES
    requires 0 in s.used && Owned(s, lo, end, {0}) && Extends(s, s') && Owned(s', end, hi, s.used)
    requires OutsideKept(s, s', end, hi)
    ensures Owned(s', lo, hi, {0})
  {
    hide Translate, TableIndex;
    forall v: word | lo <= v < hi
      ensures s'.tables[TableIndex(v)] != 0 && InOwnFrame(s', Translate(s'.dir, s'.mem, v), {0})
    {
      if v < end { assert InOwnFrame(s, Translate(s.dir, s.mem, v), {0}); }
    }
    forall v: word, w: word | lo <= v < w < hi
      ensures Translate(s'.dir, s'.mem, v) != Translate(s'.dir, s'.mem, w)
    {
      if v < end {
        assert s.tables[TableIndex(v)] != 0 && InOwnFrame(s, Translate(s.dir, s.mem, v), {0});
        if w < end {
          assert s.tables[TableIndex(w)] != 0;
        } else {
          assert InOwnFrame(s', Translate(s'.dir, s'.mem, w), s.used);
        }
      }
    }
  }

  lemma SpoiledHeap(s: Pages, lo: int, end: int, hi: int, before: set<int>)
    requires |s.tables| == |s.dir| == ENTRIES && lo <= end && 0 in before && Spoiled(s, end, hi, before)
    ensures !Owned(s, lo, hi, {0})
  {
    hide Translate, TableIndex;
    var v: word :| end <= v < hi && (s.tables[TableIndex(v)] == 0 || Translate(s.dir, s.mem, v) == Some(0));
    assert s.tables[TableIndex(v)] == 0 || !InOwnFrame(s, Translate(s.dir, s.mem, v), {0});
  }

  /**
   Every byte of the heap up to `end` has a table and a byte of physical memory to itself: no frame 0, no
   page table.
   */
  ghost predicate BackedTo(paging: P.Paging, end: int)
    reads paging, paging.pmm, paging.pmm.bitmap, paging.phys, paging.tables, paging.tablesPhysical
  {
    paging.Sound() && 0 in paging.pmm.Used() && Owned(paging.State(), START, end, {0})
  }

  /** A backed heap is memory: a store through the table walk changes the byte that it names, and no other. */
  lemma BackedStore(paging: P.Paging, end: int, v: word, b: byte)
    requires BackedTo(paging, end) && START <= v < end <= WORD_LIMIT
    ensures var s := paging.State();
      && Inside(s) && paging.Walk(v).Some? && 0 <= paging.Walk(v).value / 4 < paging.phys.Length
      && var s' := s.(mem := ByteStored(s.mem, paging.Walk(v).value, b));
         && Owned(s', START, end, {0}) && Inside(s')
         && Seen(s', START, end, {0}) == Seen(s, START, end, {0})[v - START := b]
  {
    hide Translate, Owned, UsedSet, Wired, Seen, ByteStored;
    var s := paging.State();
    UsedBounded(paging.pmm.bitmap[..], paging.pmm.totalBlocks);
    UsedInside(s);
    StoreSeen(s, START, end, {0}, v, b);
  }

  lemma UsedInside(s: Pages)
    requires s.used <= Range(0, s.total) && s.total * ENTRIES <= |s.mem|
    ensures Inside(s)
  {
    assert forall f :: f in s.used ==> f in Range(0, s.total);
  }

  /** The free frames are enough to map `end..hi`. */
  ghost predicate EnoughFrames(paging: P.Paging, end: int, hi: int)
    requires paging.Sound() && end <= hi
    reads paging, paging.pmm, paging.pmm.bitmap, paging.phys, paging.tables, paging.tablesPhysical
  {
    paging.pmm.usedBlocks + FramesFor(paging.tables[..], end, (hi - end) / PAGE_SIZE) <= paging.pmm.totalBlocks
  }

  /** The mapping loop: the heap stays backed exactly while the frames last. */
  method MapHeap(paging: P.Paging, end: word, hi: word)
    requires paging.Sound() && START <= end <= hi && end % PAGE_SIZE == hi % PAGE_SIZE == 0
    modifies paging.pmm, paging.pmm.bitmap, paging.phys, paging.tables, paging.tablesPhysical
    ensures paging.Sound()
    ensures old(BackedTo(paging, end)) ==> (BackedTo(paging, hi) <==> old(EnoughFrames(paging, end, hi)))
  {
    hide Wired, Whole, Translate, Owned, Spoiled, UsedSet, FramesFor, Extends, OutsideKept;
    ghost var s, n := paging.State(), (hi - end) / PAGE_SIZE;
    assert end + PAGE_SIZE * n == hi;
    paging.MapRange(end, (hi - end) / PAGE_SIZE);
    ghost var s' := paging.State();
    if old(BackedTo(paging, end)) {
      if old(EnoughFrames(paging, end, hi)) {
        OwnedExtended(s, s', START, end, hi);
        StillUsed(s, s');
      } else {
        SpoiledHeap(s', START, end, hi, s.used);
      }
    }
  }

  // ---- A block at the end ----

  lemma AppendOrdered(bs: seq<Block>, b: Block, lo: int, end: int, hi: int)
    requires Ordered(bs, lo, end) && lo <= end <= b.addr && b.End() <= hi
    ensures Ordered(bs + [b], lo, hi)
  {
  }

  lemma AppendNeighbours(bs: seq<Block>, b: Block)
    requires NoFreeNeighbours(bs) && !b.free
    ensures NoFreeNeighbours(bs + [b])
  {
  }

  lemma AppendStored(m: seq<byte>, m': seq<byte>, bs: seq<Block>, b: Block, lo: int, end: int)
    requires bs != [] && Ordered(bs, lo, end) && Stored(m, bs) && end <= b.addr
    requires HeaderAt(m', b, 0)
    requires HeaderAt(m', bs[|bs| - 1], b.addr)
    requires SameOutside(m, m', bs[|bs| - 1].addr, b.End())
    ensures Stored(m', bs + [b])
  {
    hide HeaderAt, SameOutside;
    var r := bs + [b];
    var l := |bs| - 1;
    forall i | 0 <= i < |r| ensures HeaderAt(m', r[i], Next(r, i)) {
      if i < l {
        assert bs[i].End() <= bs[l].addr;
        HeaderKept(m, m', bs[l].addr, b.End(), bs[i], Next(bs, i));
      }
    }
  }

  /** The header of the new block, behind the last one. */
  method LinkBlock(list: BlockList, last: word, block: word, size: word, ghost end: nat, ghost hi: nat)
    requires START <= end && list.Valid(START, end) && NoFreeNeighbours(list.blocks)
    requires last == list.blocks[|list.blocks| - 1].addr
    requires end <= block && block + HEADER + size <= hi <= list.mem.Length && hi <= WORD_LIMIT
    modifies list, list.mem
    ensures list.Valid(START, hi) && NoFreeNeighbours(list.blocks)
    ensures list.blocks == old(list.blocks) + [Block(block, size, false)]
    ensures Footprint(list.blocks) == old(Footprint(list.blocks)) + size + HEADER
    ensures Undisturbed(old(list.mem[..]), list.mem[..], old(Live(list.blocks)), START, hi)
  {
    hide Word, Ordered, NoFreeNeighbours, Live, Undisturbed, Stored, Footprint;
    ghost var m, bs := list.mem[..], list.blocks;
    HeaderOf(m, bs, |bs| - 1, START, end);
    ghost var b := Block(block, size, false);
    StoreHeader(list.mem, Block(block, size, false), 0);
    if last != 0 {
      StoreWord(list.mem, last + 8, block);
    }
    list.blocks := bs + [b];
    Appended(m, list.mem[..], bs, b, START, end, hi);
  }

  lemma Appended(m: seq<byte>, m': seq<byte>, bs: seq<Block>, b: Block, lo: int, end: int, hi: int)
    requires bs != [] && Ordered(bs, lo, end) && Stored(m, bs) && lo <= end <= b.addr && b.End() <= hi
    requires NoFreeNeighbours(bs) && !b.free && |m| == |m'|
    requires HeaderAt(m', b, 0) && HeaderAt(m', bs[|bs| - 1], b.addr)
    requires var l := bs[|bs| - 1].addr;
      forall k :: 0 <= k < |m| && !(l + 8 <= k < l + HEADER || b.addr <= k < b.End()) ==> m'[k] == m[k]
    ensures Ordered(bs + [b], lo, hi) && Stored(m', bs + [b]) && NoFreeNeighbours(bs + [b])
    ensures Footprint(bs + [b]) == Footprint(bs) + b.size + HEADER
    ensures Undisturbed(m, m', Live(bs), lo, hi)
  {
    hide Ordered, Stored, NoFreeNeighbours, HeaderAt, Footprint, Undisturbed, Live;
    LastInside(bs, lo, end);
    AppendStored(m, m', bs, b, lo, end);
    AppendOrdered(bs, b, lo, end, hi);
    AppendNeighbours(bs, b);
    FootprintConcat(bs, [b]);
    Footprint1(b);
    AppendUndisturbed(m, m', bs, b, lo, end, hi);
  }

  lemma LastInside(bs: seq<Block>, lo: int, end: int)
    requires bs != [] && Ordered(bs, lo, end)
    ensures bs[|bs| - 1].End() <= end
  {
  }

  class GrowingHeap {
    const list: BlockList
    const paging: P.Paging
    var heapEnd: word
    ghost var expansions: nat

    /** The bytes of the heap that no block covers. */
    ghost function Waste(): int
      reads this, list
    {
      heapEnd - START - Footprint(list.blocks)
    }

    /** The page tables are not part of the memory that the heap sees. */
    ghost predicate Apart()
      reads this
    {
      && list.mem as object != paging.pmm.bitmap as object
      && list.mem as object !in {paging.phys as object, paging.tables as object, paging.tablesPhysical as object}
    }

    ghost predicate Valid()
      reads this, list, list.mem, paging, paging.pmm, paging.pmm.bitmap
      reads paging.phys, paging.tables, paging.tablesPhysical
    {
      && list.mem.Length == WORD_LIMIT && Apart() && paging.Sound()
      && START <= heapEnd && heapEnd % PAGE_SIZE == 0
      && list.Valid(START, heapEnd)
      && NoFreeNeighbours(list.blocks)
      && 0 <= Waste() <= (PAGE_SIZE - 1) * expansions
    }

    ghost predicate Backed()
      reads this, paging, paging.pmm, paging.pmm.bitmap, paging.phys, paging.tables, paging.tablesPhysical
    {
      BackedTo(paging, heapEnd)
    }

    /** heap_init, over the 32-bit virtual address space. */
    constructor (mem: array<byte>, paging: P.Paging)
      requires mem.Length == WORD_LIMIT && paging.Sound() && mem as object != paging.pmm.bitmap as object
      requires mem as object !in {paging.phys as object, paging.tables as object, paging.tablesPhysical as object}
      modifies mem, paging.pmm, paging.pmm.bitmap, paging.phys, paging.tables, paging.tablesPhysical
      ensures Valid() && list.mem == mem && fresh(list) && this.paging == paging
      ensures expansions == 0 && heapEnd == 0x50_0000
      ensures list.blocks == [Block(0x40_0000, 0xF_FFF4, true)]
      ensures 0 in old(paging.pmm.Used()) ==>
                (Backed() <==> old(EnoughFrames(paging, START, START + INITIAL_SIZE)))
    {
      hide Wired, Whole, Translate, Owned, UsedSet, EnoughFrames;
      OwnedNothing(paging.State(), START);
      MapHeap(paging, START, START + INITIAL_SIZE);
      this.paging := paging;
      heapEnd := START + INITIAL_SIZE;
      expansions := 0;
      list := new BlockList(mem, START, START + INITIAL_SIZE);
      new;
      Footprint1(Block(START, INITIAL_SIZE - HEADER, true));
    }

    /** The heap grows by a used block at its old end; `last` is the last block of the list. */
    method ExpandHeap(last: word, size: word) returns (block: word)
      requires Valid()
      requires last == list.blocks[|list.blocks| - 1].addr
      requires heapEnd + size + 12 + 0x1000 <= 0x1_0000_0000
      modifies this, list, list.mem
      modifies paging.pmm, paging.pmm.bitmap, paging.phys, paging.tables, paging.tablesPhysical
      ensures Valid()
      ensures block == old(heapEnd) && heapEnd == NewEnd(old(heapEnd), size)
      ensures list.blocks == old(list.blocks) + [Block(block, size, false)]
      ensures expansions == old(expansions) + 1
      ensures old(Waste()) <= Waste() < old(Waste()) + 0x1000
      ensures Undisturbed(old(list.mem[..]), list.mem[..], old(Live(list.blocks)), START, heapEnd)
      ensures old(Backed()) ==> (Backed() <==> old(EnoughFrames(paging, heapEnd, NewEnd(heapEnd, size))))
    {
      hide Ordered, NoFreeNeighbours, Live, Undisturbed, Stored, Footprint, BackedTo, EnoughFrames, UsedSet, Wired;
      hide Whole, NewEnd;
      ghost var end := heapEnd;
      ExpansionExact(heapEnd, size);
      block := heapEnd;
      MapHeap(paging, heapEnd, NewEnd(heapEnd, size));
      heapEnd := NewEnd(heapEnd, size);
      LinkBlock(list, last, block, size, end, heapEnd);
      expansions := expansions + 1;
    }

    /** A free block, found by the first-fit walk, is taken and split. */
    method TakeBlock(block: word, size: word, ghost k: nat)
      requires Valid() && k < |list.blocks| && block == list.blocks[k].addr
      requires list.blocks[k].free && size <= list.blocks[k].size
      modifies list, list.mem
      ensures Valid() && list.blocks == Carve(old(list.blocks), k, size, 0)
      ensures Waste() == old(Waste()) && (Backed() <==> old(Backed()))
      ensures Undisturbed(old(list.mem[..]), list.mem[..], old(Live(list.blocks)), START, heapEnd)
    {
      hide NoFreeNeighbours, Live, Undisturbed, Footprint, Carve, Wired, Whole, UsedSet, Owned;
      ghost var bs := list.blocks;
      list.Claim(block, size, 0, k, START, heapEnd);
      CarveNeighbours(bs, k, size, 0);
      CarveFootprint(bs, k, size, 0);
    }

    method Kmalloc(size: word) returns (p: word)
      requires Valid()
      requires size > 0 && FirstFit(list.blocks, size) == |list.blocks| ==>
                 heapEnd + size + 12 + 0x1000 <= 0x1_0000_0000
      modifies this, list, list.mem
      modifies paging.pmm, paging.pmm.bitmap, paging.phys, paging.tables, paging.tablesPhysical
      ensures Valid()
      ensures Undisturbed(old(list.mem[..]), list.mem[..], old(Live(list.blocks)), START, heapEnd)
      ensures size == 0 ==> p == 0 && list.blocks == old(list.blocks) && heapEnd == old(heapEnd)
      ensures size > 0 ==>
                && p != 0 && p !in Payloads(old(Live(list.blocks)))
                && exists b :: b in Live(list.blocks) && b.addr + 12 == p && size <= b.size <= size + 12
                               && Live(list.blocks) == old(Live(list.blocks)) + {b}
      ensures var expanded := size > 0 && old(FirstFit(list.blocks, size) == |list.blocks|);
        if expanded
        then expansions == old(expansions) + 1 && old(Waste()) <= Waste() < old(Waste()) + 0x1000
             && p == old(heapEnd) + 12 && heapEnd == NewEnd(old(heapEnd), size)
             && list.blocks == old(list.blocks) + [Block(old(heapEnd), size, false)]
             && (old(Backed()) ==> (Backed() <==> old(EnoughFrames(paging, heapEnd, NewEnd(heapEnd, size)))))
        else expansions == old(expansions) && Waste() == old(Waste()) && heapEnd == old(heapEnd)
             && paging.State() == old(paging.State()) && (Backed() <==> old(Backed()))
      ensures size > 0 && old(FirstFit(list.blocks, size) < |list.blocks|) ==>
                list.blocks == Carve(old(list.blocks), old(FirstFit(list.blocks, size)), size, 0)
    {
      hide Ordered, Stored, FirstFit, NoFreeNeighbours, Live, Undisturbed, Footprint, Carve;
      hide Payloads, BackedTo, EnoughFrames, UsedSet, Wired, Whole, NewEnd;
      p := 0;
      if size == 0 {
        SameMemory(list.mem[..], Live(list.blocks), START, heapEnd);
        return;
      }
      ghost var bs, end := list.blocks, heapEnd;
      var block, last, k := list.FindFit(size, START, heapEnd);
      if block == 0 {
        block := ExpandHeap(last, size);
        AppendLive(bs, Block(block, size, false), START, end);
      } else {
        TakeBlock(block, size, k);
        CarveLive(bs, k, size, START, end);
      }
      p := block + HEADER;
    }

    method Kfree(p: word)
      requires Valid()
      requires p == 0 || p in Payloads(Live(list.blocks))
      modifies list, list.mem
      ensures Valid()
      ensures Live(list.blocks) == Without(old(Live(list.blocks)), p)
      ensures list.blocks == if p == 0 then old(list.blocks)
              else Release(old(list.blocks), old(IndexOf(list.blocks, p - HEADER)))
      ensures Waste() == old(Waste()) && (Backed() <==> old(Backed()))
      ensures Undisturbed(old(list.mem[..]), list.mem[..], Live(list.blocks), START, heapEnd)
    {
      if p == 0 {
        return;
      }
      ghost var bs := list.blocks;
      ghost var k := PayloadIndex(bs, p, START, heapEnd);
      ReleaseFacts(bs, k, START, heapEnd);
      ReleaseNeighbours(bs, k);
      ReleaseFootprint(bs, k);
      list.Free(p - HEADER, k, START, heapEnd);
    }
  }

  lemma OwnedNothing(s: Pages, lo: int)
    requires |s.tables| == |s.dir| == ENTRIES
    ensures Owned(s, lo, lo, {0})
  {
  }

  lemma StillUsed(s: Pages, s': Pages)
    requires |s.tables| == |s'.tables| == ENTRIES && Extends(s, s') && 0 in s.used
    ensures 0 in s'.used
  {
  }

  lemma AppendUndisturbed(m: seq<byte>, m': seq<byte>, bs: seq<Block>, b: Block, lo: int, end: int, hi: int)
    requires bs != [] && Ordered(bs, lo, end) && lo <= end <= b.addr && b.End() <= hi
    requires |m| == |m'|
    requires var l := bs[|bs| - 1].addr;
      forall k :: 0 <= k < |m| && !(l + 8 <= k < l + HEADER || b.addr <= k < b.End()) ==> m'[k] == m[k]
    ensures Undisturbed(m, m', Live(bs), lo, hi)
  {
    var l := |bs| - 1;
    forall c | c in Live(bs) ensures c.End() <= end && (c.End() <= bs[l].addr || c == bs[l]) {
      var i :| 0 <= i < |bs| && bs[i] == c;
      assert i < l ==> bs[i].End() <= bs[l].addr;
    }
  }

  lemma AppendLive(bs: seq<Block>, b: Block, lo: int, end: int)
    requires Ordered(bs, lo, end) && end <= b.addr && !b.free
    ensures Live(bs + [b]) == Live(bs) + {b} && b.addr + HEADER !in Payloads(Live(bs))
    ensures b in Live(bs + [b])
  {
  }

  lemma CarveLive(bs: seq<Block>, k: nat, need: nat, lo: int, end: int)
    requires Ordered(bs, lo, end) && k < |bs| && bs[k].free && need <= bs[k].size
    ensures bs[k].addr + HEADER <= end && bs[k].addr + HEADER !in Payloads(Live(bs))
    ensures var r := Carve(bs, k, need, 0);
      exists b :: b in Live(r) && b.addr == bs[k].addr && need <= b.size <= need + HEADER && Live(r) == Live(bs) + {b}
  {
    hide Carve;
    CarveFacts(bs, k, need, 0, lo, end);
    var b := Carve(bs, k, need, 0)[k];
    assert b in {b};
    forall c | c in Live(bs) ensures c.addr != bs[k].addr {
      var i :| 0 <= i < |bs| && bs[i] == c;
      assert i < k ==> bs[i].End() <= bs[k].addr;
      assert k < i ==> bs[k].End() <= bs[i].addr;
    }
  }

  lemma PayloadIndex(bs: seq<Block>, p: int, lo: int, end: int) returns (k: nat)
    requires Ordered(bs, lo, end) && p in Payloads(Live(bs))
    ensures k < |bs| && bs[k].addr + HEADER == p && !bs[k].free
    ensures Without(Live(bs), p) == Live(bs) - {bs[k]} && k == IndexOf(bs, p - HEADER)
  {
    var b :| b in Live(bs) && b.addr + HEADER == p;
    k :| 0 <= k < |bs| && bs[k] == b;
    forall c | c in Live(bs) && c.addr + HEADER == p ensures c == b {
      var i :| 0 <= i < |bs| && bs[i] == c;
      SameAddress(bs, i, k, lo, end);
    }
    SameAddress(bs, IndexOf(bs, p - HEADER), k, lo, end);
  }

  /** Merging across a gap: the merged block stops short of its old end by the gap, so it stays in bounds. */
  lemma MergeAcrossGap(bs: seq<Block>, k: nat, lo: int, hi: int)
    requires k + 1 < |bs| && Ordered(bs, lo, hi) && bs[k].free && bs[k + 1].free
    ensures var gap := bs[k + 1].addr - bs[k].End();
      Merge(bs, k)[k].End() == bs[k + 1].End() - gap && gap >= 0 && Ordered(Merge(bs, k), lo, hi)
  {
    MergeFacts(bs, k, lo, hi);
  }
}
