/**
 The first-fit kernel heap of kernel/heap.c.

 `Heap` is the code: it works on the headers inside memory.  The simple form of its state is the
 block sequence `list.blocks`, and below that the set of live blocks alone: `Canonical` shows that
 the live set determines the whole heap, so every call can be read as an operation on live sets.
 */
module LiveHeap {
  import opened Memory
  import opened BlockList
  import opened Sets

  const HEAP_START: int := 0x10_0000
  const HEAP_SIZE: int := 0x10_0000
  const HEAP_END: int := HEAP_START + HEAP_SIZE
  const SLACK: int := 16
  /** The largest request whose rounding does not wrap. */
  const MAX_REQUEST: int := 0xFFFF_FFFC

  /** `(size + 3) & ~3` on a 32-bit `size_t`. */
  function Align4(n: word): word {
    (n + 3) % WORD_LIMIT / 4 * 4
  }

  /** The least multiple of 4 that is large enough, except that the last three sizes wrap to 0. */
  lemma AlignExact(n: word)
    ensures Align4(n) % 4 == 0
    ensures if n <= 0xFFFF_FFFC then n <= Align4(n) < n + 4 else Align4(n) == 0
  {
    assert n > MAX_REQUEST ==> (n + 3) % WORD_LIMIT == n + 3 - WORD_LIMIT;
  }

  // ---- The invariant ----

  /** The blocks fill `lo..hi` without gaps. */
  ghost predicate Tiles(bs: seq<Block>, lo: int, hi: int) {
    && bs != [] && bs[0].addr == lo && bs[|bs| - 1].End() == hi
    && forall i, j :: 0 <= i < j < |bs| && j == i + 1 ==> bs[i].End() == bs[j].addr
  }

  ghost predicate Aligned(bs: seq<Block>) {
    forall i :: 0 <= i < |bs| ==> bs[i].size % 4 == 0
  }

  ghost predicate WellFormed(bs: seq<Block>) {
    && Ordered(bs, HEAP_START, HEAP_END)
    && Tiles(bs, HEAP_START, HEAP_END)
    && NoFreeNeighbours(bs)
    && Aligned(bs)
  }

  /** The heap that `heap_init` builds. */
  ghost const EMPTY_HEAP: seq<Block> := [Block(HEAP_START, HEAP_SIZE - HEADER, true)]

  lemma SpliceTiles(bs: seq<Block>, k: nat, j: nat, mid: seq<Block>, lo: int, hi: int)
    requires k < j <= |bs| && Tiles(bs, lo, hi) && Tiles(mid, bs[k].addr, bs[j - 1].End())
    ensures Tiles(Splice(bs, k, j, mid), lo, hi)
  {
    var r := Splice(bs, k, j, mid);
    forall i, i' | 0 <= i < i' < |r| && i' == i + 1 ensures r[i].End() == r[i'].addr {
      if i' < k {
        assert bs[i].End() == bs[i'].addr;
      } else if i' == k {
        assert bs[i].End() == bs[k].addr;
      } else if k + |mid| <= i' {
        assert bs[i' - k - |mid| + j - 1].End() == bs[i' - k - |mid| + j].addr || i' == k + |mid|;
        assert j < |bs| ==> bs[j - 1].End() == bs[j].addr;
      }
    }
  }

  lemma CarvedTiles(b: Block, need: nat)
    requires need <= b.size && need % 4 == 0 && b.size % 4 == 0
    ensures var mid := Carved(b, need, SLACK); Tiles(mid, b.addr, b.End()) && Aligned(mid)
  {
  }

  lemma CarveTiles(bs: seq<Block>, k: nat, need: nat)
    requires k < |bs| && need <= bs[k].size && need % 4 == 0
    requires Tiles(bs, HEAP_START, HEAP_END) && Aligned(bs)
    ensures Tiles(Carve(bs, k, need, SLACK), HEAP_START, HEAP_END)
    ensures Aligned(Carve(bs, k, need, SLACK))
  {
    hide Carved, Tiles;
    CarvedTiles(bs[k], need);
    SpliceTiles(bs, k, k + 1, Carved(bs[k], need, SLACK), HEAP_START, HEAP_END);
  }

  lemma CarveWellFormed(bs: seq<Block>, k: nat, need: nat)
    requires WellFormed(bs) && k < |bs| && bs[k].free && need <= bs[k].size && need % 4 == 0
    ensures WellFormed(Carve(bs, k, need, SLACK))
  {
    hide Carve, Ordered, NoFreeNeighbours, Tiles, Aligned;
    CarveFacts(bs, k, need, SLACK, HEAP_START, HEAP_END);
    CarveNeighbours(bs, k, need, SLACK);
    CarveTiles(bs, k, need);
  }

  lemma MergeTiles(bs: seq<Block>, k: nat)
    requires k + 1 < |bs| && Tiles(bs, HEAP_START, HEAP_END) && Aligned(bs)
    ensures Tiles(Merge(bs, k), HEAP_START, HEAP_END) && Aligned(Merge(bs, k))
  {
    assert bs[k].End() == bs[k + 1].addr;
    var merged := Block(bs[k].addr, bs[k].size + HEADER + bs[k + 1].size, bs[k].free);
    SpliceTiles(bs, k, k + 2, [merged], HEAP_START, HEAP_END);
  }

  lemma MarkTiles(bs: seq<Block>, k: nat)
    requires k < |bs| && Tiles(bs, HEAP_START, HEAP_END) && Aligned(bs)
    ensures var r := bs[k := bs[k].(free := true)]; Tiles(r, HEAP_START, HEAP_END) && Aligned(r)
  {
  }

  lemma ReleaseTiles(bs: seq<Block>, k: nat)
    requires k < |bs| && Tiles(bs, HEAP_START, HEAP_END) && Aligned(bs)
    ensures Tiles(Release(bs, k), HEAP_START, HEAP_END) && Aligned(Release(bs, k))
  {
    hide Tiles, Aligned;
    var bs2 := bs[k := bs[k].(free := true)];
    MarkTiles(bs, k);
    if k + 1 < |bs| && bs[k + 1].free {
      MergeTiles(bs2, k);
      bs2 := Merge(bs2, k);
    }
    if 0 < k && bs[k - 1].free {
      MergeTiles(bs2, k - 1);
    }
  }

  lemma ReleaseWellFormed(bs: seq<Block>, k: nat)
    requires WellFormed(bs) && k < |bs| && !bs[k].free
    ensures WellFormed(Release(bs, k))
  {
    hide Ordered, NoFreeNeighbours, Tiles, Aligned;
    ReleaseFacts(bs, k, HEAP_START, HEAP_END);
    ReleaseNeighbours(bs, k);
    ReleaseTiles(bs, k);
  }

  // ---- The live set alone ----

  /** A header and `need` payload bytes can be placed at `a` without touching a live block. */
  ghost predicate Fits(live: set<Block>, a: int, need: int) {
    && HEAP_START <= a && a + HEADER + need <= HEAP_END
    && forall b :: b in live ==> b.End() <= a || a + HEADER + need <= b.addr
  }

  ghost predicate Room(live: set<Block>, need: int) {
    exists a :: Fits(live, a, need)
  }

  /** The block whose extent contains the address `a`. */
  lemma BlockContaining(bs: seq<Block>, a: int) returns (i: nat)
    requires WellFormed(bs) && HEAP_START <= a < HEAP_END
    ensures i < |bs| && bs[i].addr <= a < bs[i].End()
  {
    i := 0;
    while bs[i].End() <= a
      invariant i < |bs| && bs[i].addr <= a
      decreases |bs| - i
    {
      assert bs[i].End() == bs[i + 1].addr;
      i := i + 1;
    }
  }

  /** Every gap between live blocks that is large enough lies inside one free block. */
  lemma FitInFreeBlock(bs: seq<Block>, a: int, need: nat) returns (i: nat)
    requires WellFormed(bs) && Fits(Live(bs), a, need)
    ensures i < |bs| && bs[i].free && need <= bs[i].size && bs[i].addr <= a
  {
    i := BlockContaining(bs, a);
    if i + 1 < |bs| {
      assert !bs[i + 1].free && bs[i].End() == bs[i + 1].addr;
      assert bs[i + 1] in Live(bs);
    }
  }

  lemma FreeBlockFits(bs: seq<Block>, k: nat, need: nat)
    requires WellFormed(bs) && k < |bs| && bs[k].free && need <= bs[k].size
    ensures Fits(Live(bs), bs[k].addr, need)
  {
    forall b | b in Live(bs) ensures b.End() <= bs[k].addr || bs[k].addr + HEADER + need <= b.addr {
      var i :| 0 <= i < |bs| && bs[i] == b;
      if i < k { assert bs[i].End() <= bs[k].addr; } else { assert bs[k].End() <= bs[i].addr; }
    }
  }

  /** First fit finds a block exactly when the live set leaves room, and then the lowest place. */
  lemma FirstFitExact(bs: seq<Block>, need: nat)
    requires WellFormed(bs)
    ensures var k := FirstFit(bs, need);
      && (k == |bs| <==> !Room(Live(bs), need))
      && (k < |bs| ==> Fits(Live(bs), bs[k].addr, need) && forall a :: Fits(Live(bs), a, need) ==> bs[k].addr <= a)
  {
    var k := FirstFit(bs, need);
    if k < |bs| {
      FreeBlockFits(bs, k, need);
    }
    forall a | Fits(Live(bs), a, need) ensures k < |bs| && bs[k].addr <= a {
      var i := FitInFreeBlock(bs, a, need);
      assert k < i ==> bs[k].End() <= bs[i].addr;
    }
  }

  /** Equal live sets and equal first `i` blocks force equal blocks `i`. */
  lemma SameBlock(bs: seq<Block>, cs: seq<Block>, i: nat)
    requires WellFormed(bs) && WellFormed(cs) && Live(bs) == Live(cs)
    requires i < |bs| && i < |cs| && bs[i].addr == cs[i].addr
    ensures bs[i] == cs[i]
  {
    SameBlockHalf(bs, cs, i);
    SameBlockHalf(cs, bs, i);
  }

  lemma SameBlockHalf(bs: seq<Block>, cs: seq<Block>, i: nat)
    requires WellFormed(bs) && WellFormed(cs) && Live(bs) == Live(cs)
    requires i < |bs| && i < |cs| && bs[i].addr == cs[i].addr
    ensures !bs[i].free ==> bs[i] == cs[i]
    ensures bs[i].free && cs[i].free ==> cs[i].size <= bs[i].size
  {
    if !bs[i].free {
      assert bs[i] in Live(cs);
      var j :| 0 <= j < |cs| && cs[j] == bs[i];
      SameAddress(cs, j, i, HEAP_START, HEAP_END);
    } else {
      assert i + 1 < |bs| ==> bs[i].End() == bs[i + 1].addr && bs[i + 1] in Live(bs);
    }
  }

  lemma SamePrefix(bs: seq<Block>, cs: seq<Block>, i: nat)
    requires WellFormed(bs) && WellFormed(cs) && Live(bs) == Live(cs)
    requires i < |bs|
    ensures i < |cs| && bs[i] == cs[i]
  {
    if i > 0 {
      SamePrefix(bs, cs, i - 1);
      assert bs[i - 1].End() == bs[i].addr;
      assert i < |cs| ==> cs[i - 1].End() == cs[i].addr;
    }
    SameBlock(bs, cs, i);
  }

  /** The live set determines the heap. */
  lemma {:induction false} Canonical(bs: seq<Block>, cs: seq<Block>)
    requires WellFormed(bs) && WellFormed(cs) && Live(bs) == Live(cs)
    ensures bs == cs
  {
    forall i | 0 <= i < |bs| ensures i < |cs| && bs[i] == cs[i] { SamePrefix(bs, cs, i); }
    if |bs| < |cs| { SamePrefix(cs, bs, |bs|); }
  }

  // ---- kmalloc and kfree on block sequences ----

  /** The heap after `kmalloc(n)` and the pointer it returns. */
  ghost function Malloc(bs: seq<Block>, n: word): (seq<Block>, int) {
    var k := FirstFit(bs, Align4(n));
    if n == 0 || k == |bs| then (bs, 0) else (Carve(bs, k, Align4(n), SLACK), bs[k].addr + HEADER)
  }

  ghost function IndexOf(bs: seq<Block>, a: int): (k: nat)
    ensures k <= |bs|
    ensures k < |bs| ==> bs[k].addr == a
    ensures forall i :: 0 <= i < k ==> bs[i].addr != a
  {
    if bs == [] || bs[0].addr == a then 0 else 1 + IndexOf(bs[1..], a)
  }

  /** The pointers handed out for the live blocks. */
  ghost function Payloads(live: set<Block>): set<int> {
    set b | b in live :: b.addr + HEADER
  }

  /** `p` was returned by `kmalloc` and has not been freed since. */
  ghost predicate IsLive(bs: seq<Block>, p: int) {
    p in Payloads(Live(bs))
  }

  /** `live` without the block of `p`. */
  ghost function Without(live: set<Block>, p: int): set<Block> {
    set b | b in live && b.addr + HEADER != p
  }

  /** The heap after `kfree(p)`. */
  ghost function Free(bs: seq<Block>, p: int): seq<Block>
    requires p == 0 || IsLive(bs, p)
  {
    if p == 0 then bs else Release(bs, IndexOf(bs, p - HEADER))
  }

  lemma LiveIndex(bs: seq<Block>, p: int) returns (k: nat)
    requires WellFormed(bs) && IsLive(bs, p)
    ensures k < |bs| && k == IndexOf(bs, p - HEADER) && bs[k] in Live(bs) && bs[k].addr + HEADER == p
    ensures !bs[k].free && Without(Live(bs), p) == Live(bs) - {bs[k]}
  {
    k := IndexOf(bs, p - HEADER);
    forall b | b in Live(bs) && b.addr + HEADER == p ensures k < |bs| && b == bs[k] {
      var i :| 0 <= i < |bs| && bs[i] == b;
      SameAddress(bs, i, k, HEAP_START, HEAP_END);
    }
  }

  /** Block `b` serves a request for `n` bytes without waste beyond a header and the slack. */
  ghost predicate Serves(b: Block, n: word) {
    Align4(n) <= b.size <= Align4(n) + HEADER + SLACK
  }

  /**
   Block `b`, at the lowest place where the rounded request fits, is the only change of the live set.
   It has exactly the rounded size if a header and more than 16 bytes remain, and else takes the whole gap.
   */
  ghost predicate Allotted(live: set<Block>, live': set<Block>, n: word, b: Block) {
    && live' == live + {b} && b.addr + HEADER !in Payloads(live)
    && Serves(b, n)
    && Fits(live, b.addr, Align4(n))
    && (forall a :: Fits(live, a, Align4(n)) ==> b.addr <= a)
    && if Fits(live, b.addr, Align4(n) + HEADER + SLACK + 1) then b.size == Align4(n) else FillsGap(live, b)
  }

  /** Block `b` takes all the room there is between the live blocks around it. */
  ghost predicate FillsGap(live: set<Block>, b: Block) {
    Fits(live, b.addr, b.size) && !Fits(live, b.addr, b.size + 1)
  }

  /** The room at a free block is the block. */
  lemma GapExact(bs: seq<Block>, k: nat, need: nat)
    requires WellFormed(bs) && k < |bs| && bs[k].free
    ensures Fits(Live(bs), bs[k].addr, need) <==> need <= bs[k].size
  {
    if need <= bs[k].size {
      FreeBlockFits(bs, k, need);
    } else if k + 1 < |bs| {
      assert bs[k].End() == bs[k + 1].addr && bs[k + 1] in Live(bs);
    }
  }

  /** Handing out block `k`, which is free, on the live set. */
  lemma ClaimExact(bs: seq<Block>, k: nat, n: word)
    requires WellFormed(bs) && k < |bs| && bs[k].free && Align4(n) <= bs[k].size
    requires forall a :: Fits(Live(bs), a, Align4(n)) ==> bs[k].addr <= a
    ensures var r := Carve(bs, k, Align4(n), SLACK);
      && WellFormed(r) && bs[k].addr >= HEAP_START
      && exists b :: b in Live(r) && b.addr == bs[k].addr && Allotted(Live(bs), Live(r), n, b)
  {
    hide Align4, Fits, WellFormed, Live, Payloads;
    var need := Align4(n);
    AlignExact(n);
    CarveWellFormed(bs, k, need);
    CarvedBlock(bs, k, need);
    GapExact(bs, k, need);
    GapExact(bs, k, need + HEADER + SLACK + 1);
    var b := Carve(bs, k, need, SLACK)[k];
    GapExact(bs, k, b.size);
    GapExact(bs, k, b.size + 1);
    assert Allotted(Live(bs), Live(Carve(bs, k, need, SLACK)), n, b);
  }

  lemma CarvedBlock(bs: seq<Block>, k: nat, need: nat)
    requires WellFormed(bs) && k < |bs| && bs[k].free && need <= bs[k].size
    ensures HEAP_START <= bs[k].addr
    ensures var r := Carve(bs, k, need, SLACK);
      && k < |r| && r[k].addr == bs[k].addr && r[k] in Live(r) && Live(r) == Live(bs) + {r[k]}
      && r[k].addr + HEADER !in Payloads(Live(bs))
      && r[k].size == if bs[k].size > need + HEADER + SLACK then need else bs[k].size
  {
    FreeBlockFits(bs, k, need);
    CarveFacts(bs, k, need, SLACK, HEAP_START, HEAP_END);
    assert Carve(bs, k, need, SLACK)[k] in {Carve(bs, k, need, SLACK)[k]};
  }

  /**
   Block `b` has at most 28 bytes more than the rounded request, and none more exactly if the gap holds just
   that, or so much that at least 17 bytes remain behind a header for the rest.
   */
  ghost predicate SplitExactly(live: set<Block>, n: word, b: Block) {
    && Align4(n) <= b.size <= Align4(n) + 28
    && (b.size == Align4(n) <==>
          !Fits(live, b.addr, Align4(n) + 1) || Fits(live, b.addr, Align4(n) + 29))
  }

  lemma AllottedSplit(live: set<Block>, live': set<Block>, n: word, b: Block)
    requires Allotted(live, live', n, b)
    ensures SplitExactly(live, n, b)
  {
    hide Align4;
    if Fits(live, b.addr, Align4(n) + 29) { SmallerFits(live, b.addr, Align4(n) + 29, Align4(n) + 1); }
    if b.size > Align4(n) { SmallerFits(live, b.addr, b.size, Align4(n) + 1); }
  }

  lemma SmallerFits(live: set<Block>, a: int, need: int, less: int)
    requires Fits(live, a, need) && less <= need
    ensures Fits(live, a, less)
  {
  }

  /**
   kmalloc as an operation on the live set.  It fails exactly when no gap between live blocks holds
   a header and the rounded request, and otherwise adds the one block that Allotted describes.
   */
  lemma MallocExact(bs: seq<Block>, n: word)
    requires WellFormed(bs)
    ensures var (r, p) := Malloc(bs, n);
      && WellFormed(r)
      && (p == 0 <==> n == 0 || !Room(Live(bs), Align4(n)))
      && (p == 0 ==> r == bs)
      && (p != 0 ==> exists b :: b in Live(r) && b.addr + 12 == p && Allotted(Live(bs), Live(r), n, b)
                                 && SplitExactly(Live(bs), n, b))
  {
    hide Align4, WellFormed, Fits, Carve, SplitExactly;
    var need := Align4(n);
    AlignExact(n);
    var k := FirstFit(bs, need);
    FirstFitExact(bs, need);
    if n != 0 && k < |bs| {
      ClaimExact(bs, k, n);
      var r := Carve(bs, k, need, SLACK);
      var b :| b in Live(r) && b.addr == bs[k].addr && Allotted(Live(bs), Live(r), n, b);
      AllottedSplit(Live(bs), Live(r), n, b);
    }
  }

  /** kfree as an operation on the live set: it removes the block of `p` and nothing else. */
  lemma FreeExact(bs: seq<Block>, p: int)
    requires WellFormed(bs) && IsLive(bs, p)
    ensures WellFormed(Free(bs, p))
    ensures Live(Free(bs, p)) == Without(Live(bs), p)
  {
    hide Live, Without, IsLive, Release, Ordered, Tiles, NoFreeNeighbours, Aligned;
    var k := LiveIndex(bs, p);
    ReleaseWellFormed(bs, k);
    ReleaseFacts(bs, k, HEAP_START, HEAP_END);
  }

  // ---- Consequences of the canonical form ----

  /** Freeing what kmalloc just returned restores the heap, whether or not the block was split. */
  lemma MallocThenFree(bs: seq<Block>, n: word)
    requires WellFormed(bs) && Malloc(bs, n).1 != 0
    ensures var (r, p) := Malloc(bs, n); IsLive(r, p) && Free(r, p) == bs
  {
    hide Malloc, Free, Live, WellFormed, Serves, Fits;
    MallocExact(bs, n);
    var (r, p) := Malloc(bs, n);
    var b :| b in Live(r) && b.addr + HEADER == p && Allotted(Live(bs), Live(r), n, b);
    assert IsLive(r, p);
    FreeExact(r, p);
    assert forall c :: c in Live(bs) ==> c.addr + HEADER != p;
    assert Live(Free(r, p)) == Live(bs);
    Canonical(Free(r, p), bs);
  }

  /** `ps` are distinct live pointers. */
  ghost predicate Freeable(bs: seq<Block>, ps: seq<int>) {
    && (forall i :: 0 <= i < |ps| ==> IsLive(bs, ps[i]))
    && (forall i, j :: 0 <= i < j < |ps| ==> ps[i] != ps[j])
  }

  ghost function FreeAll(bs: seq<Block>, ps: seq<int>): seq<Block>
    requires WellFormed(bs) && Freeable(bs, ps)
    decreases |ps|
  {
    if ps == [] then bs
    else
      FreeExact(bs, ps[0]);
      StillFreeable(bs, ps);
      FreeAll(Free(bs, ps[0]), ps[1..])
  }

  lemma StillFreeable(bs: seq<Block>, ps: seq<int>)
    requires WellFormed(bs) && Freeable(bs, ps) && ps != []
    ensures Freeable(Free(bs, ps[0]), ps[1..])
  {
    FreeExact(bs, ps[0]);
    forall i | 1 <= i < |ps| ensures IsLive(Free(bs, ps[0]), ps[i]) {
      var b :| b in Live(bs) && b.addr + HEADER == ps[i];
      assert b in Live(Free(bs, ps[0]));
    }
  }

  lemma {:induction false} FreeAllExact(bs: seq<Block>, ps: seq<int>)
    requires WellFormed(bs) && Freeable(bs, ps)
    ensures WellFormed(FreeAll(bs, ps))
    ensures Live(FreeAll(bs, ps)) == set b | b in Live(bs) && b.addr + HEADER !in ps
    decreases |ps|
  {
    hide Live, WellFormed, Free;
    if ps != [] {
      FreeExact(bs, ps[0]);
      StillFreeable(bs, ps);
      FreeAllExact(Free(bs, ps[0]), ps[1..]);
      assert forall p :: p in ps <==> p == ps[0] || p in ps[1..];
    }
  }

  /** Frees commute: any two orders of freeing the same pointers give the same heap. */
  lemma FreeOrderIrrelevant(bs: seq<Block>, ps: seq<int>, qs: seq<int>)
    requires WellFormed(bs) && Freeable(bs, ps) && Freeable(bs, qs)
    requires forall p :: p in ps <==> p in qs
    ensures FreeAll(bs, ps) == FreeAll(bs, qs)
  {
    hide Live, WellFormed, FreeAll, Freeable;
    FreeAllExact(bs, ps);
    FreeAllExact(bs, qs);
    Canonical(FreeAll(bs, ps), FreeAll(bs, qs));
  }

  lemma NothingLive(bs: seq<Block>)
    requires WellFormed(bs) && Live(bs) == {}
    ensures bs == EMPTY_HEAP
  {
    assert Live(EMPTY_HEAP) == {};
    Canonical(bs, EMPTY_HEAP);
  }

  /** Freeing every live pointer, in any order, gives back the heap that heap_init builds. */
  lemma FreeEverything(bs: seq<Block>, ps: seq<int>)
    requires WellFormed(bs) && Freeable(bs, ps)
    requires forall b :: b in Live(bs) ==> b.addr + HEADER in ps
    ensures FreeAll(bs, ps) == EMPTY_HEAP
  {
    FreeAllExact(bs, ps);
    assert Live(FreeAll(bs, ps)) == {};
    NothingLive(FreeAll(bs, ps));
  }

  /** After kfree of a block, a request that fits the freed block cannot fail, whatever the fragmentation. */
  lemma FreeMakesRoom(bs: seq<Block>, b: Block, n: word)
    requires WellFormed(bs) && b in Live(bs) && 0 < n && Align4(n) <= b.size
    ensures IsLive(bs, b.addr + HEADER) && Malloc(Free(bs, b.addr + HEADER), n).1 != 0
  {
    var p := b.addr + HEADER;
    var k := LiveIndex(bs, p);
    FreeExact(bs, p);
    forall c | c in Live(Free(bs, p)) ensures c.End() <= b.addr || b.addr + HEADER + Align4(n) <= c.addr {
      var i :| 0 <= i < |bs| && bs[i] == c;
      if i < k { assert bs[i].End() <= bs[k].addr; } else { assert bs[k].End() <= bs[i].addr; }
    }
    assert Fits(Live(Free(bs, p)), b.addr, Align4(n));
    MallocExact(Free(bs, p), n);
  }

  // ---- Conservation ----

  ghost function UsedBytes(bs: seq<Block>): nat {
    if bs == [] then 0 else (if bs[0].free then 0 else bs[0].size + HEADER) + UsedBytes(bs[1..])
  }

  ghost function FreeCount(bs: seq<Block>): nat {
    if bs == [] then 0 else (if bs[0].free then 1 else 0) + FreeCount(bs[1..])
  }

  lemma {:induction false} TilesFootprint(bs: seq<Block>, lo: int, hi: int)
    requires Tiles(bs, lo, hi)
    ensures Footprint(bs) == hi - lo
  {
    if |bs| > 1 {
      assert bs[0].End() == bs[1].addr;
      assert Tiles(bs[1..], bs[1].addr, hi);
      TilesFootprint(bs[1..], bs[1].addr, hi);
    }
  }

  lemma {:induction false} UsedAtMostFootprint(bs: seq<Block>)
    ensures UsedBytes(bs) <= Footprint(bs) && HEADER * FreeCount(bs) + UsedBytes(bs) <= Footprint(bs)
  {
    if bs != [] { UsedAtMostFootprint(bs[1..]); }
  }

  /** The address `a` belongs to a live block, header or payload. */
  ghost predicate Occupied(live: set<Block>, a: int) {
    exists b :: b in live && b.addr <= a < b.addr + 12 + b.size
  }

  /** The addresses in `lo..hi` that belong to live blocks. */
  ghost function OccupiedIn(live: set<Block>, lo: int, hi: int): set<int> {
    set a: int | lo <= a < hi && Occupied(live, a)
  }

  /** The free blocks of a list. */
  ghost function FreeBlocks(bs: seq<Block>): set<Block> {
    set b | b in bs && b.free
  }

  /** The bytes in use are the addresses that live blocks take, headers included. */
  lemma {:induction false} UsedIsOccupied(bs: seq<Block>, lo: int, hi: int)
    requires Ordered(bs, lo, hi) && lo <= hi
    ensures UsedBytes(bs) == |OccupiedIn(Live(bs), lo, hi)|
    decreases |bs|
  {
    if bs == [] {
      assert OccupiedIn(Live(bs), lo, hi) == {};
    } else {
      var b := bs[0];
      OrderedRest(bs, lo, hi);
      UsedIsOccupied(bs[1..], b.End(), hi);
      FirstOccupied(bs, lo, hi);
      RangeSize(b.addr, b.End());
      var first, rest := if b.free then {} else Range(b.addr, b.End()), OccupiedIn(Live(bs[1..]), b.End(), hi);
      assert first !! rest;
      assert |first + rest| == |first| + |rest|;
    }
  }

  lemma FirstOccupied(bs: seq<Block>, lo: int, hi: int)
    requires Ordered(bs, lo, hi) && bs != []
    ensures var b := bs[0];
      OccupiedIn(Live(bs), lo, hi) ==
      (if b.free then {} else Range(b.addr, b.End())) + OccupiedIn(Live(bs[1..]), b.End(), hi)
  {
    hide Occupied, Live, Ordered;
    assert lo <= bs[0].addr && bs[0].End() <= hi by { FirstInside(bs, lo, hi); }
    forall a: int
      ensures Occupied(Live(bs), a) && lo <= a < hi <==>
              (!bs[0].free && bs[0].addr <= a < bs[0].End()) || (Occupied(Live(bs[1..]), a) && bs[0].End() <= a < hi)
    {
      FirstOccupiedAt(bs, lo, hi, a);
    }
  }

  lemma FirstInside(bs: seq<Block>, lo: int, hi: int)
    requires Ordered(bs, lo, hi) && bs != []
    ensures lo <= bs[0].addr && bs[0].End() <= hi
    ensures forall c :: c in Live(bs[1..]) ==> bs[0].End() <= c.addr && c.End() <= hi
  {
  }

  lemma LiveFirst(bs: seq<Block>)
    requires bs != []
    ensures Live(bs) == Live(bs[1..]) + (if bs[0].free then {} else {bs[0]})
  {
    assert bs == [bs[0]] + bs[1..];
  }

  lemma FirstOccupiedAt(bs: seq<Block>, lo: int, hi: int, a: int)
    requires Ordered(bs, lo, hi) && bs != []
    ensures Occupied(Live(bs), a) && lo <= a < hi <==>
            (!bs[0].free && bs[0].addr <= a < bs[0].End()) || (Occupied(Live(bs[1..]), a) && bs[0].End() <= a < hi)
  {
    hide Ordered, Live;
    var b := bs[0];
    FirstInside(bs, lo, hi);
    LiveFirst(bs);
    if Occupied(Live(bs), a) {
      var c :| c in Live(bs) && c.addr <= a < c.addr + 12 + c.size;
      assert c in Live(bs[1..]) || (c == b && !b.free);
    }
    if !b.free { assert b in Live(bs); }
    if Occupied(Live(bs[1..]), a) {
      var c :| c in Live(bs[1..]) && c.addr <= a < c.addr + 12 + c.size;
      assert c in Live(bs);
    }
  }

  lemma {:induction false} FreeIsCounted(bs: seq<Block>, lo: int, hi: int)
    requires Ordered(bs, lo, hi)
    ensures FreeCount(bs) == |FreeBlocks(bs)|
    decreases |bs|
  {
    hide Ordered, FreeBlocks;
    if bs == [] {
      NoFreeBlocks(bs);
    } else {
      OrderedRest(bs, lo, hi);
      FreeIsCounted(bs[1..], bs[0].End(), hi);
      FirstFree(bs, lo, hi);
    }
  }

  lemma NoFreeBlocks(bs: seq<Block>)
    requires bs == []
    ensures FreeBlocks(bs) == {}
  {
  }

  lemma OrderedRest(bs: seq<Block>, lo: int, hi: int)
    requires Ordered(bs, lo, hi) && bs != []
    ensures Ordered(bs[1..], bs[0].End(), hi)
  {
  }

  lemma FirstFree(bs: seq<Block>, lo: int, hi: int)
    requires Ordered(bs, lo, hi) && bs != []
    ensures FreeBlocks(bs) == (if bs[0].free then {bs[0]} else {}) + FreeBlocks(bs[1..])
    ensures bs[0] !in FreeBlocks(bs[1..])
  {
    assert bs == [bs[0]] + bs[1..];
  }

  /** What heap_stats counts as used. */
  ghost function BytesInUse(bs: seq<Block>): nat {
    |OccupiedIn(Live(bs), HEAP_START, HEAP_END)|
  }

  /** One more live block takes its bytes and the 12 bytes of its header. */
  lemma UsedWithOne(bs: seq<Block>, r: seq<Block>, b: Block)
    requires WellFormed(bs) && WellFormed(r) && Live(r) == Live(bs) + {b} && b !in Live(bs)
    ensures BytesInUse(r) == BytesInUse(bs) + b.size + 12
  {
    assert b in Live(r);
    LiveInside(r, b);
    forall c | c in Live(bs) ensures c.End() <= b.addr || b.End() <= c.addr { DisjointLive(r, b, c); }
    OccupiedWithOne(Live(bs), b);
    RangeSize(b.addr, b.End());
    var before, own := OccupiedIn(Live(bs), HEAP_START, HEAP_END), Range(b.addr, b.End());
    assert |before + own| == |before| + |own|;
  }

  lemma OccupiedWithOne(live: set<Block>, b: Block)
    requires HEAP_START <= b.addr && b.End() <= HEAP_END
    requires forall c :: c in live ==> c.End() <= b.addr || b.End() <= c.addr
    ensures OccupiedIn(live + {b}, HEAP_START, HEAP_END) ==
            OccupiedIn(live, HEAP_START, HEAP_END) + Range(b.addr, b.End())
    ensures OccupiedIn(live, HEAP_START, HEAP_END) !! Range(b.addr, b.End())
  {
    assert b in live + {b};
    forall a: int ensures Occupied(live + {b}, a) <==> Occupied(live, a) || b.addr <= a < b.End() {
      if Occupied(live + {b}, a) {
        var c :| c in live + {b} && c.addr <= a < c.addr + 12 + c.size;
      }
      if Occupied(live, a) {
        var c :| c in live && c.addr <= a < c.addr + 12 + c.size;
        assert c in live + {b};
      }
    }
  }

  /** A successful kmalloc raises the used bytes by the size of its block and 12; a failed one leaves them. */
  lemma MallocRaises(bs: seq<Block>, n: word)
    requires WellFormed(bs)
    ensures var (r, p) := Malloc(bs, n);
      if p == 0 then r == bs
      else exists b :: b in Live(r) && b.addr + 12 == p && b !in Live(bs)
                       && BytesInUse(r) == BytesInUse(bs) + b.size + 12
  {
    hide Malloc, WellFormed, Live, BytesInUse, SplitExactly, Fits;
    MallocExact(bs, n);
    var (r, p) := Malloc(bs, n);
    if p != 0 {
      var b :| b in Live(r) && b.addr + 12 == p && Allotted(Live(bs), Live(r), n, b);
      assert b !in Live(bs) by { assert b.addr + HEADER !in Payloads(Live(bs)); }
      UsedWithOne(bs, r, b);
    }
  }

  /** kfree lowers them by the size of the freed block and 12. */
  lemma FreeLowers(bs: seq<Block>, b: Block)
    requires WellFormed(bs) && b in Live(bs)
    ensures IsLive(bs, b.addr + 12) && BytesInUse(Free(bs, b.addr + 12)) == BytesInUse(bs) - b.size - 12
  {
    hide Free, WellFormed, BytesInUse;
    var p := b.addr + HEADER;
    assert IsLive(bs, p);
    FreeExact(bs, p);
    var k := LiveIndex(bs, p);
    assert b in Live(bs) && b !in Without(Live(bs), p);
    assert Live(bs) == Live(Free(bs, p)) + {b};
    UsedWithOne(Free(bs, p), bs, b);
  }

  // ---- Runs ----

  datatype Call = KMalloc(n: word) | KFree(p: word)

  /** The heap together with what each live pointer was requested for. */
  datatype State = State(bs: seq<Block>, requests: map<int, word>)

  ghost predicate Admissible(s: State, c: Call) {
    c.KFree? ==> c.p == 0 || (c.p in s.requests && IsLive(s.bs, c.p))
  }

  ghost function Step(s: State, c: Call): State
    requires Admissible(s, c)
  {
    match c
    case KMalloc(n) =>
      var (r, p) := Malloc(s.bs, n);
      State(r, if p == 0 then s.requests else s.requests[p := n])
    case KFree(p) => State(Free(s.bs, p), s.requests - {p})
  }

  /** `calls` is a run from `s` to `t` in which kfree only gets live pointers or NULL. */
  ghost predicate Run(s: State, calls: seq<Call>, t: State)
    decreases |calls|
  {
    if calls == [] then s == t else Admissible(s, calls[0]) && Run(Step(s, calls[0]), calls[1..], t)
  }

  /** The records and the live blocks match one to one. */
  ghost predicate Recorded(live: set<Block>, requests: map<int, word>) {
    && requests.Keys == Payloads(live)
    && forall b :: b in live ==> Serves(b, requests[b.addr + HEADER])
  }

  ghost predicate Accounted(s: State) {
    WellFormed(s.bs) && Recorded(Live(s.bs), s.requests)
  }

  lemma RecordedAfterMalloc(live: set<Block>, requests: map<int, word>, b: Block, n: word)
    requires Recorded(live, requests) && Serves(b, n) && b.addr + HEADER !in Payloads(live)
    ensures Recorded(live + {b}, requests[b.addr + HEADER := n])
  {
    hide Serves;
    assert Payloads(live + {b}) == Payloads(live) + {b.addr + HEADER};
  }

  lemma RecordedAfterFree(live: set<Block>, requests: map<int, word>, p: int)
    requires Recorded(live, requests)
    ensures Recorded(Without(live, p), requests - {p})
  {
    hide Serves;
    assert Payloads(Without(live, p)) == Payloads(live) - {p};
  }

  lemma StepAccounted(s: State, c: Call)
    requires Accounted(s) && Admissible(s, c)
    ensures Accounted(Step(s, c))
    ensures forall b :: b in Live(s.bs) && (c.KFree? ==> b.addr + HEADER != c.p) ==> b in Live(Step(s, c).bs)
  {
    hide Live, WellFormed, Align4, Fits, Recorded, Payloads;
    match c {
      case KMalloc(n) =>
        hide Malloc;
        MallocExact(s.bs, n);
        var (r, p) := Malloc(s.bs, n);
        if p != 0 {
          var b :| b in Live(r) && b.addr + HEADER == p && Allotted(Live(s.bs), Live(r), n, b);
          RecordedAfterMalloc(Live(s.bs), s.requests, b, n);
        }
      case KFree(p) =>
        if p != 0 {
          hide Free;
          FreeExact(s.bs, p);
          RecordedAfterFree(Live(s.bs), s.requests, p);
        } else {
          NullNotRecorded(s);
          assert s.requests - {p} == s.requests;
        }
    }
  }

  lemma NullNotRecorded(s: State)
    requires Accounted(s)
    ensures 0 !in s.requests
  {
  }

  /** A live block is as large as its caller asked exactly when the rounding of the request did not wrap. */
  lemma LargeEnough(s: State, b: Block)
    requires Accounted(s) && b in Live(s.bs)
    ensures s.requests[b.addr + 12] <= b.size <==> s.requests[b.addr + 12] <= 0xFFFF_FFFC
  {
    hide WellFormed, Live;
    var n := s.requests[b.addr + HEADER];
    assert Serves(b, n);
    assert n > MAX_REQUEST ==> (n + 3) % WORD_LIMIT == n + 3 - WORD_LIMIT;
  }

  lemma InitAccounted()
    ensures Accounted(State(EMPTY_HEAP, map[]))
  {
  }

  /** The requests that LargeEnough excludes do get a block: of no bytes, where the rounding wraps to 0. */
  lemma WrappedRequestServed(n: word)
    requires n > 0xFFFF_FFFC
    ensures var (r, p) := Malloc(EMPTY_HEAP, n);
      p != 0 && exists b :: b in Live(r) && b.addr + HEADER == p && b.size == 0
  {
    AlignExact(n);
    MallocExact(EMPTY_HEAP, n);
    assert Fits(Live(EMPTY_HEAP), HEAP_START, 0);
    assert Fits(Live(EMPTY_HEAP), HEAP_START, HEADER + SLACK + 1);
  }

  lemma WasteBounded(s: State)
    requires Accounted(s)
    ensures forall b :: b in Live(s.bs) ==>
              b.addr + 12 in s.requests
              && Align4(s.requests[b.addr + 12]) <= b.size <= Align4(s.requests[b.addr + 12]) + 28
  {
    hide WellFormed, Align4, Live;
    forall b | b in Live(s.bs)
      ensures b.addr + 12 in s.requests
      ensures Align4(s.requests[b.addr + 12]) <= b.size <= Align4(s.requests[b.addr + 12]) + 28
    {
      assert b.addr + HEADER in Payloads(Live(s.bs));
      assert Serves(b, s.requests[b.addr + HEADER]);
    }
  }

  /** What heap_init establishes, every run keeps; a run that leaves nothing live ends where it began. */
  lemma {:induction false} RunAccounted(s: State, calls: seq<Call>, t: State)
    requires Accounted(s) && Run(s, calls, t)
    ensures Accounted(t)
    ensures forall b :: b in Live(t.bs) ==>
              b.addr + 12 in t.requests
              && Align4(t.requests[b.addr + 12]) <= b.size <= Align4(t.requests[b.addr + 12]) + 28
    ensures t.requests == map[] ==> t.bs == EMPTY_HEAP
    decreases |calls|
  {
    if calls == [] {
      WasteBounded(s);
      if s.requests == map[] {
        assert forall b :: b in Live(s.bs) ==> b.addr + HEADER in s.requests;
        NothingLive(s.bs);
      }
    } else {
      StepAccounted(s, calls[0]);
      RunAccounted(Step(s, calls[0]), calls[1..], t);
    }
  }

  // ---- Use of a live block ----

  lemma DisjointBlocks(bs: seq<Block>, i: nat, k: nat)
    requires WellFormed(bs) && i < |bs| && k < |bs| && i != k
    ensures bs[i].End() <= bs[k].addr || bs[k].End() <= bs[i].addr
  {
    if i < k { assert bs[i].End() <= bs[k].addr; } else { assert bs[k].End() <= bs[i].addr; }
  }

  lemma HeaderBytesKept(m: seq<byte>, m': seq<byte>, lo: int, hi: int, b: Block, next: nat)
    requires SameOutside(m, m', lo, hi) && HeaderAt(m, b, next)
    requires hi <= b.addr || b.addr + HEADER <= lo
    ensures HeaderAt(m', b, next)
  {
  }

  lemma PayloadWriteStored(m: seq<byte>, m': seq<byte>, bs: seq<Block>, k: nat, lo: int, hi: int)
    requires WellFormed(bs) && Stored(m, bs) && k < |bs|
    requires bs[k].addr + HEADER <= lo <= hi <= bs[k].End() && SameOutside(m, m', lo, hi)
    ensures Stored(m', bs)
  {
    hide WellFormed, HeaderAt, SameOutside;
    forall i | 0 <= i < |bs| ensures HeaderAt(m', bs[i], Next(bs, i)) {
      if i != k { DisjointBlocks(bs, i, k); }
      HeaderBytesKept(m, m', lo, hi, bs[i], Next(bs, i));
    }
  }

  lemma LiveInside(bs: seq<Block>, b: Block)
    requires WellFormed(bs) && b in Live(bs)
    ensures HEAP_START <= b.addr && b.End() <= HEAP_END
  {
  }

  lemma DisjointLive(bs: seq<Block>, b: Block, c: Block)
    requires WellFormed(bs) && b in Live(bs) && c in Live(bs) && b != c
    ensures b.End() <= c.addr || c.End() <= b.addr
  {
    var i :| 0 <= i < |bs| && bs[i] == b;
    var k :| 0 <= k < |bs| && bs[k] == c;
    DisjointBlocks(bs, i, k);
  }

  /** Writing the payload of a live block leaves the headers and the other payloads alone. */
  lemma PayloadWrite(m: seq<byte>, m': seq<byte>, bs: seq<Block>, b: Block, lo: int, hi: int)
    requires WellFormed(bs) && Stored(m, bs) && b in Live(bs)
    requires b.addr + HEADER <= lo <= hi <= b.End() && SameOutside(m, m', lo, hi)
    ensures Stored(m', bs)
    ensures Undisturbed(m, m', Live(bs) - {b}, HEAP_START, HEAP_END)
  {
    hide WellFormed, Stored;
    LiveInside(bs, b);
    var k :| 0 <= k < |bs| && bs[k] == b;
    PayloadWriteStored(m, m', bs, k, lo, hi);
    forall c | c in Live(bs) - {b} ensures c.End() <= b.addr || b.End() <= c.addr {
      DisjointLive(bs, b, c);
    }
  }

  // ---- The code ----

  class Heap {
    const list: BlockList

    ghost predicate Valid()
      reads this, list, list.mem
    {
      list.Valid(HEAP_START, HEAP_END) && WellFormed(list.blocks)
    }

    /** heap_init: `mem` is the physical memory; everything outside the heap range stays as it is. */
    constructor (mem: array<byte>)
      requires HEAP_END <= mem.Length
      modifies mem
      ensures Valid() && fresh(list) && list.mem == mem
      ensures list.blocks == EMPTY_HEAP
      ensures SameOutside(old(mem[..]), mem[..], HEAP_START, HEAP_END)
    {
      list := new BlockList(mem, HEAP_START, HEAP_END);
    }

    method Kmalloc(n: word) returns (p: word)
      requires Valid()
      modifies list, list.mem
      ensures Valid()
      ensures (list.blocks, p as int) == Malloc(old(list.blocks), n)
      ensures Undisturbed(old(list.mem[..]), list.mem[..], old(Live(list.blocks)), HEAP_START, HEAP_END)
    {
      hide Align4, Carve, Stored, Tiles, NoFreeNeighbours, Aligned, Live, Undisturbed;
      p := 0;
      ghost var bs0 := list.blocks;
      SameMemory(list.mem[..], Live(bs0), HEAP_START, HEAP_END);
      if n == 0 {
        return;
      }
      AlignExact(n);
      var size := Align4(n);
      var current, _, k := list.FindFit(size, HEAP_START, HEAP_END);
      if current != 0 {
        CarveWellFormed(bs0, k, size);
        list.Claim(current, size, SLACK, k, HEAP_START, HEAP_END);
        p := current + HEADER;
      }
    }

    method Kfree(p: word)
      requires Valid()
      requires p == 0 || IsLive(list.blocks, p)
      modifies list, list.mem
      ensures Valid()
      ensures list.blocks == Free(old(list.blocks), p)
      ensures Undisturbed(old(list.mem[..]), list.mem[..], Live(list.blocks), HEAP_START, HEAP_END)
    {
      if p == 0 {
        return;
      }
      ghost var k := LiveIndex(list.blocks, p);
      ReleaseWellFormed(list.blocks, k);
      ReleaseFacts(list.blocks, k, HEAP_START, HEAP_END);
      list.Free(p - HEADER, k, HEAP_START, HEAP_END);
    }

    /** heap_stats: the whole heap is accounted for, split into live blocks and free gaps. */
    method Stats() returns (total: word, used: word, freeBlocks: word)
      requires Valid()
      ensures total == 0x10_0000
      ensures used == BytesInUse(list.blocks)
      ensures freeBlocks == |FreeBlocks(list.blocks)|
    {
      hide Word, Ordered, Stored, Tiles, NoFreeNeighbours, Aligned, OccupiedIn, FreeBlocks, Live;
      ghost var bs := list.blocks;
      ghost var k := 0;
      var current := list.head;
      total, used, freeBlocks := 0, 0, 0;
      TilesFootprint(bs, HEAP_START, HEAP_END);
      UsedAtMostFootprint(bs);
      UsedIsOccupied(bs, HEAP_START, HEAP_END);
      FreeIsCounted(bs, HEAP_START, HEAP_END);
      while current != 0
        invariant k <= |bs|
        invariant current == if k < |bs| then bs[k].addr else 0
        invariant total + Footprint(bs[k..]) == HEAP_SIZE
        invariant used + UsedBytes(bs[k..]) == UsedBytes(bs)
        invariant freeBlocks + FreeCount(bs[k..]) == FreeCount(bs)
        decreases |bs| - k
      {
        HeaderOf(list.mem[..], bs, k, HEAP_START, HEAP_END);
        var size := LoadWord(list.mem, current);
        var isFree := LoadWord(list.mem, current + 4);
        assert bs[k..][1..] == bs[k + 1..];
        total := total + size + HEADER;
        if isFree == 0 {
          used := used + size + HEADER;
        } else {
          freeBlocks := freeBlocks + 1;
        }
        current := LoadWord(list.mem, current + 8);
        k := k + 1;
      }
      if k < |bs| { HeaderOf(list.mem[..], bs, k, HEAP_START, HEAP_END); }
    }
  }
}
