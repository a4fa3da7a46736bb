/**
 The singly linked list of block headers that both kernel heaps keep inside the memory they
 manage (kernel/heap.c and kernel/disabled/memory/heap.c contain the same list code).
 A header is three words: size, is_free, next.  `Block` sequences are the simple form.
 */
module BlockList {
  import opened Memory

  const HEADER: int := 12

  datatype Block = Block(addr: nat, size: nat, free: bool) {
    function End(): nat { addr + HEADER + size }
  }

  // ---- The simple form ----

  /** Blocks lie inside `lo..hi`, in address order, without overlap (gaps are allowed). */
  ghost predicate Ordered(bs: seq<Block>, lo: int, hi: int) {
    && (forall i :: 0 <= i < |bs| ==> lo <= bs[i].addr && bs[i].End() <= hi)
    && (forall i, j :: 0 <= i < j < |bs| ==> bs[i].End() <= bs[j].addr)
  }

  /** No two list neighbours are both free. */
  ghost predicate NoFreeNeighbours(bs: seq<Block>) {
    forall i, j :: 0 <= i < j < |bs| && j == i + 1 ==> !(bs[i].free && bs[j].free)
  }

  ghost function Live(bs: seq<Block>): set<Block> {
    set b | b in bs && !b.free
  }

  /** The index of the first free block of at least `need` bytes, or `|bs|`. */
  function FirstFit(bs: seq<Block>, need: int): (k: nat)
    ensures k <= |bs|
    ensures k < |bs| ==> bs[k].free && need <= bs[k].size
    ensures forall i :: 0 <= i < k ==> !(bs[i].free && need <= bs[i].size)
  {
    if bs == [] || (bs[0].free && need <= bs[0].size) then 0 else 1 + FirstFit(bs[1..], need)
  }

  /** `bs` with the blocks `k..j` replaced by `mid`. */
  ghost function Splice(bs: seq<Block>, k: nat, j: nat, mid: seq<Block>): seq<Block>
    requires k <= j <= |bs|
  {
    bs[..k] + mid + bs[j..]
  }

  /** Block `k` handed out for `need` bytes; a remainder above `slack` payload bytes is split off. */
  ghost function Carve(bs: seq<Block>, k: nat, need: nat, slack: nat): seq<Block>
    requires k < |bs| && need <= bs[k].size
  {
    Splice(bs, k, k + 1, Carved(bs[k], need, slack))
  }

  ghost function Merge(bs: seq<Block>, k: nat): seq<Block>
    requires k + 1 < |bs|
  {
    Splice(bs, k, k + 2, [Block(bs[k].addr, bs[k].size + HEADER + bs[k + 1].size, bs[k].free)])
  }

  /** Block `k` marked free, then merged with a free successor, then into a free predecessor. */
  ghost function Release(bs: seq<Block>, k: nat): seq<Block>
    requires k < |bs|
  {
    var bs1 := bs[k := bs[k].(free := true)];
    var bs2 := if k + 1 < |bs| && bs[k + 1].free then Merge(bs1, k) else bs1;
    if 0 < k && bs[k - 1].free then Merge(bs2, k - 1) else bs2
  }

  // ---- Facts about the simple form ----

  lemma ConcatOrdered(a: seq<Block>, b: seq<Block>, lo: int, mid: int, hi: int)
    requires Ordered(a, lo, mid) && Ordered(b, mid, hi) && lo <= mid <= hi
    ensures Ordered(a + b, lo, hi)
  {
  }

  lemma SliceOrdered(bs: seq<Block>, k: nat, j: nat, lo: int, hi: int)
    requires k < j <= |bs| && Ordered(bs, lo, hi)
    ensures Ordered(bs[..k], lo, bs[k].addr) && Ordered(bs[j..], bs[j - 1].End(), hi)
    ensures lo <= bs[k].addr <= bs[j - 1].End() <= hi
  {
  }

  lemma SpliceOrdered(bs: seq<Block>, k: nat, j: nat, mid: seq<Block>, lo: int, hi: int)
    requires k < j <= |bs| && Ordered(bs, lo, hi)
    requires Ordered(mid, bs[k].addr, bs[j - 1].End())
    ensures Ordered(Splice(bs, k, j, mid), lo, hi)
  {
    hide Ordered;
    SliceOrdered(bs, k, j, lo, hi);
    ConcatOrdered(bs[..k], mid, lo, bs[k].addr, bs[j - 1].End());
    ConcatOrdered(bs[..k] + mid, bs[j..], lo, bs[j - 1].End(), hi);
  }

  lemma SpliceLive(bs: seq<Block>, k: nat, j: nat, mid: seq<Block>, lo: int, hi: int)
    requires k <= j <= |bs| && Ordered(bs, lo, hi)
    ensures Live(Splice(bs, k, j, mid)) == Live(bs) - Live(bs[k..j]) + Live(mid)
  {
    assert bs == bs[..k] + bs[k..j] + bs[j..];
    forall i, i' | 0 <= i < |bs| && 0 <= i' < |bs| && i != i' ensures bs[i] != bs[i'] {
      if i < i' { assert bs[i].End() <= bs[i'].addr; } else { assert bs[i'].End() <= bs[i].addr; }
    }
  }

  /** What replaces block `k` when it is handed out. */
  ghost function Carved(b: Block, need: nat, slack: nat): (mid: seq<Block>)
    requires need <= b.size
    ensures Ordered(mid, b.addr, b.End())
    ensures mid != [] && mid[0].addr == b.addr && need <= mid[0].size <= need + HEADER + slack
    ensures Live(mid) == {mid[0]}
  {
    if b.size > need + HEADER + slack
    then [Block(b.addr, need, false), Block(b.addr + HEADER + need, b.size - need - HEADER, true)]
    else [Block(b.addr, b.size, false)]
  }

  /** Handing out a free block adds exactly one live block and keeps the list in order. */
  lemma CarveFacts(bs: seq<Block>, k: nat, need: nat, slack: nat, lo: int, hi: int)
    requires k < |bs| && bs[k].free && need <= bs[k].size && Ordered(bs, lo, hi)
    ensures var r := Carve(bs, k, need, slack);
      && k < |r| && Ordered(r, lo, hi)
      && Live(r) == Live(bs) + {r[k]}
      && r[k] !in Live(bs)
      && r[k].addr == bs[k].addr && need <= r[k].size <= need + HEADER + slack
  {
    var mid := Carved(bs[k], need, slack);
    hide Carved;
    SpliceOrdered(bs, k, k + 1, mid, lo, hi);
    SpliceLive(bs, k, k + 1, mid, lo, hi);
    assert bs[k..k + 1] == [bs[k]];
    assert Live(bs[k..k + 1]) == {};
    assert Carve(bs, k, need, slack)[k] == mid[0];
  }

  lemma CarveNeighbours(bs: seq<Block>, k: nat, need: nat, slack: nat)
    requires k < |bs| && bs[k].free && need <= bs[k].size && NoFreeNeighbours(bs)
    ensures NoFreeNeighbours(Carve(bs, k, need, slack))
  {
    assert k + 1 < |bs| ==> !bs[k + 1].free;
  }

  lemma MergeShape(bs: seq<Block>, k: nat)
    requires k + 1 < |bs|
    ensures var r := Merge(bs, k);
      && |r| == |bs| - 1
      && (forall i :: 0 <= i < k ==> r[i] == bs[i])
      && r[k].addr == bs[k].addr && r[k].free == bs[k].free
      && (forall i :: k < i < |r| ==> r[i] == bs[i + 1])
  {
  }

  lemma FreeSliceNotLive(bs: seq<Block>, k: nat, j: nat)
    requires k <= j <= |bs| && forall i :: k <= i < j ==> bs[i].free
    ensures Live(bs[k..j]) == {} && Live(bs) - Live(bs[k..j]) == Live(bs)
  {
  }

  lemma SingleLive(bs: seq<Block>, k: nat)
    requires k < |bs| && !bs[k].free
    ensures Live(bs[k..k + 1]) == {bs[k]}
  {
    assert bs[k..k + 1] == [bs[k]];
  }

  lemma MergeFacts(bs: seq<Block>, k: nat, lo: int, hi: int)
    requires k + 1 < |bs| && Ordered(bs, lo, hi) && bs[k].free && bs[k + 1].free
    ensures Ordered(Merge(bs, k), lo, hi)
    ensures Live(Merge(bs, k)) == Live(bs)
  {
    var mid := [Block(bs[k].addr, bs[k].size + HEADER + bs[k + 1].size, bs[k].free)];
    SpliceOrdered(bs, k, k + 2, mid, lo, hi);
    SpliceLive(bs, k, k + 2, mid, lo, hi);
    assert Live(bs[k..k + 2]) == {} == Live(mid);
  }

  lemma MarkFacts(bs: seq<Block>, k: nat, lo: int, hi: int)
    requires k < |bs| && !bs[k].free && Ordered(bs, lo, hi)
    ensures var r := bs[k := bs[k].(free := true)];
      r == Splice(bs, k, k + 1, [r[k]]) && Ordered(r, lo, hi) && Live(r) == Live(bs) - {bs[k]}
  {
    var freed := [bs[k].(free := true)];
    SpliceOrdered(bs, k, k + 1, freed, lo, hi);
    SpliceLive(bs, k, k + 1, freed, lo, hi);
    assert bs[k..k + 1] == [bs[k]];
    assert Live(bs[k..k + 1]) == {bs[k]} && Live(freed) == {};
    assert bs[k := freed[0]] == Splice(bs, k, k + 1, freed);
  }

  /** Giving a block back removes exactly it from the live set. */
  lemma ReleaseFacts(bs: seq<Block>, k: nat, lo: int, hi: int)
    requires k < |bs| && !bs[k].free && Ordered(bs, lo, hi)
    ensures Ordered(Release(bs, k), lo, hi)
    ensures Live(Release(bs, k)) == Live(bs) - {bs[k]}
  {
    MarkFacts(bs, k, lo, hi);
    hide Ordered, Live;
    var bs2 := bs[k := bs[k].(free := true)];
    if k + 1 < |bs| && bs[k + 1].free {
      MergeFacts(bs2, k, lo, hi);
      bs2 := Merge(bs2, k);
    }
    if 0 < k && bs[k - 1].free {
      MergeFacts(bs2, k - 1, lo, hi);
    }
  }

  /** Two list neighbours are both free only if the second is block `k`. */
  ghost predicate FreePairOnlyBefore(bs: seq<Block>, k: nat) {
    forall i, j :: 0 <= i < j < |bs| && j == i + 1 && bs[i].free && bs[j].free ==> j == k
  }

  lemma NextAbsorbed(bs: seq<Block>, k: nat)
    requires k < |bs| && !bs[k].free && NoFreeNeighbours(bs)
    ensures var bs1 := bs[k := bs[k].(free := true)];
      FreePairOnlyBefore(if k + 1 < |bs| && bs[k + 1].free then Merge(bs1, k) else bs1, k)
  {
    hide Merge;
    if k + 1 < |bs| { MergeShape(bs[k := bs[k].(free := true)], k); }
  }

  lemma PreviousAbsorbs(bs: seq<Block>, k: nat)
    requires 0 < k < |bs| && FreePairOnlyBefore(bs, k) && bs[k - 1].free && bs[k].free
    ensures NoFreeNeighbours(Merge(bs, k - 1))
  {
    hide Merge;
    MergeShape(bs, k - 1);
  }

  lemma ReleaseNeighbours(bs: seq<Block>, k: nat)
    requires k < |bs| && !bs[k].free && NoFreeNeighbours(bs)
    ensures NoFreeNeighbours(Release(bs, k))
  {
    hide Merge;
    NextAbsorbed(bs, k);
    var bs1 := bs[k := bs[k].(free := true)];
    if k + 1 < |bs| { MergeShape(bs1, k); }
    if 0 < k && bs[k - 1].free {
      PreviousAbsorbs(if k + 1 < |bs| && bs[k + 1].free then Merge(bs1, k) else bs1, k);
    }
  }

  /** The bytes that blocks take up, headers included. */
  ghost function Footprint(bs: seq<Block>): nat {
    if bs == [] then 0 else bs[0].size + HEADER + Footprint(bs[1..])
  }

  lemma {:induction false} FootprintConcat(a: seq<Block>, b: seq<Block>)
    ensures Footprint(a + b) == Footprint(a) + Footprint(b)
  {
    if a == [] {
      assert a + b == b;
    } else {
      assert (a + b)[1..] == a[1..] + b;
      FootprintConcat(a[1..], b);
    }
  }

  lemma FootprintSplice(bs: seq<Block>, k: nat, j: nat, mid: seq<Block>)
    requires k <= j <= |bs|
    ensures Footprint(Splice(bs, k, j, mid)) == Footprint(bs) - Footprint(bs[k..j]) + Footprint(mid)
  {
    hide Footprint;
    assert bs == bs[..k] + bs[k..j] + bs[j..];
    FootprintConcat(bs[..k] + bs[k..j], bs[j..]);
    FootprintConcat(bs[..k], bs[k..j]);
    FootprintConcat(bs[..k] + mid, bs[j..]);
    FootprintConcat(bs[..k], mid);
  }

  lemma Footprint1(b: Block)
    ensures Footprint([b]) == b.size + HEADER
  {
  }

  lemma Footprint2(b: Block, c: Block)
    ensures Footprint([b, c]) == b.size + c.size + 2 * HEADER
  {
    assert [b, c] == [b] + [c];
    FootprintConcat([b], [c]);
  }

  /** Splitting a block moves bytes between blocks, but neither makes nor loses any. */
  lemma CarveFootprint(bs: seq<Block>, k: nat, need: nat, slack: nat)
    requires k < |bs| && need <= bs[k].size
    ensures Footprint(Carve(bs, k, need, slack)) == Footprint(bs)
  {
    hide Footprint;
    var mid := Carved(bs[k], need, slack);
    FootprintSplice(bs, k, k + 1, mid);
    assert bs[k..k + 1] == [bs[k]];
    Footprint1(bs[k]);
    Footprint1(mid[0]);
    if |mid| == 2 { Footprint2(mid[0], mid[1]); }
  }

  lemma MergeFootprint(bs: seq<Block>, k: nat)
    requires k + 1 < |bs|
    ensures Footprint(Merge(bs, k)) == Footprint(bs)
  {
    hide Footprint;
    var b := Block(bs[k].addr, bs[k].size + HEADER + bs[k + 1].size, bs[k].free);
    FootprintSplice(bs, k, k + 2, [b]);
    assert bs[k..k + 2] == [bs[k], bs[k + 1]];
    Footprint2(bs[k], bs[k + 1]);
    Footprint1(b);
  }

  lemma MarkFootprint(bs: seq<Block>, k: nat)
    requires k < |bs|
    ensures Footprint(bs[k := bs[k].(free := true)]) == Footprint(bs)
  {
    hide Footprint;
    var f := bs[k].(free := true);
    assert bs[k := f] == Splice(bs, k, k + 1, [f]) && bs[k..k + 1] == [bs[k]];
    FootprintSplice(bs, k, k + 1, [f]);
    Footprint1(bs[k]);
    Footprint1(f);
  }

  /** So does merging, even across a gap. */
  lemma ReleaseFootprint(bs: seq<Block>, k: nat)
    requires k < |bs|
    ensures Footprint(Release(bs, k)) == Footprint(bs)
  {
    hide Footprint, Merge;
    MarkFootprint(bs, k);
    var bs2 := bs[k := bs[k].(free := true)];
    if k + 1 < |bs| && bs[k + 1].free {
      MergeFootprint(bs2, k);
      MergeShape(bs2, k);
      bs2 := Merge(bs2, k);
    }
    if 0 < k && bs[k - 1].free {
      MergeFootprint(bs2, k - 1);
    }
  }

  // ---- The stored form ----

  ghost function Next(bs: seq<Block>, i: nat): nat
    requires i < |bs|
  {
    if i + 1 < |bs| then bs[i + 1].addr else 0
  }

  ghost predicate HeaderAt(m: seq<byte>, b: Block, next: nat) {
    && b.addr + HEADER <= |m|
    && Word(m, b.addr) == b.size
    && Word(m, b.addr + 4) == (if b.free then 1 else 0)
    && Word(m, b.addr + 8) == next
  }

  /** The header of every block is in memory and points to the next one. */
  ghost predicate Stored(m: seq<byte>, bs: seq<Block>) {
    forall i {:trigger Next(bs, i)} :: 0 <= i < |bs| ==> HeaderAt(m, bs[i], Next(bs, i))
  }

  lemma HeaderKept(m: seq<byte>, m': seq<byte>, lo: int, hi: int, b: Block, next: nat)
    requires SameOutside(m, m', lo, hi) && HeaderAt(m, b, next)
    requires b.End() <= lo || hi <= b.addr
    ensures HeaderAt(m', b, next)
  {
  }

  lemma SpliceStored(m: seq<byte>, m': seq<byte>, bs: seq<Block>, k: nat, j: nat, mid: seq<Block>, lo: int, hi: int)
    requires k < j <= |bs| && Ordered(bs, lo, hi) && Stored(m, bs)
    requires mid != [] && mid[0].addr == bs[k].addr
    requires SameOutside(m, m', bs[k].addr, bs[j - 1].End())
    requires var r := Splice(bs, k, j, mid);
      forall i :: k <= i < k + |mid| ==> HeaderAt(m', r[i], Next(r, i))
    ensures Stored(m', Splice(bs, k, j, mid))
  {
    hide HeaderAt, SameOutside;
    var r := Splice(bs, k, j, mid);
    forall i | 0 <= i < |r| ensures HeaderAt(m', r[i], Next(r, i)) {
      if i < k {
        HeaderKept(m, m', bs[k].addr, bs[j - 1].End(), bs[i], Next(bs, i));
      } else if k + |mid| <= i {
        var i' := i - |mid| - k + j;
        assert bs[j - 1].End() <= bs[i'].addr;
        HeaderKept(m, m', bs[k].addr, bs[j - 1].End(), bs[i'], Next(bs, i'));
      }
    }
  }

  /** Nothing outside `lo..hi` and no payload byte of a block in `kept` differs. */
  ghost predicate Undisturbed(m: seq<byte>, m': seq<byte>, kept: set<Block>, lo: int, hi: int) {
    && SameOutside(m, m', lo, hi)
    && forall b, k :: b in kept && b.addr + HEADER <= k < b.End() && k < |m| ==> m'[k] == m[k]
  }

  lemma SameMemory(m: seq<byte>, live: set<Block>, lo: int, hi: int)
    ensures Undisturbed(m, m, live, lo, hi)
  {
  }

  /** What the list code reads in the header of block `k`, and where that block may lie. */
  lemma HeaderOf(m: seq<byte>, bs: seq<Block>, k: nat, lo: int, hi: int)
    requires k < |bs| && Ordered(bs, lo, hi) && Stored(m, bs)
    ensures HeaderAt(m, bs[k], Next(bs, k))
    ensures lo <= bs[k].addr && bs[k].End() <= hi
    ensures k + 1 < |bs| ==> bs[k].End() <= bs[k + 1].addr
  {
  }

  lemma SameAddress(bs: seq<Block>, i: nat, k: nat, lo: int, hi: int)
    requires Ordered(bs, lo, hi) && i < |bs| && k < |bs| && bs[i].addr == bs[k].addr
    ensures i == k
  {
  }

  /** Rewriting the extent of the blocks `k..j` into the stored form of `mid` is a splice. */
  lemma Respliced(m: seq<byte>, m': seq<byte>, bs: seq<Block>, k: nat, j: nat, mid: seq<Block>, lo: int, hi: int)
    requires k < j <= |bs| && Ordered(bs, lo, hi) && Stored(m, bs)
    requires SameOutside(m, m', bs[k].addr, bs[j - 1].End())
    requires 1 <= |mid| <= 2 && mid[0].addr == bs[k].addr
    requires HeaderAt(m', mid[0], if |mid| == 2 then mid[1].addr else Next(bs, j - 1))
    requires |mid| == 2 ==> HeaderAt(m', mid[1], Next(bs, j - 1))
    ensures Stored(m', Splice(bs, k, j, mid))
    ensures Undisturbed(m, m', Live(bs) - Live(bs[k..j]), lo, hi)
  {
    SpliceStored(m, m', bs, k, j, mid, lo, hi);
    OutsideLive(m, m', bs, k, j, lo, hi);
  }

  /** Changes inside the extent of the blocks `k..j` do not reach the live blocks elsewhere. */
  lemma OutsideLive(m: seq<byte>, m': seq<byte>, bs: seq<Block>, k: nat, j: nat, lo: int, hi: int)
    requires k < j <= |bs| && Ordered(bs, lo, hi)
    requires SameOutside(m, m', bs[k].addr, bs[j - 1].End())
    ensures Undisturbed(m, m', Live(bs) - Live(bs[k..j]), lo, hi)
  {
    forall b | b in Live(bs) - Live(bs[k..j]) ensures b.End() <= bs[k].addr || bs[j - 1].End() <= b.addr {
      var i :| 0 <= i < |bs| && bs[i] == b;
    }
  }

  // ---- The list operations ----

  /** `size`, `is_free` and `next` of the header of `b`. */
  method StoreHeader(mem: array<byte>, b: Block, next: word)
    requires b.addr + HEADER <= mem.Length && b.size < WORD_LIMIT
    modifies mem
    ensures HeaderAt(mem[..], b, next)
    ensures forall a: nat :: a + 4 <= mem.Length && (a + 4 <= b.addr || b.addr + HEADER <= a) ==>
              Word(mem[..], a) == Word(old(mem[..]), a)
    ensures SameOutside(old(mem[..]), mem[..], b.addr, b.addr + HEADER)
  {
    hide Word;
    StoreWord(mem, b.addr, b.size);
    StoreWord(mem, b.addr + 4, if b.free then 1 else 0);
    StoreWord(mem, b.addr + 8, next);
  }

  class BlockList {
    const mem: array<byte>
    var head: word
    ghost var blocks: seq<Block>

    ghost predicate Valid(lo: nat, hi: nat)
      reads this, mem
    {
      && 0 < lo && hi <= mem.Length && hi <= WORD_LIMIT
      && blocks != [] && head == blocks[0].addr
      && Ordered(blocks, lo, hi)
      && Stored(mem[..], blocks)
    }

    /** A single free block filling `lo..hi`. */
    constructor (mem: array<byte>, lo: word, hi: nat)
      requires 0 < lo && lo + HEADER <= hi && hi <= mem.Length && hi <= WORD_LIMIT
      modifies mem
      ensures this.mem == mem && Valid(lo, hi)
      ensures blocks == [Block(lo, hi - lo - HEADER, true)]
      ensures SameOutside(old(mem[..]), mem[..], lo, hi)
    {
      this.mem := mem;
      head := lo;
      blocks := [Block(lo, hi - lo - HEADER, true)];
      new;
      StoreHeader(mem, Block(lo, hi - lo - HEADER, true), 0);
    }

    /** The first-fit walk; `last` is the block before the place where it stopped. */
    method FindFit(need: word, ghost lo: nat, ghost hi: nat) returns (current: word, last: word, ghost k: nat)
      requires Valid(lo, hi)
      ensures k == FirstFit(blocks, need) && (current == 0 <==> k == |blocks|)
      ensures current == if FirstFit(blocks, need) < |blocks| then blocks[FirstFit(blocks, need)].addr else 0
      ensures last == if 0 < FirstFit(blocks, need) then blocks[FirstFit(blocks, need) - 1].addr else 0
    {
      hide Word, Ordered, Stored, FirstFit;
      current, last, k := head, 0, 0;
      while current != 0
        invariant k <= |blocks|
        invariant current == if k < |blocks| then blocks[k].addr else 0
        invariant last == if 0 < k then blocks[k - 1].addr else 0
        invariant forall i :: 0 <= i < k ==> !(blocks[i].free && need <= blocks[i].size)
        decreases |blocks| - k
      {
        HeaderOf(mem[..], blocks, k, lo, hi);
        var isFree := LoadWord(mem, current + 4);
        var size := LoadWord(mem, current);
        if isFree != 0 && size >= need {
          return;
        }
        last := current;
        current := LoadWord(mem, current + 8);
        k := k + 1;
      }
      if k < |blocks| { HeaderOf(mem[..], blocks, k, lo, hi); }
    }

    /** Marks block `k` used and splits it when more than `slack` payload bytes would remain. */
    method Claim(current: word, need: word, slack: word, ghost k: nat, ghost lo: nat, ghost hi: nat)
      requires Valid(lo, hi)
      requires k < |blocks| && current == blocks[k].addr && blocks[k].free && need <= blocks[k].size
      modifies this, mem
      ensures Valid(lo, hi)
      ensures blocks == Carve(old(blocks), k, need, slack)
      ensures Undisturbed(old(mem[..]), mem[..], old(Live(blocks)), lo, hi)
    {
      hide Word, Ordered, Stored, Undisturbed, Live;
      ghost var m0, bs0 := mem[..], blocks;
      HeaderOf(m0, bs0, k, lo, hi);
      StoreWord(mem, current + 4, 0);
      var size := LoadWord(mem, current);
      if size > need + HEADER + slack {
        var rest := current + HEADER + need;
        var next := LoadWord(mem, current + 8);
        StoreHeader(mem, Block(rest, size - need - HEADER, true), next);
        StoreWord(mem, current, need);
        StoreWord(mem, current + 8, rest);
      }
      ghost var mid := Carved(bs0[k], need, slack);
      blocks := Splice(bs0, k, k + 1, mid);
      Respliced(m0, mem[..], bs0, k, k + 1, mid, lo, hi);
      CarveFacts(bs0, k, need, slack, lo, hi);
      FreeSliceNotLive(bs0, k, k + 1);
    }

    /** Absorbs the free block after block `k`. */
    method AbsorbNext(block: word, ghost k: nat, ghost lo: nat, ghost hi: nat)
      requires Valid(lo, hi)
      requires k + 1 < |blocks| && block == blocks[k].addr && blocks[k].free && blocks[k + 1].free
      modifies this, mem
      ensures Valid(lo, hi)
      ensures blocks == Merge(old(blocks), k)
      ensures Undisturbed(old(mem[..]), mem[..], old(Live(blocks)), lo, hi)
    {
      hide Word, Ordered, Stored, Undisturbed;
      ghost var m0, bs0 := mem[..], blocks;
      HeaderOf(m0, bs0, k, lo, hi);
      HeaderOf(m0, bs0, k + 1, lo, hi);
      var next := LoadWord(mem, block + 8);
      var size := LoadWord(mem, block);
      var nextSize := LoadWord(mem, next);
      StoreWord(mem, block, size + HEADER + nextSize);
      var nextNext := LoadWord(mem, next + 8);
      StoreWord(mem, block + 8, nextNext);
      ghost var mid := [Block(block, size + HEADER + nextSize, true)];
      blocks := Splice(bs0, k, k + 2, mid);
      Respliced(m0, mem[..], bs0, k, k + 2, mid, lo, hi);
      MergeFacts(bs0, k, lo, hi);
      FreeSliceNotLive(bs0, k, k + 2);
    }

    /** The body of `kfree` for the live block `k`. */
    method Free(block: word, ghost k: nat, ghost lo: nat, ghost hi: nat)
      requires Valid(lo, hi)
      requires k < |blocks| && block == blocks[k].addr && !blocks[k].free
      modifies this, mem
      ensures Valid(lo, hi)
      ensures blocks == Release(old(blocks), k)
      ensures Undisturbed(old(mem[..]), mem[..], old(Live(blocks)) - {old(blocks)[k]}, lo, hi)
    {
      hide Valid, Live, Merge;
      Mark(block, k, lo, hi);
      if k + 1 < |blocks| {
        MergeShape(blocks, k);
      }
      AbsorbFreeNext(block, k, lo, hi);
      var current := FindPrevious(block, k, lo, hi);
      if current != 0 {
        var isFree := LoadFree(current, k - 1, lo, hi);
        if isFree {
          AbsorbNext(current, k - 1, lo, hi);
        }
      }
    }

    method LoadFree(current: word, ghost k: nat, ghost lo: nat, ghost hi: nat) returns (isFree: bool)
      requires Valid(lo, hi)
      requires k < |blocks| && current == blocks[k].addr
      ensures isFree == blocks[k].free
    {
      HeaderOf(mem[..], blocks, k, lo, hi);
      var f := LoadWord(mem, current + 4);
      isFree := f != 0;
    }

    /** Merges the freed block `k` with its successor if that is free too. */
    method AbsorbFreeNext(block: word, ghost k: nat, ghost lo: nat, ghost hi: nat)
      requires Valid(lo, hi)
      requires k < |blocks| && block == blocks[k].addr && blocks[k].free
      modifies this, mem
      ensures Valid(lo, hi)
      ensures blocks == if k + 1 < |old(blocks)| && old(blocks)[k + 1].free then Merge(old(blocks), k) else old(blocks)
      ensures Live(blocks) == old(Live(blocks))
      ensures Undisturbed(old(mem[..]), mem[..], Live(blocks), lo, hi)
    {
      hide Live, Word;
      HeaderOf(mem[..], blocks, k, lo, hi);
      var next := LoadWord(mem, block + 8);
      if next != 0 {
        assert lo <= blocks[k + 1].addr;
        var nextFree := LoadFree(next, k + 1, lo, hi);
        if nextFree {
          MergeFacts(blocks, k, lo, hi);
          AbsorbNext(block, k, lo, hi);
        }
      }
    }

    /** The walk that looks for the block whose `next` is block `k`. */
    method FindPrevious(block: word, ghost k: nat, ghost lo: nat, ghost hi: nat) returns (current: word)
      requires Valid(lo, hi)
      requires k < |blocks| && block == blocks[k].addr
      ensures current == if 0 < k then blocks[k - 1].addr else 0
      ensures current == 0 <==> k == 0
    {
      current := head;
      ghost var i := 0;
      while current != 0
        invariant 0 <= i <= |blocks|
        invariant current == if i < |blocks| then blocks[i].addr else 0
        invariant i < k || k == 0
        decreases |blocks| - i
      {
        HeaderOf(mem[..], blocks, i, lo, hi);
        var after := LoadWord(mem, current + 8);
        if after == block {
          SameAddress(blocks, i + 1, k, lo, hi);
          return;
        }
        current := after;
        i := i + 1;
      }
    }

    /** Marks the live block `k` free. */
    method Mark(block: word, ghost k: nat, ghost lo: nat, ghost hi: nat)
      requires Valid(lo, hi)
      requires k < |blocks| && block == blocks[k].addr && !blocks[k].free
      modifies this, mem
      ensures Valid(lo, hi)
      ensures blocks == old(blocks)[k := old(blocks)[k].(free := true)]
      ensures Live(blocks) == old(Live(blocks)) - {old(blocks)[k]}
      ensures Undisturbed(old(mem[..]), mem[..], Live(blocks), lo, hi)
    {
      hide Word, Ordered, Stored, Undisturbed, Live;
      ghost var m0, bs0 := mem[..], blocks;
      HeaderOf(m0, bs0, k, lo, hi);
      StoreWord(mem, block + 4, 1);
      MarkFacts(bs0, k, lo, hi);
      blocks := bs0[k := bs0[k].(free := true)];
      Respliced(m0, mem[..], bs0, k, k + 1, [blocks[k]], lo, hi);
      assert Live(bs0[k..k + 1]) == {bs0[k]} by { SingleLive(bs0, k); }
    }
  }
}
