/**
 The bitmap allocator of physical frames, kernel/disabled/memory/pmm.c.
 The simple form is the set of used frame numbers; `usedBlocks` is kept incrementally beside it.
 */
module Pmm {
  import opened Memory
  import opened Sets

  const PAGE_SIZE: int := 0x1000
  const ALL_ONES: bv32 := 0xFFFF_FFFF

  /** Unsigned 32-bit wrap-around. */
  function Wrap(x: int): word {
    x % WORD_LIMIT
  }

  lemma WrapStep(x: int)
    ensures Wrap(Wrap(x) + 1) == Wrap(x + 1) && Wrap(Wrap(x) - 1) == Wrap(x - 1)
    ensures 0 <= x < WORD_LIMIT ==> Wrap(x) == x
  {
    WrapAdd(x, 1);
    WrapAdd(x, -1);
  }

  lemma WrapAdd(x: int, d: int)
    ensures Wrap(Wrap(x) + d) == Wrap(x + d)
  {
    assert x + d == Wrap(x) + d + WORD_LIMIT * (x / WORD_LIMIT);
    WrapWhole(Wrap(x) + d, x / WORD_LIMIT);
  }

  lemma WrapWhole(y: int, q: int)
    ensures Wrap(y + WORD_LIMIT * q) == Wrap(y)
  {
    assert (y + WORD_LIMIT * q) / WORD_LIMIT == y / WORD_LIMIT + q;
  }

  lemma WrapDifference(a: word, b: word, c: nat)
    requires c <= a
    ensures Wrap(a - b) == a - c <==> b == c
  {
  }

  // ---- Bits ----

  function Mask(i: nat): bv32
    requires i < 32
  {
    (1 as bv32) << i
  }

  predicate Test(w: bv32, mask: bv32) {
    w & mask != 0
  }

  predicate Bit(w: bv32, i: nat)
    requires i < 32
  {
    Test(w, Mask(i))
  }

  predicate BitOf(ws: seq<bv32>, j: nat)
    requires j < 32 * |ws|
  {
    Bit(ws[j / 32], j % 32)
  }

  lemma MasksApart(i: nat, j: nat)
    requires i < 32 && j < 32
    ensures Apart(Mask(i), Mask(j)) || i == j
    ensures Mask(i) != 0
  {
  }

  predicate Apart(m: bv32, n: bv32) {
    m & n == 0
  }

  function SetIn(w: bv32, m: bv32): bv32 {
    w | m
  }

  function ClearIn(w: bv32, m: bv32): bv32 {
    w & !m
  }

  lemma OrOutside(w: bv32, m: bv32, n: bv32)
    requires Apart(m, n)
    ensures SetIn(w, m) & n == w & n
  {
  }

  lemma AndNotOutside(w: bv32, m: bv32, n: bv32)
    requires Apart(m, n)
    ensures ClearIn(w, m) & n == w & n
  {
  }

  lemma OtherBitsKept(w: bv32, m: bv32, n: bv32)
    requires Apart(m, n)
    ensures Test(SetIn(w, m), n) == Test(w, n) == Test(ClearIn(w, m), n)
  {
    hide SetIn, ClearIn, Apart;
    OrOutside(w, m, n);
    AndNotOutside(w, m, n);
  }

  lemma OwnBitChanged(w: bv32, m: bv32)
    requires m != 0
    ensures Test(SetIn(w, m), m) && !Test(ClearIn(w, m), m)
  {
  }

  lemma MasksDouble(i: nat)
    requires i < 32
    ensures Mask(0) == 1
    ensures i > 0 ==> Mask(i) == Mask(i - 1) << 1 && Apart(Mask(i - 1), 0x8000_0000)
  {
  }

  lemma TestHalved(w: bv32, m: bv32)
    requires Apart(m, 0x8000_0000)
    ensures Test(w, m << 1) == Test(w >> 1, m)
  {
  }

  lemma LowestBit(w: bv32)
    ensures Test(w, 1) <==> w & 1 == 1
  {
  }

  lemma BitChanged(w: bv32, i: nat, j: nat)
    requires i < 32 && j < 32
    ensures Bit(w, 0) <==> w & 1 == 1
    ensures i > 0 ==> (Bit(w, i) <==> Bit(w >> 1, i - 1))
    ensures Bit(SetIn(w, Mask(i)), j) <==> i == j || Bit(w, j)
    ensures Bit(ClearIn(w, Mask(i)), j) <==> i != j && Bit(w, j)
  {
    hide Mask, Test, Apart, SetIn, ClearIn;
    MasksDouble(i);
    if i > 0 { TestHalved(w, Mask(i - 1)); }
    LowestBit(w);
    MasksApart(i, j);
    OwnBitChanged(w, Mask(i));
    if i != j { OtherBitsKept(w, Mask(i), Mask(j)); }
  }

  lemma BitOfOnes(i: nat)
    requires i < 32
    ensures Bit(ALL_ONES, i) && !Bit(0, i)
  {
  }

  // ---- The simple form ----

  ghost function UsedSet(ws: seq<bv32>, total: nat): set<int>
    requires total <= 32 * |ws|
  {
    set j | 0 <= j < total && BitOf(ws, j)
  }

  lemma SetBitUsed(ws: seq<bv32>, total: nat, i: nat)
    requires total <= 32 * |ws| && i < 32 * |ws|
    ensures UsedSet(ws[i / 32 := SetIn(ws[i / 32], Mask(i % 32))], total) ==
            UsedSet(ws, total) + (if i < total then {i} else {})
  {
    hide Bit, Mask, SetIn, ClearIn;
    var vs := ws[i / 32 := SetIn(ws[i / 32], Mask(i % 32))];
    forall j: int | 0 <= j < total ensures BitOf(vs, j) <==> j == i || BitOf(ws, j) {
      if j / 32 == i / 32 { BitChanged(ws[i / 32], i % 32, j % 32); }
    }
  }

  lemma ClearBitUsed(ws: seq<bv32>, total: nat, i: nat)
    requires total <= 32 * |ws| && i < 32 * |ws|
    ensures UsedSet(ws[i / 32 := ClearIn(ws[i / 32], Mask(i % 32))], total) == UsedSet(ws, total) - {i}
  {
    hide Bit, Mask, SetIn, ClearIn;
    var vs := ws[i / 32 := ClearIn(ws[i / 32], Mask(i % 32))];
    forall j: int | 0 <= j < total ensures BitOf(vs, j) <==> j != i && BitOf(ws, j) {
      if j / 32 == i / 32 { BitChanged(ws[i / 32], i % 32, j % 32); }
    }
  }

  // ---- Initialisation ----

  /** The number of whole words pmm_init fills: the bitmap size in bytes, rounded up, over four. */
  function WordsFilled(total: nat): nat {
    (if total / 8 * 8 < total then total / 8 + 1 else total / 8) / 4
  }

  ghost function Filled(ws: seq<bv32>, n: nat): seq<bv32> {
    seq(|ws|, i requires 0 <= i < |ws| => if i < n then ALL_ONES else ws[i])
  }

  /** Whatever the bitmap memory held before, pmm_init marks every frame used. */
  ghost predicate CoversAll(total: nat) {
    forall ws: seq<bv32> :: total <= 32 * |ws| ==> UsedSet(Filled(ws, WordsFilled(total)), total) == Range(0, total)
  }

  /** The rounding of pmm_init loses the last partial word, unless 25 or more of its bits are frames. */
  lemma InitCoversExactly(total: nat)
    ensures CoversAll(total) <==> total % 32 == 0 || total % 32 > 24
  {
    hide Mask, Test;
    var n := WordsFilled(total);
    if total % 32 == 0 || total % 32 > 24 {
      assert total <= 32 * n;
      forall ws: seq<bv32> | total <= 32 * |ws| ensures UsedSet(Filled(ws, n), total) == Range(0, total) {
        FilledBits(ws, n, total);
      }
    } else {
      assert 32 * n < total;
      var ws := seq(n + 1, _ => 0 as bv32);
      assert Filled(ws, n)[n] == 0;
      BitOfOnes(0);
      assert !BitOf(Filled(ws, n), 32 * n);
      assert 32 * n !in UsedSet(Filled(ws, n), total);
      assert 32 * n in Range(0, total);
    }
  }

  lemma FilledFits(total: nat, len: nat)
    requires total <= 32 * len
    ensures WordsFilled(total) <= len
  {
  }

  lemma FilledBits(ws: seq<bv32>, n: nat, total: nat)
    requires total <= 32 * |ws| && total <= 32 * n
    ensures UsedSet(Filled(ws, n), total) == Range(0, total)
  {
    hide Bit;
    forall j: int | 0 <= j < total ensures BitOf(Filled(ws, n), j) {
      BitOfOnes(j % 32);
    }
  }

  // ---- Allocation on sets ----

  ghost predicate LeastFree(used: set<int>, total: int, b: int) {
    0 <= b < total && b !in used && forall j :: 0 <= j < b ==> j in used
  }

  /** How many addresses other than 0 allocation hands out in a row, starting from `used`. */
  ghost function Successes(used: set<int>, total: int): nat
    decreases Range(0, total) - used
  {
    if exists b :: LeastFree(used, total, b) && b != 0 then
      var b :| LeastFree(used, total, b) && b != 0;
      assert b in Range(0, total) - used;
      1 + Successes(used + {b}, total)
    else 0
  }

  lemma LeastFreeExists(used: set<int>, total: nat, j: int)
    requires 0 <= j < total && j !in used
    ensures exists b :: LeastFree(used, total, b)
    decreases j
  {
    if i :| 0 <= i < j && i !in used {
      LeastFreeExists(used, total, i);
    } else {
      assert LeastFree(used, total, j);
    }
  }

  /** With frame 0 in use, allocation succeeds as often as there are free frames; else the first call looks failed. */
  lemma {:induction false} SuccessesExact(used: set<int>, total: nat)
    requires used <= Range(0, total)
    ensures Successes(used, total) == if 0 in used then total - |used| else 0
    ensures Successes(used, total) == total - |used| <==> 0 in used || total == 0
    decreases Range(0, total) - used
  {
    RangeSize(0, total);
    SubsetSize(used, Range(0, total));
    if b :| LeastFree(used, total, b) && b != 0 {
      var c :| LeastFree(used, total, c) && c != 0 && Successes(used, total) == 1 + Successes(used + {c}, total);
      assert c in Range(0, total) - used;
      SuccessesExact(used + {c}, total);
    } else if 0 in used {
      forall j | j in Range(0, total) ensures j in used {
        if j !in used { LeastFreeExists(used, total, j); }
      }
      assert used == Range(0, total);
    } else if total > 0 {
      assert 0 in Range(0, total);
    }
  }

  // ---- The code ----

  class Pmm {
    const bitmap: array<bv32>
    var totalBlocks: word
    var usedBlocks: word

    /** The bitmap has a bit for every block, and block addresses fit 32 bits. */
    ghost predicate Sized()
      reads this
    {
      totalBlocks <= 32 * bitmap.Length && totalBlocks * PAGE_SIZE <= WORD_LIMIT
    }

    ghost function Used(): set<int>
      requires Sized()
      reads this, bitmap
    {
      UsedSet(bitmap[..], totalBlocks)
    }

    /** The counter agrees with the bitmap. */
    ghost predicate Valid()
      reads this, bitmap
    {
      Sized() && usedBlocks == |Used()|
    }

    /** pmm_init: `bitmap` is the memory at 2 MB, with whatever it contains. */
    constructor (memLow: word, memHigh: word, bitmap: array<bv32>)
      requires (memLow + memHigh) % WORD_LIMIT / 0x1000 <= 32 * bitmap.Length
      modifies bitmap
      ensures this.bitmap == bitmap && Sized()
      ensures totalBlocks == (memLow + memHigh) % WORD_LIMIT / 0x1000
      ensures bitmap[..] == Filled(old(bitmap[..]), WordsFilled(totalBlocks))
      ensures CoversAll(totalBlocks) ==> Valid() && Used() == Range(0, totalBlocks)
    {
      var totalMemory := (memLow + memHigh) % WORD_LIMIT;
      totalBlocks := totalMemory / PAGE_SIZE;
      usedBlocks := totalMemory / PAGE_SIZE;
      this.bitmap := bitmap;
      new;
      FillBitmap(bitmap, totalBlocks);
      RangeSize(0, totalBlocks);
    }

    static method FillBitmap(bitmap: array<bv32>, total: word)
      requires total <= 32 * bitmap.Length
      modifies bitmap
      ensures bitmap[..] == Filled(old(bitmap[..]), WordsFilled(total))
    {
      var bitmapSize := total / 8;
      if bitmapSize * 8 < total {
        bitmapSize := bitmapSize + 1;
      }
      FilledFits(total, bitmap.Length);
      for i := 0 to bitmapSize / 4
        invariant bitmap[..] == Filled(old(bitmap[..]), i)
      {
        bitmap[i] := ALL_ONES;
      }
    }

    method BitmapSet(bit: word)
      requires Sized() && bit < 32 * bitmap.Length
      modifies bitmap
      ensures Used() == old(Used()) + (if bit < totalBlocks then {bit as int} else {})
    {
      SetBitUsed(bitmap[..], totalBlocks, bit);
      bitmap[bit / 32] := SetIn(bitmap[bit / 32], Mask(bit % 32));
      assert bitmap[..] == old(bitmap[..])[bit / 32 := SetIn(old(bitmap[bit / 32]), Mask(bit % 32))];
    }

    method BitmapClear(bit: word)
      requires Sized() && bit < 32 * bitmap.Length
      modifies bitmap
      ensures Used() == old(Used()) - {bit as int}
    {
      ClearBitUsed(bitmap[..], totalBlocks, bit);
      bitmap[bit / 32] := ClearIn(bitmap[bit / 32], Mask(bit % 32));
      assert bitmap[..] == old(bitmap[..])[bit / 32 := ClearIn(old(bitmap[bit / 32]), Mask(bit % 32))];
    }

    method BitmapTest(bit: word) returns (r: bool)
      requires Sized() && bit < totalBlocks
      ensures r <==> bit as int in Used()
    {
      r := Test(bitmap[bit / 32], Mask(bit % 32));
    }

    /** -1 when every block is used. */
    method FindFirstFree() returns (r: int)
      requires Sized()
      ensures r == -1 <==> Used() == Range(0, totalBlocks)
      ensures r != -1 ==> LeastFree(Used(), totalBlocks, r)
    {
      var i: word := 0;
      while i < totalBlocks
        invariant i <= totalBlocks
        invariant forall j :: 0 <= j < i ==> j in Used()
      {
        var used := BitmapTest(i);
        if !used {
          assert i as int in Range(0, totalBlocks);
          return i;
        }
        i := i + 1;
      }
      return -1;
    }

    method ClearBlocks(startBlock: nat, numBlocks: nat)
      requires Sized() && startBlock + numBlocks <= 32 * bitmap.Length && startBlock + numBlocks < WORD_LIMIT
      modifies this, bitmap
      ensures Sized() && totalBlocks == old(totalBlocks)
      ensures Used() == old(Used()) - Range(startBlock, startBlock + numBlocks)
      ensures usedBlocks == Wrap(old(usedBlocks) - numBlocks)
    {
      hide UsedSet, Range, Wrap;
      ghost var used, count := Used(), usedBlocks;
      RangeEmpty(startBlock);
      WrapStep(count);
      for i := 0 to numBlocks
        invariant Sized() && totalBlocks == old(totalBlocks)
        invariant Used() == used - Range(startBlock, startBlock + i)
        invariant usedBlocks == Wrap(count - i)
      {
        RangeNext(startBlock, startBlock + i, totalBlocks);
        WrapStep(count - i);
        BitmapClear(startBlock + i);
        usedBlocks := Wrap(usedBlocks - 1);
      }
    }

    method SetBlocks(startBlock: nat, numBlocks: nat)
      requires Sized() && startBlock + numBlocks <= 32 * bitmap.Length && startBlock + numBlocks < WORD_LIMIT
      modifies this, bitmap
      ensures Sized() && totalBlocks == old(totalBlocks)
      ensures Used() == old(Used()) + Range(startBlock, startBlock + numBlocks) * Range(0, totalBlocks)
      ensures usedBlocks == Wrap(old(usedBlocks) + numBlocks)
    {
      hide UsedSet, Range, Wrap;
      ghost var used, count := Used(), usedBlocks;
      RangeEmpty(startBlock);
      WrapStep(count);
      for i := 0 to numBlocks
        invariant Sized() && totalBlocks == old(totalBlocks)
        invariant Used() == used + Range(startBlock, startBlock + i) * Range(0, totalBlocks)
        invariant usedBlocks == Wrap(count + i)
      {
        RangeNext(startBlock, startBlock + i, totalBlocks);
        WrapStep(count + i);
        BitmapSet(startBlock + i);
        usedBlocks := Wrap(usedBlocks + 1);
      }
    }

    /** Frees the blocks of a region.  The counter stays right exactly when all of them were used. */
    method InitRegion(addr: word, size: word)
      requires Sized() && addr / 0x1000 + size / 0x1000 <= 32 * bitmap.Length
      modifies this, bitmap
      ensures Sized() && totalBlocks == old(totalBlocks)
      ensures Used() == old(Used()) - Range(addr / 0x1000, addr / 0x1000 + size / 0x1000)
      ensures usedBlocks == Wrap(old(usedBlocks) - size / 0x1000)
      ensures old(Valid()) ==>
                (Valid() <==> Range(addr / 0x1000, addr / 0x1000 + size / 0x1000) <= old(Used()))
    {
      hide UsedSet, Range, Wrap;
      UsedBounded(bitmap[..], totalBlocks);
      var startBlock, numBlocks := addr / PAGE_SIZE, size / PAGE_SIZE;
      CountAfterClear(Used(), Range(startBlock, startBlock + numBlocks), startBlock, numBlocks, totalBlocks);
      ClearBlocks(startBlock, numBlocks);
    }

    /** Takes the blocks of a region.  The counter stays right exactly when all of them exist and were free. */
    method DeinitRegion(addr: word, size: word)
      requires Sized() && addr / 0x1000 + size / 0x1000 <= 32 * bitmap.Length
      modifies this, bitmap
      ensures Sized() && totalBlocks == old(totalBlocks)
      ensures Used() == old(Used())
                        + Range(addr / PAGE_SIZE, addr / PAGE_SIZE + size / PAGE_SIZE) * Range(0, totalBlocks)
      ensures usedBlocks == Wrap(old(usedBlocks) + size / 0x1000)
      ensures old(Valid()) ==>
                (Valid() <==> && Range(addr / 0x1000, addr / 0x1000 + size / 0x1000) !! old(Used())
                              && Range(addr / 0x1000, addr / 0x1000 + size / 0x1000) <= Range(0, totalBlocks))
    {
      hide UsedSet, Range, Wrap;
      UsedBounded(bitmap[..], totalBlocks);
      var startBlock, numBlocks := addr / PAGE_SIZE, size / PAGE_SIZE;
      CountAfterSet(Used(), Range(startBlock, startBlock + numBlocks), startBlock, numBlocks, totalBlocks);
      SetBlocks(startBlock, numBlocks);
    }

    /**
     Hands out the lowest free block, and 0 on failure.  Block 0 has the address 0, too.  The count is
     tested first; while it is right, that test alone decides.
     */
    method AllocBlock() returns (r: word)
      requires Sized()
      modifies this, bitmap
      ensures Sized() && totalBlocks == old(totalBlocks)
      ensures old(usedBlocks) >= totalBlocks || old(Used()) == Range(0, totalBlocks) ==>
                r == 0 && bitmap[..] == old(bitmap[..]) && usedBlocks == old(usedBlocks)
      ensures old(usedBlocks) < totalBlocks && old(Used()) != Range(0, totalBlocks) ==>
                && r % 0x1000 == 0 && LeastFree(old(Used()), totalBlocks, r / 0x1000)
                && Used() == old(Used()) + {r / 0x1000} && usedBlocks == old(usedBlocks) + 1
      ensures r == 0 <==> old(usedBlocks) >= totalBlocks || old(Used()) == Range(0, totalBlocks) || 0 !in old(Used())
      ensures old(Valid()) ==> Valid() && (old(usedBlocks) < totalBlocks <==> old(Used()) != Range(0, totalBlocks))
    {
      hide UsedSet, Range;
      UsedBounded(bitmap[..], totalBlocks);
      RangeSize(0, totalBlocks);
      if usedBlocks >= totalBlocks {
        return 0;
      }
      var block := FindFirstFree();
      if block == -1 {
        return 0;
      }
      BitmapSet(block);
      usedBlocks := usedBlocks + 1;
      return block * PAGE_SIZE;
    }

    /** The counter stays right exactly when the block was used. */
    method FreeBlock(addr: word)
      requires Sized() && addr / 0x1000 < 32 * bitmap.Length
      modifies this, bitmap
      ensures Sized() && totalBlocks == old(totalBlocks)
      ensures Used() == old(Used()) - {addr / 0x1000}
      ensures usedBlocks == Wrap(old(usedBlocks) - 1)
      ensures old(Valid()) ==> (Valid() <==> addr / 0x1000 in old(Used()))
    {
      hide UsedSet, Range;
      ghost var used := Used();
      UsedBounded(bitmap[..], totalBlocks);
      RemovedSize(used, {addr as int / PAGE_SIZE});
      BitmapClear(addr / PAGE_SIZE);
      usedBlocks := Wrap(usedBlocks - 1);
    }

    /**
     The number of free frames exactly while the counter is right; and then the number of frames that
     allocation can still hand out, exactly when frame 0 is not one of them.
     */
    method GetFreeBlocks() returns (n: word)
      requires Sized()
      ensures n == |Range(0, totalBlocks) - Used()| <==> Valid()
      ensures Valid() ==> (n == Successes(Used(), totalBlocks) <==> 0 in Used() || totalBlocks == 0)
    {
      hide UsedSet, Range, Wrap;
      UsedBounded(bitmap[..], totalBlocks);
      SuccessesExact(Used(), totalBlocks);
      RangeSize(0, totalBlocks);
      RemovedSize(Range(0, totalBlocks), Used());
      assert Range(0, totalBlocks) * Used() == Used();
      WrapDifference(totalBlocks, usedBlocks, |Used()|);
      n := Wrap(totalBlocks - usedBlocks);
    }

    /** A caller that allocates until it gets NULL. */
    method AllocUntilNull() returns (n: nat)
      requires Valid()
      modifies this, bitmap
      ensures Valid() && totalBlocks == old(totalBlocks)
      ensures n == Successes(old(Used()), totalBlocks)
      ensures n == totalBlocks - old(usedBlocks) <==> 0 in old(Used()) || totalBlocks == 0
      ensures 0 in old(Used()) ==> Used() == Range(0, totalBlocks)
    {
      hide UsedSet, Range;
      n := 0;
      ghost var used := Used();
      UsedBounded(bitmap[..], totalBlocks);
      SuccessesExact(used, totalBlocks);
      var r := AllocBlock();
      while r != 0
        invariant Valid() && totalBlocks == old(totalBlocks) && used <= Range(0, totalBlocks)
        invariant 0 in used <==> 0 in old(Used())
        invariant 0 !in used ==> n == 0
        invariant r == 0 <==> |used| >= totalBlocks || used == Range(0, totalBlocks) || 0 !in used
        invariant r == 0 && 0 in used ==> Used() == used
        invariant r != 0 ==> Used() == used + {r / PAGE_SIZE} && LeastFree(used, totalBlocks, r / PAGE_SIZE)
        invariant |used| == old(usedBlocks) + n
        decreases totalBlocks - |used|
      {
        used := Used();
        UsedBounded(bitmap[..], totalBlocks);
        n := n + 1;
        r := AllocBlock();
      }
      RangeSize(0, totalBlocks);
      SubsetSize(used, Range(0, totalBlocks));
    }
  }

  /** One free frame, and the allocation that takes it looks failed: 128 kB, of which only frame 0 is free. */
  method FrameZeroLooksFailed(bitmap: array<bv32>) returns (free: word, r: word)
    requires bitmap.Length > 0
    modifies bitmap
    ensures free == 1 && r == 0
  {
    hide UsedSet, Range, Filled, WordsFilled, CoversAll;
    var pmm := new Pmm(0x2_0000, 0, bitmap);
    InitCoversExactly(32);
    FirstOf32();
    pmm.InitRegion(0, PAGE_SIZE);
    free := pmm.GetFreeBlocks();
    r := pmm.AllocBlock();
  }

  lemma FirstOf32()
    ensures Range(0, 1) <= Range(0, 32) && 0 !in Range(0, 32) - Range(0, 1)
    ensures |Range(0, 32) - (Range(0, 32) - Range(0, 1))| == 1
  {
    RangeSize(0, 1);
    assert Range(0, 32) - (Range(0, 32) - Range(0, 1)) == Range(0, 1);
  }

  lemma CountAfterClear(used: set<int>, r: set<int>, start: nat, n: nat, total: nat)
    requires r == Range(start, start + n) && n < WORD_LIMIT && |used| <= total < WORD_LIMIT
    ensures |used - r| == Wrap(|used| - n) <==> r <= used
  {
    hide Range;
    RemovedSize(used, r);
    RangeSize(start, start + n);
  }

  lemma CountAfterSet(used: set<int>, r: set<int>, start: nat, n: nat, total: nat)
    requires r == Range(start, start + n) && |used| + n < WORD_LIMIT
    ensures |used + r * Range(0, total)| == Wrap(|used| + n) <==> r !! used && r <= Range(0, total)
  {
    hide Range;
    AddedSize(used, r, Range(0, total));
    RangeSize(start, start + n);
  }

  lemma UsedBounded(ws: seq<bv32>, total: nat)
    requires total <= 32 * |ws|
    ensures UsedSet(ws, total) <= Range(0, total) && |UsedSet(ws, total)| <= total
    ensures |UsedSet(ws, total)| == total ==> UsedSet(ws, total) == Range(0, total)
  {
    RangeSize(0, total);
    SubsetSize(UsedSet(ws, total), Range(0, total));
  }
}
