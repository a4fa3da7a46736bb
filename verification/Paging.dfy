/** The page tables of kernel/disabled/memory/paging.c, made lazily from the frames of Pmm. */
module Paging {
  import opened Memory
  import opened Options
  import opened Sets
  import opened Pmm
  import opened PageTables

  class Paging {
    const pmm: Pmm
    const phys: array<word>
    const tables: array<word>
    const tablesPhysical: array<word>

    ghost predicate Shaped()
      reads this, pmm
    {
      && tables != tablesPhysical && phys != tables && phys != tablesPhysical
      && pmm.bitmap as object !in {tables as object, tablesPhysical as object, phys as object}
      && tables.Length == tablesPhysical.Length == ENTRIES
      && ENTRIES <= phys.Length && pmm.totalBlocks * ENTRIES <= phys.Length
    }

    ghost function State(): (s: Pages)
      requires Shaped() && pmm.Sized()
      reads this, pmm, pmm.bitmap, phys, tables, tablesPhysical
    {
      Pages(tables[..], tablesPhysical[..], phys[..], pmm.Used(), pmm.totalBlocks)
    }

    /** What every run keeps, even if allocation fails. */
    ghost predicate Sound()
      reads this, pmm, pmm.bitmap, phys, tables, tablesPhysical
    {
      Shaped() && pmm.Valid() && Wired(State())
    }

    /** Every table sits in a used frame of its own, and the two arrays of the directory agree. */
    ghost predicate Valid()
      reads this, pmm, pmm.bitmap, phys, tables, tablesPhysical
    {
      Sound() && Whole(State())
    }

    /** The directory as paging_init clears it. */
    ghost predicate Cleared()
      reads this, pmm, pmm.bitmap, phys, tables, tablesPhysical
    {
      Valid() && forall i :: 0 <= i < ENTRIES ==> tables[i] == 0
    }

    ghost function Walk(virt: word): Option<int>
      requires tablesPhysical.Length == ENTRIES
      reads phys, tablesPhysical
    {
      Translate(tablesPhysical[..], phys[..], virt)
    }

    /** The page table entry of `virt`. */
    ghost function EntryAt(virt: word): word
      requires Sound() && tables[TableIndex(virt)] != 0
      reads this, pmm, pmm.bitmap, phys, tables, tablesPhysical
    {
      FoundWired(State(), virt, State());
      phys[Entry(State(), virt)]
    }

    /** The table for `virt` exists or can be allocated: frame 0 would be taken for "no table". */
    ghost predicate TableAvailable(virt: word)
      requires Shaped() && pmm.Sized()
      reads this, pmm, pmm.bitmap, phys, tables, tablesPhysical
    {
      Reached(State(), virt)
    }

    /** The clearing loop of paging_init, over the static directory. */
    constructor (pmm: Pmm, phys: array<word>)
      requires pmm.Valid() && pmm.bitmap as object != phys as object
      requires ENTRIES <= phys.Length && pmm.totalBlocks * ENTRIES <= phys.Length
      ensures this.pmm == pmm && this.phys == phys && fresh(tables) && fresh(tablesPhysical) && Cleared()
      ensures forall v: word :: Walk(v) == None
    {
      this.pmm := pmm;
      this.phys := phys;
      tables := new word[ENTRIES];
      tablesPhysical := new word[ENTRIES];
      new;
      for i := 0 to ENTRIES
        invariant forall j :: 0 <= j < i ==> tables[j] == 0 && tablesPhysical[j] == 0
        invariant pmm.Valid()
      {
        tables[i] := 0;
        tablesPhysical[i] := 0;
      }
    }

    method ClearTable(p: word)
      requires Shaped() && p % PAGE_SIZE == 0 && (p / PAGE_SIZE + 1) * ENTRIES <= phys.Length
      modifies phys
      ensures FrameCleared(old(phys[..]), p / PAGE_SIZE, phys[..])
    {
      for i := 0 to ENTRIES
        invariant forall k :: 0 <= k < phys.Length ==>
                    phys[k] == if p / PAGE_SIZE * ENTRIES <= k < p / PAGE_SIZE * ENTRIES + i then 0 else old(phys[k])
      {
        phys[p / 4 + i] := 0;
      }
    }

    /** The make branch of paging_get_page: allocate, clear and enter a table. */
    method MakeTable(virt: word) returns (p: word)
      requires Sound() && tables[TableIndex(virt)] == 0
      modifies pmm, pmm.bitmap, phys, tables, tablesPhysical
      ensures Sound() && p == tables[TableIndex(virt)] && TableMade(old(State()), TableIndex(virt), State())
      ensures old(Valid()) ==> (Valid() <==> old(TableAvailable(virt)))
      ensures forall v: word :: Walk(v) == if old(Lost(State(), TableIndex(virt), v)) then None else old(Walk(v))
      ensures old(Valid()) ==> forall v: word :: Walk(v) == old(Walk(v))
      ensures p != 0 <==> old(TableAvailable(virt))
    {
      hide Wired, Whole, FrameCleared, TableMade, Translate, UsedSet, Range, LeastFree, TableIndex, Marked, Lost;
      ghost var s := State();
      var t := TableIndex(virt);
      p := pmm.AllocBlock();
      FreshFrame(s.used, s.total, p);
      tables[t] := p;
      assert tables[..] == s.tables[t := p];
      ClearTable(p);
      assert tablesPhysical[..] == s.dir;
      tablesPhysical[t] := Marked(p);
      assert tablesPhysical[..] == s.dir[t := Marked(p)];
      TableStored(s, t, p, phys[..], pmm.Used());
      MadeWired(s, t, State());
      MadeWalks(s, t, State());
      if old(Valid()) { NothingLost(s, t); }
    }

    /** The address of the entry for `virt`; 0 when there is none and `make` is false. */
    method GetPage(virt: word, make: bool) returns (r: word)
      requires Sound()
      modifies pmm, pmm.bitmap, phys, tables, tablesPhysical
      ensures Sound()
      ensures if make then TableFound(old(State()), virt, State()) else State() == old(State())
      ensures make && old(Valid()) ==> (Valid() <==> old(TableAvailable(virt)))
      ensures forall v: word :: Walk(v) ==
                if make && old(tables[TableIndex(virt)]) == 0 && old(Lost(State(), TableIndex(virt), v)) then None
                else old(Walk(v))
      ensures old(Valid()) ==> forall v: word :: Walk(v) == old(Walk(v))
      ensures if make || tables[TableIndex(virt)] != 0 then r == 4 * Entry(State(), virt) else r == 0
      ensures r == 0 <==> if make then !old(TableAvailable(virt)) && PageIndex(virt) == 0
              else tables[TableIndex(virt)] == 0
      ensures r / 4 < phys.Length
    {
      hide Wired, Whole, TableMade, Translate, UsedSet, Range, TableIndex, PageIndex, Lost;
      ghost var s := State();
      var t := TableIndex(virt);
      var pageIdx := PageIndex(virt);
      r := 0;
      if tables[t] != 0 {
        FoundWired(s, virt, s);
        r := tables[t] + 4 * pageIdx;
      } else if make {
        var p := MakeTable(virt);
        FoundWired(s, virt, State());
        r := p + 4 * pageIdx;
      }
    }

    /**
     Maps one page.  Where a table exists, the translation of that page becomes `target` rounded down to a
     page (or nothing, if `flags` lack the present bit), and no other translation changes.  A table made for
     it starts empty.  Without a frame for it the entry goes to frame 0, which all tables that could not be
     made share and which is cleared every time: then the page appears in each of them, unless it is the first
     page of a table, and every other page of those tables is lost.
     */
    method MapPage(virt: word, target: word, flags: word)
      requires Sound()
      modifies pmm, pmm.bitmap, phys, tables, tablesPhysical
      ensures Sound() && pmm.totalBlocks == old(pmm.totalBlocks)
      ensures forall v: word :: Walk(v) == old(AfterMap(State(), virt, target, flags, v))
      ensures Maps(old(State()), State(), virt, target, flags) <==> MapsCleanly(old(State()), virt, target, flags)
      ensures old(Valid()) ==>
                (Maps(old(State()), State(), virt, target, flags)
                 <==> old(TableAvailable(virt)) || PageIndex(virt) != 0 || flags % 2 == 0)
      ensures old(Valid()) ==> (Valid() <==> old(TableAvailable(virt)))
      ensures tables[TableIndex(virt)] != 0 <==> old(TableAvailable(virt))
      ensures tables[TableIndex(virt)] != 0 ==>
                Rights(EntryAt(virt), flags % 2 == 1, flags / 2 % 2 == 1, flags / 4 % 2 == 1)
      ensures old(TableAvailable(virt)) ==>
                var before := if old(tables[TableIndex(virt)]) == 0 then 0 else old(EntryAt(virt));
                EntryAt(virt) == MappedEntry(before, target, flags)
      ensures tables[..] == old(tables[..])[TableIndex(virt) := tables[TableIndex(virt)]]
      ensures tablesPhysical[..] == old(tablesPhysical[..])[TableIndex(virt) := tablesPhysical[TableIndex(virt)]]
      ensures old(tables[TableIndex(virt)]) != 0 ==>
                && tables[..] == old(tables[..]) && tablesPhysical[..] == old(tablesPhysical[..])
                && pmm.Used() == old(pmm.Used())
      ensures old(tables[TableIndex(virt)]) == 0 ==>
                if old(pmm.usedBlocks) >= pmm.totalBlocks
                then tables[..] == old(tables[..]) && pmm.Used() == old(pmm.Used())
                else && tables[TableIndex(virt)] / PAGE_SIZE !in old(pmm.Used())
                     && pmm.Used() == old(pmm.Used()) + {tables[TableIndex(virt)] / PAGE_SIZE}
      ensures !old(TableAvailable(virt)) ==> tablesPhysical[TableIndex(virt)] == 3
    {
      hide Wired, Whole, FrameCleared, Translate, Maps, MapsCleanly, AfterMap, UsedSet, Range, TableIndex, PageIndex;
      hide MappedEntry, Rights;
      ghost var s := State();
      var page := GetPage(virt, true);
      ghost var s1 := State();
      if page != 0 {
        MappedRights(phys[page / 4], target, flags);
        phys[page / 4] := MappedEntry(phys[page / 4], target, flags);
      }
      assert State() == EntrySet(s1, virt, target, flags);
      FoundWired(s, virt, s1);
      MemoryWritten(s1, phys[..]);
      if old(tables[TableIndex(virt)]) == 0 { EntryBefore(s, virt, s1); }
      MappedWalks(s, virt, s1, target, flags, State());
      MapsExactly(s, virt, target, flags, State());
      if old(Valid()) { WholeMapsCleanly(s, virt, target, flags); }
    }

    /**
     Unmaps one page.  Where its table could not be made, the code finds none, and the page stays mapped if
     the processor maps it through frame 0.
     */
    method UnmapPage(virt: word)
      requires Sound()
      modifies pmm, pmm.bitmap, phys, tables, tablesPhysical
      ensures Sound() && (Valid() <==> old(Valid())) && tables[..] == old(tables[..])
      ensures forall v: word :: Walk(v) ==
                if SamePage(v, virt) && tables[TableIndex(virt)] != 0 then None else old(Walk(v))
      ensures (forall v: word :: Walk(v) == if SamePage(v, virt) then None else old(Walk(v)))
              <==> tables[TableIndex(virt)] != 0 || old(Walk(virt)) == None
      ensures old(Valid()) ==> forall v: word :: Walk(v) == if SamePage(v, virt) then None else old(Walk(v))
      ensures tables[TableIndex(virt)] != 0 ==> EntryAt(virt) == old(EntryAt(virt)) / 2 * 2
    {
      hide Wired, Translate, UsedSet, Range, SamePage, TableIndex, PageIndex;
      var page := GetPage(virt, false);
      ghost var s := State();
      SameEntryWalks(s, virt);
      if page != 0 {
        FoundWired(s, virt, s);
        ghost var e := phys[page / 4] - phys[page / 4] % 2;
        phys[page / 4] := phys[page / 4] - phys[page / 4] % 2;
        UnmappedWalks(s, virt, e);
        assert phys[..] == s.mem[Entry(s, virt) := e];
        MemoryWritten(s, phys[..]);
      } else if Whole(s) {
        WholeUnmapped(s, virt);
      }
    }

    /** One turn of the mapping loops of the heap: a frame, or frame 0 for want of one, is mapped at `i`. */
    method AddPage(i: word) returns (frame: word)
      requires Sound() && i % PAGE_SIZE == 0
      modifies pmm, pmm.bitmap, phys, tables, tablesPhysical
      ensures Sound() && pmm.totalBlocks == old(pmm.totalBlocks)
      ensures PageAdded(old(State()), i, frame / PAGE_SIZE, State())
      ensures tables[TableIndex(i)] != 0 ==> Rights(EntryAt(i), true, true, false)
    {
      hide Wired, Whole, Translate, Maps, MapsCleanly, AfterMap, UsedSet, Range, TableIndex, PageIndex, LeastFree;
      hide PageAdded, MappedEntry;
      ghost var s := State();
      UsedBounded(pmm.bitmap[..], pmm.totalBlocks);
      frame := pmm.AllocBlock();
      FreshFrame(s.used, s.total, frame);
      ghost var s1 := State();
      FrameTaken(s, s1);
      MapPage(i, frame, 3);
      PageGiven(s, i, frame, s1, State());
    }

    /**
     The mapping loops of heap_init and expand_heap, from `start` to `start + 4096 * n`.  Every byte gets a
     table and a byte of physical memory to itself, in frames not used before, exactly when the free frames
     are enough for the pages and for the tables they lack.
     */
    method MapRange(start: word, n: nat)
      requires Sound() && start % PAGE_SIZE == 0 && start + PAGE_SIZE * n <= WORD_LIMIT
      modifies pmm, pmm.bitmap, phys, tables, tablesPhysical
      ensures Sound() && pmm.totalBlocks == old(pmm.totalBlocks)
      ensures var hi, need := start + PAGE_SIZE * n, FramesFor(old(tables[..]), start, n);
        && (Owned(State(), start, hi, old(pmm.Used())) <==> old(pmm.usedBlocks) + need <= pmm.totalBlocks)
        && (if old(pmm.usedBlocks) + need <= pmm.totalBlocks
            then && pmm.usedBlocks == old(pmm.usedBlocks) + need && (old(Valid()) ==> Valid())
                 && Extends(old(State()), State()) && OutsideKept(old(State()), State(), start, hi)
            else Spoiled(State(), start, hi, old(pmm.Used())))
    {
      hide Wired, Whole, Translate, UsedSet, Range, PageAdded, Needs, AllBacked, RanOut, Owned, Spoiled;
      hide FramesFor, Extends, OutsideKept;
      ghost var s0 := State();
      ghost var frames: seq<int> := [];
      ghost var enough := true;
      NoneYet(s0, start);
      for k := 0 to n
        invariant Sound() && |frames| == k && pmm.totalBlocks == old(pmm.totalBlocks)
        invariant if enough then AllBacked(s0, State(), start, frames) else RanOut(s0, State(), start, k)
      {
        ghost var s := State();
        var i := start + PAGE_SIZE * k;
        var frame := AddPage(i);
        if !enough {
          StaysOut(s0, s, start, k, i, frame / PAGE_SIZE, State());
        } else if |s.used| + Needs(s, i) <= s.total {
          AllBackedNext(s0, s, start, frames, i, frame / PAGE_SIZE, State());
        } else {
          RunsOut(s0, s, start, frames, i, frame / PAGE_SIZE, State());
          enough := false;
        }
        frames := frames + [frame / PAGE_SIZE];
      }
      UsedBounded(pmm.bitmap[..], pmm.totalBlocks);
      if enough { AllOwned(s0, State(), start, frames); } else { NotOwned(s0, State(), start, n); }
    }

    /** One turn of the mapping loop of paging_init. */
    method MapToItself(i: word)
      requires Sound() && i % PAGE_SIZE == 0 && i < 0x80_0000
      modifies pmm, pmm.bitmap, phys, tables, tablesPhysical
      ensures Sound() && pmm.totalBlocks == old(pmm.totalBlocks)
      ensures old(Valid()) && old(TableAvailable(i)) ==>
                && Valid() && old(pmm.Used()) <= pmm.Used()
                && tables[TableIndex(i)] != 0
                && (forall j :: 0 <= j < ENTRIES && j != TableIndex(i) ==> tables[j] == old(tables[j]))
                && pmm.usedBlocks == old(pmm.usedBlocks) + (if old(tables[TableIndex(i)]) == 0 then 1 else 0)
                && forall v: word :: Walk(v) == if i <= v < i + PAGE_SIZE then Some(v as int) else old(Walk(v))
      ensures old(Valid()) && !old(TableAvailable(i)) && PageIndex(i) == 0 ==> Walk(i) == None
      ensures forall v: word :: (v == 0 || v == TABLE_SPAN) && v != i && old(Walk(v)) == None ==> Walk(v) == None
      ensures tables[TableIndex(i)] != 0 ==> Rights(EntryAt(i), true, true, false)
      ensures old(pmm.usedBlocks) == pmm.totalBlocks ==> pmm.usedBlocks == pmm.totalBlocks
      ensures old(pmm.usedBlocks) == pmm.totalBlocks ==>
                (if i == 0 then old(Cleared()) else OnlyLast(old(State()), i)) ==> OnlyLast(State(), i + PAGE_SIZE)
    {
      hide Wired, Whole, Translate, UsedSet, Range, SamePage, OnlyLast, TableIndex, PageIndex, AfterMap, MappedEntry;
      ghost var s := State();
      PageStep(i);
      FirstPages();
      MapPage(i, i, 3);
      forall v: word | (v == 0 || v == TABLE_SPAN) && v != i && old(Walk(v)) == None ensures Walk(v) == None {
        StaysUnmapped(s, i, i, 3, v);
      }
      if !old(TableAvailable(i)) && PageIndex(i) == 0 { StaysUnmapped(s, i, i, 3, i); }
      if old(pmm.usedBlocks) == pmm.totalBlocks && (if i == 0 then old(Cleared()) else OnlyLast(s, i)) {
        NoTables(s, i);
        OnlyLastNext(s, i, State());
      }
    }

    /**
     The mapping loop of paging_init on the cleared directory.  Exactly with two free frames for tables
     and frame 0 in use, the first 8 MB are mapped to themselves and nothing else is.  With no free frame at
     all only the last page is left, and it appears as the last page of both tables.
     */
    method IdentityMap()
      requires Cleared()
      modifies pmm, pmm.bitmap, phys, tables, tablesPhysical
      ensures Sound()
      ensures (forall v: word :: Walk(v) == if v < 0x80_0000 then Some(v) else None)
              <==> 0 in old(pmm.Used()) && old(pmm.usedBlocks) + 2 <= pmm.totalBlocks
      ensures 0 in old(pmm.Used()) && old(pmm.usedBlocks) + 2 <= pmm.totalBlocks ==>
                Valid() && pmm.usedBlocks == old(pmm.usedBlocks) + 2
      ensures old(pmm.usedBlocks) == pmm.totalBlocks ==>
                forall v: word :: Walk(v) ==
                  if v < 0x80_0000 && PageIndex(v) == ENTRIES - 1 then Some(0x7F_F000 + v % PAGE_SIZE) else None
    {
      hide Wired, Translate, UsedSet, Range, OnlyLast;
      ghost var enough := true;
      ghost var left: word := 0;
      NothingMapped(State());
      var i := 0;
      while i < 0x80_0000
        invariant 0 <= i <= 0x80_0000 && i % PAGE_SIZE == 0
        invariant Sound() && pmm.totalBlocks == old(pmm.totalBlocks)
        invariant enough ==>
                    && Valid() && (if i == 0 then pmm.Used() == old(pmm.Used()) else 0 in old(pmm.Used()))
                    && old(pmm.Used()) <= pmm.Used()
                    && (tables[0] != 0 <==> 0 < i) && (tables[1] != 0 <==> TABLE_SPAN < i)
                    && pmm.usedBlocks == old(pmm.usedBlocks) + TablesBelow(i)
                    && forall v: word :: Walk(v) == if v < i then Some(v) else None
        invariant old(pmm.usedBlocks) == pmm.totalBlocks ==>
                    && pmm.usedBlocks == pmm.totalBlocks
                    && if i == 0 then Cleared() else OnlyLast(State(), i)
        invariant !enough ==>
                    && !(0 in old(pmm.Used()) && old(pmm.usedBlocks) + 2 <= pmm.totalBlocks)
                    && (left == 0 || left == TABLE_SPAN) && left < i && Walk(left) == None
        decreases 0x80_0000 - i
      {
        PageStep(i);
        if enough && !TableAvailable(i) { enough, left := false, i; }
        MapToItself(i);
        i := i + PAGE_SIZE;
      }
      UsedBounded(pmm.bitmap[..], pmm.totalBlocks);
      if old(pmm.usedBlocks) == pmm.totalBlocks { LastOfAll(State()); }
    }
  }

  /** Page tables over a machine of 32 frames with none of them free. */
  method NoFrameFree(bitmap: array<bv32>, phys: array<word>) returns (paging: Paging)
    requires bitmap.Length > 0 && bitmap as object != phys as object && 32 * ENTRIES <= phys.Length
    modifies bitmap
    ensures fresh(paging) && fresh(paging.pmm) && fresh(paging.tables) && fresh(paging.tablesPhysical)
    ensures paging.phys == phys && paging.pmm.bitmap == bitmap && paging.Sound()
    ensures paging.tables[0] == 0 && paging.pmm.usedBlocks == paging.pmm.totalBlocks
    ensures forall v: word :: paging.Walk(v) == None
  {
    hide UsedSet, Range, Filled, WordsFilled, CoversAll, Translate;
    var pmm := new Pmm(0x2_0000, 0, bitmap);
    InitCoversExactly(32);
    RangeSize(0, 32);
    paging := new Paging(pmm, phys);
  }

  /** The second page of a table that could not be made takes the place of the first. */
  method SecondPageTakesOver(bitmap: array<bv32>, phys: array<word>) returns (paging: Paging, ghost first: Option<int>)
    requires bitmap.Length > 0 && bitmap as object != phys as object && 32 * ENTRIES <= phys.Length
    modifies bitmap, phys
    ensures paging.Sound() && first == Some(0x50_0000)
    ensures paging.Walk(0x1000) == None && paging.Walk(0x2000) == Some(0x60_0000)
  {
    hide UsedSet, Translate, Wired;
    paging := NoFrameFree(bitmap, phys);
    assert TableIndex(0x1000) == TableIndex(0x2000) == 0 && PageIndex(0x1000) == 1 && PageIndex(0x2000) == 2;
    paging.MapPage(0x1000, 0x50_0000, 3);
    first := paging.Walk(0x1000);
    paging.MapPage(0x2000, 0x60_0000, 3);
  }

  /** A page mapped through frame 0 is not unmapped. */
  method NotUnmapped(bitmap: array<bv32>, phys: array<word>) returns (paging: Paging)
    requires bitmap.Length > 0 && bitmap as object != phys as object && 32 * ENTRIES <= phys.Length
    modifies bitmap, phys
    ensures paging.Sound() && paging.Walk(0x1000) == Some(0x50_0000)
  {
    hide UsedSet, Translate, Wired;
    paging := NoFrameFree(bitmap, phys);
    assert TableIndex(0x1000) == 0 && PageIndex(0x1000) == 1;
    paging.MapPage(0x1000, 0x50_0000, 3);
    paging.UnmapPage(0x1000);
  }

  /** The tables that the pages below `i`, of the first 8 MB, take. */
  function TablesBelow(i: int): nat {
    (if 0 < i then 1 else 0) + (if TABLE_SPAN < i then 1 else 0)
  }

  /** Frame 0 is handed out exactly when it is free. */
  lemma FreshFrame(used: set<int>, total: nat, p: word)
    ensures LeastFree(used, total, p / PAGE_SIZE) ==>
              && p / PAGE_SIZE < total && p / PAGE_SIZE !in used
              && (p % PAGE_SIZE == 0 ==> (p == 0 <==> 0 !in used))
  {
  }
}
