/**
 Two-level page tables as values.  The specification is the table walk of the processor (Intel SDM
 Volume 3A, section 4.3, 32-bit paging); physical memory is a sequence of 32-bit words.
 */
module PageTables {
  import opened Memory
  import opened Options
  import opened Sets
  import opened Pmm

  const ENTRIES: int := 1024
  const TABLE_SPAN: int := PAGE_SIZE * ENTRIES

  // ---- The table walk ----

  /** The index of the directory entry for `virt`. */
  function TableIndex(virt: word): (t: nat)
    ensures t < ENTRIES
  {
    virt / TABLE_SPAN
  }

  /** The index of the entry for `virt` in its table. */
  function PageIndex(virt: word): (k: nat)
    ensures k < ENTRIES
  {
    virt / PAGE_SIZE % ENTRIES
  }

  /** The index in memory of the entry that `pde` and `virt` select. */
  function EntryIndex(pde: word, virt: word): nat {
    pde / PAGE_SIZE * ENTRIES + PageIndex(virt)
  }

  /** What an entry makes of the address `v`. */
  ghost function PageOf(e: word, v: word): Option<int> {
    if e % 2 == 0 then None else Some(e / PAGE_SIZE * PAGE_SIZE + v % PAGE_SIZE)
  }

  /** The physical address the processor uses for `virt`, if both levels are present. */
  ghost function Translate(dir: seq<word>, m: seq<word>, virt: word): Option<int>
    requires |dir| == ENTRIES
  {
    var pde := dir[TableIndex(virt)];
    if pde % 2 == 0 || EntryIndex(pde, virt) >= |m| then None else PageOf(m[EntryIndex(pde, virt)], virt)
  }

  /** The ten bits of either index and the twelve of the offset are those of the address, in this order. */
  lemma WalkBits(pde: word, v: word)
    ensures v == TableIndex(v) * 0x40_0000 + PageIndex(v) * 0x1000 + v % 0x1000
    ensures TableIndex(v) < 1024 && PageIndex(v) < 1024
    ensures 4 * EntryIndex(pde, v) == pde / 0x1000 * 0x1000 + 4 * PageIndex(v)
  {
  }

  ghost predicate SamePage(v: word, w: word) {
    v / PAGE_SIZE == w / PAGE_SIZE
  }

  lemma SamePageExact(v: word, w: word)
    ensures SamePage(v, w) <==> TableIndex(v) == TableIndex(w) && PageIndex(v) == PageIndex(w)
  {
    assert TableIndex(v) == v / PAGE_SIZE / ENTRIES && TableIndex(w) == w / PAGE_SIZE / ENTRIES;
  }

  // ---- Entries ----

  /** `phys | PAGE_PRESENT | PAGE_WRITE`. */
  function Marked(p: word): word {
    p - p % 4 + 3
  }

  lemma MarkedBits(p: word)
    ensures Marked(p) % 2 == 1 && Marked(p) / 2 % 2 == 1 && Marked(p) / 4 == p / 4
  {
  }

  /** An entry with the present, rw and user bits of `flags` and the frame of `phys`; bits 3 to 11 stay. */
  function MappedEntry(e: word, phys: word, flags: word): word {
    phys / PAGE_SIZE * PAGE_SIZE + e % PAGE_SIZE / 8 * 8 + flags % 8
  }

  /** The present, rw and user bits of an entry. */
  predicate Rights(e: word, present: bool, rw: bool, user: bool) {
    (e % 2 == 1 <==> present) && (e / 2 % 2 == 1 <==> rw) && (e / 4 % 2 == 1 <==> user)
  }

  lemma MappedRights(e: word, target: word, flags: word)
    ensures Rights(MappedEntry(e, target, flags), flags % 2 == 1, flags / 2 % 2 == 1, flags / 4 % 2 == 1)
  {
    hide MappedEntry;
    MappedEntryFields(e, target, flags);
  }

  /** Bit fields: present, rw and user come from `flags`, the frame from `phys`, the rest from the old entry. */
  lemma MappedEntryFields(e: word, phys: word, flags: word)
    ensures var r := MappedEntry(e, phys, flags);
      && r % 2 == flags % 2 && r / 2 % 2 == flags / 2 % 2 && r / 4 % 2 == flags / 4 % 2
      && r / PAGE_SIZE == phys / PAGE_SIZE
      && r % PAGE_SIZE / 8 == e % PAGE_SIZE / 8
  {
    var f, rest, low := phys / PAGE_SIZE, e % PAGE_SIZE / 8, flags % 8;
    var r := MappedEntry(e, phys, flags);
    assert r == f * PAGE_SIZE + (rest * 8 + low) && rest < PAGE_SIZE / 8;
    FrameAndLow(f, rest * 8 + low);
    LowBits(rest * 8 + low, low, rest);
    Bits(r);
    Bits(flags);
  }

  lemma FrameAndLow(f: nat, low: nat)
    requires low < PAGE_SIZE
    ensures (f * PAGE_SIZE + low) / PAGE_SIZE == f && (f * PAGE_SIZE + low) % PAGE_SIZE == low
    ensures (f * PAGE_SIZE + low) % 8 == low % 8
  {
    assert f * PAGE_SIZE + low == 8 * (f * (PAGE_SIZE / 8)) + low;
  }

  lemma LowBits(low: nat, f: nat, rest: nat)
    requires f < 8 && low == rest * 8 + f
    ensures low / 8 == rest && low % 8 == f
  {
  }

  lemma AddEven(q: nat, r: nat)
    ensures (2 * q + r) % 2 == r % 2
  {
  }

  lemma Bits(x: nat)
    ensures x % 2 == x % 8 % 2 && x / 2 % 2 == x % 8 / 2 % 2 && x / 4 % 2 == x % 8 / 4 % 2
  {
    var q, r := x / 8, x % 8;
    assert x == 2 * (4 * q) + r && x / 2 == 2 * (2 * q) + r / 2 && x / 4 == 2 * q + r / 4;
    AddEven(4 * q, r);
    AddEven(2 * q, r / 2);
    AddEven(q, r / 4);
  }

  // ---- The state of the directory ----

  /** The pointers `tables`, the entries `dir`, physical memory, and the frames in use out of `total`. */
  datatype Pages = Pages(tables: seq<word>, dir: seq<word>, mem: seq<word>, used: set<int>, total: nat)

  /**
   Every table sits in a used frame of its own, to which its directory entry points.  Where there is no
   table the entry is empty, or 3: then an allocation failed, and the processor takes frame 0 for the table.
   */
  ghost predicate Wired(s: Pages) {
    && |s.tables| == |s.dir| == ENTRIES <= |s.mem|
    && (forall i :: 0 <= i < ENTRIES ==>
          if s.tables[i] == 0 then s.dir[i] == 0 || s.dir[i] == 3
          else && s.tables[i] % PAGE_SIZE == 0 && s.tables[i] / PAGE_SIZE in s.used
               && (s.tables[i] / PAGE_SIZE + 1) * ENTRIES <= |s.mem| && s.dir[i] as int == s.tables[i] as int + 3)
    && forall i, j :: 0 <= i < j < ENTRIES && s.tables[i] != 0 ==> s.tables[i] != s.tables[j]
  }

  /** No directory entry points to frame 0. */
  ghost predicate Whole(s: Pages) {
    forall i :: 0 <= i < |s.tables| == |s.dir| && s.tables[i] == 0 ==> s.dir[i] == 0
  }

  lemma EntryOfTable(p: word)
    requires p % PAGE_SIZE == 0
    ensures p + 3 < WORD_LIMIT && (p + 3) % PAGE_SIZE == 3 && (p + 3) / PAGE_SIZE == p / PAGE_SIZE
    ensures p != 0 ==> p / PAGE_SIZE != 0
  {
  }

  /** pmm_alloc_block gives a frame that is not taken for "no table". */
  ghost predicate CanMake(s: Pages) {
    |s.used| < s.total && 0 in s.used
  }

  /** `m` with frame `f` cleared. */
  ghost predicate FrameCleared(m: seq<word>, f: nat, m': seq<word>) {
    && (f + 1) * ENTRIES <= |m| == |m'|
    && forall k :: 0 <= k < |m| ==> m'[k] == if f * ENTRIES <= k < (f + 1) * ENTRIES then 0 else m[k]
  }

  /** The make branch: table `t`, missing so far, is put into the allocated frame, or into frame 0 on failure. */
  ghost predicate TableMade(s: Pages, t: nat, s': Pages)
    requires t < |s.tables| == |s.dir| && t < |s'.tables|
  {
    var p := s'.tables[t];
    && p % PAGE_SIZE == 0 && p + 3 < WORD_LIMIT
    && s'.tables == s.tables[t := p] && s'.dir == s.dir[t := p + 3]
    && FrameCleared(s.mem, p / PAGE_SIZE, s'.mem) && s'.total == s.total
    && (p != 0 <==> CanMake(s))
    && (if |s.used| < s.total then p / PAGE_SIZE !in s.used && s'.used == s.used + {p / PAGE_SIZE}
        else s'.used == s.used)
  }

  /** Storing the pointer and the entry, once the frame is cleared, makes the table. */
  lemma TableStored(s: Pages, t: nat, p: word, m: seq<word>, used: set<int>)
    requires t < ENTRIES == |s.tables| == |s.dir| && p % PAGE_SIZE == 0 && FrameCleared(s.mem, p / PAGE_SIZE, m)
    requires p != 0 <==> CanMake(s)
    requires if |s.used| < s.total then p / PAGE_SIZE !in s.used && used == s.used + {p / PAGE_SIZE} else used == s.used
    ensures TableMade(s, t, Pages(s.tables[t := p], s.dir[t := Marked(p)], m, used, s.total))
  {
    hide FrameCleared;
    assert Marked(p) == p + 3;
  }

  lemma MadeWired(s: Pages, t: nat, s': Pages)
    requires Wired(s) && t < ENTRIES == |s'.tables| && s.tables[t] == 0 && TableMade(s, t, s')
    ensures Wired(s') && (s'.tables[t] / PAGE_SIZE + 1) * ENTRIES <= |s'.mem| == |s.mem|
    ensures Whole(s) ==> (Whole(s') <==> CanMake(s))
    ensures !Whole(s) && |s.used| >= s.total ==> !Whole(s')
  {
    assert !CanMake(s) ==> s'.tables[t] == 0 && s'.dir[t] == 3;
    if !Whole(s) {
      var i :| 0 <= i < ENTRIES && s.tables[i] == 0 && s.dir[i] != 0;
      assert !CanMake(s) ==> s'.tables[i] == 0 && s'.dir[i] != 0;
    }
  }

  /** The addresses that lose their entry when table `t` is made: its own, and with frame 0 all that use frame 0. */
  ghost predicate Lost(s: Pages, t: nat, v: word)
    requires |s.dir| == ENTRIES
  {
    TableIndex(v) == t || (!CanMake(s) && s.dir[TableIndex(v)] == 3)
  }

  /** Making a table changes no translation but those that used the frame that it gets. */
  lemma MadeWalks(s: Pages, t: nat, s': Pages)
    requires Wired(s) && t < ENTRIES == |s'.tables| && s.tables[t] == 0 && TableMade(s, t, s')
    ensures forall v: word :: Translate(s'.dir, s'.mem, v) == if Lost(s, t, v) then None else Translate(s.dir, s.mem, v)
  {
    hide Translate, Lost, FrameCleared;
    forall v: word ensures Translate(s'.dir, s'.mem, v) == if Lost(s, t, v) then None else Translate(s.dir, s.mem, v) {
      MadeWalk(s, t, s', v);
    }
  }

  lemma MadeWalk(s: Pages, t: nat, s': Pages, v: word)
    requires Wired(s) && t < ENTRIES == |s'.tables| && s.tables[t] == 0 && TableMade(s, t, s')
    ensures Translate(s'.dir, s'.mem, v) == if Lost(s, t, v) then None else Translate(s.dir, s.mem, v)
  {
    hide TableIndex, PageIndex;
    var i, p := TableIndex(v), s'.tables[t];
    EntryOfTable(p);
    EntryAddress(p, v);
    EntryOfTable(s.tables[i] - s.tables[i] % PAGE_SIZE);
    EntryInFrame(s'.dir[i], v);
  }

  /** While no entry points to frame 0, a missing table has no translation to lose. */
  lemma NothingLost(s: Pages, t: nat)
    requires Wired(s) && Whole(s) && t < ENTRIES && s.tables[t] == 0
    ensures forall v: word :: Lost(s, t, v) ==> Translate(s.dir, s.mem, v) == None
  {
    hide TableIndex;
    forall v: word | Lost(s, t, v) ensures Translate(s.dir, s.mem, v) == None {
      var i := TableIndex(v);
      if s.tables[i] != 0 { EntryOfTable(s.tables[i]); }
    }
  }

  /** An entry lies in the frame of its table. */
  lemma EntryInFrame(pde: word, v: word)
    ensures pde / PAGE_SIZE * ENTRIES <= EntryIndex(pde, v) < (pde / PAGE_SIZE + 1) * ENTRIES
  {
  }

  /** The table for `virt`, made if there was none. */
  ghost predicate TableFound(s: Pages, virt: word, s': Pages) {
    && |s.tables| == |s.dir| == |s'.tables| == ENTRIES
    && if s.tables[TableIndex(virt)] != 0 then s' == s else TableMade(s, TableIndex(virt), s')
  }

  /** The index in memory of the entry for `virt` in its table. */
  ghost function Entry(s: Pages, virt: word): (k: nat)
    requires Wired(s)
  {
    EntryIndex(s.dir[TableIndex(virt)], virt)
  }

  /** There is a table for `virt`, or one can be made. */
  ghost predicate Reached(s: Pages, virt: word)
    requires |s.tables| == ENTRIES
  {
    s.tables[TableIndex(virt)] != 0 || CanMake(s)
  }

  /** The entry lies in memory; in frame 0 it is taken for NULL if it is the first. */
  lemma FoundWired(s: Pages, virt: word, s': Pages)
    requires Wired(s) && TableFound(s, virt, s')
    ensures Wired(s') && Entry(s', virt) < |s'.mem| == |s.mem|
    ensures s'.tables[TableIndex(virt)] + 4 * PageIndex(virt) == 4 * Entry(s', virt)
    ensures Whole(s) ==> (Whole(s') <==> Reached(s, virt))
    ensures !Whole(s) && |s.used| >= s.total ==> !Whole(s')
    ensures Entry(s', virt) == 0 <==> !Reached(s, virt) && PageIndex(virt) == 0
    ensures !Reached(s, virt) ==> s'.dir[TableIndex(virt)] == 3
  {
    hide FrameCleared, TableIndex, PageIndex;
    var t := TableIndex(virt);
    if s.tables[t] == 0 { MadeWired(s, t, s'); }
    var p := s'.tables[t];
    assert s'.dir[t] == p + 3;
    EntryAddress(p, virt);
    EntryOfTable(p);
  }

  /** The entry that paging_map_page stores, unless its address is 0. */
  ghost function EntrySet(s: Pages, virt: word, target: word, flags: word): Pages
    requires Wired(s) && Entry(s, virt) < |s.mem|
  {
    var k := Entry(s, virt);
    if k == 0 then s else s.(mem := s.mem[k := MappedEntry(s.mem[k], target, flags)])
  }

  lemma MemoryWritten(s: Pages, m: seq<word>)
    requires Wired(s) && |m| == |s.mem|
    ensures Wired(s.(mem := m)) && (Whole(s.(mem := m)) <==> Whole(s))
  {
  }

  /** The entry that gets overwritten: what was there before, or 0 in a new table. */
  lemma EntryBefore(s: Pages, virt: word, s': Pages)
    requires Wired(s) && TableFound(s, virt, s') && Wired(s') && s.tables[TableIndex(virt)] == 0
    ensures Entry(s', virt) < |s'.mem| && s'.mem[Entry(s', virt)] == 0
  {
    FoundWired(s, virt, s');
    var p := s'.tables[TableIndex(virt)];
    EntryAddress(p, virt);
    EntryOfTable(p);
  }

  /** `v` uses the same entry as `virt`: it lies in the same page, or both use frame 0 for a table. */
  ghost predicate Shares(s: Pages, v: word, virt: word)
    requires |s.dir| == ENTRIES
  {
    && PageIndex(v) == PageIndex(virt)
    && (TableIndex(v) == TableIndex(virt) || s.dir[TableIndex(v)] == s.dir[TableIndex(virt)] == 3)
  }

  lemma IndexParts(f: nat, i: nat, g: nat, j: nat)
    requires i < ENTRIES && j < ENTRIES && (f != g || i != j)
    ensures f * ENTRIES + i != g * ENTRIES + j
  {
  }

  /** A directory entry is that of its table, or of frame 0. */
  lemma DirEntry(s: Pages, i: nat)
    requires Wired(s) && i < ENTRIES && s.dir[i] != 0
    ensures s.dir[i] % 2 == 1 && s.dir[i] / PAGE_SIZE == s.tables[i] / PAGE_SIZE && s.tables[i] % PAGE_SIZE == 0
    ensures (s.dir[i] / PAGE_SIZE + 1) * ENTRIES <= |s.mem| && (s.tables[i] == 0 <==> s.dir[i] == 3)
  {
    EntryOfTable(s.tables[i] - s.tables[i] % PAGE_SIZE);
  }

  lemma FramesApart(p: word, q: word)
    requires p % PAGE_SIZE == q % PAGE_SIZE == 0
    ensures p / PAGE_SIZE == q / PAGE_SIZE <==> p == q
  {
  }

  lemma TablesApart(s: Pages, i: nat, t: nat)
    requires Wired(s) && i < ENTRIES && t < ENTRIES && s.dir[i] != 0 && s.dir[t] != 0
    ensures s.dir[i] / PAGE_SIZE == s.dir[t] / PAGE_SIZE <==> i == t || s.dir[i] == s.dir[t] == 3
    ensures s.dir[i] % 2 == 1 && (s.dir[i] / PAGE_SIZE + 1) * ENTRIES <= |s.mem|
  {
    DirEntry(s, i);
    DirEntry(s, t);
    FramesApart(s.tables[i], s.tables[t]);
    if i != t && s.tables[i] != 0 { TablesDiffer(s, i, t); }
  }

  lemma TablesDiffer(s: Pages, i: nat, t: nat)
    requires Wired(s) && i < ENTRIES && t < ENTRIES && i != t && s.tables[i] != 0
    ensures s.tables[i] != s.tables[t]
  {
  }

  lemma SharesExact(s: Pages, v: word, virt: word)
    requires Wired(s) && s.dir[TableIndex(v)] != 0 && s.dir[TableIndex(virt)] != 0
    ensures Entry(s, v) == Entry(s, virt) <==> Shares(s, v, virt)
    ensures Entry(s, v) < |s.mem|
  {
    hide TableIndex, PageIndex;
    var f, g := s.dir[TableIndex(v)] / PAGE_SIZE, s.dir[TableIndex(virt)] / PAGE_SIZE;
    TablesApart(s, TableIndex(v), TableIndex(virt));
    EntryInFrame(s.dir[TableIndex(v)], v);
    if f != g || PageIndex(v) != PageIndex(virt) { IndexParts(f, PageIndex(v), g, PageIndex(virt)); }
  }

  /** Writing an entry changes the translation of the addresses that use it, and of no other. */
  lemma EntryWritten(s: Pages, virt: word, e: word)
    requires Wired(s) && s.dir[TableIndex(virt)] != 0
    ensures Entry(s, virt) < |s.mem|
    ensures var m := s.mem[Entry(s, virt) := e];
      forall v: word :: Translate(s.dir, m, v) ==
        if Shares(s, v, virt) then PageOf(e, v) else Translate(s.dir, s.mem, v)
  {
    hide TableIndex, PageIndex, Shares, Translate;
    SharesExact(s, virt, virt);
    var m := s.mem[Entry(s, virt) := e];
    forall v: word
      ensures Translate(s.dir, m, v) == if Shares(s, v, virt) then PageOf(e, v) else Translate(s.dir, s.mem, v)
    {
      EntryWrittenAt(s, virt, e, v);
    }
  }

  lemma EntryWrittenAt(s: Pages, virt: word, e: word, v: word)
    requires Wired(s) && s.dir[TableIndex(virt)] != 0 && Entry(s, virt) < |s.mem|
    ensures var m := s.mem[Entry(s, virt) := e];
      Translate(s.dir, m, v) == if Shares(s, v, virt) then PageOf(e, v) else Translate(s.dir, s.mem, v)
  {
    hide TableIndex, PageIndex;
    if s.dir[TableIndex(v)] != 0 {
      SharesExact(s, v, virt);
      TablesApart(s, TableIndex(v), TableIndex(v));
    }
  }

  /** A page with a table of its own shares its entry with no other page. */
  lemma SharesAlone(s: Pages, v: word, virt: word)
    requires |s.dir| == ENTRIES && s.dir[TableIndex(virt)] != 3
    ensures Shares(s, v, virt) <==> SamePage(v, virt)
  {
    hide TableIndex, PageIndex;
    SamePageExact(v, virt);
  }

  /** What an address of the page that is being mapped should translate to. */
  ghost function Asked(v: word, target: word, flags: word): Option<int> {
    if flags % 2 == 0 then None else Some(target / PAGE_SIZE * PAGE_SIZE + v % PAGE_SIZE)
  }

  /** What `v` should translate to once the page of `virt` is mapped to the frame of `target`. */
  ghost function Retargeted(before: Option<int>, v: word, virt: word, target: word, flags: word): Option<int> {
    if SamePage(v, virt) then Asked(v, target, flags) else before
  }

  /** The page of `virt` is mapped to the frame of `target`, and no other translation changes. */
  ghost predicate Maps(s: Pages, s': Pages, virt: word, target: word, flags: word)
    requires |s.dir| == |s'.dir| == ENTRIES
  {
    forall v: word :: Translate(s'.dir, s'.mem, v) == Retargeted(Translate(s.dir, s.mem, v), v, virt, target, flags)
  }

  /** What `v` does translate to after paging_map_page, in every state that a run can reach. */
  ghost function AfterMap(s: Pages, virt: word, target: word, flags: word, v: word): Option<int>
    requires |s.tables| == |s.dir| == ENTRIES
  {
    var t := TableIndex(virt);
    if SamePage(v, virt) && Reached(s, virt) then Asked(v, target, flags)
    else if s.tables[t] != 0 || !Lost(s, t, v) then Translate(s.dir, s.mem, v)
    else if !CanMake(s) && PageIndex(v) == PageIndex(virt) != 0 then Asked(v, target, flags)
    else None
  }

  lemma AskedEntry(e: word, v: word, target: word, flags: word)
    ensures PageOf(MappedEntry(e, target, flags), v) == Asked(v, target, flags)
  {
    hide MappedEntry;
    MappedEntryFields(e, target, flags);
  }

  /** The addresses that use the entry of `virt` once its table is found or made. */
  lemma SharesAfter(s: Pages, virt: word, s1: Pages, v: word)
    requires Wired(s) && TableFound(s, virt, s1) && Wired(s1)
    ensures Shares(s1, v, virt) <==>
            if Reached(s, virt) then SamePage(v, virt)
            else PageIndex(v) == PageIndex(virt) && Lost(s, TableIndex(virt), v)
  {
    hide TableIndex, PageIndex, SamePage, FrameCleared;
    var t := TableIndex(virt);
    if Reached(s, virt) {
      assert s1.tables[t] != 0;
      EntryOfTable(s1.tables[t]);
      SharesAlone(s1, v, virt);
    } else {
      assert s1.dir == s.dir[t := 3];
    }
  }

  lemma MappedWalk(s: Pages, virt: word, s1: Pages, target: word, flags: word, s': Pages, v: word)
    requires Wired(s) && TableFound(s, virt, s1) && Wired(s1) && Entry(s1, virt) < |s1.mem|
    requires s' == EntrySet(s1, virt, target, flags)
    ensures Translate(s'.dir, s'.mem, v) == AfterMap(s, virt, target, flags, v)
  {
    hide Translate, Shares, FrameCleared, PageOf, MappedEntry, Asked, PageIndex, TableIndex;
    var t, k := TableIndex(virt), Entry(s1, virt);
    FoundWired(s, virt, s1);
    SharesAfter(s, virt, s1, v);
    SamePageExact(v, virt);
    if s.tables[t] == 0 { MadeWalk(s, t, s1, v); }
    if k != 0 {
      TableEntered(s, virt, s1);
      EntryWrittenAt(s1, virt, MappedEntry(s1.mem[k], target, flags), v);
      AskedEntry(s1.mem[k], v, target, flags);
    }
  }

  lemma TableEntered(s: Pages, virt: word, s1: Pages)
    requires Wired(s) && TableFound(s, virt, s1)
    ensures s1.dir[TableIndex(virt)] != 0
  {
  }

  lemma MappedWalks(s: Pages, virt: word, s1: Pages, target: word, flags: word, s': Pages)
    requires Wired(s) && TableFound(s, virt, s1) && Wired(s1) && Entry(s1, virt) < |s1.mem|
    requires s' == EntrySet(s1, virt, target, flags)
    ensures forall v: word :: Translate(s'.dir, s'.mem, v) == AfterMap(s, virt, target, flags, v)
  {
    hide Translate, AfterMap, TableFound;
    forall v: word ensures Translate(s'.dir, s'.mem, v) == AfterMap(s, virt, target, flags, v) {
      MappedWalk(s, virt, s1, target, flags, s', v);
    }
  }

  /** The states in which mapping the page of `virt` does what is asked and nothing else. */
  ghost predicate MapsCleanly(s: Pages, virt: word, target: word, flags: word)
    requires |s.tables| == |s.dir| == ENTRIES
  {
    var t := TableIndex(virt);
    || s.tables[t] != 0
    || (CanMake(s) && forall v: word :: TableIndex(v) == t && !SamePage(v, virt) ==> Translate(s.dir, s.mem, v) == None)
    || (!CanMake(s) && (PageIndex(virt) != 0 || flags % 2 == 0) &&
        forall v: word :: (TableIndex(v) == t || s.dir[TableIndex(v)] == 3) && !SamePage(v, virt) ==>
          Translate(s.dir, s.mem, v) ==
            if PageIndex(v) == PageIndex(virt) != 0 then Asked(v, target, flags) else None)
  }

  /** Exactly in those states. */
  lemma MapsExactly(s: Pages, virt: word, target: word, flags: word, s': Pages)
    requires |s.tables| == |s.dir| == |s'.dir| == ENTRIES
    requires forall v: word :: Translate(s'.dir, s'.mem, v) == AfterMap(s, virt, target, flags, v)
    ensures Maps(s, s', virt, target, flags) <==> MapsCleanly(s, virt, target, flags)
  {
    hide Translate, SamePage, TableIndex, PageIndex;
    SamePageExact(virt, virt);
    var t := TableIndex(virt);
    if MapsCleanly(s, virt, target, flags) {
      forall v: word
        ensures Translate(s'.dir, s'.mem, v) == Retargeted(Translate(s.dir, s.mem, v), v, virt, target, flags)
      {
        SamePageExact(v, virt);
      }
    } else {
      assert Maps(s, s', virt, target, flags) ==> Translate(s'.dir, s'.mem, virt) == Asked(virt, target, flags);
    }
  }

  lemma NoZeroEntry(s: Pages, i: nat)
    requires Wired(s) && Whole(s) && i < ENTRIES
    ensures s.dir[i] != 3
  {
    if s.tables[i] != 0 { EntryOfTable(s.tables[i]); }
  }

  /** While no entry points to frame 0, only the first page of a missing table can fail. */
  lemma WholeMapsCleanly(s: Pages, virt: word, target: word, flags: word)
    requires Wired(s) && Whole(s)
    ensures MapsCleanly(s, virt, target, flags) <==> Reached(s, virt) || PageIndex(virt) != 0 || flags % 2 == 0
  {
    hide Translate, TableIndex, PageIndex, SamePage;
    var t := TableIndex(virt);
    if s.tables[t] == 0 {
      NothingLost(s, t);
      assert forall v: word :: TableIndex(v) == t ==> Lost(s, t, v);
      forall v: word | TableIndex(v) == t || s.dir[TableIndex(v)] == 3 ensures TableIndex(v) == t {
        NoZeroEntry(s, TableIndex(v));
      }
      forall v: word | TableIndex(v) == t && !SamePage(v, virt) ensures PageIndex(v) != PageIndex(virt) {
        SamePageExact(v, virt);
      }
    }
  }

  lemma WholeUnmapped(s: Pages, virt: word)
    requires Wired(s) && Whole(s) && s.tables[TableIndex(virt)] == 0
    ensures Translate(s.dir, s.mem, virt) == None
  {
  }

  /** All addresses of a page are translated, or none. */
  lemma SameEntryWalks(s: Pages, virt: word)
    requires |s.dir| == ENTRIES
    ensures forall v: word :: SamePage(v, virt) ==>
              (Translate(s.dir, s.mem, v) == None <==> Translate(s.dir, s.mem, virt) == None)
    ensures SamePage(virt, virt)
  {
    forall v: word | SamePage(v, virt)
      ensures Translate(s.dir, s.mem, v) == None <==> Translate(s.dir, s.mem, virt) == None
    {
      SamePageExact(v, virt);
    }
  }

  lemma UnmappedWalks(s: Pages, virt: word, e: word)
    requires Wired(s) && s.tables[TableIndex(virt)] != 0 && e % 2 == 0
    ensures Entry(s, virt) < |s.mem|
    ensures forall v: word :: Translate(s.dir, s.mem[Entry(s, virt) := e], v) ==
              if SamePage(v, virt) then None else Translate(s.dir, s.mem, v)
  {
    hide Translate, TableIndex, PageIndex, SamePage, Shares;
    EntryOfTable(s.tables[TableIndex(virt)]);
    EntryWritten(s, virt, e);
    forall v: word ensures Shares(s, v, virt) <==> SamePage(v, virt) { SharesAlone(s, v, virt); }
  }

  /** The first page of a table that cannot be made is left out, and mapping other pages does not map it. */
  lemma StaysUnmapped(s: Pages, virt: word, target: word, flags: word, v: word)
    requires |s.tables| == |s.dir| == ENTRIES && PageIndex(v) == 0
    requires if SamePage(v, virt) then v == virt && !Reached(s, virt) else Translate(s.dir, s.mem, v) == None
    ensures AfterMap(s, virt, target, flags, v) == None
  {
  }

  lemma EntryAddress(p: word, virt: word)
    requires p % PAGE_SIZE == 0
    ensures p + 4 * (PageIndex(virt)) == 4 * EntryIndex(p, virt)
    ensures p + 3 < WORD_LIMIT && EntryIndex(p + 3, virt) == EntryIndex(p, virt) < (p / PAGE_SIZE + 1) * ENTRIES
  {
  }

  // ---- Ranges ----

  /** The tables that are missing for the pages in `lo..hi`. */
  ghost function Missing(tables: seq<word>, lo: int, hi: int): set<int>
    requires |tables| == ENTRIES
  {
    set t: int | 0 <= t < ENTRIES && tables[t] == 0 && lo < hi && lo < (t + 1) * TABLE_SPAN && t * TABLE_SPAN < hi
  }

  /** What mapping `n` pages from `lo` on takes: a frame for each, and one for each missing table. */
  ghost function FramesFor(tables: seq<word>, lo: int, n: nat): nat
    requires |tables| == ENTRIES
  {
    n + |Missing(tables, lo, lo + PAGE_SIZE * n)|
  }

  lemma MissingNone(tables: seq<word>, lo: int)
    requires |tables| == ENTRIES
    ensures Missing(tables, lo, lo) == {}
  {
  }

  /** One more page needs at most one more table. */
  lemma MissingNext(tables: seq<word>, lo: int, i: word)
    requires |tables| == ENTRIES && 0 <= lo <= i && i % PAGE_SIZE == 0
    ensures Missing(tables, lo, i + PAGE_SIZE) ==
            Missing(tables, lo, i) + (if tables[TableIndex(i)] == 0 then {TableIndex(i)} else {})
  {
    hide TableIndex;
    TableBounds(i);
  }

  lemma TableBounds(i: word)
    requires i % PAGE_SIZE == 0
    ensures TableIndex(i) * TABLE_SPAN <= i && i + PAGE_SIZE <= (TableIndex(i) + 1) * TABLE_SPAN
  {
  }

  /**
   The pages from `lo` on are mapped to `frames`, through tables of their own: in use now, not `before`,
   all different, and none of them a table.
   */
  ghost predicate Backed(s: Pages, lo: int, frames: seq<int>, before: set<int>)
    requires |s.tables| == |s.dir| == ENTRIES
  {
    && (forall k :: 0 <= k < |frames| ==> frames[k] in s.used && frames[k] !in before)
    && (forall j, k :: 0 <= j < k < |frames| ==> frames[j] != frames[k])
    && (forall i, k :: 0 <= i < ENTRIES && 0 <= k < |frames| && s.tables[i] != 0 ==>
        s.tables[i] / PAGE_SIZE != frames[k])
    && forall v: word :: lo <= v < lo + PAGE_SIZE * |frames| ==>
         && s.tables[TableIndex(v)] != 0
         && Translate(s.dir, s.mem, v) == Some(frames[(v - lo) / PAGE_SIZE] * PAGE_SIZE + v % PAGE_SIZE)
  }

  /**
   Every byte of `lo..hi` has a table and a byte of physical memory to itself, in frames that were not in use
   `before`, are in use now and hold no page table.
   */
  ghost predicate Owned(s: Pages, lo: int, hi: int, before: set<int>)
    requires |s.tables| == |s.dir| == ENTRIES
  {
    && (forall v: word :: lo <= v < hi ==>
          s.tables[TableIndex(v)] != 0 && InOwnFrame(s, Translate(s.dir, s.mem, v), before))
    && forall v: word, w: word :: lo <= v < w < hi ==> Translate(s.dir, s.mem, v) != Translate(s.dir, s.mem, w)
  }

  ghost predicate InOwnFrame(s: Pages, a: Option<int>, before: set<int>) {
    && a.Some? && a.value / PAGE_SIZE in s.used && a.value / PAGE_SIZE !in before
    && forall i :: 0 <= i < |s.tables| && s.tables[i] != 0 ==> s.tables[i] / PAGE_SIZE != a.value / PAGE_SIZE
  }

  lemma BackedByte(s: Pages, lo: int, frames: seq<int>, before: set<int>, v: word)
    requires |s.tables| == |s.dir| == ENTRIES && Backed(s, lo, frames, before)
    requires lo <= v < lo + PAGE_SIZE * |frames|
    ensures Translate(s.dir, s.mem, v).Some?
    ensures Translate(s.dir, s.mem, v).value / PAGE_SIZE == frames[(v - lo) / PAGE_SIZE]
    ensures Translate(s.dir, s.mem, v).value % PAGE_SIZE == v % PAGE_SIZE
  {
    hide Translate, TableIndex;
    FrameOfByte(frames[(v - lo) / PAGE_SIZE], v % PAGE_SIZE);
  }

  lemma SameByte(lo: int, v: int, w: int)
    requires lo % PAGE_SIZE == 0 && (v - lo) / PAGE_SIZE == (w - lo) / PAGE_SIZE && v % PAGE_SIZE == w % PAGE_SIZE
    ensures v == w
  {
  }

  lemma BackedIsOwned(s: Pages, lo: int, frames: seq<int>, before: set<int>)
    requires |s.tables| == |s.dir| == ENTRIES && lo % PAGE_SIZE == 0 && Backed(s, lo, frames, before)
    ensures Owned(s, lo, lo + PAGE_SIZE * |frames|, before)
  {
    hide Translate, TableIndex;
    forall v: word | lo <= v < lo + PAGE_SIZE * |frames|
      ensures s.tables[TableIndex(v)] != 0 && InOwnFrame(s, Translate(s.dir, s.mem, v), before)
    {
      BackedByte(s, lo, frames, before, v);
    }
    forall v: word, w: word | lo <= v < w < lo + PAGE_SIZE * |frames|
      ensures Translate(s.dir, s.mem, v) != Translate(s.dir, s.mem, w)
    {
      BackedByte(s, lo, frames, before, v);
      BackedByte(s, lo, frames, before, w);
      if (v - lo) / PAGE_SIZE == (w - lo) / PAGE_SIZE && v % PAGE_SIZE == w % PAGE_SIZE { SameByte(lo, v, w); }
    }
  }

  lemma FrameOfByte(f: int, b: nat)
    requires b < PAGE_SIZE
    ensures (f * PAGE_SIZE + b) / PAGE_SIZE == f && (f * PAGE_SIZE + b) % PAGE_SIZE == b
  {
  }

  /** A page without a table, two pages mapped to frame 0, or one if it was in use before. */
  ghost predicate Spoiled(s: Pages, lo: int, hi: int, before: set<int>)
    requires |s.tables| == |s.dir| == ENTRIES
  {
    exists v: word :: lo <= v < hi &&
      (s.tables[TableIndex(v)] == 0 ||
       (Translate(s.dir, s.mem, v) == Some(0) &&
        (0 in before || exists w: word :: lo <= w < v && Translate(s.dir, s.mem, w) == Some(0))))
  }

  lemma SpoiledNotOwned(s: Pages, lo: int, hi: int, before: set<int>)
    requires |s.tables| == |s.dir| == ENTRIES && Spoiled(s, lo, hi, before)
    ensures !Owned(s, lo, hi, before)
  {
    hide Translate, TableIndex;
    var v: word :| lo <= v < hi &&
      (s.tables[TableIndex(v)] == 0 ||
       (Translate(s.dir, s.mem, v) == Some(0) &&
        (0 in before || exists w: word :: lo <= w < v && Translate(s.dir, s.mem, w) == Some(0))));
    if s.tables[TableIndex(v)] != 0 && 0 !in before {
      var w: word :| lo <= w < v && Translate(s.dir, s.mem, w) == Some(0);
      assert Translate(s.dir, s.mem, w) == Translate(s.dir, s.mem, v);
    } else {
      assert !(s.tables[TableIndex(v)] != 0 && InOwnFrame(s, Translate(s.dir, s.mem, v), before));
    }
  }

  /** The frames that the page at `i` needs: one for itself and one for its table. */
  ghost function Needs(s: Pages, i: word): nat
    requires |s.tables| == ENTRIES
  {
    if s.tables[TableIndex(i)] == 0 then 2 else 1
  }

  /** The page at `i` is mapped to frame `f`, through a new and otherwise empty table if there was none. */
  ghost predicate PageEntered(s: Pages, i: word, f: int, s': Pages)
    requires |s.tables| == |s.dir| == |s'.dir| == ENTRIES
  {
    forall v: word :: Translate(s'.dir, s'.mem, v) ==
      if SamePage(v, i) then Some(f * PAGE_SIZE + v % PAGE_SIZE)
      else if s.tables[TableIndex(i)] == 0 && TableIndex(v) == TableIndex(i) then None
      else Translate(s.dir, s.mem, v)
  }

  /** The addresses that have a table are translated as before, but for the page at `i`, which gets frame 0. */
  ghost predicate ZeroEntered(s: Pages, i: word, s': Pages)
    requires |s.tables| == |s.dir| == |s'.dir| == ENTRIES
  {
    forall v: word :: s.tables[TableIndex(v)] != 0 ==>
      Translate(s'.dir, s'.mem, v) == if SamePage(v, i) then Some(v % PAGE_SIZE) else Translate(s.dir, s.mem, v)
  }

  /** The frames in use and the tables after the page at `i` got frame `f`. */
  ghost predicate FramesTaken(s: Pages, i: word, f: int, s': Pages)
    requires |s.tables| == |s'.tables| == |s.dir| == |s'.dir| == ENTRIES
  {
    var t := TableIndex(i);
    if s.tables[t] != 0 then s'.tables == s.tables && s'.dir == s.dir && s'.used == s.used + {f}
    else && s'.tables == s.tables[t := s'.tables[t]] && s'.dir == s.dir[t := s'.dir[t]]
         && s'.tables[t] / PAGE_SIZE !in s.used + {0, f} && s'.used == s.used + {f} + {s'.tables[t] / PAGE_SIZE}
  }

  /**
   One turn of the mapping loops of the heap: the page at `i` gets frame `f`.  With too few frames left,
   either its table stays missing, or the page shares frame 0.
   */
  ghost predicate PageAdded(s: Pages, i: word, f: int, s': Pages)
    requires |s.tables| == |s'.tables| == |s.dir| == |s'.dir| == ENTRIES
  {
    && s'.total == s.total
    && if |s.used| + Needs(s, i) <= s.total
       then && f !in s.used && |s'.used| == |s.used| + Needs(s, i)
            && FramesTaken(s, i, f, s') && PageEntered(s, i, f, s')
       else && |s'.used| >= s.total && s'.tables == s.tables && ZeroEntered(s, i, s')
            && (s.tables[TableIndex(i)] != 0 ==> 0 in s.used)
  }

  /** The tables made so far, in frames that were not in use; the other tables and entries are as before. */
  ghost predicate TablesMade(s0: Pages, s: Pages, made: set<int>)
    requires |s0.tables| == |s.tables| == |s0.dir| == |s.dir| == ENTRIES
  {
    forall t :: 0 <= t < ENTRIES ==>
      if t in made then s.tables[t] != 0 && s.tables[t] / PAGE_SIZE !in s0.used
      else s.tables[t] == s0.tables[t] && s.dir[t] == s0.dir[t]
  }

  /** Outside `lo..hi` nothing changed but in the tables that were made: those are empty there. */
  ghost predicate OutsideKept(s0: Pages, s: Pages, lo: int, hi: int)
    requires |s0.tables| == |s0.dir| == |s.dir| == ENTRIES
  {
    forall v: word :: v < lo || hi <= v ==>
      Translate(s.dir, s.mem, v) ==
        if TableIndex(v) in Missing(s0.tables, lo, hi) then None else Translate(s0.dir, s0.mem, v)
  }

  /** So far every page from `lo` on got a frame, and every missing table was made. */
  ghost predicate AllBacked(s0: Pages, s: Pages, lo: int, frames: seq<int>)
    requires |s0.tables| == |s.tables| == |s0.dir| == |s.dir| == ENTRIES
  {
    var hi := lo + PAGE_SIZE * |frames|;
    && Wired(s) && s.total == s0.total && s0.used <= s.used
    && |s.used| == |s0.used| + |frames| + |Missing(s0.tables, lo, hi)|
    && Backed(s, lo, frames, s0.used)
    && (0 in s.used ==> 0 in s0.used || 0 in frames)
    && TablesMade(s0, s, Missing(s0.tables, lo, hi))
    && OutsideKept(s0, s, lo, hi)
  }

  /** The frames ran out on one of the first `n` pages, and it shows. */
  ghost predicate RanOut(s0: Pages, s: Pages, lo: int, n: nat)
    requires |s0.tables| == |s.tables| == |s.dir| == ENTRIES
  {
    && s.total == s0.total <= |s.used|
    && |s0.used| + n + |Missing(s0.tables, lo, lo + PAGE_SIZE * n)| > s0.total
    && Spoiled(s, lo, lo + PAGE_SIZE * n, s0.used)
  }

  lemma PageApart(i: word, v: word)
    requires i % PAGE_SIZE == 0
    ensures SamePage(v, i) <==> i <= v < i + PAGE_SIZE
    ensures SamePage(v, i) ==> TableIndex(v) == TableIndex(i)
  {
    SamePageExact(v, i);
  }

  lemma PageNumber(d: nat, n: nat)
    ensures PAGE_SIZE * n <= d < PAGE_SIZE * (n + 1) ==> d / PAGE_SIZE == n
    ensures d < PAGE_SIZE * n ==> d / PAGE_SIZE < n
  {
  }

  lemma BackedWalk(s: Pages, lo: int, frames: seq<int>, before: set<int>, i: word, f: int, s': Pages, v: word)
    requires |s.tables| == |s.dir| == |s'.tables| == |s'.dir| == ENTRIES && Backed(s, lo, frames, before)
    requires i == lo + PAGE_SIZE * |frames| && i % PAGE_SIZE == 0 && lo <= v < i + PAGE_SIZE
    requires PageEntered(s, i, f, s') && FramesTaken(s, i, f, s')
    ensures s'.tables[TableIndex(v)] != 0
    ensures Translate(s'.dir, s'.mem, v) == Some((frames + [f])[(v - lo) / PAGE_SIZE] * PAGE_SIZE + v % PAGE_SIZE)
  {
    hide Translate, SamePage, TableIndex;
    PageApart(i, v);
    PageNumber(v - lo, |frames|);
  }

  lemma BackedNext(s: Pages, lo: int, frames: seq<int>, before: set<int>, i: word, f: int, s': Pages)
    requires Wired(s) && |s'.tables| == |s'.dir| == ENTRIES
    requires Backed(s, lo, frames, before) && before <= s.used
    requires i == lo + PAGE_SIZE * |frames| && i % PAGE_SIZE == 0
    requires PageAdded(s, i, f, s') && |s.used| + Needs(s, i) <= s.total
    ensures Backed(s', lo, frames + [f], before)
  {
    hide Translate, TableIndex, SamePage, PageEntered;
    forall v: word | lo <= v < lo + PAGE_SIZE * |frames + [f]|
      ensures s'.tables[TableIndex(v)] != 0
      ensures Translate(s'.dir, s'.mem, v) == Some((frames + [f])[(v - lo) / PAGE_SIZE] * PAGE_SIZE + v % PAGE_SIZE)
    {
      BackedWalk(s, lo, frames, before, i, f, s', v);
    }
    OthersApart(s, frames, i, f, s');
  }

  /** The new frame and the new table are apart from everything handed out before. */
  lemma OthersApart(s: Pages, frames: seq<int>, i: word, f: int, s': Pages)
    requires Wired(s) && |s'.tables| == |s'.dir| == ENTRIES
    requires forall k :: 0 <= k < |frames| ==> frames[k] in s.used
    requires forall t, k :: 0 <= t < ENTRIES && 0 <= k < |frames| && s.tables[t] != 0 ==>
             s.tables[t] / PAGE_SIZE != frames[k]
    requires f !in s.used && FramesTaken(s, i, f, s')
    ensures forall t, k :: 0 <= t < ENTRIES && 0 <= k <= |frames| && s'.tables[t] != 0 ==>
              s'.tables[t] / PAGE_SIZE != (frames + [f])[k]
  {
    hide TableIndex;
  }

  lemma OutsideNext(s0: Pages, s: Pages, lo: int, i: word, f: int, s': Pages)
    requires |s0.tables| == |s0.dir| == |s.tables| == |s.dir| == |s'.dir| == ENTRIES
    requires 0 <= lo <= i && i % PAGE_SIZE == 0
    requires OutsideKept(s0, s, lo, i) && TablesMade(s0, s, Missing(s0.tables, lo, i)) && PageEntered(s, i, f, s')
    ensures OutsideKept(s0, s', lo, i + PAGE_SIZE)
  {
    hide Translate, SamePage, TableIndex, Missing;
    MissingNext(s0.tables, lo, i);
    forall v: word | v < lo || i + PAGE_SIZE <= v
      ensures Translate(s'.dir, s'.mem, v) ==
        if TableIndex(v) in Missing(s0.tables, lo, i + PAGE_SIZE) then None else Translate(s0.dir, s0.mem, v)
    {
      PageApart(i, v);
    }
  }

  lemma TablesMadeNext(s0: Pages, s: Pages, made: set<int>, i: word, f: int, s': Pages)
    requires |s0.tables| == |s0.dir| == |s.dir| == |s.tables| == |s'.tables| == |s'.dir| == ENTRIES
    requires TablesMade(s0, s, made) && s0.used <= s.used && FramesTaken(s, i, f, s')
    ensures TablesMade(s0, s', made + (if s0.tables[TableIndex(i)] == 0 then {TableIndex(i)} else {}))
  {
    hide TableIndex;
  }

  lemma AllBackedNext(s0: Pages, s: Pages, lo: int, frames: seq<int>, i: word, f: int, s': Pages)
    requires |s0.tables| == |s0.dir| == |s.dir| == |s.tables| == ENTRIES && AllBacked(s0, s, lo, frames)
    requires 0 <= lo && i == lo + PAGE_SIZE * |frames| && i % PAGE_SIZE == 0
    requires Wired(s') && |s'.tables| == |s'.dir| == ENTRIES
    requires PageAdded(s, i, f, s') && |s.used| + Needs(s, i) <= s.total
    ensures AllBacked(s0, s', lo, frames + [f])
  {
    hide Wired, TableIndex, Backed, Missing, TablesMade, PageEntered, OutsideKept;
    BackedNext(s, lo, frames, s0.used, i, f, s');
    MissingNext(s0.tables, lo, i);
    MissingCount(s0, s, lo, i);
    TablesMadeNext(s0, s, Missing(s0.tables, lo, i), i, f, s');
    OutsideNext(s0, s, lo, i, f, s');
  }

  lemma MissingCount(s0: Pages, s: Pages, lo: int, i: word)
    requires |s0.tables| == |s.tables| == |s0.dir| == |s.dir| == ENTRIES && 0 <= lo <= i && i % PAGE_SIZE == 0
    requires TablesMade(s0, s, Missing(s0.tables, lo, i))
    ensures |Missing(s0.tables, lo, i + PAGE_SIZE)| + 1 == |Missing(s0.tables, lo, i)| + Needs(s, i)
  {
    hide TableIndex;
    MissingNext(s0.tables, lo, i);
    var t := TableIndex(i);
    var missing := Missing(s0.tables, lo, i);
    if t in missing {
      assert s0.tables[t] == 0 && s.tables[t] != 0 && missing + {t} == missing;
    } else {
      assert s.tables[t] == s0.tables[t] && |missing + {t}| == |missing| + 1 && missing + {} == missing;
    }
  }

  /** A page that stays without a table, or gets frame 0 for want of another. */
  lemma SharesZero(s: Pages, lo: int, frames: seq<int>, before: set<int>, i: word, s': Pages)
    requires |s.tables| == |s.dir| == |s'.tables| == |s'.dir| == ENTRIES && Backed(s, lo, frames, before)
    requires 0 <= lo && i == lo + PAGE_SIZE * |frames| && i % PAGE_SIZE == 0
    requires s'.tables == s.tables && ZeroEntered(s, i, s')
    requires s.tables[TableIndex(i)] != 0 ==> 0 in before || 0 in frames
    ensures Spoiled(s', lo, i + PAGE_SIZE, before)
  {
    hide TableIndex, Translate;
    PageApart(i, i);
    assert i % PAGE_SIZE == 0;
    if s.tables[TableIndex(i)] == 0 {
      assert s'.tables[TableIndex(i)] == 0;
    } else {
      assert Translate(s'.dir, s'.mem, i) == Some(0);
      if 0 !in before {
        var k :| 0 <= k < |frames| && frames[k] == 0;
        var w := lo + PAGE_SIZE * k;
        PageApart(i, w);
        assert Translate(s'.dir, s'.mem, w) == Some(0);
      }
    }
  }

  /** When the frames run out, it shows at once. */
  lemma RunsOut(s0: Pages, s: Pages, lo: int, frames: seq<int>, i: word, f: int, s': Pages)
    requires |s0.tables| == |s0.dir| == |s.dir| == |s.tables| == ENTRIES && AllBacked(s0, s, lo, frames)
    requires 0 <= lo && i == lo + PAGE_SIZE * |frames| && i % PAGE_SIZE == 0
    requires |s'.tables| == |s'.dir| == ENTRIES && PageAdded(s, i, f, s') && |s.used| + Needs(s, i) > s.total
    ensures RanOut(s0, s', lo, |frames| + 1)
  {
    hide Wired, TableIndex, Missing, Translate, Backed, Spoiled, ZeroEntered, TablesMade;
    MissingCount(s0, s, lo, i);
    SharesZero(s, lo, frames, s0.used, i, s');
  }

  lemma SpoiledStays(s: Pages, lo: int, i: word, before: set<int>, s': Pages)
    requires |s.tables| == |s.dir| == |s'.tables| == |s'.dir| == ENTRIES && Spoiled(s, lo, i, before)
    requires i % PAGE_SIZE == 0 && s'.tables == s.tables && ZeroEntered(s, i, s')
    ensures Spoiled(s', lo, i + PAGE_SIZE, before)
  {
    hide TableIndex, Translate, SamePage;
    var v: word :| lo <= v < i &&
      (s.tables[TableIndex(v)] == 0 ||
       (Translate(s.dir, s.mem, v) == Some(0) &&
        (0 in before || exists w: word :: lo <= w < v && Translate(s.dir, s.mem, w) == Some(0))));
    PageApart(i, v);
    if s.tables[TableIndex(v)] != 0 {
      assert Translate(s'.dir, s'.mem, v) == Some(0);
      if 0 !in before {
        var w: word :| lo <= w < v && Translate(s.dir, s.mem, w) == Some(0);
        PageApart(i, w);
        assert s.tables[TableIndex(w)] == 0 || Translate(s'.dir, s'.mem, w) == Some(0);
      }
    } else {
      assert s'.tables[TableIndex(v)] == 0;
    }
  }

  /** From then on it stays so. */
  lemma StaysOut(s0: Pages, s: Pages, lo: int, n: nat, i: word, f: int, s': Pages)
    requires |s0.tables| == |s.dir| == |s.tables| == |s'.tables| == |s'.dir| == ENTRIES && RanOut(s0, s, lo, n)
    requires 0 <= lo && i == lo + PAGE_SIZE * n && i % PAGE_SIZE == 0 && PageAdded(s, i, f, s')
    ensures RanOut(s0, s', lo, n + 1)
  {
    hide TableIndex, Missing, Translate, Spoiled, ZeroEntered, PageEntered;
    MissingNext(s0.tables, lo, i);
    SpoiledStays(s, lo, i, s0.used, s');
  }

  /** Nothing is given back, and new tables are in frames that were not in use. */
  ghost predicate Extends(s: Pages, s': Pages)
    requires |s.tables| == |s'.tables| == ENTRIES
  {
    && s.used <= s'.used
    && forall t :: 0 <= t < ENTRIES && s'.tables[t] != s.tables[t] ==>
         s.tables[t] == 0 && s'.tables[t] / PAGE_SIZE !in s.used
  }

  lemma NoneYet(s: Pages, lo: int)
    requires |s.tables| == |s.dir| == ENTRIES && Wired(s)
    ensures AllBacked(s, s, lo, [])
  {
    hide Wired, Translate;
    MissingNone(s.tables, lo);
  }

  lemma AllOwned(s0: Pages, s: Pages, lo: int, frames: seq<int>)
    requires |s0.tables| == |s.tables| == |s0.dir| == |s.dir| == ENTRIES && AllBacked(s0, s, lo, frames)
             && lo % PAGE_SIZE == 0
    ensures var hi := lo + PAGE_SIZE * |frames|;
      && Owned(s, lo, hi, s0.used) && Extends(s0, s) && OutsideKept(s0, s, lo, hi)
      && |s.used| == |s0.used| + FramesFor(s0.tables, lo, |frames|)
      && (Whole(s0) ==> Whole(s))
  {
    hide Wired, Translate, Backed, OutsideKept, Owned;
    BackedIsOwned(s, lo, frames, s0.used);
  }

  lemma NotOwned(s0: Pages, s: Pages, lo: int, n: nat)
    requires |s0.tables| == |s.tables| == |s.dir| == ENTRIES && RanOut(s0, s, lo, n)
    ensures Spoiled(s, lo, lo + PAGE_SIZE * n, s0.used) && !Owned(s, lo, lo + PAGE_SIZE * n, s0.used)
    ensures |s0.used| + FramesFor(s0.tables, lo, n) > s0.total
  {
    hide Missing, Spoiled, Owned;
    SpoiledNotOwned(s, lo, lo + PAGE_SIZE * n, s0.used);
  }

  lemma FrameTaken(s: Pages, s': Pages)
    requires Wired(s) && s.used <= s'.used && s' == s.(used := s'.used)
    ensures Wired(s')
  {
  }

  /** Frame first, then the table: what that makes of the whole turn. */
  lemma PageGiven(s: Pages, i: word, frame: word, s1: Pages, s': Pages)
    requires Wired(s) && Wired(s') && frame % PAGE_SIZE == 0 && s.used <= Range(0, s.total) && |s.used| <= s.total
    requires s1 == s.(used := if |s.used| < s.total then s.used + {frame / PAGE_SIZE} else s.used)
    requires if |s.used| < s.total then frame / PAGE_SIZE !in s.used && (frame == 0 <==> 0 !in s.used) else frame == 0
    requires s'.total == s.total
    requires forall v: word :: Translate(s'.dir, s'.mem, v) == AfterMap(s1, i, frame, 3, v)
    requires s'.tables == s1.tables[TableIndex(i) := s'.tables[TableIndex(i)]]
    requires s'.dir == s1.dir[TableIndex(i) := s'.dir[TableIndex(i)]]
    requires s1.tables[TableIndex(i)] != 0 ==> s'.tables == s1.tables && s'.dir == s1.dir && s'.used == s1.used
    requires s1.tables[TableIndex(i)] == 0 ==>
               if |s1.used| >= s.total then s'.tables == s1.tables && s'.used == s1.used
               else && s'.tables[TableIndex(i)] / PAGE_SIZE !in s1.used
                    && s'.used == s1.used + {s'.tables[TableIndex(i)] / PAGE_SIZE}
    ensures PageAdded(s, i, frame / PAGE_SIZE, s')
  {
    hide Translate, SamePage, TableIndex, PageIndex, Whole;
    var t := TableIndex(i);
    assert frame / PAGE_SIZE * PAGE_SIZE == frame;
    if |s.used| >= s.total && s.tables[t] != 0 { FullHasZero(s, t); }
    if |s.used| + Needs(s, i) <= s.total {
      PageEnteredBy(s, i, frame, s1, s');
    } else {
      ZeroEnteredBy(s, i, frame, s1, s');
    }
  }

  lemma PageEnteredBy(s: Pages, i: word, frame: word, s1: Pages, s': Pages)
    requires |s.tables| == |s.dir| == |s'.dir| == ENTRIES && frame % PAGE_SIZE == 0 && s1 == s.(used := s1.used)
    requires Reached(s1, i)
    requires forall v: word :: Translate(s'.dir, s'.mem, v) == AfterMap(s1, i, frame, 3, v)
    ensures PageEntered(s, i, frame / PAGE_SIZE, s')
  {
    hide Translate, SamePage, TableIndex, PageIndex;
    assert frame / PAGE_SIZE * PAGE_SIZE == frame;
  }

  lemma ZeroEnteredBy(s: Pages, i: word, frame: word, s1: Pages, s': Pages)
    requires Wired(s) && |s'.dir| == ENTRIES && s1 == s.(used := s1.used)
    requires s.tables[TableIndex(i)] == 0 || frame == 0
    requires s.tables[TableIndex(i)] == 0 ==> !CanMake(s1)
    requires forall v: word :: Translate(s'.dir, s'.mem, v) == AfterMap(s1, i, frame, 3, v)
    ensures ZeroEntered(s, i, s')
  {
    hide Translate, SamePage, TableIndex, PageIndex;
    forall v: word | s.tables[TableIndex(v)] != 0
      ensures Translate(s'.dir, s'.mem, v) == if SamePage(v, i) then Some(v % PAGE_SIZE) else Translate(s.dir, s.mem, v)
    {
      SamePageExact(v, i);
    }
  }

  lemma FullHasZero(s: Pages, t: nat)
    requires Wired(s) && s.used <= Range(0, s.total) && |s.used| >= s.total && t < ENTRIES && s.tables[t] != 0
    ensures 0 in s.used
  {
    RangeSize(0, s.total);
    SubsetSize(s.used, Range(0, s.total));
    assert s.tables[t] / PAGE_SIZE in Range(0, s.total);
  }

  lemma PageStep(i: word)
    requires i % PAGE_SIZE == 0 && i < 0x80_0000
    ensures TableIndex(i) == (if i < TABLE_SPAN then 0 else 1) && (PageIndex(i) == 0 <==> i == 0 || i == TABLE_SPAN)
    ensures forall v: word :: (SamePage(v, i) <==> i <= v < i + PAGE_SIZE)
                              && (SamePage(v, i) ==> i / PAGE_SIZE * PAGE_SIZE + v % PAGE_SIZE == v)
  {
  }

  /** What is mapped when the pages below `i` were mapped to themselves without a frame for any table. */
  ghost predicate OnlyLast(s: Pages, i: int)
    requires |s.tables| == |s.dir| == ENTRIES
  {
    && PAGE_SIZE <= i <= WORD_LIMIT
    && (forall t :: 0 <= t < ENTRIES ==> s.tables[t] == 0 && s.dir[t] == if t * TABLE_SPAN < i then 3 else 0)
    && forall v: word :: Translate(s.dir, s.mem, v) ==
         if TableIndex(v) * TABLE_SPAN < i && PageIndex(v) == PageIndex(i - PAGE_SIZE) != 0
         then Some(i - PAGE_SIZE + v % PAGE_SIZE) else None
  }

  lemma NoTables(s: Pages, i: word)
    requires |s.tables| == |s.dir| == ENTRIES && (OnlyLast(s, i) || forall t :: 0 <= t < ENTRIES ==> s.tables[t] == 0)
    ensures s.tables[TableIndex(i)] == 0
  {
  }

  lemma FirstPages()
    ensures PageIndex(0) == PageIndex(TABLE_SPAN) == 0
  {
  }

  lemma OnlyLastNext(s: Pages, i: word, s': Pages)
    requires |s.tables| == |s.dir| == |s'.dir| == ENTRIES && i % PAGE_SIZE == 0 && !CanMake(s)
    requires if i == 0 then Whole(s) && Wired(s) && (forall t :: 0 <= t < ENTRIES ==> s.tables[t] == 0)
             else OnlyLast(s, i)
    requires s'.tables == s.tables && s'.dir == s.dir[TableIndex(i) := 3]
    requires forall v: word :: Translate(s'.dir, s'.mem, v) == AfterMap(s, i, i, 3, v)
    ensures OnlyLast(s', i + PAGE_SIZE)
  {
    hide Translate, TableIndex, PageIndex, SamePage, Wired;
    if i == 0 { NothingMapped(s); }
    TableBounds(i);
    assert i / PAGE_SIZE * PAGE_SIZE == i;
    forall v: word ensures Translate(s'.dir, s'.mem, v) ==
      if TableIndex(v) * TABLE_SPAN < i + PAGE_SIZE && PageIndex(v) == PageIndex(i) != 0
      then Some(i + v % PAGE_SIZE) else None
    {
      SamePageExact(v, i);
    }
  }

  lemma LastOfAll(s: Pages)
    requires |s.tables| == |s.dir| == ENTRIES && OnlyLast(s, 0x80_0000)
    ensures forall v: word :: Translate(s.dir, s.mem, v) ==
              if v < 0x80_0000 && PageIndex(v) == ENTRIES - 1 then Some(0x7F_F000 + v % PAGE_SIZE) else None
  {
    hide Translate, PageIndex;
    assert PageIndex(0x7F_F000) == 1023 by { LastPage(); }
  }

  lemma LastPage()
    ensures PageIndex(0x7F_F000) == 1023
  {
  }

  lemma NothingMapped(s: Pages)
    requires Wired(s) && Whole(s) && forall i :: 0 <= i < ENTRIES ==> s.tables[i] == 0
    ensures forall v: word :: Translate(s.dir, s.mem, v) == None
  {
  }

  // ---- Tables under paging ----

  /** With paging on, the code reaches the table at `p` exactly if that page is mapped to itself. */
  ghost predicate SelfMapped(s: Pages, p: word)
    requires |s.dir| == ENTRIES
  {
    forall v: word :: p <= v < p + PAGE_SIZE ==> Translate(s.dir, s.mem, v) == Some(v as int)
  }

  ghost predicate TablesSelfMapped(s: Pages)
    requires |s.tables| == |s.dir| == ENTRIES
  {
    forall t :: 0 <= t < ENTRIES && s.tables[t] != 0 ==> SelfMapped(s, s.tables[t])
  }

  /** After paging_init: exactly while the tables lie in the first 8 MB. */
  lemma InitSelfMaps(s: Pages)
    requires Wired(s)
    requires forall v: word :: Translate(s.dir, s.mem, v) == if v < 0x80_0000 then Some(v as int) else None
    ensures TablesSelfMapped(s) <==> forall t :: 0 <= t < ENTRIES && s.tables[t] != 0 ==> s.tables[t] < 0x80_0000
  {
    hide Translate;
    forall t | 0 <= t < ENTRIES && s.tables[t] != 0 ensures SelfMapped(s, s.tables[t]) <==> s.tables[t] < 0x80_0000 {
      var p := s.tables[t];
      if p < 0x80_0000 {
        PageOutside(p, 0x80_0000, 0x80_0000);
      } else {
        assert Translate(s.dir, s.mem, p) != Some(p as int);
      }
    }
  }

  /**
   After the heap mapped `lo..hi`: exactly while no table lies in that range, and each was mapped to itself
   before, through a table that was there.
   */
  lemma RangeSelfMaps(s: Pages, s': Pages, lo: word, hi: int)
    requires |s.tables| == |s.dir| == ENTRIES && Wired(s') && lo % PAGE_SIZE == hi % PAGE_SIZE == 0
    requires Owned(s', lo, hi, s.used) && OutsideKept(s, s', lo, hi)
    ensures TablesSelfMapped(s') <==>
            forall t :: 0 <= t < ENTRIES && s'.tables[t] != 0 ==>
              var p := s'.tables[t];
              !(lo <= p < hi) && TableIndex(p) !in Missing(s.tables, lo, hi) && SelfMapped(s, p)
  {
    hide Translate, TableIndex, Missing;
    forall t | 0 <= t < ENTRIES && s'.tables[t] != 0
      ensures var p := s'.tables[t];
        SelfMapped(s', p) <==>
        !(lo <= p < hi) && TableIndex(p) !in Missing(s.tables, lo, hi) && SelfMapped(s, p)
    {
      var p := s'.tables[t];
      if lo <= p < hi {
        assert InOwnFrame(s', Translate(s'.dir, s'.mem, p), s.used);
      } else {
        PageOutside(p, lo, hi);
        forall v: word | p <= v < p + PAGE_SIZE ensures TableIndex(v) == TableIndex(p) {
          PageApart(p, v);
        }
        assert TableIndex(p) in Missing(s.tables, lo, hi) ==> Translate(s'.dir, s'.mem, p) == None;
      }
    }
  }

  lemma PageOutside(p: word, lo: int, hi: int)
    requires p % PAGE_SIZE == lo % PAGE_SIZE == hi % PAGE_SIZE == 0 && !(lo <= p < hi)
    ensures p + PAGE_SIZE <= lo || hi <= p
  {
  }

  // ---- The bytes behind a range ----

  /** Byte `k` of a little-endian word. */
  function ByteOf(w: word, k: nat): byte
    requires k < 4
  {
    FourBytes(w);
    if k == 0 then w % 0x100
    else if k == 1 then w / 0x100 % 0x100
    else if k == 2 then w / 0x1_0000 % 0x100
    else w / 0x100_0000
  }

  function Join(a: byte, b: byte, c: byte, d: byte): word {
    a as int + 0x100 * (b as int) + 0x1_0000 * (c as int) + 0x100_0000 * (d as int)
  }

  lemma JoinBytes(a: byte, b: byte, c: byte, d: byte)
    ensures var w := Join(a, b, c, d);
      ByteOf(w, 0) == a && ByteOf(w, 1) == b && ByteOf(w, 2) == c && ByteOf(w, 3) == d
  {
    var w := Join(a, b, c, d);
    assert w / 0x100 == b as int + 0x100 * (c as int) + 0x1_0000 * (d as int);
    assert w / 0x1_0000 == c as int + 0x100 * (d as int);
    assert w / 0x100_0000 == d as int;
  }

  /** `w` with byte `k` replaced. */
  function WithByte(w: word, k: nat, b: byte): word
    requires k < 4
  {
    Join(if k == 0 then b else ByteOf(w, 0), if k == 1 then b else ByteOf(w, 1),
         if k == 2 then b else ByteOf(w, 2), if k == 3 then b else ByteOf(w, 3))
  }

  lemma WithByteExact(w: word, k: nat, b: byte, j: nat)
    requires k < 4 && j < 4
    ensures ByteOf(WithByte(w, k, b), j) == if j == k then b else ByteOf(w, j)
  {
    hide ByteOf, Join;
    JoinBytes(if k == 0 then b else ByteOf(w, 0), if k == 1 then b else ByteOf(w, 1),
              if k == 2 then b else ByteOf(w, 2), if k == 3 then b else ByteOf(w, 3));
  }

  /** The byte at the physical address `a`. */
  function ByteAt(m: seq<word>, a: nat): byte
    requires a / 4 < |m|
  {
    ByteOf(m[a / 4], a % 4)
  }

  /** Physical memory after a store of one byte. */
  function ByteStored(m: seq<word>, a: nat, b: byte): seq<word>
    requires a / 4 < |m|
  {
    m[a / 4 := WithByte(m[a / 4], a % 4, b)]
  }

  lemma StoreExact(m: seq<word>, a: nat, b: byte, c: nat)
    requires a / 4 < |m| && c / 4 < |m|
    ensures ByteAt(ByteStored(m, a, b), c) == if c == a then b else ByteAt(m, c)
  {
    hide ByteOf, WithByte;
    if c / 4 == a / 4 { WithByteExact(m[a / 4], a % 4, b, c % 4); }
  }

  /** The frames in use lie in memory. */
  ghost predicate Inside(s: Pages) {
    forall f :: f in s.used ==> 0 <= f && (f + 1) * ENTRIES <= |s.mem|
  }

  lemma OwnedInside(s: Pages, lo: int, hi: int, before: set<int>, v: word)
    requires |s.tables| == |s.dir| == ENTRIES && Owned(s, lo, hi, before) && Inside(s) && lo <= v < hi
    ensures Translate(s.dir, s.mem, v).Some?
    ensures var a := Translate(s.dir, s.mem, v).value; a >= 0 && a / 4 < |s.mem| && a / 4 / ENTRIES == a / PAGE_SIZE
  {
    hide Translate, TableIndex;
    assert InOwnFrame(s, Translate(s.dir, s.mem, v), before);
    var a := Translate(s.dir, s.mem, v).value;
    FrameOfWord(a);
  }

  lemma FrameOfWord(a: int)
    ensures a / 4 / ENTRIES == a / PAGE_SIZE
  {
  }

  /** What a program sees at `v`. */
  ghost function SeenAt(s: Pages, lo: int, hi: int, before: set<int>, v: word): byte
    requires |s.tables| == |s.dir| == ENTRIES && Owned(s, lo, hi, before) && Inside(s) && lo <= v < hi
  {
    OwnedInside(s, lo, hi, before, v);
    ByteAt(s.mem, Translate(s.dir, s.mem, v).value)
  }

  /** What a program sees in `lo..hi`. */
  ghost function Seen(s: Pages, lo: int, hi: int, before: set<int>): (m: seq<byte>)
    requires |s.tables| == |s.dir| == ENTRIES && 0 <= lo <= hi <= WORD_LIMIT && Owned(s, lo, hi, before) && Inside(s)
    ensures |m| == hi - lo
  {
    seq<byte>(hi - lo, k requires 0 <= k < hi - lo => SeenAt(s, lo, hi, before, lo + k))
  }

  /** A store to a frame without a table changes no translation that goes through a table. */
  lemma StoreKeepsWalk(s: Pages, m: seq<word>, k: nat, e: word, v: word)
    requires Wired(s) && k < |s.mem| && m == s.mem[k := e]
    requires s.tables[TableIndex(v)] != 0 && s.tables[TableIndex(v)] / PAGE_SIZE != k / ENTRIES
    ensures Translate(s.dir, m, v) == Translate(s.dir, s.mem, v)
  {
    hide TableIndex, PageIndex;
    EntryOfTable(s.tables[TableIndex(v)]);
    EntryInFrame(s.dir[TableIndex(v)], v);
  }

  /**
   An owned range is memory of its own: a store through the table walk changes the byte that it names, and
   nothing else that a program sees in the range; and the range stays owned.
   */
  lemma StoreSeen(s: Pages, lo: int, hi: int, before: set<int>, v: word, b: byte)
    requires Wired(s) && 0 <= lo <= v < hi <= WORD_LIMIT && Owned(s, lo, hi, before) && Inside(s)
    ensures Translate(s.dir, s.mem, v).Some? && 0 <= Translate(s.dir, s.mem, v).value / 4 < |s.mem|
    ensures var s' := s.(mem := ByteStored(s.mem, Translate(s.dir, s.mem, v).value, b));
      && Wired(s') && Owned(s', lo, hi, before) && Inside(s')
      && Seen(s', lo, hi, before) == Seen(s, lo, hi, before)[v - lo := b]
  {
    hide Translate, TableIndex, ByteStored, ByteAt, Owned;
    OwnedInside(s, lo, hi, before, v);
    var a := Translate(s.dir, s.mem, v).value;
    var s' := s.(mem := ByteStored(s.mem, a, b));
    StoreKeepsOwned(s, lo, hi, before, v, b);
    forall k | 0 <= k < hi - lo
      ensures Seen(s', lo, hi, before)[k] == if k == v - lo then b else Seen(s, lo, hi, before)[k]
    {
      OwnedInside(s, lo, hi, before, lo + k);
      OwnedApart(s, lo, hi, before, v, lo + k);
      StoreExact(s.mem, a, b, Translate(s.dir, s.mem, lo + k).value);
    }
  }

  lemma OwnedApart(s: Pages, lo: int, hi: int, before: set<int>, v: word, w: word)
    requires |s.tables| == |s.dir| == ENTRIES && Owned(s, lo, hi, before) && lo <= v < hi && lo <= w < hi
    ensures Translate(s.dir, s.mem, v) == Translate(s.dir, s.mem, w) <==> v == w
  {
    hide Translate;
    if w < v {
      assert Translate(s.dir, s.mem, w) != Translate(s.dir, s.mem, v);
    } else if v < w {
      assert Translate(s.dir, s.mem, v) != Translate(s.dir, s.mem, w);
    }
  }

  lemma StoreKeepsOwned(s: Pages, lo: int, hi: int, before: set<int>, v: word, b: byte)
    requires Wired(s) && 0 <= lo <= v < hi <= WORD_LIMIT && Owned(s, lo, hi, before) && Inside(s)
    ensures Translate(s.dir, s.mem, v).Some? && 0 <= Translate(s.dir, s.mem, v).value / 4 < |s.mem|
    ensures var s' := s.(mem := ByteStored(s.mem, Translate(s.dir, s.mem, v).value, b));
      && |s'.mem| == |s.mem| && Wired(s') && Owned(s', lo, hi, before) && Inside(s')
      && forall w: word :: lo <= w < hi ==> Translate(s'.dir, s'.mem, w) == Translate(s.dir, s.mem, w)
  {
    hide Translate, TableIndex, WithByte;
    OwnedInside(s, lo, hi, before, v);
    var a := Translate(s.dir, s.mem, v).value;
    var s' := s.(mem := ByteStored(s.mem, a, b));
    MemoryWritten(s, s'.mem);
    forall w: word | lo <= w < hi ensures Translate(s'.dir, s'.mem, w) == Translate(s.dir, s.mem, w) {
      assert s.tables[TableIndex(w)] != 0 && InOwnFrame(s, Translate(s.dir, s.mem, v), before);
      StoreKeepsWalk(s, s'.mem, a / 4, WithByte(s.mem[a / 4], a % 4, b), w);
    }
    forall w: word | lo <= w < hi
      ensures s'.tables[TableIndex(w)] != 0 && InOwnFrame(s', Translate(s'.dir, s'.mem, w), before)
    {
      assert InOwnFrame(s, Translate(s.dir, s.mem, w), before);
    }
  }
}
