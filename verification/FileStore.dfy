/**
 The flat file store of kernel/vfs.c: 64 slots whose `data` pointers are heap allocations.

 The simple form is a sequence of slots holding names and contents, and below that a map from
 names to contents.
 */
module FileStore {
  import opened Memory
  import opened Options
  import opened CStrings
  import opened BlockList
  import opened LiveHeap

  const MAX_FILENAME: int := 32
  const MAX_FILES: int := 64
  const MAX_FILE_SIZE: int := 4096

  datatype FileType = Regular | Directory

  /** `file_t`; `data` is the address of the contents in memory, 0 for none. */
  datatype File = File(name: seq<byte>, kind: FileType, size: word, data: word, inUse: bool)

  // ---- C strings ----

  method StrLen(s: seq<byte>) returns (len: nat)
    requires 0 in s
    ensures len == |Text(s)|
  {
    len := 0;
    while s[len] != 0
      invariant len <= |Text(s)|
      decreases |Text(s)| - len
    {
      len := len + 1;
    }
    TextIs(s, len);
  }

  function Min(a: int, b: int): int {
    if a < b then a else b
  }

  /** Copies at most `max - 1` characters and terminates the copy. */
  method StrCopy(dest: seq<byte>, src: seq<byte>, max: nat) returns (d: seq<byte>)
    requires 0 in src && 1 <= max <= |dest|
    ensures |d| == |dest| && 0 in d
    ensures Text(d) == Text(src)[..Min(|Text(src)|, max - 1)]
  {
    d := dest;
    var i := 0;
    while src[i] != 0 && i < max - 1
      invariant i <= |Text(src)| && i <= max - 1
      decreases max - i
      invariant |d| == |dest| && d[..i] == src[..i]
    {
      d := d[i := src[i]];
      i := i + 1;
    }
    d := d[i := 0];
    assert d[..i] == Text(src)[..i];
    TextIs(d, i);
  }

  method StrCmp(s1: seq<byte>, s2: seq<byte>) returns (r: int)
    requires 0 in s1 && 0 in s2
    ensures r == 0 <==> Text(s1) == Text(s2)
  {
    var i := 0;
    while s1[i] != 0 && s2[i] != 0
      invariant i <= |Text(s1)| && i <= |Text(s2)|
      invariant s1[..i] == s2[..i]
      decreases |Text(s1)| - i
    {
      if s1[i] != s2[i] {
        assert Text(s1)[i] != Text(s2)[i];
        return s1[i] as int - s2[i] as int;
      }
      i := i + 1;
    }
    if s1[i] == s2[i] {
      TextIs(s1, i);
      TextIs(s2, i);
    } else {
      assert i == |Text(s1)| || i == |Text(s2)|;
      assert |Text(s1)| != |Text(s2)|;
    }
    return s1[i] as int - s2[i] as int;
  }

  // ---- The simple forms ----

  /** What a program can see of one slot. */
  datatype Slot = Unused | Used(name: seq<byte>, kind: FileType, contents: Option<seq<byte>>)

  ghost function Contents(f: File, m: seq<byte>): Option<seq<byte>> {
    if f.data == 0 || f.data + f.size > |m| then None else Some(m[f.data..f.data + f.size])
  }

  /** The contents are followed by a NUL. */
  ghost predicate Terminated(f: File, m: seq<byte>) {
    f.data + f.size < |m| && m[f.data + f.size] == 0
  }

  ghost function SlotOf(f: File, m: seq<byte>): Slot {
    if f.inUse && 0 in f.name then Used(Text(f.name), f.kind, Contents(f, m)) else Unused
  }

  ghost function SlotsOf(fs: seq<File>, m: seq<byte>): (s: seq<Slot>)
    ensures |s| == |fs|
  {
    seq(|fs|, i requires 0 <= i < |fs| => SlotOf(fs[i], m))
  }

  lemma SlotsAt(fs: seq<File>, m: seq<byte>)
    ensures forall i :: 0 <= i < |fs| ==> SlotsOf(fs, m)[i] == SlotOf(fs[i], m)
  {
  }

  /** The first slot that holds the file `name`, or `|s|`. */
  ghost function Find(s: seq<Slot>, name: seq<byte>): (i: nat)
    ensures i <= |s|
    ensures i < |s| ==> s[i].Used? && s[i].name == name
    ensures forall j :: 0 <= j < i ==> !(s[j].Used? && s[j].name == name)
  {
    if s == [] || (s[0].Used? && s[0].name == name) then 0 else 1 + Find(s[1..], name)
  }

  ghost function FirstUnused(s: seq<Slot>): (i: nat)
    ensures i <= |s|
    ensures i < |s| ==> s[i].Unused?
    ensures forall j :: 0 <= j < i ==> s[j].Used?
  {
    if s == [] || s[0].Unused? then 0 else 1 + FirstUnused(s[1..])
  }

  /** A slot with new contents; an unused slot stays unused. */
  ghost function Rewritten(s: Slot, contents: Option<seq<byte>>): Slot {
    if s.Used? then s.(contents := contents) else s
  }

  ghost function UsedCount(s: seq<Slot>): nat {
    if s == [] then 0 else UsedCount(s[..|s| - 1]) + if s[|s| - 1].Used? then 1 else 0
  }

  lemma UsedCountNext(s: seq<Slot>, i: nat)
    requires i < |s|
    ensures UsedCount(s[..i + 1]) == UsedCount(s[..i]) + if s[i].Used? then 1 else 0
  {
    assert s[..i + 1][..i] == s[..i];
  }

  lemma UsedCountGrows(s: seq<Slot>, i: nat)
    requires i <= |s|
    ensures UsedCount(s[..i]) <= UsedCount(s)
  {
    if i < |s| {
      assert s[..|s| - 1][..i] == s[..i];
      UsedCountGrows(s[..|s| - 1], i);
    } else {
      assert s[..i] == s;
    }
  }

  // ---- Ownership ----

  /** A live block whose payload starts at `f.data` and has room for the contents and a NUL. */
  ghost predicate Holds(live: set<Block>, f: File) {
    exists b :: b in live && b.addr + HEADER == f.data && f.size < b.size
  }

  ghost predicate SlotOk(f: File, live: set<Block>) {
    && |f.name| == MAX_FILENAME && (f.inUse ==> 0 in f.name)
    && f.size <= MAX_FILE_SIZE
    && (f.data != 0 ==> Holds(live, f))
  }

  /** No two slots share their data. */
  ghost predicate Unshared(fs: seq<File>) {
    forall i, j :: 0 <= i < j < |fs| && fs[i].data != 0 ==> fs[i].data != fs[j].data
  }

  ghost predicate StoreOk(fs: seq<File>, live: set<Block>) {
    && |fs| == MAX_FILES
    && (forall i :: 0 <= i < |fs| ==> SlotOk(fs[i], live))
    && Unshared(fs)
  }

  ghost function DataOf(fs: seq<File>): set<int> {
    set i | 0 <= i < |fs| && fs[i].data != 0 :: fs[i].data as int
  }

  /** The live pointers that no slot refers to: other clients of the heap, and leaks. */
  ghost function Foreign(fs: seq<File>, live: set<Block>): set<int> {
    Payloads(live) - DataOf(fs)
  }

  /** Slots not in use refer to no data (broken only by a write through the handle of a deleted file). */
  ghost predicate NothingStale(fs: seq<File>) {
    forall i :: 0 <= i < |fs| && !fs[i].inUse ==> fs[i].data == 0
  }

  lemma DataRemoved(fs: seq<File>, i: nat, f: File)
    requires Unshared(fs) && i < |fs| && f.data == 0
    ensures DataOf(fs[i := f]) == DataOf(fs) - {fs[i].data as int}
  {
    var gs := fs[i := f];
    forall p | p in DataOf(fs) && p != fs[i].data ensures p in DataOf(gs) {
      var j :| 0 <= j < |fs| && fs[j].data != 0 && fs[j].data as int == p;
      assert gs[j] == fs[j];
    }
    forall p | p in DataOf(gs) ensures p in DataOf(fs) && p != fs[i].data {
      var j :| 0 <= j < |gs| && gs[j].data != 0 && gs[j].data as int == p;
      assert gs[j] == fs[j];
    }
  }

  lemma DataAdded(fs: seq<File>, i: nat, f: File)
    requires i < |fs| && fs[i].data == 0 && f.data != 0
    ensures DataOf(fs[i := f]) == DataOf(fs) + {f.data as int}
  {
    var gs := fs[i := f];
    assert gs[i].data == f.data;
    forall p | p in DataOf(fs) ensures p in DataOf(gs) {
      var j :| 0 <= j < |fs| && fs[j].data != 0 && fs[j].data as int == p;
      assert gs[j] == fs[j];
    }
    forall p | p in DataOf(gs) && p != f.data ensures p in DataOf(fs) {
      var j :| 0 <= j < |gs| && gs[j].data != 0 && gs[j].data as int == p;
      assert gs[j] == fs[j];
    }
  }

  /** Freeing the data of slot `i`, which becomes `f` without data: all else is as before. */
  lemma AfterFree(fs: seq<File>, live: set<Block>, i: nat, f: File)
    requires StoreOk(fs, live) && i < |fs| && f.data == 0 && SlotOk(f, {})
    ensures var live' := Without(live, fs[i].data);
      StoreOk(fs[i := f], live') && Foreign(fs[i := f], live') == Foreign(fs, live)
  {
    DataRemoved(fs, i, f);
    assert Payloads(Without(live, fs[i].data)) == Payloads(live) - {fs[i].data as int};
  }

  /** Giving slot `i` the new block `b`. */
  lemma AfterMalloc(fs: seq<File>, live: set<Block>, i: nat, b: Block, f: File)
    requires StoreOk(fs, live) && i < |fs| && fs[i].data == 0
    requires f == fs[i].(data := f.data, size := f.size) && f.size <= MAX_FILE_SIZE
    requires f.data != 0 && f.data == b.addr + HEADER && f.data !in Payloads(live) && f.size < b.size
    ensures StoreOk(fs[i := f], live + {b}) && Foreign(fs[i := f], live + {b}) == Foreign(fs, live)
  {
    DataAdded(fs, i, f);
    assert Payloads(live + {b}) == Payloads(live) + {f.data as int};
    assert Holds(live + {b}, f) by { assert b in live + {b}; }
    HeldIsPayload(fs, live);
  }

  lemma HeldIsPayload(fs: seq<File>, live: set<Block>)
    requires StoreOk(fs, live)
    ensures |fs| == MAX_FILES && forall j :: 0 <= j < |fs| && fs[j].data != 0 ==> fs[j].data in Payloads(live)
  {
    forall j | 0 <= j < |fs| && fs[j].data != 0 ensures fs[j].data in Payloads(live) {
      assert SlotOk(fs[j], live);
    }
  }

  lemma ContentsKept(m: seq<byte>, m': seq<byte>, kept: set<Block>, lo: int, hi: int, f: File)
    requires Undisturbed(m, m', kept, lo, hi)
    requires f.data != 0 ==> Holds(kept, f)
    ensures Contents(f, m') == Contents(f, m)
  {
    if f.data != 0 && f.data + f.size <= |m| {
      var b :| b in kept && b.addr + HEADER == f.data && f.size < b.size;
      assert m'[f.data..f.data + f.size] == m[f.data..f.data + f.size];
    }
  }

  // ---- The code ----

  method CopyIn(mem: array<byte>, p: nat, data: seq<byte>, size: nat)
    requires size <= |data| && p + size < mem.Length
    modifies mem
    ensures mem[p..p + size] == data[..size] && mem[p + size] == 0
    ensures SameOutside(old(mem[..]), mem[..], p, p + size + 1)
  {
    var i := 0;
    while i < size
      invariant i <= size
      invariant mem[p..p + i] == data[..i]
      invariant SameOutside(old(mem[..]), mem[..], p, p + size + 1)
    {
      mem[p + i] := data[i];
      i := i + 1;
    }
    mem[p + size] := 0;
  }

  lemma DataInMemory(fs: seq<File>, bs: seq<Block>, i: nat)
    requires WellFormed(bs) && StoreOk(fs, Live(bs)) && i < |fs| && fs[i].data != 0
    ensures fs[i].data + fs[i].size < HEAP_END
  {
    assert SlotOk(fs[i], Live(bs));
    var b :| b in Live(bs) && b.addr + HEADER == fs[i].data && fs[i].size < b.size;
    LiveInside(bs, b);
  }

  lemma NothingAtNull(bs: seq<Block>, m: seq<byte>)
    ensures Without(Live(bs), 0) == Live(bs)
    ensures Undisturbed(m, m, Live(bs), HEAP_START, HEAP_END)
  {
  }

  lemma NotAmong(live: set<Block>, b: Block)
    requires b.addr + HEADER !in Payloads(live)
    ensures b !in live
  {
  }

  /** The new data `p` of a file, if any, is a block of `n` bytes at the lowest place among the blocks `live`. */
  ghost predicate Rehoused(live: set<Block>, live': set<Block>, p: word, n: word) {
    if p == 0 then live' == live
    else exists b :: b in live' && b.addr + HEADER == p && Allotted(live, live', n, b)
  }

  /** Frees the block of `d`, if any, and allocates `n` bytes. */
  method Reallocate(heap: Heap, d: word, n: word) returns (p: word, ghost b: Block)
    requires heap.Valid() && 0 < n && (d == 0 || IsLive(heap.list.blocks, d))
    modifies heap.list, heap.list.mem
    ensures heap.Valid()
    ensures var live := Without(old(Live(heap.list.blocks)), d);
      && (p == 0 <==> !Room(live, Align4(n)))
      && (p == 0 ==> Live(heap.list.blocks) == live)
      && (p != 0 ==>
            && b.addr + HEADER == p && b in Live(heap.list.blocks)
            && Allotted(live, Live(heap.list.blocks), n, b))
      && Undisturbed(old(heap.list.mem[..]), heap.list.mem[..], live, HEAP_START, HEAP_END)
  {
    hide Allotted, Live, WellFormed, Payloads;
    ghost var bs0 := heap.list.blocks;
    if d != 0 {
      FreeExact(bs0, d);
      heap.Kfree(d);
    } else {
      assert Without(Live(bs0), 0) == Live(bs0);
    }
    ghost var bs1 := heap.list.blocks;
    assert Live(bs1) == Without(Live(bs0), d);
    MallocExact(bs1, n);
    p := heap.Kmalloc(n);
    if p != 0 {
      ghost var c :| c in Live(heap.list.blocks) && c.addr + HEADER == p
          && Allotted(Live(bs1), Live(heap.list.blocks), n, c);
      b := c;
    } else {
      b := Block(0, 0, true);
    }
  }

  lemma UndisturbedTwice(m0: seq<byte>, m1: seq<byte>, m2: seq<byte>, kept: set<Block>, lo: int, hi: int)
    requires Undisturbed(m0, m1, kept, lo, hi) && Undisturbed(m1, m2, kept, lo, hi)
    ensures Undisturbed(m0, m2, kept, lo, hi)
  {
    forall b, k | b in kept && b.addr + HEADER <= k < b.End() && k < |m0| ensures m2[k] == m0[k] {
      assert m1[k] == m0[k];
    }
  }

  /** Copies `size` characters and a NUL into the live block `b`. */
  method Fill(heap: Heap, ghost b: Block, p: word, data: seq<byte>, size: nat)
    requires heap.Valid() && b in Live(heap.list.blocks)
    requires p == b.addr + HEADER && size < b.size && size <= |data|
    modifies heap.list.mem
    ensures heap.Valid()
    ensures p + size < heap.list.mem.Length && heap.list.mem[p..p + size] == data[..size]
    ensures heap.list.mem[p + size] == 0
    ensures Undisturbed(old(heap.list.mem[..]), heap.list.mem[..], Live(heap.list.blocks) - {b}, HEAP_START, HEAP_END)
  {
    hide WellFormed, Live, Stored, Ordered;
    LiveInside(heap.list.blocks, b);
    ghost var m := heap.list.mem[..];
    CopyIn(heap.list.mem, p, data, size);
    PayloadWrite(m, heap.list.mem[..], heap.list.blocks, b, p, p + size + 1);
  }

  /** The same, seen from an earlier memory `m` in which the live blocks other than `b` were as they are. */
  method FillSince(heap: Heap, ghost b: Block, p: word, data: seq<byte>, size: nat, ghost m: seq<byte>,
      ghost kept: set<Block>)
    requires heap.Valid() && Live(heap.list.blocks) == kept + {b}
    requires p == b.addr + HEADER && p !in Payloads(kept) && size < b.size && size <= |data|
    requires Undisturbed(m, heap.list.mem[..], kept, HEAP_START, HEAP_END)
    modifies heap.list.mem
    ensures heap.Valid()
    ensures p + size < heap.list.mem.Length && heap.list.mem[p..p + size] == data[..size]
    ensures heap.list.mem[p + size] == 0
    ensures Undisturbed(m, heap.list.mem[..], kept, HEAP_START, HEAP_END)
  {
    NotAmong(kept, b);
    hide Undisturbed, Live, Payloads;
    ghost var m1 := heap.list.mem[..];
    assert b in Live(heap.list.blocks) && Live(heap.list.blocks) - {b} == kept;
    Fill(heap, b, p, data, size);
    UndisturbedTwice(m, m1, heap.list.mem[..], kept, HEAP_START, HEAP_END);
  }

  /** Changing slot `i` only, over memory that keeps the data of the other slots. */
  lemma SlotsKept(fs: seq<File>, gs: seq<File>, m: seq<byte>, m': seq<byte>, kept: set<Block>, i: nat)
    requires i < |fs| == |gs| && Undisturbed(m, m', kept, HEAP_START, HEAP_END)
    requires forall j :: 0 <= j < |fs| && j != i ==> gs[j] == fs[j] && (fs[j].data != 0 ==> Holds(kept, fs[j]))
    ensures SlotsOf(gs, m') == SlotsOf(fs, m)[i := SlotOf(gs[i], m')]
  {
    hide Undisturbed, Holds, Contents;
    forall j | 0 <= j < |fs| && j != i ensures SlotOf(gs[j], m') == SlotOf(fs[j], m) {
      ContentsKept(m, m', kept, HEAP_START, HEAP_END, fs[j]);
    }
  }

  /** Slot `i`, unused so far, becomes the empty file `f`; data it still had is left to itself. */
  lemma Created(fs: seq<File>, m: seq<byte>, live: set<Block>, i: nat, f: File)
    requires StoreOk(fs, live) && i < |fs| && SlotOk(f, live) && f.inUse && f.data == 0
    ensures StoreOk(fs[i := f], live)
    ensures Foreign(fs[i := f], live) == Foreign(fs, live) + (if fs[i].data == 0 then {} else {fs[i].data as int})
    ensures SlotsOf(fs[i := f], m) == SlotsOf(fs, m)[i := Used(Text(f.name), f.kind, None)]
  {
    HeldIsPayload(fs, live);
    DataRemoved(fs, i, f);
  }

  lemma OthersHeld(fs: seq<File>, live: set<Block>, i: nat)
    requires StoreOk(fs, live) && i < |fs|
    ensures SlotOk(fs[i].(data := 0), {})
    ensures forall j :: 0 <= j < |fs| && j != i && fs[j].data != 0 ==> Holds(Without(live, fs[i].data), fs[j])
  {
    forall j | 0 <= j < |fs| && j != i && fs[j].data != 0 ensures Holds(Without(live, fs[i].data), fs[j]) {
      var b :| b in live && b.addr + HEADER == fs[j].data && fs[j].size < b.size;
      assert b in Without(live, fs[i].data);
    }
  }

  /** Slot `i` loses its data, and only slot `i`. */
  lemma DataDropped(fs: seq<File>, live: set<Block>, m: seq<byte>, m': seq<byte>, i: nat, f: File)
    requires StoreOk(fs, live) && i < |fs| && f.data == 0 && SlotOk(f, {})
    requires Undisturbed(m, m', Without(live, fs[i].data), HEAP_START, HEAP_END)
    ensures var gs, live' := fs[i := f], Without(live, fs[i].data);
      && StoreOk(gs, live') && Foreign(gs, live') == Foreign(fs, live)
      && SlotsOf(gs, m') == SlotsOf(fs, m)[i := SlotOf(f, m')]
  {
    hide StoreOk, Foreign, Undisturbed, Holds;
    AfterFree(fs, live, i, f);
    OthersHeld(fs, live, i);
    SlotsKept(fs, fs[i := f], m, m', Without(live, fs[i].data), i);
  }

  lemma RewrittenIs(fs: seq<File>, m: seq<byte>, m': seq<byte>, i: nat, f: File)
    requires i < |fs| && f == fs[i].(data := f.data, size := f.size)
    ensures SlotOf(f, m') == Rewritten(SlotsOf(fs, m)[i], Contents(f, m'))
  {
  }

  /** A write that got block `b` and filled it: slot `i` has the new contents, the others theirs. */
  lemma WriteDone(fs: seq<File>, live: set<Block>, m: seq<byte>, m': seq<byte>, i: nat, b: Block, f: File,
      data: seq<byte>)
    requires StoreOk(fs, live) && i < |fs|
    requires Undisturbed(m, m', Without(live, fs[i].data), HEAP_START, HEAP_END)
    requires f == fs[i].(data := f.data, size := f.size) && f.size <= MAX_FILE_SIZE
    requires f.data != 0 && f.data == b.addr + HEADER && f.size < b.size
    requires b.addr + HEADER !in Payloads(Without(live, fs[i].data))
    requires f.data + f.size <= |m'| && m'[f.data..f.data + f.size] == data
    ensures var gs, live' := fs[i := f], Without(live, fs[i].data) + {b};
      && StoreOk(gs, live') && Foreign(gs, live') == Foreign(fs, live)
      && SlotsOf(gs, m') == SlotsOf(fs, m)[i := Rewritten(SlotsOf(fs, m)[i], Some(data))]
  {
    hide StoreOk, Foreign, Undisturbed, Holds;
    OthersHeld(fs, live, i);
    AfterFree(fs, live, i, fs[i].(data := 0));
    var fs1 := fs[i := fs[i].(data := 0)];
    AfterMalloc(fs1, Without(live, fs[i].data), i, b, f);
    assert fs1[i := f] == fs[i := f];
    SlotsKept(fs, fs[i := f], m, m', Without(live, fs[i].data), i);
  }

  /** A buffer whose first bytes are a copy of memory, followed by a NUL and what it held before. */
  lemma CopyIs(b: seq<byte>, m: seq<byte>, p: nat, size: nat, before: seq<byte>)
    requires |b| == |before| && size < |b| && p + size <= |m|
    requires (forall k :: 0 <= k < size ==> b[k] == m[p + k]) && b[size] == 0
    requires forall k :: size < k < |b| ==> b[k] == before[k]
    ensures b == m[p..p + size] + [0] + before[size + 1..]
  {
  }

  lemma SlicePrefix(m: seq<byte>, p: nat, n: nat, k: nat)
    requires n <= k && p + k <= |m|
    ensures m[p..p + n] == m[p..p + k][..n]
  {
  }

  method CopyOut(mem: array<byte>, p: nat, buffer: array<byte>, size: nat)
    requires mem != buffer && p + size <= mem.Length && size < buffer.Length
    modifies buffer
    ensures buffer[..] == mem[p..p + size] + [0] + old(buffer[size + 1..])
  {
    var i := 0;
    while i < size
      invariant i <= size
      invariant forall k :: 0 <= k < i ==> buffer[k] == mem[p + k]
      invariant forall k :: size <= k < buffer.Length ==> buffer[k] == old(buffer[k])
    {
      buffer[i] := mem[p + i];
      i := i + 1;
    }
    buffer[size] := 0;
    CopyIs(buffer[..], mem[..], p, size, old(buffer[..]));
    assert mem[..][p..p + size] == mem[p..p + size];
    assert old(buffer[..])[size + 1..] == old(buffer[size + 1..]);
  }

  class Vfs {
    const heap: Heap
    const files: array<File>

    /** The first part of vfs_init: an empty slot table. */
    constructor (heap: Heap)
      requires heap.Valid()
      ensures this.heap == heap && fresh(files) && Valid()
      ensures NothingStale(files[..]) && Others() == Payloads(Live(heap.list.blocks))
      ensures forall i :: 0 <= i < MAX_FILES ==> Slots()[i].Unused?
    {
      this.heap := heap;
      files := new File[MAX_FILES](_ => File(seq(MAX_FILENAME, _ => 0), Regular, 0, 0, false));
      new;
      for i := 0 to MAX_FILES
        invariant files.Length == MAX_FILES
        invariant forall j :: 0 <= j < MAX_FILES ==> |files[j].name| == MAX_FILENAME && files[j].size <= MAX_FILE_SIZE
        invariant forall j :: 0 <= j < i ==> !files[j].inUse && files[j].data == 0
      {
        files[i] := files[i].(inUse := false, data := 0, size := 0);
      }
    }

    ghost predicate Valid()
      reads this, files, heap, heap.list, heap.list.mem
    {
      heap.Valid() && StoreOk(files[..], Live(heap.list.blocks))
    }

    ghost function Slots(): seq<Slot>
      reads files, heap, heap.list, heap.list.mem
    {
      SlotsOf(files[..], heap.list.mem[..])
    }

    ghost function Others(): set<int>
      reads files, heap, heap.list, heap.list.mem
    {
      Foreign(files[..], Live(heap.list.blocks))
    }

    /** The loop over the slots shared by create, open and delete; -1 when no file has this name. */
    method Search(name: seq<byte>) returns (r: int)
      requires Valid() && 0 in name
      ensures r == if Find(Slots(), Text(name)) < 64 then Find(Slots(), Text(name)) else -1
    {
      hide Find, SlotsOf, Contents, Text;
      ghost var s := Slots();
      SlotsAt(files[..], heap.list.mem[..]);
      var i := 0;
      while i < MAX_FILES
        invariant 0 <= i <= MAX_FILES
        invariant forall j :: 0 <= j < i ==> !(s[j].Used? && s[j].name == Text(name))
      {
        assert SlotOk(files[..][i], Live(heap.list.blocks));
        if files[i].inUse {
          var c := StrCmp(files[i].name, name);
          if c == 0 {
            return i;
          }
        }
        i := i + 1;
      }
      return -1;
    }

    method Create(name: seq<byte>, kind: FileType) returns (r: int)
      requires Valid() && 0 in name
      modifies files
      ensures Valid()
      ensures var s, i := old(Slots()), old(FirstUnused(Slots()));
        if Find(s, Text(name)) < |s| || i == |s|
        then r == -1 && files[..] == old(files[..])
        else
          && r == i && files[r].data == 0 && files[r].size == 0 && files[..] == old(files[..])[r := files[r]]
          && Slots() == s[i := Used(Text(name)[..Min(|Text(name)|, 31)], kind, None)]
          && Others() == old(Others()) + (if old(files[i].data) == 0 then {} else {old(files[i].data) as int})
          && (old(NothingStale(files[..])) ==> NothingStale(files[..]))
    {
      hide Find, FirstUnused, SlotsOf, Contents, Text, Foreign;
      ghost var fs, s := files[..], Slots();
      SlotsAt(fs, heap.list.mem[..]);
      var existing := Search(name);
      if existing >= 0 {
        return -1;
      }
      var i := 0;
      while i < MAX_FILES
        invariant 0 <= i <= MAX_FILES
        invariant forall j :: 0 <= j < i ==> s[j].Used?
      {
        assert SlotOk(fs[i], Live(heap.list.blocks));
        if !files[i].inUse {
          var copy := StrCopy(files[i].name, name, MAX_FILENAME);
          files[i] := File(copy, kind, 0, 0, true);
          Created(fs, heap.list.mem[..], Live(heap.list.blocks), i, files[i]);
          assert files[..] == fs[i := files[i]];
          return i;
        }
        i := i + 1;
      }
      return -1;
    }

    method Open(name: seq<byte>) returns (r: int)
      requires Valid() && 0 in name
      ensures r == if Find(Slots(), Text(name)) < 64 then Find(Slots(), Text(name)) else -1
    {
      r := Search(name);
    }

    /**
     Frees the old data first, then allocates.  The call fails exactly when no gap of the heap
     without the old data holds the new data; the old contents are then lost and `size` is stale.
     */
    method Write(file: int, data: seq<byte>, size: word) returns (r: int)
      requires Valid() && -1 <= file < MAX_FILES
      requires file != -1 && size <= MAX_FILE_SIZE ==> size <= |data|
      modifies files, heap.list, heap.list.mem
      ensures Valid()
      ensures file == -1 || size > 4096 ==>
                r == -1 && files[..] == old(files[..]) && heap.list.blocks == old(heap.list.blocks)
                && heap.list.mem[..] == old(heap.list.mem[..])
      ensures file != -1 && size <= 4096 ==>
                && r == (if Room(Without(old(Live(heap.list.blocks)), old(files[file].data)), Align4(size + 1))
                    then size else -1)
                && Slots() == old(Slots())[file :=
                     Rewritten(old(Slots())[file], if r == -1 then None else Some(data[..size]))]
                && files[file].size == (if r == -1 then old(files[file].size) else size)
                && (files[file].data == 0 <==> r == -1)
                && (r != -1 ==> Terminated(files[file], heap.list.mem[..]))
                && Rehoused(Without(old(Live(heap.list.blocks)), old(files[file].data)),
                            Live(heap.list.blocks), files[file].data, size + 1)
                && Undisturbed(old(heap.list.mem[..]), heap.list.mem[..],
                               Without(old(Live(heap.list.blocks)), old(files[file].data)), HEAP_START, HEAP_END)
      ensures Others() == old(Others())
      ensures old(NothingStale(files[..])) && (file != -1 ==> old(files[file].inUse)) ==> NothingStale(files[..])
    {
      if file == -1 || size > MAX_FILE_SIZE {
        return -1;
      }
      r := Store(file, data, size);
    }

    method Store(file: nat, data: seq<byte>, size: word) returns (r: int)
      requires Valid() && file < MAX_FILES && size <= MAX_FILE_SIZE && size <= |data|
      modifies files, heap.list, heap.list.mem
      ensures Valid()
      ensures r == if Room(Without(old(Live(heap.list.blocks)), old(files[file].data)), Align4(size + 1))
              then size else -1
      ensures Slots() == old(Slots())[file :=
                Rewritten(old(Slots())[file], if r == -1 then None else Some(data[..size]))]
      ensures files[file].data == 0 <==> r == -1
      ensures r != -1 ==> Terminated(files[file], heap.list.mem[..])
      ensures files[..] == old(files[..])[file := old(files[file]).(data := files[file].data,
                                                    size := if r == -1 then old(files[file].size) else size)]
      ensures Rehoused(Without(old(Live(heap.list.blocks)), old(files[file].data)),
                       Live(heap.list.blocks), files[file].data, size + 1)
      ensures Undisturbed(old(heap.list.mem[..]), heap.list.mem[..],
                          Without(old(Live(heap.list.blocks)), old(files[file].data)), HEAP_START, HEAP_END)
      ensures Others() == old(Others())
    {
      hide Align4, Fits, WellFormed, Live, StoreOk, Foreign, Undisturbed, SlotsOf, Room, Payloads, Without;
      ghost var fs, m0, live := files[..], heap.list.mem[..], Live(heap.list.blocks);
      HeldIsPayload(fs, live);
      AlignExact(size + 1);
      var p, b := Reallocate(heap, files[file].data, size + 1);
      files[file] := files[file].(data := p);
      if p == 0 {
        OthersHeld(fs, live, file);
        DataDropped(fs, live, m0, heap.list.mem[..], file, files[file]);
        RewrittenIs(fs, m0, heap.list.mem[..], file, files[file]);
        return -1;
      }
      FillSince(heap, b, p, data, size, m0, Without(live, fs[file].data));
      files[file] := files[file].(size := size);
      assert files[..] == fs[file := files[file]];
      WriteDone(fs, live, m0, heap.list.mem[..], file, b, files[file], data[..size]);
      return size;
    }

    ghost function ContentsAt(file: nat): Option<seq<byte>>
      requires file < files.Length
      reads files, heap, heap.list, heap.list.mem
    {
      Contents(files[file], heap.list.mem[..])
    }

    /** Copies at most `size` bytes and a NUL into `buffer`. */
    method Read(file: int, buffer: array<byte>, size: word) returns (r: int)
      requires Valid() && -1 <= file < MAX_FILES && buffer != heap.list.mem
      requires file != -1 && ContentsAt(file).Some? ==> Min(size, |ContentsAt(file).value|) < buffer.Length
      modifies buffer
      ensures file == -1 || ContentsAt(file).None? ==> r == -1 && buffer[..] == old(buffer[..])
      ensures file != -1 && ContentsAt(file).Some? ==>
                && r == Min(size, |ContentsAt(file).value|)
                && buffer[..] == ContentsAt(file).value[..r] + [0] + old(buffer[r + 1..])
    {
      if file == -1 || files[file].data == 0 {
        return -1;
      }
      DataInMemory(files[..], heap.list.blocks, file);
      var f := files[file];
      var readSize := if size < f.size then size else f.size;
      CopyOut(heap.list.mem, f.data, buffer, readSize);
      SlicePrefix(heap.list.mem[..], f.data, readSize, f.size);
      return readSize;
    }

    method Delete(name: seq<byte>) returns (r: int)
      requires Valid() && 0 in name
      modifies files, heap.list, heap.list.mem
      ensures Valid()
      ensures var s, i := old(Slots()), old(Find(Slots(), Text(name)));
        if i == |s|
        then r == -1 && files[..] == old(files[..]) && heap.list.blocks == old(heap.list.blocks)
             && heap.list.mem[..] == old(heap.list.mem[..])
        else r == 0 && Slots() == s[i := Unused]
             && files[..] == old(files[..])[i := old(files[i]).(inUse := false, data := 0, size := 0)]
             && Live(heap.list.blocks) == Without(old(Live(heap.list.blocks)), old(files[i].data))
             && Undisturbed(old(heap.list.mem[..]), heap.list.mem[..], Live(heap.list.blocks), HEAP_START, HEAP_END)
      ensures Others() == old(Others())
      ensures old(NothingStale(files[..])) ==> NothingStale(files[..])
    {
      hide Find, StoreOk, SlotsOf, Foreign, Undisturbed, Live, Payloads, Without, WellFormed;
      ghost var fs, m0, live := files[..], heap.list.mem[..], Live(heap.list.blocks);
      HeldIsPayload(fs, live);
      var i := Search(name);
      if i < 0 {
        return -1;
      }
      if files[i].data != 0 {
        FreeExact(heap.list.blocks, files[i].data);
        heap.Kfree(files[i].data);
      } else {
        NothingAtNull(heap.list.blocks, m0);
      }
      OthersHeld(fs, live, i);
      files[i] := files[i].(inUse := false, data := 0, size := 0);
      DataDropped(fs, live, m0, heap.list.mem[..], i, files[i]);
      return 0;
    }

    method GetFileCount() returns (count: int)
      requires Valid()
      ensures count == UsedCount(Slots())
    {
      ghost var s := Slots();
      count := 0;
      for i := 0 to MAX_FILES
        invariant count == UsedCount(s[..i])
      {
        UsedCountNext(s, i);
        assert SlotOk(files[..][i], Live(heap.list.blocks));
        if files[i].inUse {
          count := count + 1;
        }
      }
      assert s[..MAX_FILES] == s;
    }

    /** The slot with exactly `index` used slots before it; -1 if there is none. */
    method GetFile(index: int) returns (r: int)
      requires Valid()
      ensures 0 <= index < UsedCount(Slots()) ==>
                0 <= r < MAX_FILES && Slots()[r].Used? && UsedCount(Slots()[..r]) == index
      ensures !(0 <= index < UsedCount(Slots())) ==> r == -1
    {
      ghost var s := Slots();
      var count := 0;
      for i := 0 to MAX_FILES
        invariant count == UsedCount(s[..i])
        invariant index < 0 || count <= index
      {
        UsedCountNext(s, i);
        assert SlotOk(files[..][i], Live(heap.list.blocks));
        if files[i].inUse {
          if count == index {
            UsedCountGrows(s, i + 1);
            return i;
          }
          count := count + 1;
        }
      }
      assert s[..MAX_FILES] == s;
      return -1;
    }
  }
}
