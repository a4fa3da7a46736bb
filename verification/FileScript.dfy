/** Scripts of file operations, run against the code and compared with the map of FileMap. */
module FileScript {
  import opened Memory
  import opened Options
  import opened CStrings
  import opened BlockList
  import opened LiveHeap
  import opened FileStore
  import opened FileMap

  datatype Request =
    | Create(name: Name, kind: FileType)
    | Write(name: Name, data: seq<byte>)
    | Read(name: Name, size: word)
    | Delete(name: Name)

  datatype Reply = Done | Failed | Contents(data: seq<byte>)

  /** A request a C caller can make; only file names to create have a length limit. */
  ghost predicate Sensible(q: Request) {
    && 0 !in q.name
    && (q.Create? ==> |q.name| <= 31)
    && (q.Write? ==> |q.data| < WORD_LIMIT)
  }

  /**
   Request `q` on the map `v` may be answered `a` and leave `v'`.  Only allocation is left open: a
   write can fail, but not when the file already holds at least as much data.
   */
  ghost predicate Answers(v: View, q: Request, a: Reply, v': View) {
    match q
    case Create(n, _) =>
      if n in v || |v| == 64 then a == Failed && v' == v else a == Done && v' == v[n := None]
    case Write(n, data) =>
      if n !in v || |data| > 4096 then a == Failed && v' == v
      else
        || (a == Done && v' == v[n := Some(data)])
        || (a == Failed && v' == v[n := None] && !(v[n].Some? && |data| <= |v[n].value|))
    case Read(n, size) =>
      v' == v && a == if n in v && v[n].Some? then Contents(v[n].value[..Min(size, |v[n].value|)]) else Failed
    case Delete(n) =>
      if n in v then a == Done && v' == v - {n} else a == Failed && v' == v
  }

  lemma CString(n: Name)
    requires 0 !in n
    ensures 0 in n + [0] && Text(n + [0]) == n
  {
    assert (n + [0])[|n|] == 0 && (n + [0])[..|n|] == n;
    TextIs(n + [0], |n|);
  }

  /** After the old data is freed, data no longer than before always finds room. */
  lemma ShorterFits(fs: seq<File>, bs: seq<Block>, i: nat, size: word)
    requires WellFormed(bs) && StoreOk(fs, Live(bs)) && i < |fs| && fs[i].data != 0 && size <= fs[i].size
    ensures Room(Without(Live(bs), fs[i].data), Align4(size + 1))
  {
    hide Live, WellFormed, Align4, Malloc, Free, Fits;
    assert SlotOk(fs[i], Live(bs));
    var b :| b in Live(bs) && b.addr + HEADER == fs[i].data && fs[i].size < b.size;
    LiveAligned(bs, b);
    AlignFits(size + 1, b.size);
    FreeMakesRoom(bs, b, size + 1);
    FreeExact(bs, fs[i].data);
    MallocExact(Free(bs, fs[i].data), size + 1);
  }

  lemma LiveAligned(bs: seq<Block>, b: Block)
    requires WellFormed(bs) && b in Live(bs)
    ensures b.size % 4 == 0
  {
  }

  lemma AlignFits(n: word, size: nat)
    requires n <= size && size % 4 == 0 && n <= MAX_REQUEST
    ensures Align4(n) <= size
  {
  }

  /** The number of files tells whether a slot is left. */
  lemma RoomForOneMore(s: seq<Slot>)
    requires Distinct(s)
    ensures |ViewOf(s)| == |s| <==> FirstUnused(s) == |s|
  {
    hide Distinct, Find, ContentsOf;
    NamesCounted(s);
    assert ViewOf(s).Keys == Names(s);
    var i := FirstUnused(s);
    if i == |s| { AllUsed(s); } else { NotAllUsed(s, i); }
  }

  lemma CreateAnswer(s: seq<Slot>, n: Name, kind: FileType)
    requires |s| == MAX_FILES && Distinct(s) && |n| <= NAME_LIMIT
    ensures var v, i := ViewOf(s), FirstUnused(s);
      && (Find(s, n) < |s| <==> n in v)
      && (n !in v && i < |s| ==>
            var r := s[i := Used(n[..Min(|n|, MAX_FILENAME - 1)], kind, None)];
            Distinct(r) && ViewOf(r) == v[n := None])
  {
    hide Find, Distinct, ContentsOf;
    var i := FirstUnused(s);
    FindExact(s, n);
    assert n[..Min(|n|, MAX_FILENAME - 1)] == n;
    if i < |s| && n !in Names(s) {
      ViewChanged(s, i, Used(n, kind, None));
    }
  }

  lemma {:induction false} NotAllUsed(s: seq<Slot>, i: nat)
    requires i < |s| && s[i].Unused?
    ensures UsedCount(s) < |s|
  {
    UsedAtMost(s[..|s| - 1]);
    if i < |s| - 1 { NotAllUsed(s[..|s| - 1], i); }
  }

  lemma {:induction false} UsedAtMost(s: seq<Slot>)
    ensures UsedCount(s) <= |s|
  {
    if s != [] { UsedAtMost(s[..|s| - 1]); }
  }

  /** The store, free of duplicates (long names) and stale data (writes to deleted files). */
  ghost predicate Good(vfs: Vfs)
    reads vfs, vfs.files, vfs.heap, vfs.heap.list, vfs.heap.list.mem
  {
    vfs.Valid() && Distinct(vfs.Slots()) && NothingStale(vfs.files[..])
  }

  ghost function Now(vfs: Vfs): View
    reads vfs, vfs.files, vfs.heap, vfs.heap.list, vfs.heap.list.mem
  {
    ViewOf(vfs.Slots())
  }

  lemma SlotCount(vfs: Vfs)
    requires vfs.Valid()
    ensures |vfs.Slots()| == MAX_FILES == vfs.files.Length
  {
  }

  lemma NoDataWhenUnused(vfs: Vfs)
    requires vfs.Valid() && NothingStale(vfs.files[..])
    ensures forall i :: 0 <= i < MAX_FILES && vfs.Slots()[i].Unused? ==> vfs.files[i].data == 0
  {
    SlotsAt(vfs.files[..], vfs.heap.list.mem[..]);
    forall i | 0 <= i < MAX_FILES && vfs.Slots()[i].Unused? ensures vfs.files[i].data == 0 {
      assert SlotOk(vfs.files[..][i], Live(vfs.heap.list.blocks));
      assert !vfs.files[..][i].inUse;
    }
  }

  /** Open finds exactly the files of the map, and the slot it gives shows the entry of the map. */
  lemma OpenAnswer(vfs: Vfs, n: Name)
    requires Good(vfs)
    ensures var s, i := vfs.Slots(), Find(vfs.Slots(), n);
      && |s| == MAX_FILES == vfs.files.Length
      && (i < |s| <==> n in ViewOf(s))
      && (i < |s| ==> s[i].Used? && s[i].name == n && ViewOf(s)[n] == s[i].contents
                      && vfs.files[i].inUse && vfs.ContentsAt(i) == s[i].contents)
  {
    hide Find, Distinct;
    var s, i := vfs.Slots(), Find(vfs.Slots(), n);
    SlotCount(vfs);
    FindExact(s, n);
    SlotsAt(vfs.files[..], vfs.heap.list.mem[..]);
  }

  lemma RewriteAnswer(s: seq<Slot>, i: nat, c: Option<seq<byte>>)
    requires Distinct(s) && i < |s| && s[i].Used?
    ensures var r := s[i := Rewritten(s[i], c)]; Distinct(r) && ViewOf(r) == ViewOf(s)[s[i].name := c]
  {
    hide Find, Distinct, ContentsOf;
    ViewChanged(s, i, Rewritten(s[i], c));
    assert s[i].name in Names(s);
  }

  lemma DeleteAnswer(s: seq<Slot>, i: nat)
    requires Distinct(s) && i < |s| && s[i].Used?
    ensures Distinct(s[i := Unused]) && ViewOf(s[i := Unused]) == ViewOf(s) - {s[i].name}
  {
    hide Find, Distinct, ContentsOf;
    ViewChanged(s, i, Unused);
  }

  lemma ShorterNeverFails(vfs: Vfs, i: nat, size: word)
    requires vfs.Valid() && i < MAX_FILES && vfs.ContentsAt(i).Some? && size <= |vfs.ContentsAt(i).value|
    ensures Room(Without(Live(vfs.heap.list.blocks), vfs.files[i].data), Align4(size + 1))
  {
    ShorterFits(vfs.files[..], vfs.heap.list.blocks, i, size);
  }

  method DoCreate(vfs: Vfs, n: Name, kind: FileType) returns (a: Reply)
    requires Good(vfs) && Sensible(Create(n, kind))
    modifies vfs.files
    ensures Good(vfs) && Answers(old(Now(vfs)), Create(n, kind), a, Now(vfs))
    ensures vfs.Others() == old(vfs.Others())
  {
    hide Find, Distinct, ViewOf, FirstUnused, SlotsOf, Foreign, StoreOk, Text;
    CString(n);
    ghost var s := vfs.Slots();
    SlotCount(vfs);
    CreateAnswer(s, n, kind);
    RoomForOneMore(s);
    NoDataWhenUnused(vfs);
    var r := vfs.Create(n + [0], kind);
    a := if r == -1 then Failed else Done;
  }

  method DoWrite(vfs: Vfs, n: Name, data: seq<byte>) returns (a: Reply)
    requires Good(vfs) && Sensible(Write(n, data))
    modifies vfs.files, vfs.heap.list, vfs.heap.list.mem
    ensures Good(vfs) && Answers(old(Now(vfs)), Write(n, data), a, Now(vfs))
    ensures vfs.Others() == old(vfs.Others())
  {
    hide Find, Distinct, ViewOf, SlotsOf, Foreign, StoreOk, Text, Room, Align4, Live, WellFormed, NothingStale;
    CString(n);
    ghost var s := vfs.Slots();
    OpenAnswer(vfs, n);
    var file := vfs.Open(n + [0]);
    if file != -1 {
      if |data| <= MAX_FILE_SIZE && vfs.ContentsAt(file).Some? && |data| <= |vfs.ContentsAt(file).value| {
        ShorterNeverFails(vfs, file, |data|);
      }
      RewriteAnswer(s, file, None);
      RewriteAnswer(s, file, Some(data));
      assert data[..|data|] == data;
    }
    var r := vfs.Write(file, data, |data|);
    a := if r == -1 then Failed else Done;
  }

  method DoRead(vfs: Vfs, n: Name, size: word) returns (a: Reply)
    requires Good(vfs) && Sensible(Read(n, size))
    ensures Answers(Now(vfs), Read(n, size), a, Now(vfs))
  {
    hide Find, Distinct, ViewOf, SlotsOf, StoreOk, Text;
    CString(n);
    OpenAnswer(vfs, n);
    var file := vfs.Open(n + [0]);
    var buffer := new byte[MAX_FILE_SIZE + 1](_ => 0);
    if file != -1 { DataBounded(vfs, file); }
    var r := vfs.Read(file, buffer, size);
    a := if r == -1 then Failed else Contents(buffer[..r]);
  }

  lemma DataBounded(vfs: Vfs, i: nat)
    requires vfs.Valid() && i < MAX_FILES
    ensures vfs.ContentsAt(i).Some? ==> |vfs.ContentsAt(i).value| <= MAX_FILE_SIZE
  {
    assert SlotOk(vfs.files[..][i], Live(vfs.heap.list.blocks));
  }

  method DoDelete(vfs: Vfs, n: Name) returns (a: Reply)
    requires Good(vfs) && Sensible(Delete(n))
    modifies vfs.files, vfs.heap.list, vfs.heap.list.mem
    ensures Good(vfs) && Answers(old(Now(vfs)), Delete(n), a, Now(vfs))
    ensures vfs.Others() == old(vfs.Others())
  {
    hide Find, Distinct, ViewOf, SlotsOf, Foreign, StoreOk, Text, Live, WellFormed, NothingStale;
    CString(n);
    ghost var s := vfs.Slots();
    OpenAnswer(vfs, n);
    if Find(s, n) < |s| { DeleteAnswer(s, Find(s, n)); }
    var r := vfs.Delete(n + [0]);
    a := if r == -1 then Failed else Done;
  }

  /** `views` are the maps between the requests `qs`, which got the answers `answers`. */
  ghost predicate History(views: seq<View>, qs: seq<Request>, answers: seq<Reply>) {
    && |views| == |qs| + 1 && |answers| == |qs|
    && forall i :: 0 <= i < |qs| ==> Answers(views[i], qs[i], answers[i], views[i + 1])
  }

  /** Every script of requests, run against the code, is answered as by a map from names to contents. */
  method Run(vfs: Vfs, qs: seq<Request>) returns (answers: seq<Reply>, ghost views: seq<View>)
    requires Good(vfs) && forall i :: 0 <= i < |qs| ==> Sensible(qs[i])
    modifies vfs.files, vfs.heap.list, vfs.heap.list.mem
    ensures Good(vfs)
    ensures History(views, qs, answers) && views[0] == old(Now(vfs)) && views[|qs|] == Now(vfs)
    ensures vfs.Others() == old(vfs.Others())
  {
    hide Answers, Good, Now, Sensible, Foreign;
    answers, views := [], [Now(vfs)];
    for i := 0 to |qs|
      invariant Good(vfs) && vfs.Others() == old(vfs.Others())
      invariant |answers| == i && |views| == i + 1 && views[0] == old(Now(vfs)) && views[i] == Now(vfs)
      invariant forall j :: 0 <= j < i ==> Answers(views[j], qs[j], answers[j], views[j + 1])
    {
      var a;
      match qs[i] {
        case Create(n, kind) => a := DoCreate(vfs, n, kind);
        case Write(n, data) => a := DoWrite(vfs, n, data);
        case Read(n, size) => a := DoRead(vfs, n, size);
        case Delete(n) => a := DoDelete(vfs, n);
      }
      answers, views := answers + [a], views + [Now(vfs)];
    }
  }

  /** No request in `i..j` deletes the file `n` or writes it, but for writes of too much data, which are refused. */
  ghost predicate LeavesAlone(qs: seq<Request>, i: nat, j: nat, n: Name)
    requires j <= |qs|
  {
    forall k :: i <= k < j && ((qs[k].Write? && |qs[k].data| <= 4096) || qs[k].Delete?) ==> qs[k].name != n
  }

  /** A file in the map keeps its data, and one without data stays so, even if it has yet to be created. */
  lemma {:induction false} Remains(views: seq<View>, qs: seq<Request>, answers: seq<Reply>, i: nat, j: nat, n: Name)
    requires History(views, qs, answers) && i <= j <= |qs| && LeavesAlone(qs, i, j, n)
    ensures n in views[i] ==> n in views[j] && views[j][n] == views[i][n]
    ensures n !in views[i] ==> n !in views[j] || views[j][n] == None
  {
    if i < j {
      Remains(views, qs, answers, i, j - 1, n);
      assert Answers(views[j - 1], qs[j - 1], answers[j - 1], views[j]);
    }
  }

  /** A read returns the last successful write to its file, cut to the requested size. */
  lemma ReadReturnsLastWrite(views: seq<View>, qs: seq<Request>, answers: seq<Reply>, i: nat, j: nat)
    requires History(views, qs, answers) && i < j < |qs|
    requires qs[i].Write? && answers[i] == Done && qs[j].Read? && qs[j].name == qs[i].name
    requires LeavesAlone(qs, i + 1, j, qs[i].name)
    ensures answers[j] == Contents(qs[i].data[..Min(qs[j].size, |qs[i].data|)])
  {
    assert Answers(views[i], qs[i], answers[i], views[i + 1]);
    Remains(views, qs, answers, i + 1, j, qs[i].name);
    assert Answers(views[j], qs[j], answers[j], views[j + 1]);
  }

  /** After a write that failed, and not for too much data, a read fails too: the old data is gone. */
  lemma NothingAfterFailedWrite(views: seq<View>, qs: seq<Request>, answers: seq<Reply>, i: nat, j: nat)
    requires History(views, qs, answers) && i < j < |qs|
    requires qs[i].Write? && answers[i] == Failed && |qs[i].data| <= 4096
    requires qs[j].Read? && qs[j].name == qs[i].name && LeavesAlone(qs, i + 1, j, qs[i].name)
    ensures answers[j] == Failed
  {
    assert Answers(views[i], qs[i], answers[i], views[i + 1]);
    Remains(views, qs, answers, i + 1, j, qs[i].name);
    assert Answers(views[j], qs[j], answers[j], views[j + 1]);
  }

  // ---- Ownership ----

  /** The data of the files in use. */
  ghost function UsedData(fs: seq<File>): set<int> {
    set i | 0 <= i < |fs| && fs[i].inUse && fs[i].data != 0 :: fs[i].data as int
  }

  /** With the store as the only client and nothing stale, the live blocks are exactly the data of the files in use. */
  lemma OnlyFileData(fs: seq<File>, live: set<Block>)
    requires StoreOk(fs, live) && NothingStale(fs) && Foreign(fs, live) == {}
    ensures Payloads(live) == UsedData(fs)
  {
    HeldIsPayload(fs, live);
    forall p | p in Payloads(live) ensures p in UsedData(fs) {
      assert p !in Foreign(fs, live);
    }
  }

  /** The data of two files, with their NULs, never overlap. */
  lemma FilesDisjoint(fs: seq<File>, bs: seq<Block>, i: nat, j: nat)
    requires WellFormed(bs) && StoreOk(fs, Live(bs)) && i < |fs| && j < |fs| && i != j
    requires fs[i].data != 0 && fs[j].data != 0
    ensures fs[i].data + fs[i].size + 1 <= fs[j].data || fs[j].data + fs[j].size + 1 <= fs[i].data
  {
    hide WellFormed, Live;
    assert SlotOk(fs[i], Live(bs)) && SlotOk(fs[j], Live(bs));
    var b :| b in Live(bs) && b.addr + HEADER == fs[i].data && fs[i].size < b.size;
    var c :| c in Live(bs) && c.addr + HEADER == fs[j].data && fs[j].size < c.size;
    DisjointLive(bs, b, c);
  }

  /** Deleting every file gives the heap back whole. */
  lemma NoFilesNoBlocks(vfs: Vfs)
    requires Good(vfs) && vfs.Others() == {} && Now(vfs) == map[]
    ensures vfs.heap.list.blocks == EMPTY_HEAP
  {
    var fs, live := vfs.files[..], Live(vfs.heap.list.blocks);
    OnlyFileData(fs, live);
    NoDataWhenUnused(vfs);
    var s := vfs.Slots();
    assert ViewOf(s).Keys == {} == Names(s);
    assert forall i :: 0 <= i < |s| && s[i].Used? ==> s[i].name in Names(s);
    forall i | 0 <= i < |fs| ensures fs[i].data == 0 {
      assert s[i].Unused?;
    }
    assert UsedData(fs) == {};
    assert forall b :: b in live ==> b.addr + HEADER in Payloads(live);
    NothingLive(vfs.heap.list.blocks);
  }
}
