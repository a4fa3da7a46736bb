/** The state after heap_init and vfs_init: two default files in an otherwise empty store. */
module Boot {
  import opened Memory
  import opened Options
  import opened Sets
  import opened CStrings
  import opened BlockList
  import opened LiveHeap
  import opened FileStore
  import opened FileMap
  import opened FileScript
  import RxRing

  function Ascii(s: string): seq<byte> {
    seq(|s|, i requires 0 <= i < |s| => s[i] as int % 0x100)
  }

  const README_NAME: seq<byte> := Ascii("README.txt") + [0]
  const README_1: string := "Welcome to NiceTop OS!\n\n"
  const README_2: string := "This is a simple "
  const README_3: string := "operating system "
  const README_4: string := "built from scratch.\n"
  const README_5: string := "Type 'help' to see "
  const README_6: string := "available commands.\n"
  const README_TEXT: string := README_1 + (README_2 + (README_3 + (README_4 + (README_5 + README_6))))
  const README_DATA: seq<byte> := Ascii(README_TEXT) + [0]
  const WELCOME_NAME: seq<byte> := Ascii("welcome.txt") + [0]
  const WELCOME_1: string := "Hello, World!\n"
  const WELCOME_2: string := "NiceTop OS is running!\n"
  const WELCOME_TEXT: string := WELCOME_1 + WELCOME_2
  const WELCOME_DATA: seq<byte> := Ascii(WELCOME_TEXT) + [0]

  predicate NoNul(s: string) {
    forall i :: 0 <= i < |s| ==> s[i] as int % 0x100 != 0
  }

  lemma AsciiText(s: string)
    requires NoNul(s)
    ensures 0 in Ascii(s) + [0] && Text(Ascii(s) + [0]) == Ascii(s)
  {
    var t := Ascii(s) + [0];
    assert t[|s|] == 0 && t[..|s|] == Ascii(s);
    TextIs(t, |s|);
  }

  lemma NoNulConcat(s: string, t: string)
    requires NoNul(s) && NoNul(t)
    ensures NoNul(s + t)
  {
  }

  lemma ReadmeLine1()
    ensures NoNul(README_1) && |README_1| == 24
  {
  }

  lemma ReadmeLine2()
    ensures NoNul(README_2) && |README_2| == 17
  {
  }

  lemma ReadmeLine3()
    ensures NoNul(README_3) && |README_3| == 17
  {
  }

  lemma ReadmeLine4()
    ensures NoNul(README_4) && |README_4| == 20
  {
  }

  lemma ReadmeLine5()
    ensures NoNul(README_5) && |README_5| == 19
  {
  }

  lemma ReadmeLine6()
    ensures NoNul(README_6) && |README_6| == 20
  {
  }

  lemma WelcomeLine1()
    ensures NoNul(WELCOME_1) && |WELCOME_1| == 14
  {
  }

  lemma WelcomeLine2()
    ensures NoNul(WELCOME_2) && |WELCOME_2| == 23
  {
  }

  lemma Lengths()
    ensures 0 in README_DATA && |Text(README_DATA)| == 117 && Text(README_DATA) == Ascii(README_TEXT)
    ensures 0 in WELCOME_DATA && |Text(WELCOME_DATA)| == 37 && Text(WELCOME_DATA) == Ascii(WELCOME_TEXT)
  {
    hide README_1, README_2, README_3, README_4, README_5, README_6, WELCOME_1, WELCOME_2, NoNul, Text;
    ReadmeLine1();
    ReadmeLine2();
    ReadmeLine3();
    ReadmeLine4();
    ReadmeLine5();
    ReadmeLine6();
    NoNulConcat(README_5, README_6);
    NoNulConcat(README_4, README_5 + README_6);
    NoNulConcat(README_3, README_4 + (README_5 + README_6));
    NoNulConcat(README_2, README_3 + (README_4 + (README_5 + README_6)));
    NoNulConcat(README_1, README_2 + (README_3 + (README_4 + (README_5 + README_6))));
    AsciiText(README_TEXT);
    WelcomeLine1();
    WelcomeLine2();
    NoNulConcat(WELCOME_1, WELCOME_2);
    AsciiText(WELCOME_TEXT);
  }

  lemma FileNames()
    ensures 0 in README_NAME && |Text(README_NAME)| <= NAME_LIMIT
    ensures 0 in WELCOME_NAME && |Text(WELCOME_NAME)| <= NAME_LIMIT
    ensures Text(README_NAME) == Ascii("README.txt") && Text(WELCOME_NAME) == Ascii("welcome.txt")
    ensures Text(README_NAME) != Text(WELCOME_NAME)
  {
    hide NoNul, Text;
    assert NoNul("README.txt") && NoNul("welcome.txt") by { ShortLines(); }
    AsciiText("README.txt");
    AsciiText("welcome.txt");
    assert Ascii("README.txt")[0] != Ascii("welcome.txt")[0];
  }

  lemma ShortLines()
    ensures NoNul("README.txt") && NoNul("welcome.txt")
  {
  }

  /** The effect of one file on the heap: one new block, as low as possible. */
  ghost predicate OneMore(live: set<Block>, live': set<Block>, n: word) {
    exists b :: b in live' && Allotted(live, live', n, b)
  }

  /** One default file: vfs_create, then vfs_write of the whole text. */
  method AddFile(vfs: Vfs, name: seq<byte>, content: seq<byte>)
    requires Good(vfs) && 0 in name && 0 in content
    requires |Text(name)| <= NAME_LIMIT && |Text(content)| <= MAX_FILE_SIZE
    requires Text(name) !in Now(vfs) && |Now(vfs)| < MAX_FILES
    requires Room(Live(vfs.heap.list.blocks), Align4(|Text(content)| + 1))
    modifies vfs.files, vfs.heap.list, vfs.heap.list.mem
    ensures Good(vfs) && vfs.Others() == old(vfs.Others())
    ensures Now(vfs) == old(Now(vfs))[Text(name) := Some(Text(content))]
    ensures OneMore(old(Live(vfs.heap.list.blocks)), Live(vfs.heap.list.blocks), |Text(content)| + 1)
  {
    hide Find, Distinct, ViewOf, FirstUnused, SlotsOf, Foreign, StoreOk, Text, Room, Align4, Live, WellFormed;
    hide NothingStale, Allotted;
    ghost var s, n := vfs.Slots(), Text(name);
    SlotCount(vfs);
    CreateAnswer(s, n, Regular);
    RoomForOneMore(s);
    NoDataWhenUnused(vfs);
    var file := vfs.Create(name, Regular);
    if file != -1 {
      NewSlot(s, file, n);
      UsedInUse(vfs, file);
      NothingAtNull(vfs.heap.list.blocks, vfs.heap.list.mem[..]);
      RewriteAnswer(vfs.Slots(), file, Some(Text(content)));
      var len := StrLen(content);
      var r := vfs.Write(file, content, len);
    }
  }

  lemma NewSlot(s: seq<Slot>, i: nat, n: Name)
    requires i < |s| && |n| <= NAME_LIMIT
    ensures n[..Min(|n|, MAX_FILENAME - 1)] == n
    ensures s[i := Used(n, Regular, None)][i] == Used(n, Regular, None)
  {
  }

  lemma UsedInUse(vfs: Vfs, i: nat)
    requires vfs.Valid() && i < MAX_FILES && vfs.Slots()[i].Used?
    ensures vfs.files[i].inUse
  {
    SlotsAt(vfs.files[..], vfs.heap.list.mem[..]);
  }

  lemma RoomAtFirst(n: word)
    requires n <= MAX_FILE_SIZE + 1
    ensures Room({}, Align4(n))
  {
    assert Fits({}, HEAP_START, Align4(n));
  }

  /** The block of the text of README.txt, 118 bytes with its NUL. */
  const README_BLOCK: Block := Block(HEAP_START, 120, false)
  /** The block of the text of welcome.txt, 38 bytes with its NUL. */
  const WELCOME_BLOCK: Block := Block(HEAP_START + 0x84, 40, false)

  lemma FirstBlock(bs: seq<Block>)
    requires OneMore({}, Live(bs), 118)
    ensures Live(bs) == {README_BLOCK} && Room(Live(bs), Align4(38))
  {
    var live := Live(bs);
    var b :| b in live && Allotted({}, live, 118, b);
    assert Fits({}, HEAP_START, Align4(118));
    assert b == README_BLOCK;
    assert Fits(live, b.End(), Align4(38));
  }

  lemma SecondBlock(bs: seq<Block>)
    requires OneMore({README_BLOCK}, Live(bs), 38)
    ensures Live(bs) == {README_BLOCK, WELCOME_BLOCK}
  {
    var live := Live(bs);
    var b :| b in live && Allotted({README_BLOCK}, live, 38, b);
    assert README_BLOCK in {README_BLOCK};
    assert Fits({README_BLOCK}, WELCOME_BLOCK.addr, Align4(38));
    assert b == WELCOME_BLOCK;
  }

  /**
   The first kmalloc after that, by e1000_driver_init for 32 descriptors of 16 bytes: it is 4 off a 16-byte
   boundary, so the device does not use the driver's ring, and never sets a status byte that the driver tests.
   */
  lemma RingAtBoot(bs: seq<Block>)
    requires WellFormed(bs) && Live(bs) == {README_BLOCK, WELCOME_BLOCK}
    ensures RxRing.RING * RxRing.DESCRIPTOR_SIZE == 512 && Malloc(bs, 512).1 == 0x10_00C4
    ensures !RxRing.OneRing(0x10_00C4)
    ensures forall i, j :: 0 <= i < RxRing.RING && 0 <= j < RxRing.RING ==> !RxRing.Reports(0x10_00C4, i, j)
  {
    hide Malloc, WellFormed;
    var live, a := Live(bs), WELCOME_BLOCK.End();
    MallocExact(bs, 512);
    assert README_BLOCK in live && WELCOME_BLOCK in live;
    assert Fits(live, a, Align4(512));
    RxRing.OneRingExact(0x10_00C4);
    RxRing.ReportsExact(0x10_00C4);
  }

  /**
   After README.txt is deleted, a request for 61 bytes takes 64 of its 120 bytes, and what remains is enough
   to be split off: the next request for 40 bytes is served from it.
   */
  lemma SplitAfterDelete(bs: seq<Block>)
    requires WellFormed(bs) && Live(bs) == {WELCOME_BLOCK}
    ensures var (r, p) := Malloc(bs, 61);
      var (_, q) := Malloc(r, 40);
      p == 0x10_000C && q == 0x10_0058
  {
    hide Malloc, WellFormed, SplitExactly;
    MallocExact(bs, 61);
    var (r, p) := Malloc(bs, 61);
    assert WELCOME_BLOCK in Live(bs);
    assert Fits(Live(bs), HEAP_START, Align4(61)) && Fits(Live(bs), HEAP_START, Align4(61) + 29);
    var b :| b in Live(r) && b.addr + 12 == p && Allotted(Live(bs), Live(r), 61, b) && SplitExactly(Live(bs), 61, b);
    assert b.addr == HEAP_START && b.size == 64;
    MallocExact(r, 40);
    assert b in Live(r) && WELCOME_BLOCK in Live(r);
    assert Fits(Live(r), b.End(), Align4(40));
  }

  /** heap_stats after start-up: both texts with their NULs, rounded, and two headers. */
  lemma UsedAtBoot(bs: seq<Block>)
    requires WellFormed(bs) && Live(bs) == {README_BLOCK, WELCOME_BLOCK}
    ensures BytesInUse(bs) == 184
  {
    hide WellFormed, Live;
    RangeSize(HEAP_START, HEAP_START + 184);
    assert README_BLOCK in Live(bs) && WELCOME_BLOCK in Live(bs);
    forall a: int ensures Occupied(Live(bs), a) <==> HEAP_START <= a < HEAP_START + 184 {
      if HEAP_START <= a < HEAP_START + 184 {
        assert README_BLOCK.addr <= a < README_BLOCK.addr + 12 + README_BLOCK.size
               || WELCOME_BLOCK.addr <= a < WELCOME_BLOCK.addr + 12 + WELCOME_BLOCK.size;
      }
    }
    assert OccupiedIn(Live(bs), HEAP_START, HEAP_END) == Range(HEAP_START, HEAP_START + 184);
  }

  /** vfs_init on the heap that heap_init built: both default files exist, with their full texts. */
  method VfsInit(heap: Heap) returns (vfs: Vfs)
    requires heap.Valid() && heap.list.blocks == EMPTY_HEAP
    modifies heap.list, heap.list.mem
    ensures fresh(vfs) && fresh(vfs.files) && vfs.heap == heap && Good(vfs) && vfs.Others() == {}
    ensures Now(vfs) == map[
              Ascii("README.txt") := Some(Ascii(
                "Welcome to NiceTop OS!\n\n" + ("This is a simple " + ("operating system " + ("built from scratch.\n"
                + ("Type 'help' to see " + "available commands.\n")))))),
              Ascii("welcome.txt") := Some(Ascii("Hello, World!\n" + "NiceTop OS is running!\n"))]
    ensures Live(heap.list.blocks) == {README_BLOCK, WELCOME_BLOCK}
  {
    hide Text, README_NAME, README_DATA, WELCOME_NAME, WELCOME_DATA, README_TEXT, WELCOME_TEXT, Ascii;
    hide OneMore, Room, Align4, Live, Good, Now, Foreign;
    vfs := new Vfs(heap);
    EmptyStore(vfs);
    FileNames();
    Lengths();
    RoomAtFirst(118);
    AddFile(vfs, README_NAME, README_DATA);
    FirstBlock(heap.list.blocks);
    AddFile(vfs, WELCOME_NAME, WELCOME_DATA);
    SecondBlock(heap.list.blocks);
    Texts();
  }

  lemma Texts()
    ensures README_TEXT == "Welcome to NiceTop OS!\n\n" + ("This is a simple " + ("operating system "
              + ("built from scratch.\n" + ("Type 'help' to see " + "available commands.\n"))))
    ensures WELCOME_TEXT == "Hello, World!\n" + "NiceTop OS is running!\n"
  {
  }

  lemma EmptyStore(vfs: Vfs)
    requires vfs.Valid() && (forall i :: 0 <= i < MAX_FILES ==> vfs.Slots()[i].Unused?)
    requires vfs.heap.list.blocks == EMPTY_HEAP && NothingStale(vfs.files[..])
    ensures Live(vfs.heap.list.blocks) == {} && vfs.Others() == {}
    ensures Good(vfs) && Now(vfs) == map[]
  {
    assert Names(vfs.Slots()) == {};
  }
}
