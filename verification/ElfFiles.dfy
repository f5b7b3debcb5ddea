/** Both loaders on any 32-bit little-endian RISC-V executable, written down byte by byte:
    the file header and the program headers of the System V ABI. */
module ElfFiles {
  import opened Words
  import opened FlatMemory
  import opened Elf

  /** The six fields of a program header that matter, in their order in the file. */
  function EntryBytes(e: Entry): (r: seq<u8>)
    ensures |r| == 24
  {
    Four(e.kind) + Four(e.offset) + Four(e.vaddr) + Four(e.paddr) + Four(e.filesz) + Four(e.memsz)
  }

  /** The file's entry point is `entry` and its program headers, of 32 bytes each, are `hs`
      from `at` on. */
  predicate Written(b: seq<u8>, entry: u32, at: u32, hs: seq<Entry>) {
    && |b| >= 52 && b[..7] == [0x7F, 0x45, 0x4C, 0x46, 1, 1, 1] && b[16..20] == [2, 0, 243, 0]
    && b[24..28] == Four(entry) && b[28..32] == Four(at) && b[42..44] == [32, 0]
    && |hs| < 0x1_0000 && b[44] == |hs| % 0x100 && b[45] == |hs| / 0x100
    && at + 32 * |hs| <= |b|
    && forall k :: 0 <= k < |hs| ==> b[at + 32 * k..at + 32 * k + 24] == EntryBytes(hs[k])
  }

  /** The bytes of every loadable segment among the first n are in the file. */
  predicate Inside(b: seq<u8>, hs: seq<Entry>, n: nat)
    requires n <= |hs|
  {
    forall k :: 0 <= k < n && hs[k].kind == 1 ==> hs[k].offset + hs[k].filesz <= |b|
  }

  // ---------------------------------------------------------------- reading fields

  lemma WordRead(b: seq<u8>, o: nat, v: u32)
    requires o + 4 <= |b|
    ensures b[o..o + 4] == Four(v) <==> U32At(b, o) == v
  {
    var f := b[o..o + 4];
    assert f == [b[o], b[o + 1], b[o + 2], b[o + 3]];
    BytesOfLe32(b[o], b[o + 1], b[o + 2], b[o + 3]);
    Le32OfBytes(v);
    WId(v);
    FourBytes(v);
    hide Byte, Le32, W, Four;
  }

  lemma FourBytes(v: u32)
    ensures Four(v) == [Byte(v, 0), Byte(v, 1), Byte(v, 2), Byte(v, 3)]
  {
  }

  /** Twenty-four bytes are read as a program header if and only if they are its bytes. */
  lemma EntryRead(b: seq<u8>, o: nat, e: Entry)
    requires o + 32 <= |b|
    ensures b[o..o + 24] == EntryBytes(e) <==> EntryAt(b, o) == e
  {
    hide Four, U32At;
    WordRead(b, o, e.kind);
    WordRead(b, o + 4, e.offset);
    WordRead(b, o + 8, e.vaddr);
    WordRead(b, o + 12, e.paddr);
    WordRead(b, o + 16, e.filesz);
    WordRead(b, o + 20, e.memsz);
    SixWords(b[o..o + 24], e);
    assert b[o..o + 24][0..4] == b[o..o + 4] && b[o..o + 24][4..8] == b[o + 4..o + 8];
    assert b[o..o + 24][8..12] == b[o + 8..o + 12] && b[o..o + 24][12..16] == b[o + 12..o + 16];
    assert b[o..o + 24][16..20] == b[o + 16..o + 20] && b[o..o + 24][20..24] == b[o + 20..o + 24];
  }

  lemma SixWords(c: seq<u8>, e: Entry)
    requires |c| == 24
    ensures c == EntryBytes(e) <==>
              && c[0..4] == Four(e.kind) && c[4..8] == Four(e.offset) && c[8..12] == Four(e.vaddr)
              && c[12..16] == Four(e.paddr) && c[16..20] == Four(e.filesz) && c[20..24] == Four(e.memsz)
  {
    hide Four;
    assert c == c[0..4] + c[4..8] + c[8..12] + c[12..16] + c[16..20] + c[20..24];
  }

  lemma HeaderRead(b: seq<u8>, entry: u32, at: u32, hs: seq<Entry>)
    requires Written(b, entry, at, hs)
    ensures b[..4] == [0x7F, 0x45, 0x4C, 0x46] && b[4] == 1 && b[5] == 1 && b[6] == 1
    ensures U16At(b, 16) == 2 && U16At(b, 18) == 243 && U32At(b, 24) == entry && U32At(b, 28) == at
    ensures U16At(b, 42) == 32 && U16At(b, 44) == |hs|
    ensures forall k :: 0 <= k < |hs| ==> EntryAt(b, at + 32 * k) == hs[k]
  {
    hide U32At, EntryAt, EntryBytes, Four;
    assert b[..4] == b[..7][..4] && b[4] == b[..7][4] && b[5] == b[..7][5] && b[6] == b[..7][6];
    assert b[16..20][0] == b[16] && b[16..20][1] == b[17] && b[16..20][2] == b[18] && b[16..20][3] == b[19];
    assert b[42..44][0] == b[42] && b[42..44][1] == b[43];
    WordRead(b, 24, entry);
    WordRead(b, 28, at);
    forall k | 0 <= k < |hs| ensures EntryAt(b, at + 32 * k) == hs[k] {
      EntryRead(b, at + 32 * k, hs[k]);
    }
  }

  // ---------------------------------------------------------------- the simulator

  /** The loadable segments among the first n headers, in order. */
  function Parts(b: seq<u8>, hs: seq<Entry>, n: nat): seq<Segment>
    requires n <= |hs| && Inside(b, hs, n)
  {
    if n == 0 then []
    else
      var e := hs[n - 1];
      Parts(b, hs, n - 1) +
      if e.kind == 1 then [Segment(e.vaddr, b[e.offset..e.offset + e.filesz], e.memsz)] else []
  }

  lemma {:induction false} SegmentsRead(b: seq<u8>, entry: u32, at: u32, hs: seq<Entry>, n: nat)
    requires Written(b, entry, at, hs) && n <= |hs|
    ensures Segments(b, n) == if Inside(b, hs, n) then Image(entry, Parts(b, hs, n)) else Refused(SegmentOutside)
    decreases n
  {
    hide U32At, U16At, EntryAt, EntryBytes, Four;
    HeaderRead(b, entry, at, hs);
    if n > 0 {
      hide Written;
      SegmentsRead(b, entry, at, hs, n - 1);
      assert Start(at, 32, n - 1) == at + 32 * (n - 1);
      assert EntryAt(b, at + 32 * (n - 1)) == hs[n - 1];
    }
  }

  lemma {:induction false} PartsOf(b: seq<u8>, hs: seq<Entry>, n: nat)
    requires n <= |hs| && Inside(b, hs, n)
    ensures Parts(b, hs, n) == [] <==> forall k :: 0 <= k < n ==> hs[k].kind != 1
    decreases n
  {
    if n > 0 {
      PartsOf(b, hs, n - 1);
    }
  }

  /** Main result: the simulator's loader returns the entry point and the loadable segments in
      order, each at its virtual address with its bytes and its size in memory, unless one lies
      outside the file or there is none. */
  lemma SimulatorReads(b: seq<u8>, entry: u32, at: u32, hs: seq<Entry>)
    requires Written(b, entry, at, hs)
    ensures Parsed(b) ==
              if !Inside(b, hs, |hs|) then Refused(SegmentOutside)
              else if forall k :: 0 <= k < |hs| ==> hs[k].kind != 1 then Refused(NoSegments)
              else Image(entry, Parts(b, hs, |hs|))
  {
    hide U32At, U16At, EntryAt, EntryBytes, Four, Segments, Inside, Parts;
    HeaderRead(b, entry, at, hs);
    SegmentsRead(b, entry, at, hs, |hs|);
    if Inside(b, hs, |hs|) {
      PartsOf(b, hs, |hs|);
    }
  }

  /** What is not such a file is refused, by its first bytes. */
  lemma SimulatorRefuses(b: seq<u8>)
    ensures |b| < 52 || b[..4] != [0x7F, 0x45, 0x4C, 0x46] ==> Parsed(b) == Refused(NotElf)
    ensures |b| >= 52 && b[..4] == [0x7F, 0x45, 0x4C, 0x46] && b[4..6] != [1, 1] ==> Parsed(b) == Refused(NotSupported)
    ensures |b| >= 52 && b[..4] == [0x7F, 0x45, 0x4C, 0x46] && b[4..6] == [1, 1] && b[18..20] != [243, 0] ==>
              Parsed(b) == Refused(BadMachine)
  {
    hide Segments, U32At;
    if |b| >= 52 {
      assert b[4..6] == [b[4], b[5]] && b[18..20] == [b[18], b[19]];
    }
  }

  // ---------------------------------------------------------------- the launcher

  predicate Whole(e: Entry) { e.offset % 4 == 0 && e.paddr % 4 == 0 && e.filesz % 4 == 0 && e.memsz % 4 == 0 }

  /** A loadable header the launcher takes: whole words, and no more file than memory. */
  predicate Taken(e: Entry) {
    Whole(e) && e.filesz <= e.memsz
  }

  /** The segment puts a word at this bus address. */
  ghost predicate Covers(e: Entry, a: u32) {
    e.kind == 1 && exists i :: 0 <= i < e.memsz / 4 && a == Slot(e.paddr, i)
  }

  /** The value is word i of the segment: the file's, then zero. */
  predicate IsWord(b: seq<u8>, e: Entry, i: nat, v: u32) {
    if 4 * i < e.filesz then e.offset + 4 * i + 4 <= |b| && b[e.offset + 4 * i..e.offset + 4 * i + 4] == Four(v)
    else v == 0
  }

  /** None of the headers from j up to n puts a word there. */
  ghost predicate Clear(hs: seq<Entry>, j: nat, n: nat, a: u32)
    requires n <= |hs|
  {
    forall l :: j <= l < n ==> !Covers(hs[l], a)
  }

  ghost predicate Same(was: map<u32, u32>, now: map<u32, u32>, a: u32) {
    (a in now <==> a in was) && (a in now ==> now[a] == was[a])
  }

  /** Word i of the segment stands in the window. */
  ghost predicate Stands(b: seq<u8>, e: Entry, i: nat, now: map<u32, u32>) {
    Slot(e.paddr, i) in now && IsWord(b, e, i, now[Slot(e.paddr, i)])
  }

  /** The window after the first n headers: of two segments over one address the later one's
      word stands, and what none covers is as before. */
  ghost predicate Placed(b: seq<u8>, hs: seq<Entry>, n: nat, was: map<u32, u32>, now: map<u32, u32>)
    requires n <= |hs|
  {
    && (forall a: u32 :: Clear(hs, 0, n, a) ==> Same(was, now, a))
    && forall j: nat, i: nat :: j < n && hs[j].kind == 1 && i < hs[j].memsz / 4 && Clear(hs, j + 1, n, Slot(hs[j].paddr, i)) ==>
         Stands(b, hs[j], i, now)
  }

  function WordCount(hs: seq<Entry>, n: nat): nat
    requires n <= |hs|
  {
    if n == 0 then 0 else WordCount(hs, n - 1) + if hs[n - 1].kind == 1 then hs[n - 1].memsz / 4 else 0
  }

  lemma LauncherHeader(m: Flat, elf: u32, b: seq<u8>, entry: u32, hs: seq<Entry>)
    requires Written(b, entry, 52, hs) && InMemory(m, elf, b) && |b| < 0x1_0000_0000
    ensures HeaderCode(m, elf, |b|) == 0 && Peek16(m, elf + 44) == |hs| && Peek32(m, elf + 24) == entry
  {
    hide Peek, Peek16, Peek32, U16At, U32At, EntryAt, Written;
    assert |b| >= 52 && 52 + 32 * |hs| <= |b| by { Sizes(b, entry, hs); }
    HeaderRead(b, entry, 52, hs);
    assert b[..4][0] == b[0] && b[..4][1] == b[1] && b[..4][2] == b[2] && b[..4][3] == b[3];
    PeekFile(m, elf, b, 16); PeekFile(m, elf, b, 18); PeekFile(m, elf, b, 24); PeekFile(m, elf, b, 28);
    PeekFile(m, elf, b, 42); PeekFile(m, elf, b, 44);
    assert Peek(m, elf + 0) == b[0];
  }

  lemma Sizes(b: seq<u8>, entry: u32, hs: seq<Entry>)
    requires Written(b, entry, 52, hs)
    ensures |b| >= 52 && 52 + 32 * |hs| <= |b|
  {
    hide Four, EntryBytes;
  }

  lemma LauncherEntry(m: Flat, elf: u32, b: seq<u8>, entry: u32, hs: seq<Entry>, k: nat)
    requires Written(b, entry, 52, hs) && InMemory(m, elf, b) && k < |hs|
    ensures PeekEntry(m, elf + 52 + 32 * k) == hs[k]
  {
    hide Peek, Peek16, Peek32, U16At, U32At, Written, InMemory;
    Sizes(b, entry, hs);
    HeaderRead(b, entry, 52, hs);
    var o := 52 + 32 * k;
    PeekFile(m, elf, b, o); PeekFile(m, elf, b, o + 4); PeekFile(m, elf, b, o + 8);
    PeekFile(m, elf, b, o + 12); PeekFile(m, elf, b, o + 16); PeekFile(m, elf, b, o + 20);
    assert EntryAt(b, o) == hs[k];
  }

  /** A word of the file, read where the launcher reads it. */
  lemma SegmentWord(m: Flat, elf: u32, b: seq<u8>, e: Entry, i: nat)
    requires InMemory(m, elf, b) && |b| < 0x1_0000_0000 && Taken(e) && e.offset + e.filesz <= |b|
    ensures IsWord(b, e, i, if 4 * i < e.filesz then Peek32(m, elf + W(e.offset + 4 * i)) else 0)
  {
    hide Peek, Peek32, U32At, InMemory, Four;
    if 4 * i < e.filesz {
      var o := e.offset + 4 * i;
      WId(o);
      assert o + 4 <= |b|;
      PeekFile(m, elf, b, o);
      WordRead(b, o, U32At(b, o));
    }
  }

  /** What the copying of one segment does to the window. */
  ghost predicate OnePlaced(b: seq<u8>, e: Entry, was: map<u32, u32>, now: map<u32, u32>) {
    && (forall i: nat :: i < e.memsz / 4 ==> Stands(b, e, i, now))
    && forall a: u32 :: !Covers(e, a) ==> Same(was, now, a)
  }

  lemma SegmentPlaced(m: Flat, elf: u32, b: seq<u8>, e: Entry, was: map<u32, u32>)
    requires InMemory(m, elf, b) && |b| < 0x1_0000_0000 && e.kind == 1 && Taken(e) && e.offset + e.filesz <= |b|
    ensures OnePlaced(b, e, was, Copied(m, elf, e, was, e.memsz / 4))
  {
    hide Peek32, Copied, InMemory, Taken, IsWord, Slot, Four, W;
    var now := Copied(m, elf, e, was, e.memsz / 4);
    CopiedWords(m, elf, e, was, e.memsz / 4);
    forall i: nat | i < e.memsz / 4 ensures Stands(b, e, i, now) {
      SegmentWord(m, elf, b, e, i);
    }
  }

  lemma PlacedMore(b: seq<u8>, hs: seq<Entry>, n: nat, was: map<u32, u32>, mid: map<u32, u32>, now: map<u32, u32>)
    requires n < |hs| && Placed(b, hs, n, was, mid)
    requires if hs[n].kind == 1 then OnePlaced(b, hs[n], mid, now) else now == mid
    ensures Placed(b, hs, n + 1, was, now)
  {
    hide Stands, Same, Clear, Covers, Slot;
    var e := hs[n];
    forall a: u32 | Clear(hs, 0, n + 1, a) ensures Same(was, now, a) {
      ClearLess(hs, 0, n, a);
      SameTwice(was, mid, now, a);
    }
    forall j: nat, i: nat | j < n + 1 && hs[j].kind == 1 && i < hs[j].memsz / 4 && Clear(hs, j + 1, n + 1, Slot(hs[j].paddr, i))
      ensures Stands(b, hs[j], i, now)
    {
      if j < n {
        ClearLess(hs, j + 1, n, Slot(hs[j].paddr, i));
        StandsOn(b, hs[j], i, mid, now);
      }
    }
  }

  lemma ClearLess(hs: seq<Entry>, j: nat, n: nat, a: u32)
    requires j <= n < |hs| && Clear(hs, j, n + 1, a)
    ensures Clear(hs, j, n, a) && !Covers(hs[n], a)
  {
    hide Covers;
  }

  lemma SameTwice(was: map<u32, u32>, mid: map<u32, u32>, now: map<u32, u32>, a: u32)
    requires Same(was, mid, a) && (Same(mid, now, a) || now == mid)
    ensures Same(was, now, a)
  {
  }

  lemma StandsOn(b: seq<u8>, e: Entry, i: nat, mid: map<u32, u32>, now: map<u32, u32>)
    requires Stands(b, e, i, mid) && (Same(mid, now, Slot(e.paddr, i)) || now == mid)
    ensures Stands(b, e, i, now)
  {
    hide IsWord, Slot;
  }

  /** The launcher's objection to a segment: -9, -10 and -11 in this order. */
  lemma ObjectionIs(e: Entry, size: u32)
    ensures Objection(e, size) ==
              if !Whole(e) then -9
              else if (e.offset + e.filesz) % 0x1_0000_0000 > size then -10
              else if e.filesz > e.memsz then -11 else 0
    ensures e.offset + e.filesz <= size ==> (Objection(e, size) == 0 <==> Taken(e))
  {
    var end: int := e.offset + e.filesz;
    if end <= size {
      WId(end);
    }
  }

  lemma {:induction false} InstalledReads(m: Flat, elf: u32, b: seq<u8>, entry: u32, hs: seq<Entry>, imem: map<u32, u32>, n: nat)
    requires Written(b, entry, 52, hs) && InMemory(m, elf, b) && |b| < 0x1_0000_0000 && n <= |hs| && Inside(b, hs, n)
    requires forall k :: 0 <= k < n && hs[k].kind == 1 ==> Taken(hs[k])
    ensures var r := Installed(m, elf, |b|, imem, n);
            r.code == 0 && r.words == W(WordCount(hs, n)) && Placed(b, hs, n, imem, r.imem)
    decreases n
  {
    hide Written, InMemory, Peek32, Copied, Taken, Objection, PeekEntry, OnePlaced, W, IsWord, Covers, Slot;
    if n > 0 {
      hide Placed;
      InstalledReads(m, elf, b, entry, hs, imem, n - 1);
      LauncherEntry(m, elf, b, entry, hs, n - 1);
      var e, before := hs[n - 1], Installed(m, elf, |b|, imem, n - 1).imem;
      if e.kind == 1 {
        ObjectionIs(e, |b|);
        WAdd(WordCount(hs, n - 1), e.memsz / 4);
        SegmentPlaced(m, elf, b, e, before);
      }
      PlacedMore(b, hs, n - 1, imem, before, Installed(m, elf, |b|, imem, n).imem);
    } else {
      WId(0);
    }
  }

  /** The first segment it does not take decides the code, and what stood before it is written. */
  lemma FirstRefusal(m: Flat, elf: u32, b: seq<u8>, entry: u32, hs: seq<Entry>, imem: map<u32, u32>, k: nat)
    requires Written(b, entry, 52, hs) && InMemory(m, elf, b) && |b| < 0x1_0000_0000 && k < |hs| && Inside(b, hs, k)
    requires forall j :: 0 <= j < k && hs[j].kind == 1 ==> Taken(hs[j])
    requires hs[k].kind == 1 && (!Taken(hs[k]) || (hs[k].offset + hs[k].filesz) % 0x1_0000_0000 > |b|)
    ensures var r := Launched(m, elf, |b|, imem);
            && r.code == (if !Whole(hs[k]) then -9
                          else if (hs[k].offset + hs[k].filesz) % 0x1_0000_0000 > |b| then -10 else -11)
            && Placed(b, hs, k, imem, r.imem)
  {
    hide Written, InMemory, Peek32, Peek16, HeaderCode, Copied, Objection, PeekEntry, Placed, Slot, Inside, Whole;
    LauncherHeader(m, elf, b, entry, hs);
    InstalledReads(m, elf, b, entry, hs, imem, k);
    LauncherEntry(m, elf, b, entry, hs, k);
    ObjectionIs(hs[k], |b|);
    ObjectionStays(m, elf, |b|, imem, k + 1, |hs|);
  }

  /** Main result: the launcher's loader takes such a file if and only if every loadable
      segment is of whole words and has no more file than memory; it then returns the entry
      point and the number of words, and the window holds each segment at its physical
      address, followed by zeroes up to its size in memory. */
  lemma LauncherReads(m: Flat, elf: u32, b: seq<u8>, entry: u32, hs: seq<Entry>, imem: map<u32, u32>)
    requires Written(b, entry, 52, hs) && InMemory(m, elf, b) && |b| < 0x1_0000_0000 && Inside(b, hs, |hs|)
    ensures var r := Launched(m, elf, |b|, imem);
            && (r.code == 0 <==> forall k :: 0 <= k < |hs| && hs[k].kind == 1 ==> Taken(hs[k]))
            && (r.code == 0 ==>
                  Peek32(m, elf + 24) == entry && r.words == WordCount(hs, |hs|) % 0x1_0000_0000 &&
                  Placed(b, hs, |hs|, imem, r.imem))
  {
    hide Written, InMemory, Peek32, Peek16, HeaderCode, Installed, Inside, Taken, Placed, Slot;
    LauncherHeader(m, elf, b, entry, hs);
    var k := 0;
    while k < |hs| && (hs[k].kind == 1 ==> Taken(hs[k]))
      invariant 0 <= k <= |hs| && forall j :: 0 <= j < k && hs[j].kind == 1 ==> Taken(hs[j])
    {
      k := k + 1;
    }
    InsideLess(b, hs, k);
    if k < |hs| {
      FirstRefusal(m, elf, b, entry, hs, imem, k);
    } else {
      InstalledReads(m, elf, b, entry, hs, imem, |hs|);
    }
  }

  lemma InsideLess(b: seq<u8>, hs: seq<Entry>, k: nat)
    requires k <= |hs| && Inside(b, hs, |hs|)
    ensures Inside(b, hs, k)
  {
  }

  /** Why a file header is refused, by its bytes: the first check that fails has its number. */
  lemma LauncherRefuses(m: Flat, elf: u32, b: seq<u8>, imem: map<u32, u32>)
    requires InMemory(m, elf, b) && |b| < 0x1_0000_0000
    ensures var r := Launched(m, elf, |b|, imem);
            && (|b| < 52 ==> r == Progress(-1, imem, 0))
            && (|b| >= 52 ==>
                  var headers := b[44] as int + 0x100 * b[45] as int;
                  var checks := [true, b[..4] == [0x7F, 0x45, 0x4C, 0x46], b[4..7] == [1, 1, 1], b[16..18] == [2, 0],
                                 b[18..20] == [243, 0], b[28..32] == [52, 0, 0, 0], b[42..44] == [32, 0], 52 + 32 * headers <= |b|];
                  forall k :: 0 <= k < 8 && !checks[k] && (forall j :: 0 <= j < k ==> checks[j]) ==>
                    r == Progress(-1 - k, imem, 0))
  {
    hide Peek, Peek16, Peek32, Installed;
    if |b| >= 52 {
      HeaderBytes(m, elf, b);
      var checks := [true, b[..4] == [0x7F, 0x45, 0x4C, 0x46], b[4..7] == [1, 1, 1], b[16..18] == [2, 0], b[18..20] == [243, 0],
                     b[28..32] == [52, 0, 0, 0], b[42..44] == [32, 0], 52 + 32 * (b[44] as int + 0x100 * b[45] as int) <= |b|];
      forall k | 0 <= k < 8 && !checks[k] && (forall j :: 0 <= j < k ==> checks[j])
        ensures Launched(m, elf, |b|, imem) == Progress(-1 - k, imem, 0)
      {
        if k > 1 { assert checks[1]; }
        if k > 2 { assert checks[2]; }
        if k > 3 { assert checks[3]; }
        if k > 4 { assert checks[4]; }
        if k > 5 { assert checks[5]; }
        if k > 6 { assert checks[6]; }
        assert HeaderCode(m, elf, |b|) == -1 - k;
      }
    }
  }

  /** The launcher's reads of the header, by the bytes of the file. */
  lemma HeaderBytes(m: Flat, elf: u32, b: seq<u8>)
    requires InMemory(m, elf, b) && |b| >= 52
    ensures forall k :: 0 <= k < 7 ==> Peek(m, elf + k) == b[k]
    ensures b[..4] == [b[0], b[1], b[2], b[3]] && b[4..7] == [b[4], b[5], b[6]]
    ensures Peek16(m, elf + 16) == 2 <==> b[16..18] == [2, 0]
    ensures Peek16(m, elf + 18) == 243 <==> b[18..20] == [243, 0]
    ensures Peek32(m, elf + 28) == 52 <==> b[28..32] == [52, 0, 0, 0]
    ensures Peek16(m, elf + 42) == 32 <==> b[42..44] == [32, 0]
    ensures Peek16(m, elf + 44) == b[44] as int + 0x100 * b[45] as int
  {
    hide Peek, Peek16, Peek32, U32At, U16At, Four;
    PeekFile(m, elf, b, 16);
    PeekFile(m, elf, b, 18);
    PeekFile(m, elf, b, 28);
    PeekFile(m, elf, b, 42);
    PeekFile(m, elf, b, 44);
    WordRead(b, 28, 52);
    FourOf52();
    HalfRead(b, 16, 2, 0);
    HalfRead(b, 18, 243, 0);
    HalfRead(b, 42, 32, 0);
    HalfRead(b, 44, b[44], b[45]);
    forall k | 0 <= k < 7 ensures Peek(m, elf + k) == b[k] {
    }
  }

  lemma FourOf52()
    ensures Four(52) == [52, 0, 0, 0]
  {
  }

  lemma HalfRead(b: seq<u8>, o: nat, lo: u8, hi: u8)
    requires o + 2 <= |b|
    ensures U16At(b, o) == lo as int + 0x100 * hi as int <==> b[o..o + 2] == [lo, hi]
  {
    assert b[o..o + 2] == [b[o], b[o + 1]];
  }
}
