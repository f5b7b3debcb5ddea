/** The executable format that carries assembled words to memory: the packer, the
    simulator's loader, and the launcher's loader that writes instruction memory. */
module Elf {
  import opened Counters
  import opened Words
  import opened FlatMemory

  // ---------------------------------------------------------------- little-endian fields

  function Four(v: int): (r: seq<u8>)
    ensures |r| == 4
  {
    [v % 0x100, v / 0x100 % 0x100, v / 0x1_0000 % 0x100, v / 0x100_0000 % 0x100]
  }

  function U16At(b: seq<u8>, o: nat): u16
    requires o + 2 <= |b|
  {
    Le16(b[o], b[o + 1])
  }

  function U32At(b: seq<u8>, o: nat): u32
    requires o + 4 <= |b|
  {
    Le32(b[o], b[o + 1], b[o + 2], b[o + 3])
  }

  function TextOf(words: seq<int>): (r: seq<u8>)
    ensures |r| == 4 * |words|
  {
    if words == [] then [] else TextOf(words[..|words| - 1]) + Four(words[|words| - 1])
  }

  lemma {:induction false} TextWord(words: seq<int>, i: nat)
    requires i < |words|
    ensures U32At(TextOf(words), 4 * i) == W(words[i])
  {
    var n := |words| - 1;
    var t := TextOf(words[..n]);
    if i == n {
      Le32OfBytes(words[n]);
    } else {
      TextWord(words[..n], i);
      assert TextOf(words)[..4 * n] == t;
    }
  }

  // ---------------------------------------------------------------- the packer

  /** Class, data and version are 1; nine bytes of padding. */
  const IDENT: seq<u8> := [0x7F, 0x45, 0x4C, 0x46, 1, 1, 1, 0, 0, 0, 0, 0, 0, 0, 0, 0]

  /** Type 2, machine 243, version 1. */
  const KIND: seq<u8> := [2, 0, 243, 0, 1, 0, 0, 0]

  /** Program headers at 52, no sections, no flags, header sizes 52 and 32, one program
      header. */
  const LAYOUT: seq<u8> := [52, 0, 0, 0, 0, 0, 0, 0, 0, 0, 0, 0, 52, 0, 32, 0, 1, 0, 0, 0, 0, 0, 0, 0]

  function Header(entry: u32): seq<u8> { IDENT + KIND + Four(entry) + LAYOUT }

  /** A loadable segment at offset 0x1000, readable and executable, aligned to 0x1000. */
  function ProgramHeader(addr: u32, size: u32): seq<u8> {
    [1, 0, 0, 0, 0, 0x10, 0, 0] + (Four(addr) + Four(addr)) + (Four(size) + Four(size)) + [5, 0, 0, 0, 0, 0x10, 0, 0]
  }

  function FileOf(words: seq<int>, addr: u32, entry: u32): seq<u8>
    requires 4 * |words| < 0x1_0000_0000
  {
    Header(entry) + ProgramHeader(addr, 4 * |words|) + seq(0x1000 - 84, _ => 0) + TextOf(words)
  }

  predicate Fits(x: int) { 0 <= x < 0x1_0000_0000 }

  /** `build_elf`: packing a field outside 32 bits is an error. */
  method BuildElf(words: seq<int>, load: int, entry: int) returns (r: Option<seq<u8>>)
    ensures r.Some? <==> Fits(load) && Fits(entry) && Fits(4 * |words|)
    ensures r.Some? ==> r.value == FileOf(words, load, entry)
  {
    var text := TextOf(words);
    if !Fits(load) || !Fits(|text|) {
      return None;
    }
    var phdr := ProgramHeader(load, |text|);
    var ident := new u8[16](_ => 0);
    ident[0], ident[1], ident[2], ident[3] := 0x7F, 0x45, 0x4C, 0x46;
    ident[4] := 1;
    ident[5] := 1;
    ident[6] := 1;
    if !Fits(entry) {
      return None;
    }
    assert ident[..] == IDENT;
    var header := ident[..] + KIND + Four(entry) + LAYOUT;
    var padding: seq<u8> := seq(0x1000 - |header| - |phdr|, _ => 0);
    r := Some(header + phdr + padding + text);
  }

  lemma FourIn(b: seq<u8>, o: nat, v: u32)
    requires o + 4 <= |b| && b[o..o + 4] == Four(v)
    ensures U32At(b, o) == v
  {
    var f := b[o..o + 4];
    assert b[o] == f[0] && b[o + 1] == f[1] && b[o + 2] == f[2] && b[o + 3] == f[3];
    Le32OfBytes(v);
    WId(v);
  }

  lemma Shifted(b: seq<u8>, lo: nat, hi: nat, o: nat)
    requires lo <= hi <= |b| && o + 4 <= hi - lo
    ensures U32At(b[lo..hi], o) == U32At(b, lo + o) && U16At(b[lo..hi], o) == U16At(b, lo + o)
  {
  }

  lemma FromTheStart(b: seq<u8>, n: nat)
    requires 8 <= n <= |b|
    ensures b[0..n] == b[..n] && b[..n][..4] == b[..4]
    ensures b[..n][4] == b[4] && b[..n][5] == b[5] && b[..n][6] == b[6]
  {
  }

  lemma HeaderFields(entry: u32)
    ensures var h := Header(entry);
            && |h| == 52 && h[..4] == [0x7F, 0x45, 0x4C, 0x46] && h[4] == 1 && h[5] == 1 && h[6] == 1
            && U16At(h, 16) == 2 && U16At(h, 18) == 243 && U32At(h, 24) == entry && U32At(h, 28) == 52
            && U16At(h, 42) == 32 && U16At(h, 44) == 1
  {
    hide U16At, U32At, Four;
    var h := Header(entry);
    HeaderParts(entry);
    ConstantFields();
    LayoutFields();
    FromTheStart(h, 16);
    FourIn(h, 24, entry);
    Shifted(h, 16, 24, 0); Shifted(h, 16, 24, 2);
    Shifted(h, 28, 52, 0); Shifted(h, 28, 52, 14); Shifted(h, 28, 52, 16);
  }

  lemma HeaderParts(entry: u32)
    ensures var h := Header(entry);
            && |h| == 52 && h[..16] == IDENT && h[16..24] == KIND && h[24..28] == Four(entry) && h[28..52] == LAYOUT
  {
    hide Four;
  }

  lemma ConstantFields()
    ensures IDENT[..4] == [0x7F, 0x45, 0x4C, 0x46] && IDENT[4] == 1 && IDENT[5] == 1 && IDENT[6] == 1
    ensures U16At(KIND, 0) == 2 && U16At(KIND, 2) == 243
  {
  }

  lemma LayoutFields()
    ensures U32At(LAYOUT, 0) == 52 && U16At(LAYOUT, 14) == 32 && U16At(LAYOUT, 16) == 1
  {
    assert LAYOUT[0] == 52 && LAYOUT[1] == 0 && LAYOUT[2] == 0 && LAYOUT[3] == 0;
    assert LAYOUT[14] == 32 && LAYOUT[15] == 0 && LAYOUT[16] == 1 && LAYOUT[17] == 0;
  }

  lemma ProgramFields(addr: u32, size: u32)
    ensures var h := ProgramHeader(addr, size);
            && |h| == 32 && U32At(h, 0) == 1 && U32At(h, 4) == 0x1000 && U32At(h, 8) == addr && U32At(h, 12) == addr
            && U32At(h, 16) == size && U32At(h, 20) == size
  {
    hide Four;
    var h := ProgramHeader(addr, size);
    FourIn(h, 8, addr);
    FourIn(h, 12, addr);
    FourIn(h, 16, size);
    FourIn(h, 20, size);
  }

  lemma FileLayout(words: seq<int>, addr: u32, entry: u32)
    requires 4 * |words| < 0x1_0000_0000
    ensures var f := FileOf(words, addr, entry);
            && |f| == 0x1000 + 4 * |words| && f[..52] == Header(entry)
            && f[52..84] == ProgramHeader(addr, 4 * |words|) && f[0x1000..] == TextOf(words)
  {
    hide Header, ProgramHeader, TextOf;
    HeaderFields(entry);
    ProgramFields(addr, 4 * |words|);
  }

  // ---------------------------------------------------------------- the simulator's loader

  datatype Segment = Segment(addr: u32, data: seq<u8>, memSize: u32)

  datatype Fault = NotElf | NotSupported | BadMachine | HeaderOutside | SegmentOutside | NoSegments

  datatype Loaded = Image(entry: u32, segments: seq<Segment>) | Refused(fault: Fault)

  /** The fields of a program header that a loader looks at. */
  datatype Entry = Entry(kind: u32, offset: u32, vaddr: u32, paddr: u32, filesz: u32, memsz: u32)

  function EntryAt(b: seq<u8>, o: nat): Entry
    requires o + 32 <= |b|
  {
    Entry(U32At(b, o), U32At(b, o + 4), U32At(b, o + 8), U32At(b, o + 12), U32At(b, o + 16), U32At(b, o + 20))
  }

  /** Where program header k starts. */
  function Start(phoff: u32, phentsize: u16, k: nat): nat { phoff + k * phentsize }

  lemma HeaderOfFile(words: seq<int>, addr: u32, entry: u32)
    requires 4 * |words| < 0x1_0000_0000
    ensures var f := FileOf(words, addr, entry);
            && |f| == 0x1000 + 4 * |words| && f[..4] == [0x7F, 0x45, 0x4C, 0x46] && f[4] == 1 && f[5] == 1 && f[6] == 1
            && U16At(f, 16) == 2 && U16At(f, 18) == 243 && U32At(f, 24) == entry && U32At(f, 28) == 52
            && U16At(f, 42) == 32 && U16At(f, 44) == 1
  {
    hide Header, FileOf, TextOf, ProgramHeader, U16At, U32At;
    var f := FileOf(words, addr, entry);
    FileLayout(words, addr, entry);
    HeaderFields(entry);
    FromTheStart(f, 52);
    Shifted(f, 0, 52, 16); Shifted(f, 0, 52, 18); Shifted(f, 0, 52, 24);
    Shifted(f, 0, 52, 28); Shifted(f, 0, 52, 42); Shifted(f, 0, 52, 44);
  }

  lemma EntryOfFile(words: seq<int>, addr: u32, entry: u32)
    requires 4 * |words| < 0x1_0000_0000
    ensures var f := FileOf(words, addr, entry);
            |f| >= 84 && EntryAt(f, 52) == Entry(1, 0x1000, addr, addr, 4 * |words|, 4 * |words|)
  {
    hide Header, FileOf, TextOf, ProgramHeader, U32At;
    var f := FileOf(words, addr, entry);
    FileLayout(words, addr, entry);
    ProgramFields(addr, 4 * |words|);
    Shifted(f, 52, 84, 0); Shifted(f, 52, 84, 4); Shifted(f, 52, 84, 8);
    Shifted(f, 52, 84, 12); Shifted(f, 52, 84, 16); Shifted(f, 52, 84, 20);
  }

  /** The loadable segments among the first n program headers, or the first fault. */
  function Segments(b: seq<u8>, n: nat): Loaded
    requires |b| >= 52
  {
    if n == 0 then Image(U32At(b, 24), [])
    else
      var before := Segments(b, n - 1);
      var o := Start(U32At(b, 28), U16At(b, 42), n - 1);
      if before.Refused? then before
      else if o + 32 > |b| then Refused(HeaderOutside)
      else
        var e := EntryAt(b, o);
        if e.kind != 1 then before
        else if e.offset + e.filesz > |b| then Refused(SegmentOutside)
        else before.(segments := before.segments + [Segment(e.vaddr, b[e.offset..e.offset + e.filesz], e.memsz)])
  }

  function Parsed(b: seq<u8>): Loaded {
    if |b| < 52 || b[..4] != [0x7F, 0x45, 0x4C, 0x46] then Refused(NotElf)
    else if b[4] != 1 || b[5] != 1 then Refused(NotSupported)
    else if U16At(b, 18) != 243 then Refused(BadMachine)
    else
      var r := Segments(b, U16At(b, 44));
      if r.Image? && r.segments == [] then Refused(NoSegments) else r
  }

  lemma {:induction false} RefusedStays(b: seq<u8>, n: nat, m: nat)
    requires |b| >= 52 && n <= m && Segments(b, n).Refused?
    ensures Segments(b, m) == Segments(b, n)
    decreases m
  {
    if n < m {
      RefusedStays(b, n, m - 1);
    }
  }

  /** `load_elf`: each refusal is an exception of the source. */
  method LoadElf(b: seq<u8>) returns (r: Loaded)
    ensures r == Parsed(b)
  {
    hide U32At, U16At, EntryAt, Start;
    if |b| < 52 || b[..4] != [0x7F, 0x45, 0x4C, 0x46] {
      return Refused(NotElf);
    }
    if b[4] != 1 || b[5] != 1 {
      return Refused(NotSupported);
    }
    var machine, entry, phoff := U16At(b, 18), U32At(b, 24), U32At(b, 28);
    var phentsize, phnum := U16At(b, 42), U16At(b, 44);
    if machine != 243 {
      return Refused(BadMachine);
    }
    var segments: seq<Segment> := [];
    var idx := 0;
    while idx < phnum
      invariant 0 <= idx <= phnum
      invariant Segments(b, idx) == Image(entry, segments)
    {
      var off := Start(phoff, phentsize, idx);
      idx := idx + 1;
      if off + 32 > |b| {
        RefusedStays(b, idx, phnum);
        return Refused(HeaderOutside);
      }
      var e := EntryAt(b, off);
      if e.kind == 1 {
        if e.offset + e.filesz > |b| {
          RefusedStays(b, idx, phnum);
          return Refused(SegmentOutside);
        }
        segments := segments + [Segment(e.vaddr, b[e.offset..e.offset + e.filesz], e.memsz)];
      }
    }
    if segments == [] {
      return Refused(NoSegments);
    }
    r := Image(entry, segments);
  }

  lemma FirstSegment(b: seq<u8>, e: Entry, data: seq<u8>)
    requires |b| >= 84 && U32At(b, 28) == 52 && e == EntryAt(b, 52) && e.kind == 1
    requires e.offset + e.filesz <= |b| && data == b[e.offset..e.offset + e.filesz]
    ensures Segments(b, 1) == Image(U32At(b, 24), [Segment(e.vaddr, data, e.memsz)])
  {
    hide U32At, U16At, EntryAt;
    assert Start(52, U16At(b, 42), 0) == 52;
    assert Segments(b, 0) == Image(U32At(b, 24), []);
    assert [] + [Segment(e.vaddr, data, e.memsz)] == [Segment(e.vaddr, data, e.memsz)];
  }

  lemma ToTheEnd(b: seq<u8>, o: nat, n: nat)
    requires |b| == o + n
    ensures b[o..o + n] == b[o..]
  {
  }

  lemma TextOfFile(words: seq<int>, addr: u32, entry: u32)
    requires 4 * |words| < 0x1_0000_0000
    ensures var f := FileOf(words, addr, entry);
            |f| == 0x1000 + 4 * |words| && f[0x1000..0x1000 + 4 * |words|] == TextOf(words)
  {
    hide FileOf, TextOf, Header, ProgramHeader;
    FileLayout(words, addr, entry);
    ToTheEnd(FileOf(words, addr, entry), 0x1000, 4 * |words|);
  }

  lemma EntryPoint(words: seq<int>, addr: u32, entry: u32)
    requires 4 * |words| < 0x1_0000_0000
    ensures var f := FileOf(words, addr, entry);
            |f| >= 84 && U32At(f, 24) == entry && U32At(f, 28) == 52
  {
    hide FileOf, U32At;
    HeaderOfFile(words, addr, entry);
  }

  lemma SegmentsOfFile(words: seq<int>, addr: u32, entry: u32)
    requires 4 * |words| < 0x1_0000_0000
    ensures Segments(FileOf(words, addr, entry), 1) == Image(entry, [Segment(addr, TextOf(words), 4 * |words|)])
  {
    hide FileOf, TextOf, U32At, U16At, EntryAt, Segments;
    EntryPoint(words, addr, entry);
    EntryOfFile(words, addr, entry);
    TextOfFile(words, addr, entry);
    FirstSegment(FileOf(words, addr, entry), Entry(1, 0x1000, addr, addr, 4 * |words|, 4 * |words|), TextOf(words));
  }

  /** The simulator's loader reads back what the packer wrote, for every program and
      every address. */
  lemma SimulatorAccepts(words: seq<int>, addr: u32, entry: u32)
    requires 4 * |words| < 0x1_0000_0000
    ensures Parsed(FileOf(words, addr, entry)) == Image(entry, [Segment(addr, TextOf(words), 4 * |words|)])
  {
    hide FileOf, TextOf, Header, ProgramHeader, U32At, U16At, EntryAt, Segments;
    HeaderOfFile(words, addr, entry);
    SegmentsOfFile(words, addr, entry);
  }

  lemma WindowWord(n: Flat, addr: u32, t: seq<u8>, o: nat)
    requires o + 4 <= |t| && addr + |t| <= 0x1_0000_0000
    requires forall b: u32 :: addr <= b < addr + |t| ==> n[b] == t[b - addr]
    ensures WordAt(n, addr + o) == Le32(t[o], t[o + 1], t[o + 2], t[o + 3])
  {
    hide Le32;
    WId(addr + o);
    WId(addr + o + 1);
    WId(addr + o + 2);
    WId(addr + o + 3);
    hide W;
  }

  /** Loading that segment puts every word in its place and changes nothing else. */
  lemma WordsInMemory(m: Flat, words: seq<int>, addr: u32)
    requires addr + 4 * |words| <= 0x1_0000_0000
    ensures var n := WithBytes(m, addr, TextOf(words));
            && (forall i :: 0 <= i < |words| ==> WordAt(n, addr + 4 * i) == W(words[i]))
            && (forall a: u32 :: a < addr || addr + 4 * |words| <= a ==> n[a] == m[a])
  {
    hide WithBytes, TextOf;
    var t := TextOf(words);
    var n := WithBytes(m, addr, t);
    WithBytesWindow(m, addr, t);
    forall i | 0 <= i < |words| ensures WordAt(n, addr + 4 * i) == W(words[i]) {
      TextWord(words, i);
      WindowWord(n, addr, t, 4 * i);
    }
  }

  // ---------------------------------------------------------------- the launcher's loader

  const IMEM_BASE := 0x43C2_3000

  function Peek(m: Flat, a: int): u8 { m[W(a)] }

  function Peek16(m: Flat, a: int): u16 { Le16(Peek(m, a), Peek(m, a + 1)) }

  function Peek32(m: Flat, a: int): u32 { Le32(Peek(m, a), Peek(m, a + 1), Peek(m, a + 2), Peek(m, a + 3)) }

  function PeekEntry(m: Flat, a: int): Entry {
    Entry(Peek32(m, a), Peek32(m, a + 4), Peek32(m, a + 8), Peek32(m, a + 12), Peek32(m, a + 16), Peek32(m, a + 20))
  }

  /** The window's words after the first k words of a segment: the file's, then zeroes. */
  function Copied(m: Flat, elf: u32, e: Entry, imem: map<u32, u32>, k: nat): map<u32, u32> {
    if k == 0 then imem
    else
      var off := 4 * (k - 1);
      Copied(m, elf, e, imem, k - 1)[W(IMEM_BASE + e.paddr + off) := if off < e.filesz then Peek32(m, elf + W(e.offset + off)) else 0]
  }

  /** Why a loadable program header is refused: the launcher's code, or 0. */
  function Objection(e: Entry, size: u32): int {
    if e.offset % 4 != 0 || e.paddr % 4 != 0 || e.filesz % 4 != 0 || e.memsz % 4 != 0 then -9
    else if W(e.offset + e.filesz) > size then -10
    else if e.memsz < e.filesz then -11
    else 0
  }

  datatype Progress = Progress(code: int, imem: map<u32, u32>, words: u32)

  /** The window and the word count after n program headers, or the code of the first
      objection, with what was written before it. */
  function Installed(m: Flat, elf: u32, size: u32, imem: map<u32, u32>, n: nat): Progress {
    if n == 0 then Progress(0, imem, 0)
    else
      var s := Installed(m, elf, size, imem, n - 1);
      var e := PeekEntry(m, elf + 52 + 32 * (n - 1));
      if s.code != 0 || e.kind != 1 then s
      else if Objection(e, size) != 0 then s.(code := Objection(e, size))
      else Progress(0, Copied(m, elf, e, s.imem, e.memsz / 4), W(s.words + e.memsz / 4))
  }

  lemma {:induction false} ObjectionStays(m: Flat, elf: u32, size: u32, imem: map<u32, u32>, n: nat, k: nat)
    requires n <= k && Installed(m, elf, size, imem, n).code != 0
    ensures Installed(m, elf, size, imem, k) == Installed(m, elf, size, imem, n)
    decreases k
  {
    hide Objection, PeekEntry, Copied;
    if n < k {
      ObjectionStays(m, elf, size, imem, n, k - 1);
    }
  }

  /** The checks on the file header, in the launcher's order. */
  function HeaderCode(m: Flat, elf: u32, size: u32): int {
    if size < 52 then -1
    else if Peek(m, elf) != 0x7F || Peek(m, elf + 1) != 0x45 || Peek(m, elf + 2) != 0x4C || Peek(m, elf + 3) != 0x46 then -2
    else if Peek(m, elf + 4) != 1 || Peek(m, elf + 5) != 1 || Peek(m, elf + 6) != 1 then -3
    else if Peek16(m, elf + 16) != 2 then -4
    else if Peek16(m, elf + 18) != 243 then -5
    else if Peek32(m, elf + 28) != 52 then -6
    else if Peek16(m, elf + 42) != 32 then -7
    else if 52 + Peek16(m, elf + 44) * 32 > size then -8
    else 0
  }

  function Launched(m: Flat, elf: u32, size: u32, imem: map<u32, u32>): Progress {
    if HeaderCode(m, elf, size) != 0 then Progress(HeaderCode(m, elf, size), imem, 0)
    else Installed(m, elf, size, imem, Peek16(m, elf + 44))
  }

  /** The launcher: what it last wrote to each word of the window, and its two outputs. */
  class Launcher {
    var imem: map<u32, u32>
    var loadedWords: u32
    var entry: u32

    method CopySegment(m: Flat, elf: u32, e: Entry)
      requires e.memsz % 4 == 0
      modifies this`imem
      ensures imem == Copied(m, elf, e, old(imem), e.memsz / 4)
    {
      hide Peek32, W;
      var off := 0;
      ghost var k := 0;
      while off < e.memsz
        invariant off == 4 * k && 0 <= k <= e.memsz / 4
        invariant imem == Copied(m, elf, e, old(imem), k)
      {
        var word: u32 := 0;
        if off < e.filesz {
          word := Peek32(m, elf + W(e.offset + off));
        }
        imem := imem[W(IMEM_BASE + e.paddr + off) := word];
        off := off + 4;
        k := k + 1;
      }
    }

    /** `load_zx32_elf_into_imem`: the outputs change only when the code is 0. */
    method LoadIntoImem(m: Flat, elf: u32, size: u32) returns (code: int)
      modifies this
      ensures code == Launched(m, elf, size, old(imem)).code && imem == Launched(m, elf, size, old(imem)).imem
      ensures loadedWords == if code == 0 then Launched(m, elf, size, old(imem)).words else old(loadedWords)
      ensures entry == if code == 0 then Peek32(m, elf + 24) else old(entry)
    {
      hide Peek, Peek16, Peek32, Objection, Copied;
      code := CheckHeader(m, elf, size);
      if code != 0 {
        return;
      }
      var phnum: int := Peek16(m, elf + 44);
      var count: u32 := 0;
      var i := 0;
      while i < phnum
        invariant 0 <= i <= phnum && loadedWords == old(loadedWords) && entry == old(entry)
        invariant Installed(m, elf, size, old(imem), i) == Progress(0, imem, count)
      {
        var e := PeekEntry(m, elf + 52 + 32 * i);
        i := i + 1;
        if e.kind == 1 {
          code := Objection(e, size);
          if code != 0 {
            ObjectionStays(m, elf, size, old(imem), i, phnum);
            return;
          }
          WholeWords(e, size);
          CopySegment(m, elf, e);
          count := W(count + e.memsz / 4);
        }
      }
      loadedWords := count;
      entry := Peek32(m, elf + 24);
      code := 0;
    }

    method CheckHeader(m: Flat, elf: u32, size: u32) returns (code: int)
      ensures code == HeaderCode(m, elf, size)
    {
      hide Peek, Peek16, Peek32;
      if size < 52 {
        return -1;
      }
      if Peek(m, elf) != 0x7F || Peek(m, elf + 1) != 0x45 || Peek(m, elf + 2) != 0x4C || Peek(m, elf + 3) != 0x46 {
        return -2;
      }
      if Peek(m, elf + 4) != 1 || Peek(m, elf + 5) != 1 || Peek(m, elf + 6) != 1 {
        return -3;
      }
      if Peek16(m, elf + 16) != 2 {
        return -4;
      }
      if Peek16(m, elf + 18) != 243 {
        return -5;
      }
      if Peek32(m, elf + 28) != 52 {
        return -6;
      }
      var phentsize: int, phnum: int := Peek16(m, elf + 42), Peek16(m, elf + 44);
      if phentsize != 32 {
        return -7;
      }
      if W(52 + phnum * phentsize) > size {
        return -8;
      }
      code := 0;
    }
  }

  lemma WholeWords(e: Entry, size: u32)
    requires Objection(e, size) == 0
    ensures e.memsz % 4 == 0
  {
  }

  /** The launcher holds the file f at the address elf. */
  ghost predicate InMemory(m: Flat, elf: u32, f: seq<u8>) {
    forall k :: 0 <= k < |f| ==> Peek(m, elf + k) == f[k]
  }

  lemma PeekFile(m: Flat, elf: u32, f: seq<u8>, o: nat)
    requires InMemory(m, elf, f) && o + 4 <= |f|
    ensures Peek32(m, elf + o) == U32At(f, o) && Peek16(m, elf + o) == U16At(f, o)
  {
    hide Peek;
    assert Peek(m, elf + o) == f[o] && Peek(m, elf + (o + 1)) == f[o + 1];
    assert Peek(m, elf + (o + 2)) == f[o + 2] && Peek(m, elf + (o + 3)) == f[o + 3];
  }

  /** The bus address of word i of a segment. */
  function Slot(paddr: int, i: int): u32 { W(IMEM_BASE + paddr + 4 * i) }

  lemma SlotsApart(paddr: u32, i: int, j: int)
    requires 0 <= i < j < 0x4000_0000
    ensures Slot(paddr, i) != Slot(paddr, j)
  {
    WordsAgree(IMEM_BASE + paddr + 4 * i, IMEM_BASE + paddr + 4 * j);
  }

  /** The first k words of a segment land in k different words of the window, and the
      rest of the window stays. */
  lemma {:induction false} CopiedWords(m: Flat, elf: u32, e: Entry, imem: map<u32, u32>, k: nat)
    requires k <= 0x4000_0000
    ensures var n := Copied(m, elf, e, imem, k);
            && (forall i :: 0 <= i < k ==> Slot(e.paddr, i) in n)
            && (forall i :: 0 <= i < k ==>
                  n[Slot(e.paddr, i)] == if 4 * i < e.filesz then Peek32(m, elf + W(e.offset + 4 * i)) else 0)
            && (forall a :: (forall i :: 0 <= i < k ==> a != Slot(e.paddr, i)) ==>
                   (a in n <==> a in imem) && (a in n ==> n[a] == imem[a]))
  {
    hide Peek32, W;
    if k > 0 {
      CopiedWords(m, elf, e, imem, k - 1);
      var last := Slot(e.paddr, k - 1);
      assert last == W(IMEM_BASE + e.paddr + 4 * (k - 1));
      forall i | 0 <= i < k - 1 ensures Slot(e.paddr, i) != last {
        SlotsApart(e.paddr, i, k - 1);
      }
      hide Slot;
    }
  }

  lemma HeaderPasses(m: Flat, elf: u32, words: seq<int>, addr: u32, entry: u32)
    requires 0x1000 + 4 * |words| < 0x1_0000_0000 && InMemory(m, elf, FileOf(words, addr, entry))
    ensures HeaderCode(m, elf, 0x1000 + 4 * |words|) == 0 && Peek16(m, elf + 44) == 1 && Peek32(m, elf + 24) == entry
    ensures PeekEntry(m, elf + 52) == Entry(1, 0x1000, addr, addr, 4 * |words|, 4 * |words|)
  {
    hide FileOf, Peek, Peek16, Peek32, U16At, U32At;
    var f := FileOf(words, addr, entry);
    HeaderOfFile(words, addr, entry);
    EntryOfFile(words, addr, entry);
    assert f[..4][0] == f[0] && f[..4][1] == f[1] && f[..4][2] == f[2] && f[..4][3] == f[3];
    PeekFile(m, elf, f, 16); PeekFile(m, elf, f, 18); PeekFile(m, elf, f, 24); PeekFile(m, elf, f, 28);
    PeekFile(m, elf, f, 42); PeekFile(m, elf, f, 44);
    PeekFile(m, elf, f, 52); PeekFile(m, elf, f, 56); PeekFile(m, elf, f, 60); PeekFile(m, elf, f, 64);
    PeekFile(m, elf, f, 68); PeekFile(m, elf, f, 72);
    assert Peek(m, elf + 0) == f[0];
  }

  /** Word i of the text, read where the launcher reads it. */
  lemma FileWord(m: Flat, elf: u32, words: seq<int>, addr: u32, entry: u32, i: nat)
    requires 0x1000 + 4 * |words| < 0x1_0000_0000 && InMemory(m, elf, FileOf(words, addr, entry)) && i < |words|
    ensures Peek32(m, elf + W(0x1000 + 4 * i)) == W(words[i])
  {
    hide FileOf, TextOf, Peek, Peek32, U32At;
    var f := FileOf(words, addr, entry);
    TextOfFile(words, addr, entry);
    PeekFile(m, elf, f, 0x1000 + 4 * i);
    Shifted(f, 0x1000, 0x1000 + 4 * |words|, 4 * i);
    TextWord(words, i);
    WId(0x1000 + 4 * i);
  }

  /** The launcher accepts a packed file if and only if its load address is a multiple of
      four: the words then stand in order from that address on in the window, and nothing
      else in it has changed.  Otherwise nothing is written. */
  lemma LauncherAccepts(m: Flat, elf: u32, words: seq<int>, addr: u32, entry: u32, imem: map<u32, u32>)
    requires 0x1000 + 4 * |words| < 0x1_0000_0000 && InMemory(m, elf, FileOf(words, addr, entry))
    ensures var r := Launched(m, elf, 0x1000 + 4 * |words|, imem);
            && (r.code == 0 <==> addr % 4 == 0)
            && (r.code != 0 ==> r.code == -9 && r.imem == imem)
            && (r.code == 0 ==>
                  && r.words == |words| && Peek32(m, elf + 24) == entry
                  && (forall i :: 0 <= i < |words| ==> Slot(addr, i) in r.imem && r.imem[Slot(addr, i)] == W(words[i]))
                  && (forall a :: (forall i :: 0 <= i < |words| ==> a != Slot(addr, i)) ==>
                         (a in r.imem <==> a in imem) && (a in r.imem ==> r.imem[a] == imem[a])))
  {
    hide FileOf, Peek32, Peek16, PeekEntry, Copied, HeaderCode, InMemory, Slot;
    var size := 0x1000 + 4 * |words|;
    var e := Entry(1, 0x1000, addr, addr, 4 * |words|, 4 * |words|);
    HeaderPasses(m, elf, words, addr, entry);
    assert Installed(m, elf, size, imem, 0) == Progress(0, imem, 0);
    assert Installed(m, elf, size, imem, 1) ==
             if addr % 4 != 0 then Progress(-9, imem, 0) else Progress(0, Copied(m, elf, e, imem, |words|), |words|);
    if addr % 4 == 0 {
      CopiedWords(m, elf, e, imem, |words|);
      forall i | 0 <= i < |words| ensures Peek32(m, elf + W(0x1000 + 4 * i)) == W(words[i]) {
        FileWord(m, elf, words, addr, entry, i);
      }
    }
  }

  /** From one file the two loaders place the same words at the same offsets. */
  lemma LoadersAgree(
      m: Flat, elf: u32, words: seq<int>, addr: u32, entry: u32, imem: map<u32, u32>, ram: Flat, i: nat)
    requires 0x1000 + 4 * |words| < 0x1_0000_0000 && InMemory(m, elf, FileOf(words, addr, entry))
    requires addr % 4 == 0 && addr + 4 * |words| <= 0x1_0000_0000 && i < |words|
    ensures var r, image := Launched(m, elf, 0x1000 + 4 * |words|, imem), Parsed(FileOf(words, addr, entry));
            && r.code == 0 && image.Image? && |image.segments| == 1 && image.entry == Peek32(m, elf + 24)
            && Slot(addr, i) in r.imem
            && r.imem[Slot(addr, i)] == WordAt(WithBytes(ram, image.segments[0].addr, image.segments[0].data), addr + 4 * i)
  {
    hide FileOf, Peek32, Launched, Parsed, InMemory, Slot, WordAt, WithBytes, TextOf, Fits;
    LauncherAccepts(m, elf, words, addr, entry, imem);
    SimulatorAccepts(words, addr, entry);
    WordsInMemory(ram, words, addr);
  }
}
