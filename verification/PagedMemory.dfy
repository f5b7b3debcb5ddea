/** The simulator's sparse memory: 4 KiB byte arrays, allocated when first
    written.  Every operation is proved to be the flat operation. */
module PagedMemory {
  import opened Words
  import opened FlatMemory

  lemma NoBytes(m: Flat, a: int)
    ensures WithBytes(m, a, []) == m
  {
  }

  lemma Window(a: int)
    ensures 0 <= W(a) % 0x1000 < 0x1000
  {
  }

  lemma SamePage(a: u32, i: nat)
    requires a % 0x1000 + i < 0x1000
    ensures (a + i) / 0x1000 == a / 0x1000 && (a + i) % 0x1000 == a % 0x1000 + i && W(a + i) == a + i
  {
  }

  lemma PageWindow(a: u32)
    ensures forall b: u32 :: b / 0x1000 == a / 0x1000 ==> b % 0x1000 == b - (a - a % 0x1000)
    ensures forall b: u32 :: b / 0x1000 == a / 0x1000 <==> a - a % 0x1000 <= b < a - a % 0x1000 + 0x1000
  {
  }

  /** A word that stays on its page is four neighbouring cells. */
  lemma WordOnPage(m: Flat, addr: int, v: int)
    requires W(addr) % 0x1000 + 3 < 0x1000
    ensures var a := W(addr);
            && WordAt(m, addr) == Le32(m[a], m[a + 1], m[a + 2], m[a + 3])
            && WithWord(m, addr, v) ==
               m[a := Byte(v, 0)][a + 1 := Byte(v, 1)][a + 2 := Byte(v, 2)][a + 3 := Byte(v, 3)]
  {
    var a := W(addr);
    SamePage(a, 1); SamePage(a, 2); SamePage(a, 3);
    WAdd(addr, 1); WAdd(addr, 2); WAdd(addr, 3);
  }

  lemma FourCells(m: Flat, n: Flat, a: u32, v: int)
    requires a + 3 < 0x1_0000_0000
    requires forall b: u32 :: n[b] == if a <= b < a + 4 then Byte(v, b - a) else m[b]
    ensures n == m[a := Byte(v, 0)][a + 1 := Byte(v, 1)][a + 2 := Byte(v, 2)][a + 3 := Byte(v, 3)]
  {
    hide Byte;
  }

  lemma HalfOnPage(m: Flat, addr: int, v: int)
    requires W(addr) % 0x1000 + 1 < 0x1000
    ensures var a := W(addr);
            && HalfAt(m, addr) == Le16(m[a], m[a + 1])
            && WithHalf(m, addr, v) == m[a := Byte(v, 0)][a + 1 := Byte(v, 1)]
  {
    SamePage(W(addr), 1);
    WAdd(addr, 1);
  }

  class Memory {
    var pages: map<int, array<u8>>

    ghost predicate Valid()
      reads this, pages.Values
    {
      && (forall p :: p in pages ==> 0 <= p < 0x10_0000 && pages[p].Length == 0x1000)
      && (forall p, q :: p in pages && q in pages && p != q ==> pages[p] != pages[q])
    }

    ghost function ByteOf(a: u32): u8
      requires Valid()
      reads this, pages.Values
    {
      if a / 0x1000 in pages then pages[a / 0x1000][a % 0x1000] else 0
    }

    /** What the pages mean: an address on no page reads as zero. */
    ghost function View(): Flat
      requires Valid()
      reads this, pages.Values
    {
      seq(0x1_0000_0000, a requires 0 <= a < 0x1_0000_0000 && Valid() reads this, pages.Values => ByteOf(a) as u8)
    }

    constructor ()
      ensures Valid() && fresh(pages.Values)
      ensures View() == Zeroes()
    {
      pages := map[];
    }

    /** The page of an address, allocated if absent: a fresh page reads as what
        it replaces. */
    method Touch(p: int) returns (page: array<u8>)
      requires Valid() && 0 <= p < 0x10_0000
      modifies this
      ensures Valid() && fresh(pages.Values - old(pages.Values))
      ensures p in pages && pages[p] == page
      ensures View() == old(View())
    {
      if p in pages {
        page := pages[p];
      } else {
        page := new u8[0x1000](_ => 0);
        var was := pages;
        pages := pages[p := page];
        assert pages.Values <= was.Values + {page};
        assert forall q :: q in was ==> was[q] in was.Values;
      }
    }

    method ReadU8(addr: int) returns (v: u8)
      requires Valid()
      ensures v == ByteAt(View(), addr)
    {
      var a := W(addr);
      if a / 0x1000 !in pages {
        return 0;
      }
      v := pages[a / 0x1000][a % 0x1000];
    }

    method ReadU16(addr: int) returns (v: u16)
      requires Valid()
      ensures v == HalfAt(View(), addr)
    {
      hide Valid, View, Le16, ByteAt;
      var a := W(addr);
      if a % 0x1000 <= 0x1000 - 2 {
        HalfOnPage(View(), addr, 0);
        v := ReadHalfOnPage(a);
        return;
      }
      var b0 := ReadU8(addr);
      var b1 := ReadU8(addr + 1);
      v := Le16(b0, b1);
    }

    /** The fast path of `read_u16`: two bytes of one page. */
    method ReadHalfOnPage(a: u32) returns (v: u16)
      requires Valid() && a % 0x1000 <= 0x1000 - 2
      ensures a + 1 < 0x1_0000_0000
      ensures v == Le16(View()[a], View()[a + 1])
    {
      SamePage(a, 1);
      if a / 0x1000 !in pages {
        return 0;
      }
      var page, off := pages[a / 0x1000], a % 0x1000;
      v := Le16(page[off], page[off + 1]);
    }

    method ReadU32(addr: int) returns (v: u32)
      requires Valid()
      ensures v == WordAt(View(), addr)
    {
      hide Valid, View, Le32, ByteAt;
      var a := W(addr);
      if a % 0x1000 <= 0x1000 - 4 {
        WordOnPage(View(), addr, 0);
        v := ReadOnPage(a);
        return;
      }
      var b0 := ReadU8(addr);
      var b1 := ReadU8(addr + 1);
      var b2 := ReadU8(addr + 2);
      var b3 := ReadU8(addr + 3);
      v := Le32(b0, b1, b2, b3);
    }

    /** The fast path of `read_u32`: four bytes of one page. */
    method ReadOnPage(a: u32) returns (v: u32)
      requires Valid() && a % 0x1000 <= 0x1000 - 4
      ensures a + 3 < 0x1_0000_0000
      ensures v == Le32(View()[a], View()[a + 1], View()[a + 2], View()[a + 3])
    {
      SamePage(a, 1); SamePage(a, 2); SamePage(a, 3);
      if a / 0x1000 !in pages {
        return 0;
      }
      var page, off := pages[a / 0x1000], a % 0x1000;
      v := Le32(page[off], page[off + 1], page[off + 2], page[off + 3]);
    }

    method WriteU8(addr: int, value: int)
      requires Valid()
      modifies this, pages.Values
      ensures Valid() && fresh(pages.Values - old(pages.Values))
      ensures View() == WithByte(old(View()), addr, value)
    {
      var a := W(addr);
      var page := Touch(a / 0x1000);
      page[a % 0x1000] := value % 0x100;
      assert forall b: u32 :: b != a ==> b / 0x1000 != a / 0x1000 || b % 0x1000 != a % 0x1000;
    }

    method WriteU16(addr: int, value: int)
      requires Valid()
      modifies this, pages.Values
      ensures Valid() && fresh(pages.Values - old(pages.Values))
      ensures View() == WithHalf(old(View()), addr, value)
    {
      hide Valid, View, WithByte;
      var a := W(addr);
      if a % 0x1000 <= 0x1000 - 2 {
        HalfOnPage(View(), addr, value);
        WriteHalfOnPage(a, value);
        return;
      }
      WriteU8(addr, value);
      WriteU8(addr + 1, value / 0x100);
    }

    /** The fast path of `write_u16`: two bytes of one page. */
    method WriteHalfOnPage(a: u32, value: int)
      requires Valid() && a % 0x1000 <= 0x1000 - 2
      modifies this, pages.Values
      ensures Valid() && fresh(pages.Values - old(pages.Values))
      ensures a + 1 < 0x1_0000_0000
      ensures View() == old(View())[a := Byte(value, 0)][a + 1 := Byte(value, 1)]
    {
      PageWindow(a);
      assert a + 1 < 0x1_0000_0000;
      var page := Touch(a / 0x1000);
      var off := a % 0x1000;
      ghost var was := View();
      page[off], page[off + 1] := Byte(value, 0), Byte(value, 1);
      hide Byte;
      forall b: u32
        ensures View()[b] == if a <= b < a + 2 then Byte(value, b - a) else was[b]
      {
        if b / 0x1000 == a / 0x1000 {
          assert b % 0x1000 == b - (a - off);
        }
      }
    }

    method WriteU32(addr: int, value: int)
      requires Valid()
      modifies this, pages.Values
      ensures Valid() && fresh(pages.Values - old(pages.Values))
      ensures View() == WithWord(old(View()), addr, value)
    {
      hide Valid, View, WithByte;
      var a := W(addr);
      if a % 0x1000 <= 0x1000 - 4 {
        WordOnPage(View(), addr, value);
        WriteOnPage(a, value);
        FourCells(old(View()), View(), a, value);
        return;
      }
      WriteU8(addr, value);
      WriteU8(addr + 1, value / 0x100);
      WriteU8(addr + 2, value / 0x1_0000);
      WriteU8(addr + 3, value / 0x100_0000);
    }

    /** The fast path of `write_u32`: four bytes of one page. */
    method WriteOnPage(a: u32, value: int)
      requires Valid() && a % 0x1000 <= 0x1000 - 4
      modifies this, pages.Values
      ensures Valid() && fresh(pages.Values - old(pages.Values))
      ensures a + 3 < 0x1_0000_0000
      ensures forall b: u32 :: View()[b] == if a <= b < a + 4 then Byte(value, b - a) else old(View()[b])
    {
      PageWindow(a);
      assert a + 3 < 0x1_0000_0000;
      var page := Touch(a / 0x1000);
      var off := a % 0x1000;
      ghost var was := View();
      page[off], page[off + 1], page[off + 2], page[off + 3] :=
        Byte(value, 0), Byte(value, 1), Byte(value, 2), Byte(value, 3);
      hide Byte;
      forall b: u32
        ensures View()[b] == if a <= b < a + 4 then Byte(value, b - a) else was[b]
      {
        if b / 0x1000 == a / 0x1000 {
          assert b % 0x1000 == b - (a - off);
        }
      }
    }

    /** Copies one run of bytes into the page that holds it. */
    method LoadChunk(cur: u32, chunk: seq<u8>)
      requires Valid() && cur % 0x1000 + |chunk| <= 0x1000
      modifies this, pages.Values
      ensures Valid() && fresh(pages.Values - old(pages.Values))
      ensures View() == WithBytes(old(View()), cur, chunk)
    {
      hide WithBytes;
      var page := Touch(cur / 0x1000);
      var off := cur % 0x1000;
      forall i | 0 <= i < |chunk| {
        page[off + i] := chunk[i];
      }
      WithBytesWindow(old(View()), cur, chunk);
      assert forall b: u32 :: b / 0x1000 == cur / 0x1000 ==> b - cur == b % 0x1000 - off;
      assert forall b: u32 :: cur <= b < cur + |chunk| ==> b / 0x1000 == cur / 0x1000;
    }

    /** `load`: a block of any length, page by page, wrapping at 2^32. */
    method Load(addr: int, data: seq<u8>)
      requires Valid()
      modifies this, pages.Values
      ensures Valid() && fresh(pages.Values - old(pages.Values))
      ensures View() == WithBytes(old(View()), addr, data)
    {
      hide W, Valid, View, WithBytes;
      var base, written := W(addr), 0;
      NoBytes(View(), addr);
      assert data[..0] == [];
      while written < |data|
        invariant 0 <= written <= |data|
        invariant Valid() && fresh(pages.Values - old(pages.Values))
        invariant View() == WithBytes(old(View()), addr, data[..written])
      {
        var cur := W(base + written);
        WAdd(addr, written);
        assert W(cur) == cur by { WId(cur); }
        var chunk := Min(|data| - written, 0x1000 - cur % 0x1000);
        Window(base + written);
        ghost var before := View();
        LoadChunk(cur, data[written..written + chunk]);
        assert data[..written + chunk] == data[..written] + data[written..written + chunk];
        WithBytesAppend(old(View()), addr, data[..written], data[written..written + chunk]);
        WithBytesMod(before, addr + written, cur, data[written..written + chunk]);
        written := written + chunk;
      }
      assert data[..written] == data;
    }

    /** `read_bytes`: a block of any length, page by page, wrapping at 2^32. */
    method ReadBytes(addr: int, size: nat) returns (out: seq<u8>)
      requires Valid()
      ensures out == BytesAt(View(), addr, size)
    {
      hide W, Valid, View, BytesAt;
      var base, read := W(addr), 0;
      out := [];
      assert out == BytesAt(View(), addr, 0);
      while read < size
        invariant 0 <= read <= size
        invariant out == BytesAt(View(), addr, read)
      {
        var cur := W(base + read);
        WAdd(addr, read);
        var chunk := Min(size - read, 0x1000 - cur % 0x1000);
        Window(base + read);
        assert W(cur) == W(addr + read) by { WId(cur); }
        var part := ReadChunk(cur, chunk);
        BytesAtMod(View(), addr + read, cur, chunk);
        BytesAtAppend(View(), addr, read, chunk);
        out := out + part;
        read := read + chunk;
      }
    }

    /** Copies one run of bytes out of the page that holds it. */
    method ReadChunk(cur: u32, chunk: nat) returns (part: seq<u8>)
      requires Valid() && cur % 0x1000 + chunk <= 0x1000
      ensures part == BytesAt(View(), cur, chunk)
    {
      var off := cur % 0x1000;
      part := seq(chunk, _ => 0);
      if cur / 0x1000 in pages {
        part := pages[cur / 0x1000][off..off + chunk];
      }
      forall i | 0 <= i < chunk ensures part[i] == ByteAt(View(), cur + i) {
        SamePage(cur, i);
      }
    }
  }

  lemma BytesAtMod(m: Flat, a: int, b: int, n: nat)
    requires W(a) == W(b)
    ensures BytesAt(m, a, n) == BytesAt(m, b, n)
  {
    var x, y := BytesAt(m, a, n), BytesAt(m, b, n);
    forall i | 0 <= i < n ensures x[i] == y[i] {
      WAdd(a, i);
      WAdd(b, i);
    }
  }

  lemma {:induction false} WithBytesMod(m: Flat, a: int, b: int, d: seq<u8>)
    requires W(a) == W(b)
    ensures WithBytes(m, a, d) == WithBytes(m, b, d)
    decreases |d|
  {
    if d != [] {
      WithBytesMod(m, a, b, d[..|d| - 1]);
      WAdd(a, |d| - 1);
      WAdd(b, |d| - 1);
    }
  }
}
