/** The reference model of memory: one byte for each of the 2^32 addresses. */
module FlatMemory {
  import opened Words

  type Flat = m: seq<u8> | |m| == 0x1_0000_0000
    ghost witness Zeroes()

  ghost function Zeroes(): (m: seq<u8>)
    ensures |m| == 0x1_0000_0000 && forall a :: 0 <= a < |m| ==> m[a] == 0
  {
    seq(0x1_0000_0000, _ => 0 as u8)
  }

  /** The address i bytes after a. */
  ghost function At(a: int, i: int): u32 { W(a + i) }

  ghost function ByteAt(m: Flat, a: int): u8 { m[W(a)] }

  ghost function HalfAt(m: Flat, a: int): u16 { Le16(ByteAt(m, a), ByteAt(m, a + 1)) }

  ghost function WordAt(m: Flat, a: int): u32 {
    Le32(ByteAt(m, a), ByteAt(m, a + 1), ByteAt(m, a + 2), ByteAt(m, a + 3))
  }

  ghost function WithByte(m: Flat, a: int, v: int): Flat { m[W(a) := v % 0x100] }

  ghost function WithHalf(m: Flat, a: int, v: int): Flat {
    WithByte(WithByte(m, a, v), a + 1, v / 0x100)
  }

  ghost function WithWord(m: Flat, a: int, v: int): Flat {
    WithByte(WithByte(WithByte(WithByte(m, a, v), a + 1, v / 0x100), a + 2, v / 0x1_0000), a + 3, v / 0x100_0000)
  }

  /** The bytes at a, a+1, ..., one address at a time, wrapping at 2^32. */
  ghost function BytesAt(m: Flat, a: int, n: nat): (r: seq<u8>)
    ensures |r| == n
    ensures forall i :: 0 <= i < n ==> r[i] == ByteAt(m, a + i)
  {
    seq<u8>(n, i requires 0 <= i < n => ByteAt(m, a + i))
  }

  /** Stores data at a, a+1, ..., one byte after the other, wrapping at 2^32:
      where data is longer than memory, the later byte wins. */
  ghost function WithBytes(m: Flat, a: int, data: seq<u8>): Flat {
    if data == [] then m
    else WithByte(WithBytes(m, a, data[..|data| - 1]), a + |data| - 1, data[|data| - 1])
  }

  /** Storing a word and reading it back, at any alignment and across the wrap. */
  lemma WordOfWithWord(m: Flat, a: int, v: int)
    ensures WordAt(WithWord(m, a, v), a) == W(v)
  {
    Le32OfBytes(v);
    Distinct4(a);
  }

  lemma Distinct4(a: int)
    ensures W(a) != W(a + 1) && W(a) != W(a + 2) && W(a) != W(a + 3)
    ensures W(a + 1) != W(a + 2) && W(a + 1) != W(a + 3) && W(a + 2) != W(a + 3)
  {
  }

  lemma AlignedBytes(a: int)
    requires a % 4 == 0
    ensures W(a) % 4 == 0
    ensures W(a + 1) == W(a) + 1 && W(a + 2) == W(a) + 2 && W(a + 3) == W(a) + 3
  {
    var q := a / 0x1_0000_0000;
    assert W(a) == a - 4 * (0x4000_0000 * q);
    hide W;
    var r: int := W(a);
    assert r <= 0xFFFF_FFFC;
    WOf(q, r + 1);
    WOf(q, r + 2);
    WOf(q, r + 3);
  }

  lemma WOf(q: int, r: int)
    requires 0 <= r < 0x1_0000_0000
    ensures W(0x1_0000_0000 * q + r) == r
  {
  }

  lemma WithWordBytes(m: Flat, a: int, v: int)
    ensures var n := WithWord(m, a, v);
            && n[W(a)] == Byte(v, 0) && n[W(a + 1)] == Byte(v, 1) && n[W(a + 2)] == Byte(v, 2) && n[W(a + 3)] == Byte(v, 3)
            && forall b: u32 :: b != W(a) && b != W(a + 1) && b != W(a + 2) && b != W(a + 3) ==> n[b] == m[b]
  {
    Distinct4(a);
  }

  /** An aligned word is one cell: a store to another aligned word leaves it alone. */
  lemma WordFrame(m: Flat, a: int, v: int, b: int)
    requires a % 4 == 0 && b % 4 == 0
    ensures WordAt(WithWord(m, a, v), b) == if W(a) == W(b) then W(v) else WordAt(m, b)
  {
    var n := WithWord(m, a, v);
    WithWordBytes(m, a, v);
    Le32OfBytes(v);
    AlignedBytes(a);
    AlignedBytes(b);
    assert WordAt(n, b) == Le32(n[W(b)], n[W(b) + 1], n[W(b) + 2], n[W(b) + 3]);
    assert W(a) != W(b) ==> W(b) + 3 < W(a) || W(a) + 3 < W(b);
  }

  /** Rewriting a word with the value it holds changes nothing. */
  lemma WithWordSame(m: Flat, a: int)
    ensures WithWord(m, a, WordAt(m, a)) == m
  {
    BytesOfLe32(ByteAt(m, a), ByteAt(m, a + 1), ByteAt(m, a + 2), ByteAt(m, a + 3));
    Distinct4(a);
  }

  lemma {:induction false} WithBytesAppend(m: Flat, a: int, d: seq<u8>, e: seq<u8>)
    ensures WithBytes(m, a, d + e) == WithBytes(WithBytes(m, a, d), a + |d|, e)
    decreases |e|
  {
    if e == [] {
      assert d + e == d;
    } else {
      var e' := e[..|e| - 1];
      assert (d + e)[..|d + e| - 1] == d + e';
      WithBytesAppend(m, a, d, e');
    }
  }

  /** A block that does not wrap is a window onto the data. */
  lemma {:induction false} WithBytesWindow(m: Flat, a: u32, d: seq<u8>)
    requires a + |d| <= 0x1_0000_0000
    ensures forall b: u32 :: WithBytes(m, a, d)[b] == if a <= b < a + |d| then d[b - a] else m[b]
    decreases |d|
  {
    if d != [] {
      var n := |d| - 1;
      WithBytesWindow(m, a, d[..n]);
      assert W(a + n) == a + n;
      hide W;
    }
  }

  lemma BytesAtAppend(m: Flat, a: int, i: nat, j: nat)
    ensures BytesAt(m, a, i) + BytesAt(m, a + i, j) == BytesAt(m, a, i + j)
  {
  }
}
