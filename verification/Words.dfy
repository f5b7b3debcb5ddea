/** Fixed-width machine words as ranges of integers.  A mask or a shift of the
    source is written as `%` or `/` by a literal power of two; an `or` of values
    whose bits do not overlap is written as a sum. */
module Words {

  type u8 = x: int | 0 <= x < 0x100
  type u16 = x: int | 0 <= x < 0x1_0000
  type u32 = x: int | 0 <= x < 0x1_0000_0000
  type u64 = x: int | 0 <= x < 0x1_0000_0000_0000_0000

  datatype Option<T> = None | Some(value: T)

  /** x & 0xFFFFFFFF, for any integer */
  function W(x: int): u32 { x % 0x1_0000_0000 }

  lemma WId(x: u32)
    ensures W(x) == x
  {
  }

  lemma WAdd(x: int, y: int)
    ensures W(W(x) + y) == W(x + y)
  {
    assert W(x) == x - 0x1_0000_0000 * (x / 0x1_0000_0000);
  }

  function H(x: int): u16 { x % 0x1_0000 }

  /** Whether the bit of weight w (a power of two) is set. */
  predicate Bit(x: int, w: int)
    requires w > 0
  {
    (x / w) % 2 == 1
  }

  /** x with the bit of weight w forced to b. */
  function With(x: int, w: int, b: bool): int
    requires w > 0
  {
    x - ((x / w) % 2) * w + (if b then w else 0)
  }

  /** The two's-complement reading of a 32-bit word. */
  function Signed(x: int): int {
    if W(x) < 0x8000_0000 then W(x) else W(x) - 0x1_0000_0000
  }

  /** It is the one value of the signed range that is congruent to the word. */
  lemma SignedMeaning(x: int)
    ensures -0x8000_0000 <= Signed(x) < 0x8000_0000 && (Signed(x) - x) % 0x1_0000_0000 == 0
  {
    var q := x / 0x1_0000_0000;
    assert x == 0x1_0000_0000 * q + W(x);
  }

  function Min(a: int, b: int): int { if a < b then a else b }

  function Max(a: int, b: int): int { if a < b then b else a }

  function Le16(b0: u8, b1: u8): u16 { b0 + 0x100 * b1 }

  function Le32(b0: u8, b1: u8, b2: u8, b3: u8): u32 {
    b0 + 0x100 * b1 + 0x1_0000 * b2 + 0x100_0000 * b3
  }

  function Byte(v: int, i: nat): u8
    requires i < 4
  {
    if i == 0 then v % 0x100
    else if i == 1 then v / 0x100 % 0x100
    else if i == 2 then v / 0x1_0000 % 0x100
    else v / 0x100_0000 % 0x100
  }

  lemma Le32OfBytes(v: int)
    ensures Le32(Byte(v, 0), Byte(v, 1), Byte(v, 2), Byte(v, 3)) == W(v)
  {
    ByteStep(v, 0x100);
    ByteStep(v, 0x1_0000);
    ByteStep(v, 0x100_0000);
    var q := v / 0x1_0000_0000;
    assert v == v / 0x100 * 0x100 + v % 0x100;
    assert v == 0x1_0000_0000 * q + Le32(Byte(v, 0), Byte(v, 1), Byte(v, 2), Byte(v, 3));
  }

  /** Dividing by 256 more drops one byte. */
  lemma ByteStep(v: int, n: int)
    requires n in {0x100, 0x1_0000, 0x100_0000}
    ensures v / n == v / (n * 0x100) * 0x100 + v / n % 0x100
  {
    if n == 0x100 {
      assert v / 0x100 / 0x100 == v / 0x1_0000;
    } else if n == 0x1_0000 {
      assert v / 0x1_0000 / 0x100 == v / 0x100_0000;
    } else {
      assert v / 0x100_0000 / 0x100 == v / 0x1_0000_0000;
    }
  }

  lemma BytesOfLe32(b0: u8, b1: u8, b2: u8, b3: u8)
    ensures var v := Le32(b0, b1, b2, b3);
            Byte(v, 0) == b0 && Byte(v, 1) == b1 && Byte(v, 2) == b2 && Byte(v, 3) == b3
  {
    var v := Le32(b0, b1, b2, b3);
    assert v == b0 + 0x100 * (b1 + 0x100 * b2 + 0x1_0000 * b3);
    assert v / 0x100 == b1 + 0x100 * (b2 + 0x100 * b3);
    assert v / 0x1_0000 == b2 + 0x100 * b3;
  }

  /** 256^i */
  function Weight(i: nat): int
    requires i < 4
  {
    if i == 0 then 1 else if i == 1 then 0x100 else if i == 2 then 0x1_0000 else 0x100_0000
  }

  /** word & ~(0xff << 8*i) | v << 8*i */
  function Patch(word: u32, i: nat, v: u8): int
    requires i < 4
  {
    word - Byte(word, i) * Weight(i) + v * Weight(i)
  }

  lemma PatchedWord(b0: u8, b1: u8, b2: u8, b3: u8, i: nat, v: u8)
    requires i < 4
    ensures Patch(Le32(b0, b1, b2, b3), i, v) ==
              Le32(if i == 0 then v else b0, if i == 1 then v else b1, if i == 2 then v else b2, if i == 3 then v else b3)
  {
    hide Byte;
    BytesOfLe32(b0, b1, b2, b3);
  }

  /** Patching replaces one byte and keeps the other three. */
  lemma PatchedBytes(word: u32, i: nat, v: u8)
    requires i < 4
    ensures W(Patch(word, i, v)) == Patch(word, i, v)
    ensures forall j :: 0 <= j < 4 ==> Byte(Patch(word, i, v), j) == if j == i then v else Byte(word, j)
  {
    hide Byte, Le32, Patch, W;
    var b0, b1, b2, b3 := Byte(word, 0), Byte(word, 1), Byte(word, 2), Byte(word, 3);
    Le32OfBytes(word);
    WId(word);
    PatchedWord(b0, b1, b2, b3, i, v);
    var c0, c1, c2, c3 := if i == 0 then v else b0, if i == 1 then v else b1, if i == 2 then v else b2, if i == 3 then v else b3;
    BytesOfLe32(c0, c1, c2, c3);
    WId(Le32(c0, c1, c2, c3));
  }
}
