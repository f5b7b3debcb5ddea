/** Instruction fields and the arithmetic of the register instructions, as the
    simulator computes them. */
module Isa {
  import opened Words
  import opened Bits

  /** Sign extension of the low bits of v, where m is 1 << bits. */
  function Sext(v: int, m: int): int
    requires m > 1 && m % 2 == 0
  {
    var l := v % m;
    if l >= m / 2 then l - m else l
  }

  /** The result is the one value of the signed range congruent to v. */
  lemma SextMeaning(v: int, m: int)
    requires m > 1 && m % 2 == 0
    ensures var r := Sext(v, m);
            -(m / 2) <= r < m / 2 && (r - v) % m == 0
  {
    SextCongruent(v, m, v % m, Sext(v, m));
  }

  lemma SextCongruent(v: int, m: int, l: int, r: int)
    requires m > 1 && l == v % m && (r == l || r == l - m)
    ensures (r - v) % m == 0
  {
    var q := v / m;
    assert v == m * q + l;
    if r == l {
      assert r - v == m * (-q);
      Bits.DivUnique(r - v, m, -q, 0);
    } else {
      assert r - v == m * (-q - 1);
      Bits.DivUnique(r - v, m, -q - 1, 0);
    }
  }

  datatype Decoded = Decoded(
    opcode: int, rd: int, funct3: int, rs1: int, rs2: int, funct7: int,
    immI: int, immS: int, immB: int, immJ: int, immU: u32, csr: int, funct5: int)

  function DecodeOf(inst: u32): (d: Decoded)
    ensures 0 <= d.rd < 32 && 0 <= d.rs1 < 32 && 0 <= d.rs2 < 32 && 0 <= d.funct3 < 8
  {
    Decoded(
      inst % 0x80,
      inst / 0x80 % 0x20,
      inst / 0x1000 % 8,
      inst / 0x8000 % 0x20,
      inst / 0x10_0000 % 0x20,
      inst / 0x200_0000 % 0x80,
      Sext(inst / 0x10_0000, 0x1000),
      Sext(inst / 0x80 % 0x20 + inst / 0x200_0000 % 0x80 * 0x20, 0x1000),
      Sext(inst / 0x8000_0000 % 2 * 0x1000 + inst / 0x80 % 2 * 0x800
           + inst / 0x200_0000 % 0x40 * 0x20 + inst / 0x100 % 0x10 * 2, 0x2000),
      Sext(inst / 0x8000_0000 % 2 * 0x10_0000 + inst / 0x20_0000 % 0x400 * 2
           + inst / 0x10_0000 % 2 * 0x800 + inst / 0x1000 % 0x100 * 0x1000, 0x20_0000),
      inst / 0x1000 * 0x1000,
      inst / 0x10_0000 % 0x1000,
      inst / 0x800_0000 % 0x20)
  }

  /** The six fields of the R format make up the word. */
  lemma Fields(inst: u32)
    ensures var d := DecodeOf(inst);
            && inst == d.funct7 * 0x200_0000 + d.rs2 * 0x10_0000 + d.rs1 * 0x8000 + d.funct3 * 0x1000 + d.rd * 0x80 + d.opcode
            && 0 <= d.opcode < 0x80 && 0 <= d.funct7 < 0x80
            && d.csr == d.funct7 * 0x20 + d.rs2 && d.funct5 == d.funct7 / 4
  {
    hide Sext;
    var x1, x2, x3, x4, x5 := inst / 0x80, inst / 0x1000, inst / 0x8000, inst / 0x10_0000, inst / 0x200_0000;
    assert x2 == x1 / 0x20 && x3 == x2 / 8 && x4 == x3 / 0x20 && x5 == x4 / 0x20;
    assert inst / 0x800_0000 == x5 / 4;
    Small(x5, 0x80);
    Small(x4, 0x1000);
    Small(x5 / 4, 0x20);
  }

  lemma Small(x: int, n: int)
    requires 0 <= x < n
    ensures x % n == x
  {
  }

  lemma SextRaw(v: int, m: int)
    requires m > 1 && m % 2 == 0 && 0 <= v < m
    ensures Sext(v, m) % m == v && -(m / 2) <= Sext(v, m) < m / 2
  {
    if v < m / 2 {
      DivUnique(v, m, 0, v);
    } else {
      DivUnique(v, m, 0, v);
      DivUnique(v - m, m, -1, v);
    }
  }

  /** The immediates: their ranges, and where each of their slices stands in the word. */
  lemma Immediates(inst: u32)
    ensures var d := DecodeOf(inst);
            var i, s, b, j := d.immI % 0x1000, d.immS % 0x1000, d.immB % 0x2000, d.immJ % 0x20_0000;
            && -0x800 <= d.immI < 0x800 && i == inst / 0x10_0000
            && -0x800 <= d.immS < 0x800 && s / 0x20 == inst / 0x200_0000 && s % 0x20 == inst / 0x80 % 0x20
            && -0x1000 <= d.immB < 0x1000 && b / 0x1000 == inst / 0x8000_0000 && b / 0x800 % 2 == inst / 0x80 % 2
            && b / 0x20 % 0x40 == inst / 0x200_0000 % 0x40 && b / 2 % 0x10 == inst / 0x100 % 0x10 && b % 2 == 0
            && -0x10_0000 <= d.immJ < 0x10_0000 && j / 0x10_0000 == inst / 0x8000_0000
            && j / 0x1000 % 0x100 == inst / 0x1000 % 0x100 && j / 0x800 % 2 == inst / 0x10_0000 % 2
            && j / 2 % 0x400 == inst / 0x20_0000 % 0x400 && j % 2 == 0
            && d.immU / 0x1000 == inst / 0x1000 && d.immU % 0x1000 == 0
  {
    hide Sext;
    var top, mid, eleven, low := inst / 0x8000_0000 % 2, inst / 0x200_0000 % 0x40, inst / 0x80 % 2, inst / 0x100 % 0x10;
    var b := top * 0x1000 + eleven * 0x800 + mid * 0x20 + low * 2;
    var ten, bit, eight := inst / 0x20_0000 % 0x400, inst / 0x10_0000 % 2, inst / 0x1000 % 0x100;
    var j := top * 0x10_0000 + ten * 2 + bit * 0x800 + eight * 0x1000;
    Small(inst / 0x10_0000, 0x1000);
    Small(inst / 0x200_0000, 0x80);
    Small(inst / 0x8000_0000, 2);
    SextRaw(inst / 0x10_0000, 0x1000);
    StoreSlices(inst / 0x200_0000, inst / 0x80 % 0x20);
    BranchSlices(top, eleven, mid, low);
    JumpSlices(top, eight, bit, ten);
    SextRaw(inst / 0x80 % 0x20 + inst / 0x200_0000 % 0x80 * 0x20, 0x1000);
    SextRaw(b, 0x2000);
    SextRaw(j, 0x20_0000);
    DivUnique(inst / 0x1000 * 0x1000, 0x1000, inst / 0x1000, 0);
  }

  lemma StoreSlices(hi: int, lo: int)
    requires 0 <= hi < 0x80 && 0 <= lo < 0x20
    ensures var s := lo + hi * 0x20;
            0 <= s < 0x1000 && s / 0x20 == hi && s % 0x20 == lo
  {
    DivUnique(lo + hi * 0x20, 0x20, hi, lo);
  }

  lemma BranchSlices(top: int, eleven: int, mid: int, low: int)
    requires 0 <= top < 2 && 0 <= eleven < 2 && 0 <= mid < 0x40 && 0 <= low < 0x10
    ensures var b := top * 0x1000 + eleven * 0x800 + mid * 0x20 + low * 2;
            && 0 <= b < 0x2000 && b / 0x1000 == top && b / 0x800 % 2 == eleven && b / 0x20 % 0x40 == mid
            && b / 2 % 0x10 == low && b % 2 == 0
  {
    var b := top * 0x1000 + eleven * 0x800 + mid * 0x20 + low * 2;
    DivUnique(b, 0x1000, top, eleven * 0x800 + mid * 0x20 + low * 2);
    DivUnique(b, 0x800, top * 2 + eleven, mid * 0x20 + low * 2);
    DivUnique(top * 2 + eleven, 2, top, eleven);
    DivUnique(b, 0x20, (top * 2 + eleven) * 0x40 + mid, low * 2);
    DivUnique((top * 2 + eleven) * 0x40 + mid, 0x40, top * 2 + eleven, mid);
    DivUnique(b, 2, ((top * 2 + eleven) * 0x40 + mid) * 0x10 + low, 0);
    DivUnique(((top * 2 + eleven) * 0x40 + mid) * 0x10 + low, 0x10, (top * 2 + eleven) * 0x40 + mid, low);
  }

  lemma JumpSlices(top: int, eight: int, bit: int, ten: int)
    requires 0 <= top < 2 && 0 <= eight < 0x100 && 0 <= bit < 2 && 0 <= ten < 0x400
    ensures var j := top * 0x10_0000 + ten * 2 + bit * 0x800 + eight * 0x1000;
            && 0 <= j < 0x20_0000 && j / 0x10_0000 == top && j / 0x1000 % 0x100 == eight && j / 0x800 % 2 == bit
            && j / 2 % 0x400 == ten && j % 2 == 0
  {
    var j := top * 0x10_0000 + ten * 2 + bit * 0x800 + eight * 0x1000;
    DivUnique(j, 0x10_0000, top, eight * 0x1000 + bit * 0x800 + ten * 2);
    DivUnique(j, 0x1000, top * 0x100 + eight, bit * 0x800 + ten * 2);
    DivUnique(top * 0x100 + eight, 0x100, top, eight);
    DivUnique(j, 0x800, (top * 0x100 + eight) * 2 + bit, ten * 2);
    DivUnique((top * 0x100 + eight) * 2 + bit, 2, top * 0x100 + eight, bit);
    DivUnique(j, 2, ((top * 0x100 + eight) * 2 + bit) * 0x400 + ten, 0);
    DivUnique(((top * 0x100 + eight) * 2 + bit) * 0x400 + ten, 0x400, (top * 0x100 + eight) * 2 + bit, ten);
  }

  // ---------------------------------------------------------------- arithmetic

  function And(a: u32, b: u32): u32 {
    Pow2Values();
    Combine((p, q) => p && q, 32, a, b)
  }

  function Or(a: u32, b: u32): u32 {
    Pow2Values();
    Combine((p, q) => p || q, 32, a, b)
  }

  function Xor(a: u32, b: u32): u32 {
    Pow2Values();
    Combine((p, q) => p != q, 32, a, b)
  }

  function Flag(b: bool): u32 { if b then 1 else 0 }

  function Taken(funct3: int, a: u32, b: u32): Option<bool> {
    if funct3 == 0 then Some(a == b)
    else if funct3 == 1 then Some(a != b)
    else if funct3 == 4 then Some(Signed(a) < Signed(b))
    else if funct3 == 5 then Some(Signed(a) >= Signed(b))
    else if funct3 == 6 then Some(a < b)
    else if funct3 == 7 then Some(a >= b)
    else None
  }

  function OpImm(d: Decoded, a: u32): Option<u32>
    requires 0 <= d.rs2 < 32
  {
    if d.funct3 == 0 then Some(W(a + d.immI))
    else if d.funct3 == 1 && d.funct7 == 0 then Some(W(a * Pow2(d.rs2)))
    else if d.funct3 == 2 then Some(Flag(Signed(a) < d.immI))
    else if d.funct3 == 3 then Some(Flag(a < W(d.immI)))
    else if d.funct3 == 4 then Some(Xor(a, W(d.immI)))
    else if d.funct3 == 5 && d.funct7 == 0 then Some(W(a / Pow2(d.rs2)))
    else if d.funct3 == 5 && d.funct7 == 0x20 then Some(W(Signed(a) / Pow2(d.rs2)))
    else if d.funct3 == 6 then Some(Or(a, W(d.immI)))
    else if d.funct3 == 7 then Some(And(a, W(d.immI)))
    else None
  }

  function Op(d: Decoded, a: u32, b: u32): Option<u32> {
    if d.funct7 == 1 then MulDiv(d.funct3, a, b)
    else if d.funct3 == 0 && d.funct7 == 0 then Some(W(a + b))
    else if d.funct3 == 0 && d.funct7 == 0x20 then Some(W(a - b))
    else if d.funct3 == 1 && d.funct7 == 0 then Some(W(a * Pow2(b % 0x20)))
    else if d.funct3 == 2 && d.funct7 == 0 then Some(Flag(Signed(a) < Signed(b)))
    else if d.funct3 == 3 && d.funct7 == 0 then Some(Flag(a < b))
    else if d.funct3 == 4 && d.funct7 == 0 then Some(Xor(a, b))
    else if d.funct3 == 5 && d.funct7 == 0 then Some(W(a / Pow2(b % 0x20)))
    else if d.funct3 == 5 && d.funct7 == 0x20 then Some(W(Signed(a) / Pow2(b % 0x20)))
    else if d.funct3 == 6 && d.funct7 == 0 then Some(Or(a, b))
    else if d.funct3 == 7 && d.funct7 == 0 then Some(And(a, b))
    else None
  }

  /** Division rounding toward zero. */
  function Quot(a: int, b: int): int
    requires b != 0
  {
    var q := Abs(a) / Abs(b);
    if (a < 0) == (b < 0) then q else -q
  }

  /** The remainder that goes with Quot: it has the sign of the dividend. */
  function Rem(a: int, b: int): int
    requires b != 0
  {
    a - b * Quot(a, b)
  }

  /** The remainder of a floored division: it has the sign of the divisor. */
  function FloorMod(a: int, b: int): int
    requires b != 0
  {
    if b > 0 then a % b else -((-a) % (-b))
  }

  function Abs(a: int): nat { if a < 0 then -a else a }

  function MulDiv(funct3: int, a: u32, b: u32): Option<u32> {
    if funct3 == 0 then Some(W(a * b))
    else if funct3 == 1 then Some(W(Signed(a) * Signed(b) / 0x1_0000_0000))
    else if funct3 == 2 then Some(W(Signed(a) * b / 0x1_0000_0000))
    else if funct3 == 3 then Some(W(a * b / 0x1_0000_0000))
    else if funct3 == 4 then
      Some(if b == 0 then 0xFFFF_FFFF
           else if a == 0x8000_0000 && b == 0xFFFF_FFFF then a
           else W(Quot(Signed(a), Signed(b))))
    else if funct3 == 5 then Some(if b == 0 then 0xFFFF_FFFF else W(a / b))
    else if funct3 == 6 then
      Some(if b == 0 then a
           else if a == 0x8000_0000 && b == 0xFFFF_FFFF then 0
           else W(FloorMod(Signed(a), Signed(b))))
    else if funct3 == 7 then Some(if b == 0 then a else W(a % b))
    else None
  }

  /** The value an AMO stores, given the old one; None for a funct5 that is not an
      AMO.  `amoadd` may exceed 32 bits: the store truncates it. */
  function Amo(funct5: int, was: u32, value: u32): Option<int> {
    if funct5 == 1 then Some(value)
    else if funct5 == 0 then Some(was + value)
    else if funct5 == 4 then Some(Xor(was, value))
    else if funct5 == 0xC then Some(And(was, value))
    else if funct5 == 8 then Some(Or(was, value))
    else if funct5 == 0x10 then Some(if Signed(was) < Signed(value) then was else value)
    else if funct5 == 0x14 then Some(if Signed(was) > Signed(value) then was else value)
    else if funct5 == 0x18 then Some(if was < value then was else value)
    else if funct5 == 0x1C then Some(if was > value then was else value)
    else None
  }

  lemma FloorRange(a: int, b: int)
    requires b != 0
    ensures b > 0 ==> 0 <= FloorMod(a, b) < b
    ensures b < 0 ==> b < FloorMod(a, b) <= 0
  {
  }

  /** The simulator's signed remainder is RISC-V's exactly when the operands agree
      in sign or the division is exact. */
  lemma RemainderAgrees(a: int, b: int)
    requires b != 0
    ensures FloorMod(a, b) == Rem(a, b) <==> ((a < 0) == (b < 0) || a % Abs(b) == 0)
  {
    var x: int, y: int := Abs(a), Abs(b);
    var q: int, r: int := x / y, x % y;
    assert x == y * q + r;
    RemOf(a, b, q, r);
    if r == 0 {
      MulNeg(y, q);
      Bits.DivUnique(-x, y, -q, 0);
    } else {
      MulNeg(y, q + 1);
      assert y * (q + 1) == y * q + y;
      Bits.DivUnique(-x, y, -q - 1, y - r);
    }
  }

  /** The instruction: apart from division by zero and overflow, where it agrees, REM gives
      RISC-V's remainder exactly when the operands agree in sign or the division is exact. */
  lemma RemainderInstruction(a: u32, b: u32)
    ensures b == 0 ==> MulDiv(6, a, b) == Some(a)
    ensures a == 0x8000_0000 && b == 0xFFFF_FFFF ==> MulDiv(6, a, b) == Some(0) && Rem(Signed(a), Signed(b)) == 0
    ensures b != 0 ==>
              (MulDiv(6, a, b) == Some(W(Rem(Signed(a), Signed(b)))) <==>
                 ((Signed(a) < 0) == (Signed(b) < 0) || Signed(a) % Abs(Signed(b)) == 0))
  {
    if b != 0 {
      var x, y := Signed(a), Signed(b);
      assert y != 0;
      RemainderAgrees(x, y);
      FloorRange(x, y);
      RemRange(x, y);
      hide FloorMod, Rem;
      SameWord(FloorMod(x, y), Rem(x, y));
      if a == 0x8000_0000 && b == 0xFFFF_FFFF {
        assert x == -0x8000_0000 && y == -1;
      }
    }
  }

  lemma RemRange(a: int, b: int)
    requires b != 0
    ensures Rem(a, b) < Abs(b) && 0 < Rem(a, b) + Abs(b)
    ensures b == -1 ==> Rem(a, b) == 0
  {
    var q, r := Abs(a) / Abs(b), Abs(a) % Abs(b);
    assert Abs(a) == Abs(b) * q + r;
    RemOf(a, b, q, r);
  }

  /** Two integers less than 2^32 apart are equal when their words are. */
  lemma SameWord(p: int, q: int)
    requires -0x1_0000_0000 < p - q < 0x1_0000_0000
    ensures W(p) == W(q) <==> p == q
  {
  }

  /** -7 rem 2 is 1 here and -1 in the standard. */
  lemma RemainderDiffers()
    ensures MulDiv(6, 0xFFFF_FFF9, 2) == Some(1) && Rem(Signed(0xFFFF_FFF9), Signed(2)) == -1
  {
    assert Signed(0xFFFF_FFF9) == -7 && Signed(2) == 2;
    assert (-7) % 2 == 1;
  }

  lemma MulNeg(y: int, q: int)
    ensures y * (-q) == -(y * q) && (-y) * q == -(y * q) && (-y) * (-q) == y * q
  {
  }

  lemma RemOf(a: int, b: int, q: int, r: int)
    requires b != 0 && q == Abs(a) / Abs(b) && r == Abs(a) % Abs(b) && Abs(a) == Abs(b) * q + r
    ensures Rem(a, b) == (if a < 0 then -r else r)
  {
    MulNeg(b, q);
  }
}
