/** The assembler's encoders, against the simulator's decoder and executor. */
module Encoding {
  import opened Words
  import opened Counters
  import opened Isa
  import opened Reference
  import Bits

  predicate FitsSigned(v: int, m: int) { -(m / 2) <= v < m / 2 }

  function EncodeR(funct7: int, rs2: int, rs1: int, funct3: int, rd: int, opcode: int): u32 {
    funct7 % 0x80 * 0x200_0000 + rs2 % 0x20 * 0x10_0000 + rs1 % 0x20 * 0x8000
    + funct3 % 8 * 0x1000 + rd % 0x20 * 0x80 + opcode % 0x80
  }

  function EncodeI(imm: int, rs1: int, funct3: int, rd: int, opcode: int): u32 {
    imm % 0x1000 * 0x10_0000 + rs1 % 0x20 * 0x8000 + funct3 % 8 * 0x1000 + rd % 0x20 * 0x80 + opcode % 0x80
  }

  function EncodeS(imm: int, rs2: int, rs1: int, funct3: int, opcode: int): u32 {
    var i := imm % 0x1000;
    i / 0x20 * 0x200_0000 + rs2 % 0x20 * 0x10_0000 + rs1 % 0x20 * 0x8000
    + funct3 % 8 * 0x1000 + i % 0x20 * 0x80 + opcode % 0x80
  }

  /** None is the assembler's error for an odd offset. */
  function EncodeB(imm: int, rs2: int, rs1: int, funct3: int, opcode: int): Option<u32> {
    if imm % 2 != 0 then None
    else
      var i := imm % 0x2000;
      Some(i / 0x1000 % 2 * 0x8000_0000 + i / 0x20 % 0x40 * 0x200_0000
           + rs2 % 0x20 * 0x10_0000 + rs1 % 0x20 * 0x8000 + funct3 % 8 * 0x1000
           + i / 2 % 0x10 * 0x100 + i / 0x800 % 2 * 0x80 + opcode % 0x80)
  }

  function EncodeU(imm: int, rd: int, opcode: int): u32 {
    imm % 0x10_0000 * 0x1000 + rd % 0x20 * 0x80 + opcode % 0x80
  }

  function EncodeJ(imm: int, rd: int, opcode: int): Option<u32> {
    if imm % 2 != 0 then None
    else
      var i := imm % 0x20_0000;
      Some(i / 0x10_0000 % 2 * 0x8000_0000 + i / 2 % 0x400 * 0x20_0000
           + i / 0x800 % 2 * 0x10_0000 + i / 0x1000 % 0x100 * 0x1000
           + rd % 0x20 * 0x80 + opcode % 0x80)
  }

  function EncodeAmo(funct5: int, rd: int, rs1: int, rs2: int, aq: int, rl: int): u32 {
    funct5 % 0x20 * 0x800_0000 + aq % 2 * 0x400_0000 + rl % 2 * 0x200_0000
    + rs2 % 0x20 * 0x10_0000 + rs1 % 0x20 * 0x8000 + 0x2000 + rd % 0x20 * 0x80 + 0x2F
  }

  // ---------------------------------------------------------------- fields

  /** A word put together from the six R fields. */
  function Pack(f7: int, rs2: int, rs1: int, f3: int, rd: int, op: int): int {
    f7 * 0x200_0000 + rs2 * 0x10_0000 + rs1 * 0x8000 + f3 * 0x1000 + rd * 0x80 + op
  }

  predicate InRange(f7: int, rs2: int, rs1: int, f3: int, rd: int, op: int) {
    0 <= f7 < 0x80 && 0 <= rs2 < 0x20 && 0 <= rs1 < 0x20 && 0 <= f3 < 8 && 0 <= rd < 0x20 && 0 <= op < 0x80
  }

  /** Every division of a packed word that the decoder makes. */
  lemma Unpack(f7: int, rs2: int, rs1: int, f3: int, rd: int, op: int)
    requires InRange(f7, rs2, rs1, f3, rd, op)
    ensures var w := Pack(f7, rs2, rs1, f3, rd, op);
            && 0 <= w < 0x1_0000_0000
            && w % 0x80 == op
            && w / 0x80 % 0x20 == rd && w / 0x80 % 2 == rd % 2 && w / 0x100 % 0x10 == rd / 2
            && w / 0x1000 % 8 == f3
            && w / 0x1000 == f3 + 8 * (rs1 + 0x20 * (rs2 + 0x20 * f7))
            && w / 0x8000 % 0x20 == rs1
            && w / 0x10_0000 % 0x20 == rs2 && w / 0x10_0000 == rs2 + 0x20 * f7
            && w / 0x200_0000 == f7 && w / 0x8000_0000 == f7 / 0x40 && w / 0x800_0000 == f7 / 4
  {
    hide Pack;
    var w := Pack(f7, rs2, rs1, f3, rd, op);
    var x4 := rs2 + 0x20 * f7;
    var x3 := rs1 + 0x20 * x4;
    var x2 := f3 + 8 * x3;
    var x1 := rd + 0x20 * x2;
    Nested(f7, rs2, rs1, f3, rd, op);
    Bits.DivUnique(w, 0x80, x1, op);
    DropField(w, 0x80, x1);
    SplitRd(x2, rd);
    Bits.DivUnique(x2, 8, x3, f3);
    Bits.DivUnique(x3, 0x20, x4, rs1);
    Bits.DivUnique(x4, 0x20, f7, rs2);
  }

  lemma Nested(f7: int, rs2: int, rs1: int, f3: int, rd: int, op: int)
    requires InRange(f7, rs2, rs1, f3, rd, op)
    ensures var w := Pack(f7, rs2, rs1, f3, rd, op);
            0 <= w < 0x1_0000_0000 && w == op + 0x80 * (rd + 0x20 * (f3 + 8 * (rs1 + 0x20 * (rs2 + 0x20 * f7))))
  {
  }

  lemma SplitRd(x2: int, rd: int)
    requires 0 <= rd < 0x20
    ensures var x1 := rd + 0x20 * x2;
            x1 / 0x20 == x2 && x1 % 0x20 == rd && x1 % 2 == rd % 2 && x1 / 2 % 0x10 == rd / 2
  {
    var x1, h, l := rd + 0x20 * x2, rd / 2, rd % 2;
    Bits.DivUnique(x1, 0x20, x2, rd);
    Bits.DivUnique(x1, 2, h + 0x10 * x2, l);
    Bits.DivUnique(h + 0x10 * x2, 0x10, x2, h);
  }

  lemma DropField(w: int, n: int, x1: int)
    requires n == 0x80 && w / n == x1
    ensures w / 0x100 == x1 / 2 && w / 0x1000 == x1 / 0x20 && w / 0x8000 == x1 / 0x20 / 8
    ensures w / 0x10_0000 == x1 / 0x20 / 8 / 0x20 && w / 0x200_0000 == x1 / 0x20 / 8 / 0x20 / 0x20
    ensures w / 0x8000_0000 == w / 0x200_0000 / 0x40 && w / 0x800_0000 == w / 0x200_0000 / 4
  {
    assert w / 0x1000 == w / 0x80 / 0x20;
    assert w / 0x8000 == w / 0x1000 / 8;
    assert w / 0x10_0000 == w / 0x8000 / 0x20;
    assert w / 0x200_0000 == w / 0x10_0000 / 0x20;
  }

  // ---------------------------------------------------------------- round trips

  lemma Decodes(f7: int, rs2: int, rs1: int, f3: int, rd: int, op: int)
    requires InRange(f7, rs2, rs1, f3, rd, op)
    ensures var w := Pack(f7, rs2, rs1, f3, rd, op);
            && 0 <= w < 0x1_0000_0000
            && var d := DecodeOf(w);
               && (d.opcode, d.rd, d.funct3, d.rs1, d.rs2, d.funct7) == (op, rd, f3, rs1, rs2, f7)
               && d.immI == Sext(rs2 + 0x20 * f7, 0x1000)
               && d.immS == Sext(rd + f7 * 0x20, 0x1000)
               && d.immB == Sext(f7 / 0x40 * 0x1000 + rd % 2 * 0x800 + f7 % 0x40 * 0x20 + rd / 2 * 2, 0x2000)
               && d.csr == rs2 + 0x20 * f7
               && d.funct5 == f7 / 4
  {
    hide Pack, Sext, DecodeOf;
    Unpack(f7, rs2, rs1, f3, rd, op);
    var w := Pack(f7, rs2, rs1, f3, rd, op);
    Quotients(f7, rs2);
    FieldsOf(w, f7, rs2, rs1, f3, rd, op);
  }

  lemma Quotients(f7: int, rs2: int)
    requires 0 <= f7 < 0x80 && 0 <= rs2 < 0x20
    ensures f7 % 0x80 == f7 && f7 / 0x40 % 2 == f7 / 0x40 && f7 / 4 % 0x20 == f7 / 4
    ensures (rs2 + 0x20 * f7) % 0x1000 == rs2 + 0x20 * f7
  {
  }

  /** The decoder's fields, from the quotients it takes. */
  lemma FieldsOf(w: u32, f7: int, rs2: int, rs1: int, f3: int, rd: int, op: int)
    requires w % 0x80 == op && w / 0x80 % 0x20 == rd && w / 0x80 % 2 == rd % 2 && w / 0x100 % 0x10 == rd / 2
    requires w / 0x1000 % 8 == f3 && w / 0x8000 % 0x20 == rs1
    requires w / 0x10_0000 % 0x20 == rs2 && w / 0x10_0000 == rs2 + 0x20 * f7
    requires w / 0x200_0000 == f7 && w / 0x8000_0000 == f7 / 0x40 && w / 0x800_0000 == f7 / 4
    requires f7 % 0x80 == f7 && f7 / 0x40 % 2 == f7 / 0x40 && f7 / 4 % 0x20 == f7 / 4
    requires (rs2 + 0x20 * f7) % 0x1000 == rs2 + 0x20 * f7
    ensures var d := DecodeOf(w);
            && (d.opcode, d.rd, d.funct3, d.rs1, d.rs2, d.funct7) == (op, rd, f3, rs1, rs2, f7)
            && d.immI == Sext(rs2 + 0x20 * f7, 0x1000)
            && d.immS == Sext(rd + f7 * 0x20, 0x1000)
            && d.immB == Sext(f7 / 0x40 * 0x1000 + rd % 2 * 0x800 + f7 % 0x40 * 0x20 + rd / 2 * 2, 0x2000)
            && d.csr == rs2 + 0x20 * f7
            && d.funct5 == f7 / 4
  {
    hide Sext;
  }

  /** decode inverts encode_r for all fields in range. */
  lemma DecodeR(f7: int, rs2: int, rs1: int, f3: int, rd: int, op: int)
    requires InRange(f7, rs2, rs1, f3, rd, op)
    ensures var w := EncodeR(f7, rs2, rs1, f3, rd, op);
            var d := DecodeOf(w);
               (d.opcode, d.rd, d.funct3, d.rs1, d.rs2, d.funct7) == (op, rd, f3, rs1, rs2, f7)
  {
    hide Pack, DecodeOf, EncodeR;
    PackR(f7, rs2, rs1, f3, rd, op);
    Decodes(f7, rs2, rs1, f3, rd, op);
  }

  lemma PackR(f7: int, rs2: int, rs1: int, f3: int, rd: int, op: int)
    requires InRange(f7, rs2, rs1, f3, rd, op)
    ensures EncodeR(f7, rs2, rs1, f3, rd, op) == Pack(f7, rs2, rs1, f3, rd, op)
  {
    assert f7 % 0x80 == f7;
    assert rs2 % 0x20 == rs2;
    assert rs1 % 0x20 == rs1;
    assert f3 % 8 == f3;
    assert rd % 0x20 == rd;
    assert op % 0x80 == op;
  }

  /** Sign extension undoes the mask exactly on the values that fit. */
  lemma SextOfMod(v: int, m: int)
    requires m in {0x1000, 0x2000, 0x20_0000}
    ensures Sext(v % m, m) == v <==> FitsSigned(v, m)
    ensures Sext(v % m, m) == Sext(v, m)
  {
    var s, q := Sext(v % m, m), v / m;
    SextMeaning(v % m, m);
    Bits.DivUnique(v % m, m, 0, v % m);
    assert v == m * q + v % m;
    if FitsSigned(v, m) {
      Bits.MulBound(m, q);
    }
  }

  /** decode recovers an I immediate exactly when it is a 12-bit signed value. */
  lemma DecodeI(imm: int, rs1: int, f3: int, rd: int, op: int)
    requires InRange(0, 0, rs1, f3, rd, op)
    ensures var w := EncodeI(imm, rs1, f3, rd, op);
            var d := DecodeOf(w);
               && (d.opcode, d.rd, d.funct3, d.rs1) == (op, rd, f3, rs1)
               && (d.immI == imm <==> FitsSigned(imm, 0x1000))
               && d.csr == imm % 0x1000
  {
    hide Pack, DecodeOf, EncodeI, Sext;
    var i := imm % 0x1000;
    PackI(imm, rs1, f3, rd, op);
    Decodes(i / 0x20, i % 0x20, rs1, f3, rd, op);
    SextOfMod(imm, 0x1000);
    assert i % 0x20 + 0x20 * (i / 0x20) == i;
  }

  lemma PackI(imm: int, rs1: int, f3: int, rd: int, op: int)
    requires InRange(0, 0, rs1, f3, rd, op)
    ensures var i := imm % 0x1000;
            EncodeI(imm, rs1, f3, rd, op) == Pack(i / 0x20, i % 0x20, rs1, f3, rd, op)
  {
    var i := imm % 0x1000;
    assert i == i / 0x20 * 0x20 + i % 0x20;
  }

  lemma PackS(imm: int, rs2: int, rs1: int, f3: int, op: int)
    requires InRange(0, rs2, rs1, f3, 0, op)
    ensures var i := imm % 0x1000;
            EncodeS(imm, rs2, rs1, f3, op) == Pack(i / 0x20, rs2, rs1, f3, i % 0x20, op)
  {
  }

  lemma DecodeS(imm: int, rs2: int, rs1: int, f3: int, op: int)
    requires InRange(0, rs2, rs1, f3, 0, op)
    ensures var w := EncodeS(imm, rs2, rs1, f3, op);
            var d := DecodeOf(w);
               && (d.opcode, d.funct3, d.rs1, d.rs2) == (op, f3, rs1, rs2)
               && (d.immS == imm <==> FitsSigned(imm, 0x1000))
  {
    hide Pack, DecodeOf, EncodeS, Sext;
    var i := imm % 0x1000;
    PackS(imm, rs2, rs1, f3, op);
    Decodes(i / 0x20, rs2, rs1, f3, i % 0x20, op);
    SextOfMod(imm, 0x1000);
    assert i % 0x20 + i / 0x20 * 0x20 == i;
  }

  /** decode recovers a branch offset exactly when it is even and within 4 KiB; the
      assembler refuses an odd offset and silently truncates a far one. */
  lemma DecodeB(imm: int, rs2: int, rs1: int, f3: int, op: int)
    requires InRange(0, rs2, rs1, f3, 0, op)
    ensures EncodeB(imm, rs2, rs1, f3, op).None? <==> imm % 2 != 0
    ensures imm % 2 == 0 ==>
              var w := EncodeB(imm, rs2, rs1, f3, op).value;
              var d := DecodeOf(w);
                 && (d.opcode, d.funct3, d.rs1, d.rs2) == (op, f3, rs1, rs2)
                 && (d.immB == imm <==> FitsSigned(imm, 0x2000))
  {
    hide Pack, DecodeOf, EncodeB, Sext, BranchHigh, BranchLow;
    PackB(imm, rs2, rs1, f3, op);
    if imm % 2 == 0 {
      BranchParts(imm);
      Decodes(BranchHigh(imm), rs2, rs1, f3, BranchLow(imm), op);
      SextOfMod(imm, 0x2000);
    }
  }

  /** The two pieces of a branch offset, in the funct7 and rd places. */
  function BranchHigh(imm: int): int {
    var i := imm % 0x2000;
    i / 0x1000 % 2 * 0x40 + i / 0x20 % 0x40
  }

  function BranchLow(imm: int): int {
    var i := imm % 0x2000;
    i / 2 % 0x10 * 2 + i / 0x800 % 2
  }

  lemma PackB(imm: int, rs2: int, rs1: int, f3: int, op: int)
    requires InRange(0, rs2, rs1, f3, 0, op)
    ensures EncodeB(imm, rs2, rs1, f3, op) ==
              if imm % 2 != 0 then None else Some(Pack(BranchHigh(imm), rs2, rs1, f3, BranchLow(imm), op))
  {
  }

  lemma BranchParts(imm: int)
    requires imm % 2 == 0
    ensures var f7, rd := BranchHigh(imm), BranchLow(imm);
            && 0 <= f7 < 0x80 && 0 <= rd < 0x20
            && f7 / 0x40 * 0x1000 + rd % 2 * 0x800 + f7 % 0x40 * 0x20 + rd / 2 * 2 == imm % 0x2000
  {
    var i := imm % 0x2000;
    var b12, b11, hi, lo := i / 0x1000 % 2, i / 0x800 % 2, i / 0x20 % 0x40, i / 2 % 0x10;
    Bits.DivUnique(b12 * 0x40 + hi, 0x40, b12, hi);
    Bits.DivUnique(lo * 2 + b11, 2, lo, b11);
    Pieces(i);
  }

  lemma Pieces(i: int)
    requires 0 <= i < 0x2000 && i % 2 == 0
    ensures i == i / 0x1000 % 2 * 0x1000 + i / 0x800 % 2 * 0x800 + i / 0x20 % 0x40 * 0x20 + i / 2 % 0x10 * 2
  {
    assert i / 0x20 == i / 0x800 * 0x40 + i / 0x20 % 0x40 by { assert i / 0x20 / 0x40 == i / 0x800; }
    assert i / 2 == i / 0x20 * 0x10 + i / 2 % 0x10 by { assert i / 2 / 0x10 == i / 0x20; }
    assert i / 0x800 == i / 0x1000 * 2 + i / 0x800 % 2 by { assert i / 0x800 / 2 == i / 0x1000; }
  }

  lemma DecodeU(imm: int, rd: int, op: int)
    requires 0 <= rd < 0x20 && 0 <= op < 0x80
    ensures var w := EncodeU(imm, rd, op);
            var d := DecodeOf(w);
               (d.opcode, d.rd, d.immU) == (op, rd, imm % 0x10_0000 * 0x1000)
  {
    hide DecodeOf;
    var t := imm % 0x10_0000;
    TopField(t, rd, op);
    var w := EncodeU(imm, rd, op);
    UpperOf(w, t, rd, op);
  }

  lemma UpperOf(w: u32, t: int, rd: int, op: int)
    requires w % 0x80 == op && w / 0x80 % 0x20 == rd && w / 0x1000 == t
    ensures var d := DecodeOf(w); (d.opcode, d.rd, d.immU) == (op, rd, t * 0x1000)
  {
    hide Sext;
  }

  /** A word whose top twenty bits are one field. */
  lemma TopField(t: int, rd: int, op: int)
    requires 0 <= t < 0x10_0000 && 0 <= rd < 0x20 && 0 <= op < 0x80
    ensures var w := t * 0x1000 + rd * 0x80 + op;
            && 0 <= w < 0x1_0000_0000
            && w % 0x80 == op && w / 0x80 % 0x20 == rd && w / 0x1000 == t
            && w / 0x10_0000 == t / 0x100 && w / 0x20_0000 == t / 0x200 && w / 0x8000_0000 == t / 0x8_0000
  {
    var w := t * 0x1000 + rd * 0x80 + op;
    Bits.DivUnique(w, 0x80, rd + 0x20 * t, op);
    Bits.DivUnique(rd + 0x20 * t, 0x20, t, rd);
    assert w / 0x1000 == w / 0x80 / 0x20;
    assert w / 0x10_0000 == w / 0x1000 / 0x100;
    assert w / 0x20_0000 == w / 0x1000 / 0x200;
    assert w / 0x8000_0000 == w / 0x1000 / 0x8_0000;
  }

  /** decode recovers a jump offset exactly when it is even and within 1 MiB. */
  lemma DecodeJ(imm: int, rd: int, op: int)
    requires 0 <= rd < 0x20 && 0 <= op < 0x80
    ensures EncodeJ(imm, rd, op).None? <==> imm % 2 != 0
    ensures imm % 2 == 0 ==>
              var w := EncodeJ(imm, rd, op).value;
              var d := DecodeOf(w);
                 && (d.opcode, d.rd) == (op, rd)
                 && (d.immJ == imm <==> FitsSigned(imm, 0x20_0000))
  {
    hide DecodeOf, Sext, EncodeJ, JumpTop, JumpSpread;
    JumpWord(imm, rd, op);
    if imm % 2 == 0 {
      var t := JumpTop(imm);
      JumpParts(imm);
      TopField(t, rd, op);
      JumpOf(t * 0x1000 + rd * 0x80 + op, t, rd, op);
      SextOfMod(imm, 0x20_0000);
    }
  }

  /** The top twenty bits of a jump. */
  function JumpTop(imm: int): int {
    var i := imm % 0x20_0000;
    JumpSum(i / 0x10_0000 % 2, i / 2 % 0x400, i / 0x800 % 2, i / 0x1000 % 0x100)
  }

  function JumpSum(b20: int, lo: int, b11: int, hi: int): int { b20 * 0x8_0000 + lo * 0x200 + b11 * 0x100 + hi }

  lemma JumpWord(imm: int, rd: int, op: int)
    requires 0 <= rd < 0x20 && 0 <= op < 0x80
    ensures EncodeJ(imm, rd, op) ==
              if imm % 2 != 0 then None else Some(JumpTop(imm) * 0x1000 + rd * 0x80 + op)
  {
    hide JumpSum;
    var i := imm % 0x20_0000;
    Shifted(i / 0x10_0000 % 2, i / 2 % 0x400, i / 0x800 % 2, i / 0x1000 % 0x100);
    Bits.DivUnique(rd, 0x20, 0, rd);
    Bits.DivUnique(op, 0x80, 0, op);
  }

  lemma Shifted(b20: int, lo: int, b11: int, hi: int)
    ensures JumpSum(b20, lo, b11, hi) * 0x1000 ==
              b20 * 0x8000_0000 + lo * 0x20_0000 + b11 * 0x10_0000 + hi * 0x1000
  {
  }

  lemma JumpOf(w: u32, t: int, rd: int, op: int)
    requires w % 0x80 == op && w / 0x80 % 0x20 == rd && w / 0x1000 == t
    requires w / 0x10_0000 == t / 0x100 && w / 0x20_0000 == t / 0x200 && w / 0x8000_0000 == t / 0x8_0000
    ensures var d := DecodeOf(w);
            (d.opcode, d.rd) == (op, rd) && d.immJ == Sext(JumpSpread(t), 0x20_0000)
  {
    hide DecodeOf, Sext, Gathered;
    JumpFieldsOf(w);
  }

  lemma JumpFieldsOf(w: u32)
    ensures var d := DecodeOf(w);
            && d.opcode == w % 0x80 && d.rd == w / 0x80 % 0x20
            && d.immJ == Sext(Gathered(w / 0x8000_0000, w / 0x20_0000, w / 0x10_0000, w / 0x1000), 0x20_0000)
  {
    hide Sext;
  }

  lemma JumpParts(imm: int)
    requires imm % 2 == 0
    ensures 0 <= JumpTop(imm) < 0x10_0000 && JumpSpread(JumpTop(imm)) == imm % 0x20_0000
  {
    hide JumpSum, JumpSpread;
    SlotWraps(imm, 0x20_0000, 2);
    JumpTopOf(imm % 0x20_0000);
  }

  lemma JumpTopOf(i: int)
    requires 0 <= i < 0x20_0000 && i % 2 == 0
    ensures var t := JumpSum(i / 0x10_0000 % 2, i / 2 % 0x400, i / 0x800 % 2, i / 0x1000 % 0x100);
            0 <= t < 0x10_0000 && JumpSpread(t) == i
  {
    hide JumpSum, JumpSpread;
    JumpPiecesFit(i);
    JumpPieces(i);
    JumpFields(i / 0x10_0000 % 2, i / 2 % 0x400, i / 0x800 % 2, i / 0x1000 % 0x100);
  }

  lemma JumpPiecesFit(i: int)
    ensures 0 <= i / 0x10_0000 % 2 < 2 && 0 <= i / 2 % 0x400 < 0x400
    ensures 0 <= i / 0x800 % 2 < 2 && 0 <= i / 0x1000 % 0x100 < 0x100
  {
  }

  /** The offset that the decoder puts together from the top twenty bits. */
  function JumpSpread(t: int): int { Gathered(t / 0x8_0000, t / 0x200, t / 0x100, t) }

  function Gathered(top: int, middle: int, eleven: int, low: int): int {
    top % 2 * 0x10_0000 + middle % 0x400 * 2 + eleven % 2 * 0x800 + low % 0x100 * 0x1000
  }

  lemma JumpGathered(b20: int, lo: int, b11: int, hi: int)
    requires 0 <= b20 < 2 && 0 <= lo < 0x400 && 0 <= b11 < 2 && 0 <= hi < 0x100
    ensures Gathered(b20, b20 * 0x400 + lo, b20 * 0x800 + lo * 2 + b11, JumpSum(b20, lo, b11, hi)) ==
              b20 * 0x10_0000 + lo * 2 + b11 * 0x800 + hi * 0x1000
  {
    Bits.DivUnique(JumpSum(b20, lo, b11, hi), 0x100, b20 * 0x800 + lo * 2 + b11, hi);
    Bits.DivUnique(b20 * 0x800 + lo * 2 + b11, 2, b20 * 0x400 + lo, b11);
    Bits.DivUnique(b20 * 0x400 + lo, 0x400, b20, lo);
  }

  lemma JumpFields(b20: int, lo: int, b11: int, hi: int)
    requires 0 <= b20 < 2 && 0 <= lo < 0x400 && 0 <= b11 < 2 && 0 <= hi < 0x100
    ensures var t := JumpSum(b20, lo, b11, hi);
            && 0 <= t < 0x10_0000
            && JumpSpread(t) == b20 * 0x10_0000 + lo * 2 + b11 * 0x800 + hi * 0x1000
  {
    hide Gathered, JumpSum;
    JumpGathered(b20, lo, b11, hi);
    JumpQuotients(b20, lo, b11, hi);
  }

  lemma JumpQuotients(b20: int, lo: int, b11: int, hi: int)
    requires 0 <= b20 < 2 && 0 <= lo < 0x400 && 0 <= b11 < 2 && 0 <= hi < 0x100
    ensures var t := JumpSum(b20, lo, b11, hi);
            && 0 <= t < 0x10_0000
            && t / 0x100 == b20 * 0x800 + lo * 2 + b11 && t / 0x200 == b20 * 0x400 + lo && t / 0x8_0000 == b20
  {
    var t := JumpSum(b20, lo, b11, hi);
    Bits.DivUnique(t, 0x100, b20 * 0x800 + lo * 2 + b11, hi);
    Bits.DivUnique(t, 0x200, b20 * 0x400 + lo, b11 * 0x100 + hi);
    Bits.DivUnique(t, 0x8_0000, b20, lo * 0x200 + b11 * 0x100 + hi);
  }

  lemma JumpPieces(i: int)
    requires 0 <= i < 0x20_0000 && i % 2 == 0
    ensures i == i / 0x10_0000 % 2 * 0x10_0000 + i / 2 % 0x400 * 2 + i / 0x800 % 2 * 0x800 + i / 0x1000 % 0x100 * 0x1000
  {
    assert i / 2 == i / 0x800 * 0x400 + i / 2 % 0x400 by { assert i / 2 / 0x400 == i / 0x800; }
    assert i / 0x800 == i / 0x1000 * 2 + i / 0x800 % 2 by { assert i / 0x800 / 2 == i / 0x1000; }
    assert i / 0x1000 == i / 0x10_0000 * 0x100 + i / 0x1000 % 0x100 by { assert i / 0x1000 / 0x100 == i / 0x10_0000; }
  }

  lemma DecodeAmo(f5: int, rd: int, rs1: int, rs2: int, aq: int, rl: int)
    requires InRange(f5 * 4, rs2, rs1, 2, rd, 0x2F) && 0 <= aq < 2 && 0 <= rl < 2
    ensures var w := EncodeAmo(f5, rd, rs1, rs2, aq, rl);
            var d := DecodeOf(w);
               (d.opcode, d.rd, d.funct3, d.rs1, d.rs2, d.funct5) == (0x2F, rd, 2, rs1, rs2, f5)
  {
    hide Pack, DecodeOf, EncodeAmo;
    var f7 := f5 * 4 + aq * 2 + rl;
    PackAmo(f5, rd, rs1, rs2, aq, rl);
    Bits.DivUnique(f7, 4, f5, aq * 2 + rl);
    Decodes(f7, rs2, rs1, 2, rd, 0x2F);
  }

  lemma PackAmo(f5: int, rd: int, rs1: int, rs2: int, aq: int, rl: int)
    requires InRange(f5 * 4, rs2, rs1, 2, rd, 0x2F) && 0 <= aq < 2 && 0 <= rl < 2
    ensures EncodeAmo(f5, rd, rs1, rs2, aq, rl) == Pack(f5 * 4 + aq * 2 + rl, rs2, rs1, 2, rd, 0x2F)
  {
  }

  // ---------------------------------------------------------------- li

  function LiUpper(v: u32): int { (v + 0x800) / 0x1000 }

  function LiLower(v: u32): int { Sext(v - LiUpper(v) * 0x1000, 0x1000) }

  function EncodeLi(rd: int, imm: int): seq<u32> {
    var v := W(imm);
    var signed := Signed(v);
    if FitsSigned(signed, 0x1000) then [EncodeI(signed, 0, 0, rd, 0x13)]
    else [EncodeU(LiUpper(v), rd, 0x37), EncodeI(LiLower(v), rd, 0, rd, 0x13)]
  }

  /** The hart after one instruction, fetched from wherever it is. */
  ghost function AfterOne(h: Bare, s: Setting, w: u32): Bare
    requires h.Sized()
  {
    ExecutedSized(h, s, w);
    var (k, r) := Executed(h, s, w);
    Committed(k, r).0
  }

  ghost function AfterAll(h: Bare, s: Setting, ws: seq<u32>): Bare
    requires h.Sized()
    decreases |ws|
  {
    if ws == [] then h
    else
      AfterOneSized(h, s, ws[0]);
      AfterAll(AfterOne(h, s, ws[0]), s, ws[1..])
  }

  lemma AfterOneSized(h: Bare, s: Setting, w: u32)
    requires h.Sized()
    ensures AfterOne(h, s, w).Sized()
  {
    hide Executed;
    ExecutedSized(h, s, w);
  }

  /** Register rd set to v, and n instructions done. */
  function SetAfter(h: Bare, rd: int, v: u32, n: nat): Bare
    requires h.Sized() && 0 <= rd < 32
  {
    h.(x := h.x[rd := v], a := h.a.(pc := W(h.a.pc + 4 * n)), steps := h.steps + n)
  }

  /** Executing what `li` assembles to leaves the register at the immediate modulo
      2^32, for every integer, and changes nothing else but pc and time. */
  lemma LiLoads(h: Bare, s: Setting, rd: int, imm: int)
    requires h.Sized() && h.x[0] == 0 && 0 < rd < 0x20
    ensures var ws := EncodeLi(rd, imm);
            1 <= |ws| <= 2 && AfterAll(h, s, ws) == SetAfter(h, rd, W(imm), |ws|)
  {
    if FitsSigned(Signed(W(imm)), 0x1000) {
      LiShort(h, s, rd, imm);
    } else {
      LiLong(h, s, rd, imm);
    }
  }

  lemma LiShort(h: Bare, s: Setting, rd: int, imm: int)
    requires h.Sized() && h.x[0] == 0 && 0 < rd < 0x20 && FitsSigned(Signed(W(imm)), 0x1000)
    ensures |EncodeLi(rd, imm)| == 1 && AfterAll(h, s, EncodeLi(rd, imm)) == SetAfter(h, rd, W(imm), 1)
  {
    hide DecodeOf, EncodeI, EncodeU, Sext, W, Signed, AfterOne;
    var signed := Signed(W(imm));
    AddImmediate(h, s, rd, 0, signed);
    SignedBack(imm);
    Once(h, s, EncodeI(signed, 0, 0, rd, 0x13));
  }

  lemma LiLong(h: Bare, s: Setting, rd: int, imm: int)
    requires h.Sized() && h.x[0] == 0 && 0 < rd < 0x20 && !FitsSigned(Signed(W(imm)), 0x1000)
    ensures |EncodeLi(rd, imm)| == 2 && AfterAll(h, s, EncodeLi(rd, imm)) == SetAfter(h, rd, W(imm), 2)
  {
    hide DecodeOf, EncodeI, EncodeU, Sext, W, Signed, AfterOne, AfterAll, LiUpper, LiLower, FitsSigned;
    var v := W(imm);
    var upper, lower := LiUpper(v), LiLower(v);
    var w1, w2 := EncodeU(upper, rd, 0x37), EncodeI(lower, rd, 0, rd, 0x13);
    LowerPart(v);
    LoadUpper(h, s, rd, upper);
    var g := SetAfter(h, rd, W(upper * 0x1000), 1);
    AddImmediate(g, s, rd, rd, lower);
    WAdd(upper * 0x1000, lower);
    WAdd(h.a.pc + 4, 4);
    WId(v);
    Twice(h, s, w1, w2);
    assert EncodeLi(rd, imm) == [w1, w2];
    assert g.x[rd := W(imm)] == h.x[rd := W(imm)];
  }

  lemma Once(h: Bare, s: Setting, w: u32)
    requires h.Sized()
    ensures AfterAll(h, s, [w]) == AfterOne(h, s, w)
  {
    hide AfterOne;
    AfterOneSized(h, s, w);
    assert [w][1..] == [];
  }

  lemma Twice(h: Bare, s: Setting, w1: u32, w2: u32)
    requires h.Sized()
    ensures AfterOne(h, s, w1).Sized() && AfterAll(h, s, [w1, w2]) == AfterOne(AfterOne(h, s, w1), s, w2)
  {
    hide AfterOne;
    AfterOneSized(h, s, w1);
    assert [w1, w2][1..] == [w2];
    Once(AfterOne(h, s, w1), s, w2);
  }

  lemma LoadUpper(h: Bare, s: Setting, rd: int, upper: int)
    requires h.Sized() && h.x[0] == 0 && 0 < rd < 0x20 && 0 <= upper <= 0x10_0000
    ensures AfterOne(h, s, EncodeU(upper, rd, 0x37)) == SetAfter(h, rd, W(upper * 0x1000), 1)
  {
    hide DecodeOf, EncodeU, LoadStep, StoreStep, AmoStep, SystemStep, OpImm, Op, Taken;
    DecodeU(upper, rd, 0x37);
    UpperPart(upper);
    ZeroKept(h.x, rd, W(upper * 0x1000));
  }

  lemma AddImmediate(h: Bare, s: Setting, rd: int, rs1: int, imm: int)
    requires h.Sized() && h.x[0] == 0 && 0 < rd < 0x20 && 0 <= rs1 < 0x20 && FitsSigned(imm, 0x1000)
    ensures AfterOne(h, s, EncodeI(imm, rs1, 0, rd, 0x13)) == SetAfter(h, rd, W(h.x[rs1] + imm), 1)
  {
    hide DecodeOf, EncodeI, W, LoadStep, StoreStep, AmoStep, SystemStep, Op, Taken;
    DecodeI(imm, rs1, 0, rd, 0x13);
    ZeroKept(h.x, rd, W(h.x[rs1] + imm));
  }

  lemma ZeroKept(x: seq<u32>, rd: int, v: u32)
    requires |x| == 32 && x[0] == 0 && 0 < rd < 32
    ensures x[rd := v][0 := 0] == x[rd := v]
  {
  }

  lemma SignedBack(imm: int)
    ensures W(0 + Signed(W(imm))) == W(imm)
  {
    WId(W(imm));
    WAdd(Signed(W(imm)), 0);
  }

  lemma UpperPart(upper: int)
    requires 0 <= upper <= 0x10_0000
    ensures upper % 0x10_0000 * 0x1000 == W(upper * 0x1000)
  {
  }

  lemma LowerPart(v: u32)
    ensures FitsSigned(LiLower(v), 0x1000) && LiUpper(v) * 0x1000 + LiLower(v) == v && 0 <= LiUpper(v) <= 0x10_0000
  {
    var upper: int := LiUpper(v);
    var r: int := v - upper * 0x1000;
    assert FitsSigned(r, 0x1000);
    SextOfMod(r, 0x1000);
    hide Sext;
  }
}
