/** Traps, returns and interrupts of the simulated hart, on the part of its state
    they touch: the program counter, the privilege and the CSR file. */
module Privileged {
  import opened Words
  import opened Bits

  // The CSRs the hart acts on, by number.
  const SSTATUS := 0x100
  const SIE := 0x104
  const STVEC := 0x105
  const SEPC := 0x141
  const SCAUSE := 0x142
  const STVAL := 0x143
  const SIP := 0x144
  const SATP := 0x180
  const MSTATUS := 0x300
  const MISA := 0x301
  const MEDELEG := 0x302
  const MIDELEG := 0x303
  const MIE := 0x304
  const MTVEC := 0x305
  const MEPC := 0x341
  const MCAUSE := 0x342
  const MTVAL := 0x343
  const MIP := 0x344
  const MHARTID := 0xF14

  /** A CSR never written reads as zero. */
  function CsrIn(csrs: map<int, u32>, n: int): u32 { if n in csrs then csrs[n] else 0 }

  /** Privilege 0 is U, 1 is S, 3 is M; 2 is reserved, but mret can install it. */
  datatype Arch = Arch(pc: u32, priv: int, csrs: map<int, u32>) {
    predicate Valid() { 0 <= priv <= 3 }

    function Csr(n: int): u32 { CsrIn(csrs, n) }

    /** `csr_write`: the unprivileged counters ignore writes. */
    function Put(n: int, v: int): Arch {
      if n in {0xC00, 0xC01, 0xC02, 0xC80, 0xC81, 0xC82} then this
      else this.(csrs := csrs[n := W(v)])
    }
  }

  /** A write to one of these CSRs empties the TLBs. */
  predicate Flushes(csr: int) { csr == SSTATUS || csr == SATP || csr == MSTATUS }

  predicate Delegated(a: Arch, cause: int, interrupt: bool) {
    a.priv <= 1 && Bit(a.Csr(if interrupt then MIDELEG else MEDELEG), Pow2(cause % 0x20))
  }

  function EnterS(s: u32, priv: int): u32 {
    W(With(With(With(s, 0x100, priv % 2 == 1), 0x20, Bit(s, 2)), 2, false))
  }

  function LeaveS(s: u32): u32 {
    W(With(With(With(s, 2, Bit(s, 0x20)), 0x20, true), 0x100, false))
  }

  /** The two bits of MPP, at 0x800 and 0x1000, one after the other. */
  function WithMpp(s: int, priv: int): int {
    With(With(s, 0x800, priv % 2 == 1), 0x1000, priv / 2 % 2 == 1)
  }

  function Mpp(s: u32): int { (if Bit(s, 0x800) then 1 else 0) + (if Bit(s, 0x1000) then 2 else 0) }

  function EnterM(s: u32, priv: int): u32 {
    W(With(With(WithMpp(s, priv), 0x80, Bit(s, 8)), 8, false))
  }

  function LeaveM(s: u32): u32 {
    W(WithMpp(With(With(s, 8, Bit(s, 0x80)), 0x80, true), 0))
  }

  function TrapToS(a: Arch, cause: int, tval: int): Arch {
    var b := a.Put(SEPC, a.pc).Put(SCAUSE, cause).Put(STVAL, tval);
    var c := b.Put(SSTATUS, EnterS(b.Csr(SSTATUS), a.priv));
    c.(priv := 1, pc := c.Csr(STVEC) / 4 * 4)
  }

  function TrapToM(a: Arch, cause: int, tval: int): Arch {
    var b := a.Put(MEPC, a.pc).Put(MCAUSE, cause).Put(MTVAL, tval);
    var c := b.Put(MSTATUS, EnterM(b.Csr(MSTATUS), a.priv));
    c.(priv := 3, pc := c.Csr(MTVEC) / 4 * 4)
  }

  function Trap(a: Arch, cause: int, tval: int, interrupt: bool): Arch {
    if Delegated(a, cause, interrupt) then TrapToS(a, cause, tval) else TrapToM(a, cause, tval)
  }

  function Mret(a: Arch): Arch {
    var s := a.Csr(MSTATUS);
    var b := a.Put(MSTATUS, LeaveM(s));
    b.(priv := Mpp(s), pc := b.Csr(MEPC))
  }

  function Sret(a: Arch): Arch {
    var s := a.Csr(SSTATUS);
    var b := a.Put(SSTATUS, LeaveS(s));
    b.(priv := if Bit(s, 0x100) then 1 else 0, pc := b.Csr(SEPC))
  }

  // ------------------------------------------------------------ status words

  /** The bits of one `With` and one truncation, for the weights used here. */
  lemma WithBits(x: int, w: int, b: bool)
    requires w in {2, 8, 0x20, 0x80, 0x100, 0x800, 0x1000}
    ensures forall v :: v in {2, 8, 0x20, 0x80, 0x100, 0x800, 0x1000} ==>
              Bit(With(x, w, b), v) == if v == w then b else Bit(x, v)
  {
    hide Bit, With;
    BitOfWith(x, w, b);
    if 2 < w { LowerBit(x, w, b, 2, w / 4); }
    if 8 < w { LowerBit(x, w, b, 8, w / 0x10); } else if w < 8 { HigherBit(x, w, b, 8 / w / 2); }
    if 0x20 < w { LowerBit(x, w, b, 0x20, w / 0x40); } else if w < 0x20 { HigherBit(x, w, b, 0x20 / w / 2); }
    if 0x80 < w { LowerBit(x, w, b, 0x80, w / 0x100); } else if w < 0x80 { HigherBit(x, w, b, 0x80 / w / 2); }
    if 0x100 < w { LowerBit(x, w, b, 0x100, w / 0x200); } else if w < 0x100 { HigherBit(x, w, b, 0x100 / w / 2); }
    if 0x800 < w { LowerBit(x, w, b, 0x800, w / 0x1000); } else if w < 0x800 { HigherBit(x, w, b, 0x800 / w / 2); }
    if w < 0x1000 { HigherBit(x, w, b, 0x1000 / w / 2); }
  }

  lemma TruncatedBits(x: int)
    ensures forall v :: v in {2, 8, 0x20, 0x80, 0x100, 0x800, 0x1000} ==> Bit(W(x), v) == Bit(x, v)
  {
    hide Bit, W;
    BitOfW(x, 2, 0x4000_0000);
    BitOfW(x, 8, 0x1000_0000);
    BitOfW(x, 0x20, 0x400_0000);
    BitOfW(x, 0x80, 0x100_0000);
    BitOfW(x, 0x100, 0x80_0000);
    BitOfW(x, 0x800, 0x10_0000);
    BitOfW(x, 0x1000, 0x8_0000);
  }

  /** What entering and leaving S-mode do to sstatus. */
  lemma SStatusBits(s: u32, priv: int)
    ensures var e := EnterS(s, priv);
            && !Bit(e, 2) && (Bit(e, 0x20) <==> Bit(s, 2)) && (Bit(e, 0x100) <==> priv % 2 == 1)
    ensures var l := LeaveS(s);
            && (Bit(l, 2) <==> Bit(s, 0x20)) && Bit(l, 0x20) && !Bit(l, 0x100)
  {
    hide Bit, W, With;
    var s1 := With(s, 0x100, priv % 2 == 1);
    var s2 := With(s1, 0x20, Bit(s, 2));
    var s3 := With(s2, 2, false);
    WithBits(s, 0x100, priv % 2 == 1);
    WithBits(s1, 0x20, Bit(s, 2));
    WithBits(s2, 2, false);
    TruncatedBits(s3);
    var t1 := With(s, 2, Bit(s, 0x20));
    var t2 := With(t1, 0x20, true);
    var t3 := With(t2, 0x100, false);
    WithBits(s, 2, Bit(s, 0x20));
    WithBits(t1, 0x20, true);
    WithBits(t2, 0x100, false);
    TruncatedBits(t3);
  }

  /** What entering and leaving M-mode do to mstatus. */
  lemma MStatusBits(s: u32, priv: int)
    ensures var e := EnterM(s, priv);
            && !Bit(e, 8) && (Bit(e, 0x80) <==> Bit(s, 8)) && (0 <= priv <= 3 ==> Mpp(e) == priv)
    ensures var l := LeaveM(s);
            && (Bit(l, 8) <==> Bit(s, 0x80)) && Bit(l, 0x80) && Mpp(l) == 0
  {
    hide Bit, W, With;
    var s1 := With(s, 0x800, priv % 2 == 1);
    var s2 := With(s1, 0x1000, priv / 2 % 2 == 1);
    var s3 := With(s2, 0x80, Bit(s, 8));
    var s4 := With(s3, 8, false);
    WithBits(s, 0x800, priv % 2 == 1);
    WithBits(s1, 0x1000, priv / 2 % 2 == 1);
    WithBits(s2, 0x80, Bit(s, 8));
    WithBits(s3, 8, false);
    TruncatedBits(s4);
    var t1 := With(s, 8, Bit(s, 0x80));
    var t2 := With(t1, 0x80, true);
    var t3 := With(t2, 0x800, false);
    var t4 := With(t3, 0x1000, false);
    WithBits(s, 8, Bit(s, 0x80));
    WithBits(t1, 0x80, true);
    WithBits(t2, 0x800, false);
    WithBits(t3, 0x1000, false);
    TruncatedBits(t4);
  }

  /** Every other bit of the status word stays, on entry and on return. */
  lemma OtherStatusBits(s: u32, priv: int, i: nat)
    requires i < 32
    ensures i !in {1, 5, 8} ==> BitAt(EnterS(s, priv), i) == BitAt(s, i) == BitAt(LeaveS(s), i)
    ensures i !in {3, 7, 11, 12} ==> BitAt(EnterM(s, priv), i) == BitAt(s, i) == BitAt(LeaveM(s), i)
  {
    Pow2Values();
    if i !in {1, 5, 8} {
      OtherSBits(s, priv, i);
    }
    if i !in {3, 7, 11, 12} {
      OtherMBits(s, priv, i);
    }
  }

  lemma OtherSBits(s: u32, priv: int, i: nat)
    requires i < 32 && i !in {1, 5, 8} && Pow2(1) == 2 && Pow2(5) == 0x20 && Pow2(8) == 0x100
    ensures BitAt(EnterS(s, priv), i) == BitAt(s, i) == BitAt(LeaveS(s), i)
  {
    hide Bit, W, With, BitAt, Pow2;
    var s1 := With(s, 0x100, priv % 2 == 1);
    var s2 := With(s1, 0x20, Bit(s, 2));
    WithElsewhere(s, 8, priv % 2 == 1, i);
    WithElsewhere(s1, 5, Bit(s, 2), i);
    WithElsewhere(s2, 1, false, i);
    TruncatedBit(With(s2, 2, false), i);
    var t1 := With(s, 2, Bit(s, 0x20));
    var t2 := With(t1, 0x20, true);
    WithElsewhere(s, 1, Bit(s, 0x20), i);
    WithElsewhere(t1, 5, true, i);
    WithElsewhere(t2, 8, false, i);
    TruncatedBit(With(t2, 0x100, false), i);
  }

  lemma OtherMBits(s: u32, priv: int, i: nat)
    requires i < 32 && i !in {3, 7, 11, 12}
    requires Pow2(3) == 8 && Pow2(7) == 0x80 && Pow2(11) == 0x800 && Pow2(12) == 0x1000
    ensures BitAt(EnterM(s, priv), i) == BitAt(s, i) == BitAt(LeaveM(s), i)
  {
    hide Bit, W, With, BitAt, Pow2;
    var s1 := With(s, 0x800, priv % 2 == 1);
    var s2 := With(s1, 0x1000, priv / 2 % 2 == 1);
    var s3 := With(s2, 0x80, Bit(s, 8));
    WithElsewhere(s, 11, priv % 2 == 1, i);
    WithElsewhere(s1, 12, priv / 2 % 2 == 1, i);
    WithElsewhere(s2, 7, Bit(s, 8), i);
    WithElsewhere(s3, 3, false, i);
    TruncatedBit(With(s3, 8, false), i);
    var t1 := With(s, 8, Bit(s, 0x80));
    var t2 := With(t1, 0x80, true);
    var t3 := With(t2, 0x800, false);
    WithElsewhere(s, 3, Bit(s, 0x80), i);
    WithElsewhere(t1, 7, true, i);
    WithElsewhere(t2, 11, false, i);
    WithElsewhere(t3, 12, false, i);
    TruncatedBit(With(t3, 0x1000, false), i);
  }

  /** What entering S-mode leaves in the state. */
  lemma TrapToSWrites(a: Arch, cause: int, tval: int)
    ensures var t := TrapToS(a, cause, tval);
            && t.priv == 1 && t.pc % 4 == 0 && 0 <= a.Csr(STVEC) - t.pc < 4
            && t.Csr(SEPC) == W(a.pc) && t.Csr(SCAUSE) == W(cause) && t.Csr(STVAL) == W(tval)
            && t.Csr(SSTATUS) == W(EnterS(a.Csr(SSTATUS), a.priv))
            && (forall n :: n !in {SSTATUS, SEPC, SCAUSE, STVAL} ==> t.Csr(n) == a.Csr(n))
  {
    hide EnterS, W;
  }

  lemma TrapToMWrites(a: Arch, cause: int, tval: int)
    ensures var t := TrapToM(a, cause, tval);
            && t.priv == 3 && t.pc % 4 == 0 && 0 <= a.Csr(MTVEC) - t.pc < 4
            && t.Csr(MEPC) == W(a.pc) && t.Csr(MCAUSE) == W(cause) && t.Csr(MTVAL) == W(tval)
            && t.Csr(MSTATUS) == W(EnterM(a.Csr(MSTATUS), a.priv))
            && (forall n :: n !in {MSTATUS, MEPC, MCAUSE, MTVAL} ==> t.Csr(n) == a.Csr(n))
  {
    hide EnterM, W;
  }

  /** What a trap does, by level: the vector it goes to, what its three CSRs record, the
      three fields of its status word, and nothing else. */
  lemma TrapSaves(a: Arch, cause: int, tval: int, interrupt: bool)
    ensures var t := Trap(a, cause, tval, interrupt);
            if Delegated(a, cause, interrupt) then
              && t.priv == 1 && t.pc % 4 == 0 && 0 <= a.Csr(STVEC) - t.pc < 4
              && t.Csr(SEPC) == a.pc && t.Csr(SCAUSE) == W(cause) && t.Csr(STVAL) == W(tval)
              && !Bit(t.Csr(SSTATUS), 2) && (Bit(t.Csr(SSTATUS), 0x20) <==> Bit(a.Csr(SSTATUS), 2))
              && (Bit(t.Csr(SSTATUS), 0x100) <==> a.priv % 2 == 1)
              && (forall n :: n !in {SSTATUS, SEPC, SCAUSE, STVAL} ==> t.Csr(n) == a.Csr(n))
            else
              && t.priv == 3 && t.pc % 4 == 0 && 0 <= a.Csr(MTVEC) - t.pc < 4
              && t.Csr(MEPC) == a.pc && t.Csr(MCAUSE) == W(cause) && t.Csr(MTVAL) == W(tval)
              && !Bit(t.Csr(MSTATUS), 8) && (Bit(t.Csr(MSTATUS), 0x80) <==> Bit(a.Csr(MSTATUS), 8))
              && (a.Valid() ==> Mpp(t.Csr(MSTATUS)) == a.priv)
              && (forall n :: n !in {MSTATUS, MEPC, MCAUSE, MTVAL} ==> t.Csr(n) == a.Csr(n))
    ensures forall i: nat :: i < 32 && i !in {1, 5, 8} ==>
              BitAt(Trap(a, cause, tval, interrupt).Csr(SSTATUS), i) == BitAt(a.Csr(SSTATUS), i)
    ensures forall i: nat :: i < 32 && i !in {3, 7, 11, 12} ==>
              BitAt(Trap(a, cause, tval, interrupt).Csr(MSTATUS), i) == BitAt(a.Csr(MSTATUS), i)
  {
    hide EnterS, EnterM, Bit, BitAt, Mpp, TrapToS, TrapToM, W, Delegated;
    WId(a.pc);
    if Delegated(a, cause, interrupt) {
      TrapToSWrites(a, cause, tval);
      WId(EnterS(a.Csr(SSTATUS), a.priv));
      SStatusBits(a.Csr(SSTATUS), a.priv);
      forall i: nat | i < 32 && i !in {1, 5, 8}
        ensures BitAt(EnterS(a.Csr(SSTATUS), a.priv), i) == BitAt(a.Csr(SSTATUS), i)
      {
        OtherStatusBits(a.Csr(SSTATUS), a.priv, i);
      }
    } else {
      TrapToMWrites(a, cause, tval);
      WId(EnterM(a.Csr(MSTATUS), a.priv));
      MStatusBits(a.Csr(MSTATUS), a.priv);
      forall i: nat | i < 32 && i !in {3, 7, 11, 12}
        ensures BitAt(EnterM(a.Csr(MSTATUS), a.priv), i) == BitAt(a.Csr(MSTATUS), i)
      {
        OtherStatusBits(a.Csr(MSTATUS), a.priv, i);
      }
    }
  }

  /** Which traps are delegated, by the numbers of the causes: never from M, and below it by
      the cause's bit in medeleg, or in mideleg for an interrupt. */
  lemma DelegatedCauses(a: Arch)
    ensures a.priv > 1 ==> forall cause, interrupt :: !Delegated(a, cause, interrupt)
    ensures a.priv <= 1 ==>
              var e, i := a.Csr(MEDELEG), a.Csr(MIDELEG);
              && (Delegated(a, 3, false) <==> Bit(e, 8))
              && (Delegated(a, 8, false) <==> Bit(e, 0x100)) && (Delegated(a, 9, false) <==> Bit(e, 0x200))
              && (Delegated(a, 12, false) <==> Bit(e, 0x1000)) && (Delegated(a, 13, false) <==> Bit(e, 0x2000))
              && (Delegated(a, 15, false) <==> Bit(e, 0x8000))
              && (Delegated(a, 0x8000_0005, true) <==> Bit(i, 0x20))
              && (Delegated(a, 0x8000_0009, true) <==> Bit(i, 0x200))
    ensures a.priv <= 1 ==> forall n: nat :: n < 32 ==>
              && (Delegated(a, n, false) <==> BitAt(a.Csr(MEDELEG), n))
              && (Delegated(a, 0x8000_0000 + n, true) <==> BitAt(a.Csr(MIDELEG), n))
  {
    hide Pow2;
    Pow2Values();
  }

  /** The two returns: where they go, with which privilege, and what they leave alone. */
  lemma Returns(a: Arch)
    ensures var z := Mret(a);
            && z.pc == a.Csr(MEPC) && z.priv == a.Csr(MSTATUS) / 0x800 % 4
            && (Bit(z.Csr(MSTATUS), 8) <==> Bit(a.Csr(MSTATUS), 0x80)) && Bit(z.Csr(MSTATUS), 0x80)
            && z.Csr(MSTATUS) / 0x800 % 4 == 0
            && (forall n :: n != MSTATUS ==> z.Csr(n) == a.Csr(n))
            && (forall i: nat :: i < 32 && i !in {3, 7, 11, 12} ==> BitAt(z.Csr(MSTATUS), i) == BitAt(a.Csr(MSTATUS), i))
    ensures var z := Sret(a);
            && z.pc == a.Csr(SEPC) && z.priv == a.Csr(SSTATUS) / 0x100 % 2
            && (Bit(z.Csr(SSTATUS), 2) <==> Bit(a.Csr(SSTATUS), 0x20)) && Bit(z.Csr(SSTATUS), 0x20)
            && !Bit(z.Csr(SSTATUS), 0x100)
            && (forall n :: n != SSTATUS ==> z.Csr(n) == a.Csr(n))
            && (forall i: nat :: i < 32 && i !in {1, 5, 8} ==> BitAt(z.Csr(SSTATUS), i) == BitAt(a.Csr(SSTATUS), i))
  {
    hide EnterS, EnterM, LeaveS, LeaveM, BitAt, Pow2, With, Mpp, W;
    var m, s := a.Csr(MSTATUS), a.Csr(SSTATUS);
    MppIs(m);
    MppIs(LeaveM(m));
    MStatusBits(m, 0);
    SStatusBits(s, 0);
    WId(LeaveM(m));
    WId(LeaveS(s));
    forall i: nat | i < 32
      ensures i !in {3, 7, 11, 12} ==> BitAt(LeaveM(m), i) == BitAt(m, i)
      ensures i !in {1, 5, 8} ==> BitAt(LeaveS(s), i) == BitAt(s, i)
    {
      OtherStatusBits(m, 0, i);
      OtherStatusBits(s, 0, i);
    }
  }

  /** The two bits of MPP as a number. */
  lemma MppIs(s: u32)
    ensures Mpp(s) == s / 0x800 % 4
  {
    assert s / 0x1000 == s / 0x800 / 2;
  }

  // ------------------------------------------------------------ round trips

  /** What a supervisor handler does between its trap and its sret: CSR writes,
      control flow, and whole excursions to M-mode, whose handler may itself write
      CSRs before its mret. */
  datatype Act =
    | Write(csr: int, v: int)
    | Jump(pc: u32)
    | Excursion(cause: int, tval: int, interrupt: bool, handler: seq<(int, int)>)

  function Writes(a: Arch, ws: seq<(int, int)>): Arch
    decreases |ws|
  {
    if ws == [] then a else Writes(a.Put(ws[0].0, ws[0].1), ws[1..])
  }

  function Does(a: Arch, act: Act): Arch {
    match act
    case Write(csr, v) => a.Put(csr, v)
    case Jump(pc) => a.(pc := pc)
    case Excursion(cause, tval, interrupt, handler) => Mret(Writes(Trap(a, cause, tval, interrupt), handler))
  }

  function DoesAll(a: Arch, acts: seq<Act>): Arch
    decreases |acts|
  {
    if acts == [] then a else DoesAll(Does(a, acts[0]), acts[1..])
  }

  predicate Untouched(ws: seq<(int, int)>, csrs: set<int>) { forall w :: w in ws ==> w.0 !in csrs }

  /** The handler preserves what the trap saved: sepc and sstatus. */
  predicate Preserving(a: Arch, acts: seq<Act>)
    decreases |acts|
  {
    acts != [] ==>
      && (match acts[0]
          case Write(csr, _) => csr != SSTATUS && csr != SEPC
          case Jump(_) => true
          case Excursion(cause, _, interrupt, handler) =>
            !Delegated(a, cause, interrupt) && Untouched(handler, {MSTATUS, SSTATUS, SEPC}))
      && Preserving(Does(a, acts[0]), acts[1..])
  }

  lemma {:induction false} WritesFrame(a: Arch, ws: seq<(int, int)>, csrs: set<int>)
    requires Untouched(ws, csrs)
    ensures Writes(a, ws).pc == a.pc && Writes(a, ws).priv == a.priv
    ensures forall n :: n in csrs ==> Writes(a, ws).Csr(n) == a.Csr(n)
    decreases |ws|
  {
    if ws != [] {
      assert ws[0] in ws;
      assert forall w :: w in ws[1..] ==> w in ws;
      WritesFrame(a.Put(ws[0].0, ws[0].1), ws[1..], csrs);
    }
  }

  /** A trap to M-mode followed, after any handler that leaves mstatus alone, by
      mret: privilege and MIE are restored, and the hart resumes at mepc, which is
      the trapped pc unless the handler moved it. */
  lemma MachineTrapReturns(a: Arch, cause: int, tval: int, interrupt: bool, handler: seq<(int, int)>)
    requires a.Valid() && !Delegated(a, cause, interrupt)
    requires Untouched(handler, {MSTATUS})
    ensures var b := Writes(Trap(a, cause, tval, interrupt), handler);
            var z := Mret(b);
            && z.priv == a.priv
            && (Bit(z.Csr(MSTATUS), 8) <==> Bit(a.Csr(MSTATUS), 8))
            && z.pc == b.Csr(MEPC)
            && (Untouched(handler, {MEPC}) ==> z.pc == a.pc)
  {
    hide LeaveM, Mpp, Bit, Trap;
    var t := Trap(a, cause, tval, interrupt);
    var b := Writes(t, handler);
    TrapSaves(a, cause, tval, interrupt);
    WritesFrame(t, handler, {MSTATUS});
    if Untouched(handler, {MEPC}) {
      WritesFrame(t, handler, {MEPC});
    }
    MStatusBits(b.Csr(MSTATUS), 0);
  }

  /** The same for a handler that also leaves the supervisor's saved state alone. */
  lemma ExcursionReturns(a: Arch, cause: int, tval: int, interrupt: bool, handler: seq<(int, int)>)
    requires a.Valid() && !Delegated(a, cause, interrupt)
    requires Untouched(handler, {MSTATUS, SSTATUS, SEPC})
    ensures var z := Mret(Writes(Trap(a, cause, tval, interrupt), handler));
            z.priv == a.priv && z.Csr(SSTATUS) == a.Csr(SSTATUS) && z.Csr(SEPC) == a.Csr(SEPC)
  {
    hide LeaveM, Bit, Trap;
    assert Untouched(handler, {MSTATUS});
    MachineTrapReturns(a, cause, tval, interrupt, handler);
    TrapSaves(a, cause, tval, interrupt);
    WritesFrame(Trap(a, cause, tval, interrupt), handler, {SSTATUS, SEPC});
  }

  lemma {:induction false} HandlerPreserves(a: Arch, acts: seq<Act>)
    requires a.priv == 1 && Preserving(a, acts)
    ensures var z := DoesAll(a, acts);
            z.priv == 1 && z.Csr(SSTATUS) == a.Csr(SSTATUS) && z.Csr(SEPC) == a.Csr(SEPC)
    decreases |acts|
  {
    hide Bit, Trap, Mret;
    if acts != [] {
      match acts[0] {
        case Write(_, _) =>
        case Jump(_) =>
        case Excursion(cause, tval, interrupt, handler) =>
          ExcursionReturns(a, cause, tval, interrupt, handler);
      }
      HandlerPreserves(Does(a, acts[0]), acts[1..]);
    }
  }

  /** A trap delegated to S-mode, any supervisor handler with any number of
      excursions to M-mode inside it, then sret: pc, privilege and SIE are restored. */
  lemma DelegatedTrapReturns(a: Arch, cause: int, tval: int, interrupt: bool, acts: seq<Act>)
    requires a.Valid() && Delegated(a, cause, interrupt)
    requires Preserving(Trap(a, cause, tval, interrupt), acts)
    ensures var z := Sret(DoesAll(Trap(a, cause, tval, interrupt), acts));
            && z.pc == a.pc && z.priv == a.priv
            && (Bit(z.Csr(SSTATUS), 2) <==> Bit(a.Csr(SSTATUS), 2))
  {
    hide LeaveS, Bit, Trap;
    var t := Trap(a, cause, tval, interrupt);
    TrapSaves(a, cause, tval, interrupt);
    HandlerPreserves(t, acts);
    SStatusBits(t.Csr(SSTATUS), 0);
  }

  lemma TrapNeverLowers(a: Arch, cause: int, tval: int, interrupt: bool)
    requires a.Valid()
    ensures Trap(a, cause, tval, interrupt).Valid()
    ensures Trap(a, cause, tval, interrupt).priv >= a.priv
    ensures Trap(a, cause, tval, interrupt).priv in {1, 3}
  {
  }

  // ------------------------------------------------------------ interrupts

  predicate SupervisorEnabled(a: Arch) { a.priv == 0 || (a.priv == 1 && Bit(a.Csr(SSTATUS), 2)) }

  predicate Routed(a: Arch, bit: int)
    requires bit > 0
  {
    Bit(a.Csr(MIDELEG), bit) && Bit(a.Csr(SIE), bit)
  }

  /** The interrupt the hart takes, given the two lines, timer before external. */
  function Interrupt(a: Arch, timer: bool, external: bool): Option<int> {
    if SupervisorEnabled(a) && timer && Routed(a, 0x20) then Some(0x8000_0005)
    else if SupervisorEnabled(a) && external && Routed(a, 0x200) then Some(0x8000_0009)
    else if a.priv == 3 && Bit(a.Csr(MSTATUS), 8) && timer && Bit(a.Csr(MIE), 0x80) then Some(0x8000_0007)
    else if a.priv == 3 && Bit(a.Csr(MSTATUS), 8) && external && Bit(a.Csr(MIE), 0x800) then Some(0x8000_000B)
    else None
  }

  /** Interrupt number i (5 and 9 for S, 7 and 11 for M; the first of each pair the timer's)
      is raised, enabled by its own bit, and not held back by its level. */
  predicate Due(a: Arch, timer: bool, external: bool, i: nat) {
    && (if i in {5, 7} then timer else external)
    && (if i in {5, 9} then
          && BitAt(a.Csr(MIDELEG), i) && BitAt(a.Csr(SIE), i)
          && (a.priv == 0 || (a.priv == 1 && BitAt(a.Csr(SSTATUS), 1)))
        else BitAt(a.Csr(MIE), i) && a.priv == 3 && BitAt(a.Csr(MSTATUS), 3))
  }

  /** The hart takes an interrupt exactly when one is due, with its number in the cause, and
      the timer's before the other of its level. */
  lemma InterruptRule(a: Arch, timer: bool, external: bool)
    ensures var c := Interrupt(a, timer, external);
            && (c == None <==> forall i :: i in {5, 7, 9, 11} ==> !Due(a, timer, external, i))
            && (c.Some? ==> exists i :: i in {5, 7, 9, 11} && c == Some(0x8000_0000 + i) && Due(a, timer, external, i)
                              && (i in {9, 11} ==> !Due(a, timer, external, i - 4)))
  {
    hide Bit, Pow2;
    Pow2Values();
    if Due(a, timer, external, 5) {
    } else if Due(a, timer, external, 9) {
      assert 9 in {5, 7, 9, 11};
    } else if Due(a, timer, external, 7) {
    } else if Due(a, timer, external, 11) {
      assert 11 in {5, 7, 9, 11};
    }
  }

  /** Each supervisor interrupt taken is delegated, each machine one is not. */
  lemma InterruptTarget(a: Arch, timer: bool, external: bool)
    requires Interrupt(a, timer, external).Some?
    ensures var c := Interrupt(a, timer, external).value;
            Delegated(a, c, true) <==> a.priv <= 1
  {
    hide Bit;
    assert Pow2(5) == 0x20;
    assert Pow2(9) == 0x200 by { assert Pow2(7) == 0x80; }
  }

  /** Once an interrupt is taken none is taken again, whatever the lines and the
      other CSRs do, until privilege or the enable bit it cleared changes. */
  lemma NoSecondInterrupt(a: Arch, timer: bool, external: bool, b: Arch, timer': bool, external': bool)
    requires a.Valid() && Interrupt(a, timer, external).Some?
    requires var t := Trap(a, Interrupt(a, timer, external).value, 0, true);
             && b.priv == t.priv
             && (Bit(b.Csr(SSTATUS), 2) <==> Bit(t.Csr(SSTATUS), 2))
             && (Bit(b.Csr(MSTATUS), 8) <==> Bit(t.Csr(MSTATUS), 8))
    ensures Interrupt(b, timer', external') == None
  {
    hide Trap, Delegated;
    InterruptTarget(a, timer, external);
    TrapSaves(a, Interrupt(a, timer, external).value, 0, true);
  }
}
