/** What one step of the hart does for each class of instruction, in terms of what its
    mnemonic computes, for any privilege and through whatever the fetch translated. */
module Execution {
  import opened Words
  import opened Bits
  import opened FlatMemory
  import opened Sv32
  import opened Privileged
  import opened Isa
  import opened Instructions
  import opened Reference

  /** An instruction boundary: the word is fetched with no interrupt due, and x0 is zero. */
  ghost predicate Runs(h: Bare, s: Setting, inst: u32) { Fetches(h, s, inst) && h.x[0] == 0 }

  /** g, with v in rd, one step later and at `next`. */
  ghost function Then(g: Bare, rd: int, v: u32, next: u32): Bare
    requires g.Sized() && 0 <= rd < 32
  {
    g.(a := g.a.(pc := next), x := if rd == 0 then g.x else g.x[rd := v], steps := g.steps + 1)
  }

  /** The hart once the fetch at pc has set its accessed bit. */
  ghost function Fetched(h: Bare): Bare { h.Walked(h.a.pc, Fetch) }

  lemma StepIs(h: Bare, s: Setting, inst: u32)
    requires Runs(h, s, inst)
    ensures var g := Fetched(h);
            && g.Sized() && g.a == h.a && g.x == h.x && Executed(g, s, inst).0.Sized()
            && StepOf(h, s) == Committed(Executed(g, s, inst).0, Executed(g, s, inst).1)
  {
    hide Interrupt, WordAt, Fresh, After, Touched, Executed, Committed;
    ExecutedSized(Fetched(h), s, inst);
  }

  lemma CommittedWrite(g: Bare, rd: int, v: u32, next: u32)
    requires g.Sized() && 0 <= rd < 32 && g.x[0] == 0
    ensures Committed(g.(x := g.x[rd := v]), Next(next)) == (Then(g, rd, v, next), Running)
  {
    if rd == 0 {
      assert g.x[0 := v][0 := 0] == g.x;
    } else {
      assert g.x[rd := v][0 := 0] == g.x[rd := v];
    }
  }

  // ---------------------------------------------------------------- registers

  /** Main result: add, sub, ..., remu, by mnemonic. */
  lemma RegisterRuns(op: Operation, h: Bare, s: Setting, inst: u32)
    requires Runs(h, s, inst) && DecodeOf(inst).opcode == 0x33
    requires (DecodeOf(inst).funct7, DecodeOf(inst).funct3) == Funct(op)
    ensures var d := DecodeOf(inst);
            exists r: u32 :: Computes(op, h.x[d.rs1], h.x[d.rs2], r) &&
              StepOf(h, s) == (Then(Fetched(h), d.rd, r, W(h.a.pc + 4)), Running)
  {
    hide DecodeOf, Op, Computes, StepOf, Executed, Committed, Fetches, Then, W;
    var d, g := DecodeOf(inst), Fetched(h);
    StepIs(h, s, inst);
    OperationComputes(op, d, h.x[d.rs1], h.x[d.rs2]);
    var r := Op(d, h.x[d.rs1], h.x[d.rs2]).value;
    ExecutedRegister(g, s, inst);
    CommittedWrite(g, d.rd, r, W(h.a.pc + 4));
  }

  /** The register class of `Executed`, by opcode. */
  lemma ExecutedRegister(h: Bare, s: Setting, inst: u32)
    requires h.Sized()
    ensures var d := DecodeOf(inst);
            RegisterOnly(d.opcode) ==> Executed(h, s, inst) == RegisterStep(h, d)
    ensures var d := DecodeOf(inst);
            var next := W(h.a.pc + 4);
            && (d.opcode == 0x33 && Op(d, h.x[d.rs1], h.x[d.rs2]).Some? ==>
                  Executed(h, s, inst) == (h.(x := h.x[d.rd := Op(d, h.x[d.rs1], h.x[d.rs2]).value]), Next(next)))
            && (d.opcode == 0x33 && Op(d, h.x[d.rs1], h.x[d.rs2]).None? ==> Executed(h, s, inst) == (h, Halt(Error)))
            && (d.opcode == 0x13 && OpImm(d, h.x[d.rs1]).Some? ==>
                  Executed(h, s, inst) == (h.(x := h.x[d.rd := OpImm(d, h.x[d.rs1]).value]), Next(next)))
            && (d.opcode == 0x13 && OpImm(d, h.x[d.rs1]).None? ==> Executed(h, s, inst) == (h, Halt(Error)))
  {
    hide DecodeOf, Op, OpImm, W, Taken, MemoryStep, SystemStep;
  }

  /** addi, slti, ..., and the shifts by an amount. */
  lemma ImmediateRuns(op: Operation, h: Bare, s: Setting, inst: u32)
    requires Runs(h, s, inst) && DecodeOf(inst).opcode == 0x13
    requires op in {Add, Slt, Sltu, Xor, Or, And, Sll, Srl, Sra} && DecodeOf(inst).funct3 == Funct(op).1
    requires op in {Sll, Srl, Sra} ==> DecodeOf(inst).funct7 == Funct(op).0
    ensures var d := DecodeOf(inst);
            var b: u32 := if op in {Sll, Srl, Sra} then d.rs2 else W(d.immI);
            exists r: u32 :: Computes(op, h.x[d.rs1], b, r) &&
              StepOf(h, s) == (Then(Fetched(h), d.rd, r, W(h.a.pc + 4)), Running)
  {
    hide DecodeOf, OpImm, Computes, StepOf, Executed, Committed, Fetches, Then, W, Funct;
    var d, g := DecodeOf(inst), Fetched(h);
    StepIs(h, s, inst);
    Immediates(inst);
    ImmediateComputes(op, d, h.x[d.rs1]);
    var r := OpImm(d, h.x[d.rs1]).value;
    ExecutedRegister(g, s, inst);
    CommittedWrite(g, d.rd, r, W(h.a.pc + 4));
  }

  /** Function codes that name no operation stop the run, with nothing changed. */
  lemma IllegalStops(h: Bare, s: Setting, inst: u32)
    requires Runs(h, s, inst)
    requires var d := DecodeOf(inst);
             || (d.opcode == 0x33 && forall op: Operation :: (d.funct7, d.funct3) != Funct(op))
             || (d.opcode == 0x13 && d.funct3 in {1, 5} && (d.funct7, d.funct3) !in {Funct(Sll), Funct(Srl), Funct(Sra)})
    ensures StepOf(h, s) == (Fetched(h), Error)
  {
    hide DecodeOf, Op, OpImm, StepOf, Executed, Fetches, W;
    var d := DecodeOf(inst);
    StepIs(h, s, inst);
    Immediates(inst);
    ExecutedRegister(Fetched(h), s, inst);
    OnlyOperations(d, h.x[d.rs1], h.x[d.rs2]);
    OnlyImmediates(d, h.x[d.rs1]);
  }

  /** So does an opcode the hart does not have. */
  lemma UnknownStops(h: Bare, s: Setting, inst: u32)
    requires Runs(h, s, inst)
    requires DecodeOf(inst).opcode !in {0x37, 0x17, 0x6F, 0x67, 0x63, 0x03, 0x23, 0x13, 0x33, 0x0F, 0x2F, 0x73}
    ensures StepOf(h, s) == (Fetched(h), Error)
  {
    hide DecodeOf, StepOf, Fetches, RegisterStep, MemoryStep, SystemStep;
    StepIs(h, s, inst);
  }

  lemma ExecutedFlow(h: Bare, s: Setting, inst: u32)
    requires h.Sized()
    ensures var d := DecodeOf(inst);
            var next := W(h.a.pc + 4);
            && (d.opcode == 0x37 ==> Executed(h, s, inst) == (h.(x := h.x[d.rd := d.immU]), Next(next)))
            && (d.opcode == 0x17 ==> Executed(h, s, inst) == (h.(x := h.x[d.rd := W(h.a.pc + d.immU)]), Next(next)))
            && (d.opcode == 0x6F ==> Executed(h, s, inst) == (h.(x := h.x[d.rd := next]), Next(W(h.a.pc + d.immJ))))
            && (d.opcode == 0x67 ==>
                  Executed(h, s, inst) == (h.(x := h.x[d.rd := next]), Next(W((h.x[d.rs1] + d.immI) / 2 * 2))))
            && (d.opcode == 0x0F ==> Executed(h, s, inst) == (h, Next(next)))
            && (d.opcode == 0x63 ==>
                  var taken := Taken(d.funct3, h.x[d.rs1], h.x[d.rs2]);
                  Executed(h, s, inst) ==
                    (h, if taken.None? then Halt(Error) else Next(if taken.value then W(h.a.pc + d.immB) else next)))
  {
    hide DecodeOf, Op, OpImm, W, Taken, MemoryStep, SystemStep;
  }

  /** The word with its low twelve bits cleared, and the even address at or just below one. */
  function Upper(w: u32): u32 { w - w % 0x1000 }

  function Even(a: u32): u32 { a - a % 2 }

  lemma UpperPart(inst: u32)
    ensures DecodeOf(inst).immU == Upper(inst)
  {
    hide Sext;
  }

  /** lui and auipc. */
  lemma UpperRuns(h: Bare, s: Setting, inst: u32)
    requires Runs(h, s, inst) && DecodeOf(inst).opcode in {0x37, 0x17}
    ensures var d := DecodeOf(inst);
            var v := if d.opcode == 0x37 then Upper(inst) else W(h.a.pc + Upper(inst));
            StepOf(h, s) == (Then(Fetched(h), d.rd, v, W(h.a.pc + 4)), Running)
  {
    hide DecodeOf, StepOf, Executed, Committed, Fetches, Then, W, Upper;
    var d, g := DecodeOf(inst), Fetched(h);
    StepIs(h, s, inst);
    ExecutedFlow(g, s, inst);
    UpperPart(inst);
    CommittedWrite(g, d.rd, if d.opcode == 0x37 then d.immU else W(h.a.pc + d.immU), W(h.a.pc + 4));
  }

  /** jal and jalr: both link; a jalr lands on the even address at or just below its sum. */
  lemma JumpRuns(h: Bare, s: Setting, inst: u32)
    requires Runs(h, s, inst) && DecodeOf(inst).opcode in {0x6F, 0x67}
    ensures var d := DecodeOf(inst);
            var to := if d.opcode == 0x6F then W(h.a.pc + d.immJ) else Even(W(h.x[d.rs1] + d.immI));
            StepOf(h, s) == (Then(Fetched(h), d.rd, W(h.a.pc + 4), to), Running)
  {
    hide DecodeOf, StepOf, Executed, Committed, Fetches, Then, W, Even;
    var d, g := DecodeOf(inst), Fetched(h);
    StepIs(h, s, inst);
    ExecutedFlow(g, s, inst);
    EvenTarget(h.x[d.rs1] + d.immI);
    CommittedWrite(g, d.rd, W(h.a.pc + 4), if d.opcode == 0x6F then W(h.a.pc + d.immJ) else Even(W(h.x[d.rs1] + d.immI)));
  }

  lemma EvenTarget(x: int)
    ensures W(x / 2 * 2) == Even(W(x))
  {
    var q, r := x / TWO32, x % TWO32;
    var h := 0x8000_0000 * q + r / 2;
    assert x == 2 * h + r % 2;
    DivUnique(x, 2, h, r % 2);
    DivUnique(2 * h, TWO32, q, 2 * (r / 2));
  }

  /** Branches, taken or not. */
  lemma BranchRuns(h: Bare, s: Setting, inst: u32)
    requires Runs(h, s, inst) && DecodeOf(inst).opcode == 0x63
    ensures var d := DecodeOf(inst);
            var taken := Taken(d.funct3, h.x[d.rs1], h.x[d.rs2]);
            StepOf(h, s) ==
              if taken.None? then (Fetched(h), Error)
              else (Then(Fetched(h), 0, 0, W(h.a.pc + if taken.value then d.immB else 4)), Running)
  {
    hide DecodeOf, StepOf, Executed, Fetches, W, Taken;
    StepIs(h, s, inst);
    ExecutedFlow(Fetched(h), s, inst);
    assert h.x[0 := 0] == h.x;
  }

  // ---------------------------------------------------------------- loads and stores

  /** Plain memory: neither the console window nor the timer. */
  predicate Ram(pa: u32) { !InUart(pa) && !InTimer(pa) }

  /** r is what a load of the class funct3 makes of the bytes at pa. */
  ghost predicate LoadsAs(funct3: int, m: Flat, pa: u32, r: u32) {
    if funct3 == 0 then -0x80 <= Signed(r) < 0x80 && r % 0x100 == ByteAt(m, pa)
    else if funct3 == 1 then -0x8000 <= Signed(r) < 0x8000 && r % 0x1_0000 == ByteAt(m, pa) + 0x100 * ByteAt(m, pa + 1)
    else if funct3 == 2 then
      r == ByteAt(m, pa) + 0x100 * ByteAt(m, pa + 1) + 0x1_0000 * ByteAt(m, pa + 2) + 0x100_0000 * ByteAt(m, pa + 3)
    else if funct3 == 4 then r == ByteAt(m, pa)
    else funct3 == 5 && r == ByteAt(m, pa) + 0x100 * ByteAt(m, pa + 1)
  }

  /** The bytes a load or a store of that class covers. */
  function Width(funct3: int): int {
    if funct3 in {0, 4} then 1 else if funct3 in {1, 5} then 2 else 4
  }

  lemma SextWord(v: int, m: int)
    requires m in {0x100, 0x1_0000} && 0 <= v < m
    ensures W(Sext(v, m)) % m == v && -(m / 2) <= Signed(W(Sext(v, m))) < m / 2
  {
    SextRaw(v, m);
    var x := Sext(v, m);
    SignedWord(x);
    assert W(x) == x - TWO32 * (x / TWO32);
    WordMod(x, m);
  }

  lemma WordMod(x: int, m: int)
    requires m in {0x100, 0x1_0000}
    ensures W(x) % m == x % m
  {
    var q := x / TWO32;
    assert x == W(x) + 0x100 * (0x100_0000 * q) && x == W(x) + 0x1_0000 * (0x1_0000 * q);
  }

  lemma LoadValue(m: Flat, pa: u32, funct3: int, steps: int, mtimecmp: u64)
    requires funct3 in {0, 1, 2, 4, 5} && Ram(pa)
    ensures var r := LoadAt(m, pa, AccessSize(funct3), funct3 < 2, steps, mtimecmp);
            if pa % Width(funct3) == 0 then r.Done? && LoadsAs(funct3, m, pa, r.value) else r == Illegal
  {
    hide ByteAt, Sext, Signed, W;
    SextWord(ByteAt(m, pa), 0x100);
    SextWord(HalfAt(m, pa), 0x1_0000);
  }

  lemma ExecutedLoad(h: Bare, s: Setting, inst: u32)
    requires h.Sized() && DecodeOf(inst).opcode == 0x03
    ensures Executed(h, s, inst) == LoadStep(h, DecodeOf(inst))
  {
    hide DecodeOf, LoadStep, RegisterStep, SystemStep;
  }

  /** Main result: a load.  It is translated; a fault is the trap with cause 13 and the
      address; misalignment stops the run; otherwise rd gets the value of its class. */
  lemma LoadRuns(h: Bare, s: Setting, inst: u32)
    requires Runs(h, s, inst) && DecodeOf(inst).opcode == 0x03 && DecodeOf(inst).funct3 in {0, 1, 2, 4, 5}
    ensures var d := DecodeOf(inst);
            var va, g := W(h.x[d.rs1] + d.immI), Fetched(h);
            var k := g.Walked(va, Load);
            match Fresh(g.m, g.C(), va, Load)
            case PageFault(cause, v) =>
              cause == 13 && v == va && StepOf(h, s) == (k.Trapped(13, va, false).(steps := h.steps + 1), Running)
            case Ok(pa) =>
              Ram(pa) ==>
                if pa % Width(d.funct3) != 0 then StepOf(h, s) == (k, Error)
                else exists r: u32 :: LoadsAs(d.funct3, k.m, pa, r) && StepOf(h, s) == (Then(k, d.rd, r, W(h.a.pc + 4)), Running)
  {
    hide DecodeOf, StepOf, Executed, Fetches, W, Fresh, After, Touched, LoadAt, LoadsAs, Privileged.Trap;
    var d, g := DecodeOf(inst), Fetched(h);
    StepIs(h, s, inst);
    ExecutedLoad(g, s, inst);
    var va := W(h.x[d.rs1] + d.immI);
    var k := g.Walked(va, Load);
    FaultNumbers(g.m, g.C(), va, Load);
    if Fresh(g.m, g.C(), va, Load).Ok? {
      var pa := Fresh(g.m, g.C(), va, Load).pa;
      if Ram(pa) {
        LoadValue(k.m, pa, d.funct3, h.steps, h.mtimecmp);
        if pa % Width(d.funct3) == 0 {
          var r := LoadAt(k.m, pa, AccessSize(d.funct3), d.funct3 < 2, h.steps, h.mtimecmp).value;
          CommittedWrite(k, d.rd, r, W(h.a.pc + 4));
        }
      }
    }
  }

  lemma FaultNumbers(m: Flat, c: Regime, va: u32, acc: Access)
    ensures Fresh(m, c, va, acc).PageFault? ==>
              Fresh(m, c, va, acc) == PageFault(match acc case Fetch => 12 case Load => 13 case Store => 15, va)
  {
    hide WalkOf;
  }

  /** n is m with the low bytes of v at pa, least significant first. */
  ghost predicate Stores(funct3: int, m: Flat, n: Flat, pa: u32, v: u32) {
    forall b: u32 :: n[b] == if pa <= b < pa + Width(funct3) then Byte(v, b - pa) else m[b]
  }

  lemma StoredBytes(m: Flat, funct3: int, pa: u32, v: u32)
    requires funct3 in {0, 1, 2} && Ram(pa) && pa % Width(funct3) == 0
    ensures StoreAligned(pa, AccessSize(funct3)) && Stores(funct3, m, StoreAt(m, pa, AccessSize(funct3), v), pa, v)
  {
    hide WithWord;
    WId(pa);
    if funct3 == 1 {
      WId(pa + 1);
    } else if funct3 == 2 {
      AlignedBytes(pa);
      WithWordBytes(m, pa, v);
    }
    hide W;
  }

  lemma ExecutedStore(h: Bare, s: Setting, inst: u32)
    requires h.Sized() && DecodeOf(inst).opcode == 0x23
    ensures Executed(h, s, inst) == StoreStep(h, DecodeOf(inst))
  {
    hide DecodeOf, StoreStep, RegisterStep, SystemStep;
  }

  /** Main result: a store.  It is translated; a fault is the trap with cause 15 and the
      address; misalignment stops the run; otherwise its bytes are in memory, least
      significant first, and no other byte has changed. */
  lemma StoreRuns(h: Bare, s: Setting, inst: u32)
    requires Runs(h, s, inst) && DecodeOf(inst).opcode == 0x23 && DecodeOf(inst).funct3 in {0, 1, 2}
    ensures var d := DecodeOf(inst);
            var va, g := W(h.x[d.rs1] + d.immS), Fetched(h);
            var k := g.Walked(va, Store);
            var (z, why) := StepOf(h, s);
            match Fresh(g.m, g.C(), va, Store)
            case PageFault(cause, v) =>
              cause == 15 && v == va && why == Running && z == k.Trapped(15, va, false).(steps := h.steps + 1)
            case Ok(pa) =>
              Ram(pa) ==>
                if pa % Width(d.funct3) != 0 then why == Error && z == k.(stale := z.stale)
                else
                  && why == Running && Stores(d.funct3, k.m, z.m, pa, h.x[d.rs2])
                  && z == Then(k.(m := z.m, stale := z.stale), 0, 0, W(h.a.pc + 4))
  {
    hide DecodeOf, StepOf, Executed, Fetches, W, Fresh, After, Touched, StoreAt, Stores, Kept, Privileged.Trap;
    var d, g := DecodeOf(inst), Fetched(h);
    StepIs(h, s, inst);
    ExecutedStore(g, s, inst);
    var va := W(h.x[d.rs1] + d.immS);
    var k := g.Walked(va, Store);
    FaultNumbers(g.m, g.C(), va, Store);
    if Fresh(g.m, g.C(), va, Store).Ok? {
      var pa := Fresh(g.m, g.C(), va, Store).pa;
      if Ram(pa) {
        TimerElsewhere(h.mtimecmp, pa, AccessSize(d.funct3), h.x[d.rs2]);
        if pa % Width(d.funct3) == 0 {
          StoredBytes(k.m, d.funct3, pa, h.x[d.rs2]);
          assert h.x[0 := 0] == h.x;
        } else {
          MisalignedStores(k.m, pa, d.funct3, h.x[d.rs2]);
        }
      }
    }
  }

  lemma TimerElsewhere(t: u64, pa: u32, size: int, v: int)
    requires Ram(pa)
    ensures TimerAt(t, pa, size, v) == t
  {
  }

  lemma MisalignedStores(m: Flat, pa: u32, funct3: int, v: int)
    requires funct3 in {0, 1, 2} && pa % Width(funct3) != 0
    ensures !StoreAligned(pa, AccessSize(funct3)) && StoreAt(m, pa, AccessSize(funct3), v) == m
  {
  }

  /** The timer's four words: the step count and the deadline as 64-bit numbers, low half
      first, and a store to either half of the deadline. */
  lemma TimerWindow(m: Flat, steps: nat, t: u64, v: u32, signed: bool)
    ensures var at := (pa: u32) => LoadAt(m, pa, 4, signed, steps, t);
            && at(0x1001_0000).Done? && at(0x1001_0004).Done? && at(0x1001_0008).Done? && at(0x1001_000C).Done?
            && at(0x1001_0004).value * TWO32 + at(0x1001_0000).value == steps % (TWO32 * TWO32)
            && at(0x1001_000C).value * TWO32 + at(0x1001_0008).value == t
    ensures TimerAt(t, 0x1001_0008, 4, v) % TWO32 == v && TimerAt(t, 0x1001_0008, 4, v) / TWO32 == t / TWO32
    ensures TimerAt(t, 0x1001_000C, 4, v) / TWO32 == v && TimerAt(t, 0x1001_000C, 4, v) % TWO32 == t % TWO32
  {
    WId(v);
    DivUnique(t / TWO32 * TWO32 + v, TWO32, t / TWO32, v);
    DivUnique(v * TWO32 + t % TWO32, TWO32, v, t % TWO32);
    var q, r := steps / TWO32, steps % TWO32;
    var p := q / TWO32;
    assert q == TWO32 * p + q % TWO32 && steps == TWO32 * q + r;
    DivUnique(steps, TWO32 * TWO32, p, q % TWO32 * TWO32 + r);
    WId(t / TWO32);
    hide W;
  }

  /** The two device windows: both are read by aligned words only.  In the console's, the word
      at 4 says that there is room and the other is memory.  A word stored in the timer's
      changes no byte, and the timer only at its two upper words; no other store does. */
  lemma DeviceWindows(m: Flat, pa: u32, size: int, signed: bool, steps: nat, t: u64, v: u32)
    requires size in {1, 2, 4}
    ensures var console, timer := 0x1000_0000 <= pa < 0x1000_0008, 0x1001_0000 <= pa < 0x1001_0010;
            var r := LoadAt(m, pa, size, signed, steps, t);
            && (console || timer ==> (r == Illegal <==> size != 4 || pa % 4 != 0))
            && (console && r != Illegal ==> r == Done(if pa == 0x1000_0004 then 1 else WordAt(m, pa)))
            && (timer && size == 4 ==> StoreAt(m, pa, size, v) == m)
            && (size != 4 || pa !in {0x1001_0008, 0x1001_000C} ==> TimerAt(t, pa, size, v) == t)
            && (!Ram(pa) <==> console || timer)
  {
    hide WordAt, W;
  }

  // ---------------------------------------------------------------- read-modify-write

  /** What an AMO leaves in memory: of the word that was there and the operand. */
  ghost predicate AmoMakes(funct5: int, was: u32, v: u32, now: u32) {
    if funct5 == 0 then Computes(Add, was, v, now)
    else if funct5 in {1, 3} then now == v
    else if funct5 == 4 then Computes(Xor, was, v, now)
    else if funct5 == 8 then Computes(Or, was, v, now)
    else if funct5 == 0xC then Computes(And, was, v, now)
    else
      && now in {was, v}
      && (funct5 == 0x10 ==> Signed(now) <= Signed(was) && Signed(now) <= Signed(v))
      && (funct5 == 0x14 ==> Signed(now) >= Signed(was) && Signed(now) >= Signed(v))
      && (funct5 == 0x18 ==> now <= was && now <= v)
      && (funct5 == 0x1C ==> now >= was && now >= v)
  }

  const AMOS: set<int> := {0, 1, 3, 4, 8, 0xC, 0x10, 0x14, 0x18, 0x1C}

  lemma AmoValue(funct5: int, was: u32, v: u32)
    ensures AmoStores(funct5, was, v).Some? <==> funct5 in AMOS
    ensures funct5 in AMOS ==> AmoMakes(funct5, was, v, W(AmoStores(funct5, was, v).value))
  {
    hide W, Signed, Isa.And, Isa.Or, Isa.Xor, Computes;
    SumsCompute(was, v);
    BitwiseComputes(was, v);
    WId(was);
    WId(v);
    WId(Isa.And(was, v));
    WId(Isa.Or(was, v));
    WId(Isa.Xor(was, v));
  }

  /** A store of more than 32 bits is the store of its word. */
  lemma StoredWord(m: Flat, pa: u32, v: int)
    requires Ram(pa) && pa % 4 == 0
    ensures StoreAligned(pa, 4) && Stores(2, m, StoreAt(m, pa, 4, v), pa, W(v))
  {
    hide WithWord, W;
    WId(pa);
    AlignedBytes(pa);
    WithWordBytes(m, pa, v);
    WordBytes(v);
  }

  lemma WordBytes(v: int)
    ensures forall i :: 0 <= i < 4 ==> Byte(W(v), i) == Byte(v, i)
  {
    hide Byte, W, Le32;
    Le32OfBytes(v);
    BytesOfLe32(Byte(v, 0), Byte(v, 1), Byte(v, 2), Byte(v, 3));
  }

  lemma ExecutedAmo(h: Bare, s: Setting, inst: u32)
    requires h.Sized() && DecodeOf(inst).opcode == 0x2F
    ensures Executed(h, s, inst) == AmoStep(h, DecodeOf(inst))
  {
    hide DecodeOf, AmoStep, RegisterStep, SystemStep;
  }

  /** Main result: lr, sc and the AMOs.  The load is translated, then, for all but lr, the
      store, through memory as the load left it; rd gets the old word, or 0 from sc, and
      only once everything is done. */
  lemma AmoRuns(h: Bare, s: Setting, inst: u32)
    requires Runs(h, s, inst) && DecodeOf(inst).opcode == 0x2F && DecodeOf(inst).funct3 == 2
    requires DecodeOf(inst).funct5 == 2 || DecodeOf(inst).funct5 in AMOS
    ensures var d := DecodeOf(inst);
            var va, g := h.x[d.rs1], Fetched(h);
            var k := g.Walked(va, Load);
            var l := k.Walked(va, Store);
            var (z, why) := StepOf(h, s);
            match Fresh(g.m, g.C(), va, Load)
            case PageFault(cause, v) =>
              cause == 13 && v == va && why == Running && z == k.Trapped(13, va, false).(steps := h.steps + 1)
            case Ok(pa) =>
              Ram(pa) ==>
                if pa % 4 != 0 then why == Error && z == k
                else if d.funct5 == 2 then why == Running && z == Then(k, d.rd, WordAt(k.m, pa), W(h.a.pc + 4))
                else
                  match Fresh(k.m, k.C(), va, Store)
                  case PageFault(cause, v) =>
                    cause == 15 && v == va && why == Running && z == l.Trapped(15, va, false).(steps := h.steps + 1)
                  case Ok(qa) =>
                    Ram(qa) && qa % 4 == 0 ==>
                      && why == Running
                      && (exists now: u32 :: AmoMakes(d.funct5, WordAt(k.m, pa), h.x[d.rs2], now) && Stores(2, l.m, z.m, qa, now))
                      && z == Then(l.(m := z.m, stale := z.stale), d.rd, if d.funct5 == 3 then 0 else WordAt(k.m, pa), W(h.a.pc + 4))
  {
    hide DecodeOf, StepOf, Executed, Fetches, W, Fresh, After, Touched, StoreAt, Stores, Kept, Privileged.Trap, WordAt,
         AmoStores, AmoMakes, Width;
    var d, g := DecodeOf(inst), Fetched(h);
    StepIs(h, s, inst);
    ExecutedAmo(g, s, inst);
    var va := h.x[d.rs1];
    var k := g.Walked(va, Load);
    FaultNumbers(g.m, g.C(), va, Load);
    FaultNumbers(k.m, k.C(), va, Store);
    if Fresh(g.m, g.C(), va, Load).Ok? && Ram(Fresh(g.m, g.C(), va, Load).pa) && Fresh(g.m, g.C(), va, Load).pa % 4 == 0 {
      var was := WordAt(k.m, Fresh(g.m, g.C(), va, Load).pa);
      WId(was);
      WId(0);
      if d.funct5 == 2 {
        CommittedSet(k, d.rd, was, W(h.a.pc + 4));
      } else {
        AmoValue(d.funct5, was, h.x[d.rs2]);
        var v := AmoStores(d.funct5, was, h.x[d.rs2]).value;
        if Fresh(k.m, k.C(), va, Store).Ok? && Ram(Fresh(k.m, k.C(), va, Store).pa) && Fresh(k.m, k.C(), va, Store).pa % 4 == 0 {
          var qa := Fresh(k.m, k.C(), va, Store).pa;
          var l := k.Walked(va, Store);
          StoredWord(l.m, qa, v);
          TimerElsewhere(h.mtimecmp, qa, 4, v);
          var n := StoreAt(l.m, qa, 4, v);
          CommittedSet(l.(m := n, stale := l.stale || !Kept(l.m, n, l.used)), d.rd, if d.funct5 == 3 then 0 else was, W(h.a.pc + 4));
        }
      }
    }
  }

  lemma CommittedSet(g: Bare, rd: int, v: u32, next: u32)
    requires g.Sized() && 0 <= rd < 32 && g.x[0] == 0
    ensures Committed(g.SetReg(rd, v), Next(next)) == (Then(g, rd, v, next), Running)
  {
    WId(v);
    if rd == 0 {
      assert g.x[0 := 0] == g.x;
    } else {
      assert g.x[rd := v][0 := 0] == g.x[rd := v];
    }
  }

  // ---------------------------------------------------------------- CSRs

  /** What csrrw, csrrs and csrrc, or their immediate forms, leave in the CSR. */
  ghost predicate CsrMakes(funct3: int, was: u32, source: u32, now: u32) {
    if funct3 in {1, 5} then now == source
    else if funct3 in {2, 6} then forall i: nat :: i < 32 ==> BitAt(now, i) == (BitAt(was, i) || BitAt(source, i))
    else forall i: nat :: i < 32 ==> BitAt(now, i) == (BitAt(was, i) && !BitAt(source, i))
  }

  lemma Complement(x: u32, i: nat)
    requires i < 32
    ensures BitAt(0xFFFF_FFFF - x, i) == !BitAt(x, i)
  {
    Pow2Values();
    ComplementBit(32, x, i);
  }

  lemma {:induction false} ComplementBit(n: nat, x: int, i: nat)
    requires i < n && 0 <= x < Pow2(n)
    ensures BitAt(Pow2(n) - 1 - x, i) == !BitAt(x, i)
    decreases n
  {
    if i > 0 {
      var y := Pow2(n) - 1 - x;
      assert y / 2 == Pow2(n - 1) - 1 - x / 2;
      hide BitAt;
      NextBit(y, i);
      NextBit(x, i);
      ComplementBit(n - 1, x / 2, i - 1);
    }
  }

  lemma SetMakes(was: u32, source: u32)
    ensures CsrMakes(2, was, source, Isa.Or(was, source)) && CsrMakes(6, was, source, Isa.Or(was, source))
  {
    hide BitAt, Isa.Or;
    BitwiseComputes(was, source);
  }

  lemma ClearMakes(was: u32, source: u32)
    ensures var now := Isa.And(was, 0xFFFF_FFFF - source);
            CsrMakes(3, was, source, now) && CsrMakes(7, was, source, now)
  {
    hide BitAt, Isa.And;
    var mask: u32 := 0xFFFF_FFFF - source;
    forall i: nat | i < 32 ensures BitAt(Isa.And(was, mask), i) == (BitAt(was, i) && !BitAt(source, i)) {
      AndBit(was, mask, i);
      Complement(source, i);
    }
  }

  lemma AndBit(a: u32, b: u32, i: nat)
    requires i < 32
    ensures BitAt(Isa.And(a, b), i) == (BitAt(a, i) && BitAt(b, i))
  {
    hide BitAt;
    BitwiseComputes(a, b);
  }

  lemma CsrValueMade(funct3: int, was: u32, source: u32)
    requires funct3 in {1, 2, 3, 5, 6, 7}
    ensures CsrMakes(funct3, was, source, CsrNew(funct3, was, source))
  {
    hide Isa.And, Isa.Or;
    if funct3 in {2, 6} {
      hide CsrMakes;
      SetMakes(was, source);
    } else if funct3 in {3, 7} {
      hide CsrMakes;
      ClearMakes(was, source);
    }
  }

  /** What writing a CSR does to the hart: that CSR, unless it is one of the unprivileged
      counters, and the entries in use when the write flushes. */
  lemma PutMeans(h: Bare, c: int, v: u32)
    ensures var z := h.PutCsr(c, v);
            && z == h.(a := z.a, used := z.used, stale := z.stale)
            && z.a.pc == h.a.pc && z.a.priv == h.a.priv
            && (forall n :: z.a.Csr(n) == if n == c && c !in {0xC00, 0xC01, 0xC02, 0xC80, 0xC81, 0xC82} then v else h.a.Csr(n))
            && (if c in {SSTATUS, SATP, MSTATUS} then z.used == {} && !z.stale else z.used == h.used && z.stale == h.stale)
  {
  }

  /** The counters, low and high half, are the step count; other CSRs read as stored. */
  lemma CounterReads(a: Arch, steps: nat, timer: bool, external: bool, n: int)
    ensures n in {0xC00, 0xC01, 0xC02, 0xB00, 0xB02} ==>
              CsrValue(a, steps, timer, external, n + 0x80) * TWO32 + CsrValue(a, steps, timer, external, n)
                == steps % (TWO32 * TWO32)
    ensures n !in {0xC00, 0xC01, 0xC02, 0xB00, 0xB02, 0xC80, 0xC81, 0xC82, 0xB80, 0xB82, MIP, SIP} ==>
              CsrValue(a, steps, timer, external, n) == a.Csr(n)
  {
    hide W, Isa.And, Isa.Or, CsrIn;
    SplitSteps(steps);
  }

  /** The pending bits: what was stored, and the two lines, in sip only where delegated. */
  lemma PendingReads(a: Arch, steps: nat, timer: bool, external: bool, i: nat)
    requires i < 32
    ensures BitAt(CsrValue(a, steps, timer, external, MIP), i) ==
              (BitAt(a.Csr(MIP), i) || (i == 7 && timer) || (i in {9, 11} && external))
    ensures BitAt(CsrValue(a, steps, timer, external, SIP), i) ==
              ((BitAt(a.Csr(SIP), i) || (i == 5 && timer) || (i == 9 && external)) && BitAt(a.Csr(MIDELEG), i))
  {
    hide BitAt, Isa.And, Isa.Or, W, CsrIn, PendingBits;
    var s := PendingBits(timer, external, 0x20, 0x200);
    BitwiseComputes(a.Csr(MIP), PendingBits(timer, external, 0x80, 0xA00));
    BitwiseComputes(a.Csr(SIP), s);
    BitwiseComputes(Isa.Or(a.Csr(SIP), s), a.Csr(MIDELEG));
    PendingBit(timer, external, i);
  }

  lemma SplitSteps(steps: nat)
    ensures W(steps / TWO32) * TWO32 + W(steps) == steps % (TWO32 * TWO32)
  {
    var q, r := steps / TWO32, steps % TWO32;
    var p := q / TWO32;
    assert q == TWO32 * p + q % TWO32 && steps == TWO32 * q + r;
    DivUnique(steps, TWO32 * TWO32, p, q % TWO32 * TWO32 + r);
  }

  /** A power of two has one bit. */
  lemma OneBit(j: nat, i: nat)
    ensures BitAt(Pow2(j), i) == (i == j)
  {
    LeftShiftedBit(1, j, i);
    if i > j {
      Pow2Add(0, i - j);
      AtLeastTwo(i - j);
      DivUnique(1, Pow2(i - j), 0, 1);
    } else if i == j {
      assert Pow2(0) == 1;
    }
  }

  lemma AtLeastTwo(n: nat)
    requires n > 0
    ensures Pow2(n) >= 2
  {
  }

  lemma PendingBit(timer: bool, external: bool, i: nat)
    requires i < 32
    ensures BitAt(PendingBits(timer, external, 0x80, 0xA00), i) == ((i == 7 && timer) || (i in {9, 11} && external))
    ensures BitAt(PendingBits(timer, external, 0x20, 0x200), i) == ((i == 5 && timer) || (i == 9 && external))
  {
    hide BitAt, Pow2, With;
    Pow2Values();
    var z := if timer then 0x80 else 0;
    var y := if timer then 0x20 else 0;
    OneBit(7, i);
    OneBit(5, i);
    NoBit(i);
    WithElsewhere(y, 9, external, i);
    WithElsewhere(z, 9, external, i);
    WithElsewhere(With(z, 0x200, external), 11, external, i);
    WithSums(timer, external);
  }

  lemma WithSums(timer: bool, external: bool)
    ensures var z := if timer then 0x80 else 0;
            With(With(z, 0x200, external), 0x800, external) == PendingBits(timer, external, 0x80, 0xA00)
    ensures With(if timer then 0x20 else 0, 0x200, external) == PendingBits(timer, external, 0x20, 0x200)
  {
  }

  lemma NoBit(i: nat)
    ensures !BitAt(0, i)
  {
    DivUnique(0, Pow2(i), 0, 0);
  }

  lemma ExecutedCsr(h: Bare, s: Setting, inst: u32)
    requires h.Sized() && DecodeOf(inst).opcode == 0x73 && DecodeOf(inst).funct3 in {1, 2, 3, 5, 6, 7}
    ensures Executed(h, s, inst) == (CsrStep(h, s, DecodeOf(inst)), Next(W(h.a.pc + 4)))
  {
    hide DecodeOf, RegisterStep, MemoryStep, CsrValue, CsrNew, W, Arch.Put, Flushes;
    var d := DecodeOf(inst);
    var source: u32 := if d.funct3 < 4 then h.x[d.rs1] else d.rs1;
    PutMeans(h, d.csr, CsrNew(d.funct3, CsrValue(h.a, h.steps, h.Timer(), s.external, d.csr), source));
  }

  /** Main result: the six CSR instructions.  rd gets what reading the CSR gives; the CSR gets
      what the mnemonic makes of that and the operand, unless a set or clear names x0 or 0. */
  lemma CsrRuns(h: Bare, s: Setting, inst: u32)
    requires Runs(h, s, inst) && DecodeOf(inst).opcode == 0x73 && DecodeOf(inst).funct3 in {1, 2, 3, 5, 6, 7}
    ensures var d, g := DecodeOf(inst), Fetched(h);
            var was := CsrValue(h.a, h.steps, h.Timer(), s.external, d.csr);
            var source: u32 := if d.funct3 < 4 then h.x[d.rs1] else d.rs1;
            if d.funct3 in {2, 3, 6, 7} && d.rs1 == 0 then
              StepOf(h, s) == (Then(g, d.rd, was, W(h.a.pc + 4)), Running)
            else
              exists now: u32 :: CsrMakes(d.funct3, was, source, now)
                && StepOf(h, s) == (Then(g.PutCsr(d.csr, now), d.rd, was, W(h.a.pc + 4)), Running)
  {
    hide DecodeOf, StepOf, Executed, Fetches, W, CsrValue, CsrNew, CsrMakes, Then, Committed, Arch.Put, Flushes;
    var d, g := DecodeOf(inst), Fetched(h);
    StepIs(h, s, inst);
    ExecutedCsr(g, s, inst);
    var was := CsrValue(h.a, h.steps, h.Timer(), s.external, d.csr);
    var source: u32 := if d.funct3 < 4 then h.x[d.rs1] else d.rs1;
    CsrValueMade(d.funct3, was, source);
    CommittedSet(g, d.rd, was, W(h.a.pc + 4));
    CommittedSet(g.PutCsr(d.csr, CsrNew(d.funct3, was, source)), d.rd, was, W(h.a.pc + 4));
  }

  // ---------------------------------------------------------------- environment calls

  /** Main result: an ecall.  Below M-mode its own bit of medeleg sends it to the supervisor;
      the cause is 8 plus the privilege, or 11 in M-mode; what the handler reads back is the
      pc and that cause, and it starts at its vector, unless that is the ecall itself. */
  lemma EcallRuns(h: Bare, s: Setting)
    requires Runs(h, s, 0x73) && h.a.Valid()
    ensures var (z, why) := StepOf(h, s);
            var bit, cause := if h.a.priv == 0 then 0x100 else 0x200, if h.a.priv <= 1 then 8 + h.a.priv else 11;
            why == Running &&
            if h.a.priv <= 1 && Bit(h.a.Csr(MEDELEG), bit) then
              && z.a.priv == 1 && z.a.Csr(SCAUSE) == cause && z.a.Csr(SEPC) == h.a.pc && z.a.Csr(STVAL) == 0
              && (h.a.Csr(STVEC) / 4 * 4 != h.a.pc ==> z.a.pc == h.a.Csr(STVEC) / 4 * 4)
            else
              && z.a.priv == 3 && z.a.Csr(MCAUSE) == cause && z.a.Csr(MEPC) == h.a.pc && z.a.Csr(MTVAL) == 0
              && (h.a.Csr(MTVEC) / 4 * 4 != h.a.pc ==> z.a.pc == h.a.Csr(MTVEC) / 4 * 4)
  {
    hide StepOf, Fetches, Privileged.Trap, Delegated, Bit, BitAt;
    var cause := if h.a.priv == 0 then 8 else if h.a.priv == 1 then 9 else 11;
    RedirectReaches(h, s, 0x73);
    TrapSaves(h.a, cause, 0, false);
    DelegatedCauses(h.a);
    WId(cause);
    WId(0);
    var t := Privileged.Trap(h.a, cause, 0, false);
    VectorBase(h.a.Csr(STVEC), t.pc);
    VectorBase(h.a.Csr(MTVEC), t.pc);
  }

  lemma VectorBase(v: u32, pc: int)
    ensures pc % 4 == 0 && 0 <= v - pc < 4 ==> pc == v / 4 * 4
  {
  }

  /** A step executes an instruction exactly when no interrupt is due; the timer's line is
      raised from the deadline on, and a deadline of 0 is none. */
  lemma NothingDue(h: Bare, s: Setting)
    ensures var timer := 0 < h.mtimecmp <= h.steps;
            Interrupt(h.a, h.Timer(), s.external) == None <==>
              && !Due(h.a, timer, s.external, 5) && !Due(h.a, timer, s.external, 7)
              && !Due(h.a, timer, s.external, 9) && !Due(h.a, timer, s.external, 11)
  {
    hide Interrupt, Due;
    InterruptRule(h.a, 0 < h.mtimecmp <= h.steps, s.external);
    assert 5 in {5, 7, 9, 11} && 7 in {5, 7, 9, 11} && 9 in {5, 7, 9, 11} && 11 in {5, 7, 9, 11};
  }

  /** Main result: a step on which an interrupt is due takes it instead of an instruction: the
      supervisor's below M-mode, the machine's in it, with the interrupt's number and its top
      bit in the cause, the pc to return to, and memory and registers as they were. */
  lemma InterruptRuns(h: Bare, s: Setting, i: nat)
    requires h.Sized() && h.a.Valid() && Interrupt(h.a, h.Timer(), s.external) == Some(0x8000_0000 + i)
    ensures i in {5, 7, 9, 11} && Due(h.a, 0 < h.mtimecmp <= h.steps, s.external, i)
    ensures var (z, why) := StepOf(h, s);
            && why == Running && z == h.(a := z.a, steps := h.steps + 1, used := {}, stale := false)
            && if i in {5, 9} then
                 && z.a.priv == 1 && z.a.Csr(SCAUSE) == 0x8000_0000 + i && z.a.Csr(SEPC) == h.a.pc
                 && z.a.pc == h.a.Csr(STVEC) / 4 * 4
               else
                 && z.a.priv == 3 && z.a.Csr(MCAUSE) == 0x8000_0000 + i && z.a.Csr(MEPC) == h.a.pc
                 && z.a.pc == h.a.Csr(MTVEC) / 4 * 4
  {
    hide Interrupt, Privileged.Trap, Delegated, Bit, BitAt, InstructionOf;
    InterruptRule(h.a, h.Timer(), s.external);
    InterruptTarget(h.a, h.Timer(), s.external);
    TrapSaves(h.a, 0x8000_0000 + i, 0, true);
    WId(0x8000_0000 + i);
    var t := Privileged.Trap(h.a, 0x8000_0000 + i, 0, true);
    VectorBase(h.a.Csr(STVEC), t.pc);
    VectorBase(h.a.Csr(MTVEC), t.pc);
  }

  /** A fetch that faults is the trap with cause 12 and the pc. */
  lemma FetchFaultRuns(h: Bare, s: Setting)
    requires h.Sized() && Interrupt(h.a, h.Timer(), s.external) == None && Fresh(h.m, h.C(), h.a.pc, Fetch).PageFault?
    ensures StepOf(h, s) == (Fetched(h).Trapped(12, h.a.pc, false).(steps := h.steps + 1), Running)
  {
    hide Interrupt, Fresh, After, Touched, Privileged.Trap;
    FaultNumbers(h.m, h.C(), h.a.pc, Fetch);
  }

  /** wfi stops the run where it is told to, and sleeps otherwise; sfence.vma empties the TLBs;
      the fences do nothing but go on. */
  lemma WaitsRun(h: Bare, s: Setting, inst: u32)
    requires Runs(h, s, inst)
    ensures inst == 0x1050_0073 ==>
              StepOf(h, s) ==
                if s.stopOnWfi then (Fetched(h), Wfi)
                else (Then(Fetched(h).(steps := Slept(h.a, h.steps, h.mtimecmp, s)), 0, 0, W(h.a.pc + 4)), Running)
    ensures DecodeOf(inst).opcode == 0x73 && DecodeOf(inst).funct3 == 0 && DecodeOf(inst).rd == 0 && DecodeOf(inst).funct7 == 9 ==>
              StepOf(h, s) == (Then(Fetched(h).Flushed(), 0, 0, W(h.a.pc + 4)), Running)
    ensures DecodeOf(inst).opcode == 0x0F ==> StepOf(h, s) == (Then(Fetched(h), 0, 0, W(h.a.pc + 4)), Running)
  {
    hide DecodeOf, StepOf, Fetches, RegisterStep, MemoryStep, CsrStep, Slept, W, Mret, Sret, Privileged.Trap;
    StepIs(h, s, inst);
    ExecutedFlow(Fetched(h), s, inst);
    SystemWords(inst);
    assert h.x[0 := 0] == h.x;
  }

  lemma SystemWords(inst: u32)
    ensures inst == 0x1050_0073 ==> DecodeOf(inst).opcode == 0x73 && DecodeOf(inst).funct3 == 0
    ensures var d := DecodeOf(inst);
            d.opcode == 0x73 && d.funct3 == 0 && d.rd == 0 && d.funct7 == 9 ==>
              && inst / 0x200_0000 == 9 && inst % 0x8000 == 0x73
              && inst !in {0x73, 0x10_0073, 0x3020_0073, 0x1020_0073, 0x1050_0073}
  {
    hide DecodeOf;
    ClassOf(inst);
    Fields(inst);
    var d := DecodeOf(inst);
    DivUnique(inst, 0x200_0000, d.funct7, d.rs2 * 0x10_0000 + d.rs1 * 0x8000 + d.funct3 * 0x1000 + d.rd * 0x80 + d.opcode);
    DivUnique(inst, 0x8000, d.funct7 * 0x400 + d.rs2 * 0x20 + d.rs1, d.funct3 * 0x1000 + d.rd * 0x80 + d.opcode);
  }
}
