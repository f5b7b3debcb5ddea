/** Assembled instructions on the hart: what the word of each kind of item decodes to, and
    what executing it, from the packed and loaded image, does. */
module Programs {
  import opened Words
  import opened FlatMemory
  import opened Sv32
  import opened Privileged
  import opened Isa
  import opened Encoding
  import opened Instructions
  import opened Reference
  import opened Assembler
  import opened Toolchain
  import Execution

  predicate Register(r: int) { 0 <= r < 0x20 }

  /** The fields an item's word decodes to; an immediate comes back if and only if it fits. */
  ghost predicate DecodesTo(symbols: Symbols, item: Item, d: Decoded) {
    match item
    case RType(funct7, rs2, rs1, funct3, rd, opcode) =>
      (d.funct7, d.rs2, d.rs1, d.funct3, d.rd, d.opcode) == (funct7, rs2, rs1, funct3, rd, opcode)
    case IType(imm, rs1, funct3, rd, opcode) =>
      && Resolve(symbols, imm).Some? && (d.rs1, d.funct3, d.rd, d.opcode) == (rs1, funct3, rd, opcode)
      && var v := Resolve(symbols, imm).value;
         (d.immI == v <==> FitsSigned(v, 0x1000)) && d.csr == v % 0x1000
    case SType(imm, rs2, rs1, funct3, opcode) =>
      && Resolve(symbols, imm).Some? && (d.rs2, d.rs1, d.funct3, d.opcode) == (rs2, rs1, funct3, opcode)
      && var v := Resolve(symbols, imm).value;
         (d.immS == v <==> FitsSigned(v, 0x1000))
    case UType(imm, rd, opcode) =>
      && Resolve(symbols, imm).Some? && (d.rd, d.opcode) == (rd, opcode)
      && d.immU == Resolve(symbols, imm).value % 0x10_0000 * 0x1000
    case Amo(funct5, rd, rs1, rs2, aq, rl) =>
      (d.funct5, d.rd, d.rs1, d.rs2, d.funct3, d.opcode) == (funct5, rd, rs1, rs2, 2, 0x2F)
    case _ => true
  }

  /** The operands the parser can produce. */
  predicate InBounds(item: Item) {
    match item
    case RType(funct7, rs2, rs1, funct3, rd, opcode) => InRange(funct7, rs2, rs1, funct3, rd, opcode)
    case IType(_, rs1, funct3, rd, opcode) => InRange(0, 0, rs1, funct3, rd, opcode)
    case SType(_, rs2, rs1, funct3, opcode) => InRange(0, rs2, rs1, funct3, 0, opcode)
    case UType(_, rd, opcode) => Register(rd) && 0 <= opcode < 0x80
    case Amo(funct5, rd, rs1, rs2, aq, rl) => InRange(funct5 * 4, rs2, rs1, 2, rd, 0x2F) && 0 <= aq < 2 && 0 <= rl < 2
    case _ => true
  }

  predicate OneWord(item: Item) { item.RType? || item.IType? || item.SType? || item.UType? || item.Amo? || item.Fixed? }

  /** Main result: an instruction item is one word, which decodes to what was written. */
  lemma ItemDecodes(symbols: Symbols, item: Item, pc: nat)
    requires InBounds(item) && OneWord(item) && Encode(symbols, item, pc).Some?
    ensures |Encode(symbols, item, pc).value| == 1
    ensures DecodesTo(symbols, item, DecodeOf(Encode(symbols, item, pc).value[0]))
    ensures item.Fixed? ==> Encode(symbols, item, pc).value[0] == item.word
  {
    hide DecodeOf, FitsSigned, EncodeR, EncodeI, EncodeS, EncodeU, EncodeAmo;
    match item {
      case RType(funct7, rs2, rs1, funct3, rd, opcode) => DecodeR(funct7, rs2, rs1, funct3, rd, opcode);
      case IType(imm, rs1, funct3, rd, opcode) => DecodeI(Resolve(symbols, imm).value, rs1, funct3, rd, opcode);
      case SType(imm, rs2, rs1, funct3, opcode) => DecodeS(Resolve(symbols, imm).value, rs2, rs1, funct3, opcode);
      case UType(imm, rd, opcode) => DecodeU(Resolve(symbols, imm).value, rd, opcode);
      case Amo(funct5, rd, rs1, rs2, aq, rl) => DecodeAmo(funct5, rd, rs1, rs2, aq, rl);
      case _ =>
    }
  }

  /** The words of `.word`: its operands in order, modulo 2^32, if and only if all are known. */
  lemma {:induction false} WordsInOrder(symbols: Symbols, ops: seq<Token>)
    ensures var v := ResolveAll(symbols, ops);
            && (v.Some? <==> forall k :: 0 <= k < |ops| ==> Resolve(symbols, ops[k]).Some?)
            && (v.Some? ==>
                  && |v.value| == |ops|
                  && forall k :: 0 <= k < |ops| ==> v.value[k] == Resolve(symbols, ops[k]).value % 0x1_0000_0000)
    decreases |ops|
  {
    hide Resolve;
    if ops != [] {
      WordsInOrder(symbols, ops[..|ops| - 1]);
    }
  }

  /** What data items emit: `.word` its operands, `.zero` zeroes for its bytes and at most
      three more. */
  lemma DataEmitted(symbols: Symbols, item: Item, pc: nat)
    requires item.Word? || item.Zero?
    ensures var v := Encode(symbols, item, pc);
            && (item.Word? ==>
                  && (v.Some? <==> forall k :: 0 <= k < |item.ops| ==> Resolve(symbols, item.ops[k]).Some?)
                  && (v.Some? ==>
                        && |v.value| == |item.ops|
                        && forall k :: 0 <= k < |item.ops| ==> v.value[k] == Resolve(symbols, item.ops[k]).value % 0x1_0000_0000))
            && (item.Zero? ==>
                  && (v.Some? <==> item.count >= 0)
                  && (v.Some? ==> item.count <= 4 * |v.value| < item.count + 4 && forall w :: w in v.value ==> w == 0))
  {
    hide Resolve;
    if item.Word? {
      WordsInOrder(symbols, item.ops);
    }
  }

  /** The hart is about to execute item i of a program loaded at `load`. */
  ghost predicate Reaches(items: seq<Item>, i: nat, load: u32, h: Bare, s: Setting) {
    && Assembles(items) && i < |items| && OneWord(items[i]) && InBounds(items[i])
    && Holds(h.m, ImageOf(items), load) && Toolchain.At(h, s, load, WordsBefore(items, i))
  }

  /** The word at pc is the item's, and the fetch changes nothing. */
  lemma WordReached(items: seq<Item>, i: nat, load: u32, h: Bare, s: Setting)
    requires Reaches(items, i, load, h, s)
    ensures var inst := WordAt(h.m, h.a.pc);
            Execution.Runs(h, s, inst) && DecodesTo(Table(items, |items|), items[i], DecodeOf(inst))
    ensures Execution.Fetched(h) == h
  {
    hide DecodeOf, WordAt, Interrupt, Layout, Table, Agrees, StepOf, Holds, Encode, DecodesTo, InBounds, W;
    var symbols := Table(items, |items|);
    ImageAt(symbols, items, i, |items|);
    var k := WordsBefore(items, i);
    ItemDecodes(symbols, items[i], 4 * k);
    assert !items[i].Org?;
    LoadedWord(h.m, ImageOf(items), load, k);
    assert Emitted(symbols, items, i + 1).value[k] == ImageOf(items)[k];
    MachineFetch(h);
  }

  lemma MachineFetch(h: Bare)
    requires h.a.priv == 3
    ensures forall va: u32, acc :: h.Walked(va, acc) == h && Fresh(h.m, h.C(), va, acc) == Ok(va)
  {
    forall va: u32, acc: Access ensures h.Walked(va, acc) == h && Fresh(h.m, h.C(), va, acc) == Ok(va) {
      assert h.used + {} == h.used;
    }
  }

  /** Main result: `op rd, rs1, rs2`, assembled, loaded and executed, computes op. */
  lemma RegisterAssembled(op: Operation, items: seq<Item>, i: nat, load: u32, h: Bare, s: Setting)
    requires Reaches(items, i, load, h, s)
    requires items[i].RType? && items[i].opcode == 0x33 && (items[i].funct7, items[i].funct3) == Funct(op)
    ensures exists r: u32 :: Computes(op, h.x[items[i].rs1], h.x[items[i].rs2], r) &&
              StepOf(h, s) == (Execution.Then(h, items[i].rd, r, W(h.a.pc + 4)), Running)
  {
    hide DecodeOf, WordAt, StepOf, Computes, Reaches, Execution.Then, Execution.Runs, Execution.Fetched, W;
    WordReached(items, i, load, h, s);
    Execution.RegisterRuns(op, h, s, WordAt(h.m, h.a.pc));
  }

  /** The same with an immediate that fits. */
  lemma ImmediateAssembled(op: Operation, items: seq<Item>, i: nat, load: u32, h: Bare, s: Setting)
    requires Reaches(items, i, load, h, s)
    requires op in {Add, Slt, Sltu, Xor, Or, And}
    requires items[i].IType? && items[i].opcode == 0x13 && items[i].funct3 == Funct(op).1
    requires Resolve(Table(items, |items|), items[i].imm).Some? &&
             FitsSigned(Resolve(Table(items, |items|), items[i].imm).value, 0x1000)
    ensures var v := Resolve(Table(items, |items|), items[i].imm).value;
            exists r: u32 :: Computes(op, h.x[items[i].rs1], W(v), r) &&
              StepOf(h, s) == (Execution.Then(h, items[i].rd, r, W(h.a.pc + 4)), Running)
  {
    hide DecodeOf, WordAt, StepOf, Computes, Reaches, Execution.Then, Execution.Runs, Execution.Fetched, W, FitsSigned, Table;
    WordReached(items, i, load, h, s);
    Execution.ImmediateRuns(op, h, s, WordAt(h.m, h.a.pc));
  }

  /** Main result: a store and a load as assembled, in M-mode: the bytes are written at, or
      read from, the base register plus the offset. */
  lemma StoreAssembled(items: seq<Item>, i: nat, load: u32, h: Bare, s: Setting)
    requires Reaches(items, i, load, h, s) && items[i].SType? && items[i].opcode == 0x23 && items[i].funct3 in {0, 1, 2}
    requires Resolve(Table(items, |items|), items[i].imm).Some? &&
             FitsSigned(Resolve(Table(items, |items|), items[i].imm).value, 0x1000)
    ensures var pa := W(h.x[items[i].rs1] + Resolve(Table(items, |items|), items[i].imm).value);
            var (z, why) := StepOf(h, s);
            Execution.Ram(pa) && pa % Execution.Width(items[i].funct3) == 0 ==>
              && why == Running && Execution.Stores(items[i].funct3, h.m, z.m, pa, h.x[items[i].rs2])
              && z == Execution.Then(h.(m := z.m, stale := z.stale), 0, 0, W(h.a.pc + 4))
  {
    hide DecodeOf, WordAt, StepOf, Reaches, Execution.Then, Execution.Runs, Execution.Fetched, W, FitsSigned, Table, Fresh,
         Execution.Stores, After, Touched;
    WordReached(items, i, load, h, s);
    Execution.StoreRuns(h, s, WordAt(h.m, h.a.pc));
    Machine(items, i, load, h, s);
    MachineFetch(h);
  }

  lemma Machine(items: seq<Item>, i: nat, load: u32, h: Bare, s: Setting)
    requires Reaches(items, i, load, h, s)
    ensures h.Sized() && h.a.priv == 3
  {
  }

  lemma LoadAssembled(items: seq<Item>, i: nat, load: u32, h: Bare, s: Setting)
    requires Reaches(items, i, load, h, s) && items[i].IType? && items[i].opcode == 0x03 && items[i].funct3 in {0, 1, 2, 4, 5}
    requires Resolve(Table(items, |items|), items[i].imm).Some? &&
             FitsSigned(Resolve(Table(items, |items|), items[i].imm).value, 0x1000)
    ensures var pa := W(h.x[items[i].rs1] + Resolve(Table(items, |items|), items[i].imm).value);
            Execution.Ram(pa) && pa % Execution.Width(items[i].funct3) == 0 ==>
              exists r: u32 :: Execution.LoadsAs(items[i].funct3, h.m, pa, r)
                && StepOf(h, s) == (Execution.Then(h, items[i].rd, r, W(h.a.pc + 4)), Running)
  {
    hide DecodeOf, WordAt, StepOf, Reaches, Execution.Then, Execution.Runs, Execution.Fetched, W, FitsSigned, Table, Fresh,
         Execution.LoadsAs, After, Touched;
    WordReached(items, i, load, h, s);
    Execution.LoadRuns(h, s, WordAt(h.m, h.a.pc));
    Machine(items, i, load, h, s);
    MachineFetch(h);
  }
}
