/** From a source program to a running hart: what the assembler encodes, the packer wraps
    and the loader places is what the hart fetches, decodes and follows. */
module Toolchain {
  import opened Words
  import opened FlatMemory
  import opened Sv32
  import opened Privileged
  import opened Isa
  import opened Encoding
  import opened Reference
  import opened Assembler
  import Elf

  /** The image of a program. */
  function ImageOf(items: seq<Item>): seq<u32>
    requires Emitted(Table(items, |items|), items, |items|).Some?
  {
    Emitted(Table(items, |items|), items, |items|).value
  }

  /** How many words stand before item i. */
  function WordsBefore(items: seq<Item>, i: nat): nat
    requires i <= |items|
  {
    var e := Emitted(Table(items, |items|), items, i);
    if e.Some? then |e.value| else 0
  }

  ghost predicate Assembles(items: seq<Item>) {
    && Distinct(items) && (forall i :: 0 <= i < |items| ==> Agrees(items[i]))
    && Layout(items, |items|).Some? && Emitted(Table(items, |items|), items, |items|).Some?
  }

  /** The hart's memory after the simulator has loaded the packed image at `load`. */
  ghost predicate Holds(m: Flat, image: seq<u32>, load: u32) {
    && load + 4 * |image| <= 0x1_0000_0000 && 4 * |image| < 0x1_0000_0000
    && exists ram: Flat, entry: u32 ::
         && Elf.Parsed(Elf.FileOf(image, load, entry)).Image?
         && |Elf.Parsed(Elf.FileOf(image, load, entry)).segments| == 1
         && var g := Elf.Parsed(Elf.FileOf(image, load, entry)).segments[0];
            m == WithBytes(ram, g.addr, g.data)
  }

  /** At a word of the image, in M-mode, with no interrupt due. */
  predicate At(h: Bare, s: Setting, load: u32, k: nat) {
    && h.Sized() && h.x[0] == 0 && h.a.priv == 3 && h.a.pc == load + 4 * k
    && Interrupt(h.a, h.Timer(), s.external) == None
  }

  /** Word k of the image is in memory at load + 4k. */
  lemma LoadedWord(m: Flat, image: seq<u32>, load: u32, k: nat)
    requires Holds(m, image, load) && k < |image|
    ensures WordAt(m, load + 4 * k) == image[k]
  {
    hide WordAt, WithBytes, Elf.Parsed, Elf.FileOf, Elf.TextOf;
    var ram: Flat, entry: u32 :|
      && Elf.Parsed(Elf.FileOf(image, load, entry)).Image?
      && |Elf.Parsed(Elf.FileOf(image, load, entry)).segments| == 1
      && var g := Elf.Parsed(Elf.FileOf(image, load, entry)).segments[0];
         m == WithBytes(ram, g.addr, g.data);
    Elf.SimulatorAccepts(image, load, entry);
    Elf.WordsInMemory(ram, image, load);
    WId(image[k]);
  }

  /** In M-mode a step executes the word at pc. */
  lemma MachineStep(h: Bare, s: Setting, inst: u32)
    requires h.Sized() && h.a.priv == 3 && Interrupt(h.a, h.Timer(), s.external) == None
    requires inst == WordAt(h.m, h.a.pc)
    ensures Executed(h, s, inst).0.Sized()
    ensures StepOf(h, s) == Committed(Executed(h, s, inst).0, Executed(h, s, inst).1)
  {
    hide WordAt, Interrupt, Executed, Committed;
    var g := h.Walked(h.a.pc, Fetch);
    assert g.m == h.m && g == h;
    ExecutedSized(h, s, inst);
  }

  lemma BranchExecutes(h: Bare, s: Setting, inst: u32)
    requires h.Sized() && h.x[0] == 0 && h.a.priv == 3 && Interrupt(h.a, h.Timer(), s.external) == None
    requires inst == WordAt(h.m, h.a.pc) && DecodeOf(inst).opcode == 0x63
    requires Taken(DecodeOf(inst).funct3, h.x[DecodeOf(inst).rs1], h.x[DecodeOf(inst).rs2]) == Some(true)
    ensures StepOf(h, s) == (h.(a := h.a.(pc := W(h.a.pc + DecodeOf(inst).immB)), steps := h.steps + 1), Running)
  {
    hide DecodeOf, WordAt, Interrupt, StepOf, Taken, W, LoadStep, StoreStep, AmoStep, SystemStep;
    MachineStep(h, s, inst);
    assert h.x[0 := 0] == h.x;
  }

  lemma JumpExecutes(h: Bare, s: Setting, inst: u32)
    requires h.Sized() && h.x[0] == 0 && h.a.priv == 3 && Interrupt(h.a, h.Timer(), s.external) == None
    requires inst == WordAt(h.m, h.a.pc) && DecodeOf(inst).opcode == 0x6F
    ensures StepOf(h, s) ==
              (h.(a := h.a.(pc := W(h.a.pc + DecodeOf(inst).immJ)), x := Linked(h, DecodeOf(inst).rd), steps := h.steps + 1),
               Running)
  {
    hide DecodeOf, WordAt, Interrupt, StepOf, Taken, W, LoadStep, StoreStep, AmoStep, SystemStep;
    MachineStep(h, s, inst);
    var d := DecodeOf(inst);
    assert h.x[d.rd := W(h.a.pc + 4)][0 := 0] == Linked(h, d.rd);
  }

  /** The registers with the return address in rd. */
  function Linked(h: Bare, rd: int): seq<u32>
    requires h.Sized() && 0 <= rd < 32
  {
    if rd == 0 then h.x else h.x[rd := W(h.a.pc + 4)]
  }

  /** The label a branch names, and its second register: the branches against zero use x0. */
  predicate BranchTo(item: Item, name: string) {
    || (item.Branch? && item.target == Name(name) && InRange(0, item.rs2, item.rs1, item.funct3, 0, 0x63))
    || (item.BranchBy? && item.offset == Name(name) && InRange(0, 0, item.rs1, item.funct3, 0, 0x63))
  }

  function Other(item: Item): int
    requires item.Branch? || item.BranchBy?
  {
    if item.Branch? then item.rs2 else 0
  }

  /** Main result: a taken branch to a label, of either kind, assembled, packed, loaded at any
      address and executed, lands where that label's words begin, whenever it is in reach. */
  lemma BranchReachesLabel(items: seq<Item>, b: nat, l: nat, load: u32, h: Bare, s: Setting)
    requires Assembles(items)
    requires b < |items| && l < |items| && items[l].Label? && BranchTo(items[b], items[l].name)
    requires Holds(h.m, ImageOf(items), load)
    requires FitsSigned(4 * WordsBefore(items, l) - 4 * WordsBefore(items, b), 0x2000)
    requires At(h, s, load, WordsBefore(items, b))
    requires Taken(items[b].funct3, h.x[items[b].rs1], h.x[Other(items[b])]) == Some(true)
    ensures StepOf(h, s) ==
              (h.(a := h.a.(pc := W(load + 4 * WordsBefore(items, l))), steps := h.steps + 1), Running)
  {
    hide DecodeOf, WordAt, Interrupt, Layout, Emitted, Table, Agrees, Taken, StepOf, Holds, FitsSigned, W;
    var k: int, target: int := WordsBefore(items, b), WordsBefore(items, l);
    if items[b].Branch? {
      BranchLands(items, b, l);
    } else {
      BranchByLands(items, b, l);
    }
    var inst := ImageOf(items)[k];
    LoadedWord(h.m, ImageOf(items), load, k);
    BranchExecutes(h, s, inst);
    assert h.a.pc + DecodeOf(inst).immB == load + 4 * target;
  }

  /** The same for jumps, which also link. */
  lemma JumpReachesLabel(items: seq<Item>, j: nat, l: nat, load: u32, h: Bare, s: Setting)
    requires Assembles(items)
    requires j < |items| && items[j].Jump? && l < |items| && items[l].Label?
    requires items[j].offset == Name(items[l].name) && 0 <= items[j].rd < 0x20
    requires Holds(h.m, ImageOf(items), load)
    requires FitsSigned(4 * WordsBefore(items, l) - 4 * WordsBefore(items, j), 0x20_0000)
    requires At(h, s, load, WordsBefore(items, j))
    ensures StepOf(h, s) ==
              (h.(a := h.a.(pc := W(load + 4 * WordsBefore(items, l))), x := Linked(h, items[j].rd), steps := h.steps + 1),
               Running)
  {
    hide DecodeOf, WordAt, Interrupt, Layout, Emitted, Table, Agrees, StepOf, Holds, FitsSigned, W, Linked;
    var k: int, target: int := WordsBefore(items, j), WordsBefore(items, l);
    JumpLands(items, j, l);
    var inst := ImageOf(items)[k];
    LoadedWord(h.m, ImageOf(items), load, k);
    JumpExecutes(h, s, inst);
    assert h.a.pc + DecodeOf(inst).immJ == load + 4 * target;
  }
}
