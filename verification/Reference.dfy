/** The simulated hart without its caches: one step, and whole runs, as functions of flat
    memory, the registers and the CSRs.  Translations walk the tables every time and
    instructions are decoded every time. */
module Reference {
  import opened Words
  import Bits
  import opened FlatMemory
  import opened Sv32
  import opened Privileged
  import opened Isa

  datatype StopReason = Running | MaxSteps | Wfi | Breakpoint | Error

  /** What a load or a store comes to. */
  datatype Result = Done(value: u32) | Faulted(cause: int, vaddr: u32) | Illegal

  /** What executing one instruction comes to. */
  datatype Effect = Next(pc: u32) | Trapped(cause: int, vaddr: u32) | Halt(reason: StopReason)

  predicate TimerPending(steps: int, mtimecmp: u64) { mtimecmp != 0 && steps >= mtimecmp }

  /** Where the hart goes after a SYSTEM instruction that left pc at `now`. */
  function Redirect(was: u32, now: u32): u32 { if now != was then now else W(was + 4) }

  // ---------------------------------------------------------------- devices

  predicate InTimer(pa: u32) { 0x1001_0000 <= pa <= 0x1001_000F }

  predicate InUart(pa: u32) { 0x1000_0000 <= pa <= 0x1000_0007 }

  ghost function LoadAt(m: Flat, pa: u32, size: int, signed: bool, steps: int, mtimecmp: u64): (r: Result)
    ensures !r.Faulted?
  {
    if InUart(pa) then
      if size != 4 || pa % 4 != 0 then Illegal
      else if pa == 0x1000_0004 then Done(1) else Done(WordAt(m, pa))
    else if InTimer(pa) then
      if size != 4 || pa % 4 != 0 then Illegal
      else Done(if pa == 0x1001_0000 then W(steps)
                else if pa == 0x1001_0004 then W(steps / 0x1_0000_0000)
                else if pa == 0x1001_0008 then W(mtimecmp)
                else W(mtimecmp / 0x1_0000_0000))
    else if size == 1 then Done(if signed then W(Sext(ByteAt(m, pa), 0x100)) else ByteAt(m, pa))
    else if size == 2 then
      if pa % 2 != 0 then Illegal
      else Done(if signed then W(Sext(HalfAt(m, pa), 0x1_0000)) else HalfAt(m, pa))
    else if pa % 4 != 0 then Illegal
    else Done(WordAt(m, pa))
  }

  predicate StoreAligned(pa: u32, size: int) {
    (size == 2 ==> pa % 2 == 0) && (size == 4 ==> pa % 4 == 0)
  }

  ghost function StoreAt(m: Flat, pa: u32, size: int, value: int): Flat {
    if !StoreAligned(pa, size) then m
    else if size == 1 then WithByte(m, pa, value)
    else if size == 2 then WithHalf(m, pa, value)
    else if InTimer(pa) then m
    else WithWord(m, pa, value)
  }

  function TimerAt(t: u64, pa: u32, size: int, value: int): u64 {
    if size == 4 && pa == 0x1001_0008 then t / 0x1_0000_0000 * 0x1_0000_0000 + W(value)
    else if size == 4 && pa == 0x1001_000C then W(value) * 0x1_0000_0000 + t % 0x1_0000_0000
    else t
  }

  function AccessSize(funct3: int): int {
    if funct3 % 4 == 0 then 1 else if funct3 % 4 == 1 then 2 else 4
  }

  predicate RegisterOnly(opcode: int) { opcode in {0x37, 0x17, 0x6F, 0x67, 0x63, 0x13, 0x33, 0x0F} }

  /** A step advances time by one, or, from WFI, to the timer deadline or the end of
      the run, whichever is first. */
  predicate StepsMoved(was: int, now: int, runMax: Option<nat>, mtimecmp: u64) {
    was < now && (now == was + 1 || now == if runMax.Some? then Min(mtimecmp, runMax.value) else mtimecmp)
  }

  function AmoStores(funct5: int, was: u32, value: u32): Option<int> {
    if funct5 == 3 then Some(value) else Amo(funct5, was, value)
  }

  /** What csrrw, csrrs and csrrc (and their immediate forms) write. */
  function CsrNew(funct3: int, was: u32, source: u32): u32 {
    if funct3 % 4 == 1 then source
    else if funct3 % 4 == 2 then Or(was, source)
    else And(was, 0xFFFF_FFFF - source)
  }


  // ---------------------------------------------------------------- the hart's state

  /** What a step depends on and does not change. */
  datatype Setting = Setting(runMax: Option<nat>, external: bool, stopOnWfi: bool)

  /** `used` collects the table entries that translations have gone through since the
      last flush, and `stale` says that one of them was changed since, beyond setting A or
      D. */
  datatype Bare = Bare(
    m: Flat, a: Arch, x: seq<u32>, steps: nat, mtimecmp: u64, used: set<u32>, stale: bool)
  {
    predicate Sized() { |x| == 32 }

    function C(): Regime { Regime(a.Csr(SATP), a.Csr(SSTATUS), a.priv) }

    predicate Timer() { TimerPending(steps, mtimecmp) }

    ghost function Walked(va: u32, acc: Access): Bare {
      this.(m := After(m, C(), va, acc), used := used + Touched(m, C(), va, acc))
    }

    function PutCsr(csr: int, v: int): Bare {
      var h := this.(a := a.Put(csr, v));
      if Flushes(csr) then h.Flushed() else h
    }

    function Flushed(): Bare { this.(used := {}, stale := false) }

    function Trapped(cause: int, tval: int, interrupt: bool): Bare {
      this.(a := Privileged.Trap(a, cause, tval, interrupt)).Flushed()
    }

    function SetReg(rd: int, v: int): Bare
      requires Sized() && 0 <= rd < 32
    {
      if rd == 0 then this else this.(x := x[rd := W(v)])
    }
  }

  /** The entries a completed translation went through. */
  ghost function Touched(m: Flat, c: Regime, va: u32, acc: Access): set<u32> {
    if Active(c) && Fresh(m, c, va, acc).Ok? then Reads(m, c.satp, va) else {}
  }

  function PendingBits(timer: bool, external: bool, timerBit: int, externalBits: int): u32
    requires 0 <= timerBit && 0 <= externalBits && timerBit + externalBits < 0x1_0000_0000
  {
    (if timer then timerBit else 0) + (if external then externalBits else 0)
  }

  /** `csr_read`: the counters and the pending bits are live. */
  function CsrValue(a: Arch, steps: nat, timer: bool, external: bool, csr: int): u32 {
    if csr in {0xC00, 0xB00, 0xC01, 0xC02, 0xB02} then W(steps)
    else if csr in {0xC80, 0xB80, 0xC81, 0xC82, 0xB82} then W(steps / 0x1_0000_0000)
    else if csr == MIP then Or(a.Csr(MIP), PendingBits(timer, external, 0x80, 0xA00))
    else if csr == SIP then And(Or(a.Csr(SIP), PendingBits(timer, external, 0x20, 0x200)), a.Csr(MIDELEG))
    else a.Csr(csr)
  }

  /** The step count at which WFI resumes. */
  function Slept(a: Arch, steps: nat, mtimecmp: u64, s: Setting): nat {
    var enabled := if a.priv <= 1 then Bit(a.Csr(MIDELEG), 0x20) && Bit(a.Csr(SIE), 0x20) else Bit(a.Csr(MIE), 0x80);
    var target: int := if s.runMax.Some? then Min(mtimecmp, s.runMax.value) else mtimecmp;
    if mtimecmp == 0 || steps >= mtimecmp || s.external || !enabled || target <= steps + 1 then steps
    else target - 1
  }

  /** The timer interrupt is enabled by its own bits: number 5 below M-mode, 7 in it. */
  predicate TimerEnabled(a: Arch) {
    if a.priv <= 1 then Bits.BitAt(a.Csr(MIDELEG), 5) && Bits.BitAt(a.Csr(SIE), 5) else Bits.BitAt(a.Csr(MIE), 7)
  }

  /** The hart sleeps exactly when a deadline is set and more than one step ahead, as is the
      end of the run, its interrupt is enabled, and the other line is quiet.  It lands one
      step before the deadline or the end, skips no step at which an interrupt would have
      been taken, and the deadline is then due. */
  lemma SleepIsSafe(a: Arch, steps: nat, mtimecmp: u64, s: Setting)
    ensures Slept(a, steps, mtimecmp, s) != steps <==>
              && mtimecmp > steps + 1 && (s.runMax.Some? ==> s.runMax.value > steps + 1)
              && TimerEnabled(a) && !s.external
    ensures s.runMax == None ==> TimerPending(Slept(a, steps, mtimecmp, s) + 1, mtimecmp) ||
                                 Slept(a, steps, mtimecmp, s) == steps
    ensures var z := Slept(a, steps, mtimecmp, s);
            && z >= steps
            && (z != steps ==> z + 1 == if s.runMax.Some? then Min(mtimecmp, s.runMax.value) else mtimecmp)
            && (z != steps ==> forall t :: steps <= t <= z ==> Interrupt(a, TimerPending(t, mtimecmp), s.external) == None)
  {
    Bits.Pow2Values();
    hide Bits.Pow2;
  }

  // ---------------------------------------------------------------- instructions

  predicate Bounded(d: Decoded) { 0 <= d.rd < 32 && 0 <= d.rs1 < 32 && 0 <= d.rs2 < 32 && 0 <= d.funct3 < 8 }

  function Written(h: Bare, d: Decoded, v: Option<u32>): (Bare, Effect)
    requires h.Sized() && Bounded(d)
  {
    if v.None? then (h, Halt(Error)) else (h.(x := h.x[d.rd := v.value]), Next(W(h.a.pc + 4)))
  }

  /** Instructions that touch nothing but the registers and the next pc. */
  function RegisterStep(h: Bare, d: Decoded): (Bare, Effect)
    requires h.Sized() && Bounded(d)
  {
    var pc, v1, v2 := h.a.pc, h.x[d.rs1], h.x[d.rs2];
    if d.opcode == 0x37 then Written(h, d, Some(d.immU))
    else if d.opcode == 0x17 then Written(h, d, Some(W(pc + d.immU)))
    else if d.opcode == 0x6F then (h.(x := h.x[d.rd := W(pc + 4)]), Next(W(pc + d.immJ)))
    else if d.opcode == 0x67 then (h.(x := h.x[d.rd := W(pc + 4)]), Next(W((v1 + d.immI) / 2 * 2)))
    else if d.opcode == 0x63 then
      var taken := Taken(d.funct3, v1, v2);
      (h, if taken.None? then Halt(Error) else Next(W(pc + if taken.value then d.immB else 4)))
    else if d.opcode == 0x13 then Written(h, d, OpImm(d, v1))
    else if d.opcode == 0x33 then Written(h, d, Op(d, v1, v2))
    else (h, Next(W(pc + 4)))
  }

  /** A load of the given size at a virtual address, and the value or why there is none. */
  ghost function Loaded(h: Bare, va: u32, size: int, signed: bool): (Bare, Result) {
    match Fresh(h.m, h.C(), va, Access.Load)
    case PageFault(cause, v) => (h.Walked(va, Access.Load), Faulted(cause, v))
    case Ok(pa) =>
      var g := h.Walked(va, Access.Load);
      (g, LoadAt(g.m, pa, size, signed, h.steps, h.mtimecmp))
  }

  ghost function StoredBy(h: Bare, va: u32, size: int, value: int): (Bare, Result) {
    match Fresh(h.m, h.C(), va, Access.Store)
    case PageFault(cause, v) => (h.Walked(va, Access.Store), Faulted(cause, v))
    case Ok(pa) =>
      var g := h.Walked(va, Access.Store);
      var n := StoreAt(g.m, pa, size, value);
      (g.(m := n, mtimecmp := TimerAt(h.mtimecmp, pa, size, value), stale := g.stale || !Kept(g.m, n, g.used)),
       if StoreAligned(pa, size) then Done(0) else Illegal)
  }

  /** Continues where the access was done; otherwise the instruction ends there. */
  function Finish(h: Bare, r: Result, done: Bare): (Bare, Effect) {
    match r
    case Done(_) => (done, Next(W(h.a.pc + 4)))
    case Faulted(cause, va) => (h, Effect.Trapped(cause, va))
    case Illegal => (h, Halt(Error))
  }

  ghost function LoadStep(h: Bare, d: Decoded): (Bare, Effect)
    requires h.Sized() && Bounded(d)
  {
    if d.funct3 !in {0, 1, 2, 4, 5} then (h, Halt(Error))
    else
      var (g, r) := Loaded(h, W(h.x[d.rs1] + d.immI), AccessSize(d.funct3), d.funct3 < 2);
      Finish(g, r, if r.Done? then g.(x := h.x[d.rd := r.value]) else g)
  }

  ghost function StoreStep(h: Bare, d: Decoded): (Bare, Effect)
    requires h.Sized() && Bounded(d)
  {
    if d.funct3 !in {0, 1, 2} then (h, Halt(Error))
    else
      var (g, r) := StoredBy(h, W(h.x[d.rs1] + d.immS), AccessSize(d.funct3), h.x[d.rs2]);
      Finish(g, r, g)
  }

  /** A load, an operation and a store, each translated on its own. */
  ghost function AmoStep(h: Bare, d: Decoded): (Bare, Effect)
    requires h.Sized() && Bounded(d)
  {
    if d.funct3 != 2 then (h, Halt(Error))
    else
      var (g, r) := Loaded(h, h.x[d.rs1], 4, false);
      if !r.Done? then Finish(g, r, g)
      else if d.funct5 == 2 then Finish(g, r, g.SetReg(d.rd, r.value))
      else
        var v := AmoStores(d.funct5, r.value, h.x[d.rs2]);
        if v.None? then (g, Halt(Error))
        else
          var (k, q) := StoredBy(g, h.x[d.rs1], 4, v.value);
          Finish(k, q, k.SetReg(d.rd, if d.funct5 == 3 then 0 else r.value))
  }

  /** Loads, stores and AMOs. */
  ghost function MemoryStep(h: Bare, d: Decoded): (Bare, Effect)
    requires h.Sized() && Bounded(d)
  {
    if d.opcode == 0x03 then LoadStep(h, d) else if d.opcode == 0x23 then StoreStep(h, d) else AmoStep(h, d)
  }

  function CsrStep(h: Bare, s: Setting, d: Decoded): Bare
    requires h.Sized() && Bounded(d)
  {
    var was := CsrValue(h.a, h.steps, h.Timer(), s.external, d.csr);
    var source: u32 := if d.funct3 < 4 then h.x[d.rs1] else d.rs1;
    var g := if d.funct3 % 4 != 1 && d.rs1 == 0 then h else h.PutCsr(d.csr, CsrNew(d.funct3, was, source));
    g.SetReg(d.rd, was)
  }

  /** SYSTEM instructions that name no CSR. */
  function PrivilegedStep(h: Bare, s: Setting, inst: u32): Bare {
    if inst == 0x73 then h.Trapped(if h.a.priv == 0 then 8 else if h.a.priv == 1 then 9 else 11, 0, false)
    else if inst == 0x10_0073 then h.Trapped(3, 0, false)
    else if inst == 0x3020_0073 then h.(a := Mret(h.a)).Flushed()
    else if inst == 0x1020_0073 then h.(a := Sret(h.a)).Flushed()
    else if inst == 0x1050_0073 then h.(steps := Slept(h.a, h.steps, h.mtimecmp, s))
    else if inst / 0x200_0000 == 9 && inst % 0x8000 == 0x73 then h.Flushed()
    else h
  }

  /** SYSTEM instructions.  A trap or a return has moved pc when the next pc is chosen. */
  function SystemStep(h: Bare, s: Setting, inst: u32, d: Decoded): (Bare, Effect)
    requires h.Sized() && Bounded(d)
  {
    if d.funct3 == 4 || (d.funct3 == 0 && inst == 0x1050_0073 && s.stopOnWfi) then
      (h, Halt(if d.funct3 == 4 then Error else Wfi))
    else
      var g := if d.funct3 != 0 then CsrStep(h, s, d) else PrivilegedStep(h, s, inst);
      (g, Next(Redirect(h.a.pc, g.a.pc)))
  }

  ghost function Executed(h: Bare, s: Setting, inst: u32): (Bare, Effect)
    requires h.Sized()
  {
    var d := DecodeOf(inst);
    if RegisterOnly(d.opcode) then RegisterStep(h, d)
    else if d.opcode in {0x03, 0x23, 0x2F} then MemoryStep(h, d)
    else if d.opcode == 0x73 then SystemStep(h, s, inst, d)
    else (h, Halt(Error))
  }

  // ---------------------------------------------------------------- steps and runs

  function Committed(h: Bare, r: Effect): (Bare, StopReason)
    requires h.Sized()
  {
    match r
    case Trapped(cause, va) =>
      var g := h.Trapped(cause, va, false);
      (g.(steps := h.steps + 1), Running)
    case Halt(why) => (h, why)
    case Next(next) => (h.(a := h.a.(pc := next), x := h.x[0 := 0], steps := h.steps + 1), Running)
  }

  /** Fetching, executing and committing one instruction. */
  ghost function InstructionOf(h: Bare, s: Setting): (Bare, StopReason)
    requires h.Sized()
  {
    var g := h.Walked(h.a.pc, Fetch);
    match Fresh(h.m, h.C(), h.a.pc, Fetch)
    case PageFault(cause, va) => Committed(g, Effect.Trapped(cause, va))
    case Ok(pa) =>
      ExecutedSized(g, s, WordAt(g.m, pa));
      var (k, r) := Executed(g, s, WordAt(g.m, pa));
      Committed(k, r)
  }

  ghost function StepOf(h: Bare, s: Setting): (Bare, StopReason)
    requires h.Sized()
  {
    var due := Interrupt(h.a, h.Timer(), s.external);
    if due.Some? then (h.Trapped(due.value, 0, true).(steps := h.steps + 1), Running)
    else InstructionOf(h, s)
  }

  lemma ExecutedSized(h: Bare, s: Setting, inst: u32)
    requires h.Sized()
    ensures Executed(h, s, inst).0.Sized()
  {
    hide DecodeOf, OpImm, Op, Taken, Fresh, After, WordAt, LoadAt, StoreAt, W;
  }

  // ---------------------------------------------------------------- redirects

  /** ecall, ebreak, mret and sret. */
  predicate Redirects(inst: u32) { inst in {0x73, 0x10_0073, 0x3020_0073, 0x1020_0073} }

  /** The trap or the return that such an instruction asks for. */
  function Redirected(a: Arch, inst: u32): Arch
    requires Redirects(inst)
  {
    if inst == 0x73 then Privileged.Trap(a, if a.priv == 0 then 8 else if a.priv == 1 then 9 else 11, 0, false)
    else if inst == 0x10_0073 then Privileged.Trap(a, 3, 0, false)
    else if inst == 0x3020_0073 then Mret(a)
    else Sret(a)
  }

  /** The next step fetches and executes this word. */
  ghost predicate Fetches(h: Bare, s: Setting, inst: u32) {
    && h.Sized() && Interrupt(h.a, h.Timer(), s.external) == None
    && var t := Fresh(h.m, h.C(), h.a.pc, Fetch);
       t.Ok? && WordAt(h.Walked(h.a.pc, Fetch).m, t.pa) == inst
  }

  lemma RedirectWord(inst: u32)
    requires Redirects(inst)
    ensures DecodeOf(inst).opcode == 0x73 && DecodeOf(inst).funct3 == 0
  {
    hide DecodeOf;
    ClassOf(inst);
  }

  lemma ClassOf(inst: u32)
    ensures DecodeOf(inst).opcode == inst % 0x80 && DecodeOf(inst).funct3 == inst / 0x1000 % 8
  {
    hide Sext;
  }

  lemma RedirectExecutes(h: Bare, s: Setting, inst: u32)
    requires Redirects(inst) && h.Sized()
    ensures var (z, r) := Executed(h, s, inst);
            && z.Sized() && z.a == Redirected(h.a, inst)
            && r == Next(Redirect(h.a.pc, Redirected(h.a, inst).pc))
  {
    hide DecodeOf, Privileged.Trap, Mret, Sret, LoadStep, StoreStep, AmoStep, RegisterStep, MemoryStep, CsrStep,
         Redirect, Sext;
    RedirectWord(inst);
  }

  lemma RedirectedPc(was: u32, now: u32)
    ensures Redirect(was, now) == now <==> now != was
    ensures Redirect(was, now) == if now == was then W(was + 4) else now
  {
    var pc: int := was;
    assert W(pc + 4) == if pc + 4 < 0x1_0000_0000 then pc + 4 else pc + 4 - 0x1_0000_0000;
  }

  /** A trap or return made by an instruction reaches its target if and only if the target is
      not the instruction itself; privilege and CSRs change as it says in either case. */
  lemma RedirectReaches(h: Bare, s: Setting, inst: u32)
    requires Redirects(inst) && Fetches(h, s, inst)
    ensures var (z, why) := StepOf(h, s);
            var target := Redirected(h.a, inst);
            && why == Running
            && (z.a.pc == target.pc <==> target.pc != h.a.pc)
            && z.a == target.(pc := if target.pc == h.a.pc then W(h.a.pc + 4) else target.pc)
  {
    hide Interrupt, WordAt, Fresh, After, Touched, Executed, Redirected, Redirect, W;
    RedirectExecutes(h.Walked(h.a.pc, Fetch), s, inst);
    RedirectedPc(h.a.pc, Redirected(h.a, inst).pc);
  }

  /** A page fault inside an instruction, a load, a store or either half of an AMO, leaves
      the registers and the CSRs as they were. */
  lemma FaultKeepsRegisters(h: Bare, s: Setting, inst: u32)
    requires h.Sized() && Executed(h, s, inst).1.Trapped?
    ensures Executed(h, s, inst).0.x == h.x && Executed(h, s, inst).0.a == h.a
    ensures Executed(h, s, inst).0.steps == h.steps && Executed(h, s, inst).0.mtimecmp == h.mtimecmp
    ensures DecodeOf(inst).opcode in {0x03, 0x23, 0x2F}
  {
    hide DecodeOf, OpImm, Op, Taken, Fresh, After, WordAt, LoadAt, StoreAt, TimerAt, W;
  }

  /** x0 reads as zero at every step boundary. */
  lemma ZeroStaysZero(h: Bare, s: Setting)
    requires h.Sized() && h.x[0] == 0
    ensures StepOf(h, s).0.Sized() && StepOf(h, s).0.x[0] == 0
  {
    hide DecodeOf, Fresh, After, WordAt, W, Privileged.Trap, Interrupt, Executed, Touched;
    StepTakesTime(h, s);
    if Fresh(h.m, h.C(), h.a.pc, Fetch).Ok? {
      var g := h.Walked(h.a.pc, Fetch);
      var inst := WordAt(g.m, Fresh(h.m, h.C(), h.a.pc, Fetch).pa);
      UnfinishedKeepsRegisters(g, s, inst);
    }
  }

  lemma UnfinishedKeepsRegisters(h: Bare, s: Setting, inst: u32)
    requires h.Sized()
    ensures Executed(h, s, inst).0.Sized() && (!Executed(h, s, inst).1.Next? ==> Executed(h, s, inst).0.x == h.x)
  {
    hide DecodeOf, OpImm, Op, Taken, Fresh, After, WordAt, LoadAt, StoreAt, TimerAt, W;
  }

  /** Every step that goes on takes time. */
  lemma StepTakesTime(h: Bare, s: Setting)
    requires h.Sized()
    ensures var (k, why) := StepOf(h, s); k.Sized() && (why == Running ==> k.steps > h.steps)
  {
    hide DecodeOf, OpImm, Op, Taken, Fresh, After, WordAt, LoadAt, StoreAt, W, Privileged.Trap, Interrupt, Executed;
    if Fresh(h.m, h.C(), h.a.pc, Fetch).Ok? {
      var g := h.Walked(h.a.pc, Fetch);
      ExecutedTakesTime(g, s, WordAt(g.m, Fresh(h.m, h.C(), h.a.pc, Fetch).pa));
    }
  }

  lemma ExecutedTakesTime(h: Bare, s: Setting, inst: u32)
    requires h.Sized()
    ensures Executed(h, s, inst).0.Sized() && Executed(h, s, inst).0.steps >= h.steps
    ensures Executed(h, s, inst).1.Halt? ==> Executed(h, s, inst).1.reason in {Wfi, Error}
  {
    hide DecodeOf, OpImm, Op, Taken, Fresh, After, WordAt, LoadAt, StoreAt, TimerAt, W, Slept, CsrValue, CsrNew,
         AmoStores,
         Privileged.Trap, Mret, Sret, Redirect, Kept, Touched, Reads, Privileged.Arch.Put;
    SleepIsSafe(h.a, h.steps, h.mtimecmp, s);
  }

  /** Steps up to the limit, a breakpoint, WFI or an error. */
  ghost function RunOf(h: Bare, s: Setting, max: nat, stop: Option<u32>): (Bare, StopReason)
    requires h.Sized()
    decreases max - h.steps
  {
    if h.steps >= max then (h, MaxSteps)
    else if stop == Some(h.a.pc) then (h, Breakpoint)
    else
      StepTakesTime(h, s);
      var (k, why) := StepOf(h, s);
      if why != Running then (k, why) else RunOf(k, s, max, stop)
  }

  /** The fetch, or a load or store of the instruction, takes a page fault. */
  ghost predicate StepFaults(h: Bare, s: Setting)
    requires h.Sized()
  {
    Interrupt(h.a, h.Timer(), s.external) == None && InstructionFaults(h, s)
  }

  ghost predicate InstructionFaults(h: Bare, s: Setting)
    requires h.Sized()
  {
    match Fresh(h.m, h.C(), h.a.pc, Fetch)
    case PageFault(_, _) => true
    case Ok(pa) =>
      var g := h.Walked(h.a.pc, Fetch);
      Executed(g, s, WordAt(g.m, pa)).1.Trapped?
  }

  /** A step the TLBs cannot spoil: no entry in use is stale and, in the reserved privilege,
      no translation of the step is refused. */
  ghost predicate Tame(h: Bare, s: Setting)
    requires h.Sized()
  {
    !h.stale && (h.a.priv == 2 ==> !StepFaults(h, s))
  }

  /** Every step of the run is tame. */
  ghost predicate Disciplined(h: Bare, s: Setting, max: nat, stop: Option<u32>)
    requires h.Sized()
    decreases max - h.steps
  {
    h.steps < max && stop != Some(h.a.pc) ==>
      && Tame(h, s)
      && (StepTakesTime(h, s);
          var (k, why) := StepOf(h, s);
          why == Running ==> Disciplined(k, s, max, stop))
  }

  lemma RunStops(h: Bare, s: Setting, max: nat, stop: Option<u32>)
    requires h.Sized()
    ensures h.steps >= max ==> RunOf(h, s, max, stop) == (h, MaxSteps)
    ensures h.steps < max && stop == Some(h.a.pc) ==> RunOf(h, s, max, stop) == (h, Breakpoint)
  {
    hide StepOf;
  }

  /** A disciplined run goes on from its first step. */
  lemma RunSteps(h: Bare, s: Setting, max: nat, stop: Option<u32>)
    requires h.Sized() && h.steps < max && stop != Some(h.a.pc) && Disciplined(h, s, max, stop)
    ensures Tame(h, s)
    ensures var (k, why) := StepOf(h, s);
            && k.Sized()
            && (if why == Running then Disciplined(k, s, max, stop) && RunOf(k, s, max, stop) == RunOf(h, s, max, stop)
                else RunOf(h, s, max, stop) == (k, why))
  {
    hide StepOf;
    StepTakesTime(h, s);
  }
}
