/** Runs of the simulated hart, from reset, on which it departs from what its callers would
    expect: each is a concrete input of a condition that is stated exactly elsewhere. */
module Departures {
  import opened Words
  import opened FlatMemory
  import opened PagedMemory
  import opened Sv32
  import opened Tlb
  import opened Privileged
  import opened Isa
  import opened Reference
  import opened Cpu

  // ---------------------------------------------------------------- a redirect lost

  lemma ResetTrap()
    ensures var t := Privileged.Trap(Arch(0, 3, RESET_CSRS), 11, 0, false);
            t.pc == 0 && t.priv == 3 && t.Csr(MCAUSE) == 11 && t.Csr(MEPC) == 0 && t.Csr(MTVEC) == 0
  {
    hide EnterM;
  }

  /** One step from reset, on the machine without caches. */
  lemma EcallFromReset(m: Flat, s: Setting)
    requires WordAt(m, 0) == 0x73
    ensures var h := Bare(m, Arch(0, 3, RESET_CSRS), seq(32, _ => 0), 0, 0, {}, false);
            var (z, why) := StepOf(h, s);
            why == Running && z.a == Privileged.Trap(h.a, 11, 0, false).(pc := 4)
  {
    hide DecodeOf, WordAt, StepOf, Privileged.Trap;
    var h := Bare(m, Arch(0, 3, RESET_CSRS), seq(32, _ => 0), 0, 0, {}, false);
    NotInterrupted(h.a, s);
    assert Fetches(h, s, 0x73) by { Untranslated(h); }
    RedirectReaches(h, s, 0x73);
    ResetTrap();
  }

  lemma NotInterrupted(a: Arch, s: Setting)
    requires a == Arch(0, 3, RESET_CSRS)
    ensures Interrupt(a, false, s.external) == None
  {
    assert a.Csr(MSTATUS) == 0x1800;
  }

  lemma Untranslated(h: Bare)
    requires h.a.priv == 3
    ensures Fresh(h.m, h.C(), h.a.pc, Fetch) == Ok(h.a.pc) && h.Walked(h.a.pc, Fetch).m == h.m
  {
  }

  /** An ecall at address 0, run from reset: the trap vector is the ecall itself, so the
      trap is recorded but the hart goes on behind it. */
  method EcallAtItsOwnVector() returns (c: Cpu)
    ensures c.pc == 4 && c.priv == 3
    ensures c.State().Csr(MCAUSE) == 11 && c.State().Csr(MEPC) == 0 && c.State().Csr(MTVEC) == 0
  {
    hide WordAt, WithWord, StepOf, Memory.View, Memory.Valid, Cpu.Slots, Cpu.Decoding, Cpu.UsedAligned, Cpu.Shadows,
         Cpu.Backed,
         Privileged.Trap, StepFaults, CsrIn, Cpu.PendingInterrupt, StepsMoved;
    var mem := new Memory();
    mem.WriteU32(0, 0x73);
    WordOfWithWord(Zeroes(), 0, 0x73);
    c := new Cpu(mem, false);
    EcallFromReset(mem.View(), c.Env());
    ResetTrap();
    var _, _ := c.Step();
  }

  // ---------------------------------------------------------------- a wrong answer

  const EXECUTE_ONLY := Regime(0x8000_0001, 0, 2)

  /** The tables of the example: one superpage at 0, valid and executable and nothing else. */
  lemma ExecuteOnly(m: Flat)
    requires WordAt(m, 0x1000) == 9
    ensures Active(EXECUTE_ONLY) && LeafOf(m, EXECUTE_ONLY.satp, 0) == Super(0x1000, 9)
    ensures Permitted(EXECUTE_ONLY, 9, Fetch) && !Permitted(EXECUTE_ONLY, 9, Load)
  {
    hide WordAt;
    assert Root(EXECUTE_ONLY.satp, 0) == 0x1000;
  }

  /** The fetch is answered, the load after it is refused, and both have the keys under which
      the fetch was entered. */
  lemma ReservedPrivilegeDiffers(m: Flat)
    requires WordAt(m, 0x1000) == 9
    ensures Key4k(Fetch, 2, 0) == Key4k(Load, 2, 0) && Key4m(Fetch, 2, 0) == Key4m(Load, 2, 0)
    ensures Fresh(m, EXECUTE_ONLY, 0, Fetch).Ok?
    ensures Fresh(After(m, EXECUTE_ONLY, 0, Fetch), EXECUTE_ONLY, 0, Load).PageFault?
    ensures Entered4m(m, EXECUTE_ONLY, 0, Fetch) == {Key4m(Load, 2, 0)}
  {
    ExecuteOnly(m);
    AfterKeeps(m, EXECUTE_ONLY, 0, Fetch, EXECUTE_ONLY, 0, Load);
    hide After, WordAt, LeafOf, Permitted, Active;
    assert Key4m(Fetch, 2, 0) == Key4m(Load, 2, 0);
  }

  lemma MretToPrivilegeTwo()
    ensures var z := Mret(Arch(0, 3, RESET_CSRS).Put(SATP, 0x8000_0001).Put(MSTATUS, 0x1000));
            z.priv == 2 && z.Csr(SATP) == 0x8000_0001 && z.Csr(SSTATUS) == 0
  {
    hide LeaveM;
    assert Arch(0, 3, RESET_CSRS).Put(SATP, 0x8000_0001).Put(MSTATUS, 0x1000).Csr(MSTATUS) == 0x1000;
  }

  /** A hart in the reserved privilege, as mret installs it, over those tables. */
  method InPrivilegeTwo() returns (c: Cpu)
    ensures c.Sound() && c.Backed() && fresh(c) && fresh(c.mem) && fresh(c.mem.pages.Values)
    ensures c.Context() == EXECUTE_ONLY && c.tlb4k == map[] && c.tlb4m == map[]
    ensures WordAt(c.mem.View(), 0x1000) == 9
  {
    hide WordAt, WithWord, Memory.View, Memory.Valid, Cpu.Slots, Cpu.Decoding, Cpu.UsedAligned, Cpu.Backed, CsrIn,
         Privileged.Arch.Put, Mret;
    var mem := new Memory();
    mem.WriteU32(0x1000, 9);
    WordOfWithWord(Zeroes(), 0x1000, 9);
    c := new Cpu(mem, false);
    EnterPrivilegeTwo(c);
  }

  method EnterPrivilegeTwo(c: Cpu)
    requires c.Sound() && c.State() == Arch(0, 3, RESET_CSRS)
    modifies c
    ensures c.Sound() && c.Backed() && c.Context() == EXECUTE_ONLY && c.tlb4k == map[] && c.tlb4m == map[]
  {
    hide Memory.View, Memory.Valid, Cpu.Slots, Cpu.Decoding, Cpu.UsedAligned, Cpu.Backed, CsrIn,
         Privileged.Arch.Put, Mret;
    MretToPrivilegeTwo();
    c.CsrWrite(SATP, 0x8000_0001);
    c.CsrWrite(MSTATUS, 0x1000);
    c.Mret();
  }

  /** A page that may only be executed: in privilege 2 a fetch enters it, and then a load is
      answered although the tables refuse it. */
  method LoadAfterFetch() returns (c: Cpu, fetched: Outcome, loaded: Outcome)
    ensures c.mem.Valid() && c.priv == 2
    ensures fetched.Ok? && loaded.Ok?
    ensures Fresh(c.mem.View(), c.Context(), 0, Load).PageFault?
  {
    hide WordAt, Memory.View, Memory.Valid, Cpu.Shadows, Cpu.Slots, Cpu.Decoding, Cpu.UsedAligned, Cpu.Backed,
         Touched,
         LeafOf, Permitted, Fresh, After, Key4k, Key4m, Entered4k, Entered4m;
    c := InPrivilegeTwo();
    ReservedPrivilegeDiffers(c.mem.View());
    ExecuteOnly(c.mem.View());
    fetched := c.Translate(0, Fetch);
    loaded := c.Translate(0, Load);
  }
}
