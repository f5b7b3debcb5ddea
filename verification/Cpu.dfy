/** The simulated hart: registers, CSRs, TLBs and the step function, updated in
    place, with RAM, the console window and the timer behind its loads and stores. */
module Cpu {
  import opened Words
  import Bits
  import opened FlatMemory
  import opened PagedMemory
  import opened Sv32
  import opened Tlb
  import opened Privileged
  import opened Isa
  import opened Reference

  /** The CSR file after reset: M-mode as the previous privilege, and RV32IMA. */
  const RESET_CSRS: map<int, u32> :=
    map[MSTATUS := 0x1800, MISA := 0x4000_1105, MTVEC := 0, MEPC := 0, MCAUSE := 0, MTVAL := 0, MIP := 0, MHARTID := 0]

  class Cpu {
    const mem: Memory
    var pc: u32
    var x: seq<u32>
    var csrs: map<int, u32>
    var priv: int
    var steps: nat
    var mtimecmp: u64
    var satp: u32
    var sstatus: u32
    var mstatus: u32
    var tlb4k: map<int, u32>
    var tlb4m: map<int, u32>
    var last4kKey: int
    var last4kBase: u32
    var last4mKey: int
    var last4mBase: u32
    var decodeCache: map<u32, Decoded>
    var runMax: Option<nat>
    var externalIrq: bool
    const stopOnWfi: bool
    /** The table entries that translations have read since the last flush. */
    ghost var used: set<u32>
    /** One of those entries was changed since, beyond setting A or D. */
    ghost var stale: bool

    function State(): Arch
      reads `pc, `priv, `csrs
    {
      Arch(pc, priv, csrs)
    }

    ghost function Context(): Regime
      reads `satp, `sstatus, `priv
    {
      Regime(satp, sstatus, priv)
    }

    /** The hart without its TLBs and its decode cache. */
    ghost function Now(): (h: Bare)
      requires mem.Valid()
      reads `pc, `priv, `csrs, `x, `steps, `mtimecmp, `used, `stale, mem, mem.pages.Values
      ensures |x| == 32 ==> h.Sized()
    {
      Bare(mem.View(), State(), x, steps, mtimecmp, used, stale)
    }

    function Env(): Setting
      reads `runMax, `externalIrq
    {
      Setting(runMax, externalIrq, stopOnWfi)
    }

    /** The three copies agree with the CSR file. */
    ghost predicate Shadows()
      reads `csrs, `satp, `sstatus, `mstatus
    {
      satp == CsrIn(csrs, SATP) && sstatus == CsrIn(csrs, SSTATUS) && mstatus == CsrIn(csrs, MSTATUS)
    }

    ghost predicate Slots()
      reads `last4kKey, `last4kBase, `last4mKey, `last4mBase, `tlb4k, `tlb4m
    {
      SlotOf(last4kKey, last4kBase, tlb4k) && SlotOf(last4mKey, last4mBase, tlb4m)
    }

    ghost predicate UsedAligned()
      reads `used
    {
      forall a :: a in used ==> a % 4 == 0
    }

    ghost predicate Decoding()
      reads `decodeCache
    {
      forall inst :: inst in decodeCache ==> decodeCache[inst] == DecodeOf(inst)
    }

    /** Everything but x0 reading as zero, which holds between instructions only. */
    ghost predicate Sound()
      reads this, mem, mem.pages.Values
    {
      mem.Valid() && |x| == 32 && 0 <= priv <= 3 && Shadows() && Slots() && UsedAligned() && Decoding()
    }

    ghost predicate Valid()
      reads this, mem, mem.pages.Values
    {
      Sound() && x[0] == 0
    }

    /** Every cached translation is what the present tables lead to. */
    ghost predicate Backed()
      requires mem.Valid()
      reads `satp, `sstatus, `priv, `tlb4k, `tlb4m, `used, mem, mem.pages.Values
    {
      Backed4k(mem.View(), Context(), tlb4k, used) && Backed4m(mem.View(), Context(), tlb4m, used)
    }

    constructor (mem: Memory, stopOnWfi: bool)
      requires mem.Valid()
      ensures Valid() && Backed() && this.mem == mem && this.stopOnWfi == stopOnWfi
      ensures State() == Arch(0, 3, RESET_CSRS) && x == seq(32, _ => 0) && Env() == Setting(None, false, stopOnWfi)
      ensures steps == 0 && mtimecmp == 0 && used == {} && !stale && tlb4k == map[] && tlb4m == map[]
    {
      this.mem := mem;
      this.stopOnWfi := stopOnWfi;
      pc, priv, steps, mtimecmp := 0, 3, 0, 0;
      x := seq(32, _ => 0);
      csrs := RESET_CSRS;
      satp, sstatus, mstatus := 0, 0, 0x1800;
      tlb4k, tlb4m, last4kKey, last4kBase, last4mKey, last4mBase := map[], map[], -1, 0, -1, 0;
      decodeCache, runMax, externalIrq, used, stale := map[], None, false, {}, false;
    }

    // -------------------------------------------------------------- translation

    method FlushTlb()
      requires Sound()
      modifies `tlb4k, `tlb4m, `last4kKey, `last4mKey, `used, `stale
      ensures Sound() && tlb4k == map[] && tlb4m == map[] && used == {} && !stale
    {
      hide Memory.Valid, Memory.View, Shadows, Slots, UsedAligned, Decoding;
      DropEntries();
    }

    method DropEntries()
      modifies `tlb4k, `tlb4m, `last4kKey, `last4mKey, `used, `stale
      ensures Slots() && UsedAligned()
      ensures tlb4k == map[] && tlb4m == map[] && used == {} && !stale
    {
      tlb4k, tlb4m, last4kKey, last4mKey := map[], map[], -1, -1;
      used := {};
      stale := false;
    }

    /** Translation through the slots and dictionaries, and by walking on a miss.
        While the TLBs are backed, memory and the entries in use change as by a fresh
        walk, and the answer is the fresh one if and only if nothing was found or the
        access is permitted at the leaf.  Only in privilege 2 can it fail to be. */
    method Translate(vaddr: int, access: Access) returns (r: Outcome)
      requires Sound()
      modifies `tlb4k, `tlb4m, `last4kKey, `last4kBase, `last4mKey, `last4mBase, `used, mem, mem.pages.Values
      ensures Sound() && fresh(mem.pages.Values - old(mem.pages.Values))
      ensures r.PageFault? ==> mem.View() == old(mem.View()) && tlb4k == old(tlb4k) && tlb4m == old(tlb4m)
      ensures var va, c := W(vaddr), Context();
              var hit := Hit(old(tlb4k), old(tlb4m), access, priv, va);
              if Active(c) && hit.Some? then r == Ok(hit.value) && mem.View() == old(mem.View())
              else r == Fresh(old(mem.View()), c, va, access) && mem.View() == After(old(mem.View()), c, va, access)
      ensures old(Backed()) ==>
                var m, va, c := old(mem.View()), W(vaddr), Context();
                && Backed() && mem.View() == After(m, c, va, access) && used == old(used) + Touched(m, c, va, access)
                && tlb4k.Keys == old(tlb4k).Keys + Entered4k(m, c, va, access)
                && tlb4m.Keys == old(tlb4m).Keys + Entered4m(m, c, va, access)
                && (r == Fresh(m, c, va, access) <==>
                      Active(c) && Hit(old(tlb4k), old(tlb4m), access, priv, va).Some? ==>
                        LeafOf(m, c.satp, va) != Fault && Permitted(c, LeafOf(m, c.satp, va).pte, access))
                && (priv != 2 || Fresh(m, c, va, access).Ok? ==> r == Fresh(m, c, va, access))
    {
      hide Hit, Fresh, After, WalkOf, LeafOf, Permitted, Reads, Backed4k, Backed4m, Decoding, Shadows, Slots,
           UsedAligned,
           Memory.View, Memory.Valid, Touched, W, Key4k, Key4m;
      var va := W(vaddr);
      if priv == 3 || !Bit(satp, 0x8000_0000) {
        assert !Active(Context());
        Inactive(mem.View(), Context(), va, access);
        NothingTouched(mem.View(), Context(), va, access, used);
        return Ok(va);
      }
      if Backed() && Hit(tlb4k, tlb4m, access, priv, va).Some? {
        HitIsFresh(mem.View(), Context(), tlb4k, tlb4m, used, va, access);
        NothingTouched(mem.View(), Context(), va, access, used);
      }
      var hit := Lookup(va, access);
      if hit.Some? {
        return Ok(hit.value);
      }
      FaultWritesNothing(mem.View(), Context(), va, access);
      r := WalkAndFill(va, access);
    }

    /** The fast part of `translate`: the 4 KiB slot and dictionary, then the 4 MiB ones. */
    method Lookup(va: u32, access: Access) returns (hit: Option<u32>)
      requires Slots() && 0 <= priv <= 3
      modifies `last4kKey, `last4kBase, `last4mKey, `last4mBase
      ensures Slots()
      ensures hit == Hit(tlb4k, tlb4m, access, priv, va)
    {
      hide Key4k, Key4m, W;
      var key4k := Key4k(access, priv, va);
      KeysNotSentinel(access, priv, va);
      if key4k == last4kKey {
        return Some(W(last4kBase + va % 0x1000));
      }
      if key4k in tlb4k {
        last4kKey, last4kBase := key4k, tlb4k[key4k];
        return Some(W(last4kBase + va % 0x1000));
      }
      var key4m := Key4m(access, priv, va);
      if key4m == last4mKey {
        return Some(W(last4mBase + va % 0x40_0000));
      }
      if key4m in tlb4m {
        last4mKey, last4mBase := key4m, tlb4m[key4m];
        return Some(W(last4mBase + va % 0x40_0000));
      }
      hit := None;
    }

    /** The two-level walk of `translate`, up to the permission checks. */
    method WalkTables(va: u32, access: Access) returns (w: Walk)
      requires mem.Valid()
      ensures w == WalkOf(mem.View(), Context(), va, access)
    {
      hide WordAt, Bit, Invalid, Leaf, Permitted, W, Memory.View, Memory.Valid;
      var pte1Addr := satp % 0x40_0000 * 0x1000 + va / 0x40_0000 * 4;
      WordAtMod(mem.View(), pte1Addr);
      var pte1 := mem.ReadU32(pte1Addr);
      if Invalid(pte1) {
        return Fault;
      }
      if Leaf(pte1) {
        if pte1 / 0x400 % 0x400 != 0 {
          return Fault;
        }
        if !Permitted(Regime(satp, sstatus, priv), pte1, access) {
          return Fault;
        }
        return Super(W(pte1Addr), pte1);
      }
      var pte0Addr := pte1 / 0x400 * 0x1000 + va / 0x1000 % 0x400 * 4;
      WordAtMod(mem.View(), pte0Addr);
      var pte0 := mem.ReadU32(pte0Addr);
      if Invalid(pte0) || !Leaf(pte0) {
        return Fault;
      }
      if !Permitted(Regime(satp, sstatus, priv), pte0, access) {
        return Fault;
      }
      w := Page(W(pte0Addr), pte0);
    }

    /** The miss path of `translate`: the walk, the A/D update and the fill. */
    method WalkAndFill(va: u32, access: Access) returns (r: Outcome)
      requires Sound() && Active(Context())
      modifies `tlb4k, `tlb4m, `last4kKey, `last4kBase, `last4mKey, `last4mBase, `used, mem, mem.pages.Values
      ensures Sound() && fresh(mem.pages.Values - old(mem.pages.Values))
      ensures r == Fresh(old(mem.View()), Context(), va, access)
      ensures mem.View() == After(old(mem.View()), Context(), va, access)
      ensures r.PageFault? ==> tlb4k == old(tlb4k) && tlb4m == old(tlb4m)
      ensures used == old(used) + Touched(old(mem.View()), Context(), va, access)
      ensures tlb4k.Keys == old(tlb4k).Keys + Entered4k(old(mem.View()), Context(), va, access)
      ensures tlb4m.Keys == old(tlb4m).Keys + Entered4m(old(mem.View()), Context(), va, access)
      ensures old(Backed()) ==> Backed()
    {
      hide WordAt, WithWord, Bit, WithAd, Key4k, Key4m, WalkOf, Reads, W, Base, Slots, Backed4k, Backed4m, Decoding,
           Shadows,
           Memory.View, Memory.Valid, Fresh, After;
      ghost var m, c := mem.View(), Context();
      var w := WalkTables(va, access);
      if w == Fault {
        FaultOutcome(m, c, va, access);
        return PageFault(Cause(access), va);
      }
      Miss(m, c, va, access, tlb4k, tlb4m, used);
      used := used + Reads(m, satp, va);
      var pa := MarkAndFill(va, access, w);
      r := Ok(pa);
    }

    /** What `translate` does with the leaf it reached: mark it, enter it, use it. */
    method MarkAndFill(va: u32, access: Access, w: Walk) returns (pa: u32)
      requires mem.Valid() && Slots() && w != Fault && WordAt(mem.View(), w.at) == w.pte
      modifies `tlb4k, `tlb4m, `last4kKey, `last4kBase, `last4mKey, `last4mBase, mem, mem.pages.Values
      ensures mem.Valid() && fresh(mem.pages.Values - old(mem.pages.Values))
      ensures mem.View() == WithWord(old(mem.View()), w.at, WithAd(w.pte, access == Access.Store))
      ensures Slots()
      ensures pa == W(Base(w) + va % (if w.Super? then 0x40_0000 else 0x1000))
      ensures tlb4k == if w.Page? then old(tlb4k)[Key4k(access, priv, va) := Base(w)] else old(tlb4k)
      ensures tlb4m == if w.Super? then old(tlb4m)[Key4m(access, priv, va) := Base(w)] else old(tlb4m)
    {
      hide WordAt, WithWord, WithAd, Key4k, Key4m, W, Base, SlotOf, Memory.View, Memory.Valid;
      var now := WithAd(w.pte, access == Access.Store);
      Mark(w.at, w.pte, now);
      SameLeafBase(w.pte, access == Access.Store);
      pa := Fill(va, access, w, now);
    }

    /** Enters a leaf, as marked, into the dictionary of its size and its slot. */
    method Fill(va: u32, access: Access, w: Walk, now: u32) returns (pa: u32)
      requires Slots()
      requires w != Fault && now / 0x400 == w.pte / 0x400 && now / 0x10_0000 == w.pte / 0x10_0000
      modifies `tlb4k, `tlb4m, `last4kKey, `last4kBase, `last4mKey, `last4mBase
      ensures Slots()
      ensures pa == W(Base(w) + va % (if w.Super? then 0x40_0000 else 0x1000))
      ensures tlb4k == if w.Page? then old(tlb4k)[Key4k(access, priv, va) := Base(w)] else old(tlb4k)
      ensures tlb4m == if w.Super? then old(tlb4m)[Key4m(access, priv, va) := Base(w)] else old(tlb4m)
    {
      hide Key4k, Key4m, W;
      if w.Super? {
        var ppn1: int := now / 0x10_0000;
        var pbase := W(ppn1 * 0x40_0000);
        var key4m := Key4m(access, priv, va);
        tlb4m := tlb4m[key4m := pbase];
        last4mKey, last4mBase := key4m, pbase;
        pa := W(pbase + va % 0x40_0000);
      } else {
        var ppn: int := now / 0x400;
        var pbase := W(ppn * 0x1000);
        var key4k := Key4k(access, priv, va);
        tlb4k := tlb4k[key4k := pbase];
        last4kKey, last4kBase := key4k, pbase;
        pa := W(pbase + va % 0x1000);
      }
    }

    /** Writes a marked entry back, if marking changed it. */
    method Mark(at: u32, pte: u32, now: u32)
      requires mem.Valid() && WordAt(mem.View(), at) == pte
      modifies mem, mem.pages.Values
      ensures mem.Valid() && fresh(mem.pages.Values - old(mem.pages.Values))
      ensures mem.View() == WithWord(old(mem.View()), at, now)
    {
      WithWordSame(mem.View(), at);
      if now != pte {
        mem.WriteU32(at, now);
      }
    }

    // -------------------------------------------------------------- CSRs

    function CsrRead(csr: int): u32
      reads `pc, `priv, `csrs, `steps, `mtimecmp, `externalIrq
    {
      CsrValue(State(), steps, TimerPending(steps, mtimecmp), externalIrq, csr)
    }

    method CsrWrite(csr: int, value: int)
      requires Sound()
      modifies `csrs, `satp, `sstatus, `mstatus, `tlb4k, `tlb4m, `last4kKey, `last4mKey, `used, `stale
      ensures Sound() && State() == old(State()).Put(csr, value)
      ensures if Flushes(csr) then tlb4k == map[] && tlb4m == map[] && used == {} && !stale
              else old(Backed()) == Backed() && tlb4k == old(tlb4k) && tlb4m == old(tlb4m) && used == old(used) && stale == old(stale)
    {
      hide Memory.Valid, Memory.View, Backed4k, Backed4m, Decoding, Slots, UsedAligned;
      if csr in {0xC00, 0xC01, 0xC02, 0xC80, 0xC81, 0xC82} {
        return;
      }
      csrs := csrs[csr := W(value)];
      if csr == SSTATUS {
        sstatus := W(value);
        FlushTlb();
      } else if csr == SATP {
        satp := W(value);
        FlushTlb();
      } else if csr == MSTATUS {
        mstatus := W(value);
        FlushTlb();
      }
    }

    // -------------------------------------------------------------- traps

    method Trap(cause: int, tval: int, interrupt: bool)
      requires Sound()
      modifies `pc, `priv, `csrs, `satp, `sstatus, `mstatus, `tlb4k, `tlb4m, `last4kKey, `last4mKey, `used, `stale
      ensures Sound() && State() == Privileged.Trap(old(State()), cause, tval, interrupt) && Backed()
      ensures tlb4k == map[] && tlb4m == map[] && used == {} && !stale
    {
      hide Memory.Valid, Shadows, Slots, UsedAligned, Decoding, TrapToS, TrapToM, Bit, Memory.View, Backed4k,
           Backed4m;
      var delegated := false;
      if priv <= 1 {
        delegated := Bit(CsrRead(if interrupt then MIDELEG else MEDELEG), Bits.Pow2(cause % 0x20));
      }
      if delegated {
        EnterSupervisor(cause, tval);
      } else {
        EnterMachine(cause, tval);
      }
      NothingCached(mem.View(), Context());
    }

    /** The three CSRs from epc on record the trap. */
    method SaveTrap(epc: int, cause: int, tval: int)
      requires Sound() && epc in {SEPC, MEPC}
      modifies `csrs, `satp, `sstatus, `mstatus, `tlb4k, `tlb4m, `last4kKey, `last4mKey, `used, `stale
      ensures Sound() && State() == old(State()).Put(epc, pc).Put(epc + 1, cause).Put(epc + 2, tval)
    {
      hide Memory.Valid, Shadows, Slots, UsedAligned, Decoding, W, CsrIn;
      CsrWrite(epc, pc);
      CsrWrite(epc + 1, cause);
      CsrWrite(epc + 2, tval);
    }

    method EnterSupervisor(cause: int, tval: int)
      requires Sound()
      modifies `pc, `priv, `csrs, `satp, `sstatus, `mstatus, `tlb4k, `tlb4m, `last4kKey, `last4mKey, `used, `stale
      ensures Sound() && State() == Privileged.TrapToS(old(State()), cause, tval)
      ensures tlb4k == map[] && tlb4m == map[] && used == {} && !stale
    {
      hide Memory.Valid, Shadows, Slots, UsedAligned, Decoding, EnterS, W, Privileged.Arch.Put, CsrIn;
      SaveTrap(SEPC, cause, tval);
      var status := CsrRead(SSTATUS);
      CsrWrite(SSTATUS, EnterS(status, priv));
      priv := 1;
      pc := CsrRead(STVEC) / 4 * 4;
    }

    method EnterMachine(cause: int, tval: int)
      requires Sound()
      modifies `pc, `priv, `csrs, `satp, `sstatus, `mstatus, `tlb4k, `tlb4m, `last4kKey, `last4mKey, `used, `stale
      ensures Sound() && State() == Privileged.TrapToM(old(State()), cause, tval)
      ensures tlb4k == map[] && tlb4m == map[] && used == {} && !stale
    {
      hide Memory.Valid, Shadows, Slots, UsedAligned, Decoding, EnterM, W, Privileged.Arch.Put, CsrIn;
      SaveTrap(MEPC, cause, tval);
      var status := CsrRead(MSTATUS);
      CsrWrite(MSTATUS, EnterM(status, priv));
      priv := 3;
      pc := CsrRead(MTVEC) / 4 * 4;
    }

    method Mret()
      requires Sound()
      modifies `pc, `priv, `csrs, `satp, `sstatus, `mstatus, `tlb4k, `tlb4m, `last4kKey, `last4mKey, `used, `stale
      ensures Sound() && State() == Privileged.Mret(old(State())) && Backed()
      ensures tlb4k == map[] && tlb4m == map[] && used == {} && !stale
    {
      hide Memory.Valid, Shadows, Slots, UsedAligned, Decoding, LeaveM, Bit, CsrIn, Memory.View, Backed4k, Backed4m;
      var status := CsrRead(MSTATUS);
      priv := Mpp(status);
      CsrWrite(MSTATUS, LeaveM(status));
      pc := CsrRead(MEPC);
      NothingCached(mem.View(), Context());
    }

    method Sret()
      requires Sound()
      modifies `pc, `priv, `csrs, `satp, `sstatus, `mstatus, `tlb4k, `tlb4m, `last4kKey, `last4mKey, `used, `stale
      ensures Sound() && State() == Privileged.Sret(old(State())) && Backed()
      ensures tlb4k == map[] && tlb4m == map[] && used == {} && !stale
    {
      hide Memory.Valid, Shadows, Slots, UsedAligned, Decoding, LeaveS, Bit, CsrIn, Memory.View, Backed4k, Backed4m;
      var status := CsrRead(SSTATUS);
      priv := if Bit(status, 0x100) then 1 else 0;
      CsrWrite(SSTATUS, LeaveS(status));
      pc := CsrRead(SEPC);
      NothingCached(mem.View(), Context());
    }

    ghost function PendingInterrupt(): Option<int>
      reads `pc, `priv, `csrs, `steps, `mtimecmp, `externalIrq
    {
      Interrupt(State(), TimerPending(steps, mtimecmp), externalIrq)
    }

    method CheckInterrupt() returns (taken: bool)
      requires Sound()
      modifies `pc, `priv, `csrs, `satp, `sstatus, `mstatus, `tlb4k, `tlb4m, `last4kKey, `last4mKey, `used, `stale
      ensures Sound()
      ensures taken == old(PendingInterrupt()).Some?
      ensures State() == if taken then Privileged.Trap(old(State()), old(PendingInterrupt()).value, 0, true) else old(State())
      ensures if taken then Backed() && used == {} && !stale
              else old(Backed()) == Backed() && used == old(used) && stale == old(stale)
    {
      hide Memory.Valid, Memory.View, Slots, UsedAligned, Decoding, Privileged.Trap, Bit, Backed4k, Backed4m;
      var timer := TimerPending(steps, mtimecmp);
      if priv == 0 || (priv == 1 && Bit(sstatus, 2)) {
        if timer && Bit(CsrRead(MIDELEG), 0x20) && Bit(CsrRead(SIE), 0x20) {
          Trap(0x8000_0005, 0, true);
          return true;
        }
        if externalIrq && Bit(CsrRead(MIDELEG), 0x200) && Bit(CsrRead(SIE), 0x200) {
          Trap(0x8000_0009, 0, true);
          return true;
        }
      }
      if priv == 3 {
        if !Bit(mstatus, 8) {
          return false;
        }
        if timer && Bit(CsrRead(MIE), 0x80) {
          Trap(0x8000_0007, 0, true);
          return true;
        }
        if externalIrq && Bit(CsrRead(MIE), 0x800) {
          Trap(0x8000_000B, 0, true);
          return true;
        }
      }
      taken := false;
    }

    /** Skips time while WFI waits for the timer.  It lands one step before the
        deadline or the end of the run, and no interrupt was due on the way. */
    method FastForwardWfi()
      modifies `steps
      ensures steps == Slept(State(), old(steps), mtimecmp, Env())
    {
      if mtimecmp == 0 || steps >= mtimecmp {
        return;
      }
      var enabled := if priv <= 1 then Bit(CsrRead(MIDELEG), 0x20) && Bit(CsrRead(SIE), 0x20) else Bit(CsrRead(MIE), 0x80);
      if externalIrq || !enabled {
        return;
      }
      var target: int := mtimecmp;
      if runMax.Some? {
        target := Min(target, runMax.value);
      }
      if target > steps + 1 {
        steps := target - 1;
      }
    }

    // -------------------------------------------------------------- loads and stores

    method Load(addr: int, size: int, signed: bool) returns (r: Result)
      requires Sound() && size in {1, 2, 4}
      modifies `tlb4k, `tlb4m, `last4kKey, `last4kBase, `last4mKey, `last4mBase, `used, mem, mem.pages.Values
      ensures Sound() && fresh(mem.pages.Values - old(mem.pages.Values))
      ensures r.Faulted? ==> mem.View() == old(mem.View())
      ensures old(Backed()) ==>
                && Backed()
                && var (h, q) := Loaded(old(Now()), W(addr), size, signed);
                   priv != 2 || !q.Faulted? ==> (Now(), r) == (h, q)
    {
      hide Slots, UsedAligned, Decoding, Backed, Hit, Fresh, After, LeafOf, Permitted, Memory.View, Memory.Valid,
           Touched, LoadAt, W;
      var t := Translate(addr, Access.Load);
      if t.PageFault? {
        return Faulted(t.cause, t.vaddr);
      }
      r := LoadPhysical(t.pa, size, signed);
    }

    method LoadPhysical(pa: u32, size: int, signed: bool) returns (r: Result)
      requires mem.Valid() && size in {1, 2, 4}
      ensures r == LoadAt(mem.View(), pa, size, signed, steps, mtimecmp)
      ensures !r.Faulted?
    {
      hide WordAt, HalfAt, ByteAt, Memory.View;
      if 0x1000_0000 <= pa <= 0x1000_0007 {
        if size != 4 || pa % 4 != 0 {
          return Illegal;
        }
        if pa == 0x1000_0004 {
          return Done(1);
        }
        var w := mem.ReadU32(pa);
        return Done(w);
      }
      if 0x1001_0000 <= pa <= 0x1001_000F {
        if size != 4 || pa % 4 != 0 {
          return Illegal;
        }
        var time: int, deadline: int := steps, mtimecmp;
        if pa == 0x1001_0000 { return Done(W(time)); }
        if pa == 0x1001_0004 { return Done(W(time / 0x1_0000_0000)); }
        if pa == 0x1001_0008 { return Done(W(deadline)); }
        return Done(W(deadline / 0x1_0000_0000));
      }
      if size == 1 {
        var b := mem.ReadU8(pa);
        return Done(if signed then W(Sext(b, 0x100)) else b);
      }
      if size == 2 {
        if pa % 2 != 0 {
          return Illegal;
        }
        var h := mem.ReadU16(pa);
        return Done(if signed then W(Sext(h, 0x1_0000)) else h);
      }
      if pa % 4 != 0 {
        return Illegal;
      }
      var w := mem.ReadU32(pa);
      r := Done(w);
    }

    method Store(addr: int, size: int, value: int) returns (r: Result)
      requires Sound() && size in {1, 2, 4}
      modifies `tlb4k, `tlb4m, `last4kKey, `last4kBase, `last4mKey, `last4mBase, `used, `stale,
               `mtimecmp, mem, mem.pages.Values
      ensures Sound() && fresh(mem.pages.Values - old(mem.pages.Values))
      ensures r.Faulted? ==> mem.View() == old(mem.View()) && mtimecmp == old(mtimecmp)
      ensures old(Backed()) ==>
                && (stale || Backed())
                && var (h, q) := StoredBy(old(Now()), W(addr), size, value);
                   priv != 2 || !q.Faulted? ==> (Now(), r) == (h, q)
    {
      hide Slots, UsedAligned, Decoding, Backed, Hit, Fresh, After, LeafOf, Permitted, Memory.View, Memory.Valid,
           Touched,
           StoreAt, TimerAt, Kept, StoreAligned, W;
      var t := Translate(addr, Access.Store);
      if t.PageFault? {
        return Faulted(t.cause, t.vaddr);
      }
      r := StoreTracked(t.pa, size, value);
    }

    /** The store itself.  The TLBs stay backed unless it changed an entry in use. */
    method StoreTracked(pa: u32, size: int, value: int) returns (r: Result)
      requires Sound() && size in {1, 2, 4}
      modifies `stale, `mtimecmp, mem, mem.pages.Values
      ensures Sound() && fresh(mem.pages.Values - old(mem.pages.Values))
      ensures r == (if StoreAligned(pa, size) then Done(0) else Illegal)
      ensures mem.View() == StoreAt(old(mem.View()), pa, size, value)
      ensures mtimecmp == TimerAt(old(mtimecmp), pa, size, value)
      ensures stale == (old(stale) || !Kept(old(mem.View()), mem.View(), used))
      ensures old(Backed()) ==> stale || Backed()
    {
      hide Shadows, Slots, UsedAligned, Decoding, Memory.View, Memory.Valid, StoreAt, TimerAt, Kept, Backed4k,
           Backed4m,
           StoreAligned;
      ghost var was := mem.View();
      ghost var backed := Backed();
      r := StorePhysical(pa, size, value);
      if backed && Kept(was, mem.View(), used) {
        BackedKept(was, mem.View(), Context(), tlb4k, tlb4m, used, used);
      }
      stale := stale || !Kept(was, mem.View(), used);
    }

    method StorePhysical(pa: u32, size: int, value: int) returns (r: Result)
      requires mem.Valid() && size in {1, 2, 4}
      modifies `mtimecmp, mem, mem.pages.Values
      ensures mem.Valid() && fresh(mem.pages.Values - old(mem.pages.Values))
      ensures r == (if StoreAligned(pa, size) then Done(0) else Illegal)
      ensures mem.View() == StoreAt(old(mem.View()), pa, size, value)
      ensures mtimecmp == TimerAt(old(mtimecmp), pa, size, value)
    {
      hide WithWord, WithHalf, WithByte, Memory.View, Memory.Valid;
      if size == 1 {
        mem.WriteU8(pa, value);
        return Done(0);
      }
      if size == 2 {
        if pa % 2 != 0 {
          return Illegal;
        }
        mem.WriteU16(pa, value);
        return Done(0);
      }
      if pa % 4 != 0 {
        return Illegal;
      }
      if 0x1001_0000 <= pa <= 0x1001_000F {
        if pa == 0x1001_0008 {
          mtimecmp := mtimecmp / 0x1_0000_0000 * 0x1_0000_0000 + W(value);
        } else if pa == 0x1001_000C {
          mtimecmp := W(value) * 0x1_0000_0000 + mtimecmp % 0x1_0000_0000;
        }
        return Done(0);
      }
      mem.WriteU32(pa, value);
      r := Done(0);
    }

    // -------------------------------------------------------------- instructions

    method Decode(inst: u32) returns (d: Decoded)
      requires Sound()
      modifies `decodeCache
      ensures Sound() && d == DecodeOf(inst)
      ensures Now() == old(Now()) && Env() == old(Env()) && Backed() == old(Backed())
    {
      hide DecodeOf, Memory.Valid, Memory.View, Backed4k, Backed4m, Shadows, Slots, UsedAligned;
      if inst in decodeCache {
        return decodeCache[inst];
      }
      d := DecodeOf(inst);
      decodeCache := decodeCache[inst := d];
    }

    method SetReg(idx: int, value: int)
      requires |x| == 32 && 0 <= idx < 32
      modifies `x
      ensures x == if idx == 0 then old(x) else old(x)[idx := W(value)]
    {
      if idx != 0 {
        x := x[idx := W(value)];
      }
    }

    /** An AMO is a load and a store of one address.  A fault in either leaves the
        registers alone; the store's fault can leave the load's A bit behind. */
    method ExecAmo(d: Decoded) returns (r: Result)
      requires Valid() && Bounded(d)
      modifies `x, `tlb4k, `tlb4m, `last4kKey, `last4kBase, `last4mKey, `last4mBase, `used, `stale,
               `mtimecmp, mem, mem.pages.Values
      ensures Valid() && fresh(mem.pages.Values - old(mem.pages.Values))
      ensures !r.Done? ==> x == old(x)
      ensures forall i :: 0 <= i < 32 && i != d.rd ==> x[i] == old(x)[i]
      ensures State() == old(State()) && steps == old(steps)
      ensures old(Backed()) ==>
                && (stale || Backed())
                && (priv != 2 || !AmoStep(old(Now()), d).1.Trapped? ==> AmoStep(old(Now()), d) == Finish(Now(), r, Now()))
    {
      hide Memory.Valid, Memory.View, Shadows, Slots, UsedAligned, Decoding, Backed, AmoStores, Loaded, StoredBy;
      WId(x[d.rs1]);
      hide W;
      if d.funct3 != 2 {
        return Illegal;
      }
      var addr := x[d.rs1];
      var loaded := Load(addr, 4, false);
      if !loaded.Done? {
        return loaded;
      }
      var was, value := loaded.value, x[d.rs2];
      if d.funct5 == 2 {
        SetReg(d.rd, was);
        return Done(0);
      }
      var stored := AmoStores(d.funct5, was, value);
      if stored.None? {
        return Illegal;
      }
      r := StoreThenSet(addr, stored.value, d.rd, if d.funct5 == 3 then 0 else was);
    }

    /** The store half of an AMO: the register is written only if the store is done. */
    method StoreThenSet(addr: u32, value: int, rd: int, result: u32) returns (r: Result)
      requires Valid() && 0 <= rd < 32
      modifies `x, `tlb4k, `tlb4m, `last4kKey, `last4kBase, `last4mKey, `last4mBase, `used, `stale,
               `mtimecmp, mem, mem.pages.Values
      ensures Valid() && fresh(mem.pages.Values - old(mem.pages.Values))
      ensures x == if r.Done? && rd != 0 then old(x)[rd := result] else old(x)
      ensures State() == old(State()) && steps == old(steps)
      ensures old(Backed()) ==>
                && (stale || Backed())
                && var (k, q) := StoredBy(old(Now()), addr, 4, value);
                   priv != 2 || !q.Faulted? ==> r == q && Now() == if r.Done? then k.SetReg(rd, result) else k
    {
      hide Memory.Valid, Memory.View, Shadows, Slots, UsedAligned, Decoding, Backed, StoredBy;
      WId(addr);
      WId(result);
      hide W;
      r := Store(addr, 4, value);
      if r.Done? {
        SetReg(rd, result);
      }
    }

    /** SYSTEM instructions.  Only WFI can stop the hart or move time. */
    method ExecSystem(inst: u32, d: Decoded) returns (reason: StopReason)
      requires Valid() && Bounded(d)
      modifies `x, `pc, `priv, `csrs, `satp, `sstatus, `mstatus, `steps,
               `tlb4k, `tlb4m, `last4kKey, `last4mKey, `used, `stale
      ensures Valid() && (old(Backed()) ==> Backed())
      ensures reason in {Running, Wfi, Error}
      ensures reason != Running ==> State() == old(State()) && x == old(x) && steps == old(steps)
      ensures StepsMoved(old(steps), steps + 1, runMax, mtimecmp)
      ensures forall i :: 0 <= i < 32 && i != d.rd ==> x[i] == old(x)[i]
      ensures (Now(), if reason != Running then Halt(reason) else Next(Redirect(old(pc), pc))) ==
                SystemStep(old(Now()), Env(), inst, d)
    {
      hide Memory.Valid, Memory.View, Shadows, Slots, UsedAligned, Decoding, Backed4k, Backed4m, PrivilegedStep,
           CsrStep, Redirect, CsrIn;
      if d.funct3 == 0 {
        if inst == 0x1050_0073 && stopOnWfi {
          return Wfi;
        }
        ExecPrivileged(inst);
        return Running;
      }
      if d.funct3 == 4 {
        return Error;
      }
      ExecCsr(d);
      return Running;
    }

    /** The SYSTEM instructions that name no CSR. */
    method ExecPrivileged(inst: u32)
      requires Valid() && (inst == 0x1050_0073 ==> !stopOnWfi)
      modifies `pc, `priv, `csrs, `satp, `sstatus, `mstatus, `steps, `tlb4k, `tlb4m, `last4kKey, `last4mKey, `used, `stale
      ensures Valid() && (old(Backed()) ==> Backed())
      ensures StepsMoved(old(steps), steps + 1, runMax, mtimecmp)
      ensures Now() == PrivilegedStep(old(Now()), Env(), inst)
    {
      hide Memory.Valid, Memory.View, Shadows, Slots, UsedAligned, Decoding, Backed4k, Backed4m, Privileged.Trap,
           Privileged.Mret, Privileged.Sret, Slept,
           Interrupt, CsrIn;
      SleepIsSafe(State(), steps, mtimecmp, Env());
      if inst == 0x73 {
        Trap(if priv == 0 then 8 else if priv == 1 then 9 else 11, 0, false);
      } else if inst == 0x10_0073 {
        Trap(3, 0, false);
      } else if inst == 0x3020_0073 {
        Mret();
      } else if inst == 0x1020_0073 {
        Sret();
      } else if inst == 0x1050_0073 {
        FastForwardWfi();
      } else if inst / 0x200_0000 == 9 && inst % 0x8000 == 0x73 {
        FlushTlb();
        NothingCached(mem.View(), Context());
      }
    }

    method ExecCsr(d: Decoded)
      requires Valid() && Bounded(d) && d.funct3 !in {0, 4}
      modifies `x, `csrs, `satp, `sstatus, `mstatus, `tlb4k, `tlb4m, `last4kKey, `last4mKey, `used, `stale
      ensures Valid() && (old(Backed()) ==> Backed())
      ensures forall i :: 0 <= i < 32 && i != d.rd ==> x[i] == old(x)[i]
      ensures Now() == CsrStep(old(Now()), Env(), d)
    {
      hide Memory.Valid, Memory.View, Shadows, Slots, UsedAligned, Decoding, Backed4k, Backed4m, CsrValue, CsrNew,
           W, Privileged.Arch.Put, CsrIn;
      var was: u32 := CsrRead(d.csr);
      WId(was);
      var source: u32 := if d.funct3 < 4 then x[d.rs1] else d.rs1;
      if d.funct3 % 4 == 1 || d.rs1 != 0 {
        CsrWrite(d.csr, CsrNew(d.funct3, was, source));
        NothingCached(mem.View(), Context());
      }
      SetReg(d.rd, was);
    }

    /** Instructions that touch nothing but the registers and the next pc. */
    method ExecRegister(d: Decoded) returns (r: Effect)
      requires mem.Valid() && |x| == 32 && Bounded(d) && RegisterOnly(d.opcode)
      modifies `x
      ensures !r.Trapped? && (r.Next? || (r == Halt(Error) && x == old(x)))
      ensures |x| == 32 && forall i :: 0 <= i < 32 && i != d.rd ==> x[i] == old(x)[i]
      ensures (Now(), r) == RegisterStep(old(Now()), d)
    {
      hide OpImm, Op, Taken, W, Memory.View, Memory.Valid;
      var next := W(pc + 4);
      if d.opcode == 0x37 {
        x := x[d.rd := d.immU];
      } else if d.opcode == 0x17 {
        x := x[d.rd := W(pc + d.immU)];
      } else if d.opcode == 0x6F {
        x := x[d.rd := next];
        next := W(pc + d.immJ);
      } else if d.opcode == 0x67 {
        var target := (x[d.rs1] + d.immI) / 2 * 2;
        x := x[d.rd := next];
        next := W(target);
      } else if d.opcode == 0x63 {
        var taken := Taken(d.funct3, x[d.rs1], x[d.rs2]);
        if taken.None? {
          return Halt(Error);
        }
        if taken.value {
          next := W(pc + d.immB);
        }
      } else if d.opcode == 0x13 {
        var v := OpImm(d, x[d.rs1]);
        if v.None? { return Halt(Error); }
        x := x[d.rd := v.value];
      } else if d.opcode == 0x33 {
        var v := Op(d, x[d.rs1], x[d.rs2]);
        if v.None? { return Halt(Error); }
        x := x[d.rd := v.value];
      }
      r := Next(next);
    }

    method ExecLoad(d: Decoded) returns (r: Effect)
      requires Valid() && Bounded(d)
      modifies `x, `tlb4k, `tlb4m, `last4kKey, `last4kBase, `last4mKey, `last4mBase, `used, mem, mem.pages.Values
      ensures Sound() && fresh(mem.pages.Values - old(mem.pages.Values))
      ensures r.Next? || x == old(x)
      ensures r.Halt? ==> r.reason == Error
      ensures forall i :: 0 <= i < 32 && i != d.rd ==> x[i] == old(x)[i]
      ensures old(Backed()) ==>
                && Backed()
                && var (h, q) := LoadStep(old(Now()), d);
                   priv != 2 || !q.Trapped? ==> (Now(), r) == (h, q)
    {
      WIdAll();
      hide Memory.Valid, Memory.View, Shadows, Slots, UsedAligned, Decoding, Backed, W, Loaded;
      if d.funct3 !in {0, 1, 2, 4, 5} {
        return Halt(Error);
      }
      var size := AccessSize(d.funct3);
      var l := Load(W(x[d.rs1] + d.immI), size, d.funct3 < 2);
      if l.Faulted? { return Trapped(l.cause, l.vaddr); }
      if l.Illegal? { return Halt(Error); }
      x := x[d.rd := l.value];
      r := Next(W(pc + 4));
    }

    method ExecStore(d: Decoded) returns (r: Effect)
      requires Valid() && Bounded(d)
      modifies `tlb4k, `tlb4m, `last4kKey, `last4kBase, `last4mKey, `last4mBase, `used, `stale,
               `mtimecmp, mem, mem.pages.Values
      ensures Sound() && fresh(mem.pages.Values - old(mem.pages.Values))
      ensures r.Halt? ==> r.reason == Error
      ensures old(Backed()) ==>
                && (stale || Backed())
                && var (h, q) := StoreStep(old(Now()), d);
                   priv != 2 || !q.Trapped? ==> (Now(), r) == (h, q)
    {
      WIdAll();
      hide Memory.Valid, Memory.View, Shadows, Slots, UsedAligned, Decoding, Backed, W, StoredBy;
      if d.funct3 !in {0, 1, 2} {
        return Halt(Error);
      }
      var size := AccessSize(d.funct3);
      var s := Store(W(x[d.rs1] + d.immS), size, x[d.rs2]);
      if s.Faulted? { return Trapped(s.cause, s.vaddr); }
      if s.Illegal? { return Halt(Error); }
      r := Next(W(pc + 4));
    }

    /** Loads, stores and AMOs. */
    method ExecMemory(d: Decoded) returns (r: Effect)
      requires Valid() && Bounded(d)
      modifies `x, `tlb4k, `tlb4m, `last4kKey, `last4kBase, `last4mKey, `last4mBase, `used, `stale,
               `mtimecmp, mem, mem.pages.Values
      ensures Sound() && fresh(mem.pages.Values - old(mem.pages.Values))
      ensures r.Next? || x == old(x)
      ensures r.Halt? ==> r.reason == Error
      ensures forall i :: 0 <= i < 32 && i != d.rd ==> x[i] == old(x)[i]
      ensures State() == old(State()) && steps == old(steps)
      ensures old(Backed()) ==>
                && (stale || Backed())
                && var (h, q) := MemoryStep(old(Now()), d);
                   priv != 2 || !q.Trapped? ==> (Now(), r) == (h, q)
    {
      hide Memory.Valid, Memory.View, Shadows, Slots, UsedAligned, Decoding, Backed, W, LoadStep, StoreStep, AmoStep;
      if d.opcode == 0x03 {
        r := ExecLoad(d);
      } else if d.opcode == 0x23 {
        r := ExecStore(d);
      } else {
        var a := ExecAmo(d);
        if a.Faulted? { return Trapped(a.cause, a.vaddr); }
        if a.Illegal? { return Halt(Error); }
        r := Next(W(pc + 4));
      }
    }

    /** One decoded instruction.  x0 may be left dirty: `step` clears it. */
    method Execute(inst: u32, d: Decoded) returns (r: Effect)
      requires Valid() && d == DecodeOf(inst)
      modifies `x, `pc, `priv, `csrs, `satp, `sstatus, `mstatus, `steps, `mtimecmp, `used, `stale,
               `tlb4k, `tlb4m, `last4kKey, `last4kBase, `last4mKey, `last4mBase, mem, mem.pages.Values
      ensures Sound() && fresh(mem.pages.Values - old(mem.pages.Values))
      ensures r.Next? || x == old(x)
      ensures forall i :: 0 <= i < 32 && i != d.rd ==> x[i] == old(x)[i]
      ensures r.Halt? ==> r.reason in {Wfi, Error} && steps == old(steps)
      ensures !r.Next? ==> State() == old(State())
      ensures r.Trapped? ==> steps == old(steps)
      ensures StepsMoved(old(steps), steps + 1, runMax, mtimecmp)
      ensures old(Backed()) ==>
                && (stale || Backed())
                && var (h, q) := Executed(old(Now()), Env(), inst);
                   old(priv) != 2 || !q.Trapped? ==> (Now(), r) == (h, q)
    {
      hide DecodeOf, Memory.Valid, Memory.View, Shadows, Slots, UsedAligned, Decoding, Backed4k, Backed4m, W,
           RegisterStep, MemoryStep, SystemStep, Redirect;
      if RegisterOnly(d.opcode) {
        r := ExecRegister(d);
      } else if d.opcode in {0x03, 0x23, 0x2F} {
        r := ExecMemory(d);
      } else if d.opcode == 0x73 {
        var was := pc;
        var reason := ExecSystem(inst, d);
        r := if reason != Running then Halt(reason) else Next(Redirect(was, pc));
      } else {
        r := Halt(Error);
      }
    }

    /** One step.  Either an interrupt is taken, or an instruction is fetched and
        executed; a page fault in either half traps with the registers as they were. */
    method Step() returns (reason: StopReason, ghost fault: Option<(int, u32)>)
      requires Valid()
      modifies this, mem, mem.pages.Values
      ensures Valid() && fresh(mem.pages.Values - old(mem.pages.Values))
      ensures runMax == old(runMax) && externalIrq == old(externalIrq)
      ensures reason in {Running, Wfi, Error}
      ensures if reason == Running then steps > old(steps) else steps == old(steps) && x == old(x)
      ensures reason == Running ==> StepsMoved(old(steps), steps, runMax, mtimecmp)
      ensures fault.Some? ==>
                && reason == Running && x == old(x) && steps == old(steps) + 1
                && State() == Privileged.Trap(old(State()), fault.value.0, fault.value.1, false)
      ensures old(PendingInterrupt()).Some? ==>
                && reason == Running && fault.None? && x == old(x) && steps == old(steps) + 1
                && mem.View() == old(mem.View())
                && State() == Privileged.Trap(old(State()), old(PendingInterrupt()).value, 0, true)
      ensures old(Backed()) && (old(priv) != 2 || !StepFaults(old(Now()), old(Env()))) ==>
                (stale || Backed()) && (Now(), reason) == StepOf(old(Now()), old(Env()))
    {
      hide Memory.Valid, Memory.View, Shadows, Slots, UsedAligned, Decoding, Backed4k, Backed4m, Interrupt,
           Privileged.Trap, InstructionOf, InstructionFaults, CsrIn;
      var taken := CheckInterrupt();
      if taken {
        steps := steps + 1;
        return Running, None;
      }
      reason, fault := StepInstruction();
    }

    /** The part of `step` after the interrupt check. */
    method StepInstruction() returns (reason: StopReason, ghost fault: Option<(int, u32)>)
      requires Valid()
      modifies this, mem, mem.pages.Values
      ensures Valid() && fresh(mem.pages.Values - old(mem.pages.Values))
      ensures runMax == old(runMax) && externalIrq == old(externalIrq)
      ensures reason in {Running, Wfi, Error}
      ensures if reason == Running then steps > old(steps) else steps == old(steps) && x == old(x)
      ensures reason == Running ==> StepsMoved(old(steps), steps, runMax, mtimecmp)
      ensures fault.Some? ==>
                && reason == Running && x == old(x) && steps == old(steps) + 1
                && State() == Privileged.Trap(old(State()), fault.value.0, fault.value.1, false)
      ensures old(Backed()) && (old(priv) != 2 || !InstructionFaults(old(Now()), old(Env()))) ==>
                (stale || Backed()) && (Now(), reason) == InstructionOf(old(Now()), old(Env()))
    {
      hide Memory.Valid, Memory.View, Slots, UsedAligned, Decoding, Backed, Fresh, After, WordAt, Privileged.Trap,
           Touched, Executed, Committed, CsrIn;
      FetchFaults(mem.View(), Context(), pc);
      var inst: u32;
      var t: Outcome;
      t, inst := FetchInstruction();
      if t.PageFault? {
        reason, fault := Commit(Trapped(t.cause, t.vaddr));
      } else {
        reason, fault := ExecuteAndCommit(inst);
      }
    }

    method ExecuteAndCommit(inst: u32) returns (reason: StopReason, ghost fault: Option<(int, u32)>)
      requires Valid()
      modifies `x, `pc, `priv, `csrs, `satp, `sstatus, `mstatus, `steps, `mtimecmp, `used, `stale, `decodeCache,
               `tlb4k, `tlb4m, `last4kKey, `last4kBase, `last4mKey, `last4mBase, mem, mem.pages.Values
      ensures Valid() && fresh(mem.pages.Values - old(mem.pages.Values))
      ensures reason in {Running, Wfi, Error}
      ensures if reason == Running then StepsMoved(old(steps), steps, runMax, mtimecmp)
              else steps == old(steps) && x == old(x)
      ensures fault.Some? ==>
                && reason == Running && x == old(x) && steps == old(steps) + 1
                && State() == Privileged.Trap(old(State()), fault.value.0, fault.value.1, false)
      ensures old(Backed()) ==>
                var (k, r) := Executed(old(Now()), old(Env()), inst);
                && (stale || Backed())
                && (old(priv) != 2 || !r.Trapped? ==> k.Sized() && (Now(), reason) == Committed(k, r))
    {
      hide DecodeOf, Memory.Valid, Memory.View, Shadows, Slots, UsedAligned, Decoding, Privileged.Trap, Executed,
           Committed, Now, Backed;
      assert Now().Sized();
      ExecutedSized(Now(), Env(), inst);
      var d := Decode(inst);
      var r := Execute(inst, d);
      reason, fault := Commit(r);
    }

    method FetchInstruction() returns (t: Outcome, inst: u32)
      requires Sound()
      modifies `tlb4k, `tlb4m, `last4kKey, `last4kBase, `last4mKey, `last4mBase, `used, mem, mem.pages.Values
      ensures Sound() && fresh(mem.pages.Values - old(mem.pages.Values))
      ensures t.PageFault? ==> mem.View() == old(mem.View())
      ensures old(Backed()) ==>
                && Backed() && Now() == old(Now()).Walked(pc, Fetch)
                && (priv != 2 || Fresh(old(mem.View()), Context(), pc, Fetch).Ok? ==>
                      t == Fresh(old(mem.View()), Context(), pc, Fetch))
      ensures t.Ok? ==> inst == WordAt(mem.View(), t.pa)
    {
      hide Slots, UsedAligned, Decoding, Backed, Fresh, After, LeafOf, Permitted, Memory.View, Memory.Valid, Hit,
           WordAt, Touched;
      WId(pc);
      hide W;
      inst := 0;
      t := Translate(pc, Fetch);
      if t.Ok? {
        inst := mem.ReadU32(t.pa);
      }
    }

    /** The end of `step`: the trap of a page fault, the halt, or the move to the
        next instruction with x0 cleared. */
    method Commit(r: Effect) returns (reason: StopReason, ghost fault: Option<(int, u32)>)
      requires Sound() && (r.Next? || x[0] == 0)
      requires r.Halt? ==> r.reason != Running
      modifies `pc, `priv, `csrs, `satp, `sstatus, `mstatus, `tlb4k, `tlb4m, `last4kKey, `last4mKey, `used, `stale, `x, `steps
      ensures Valid() && (old(stale || Backed()) ==> stale || Backed())
      ensures (Now(), reason) == Committed(old(Now()), r)
      ensures match r
              case Trapped(cause, va) =>
                && reason == Running && fault == Some((cause, va)) && x == old(x) && steps == old(steps) + 1
                && State() == Privileged.Trap(old(State()), cause, va, false)
              case Halt(why) => reason == why && fault == None && x == old(x) && steps == old(steps)
              case Next(next) =>
                && reason == Running && fault == None && steps == old(steps) + 1
                && State() == old(State()).(pc := next) && x == old(x)[0 := 0]
    {
      hide Memory.Valid, Memory.View, Shadows, Slots, UsedAligned, Decoding, Backed4k, Backed4m, Privileged.Trap,
           CsrIn;
      match r {
        case Trapped(cause, va) =>
          Trap(cause, va, false);
          steps := steps + 1;
          return Running, Some((cause, va));
        case Halt(why) =>
          return why, None;
        case Next(next) =>
          pc := next;
          x := x[0 := 0];
          steps := steps + 1;
          return Running, None;
      }
    }

    /** Runs to the step limit, a breakpoint, WFI or an error.  The limit is never
        overrun, and reaching it is the only way to report it. */
    method Run(maxSteps: nat, stopPc: Option<u32>) returns (reason: StopReason)
      requires Valid()
      modifies this, mem, mem.pages.Values
      ensures Valid() && fresh(mem.pages.Values - old(mem.pages.Values))
      ensures old(steps) <= steps && runMax == old(runMax) && externalIrq == old(externalIrq)
      ensures steps <= Max(maxSteps, old(steps))
      ensures reason != Running
      ensures reason == MaxSteps <==> steps >= maxSteps
      ensures reason == Breakpoint ==> stopPc == Some(pc)
      ensures var s := Setting(Some(maxSteps), externalIrq, stopOnWfi);
              old(stale || Backed()) && Disciplined(old(Now()), s, maxSteps, stopPc) ==>
                (Now(), reason) == RunOf(old(Now()), s, maxSteps, stopPc)
    {
      hide Memory.Valid, Memory.View, Shadows, Slots, UsedAligned, Decoding, Backed, RunOf, Disciplined;
      var previous := runMax;
      runMax := Some(maxSteps);
      reason := RunLoop(maxSteps, stopPc);
      runMax := previous;
    }

    /** The loop of `run`, with its limit installed. */
    method RunLoop(maxSteps: nat, stopPc: Option<u32>) returns (reason: StopReason)
      requires Valid() && runMax == Some(maxSteps)
      modifies this, mem, mem.pages.Values
      ensures Valid() && fresh(mem.pages.Values - old(mem.pages.Values))
      ensures old(steps) <= steps && runMax == old(runMax) && externalIrq == old(externalIrq)
      ensures steps <= Max(maxSteps, old(steps))
      ensures reason != Running
      ensures reason == MaxSteps <==> steps >= maxSteps
      ensures reason == Breakpoint ==> stopPc == Some(pc)
      ensures old(stale || Backed()) && Disciplined(old(Now()), old(Env()), maxSteps, stopPc) ==>
                (Now(), reason) == RunOf(old(Now()), old(Env()), maxSteps, stopPc)
    {
      hide Memory.Valid, Memory.View, Shadows, Slots, UsedAligned, Decoding, Backed, Privileged.Trap, StepOf,
           StepFaults, RunOf, Disciplined, PendingInterrupt;
      ghost var h, s := Now(), Env();
      ghost var tracked := (stale || Backed()) && Disciplined(h, s, maxSteps, stopPc);
      while steps < maxSteps
        invariant Valid() && fresh(mem.pages.Values - old(mem.pages.Values))
        invariant old(steps) <= steps <= Max(maxSteps, old(steps)) && Env() == s
        invariant tracked ==>
                    && (stale || Backed()) && Disciplined(Now(), s, maxSteps, stopPc)
                    && RunOf(Now(), s, maxSteps, stopPc) == RunOf(h, s, maxSteps, stopPc)
        decreases maxSteps - steps
      {
        if stopPc == Some(pc) {
          RunStops(Now(), s, maxSteps, stopPc);
          return Breakpoint;
        }
        if tracked {
          RunSteps(Now(), s, maxSteps, stopPc);
        }
        var why, _ := Step();
        if why != Running {
          return why;
        }
      }
      RunStops(Now(), s, maxSteps, stopPc);
      reason := MaxSteps;
    }
  }

  lemma WIdAll()
    ensures forall a: u32 :: W(a) == a
  {
  }

  lemma FetchFaults(m: Flat, c: Regime, va: u32)
    ensures Fresh(m, c, va, Fetch).PageFault? ==> Fresh(m, c, va, Fetch) == PageFault(12, va)
  {
  }

  lemma Inactive(m: Flat, c: Regime, va: u32, acc: Access)
    requires !Active(c)
    ensures Fresh(m, c, va, acc) == Ok(va) && After(m, c, va, acc) == m
  {
  }

  lemma NothingCached(m: Flat, c: Regime)
    ensures Backed4k(m, c, map[], {}) && Backed4m(m, c, map[], {})
  {
  }

  /** A translation that is off, or that went through entries already in use. */
  lemma NothingTouched(m: Flat, c: Regime, va: u32, acc: Access, used: set<u32>)
    requires Active(c) ==> Reads(m, c.satp, va) <= used
    ensures used + Touched(m, c, va, acc) == used
  {
    hide Fresh, Reads;
  }

  /** Marking a leaf leaves the frame it names alone. */
  lemma SameLeafBase(pte: u32, store: bool)
    ensures WithAd(pte, store) / 0x400 == pte / 0x400
    ensures WithAd(pte, store) / 0x10_0000 == pte / 0x10_0000
  {
    AdBits(pte, store);
    CoreDetermines(pte, WithAd(pte, store));
  }
}
