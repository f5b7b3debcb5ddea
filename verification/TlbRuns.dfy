/** Whole runs of the translation machinery: every mixture of translations, CSR
    writes, fences, traps, returns and stores to memory, against a machine that has
    no TLB and walks the tables each time. */
module TlbRuns {
  import opened Words
  import opened FlatMemory
  import opened Sv32
  import opened Privileged
  import opened PagedMemory
  import opened Tlb
  import opened Reference
  import opened Cpu

  datatype Event =
    | Translate(acc: Access, va: u32)
    | WriteCsr(csr: int, v: int)
    | Fence
    | Poke(pa: int, data: seq<u8>)
    | TakeTrap(cause: int, tval: int, interrupt: bool)
    | DoMret
    | DoSret

  /** The machine without a TLB.  `used` collects the table entries that translations have
      gone through since the last flush, and `stale` says that one of them was changed,
      beyond setting A or D, and nothing was flushed since.  The keys of the leaves reached
      since then are kept to tell which requests a TLB would have found. */
  datatype Plain = Plain(m: Flat, a: Arch, used: set<u32>, stale: bool, keys4k: set<int>, keys4m: set<int>) {
    ghost function Regime(): Regime { Sv32.Regime.Regime(a.Csr(SATP), a.Csr(SSTATUS), a.priv) }

    ghost function Flushed(): Plain { this.(used := {}, stale := false, keys4k := {}, keys4m := {}) }

    ghost predicate Found(acc: Access, va: u32) {
      Active(Regime()) && (Key4k(acc, a.priv, va) in keys4k || Key4m(acc, a.priv, va) in keys4m)
    }
  }

  ghost function Does(p: Plain, e: Event): Plain {
    match e
    case Translate(acc, va) =>
      p.(m := After(p.m, p.Regime(), va, acc),
         used := p.used + Touched(p.m, p.Regime(), va, acc),
         keys4k := p.keys4k + Entered4k(p.m, p.Regime(), va, acc),
         keys4m := p.keys4m + Entered4m(p.m, p.Regime(), va, acc))
    case WriteCsr(csr, v) =>
      var q := p.(a := p.a.Put(csr, v));
      if Flushes(csr) then q.Flushed() else q
    case Fence => p.Flushed()
    case Poke(pa, data) =>
      var n := WithBytes(p.m, pa, data);
      p.(m := n, stale := p.stale || !Kept(p.m, n, p.used))
    case TakeTrap(cause, tval, interrupt) => p.(a := Trap(p.a, cause, tval, interrupt)).Flushed()
    case DoMret => p.(a := Mret(p.a)).Flushed()
    case DoSret => p.(a := Sret(p.a)).Flushed()
  }

  /** What a walk answers, and what decides whether a TLB answers the same: the request was
      found in it, and the leaf permits the request. */
  datatype Answer = Answer(walk: Outcome, found: bool, permitted: bool, priv: int)

  ghost function Says(p: Plain, e: Event): seq<Answer> {
    if !e.Translate? then []
    else
      var w := LeafOf(p.m, p.Regime().satp, e.va);
      [Answer(Fresh(p.m, p.Regime(), e.va, e.acc), p.Found(e.acc, e.va),
              w != Fault && Permitted(p.Regime(), w.pte, e.acc), p.a.priv)]
  }

  /** A TLB's answer is the walk's if and only if a request that was found is permitted; in
      privileges 0, 1 and 3 it always is the walk's. */
  predicate Meets(o: Outcome, w: Answer) {
    (o == w.walk <==> (w.found ==> w.permitted)) && (w.priv != 2 ==> o == w.walk)
  }

  ghost predicate AllMeet(os: seq<Outcome>, ws: seq<Answer>) {
    |os| == |ws| && forall i :: 0 <= i < |os| ==> Meets(os[i], ws[i])
  }

  ghost function RunOf(p: Plain, es: seq<Event>): Plain
    decreases |es|
  {
    if es == [] then p else Does(RunOf(p, es[..|es| - 1]), es[|es| - 1])
  }

  ghost function Answers(p: Plain, es: seq<Event>): seq<Answer>
    decreases |es|
  {
    if es == [] then []
    else Answers(p, es[..|es| - 1]) + Says(RunOf(p, es[..|es| - 1]), es[|es| - 1])
  }

  /** Software flushes between changing a table entry in use and the next translation. */
  ghost predicate Disciplined(p: Plain, es: seq<Event>) {
    forall i :: 0 <= i < |es| && es[i].Translate? ==> !RunOf(p, es[..i]).stale
  }

  ghost predicate Mirrors(c: Cpu, p: Plain)
    requires c.mem.Valid()
    reads c, c.mem, c.mem.pages.Values
  {
    && c.mem.View() == p.m && c.State() == p.a && c.used == p.used
    && (p.stale || (c.Backed() && c.tlb4k.Keys == p.keys4k && c.tlb4m.Keys == p.keys4m))
  }

  /** One event, on both machines. */
  method Perform(c: Cpu, e: Event, ghost p: Plain) returns (out: seq<Outcome>)
    requires c.Sound() && Mirrors(c, p)
    requires e.Translate? ==> !p.stale
    modifies c, c.mem, c.mem.pages.Values
    ensures c.Sound() && fresh(c.mem.pages.Values - old(c.mem.pages.Values))
    ensures Mirrors(c, Does(p, e)) && AllMeet(out, Says(p, e))
  {
    hide Backed4k, Backed4m, Fresh, After, Touched, Memory.View, Memory.Valid, Kept, WithBytes, Trap, Mret, Sret,
         Cpu.Slots, Cpu.UsedAligned, Cpu.Decoding, Entered4k, Entered4m, Key4k, Key4m, LeafOf, Permitted, CsrIn;
    out := [];
    match e {
      case Translate(acc, va) =>
        WId(va);
        var r := c.Translate(va, acc);
        out := [r];
      case WriteCsr(csr, v) =>
        c.CsrWrite(csr, v);
        NothingCached(c.mem.View(), c.Context());
      case Fence =>
        c.FlushTlb();
        NothingCached(c.mem.View(), c.Context());
      case Poke(pa, data) =>
        Poked(c, pa, data);
      case TakeTrap(cause, tval, interrupt) =>
        c.Trap(cause, tval, interrupt);
      case DoMret =>
        c.Mret();
      case DoSret =>
        c.Sret();
    }
  }

  /** A store from outside the hart: what is cached stays right unless it changed an entry
      in use. */
  method Poked(c: Cpu, pa: int, data: seq<u8>)
    requires c.Sound()
    modifies c.mem, c.mem.pages.Values
    ensures c.Sound() && fresh(c.mem.pages.Values - old(c.mem.pages.Values))
    ensures c.mem.View() == WithBytes(old(c.mem.View()), pa, data)
    ensures old(c.Backed()) && Kept(old(c.mem.View()), c.mem.View(), c.used) ==> c.Backed()
  {
    hide Backed4k, Backed4m, Memory.View, Memory.Valid, Kept, WithBytes, Cpu.Shadows, Cpu.Slots, Cpu.UsedAligned,
         Cpu.Decoding;
    ghost var was := c.mem.View();
    ghost var backed := c.Backed();
    c.mem.Load(pa, data);
    if backed && Kept(was, c.mem.View(), c.used) {
      BackedKept(was, c.mem.View(), c.Context(), c.tlb4k, c.tlb4m, c.used, c.used);
    }
  }

  ghost function Start(c: Cpu): Plain
    requires c.mem.Valid()
    reads c, c.mem, c.mem.pages.Values
  {
    Plain(c.mem.View(), c.State(), c.used, false, c.tlb4k.Keys, c.tlb4m.Keys)
  }

  /** Main result: over every disciplined run, in every privilege, from any state in which
      the TLBs are backed, the simulator's memory and state are those of the machine that
      walks the tables every time, and so is each of its answers if and only if a request
      that was found is permitted; outside privilege 2 that is every answer. */
  method Run(c: Cpu, es: seq<Event>) returns (outs: seq<Outcome>)
    requires c.Sound() && c.Backed() && Disciplined(Start(c), es)
    modifies c, c.mem, c.mem.pages.Values
    ensures c.Sound() && fresh(c.mem.pages.Values - old(c.mem.pages.Values))
    ensures AllMeet(outs, Answers(old(Start(c)), es))
    ensures c.mem.View() == RunOf(old(Start(c)), es).m && c.State() == RunOf(old(Start(c)), es).a
  {
    hide Does, Says, Backed4k, Backed4m, Memory.View, Memory.Valid, Cpu.Shadows, Cpu.Slots, Cpu.UsedAligned,
         Cpu.Decoding,
         Meets;
    ghost var p := Start(c);
    outs := [];
    var i := 0;
    while i < |es|
      invariant 0 <= i <= |es|
      invariant c.Sound() && fresh(c.mem.pages.Values - old(c.mem.pages.Values))
      invariant Mirrors(c, RunOf(p, es[..i])) && AllMeet(outs, Answers(p, es[..i]))
    {
      var out := Perform(c, es[i], RunOf(p, es[..i]));
      assert es[..i + 1][..i] == es[..i];
      outs := outs + out;
      i := i + 1;
    }
    assert es[..|es|] == es;
  }
}
