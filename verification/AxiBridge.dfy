/** The bridge from the processor's request port to an AXI4 bus: a clocked machine
    against any slave, which may raise its READY and VALID signals at any time.  The
    handshake rules are those of section A3.2.1 of ARM IHI 0022. */
module AxiBridge {
  import opened Words

  type u4 = x: int | 0 <= x < 16

  datatype State = Idle | WaitAwW | WaitB | WaitAr | WaitR | Done

  datatype Regs = Regs(
    state: State, addr: u32, wdata: u32, wstrb: u4, rdata: u32,
    awDone: bool, wDone: bool, beats: u4, beat: u4)

  /** What the bridge samples in one cycle: the request and the slave's signals. */
  datatype Inputs = Inputs(
    valid: bool, we: bool, wstrb: u4, addr: u32, wdata: u32, readBeats: u4,
    awready: bool, wready: bool, bvalid: bool, arready: bool,
    rvalid: bool, rlast: bool, rdata: u32)

  datatype Outputs = Outputs(
    ready: bool, rdata: u32, beatValid: bool, beatIndex: u4, beatData: u32,
    awvalid: bool, awaddr: u32, wvalid: bool, wdata: u32, wstrb: u4, bready: bool,
    arvalid: bool, araddr: u32, arlen: u4, rready: bool)

  /** Where the processor's address space sits on the bus. */
  datatype Window = Window(cpuBase: u32, physBase: u32)

  function OnBus(p: Window, addr: u32): u32 { W(addr - p.cpuBase + p.physBase) }

  const RESET := Regs(Idle, 0, 0, 0, 0, false, false, 1, 0)

  predicate FinalBeat(r: Regs, i: Inputs) { i.rlast || r.beat == (r.beats - 1) % 16 }

  function Out(r: Regs, i: Inputs): Outputs {
    var reading := r.state == WaitR;
    Outputs(
      r.state == Done, r.rdata, reading && i.rvalid, r.beat, i.rdata,
      r.state == WaitAwW && !r.awDone, r.addr, r.state == WaitAwW && !r.wDone, r.wdata, r.wstrb, r.state == WaitB,
      r.state == WaitAr, r.addr, (r.beats - 1) % 16, reading)
  }

  function NextState(r: Regs, i: Inputs): State {
    match r.state
    case Idle => if i.valid && i.we then WaitAwW else if i.valid then WaitAr else Idle
    case WaitAwW => if (r.awDone || i.awready) && (r.wDone || i.wready) then WaitB else WaitAwW
    case WaitB => if i.bvalid then Done else WaitB
    case WaitAr => if i.arready then WaitR else WaitAr
    case WaitR => if i.rvalid && FinalBeat(r, i) then Done else WaitR
    case Done => if i.valid then Idle else Done
  }

  function Next(p: Window, r: Regs, i: Inputs): Regs {
    var take := r.state == Idle && i.valid;
    var beat := r.state == WaitR && i.rvalid;
    Regs(
      NextState(r, i),
      if take then OnBus(p, i.addr) else r.addr,
      if take then i.wdata else r.wdata,
      if take then i.wstrb else r.wstrb,
      if beat then i.rdata else r.rdata,
      if take && i.we then false else r.awDone || (r.state == WaitAwW && i.awready),
      if take && i.we then false else r.wDone || (r.state == WaitAwW && i.wready),
      if take then (if i.readBeats == 0 then 1 else i.readBeats) else r.beats,
      if take then 0 else if beat then (if FinalBeat(r, i) then 0 else (r.beat + 1) % 16) else r.beat)
  }

  // ---------------------------------------------------------------- the machine

  class Bridge {
    const window: Window
    var state: State
    var addr: u32
    var wdata: u32
    var wstrb: u4
    var rdata: u32
    var awDone: bool
    var wDone: bool
    var beats: u4
    var beat: u4

    ghost function Now(): Regs
      reads this
    {
      Regs(state, addr, wdata, wstrb, rdata, awDone, wDone, beats, beat)
    }

    constructor (p: Window)
      ensures window == p && Now() == RESET
    {
      window := p;
      state := Idle;
      addr, wdata, wstrb, rdata := 0, 0, 0, 0;
      awDone, wDone := false, false;
      beats, beat := 1, 0;
    }

    /** The combinational block: every output has its default before the case. */
    method Combine(i: Inputs) returns (o: Outputs, nextState: State)
      ensures o == Out(Now(), i) && nextState == NextState(Now(), i) && (o.rready <==> state == WaitR)
    {
      nextState := state;
      var awvalid, wvalid, bready, arvalid, rready, ready := false, false, false, false, false, false;
      var final := i.rlast || beat == (beats - 1) % 16;
      match state {
        case Idle =>
          if i.valid && i.we {
            nextState := WaitAwW;
          } else if i.valid && !i.we {
            nextState := WaitAr;
          }
        case WaitAwW =>
          awvalid := !awDone;
          wvalid := !wDone;
          if (awDone || i.awready) && (wDone || i.wready) {
            nextState := WaitB;
          }
        case WaitB =>
          bready := true;
          if i.bvalid {
            nextState := Done;
          }
        case WaitAr =>
          arvalid := true;
          if i.arready {
            nextState := WaitR;
          }
        case WaitR =>
          rready := true;
          if i.rvalid && final {
            nextState := Done;
          }
        case Done =>
          ready := true;
          if i.valid {
            nextState := Idle;
          }
      }
      o := Outputs(ready, rdata, state == WaitR && i.rvalid && rready, beat, i.rdata,
                   awvalid, addr, wvalid, wdata, wstrb, bready, arvalid, addr, (beats - 1) % 16, rready);
    }

    /** One rising edge: every register takes its new value from the values before it. */
    method Clock(i: Inputs) returns (o: Outputs)
      modifies this
      ensures o == Out(old(Now()), i) && Now() == Next(window, old(Now()), i)
    {
      hide Out, NextState;
      var nextState;
      o, nextState := Combine(i);
      var was := state;
      var final := i.rlast || beat == (beats - 1) % 16;
      state := nextState;
      if was == Idle && i.valid {
        addr := W(i.addr - window.cpuBase + window.physBase);
        wdata := i.wdata;
        wstrb := i.wstrb;
        beats := if i.readBeats == 0 then 1 else i.readBeats;
        beat := 0;
      }
      if was == Idle && i.valid && i.we {
        awDone := false;
        wDone := false;
      } else if was == WaitAwW {
        if !awDone && i.awready {
          awDone := true;
        }
        if !wDone && i.wready {
          wDone := true;
        }
      }
      if was == WaitR && i.rvalid && o.rready {
        rdata := i.rdata;
        beat := if final then 0 else (beat + 1) % 16;
      }
    }
  }

  // ---------------------------------------------------------------- one cycle to the next

  /** A VALID that has not met its READY stays, with its payload,
      whatever the next cycle brings. */
  lemma ValidHolds(p: Window, r: Regs, i: Inputs, j: Inputs)
    ensures var o, n := Out(r, i), Out(Next(p, r, i), j);
            && (o.awvalid && !i.awready ==> n.awvalid && n.awaddr == o.awaddr)
            && (o.wvalid && !i.wready ==> n.wvalid && n.wdata == o.wdata && n.wstrb == o.wstrb)
            && (o.arvalid && !i.arready ==> n.arvalid && n.araddr == o.araddr && n.arlen == o.arlen)
  {
  }

  /** No VALID waits for a READY: it is the same whatever the slave does in the cycle. */
  lemma ValidDoesNotWait(r: Regs, i: Inputs, j: Inputs)
    ensures var o, n := Out(r, i), Out(r, j);
            o.awvalid == n.awvalid && o.wvalid == n.wvalid && o.arvalid == n.arvalid
  {
  }

  // ---------------------------------------------------------------- whole runs

  datatype Beat = Beat(index: u4, data: u32, last: bool)

  /** What an observer of the ports writes down: how many requests were taken and
      answered, how many handshakes each channel made, the request in hand, and the
      beats delivered for it. */
  datatype Log = Log(
    stores: nat, loads: nat, answers: nat,
    aw: nat, w: nat, b: nat, ar: nat,
    request: Inputs, beats: seq<Beat>)

  const QUIET := Inputs(false, false, 0, 0, 0, 0, false, false, false, false, false, false, 0)

  function One(c: bool): nat { if c then 1 else 0 }

  function Note(l: Log, r: Regs, i: Inputs): Log {
    var o := Out(r, i);
    var take := r.state == Idle && i.valid;
    Log(l.stores + One(take && i.we), l.loads + One(take && !i.we), l.answers + One(o.ready && i.valid),
        l.aw + One(o.awvalid && i.awready), l.w + One(o.wvalid && i.wready), l.b + One(i.bvalid && o.bready),
        l.ar + One(o.arvalid && i.arready),
        if take then i else l.request,
        if take then [] else if o.beatValid then l.beats + [Beat(o.beatIndex, o.beatData, i.rlast)] else l.beats)
  }

  /** The registers and the log after the cycles `ins`, from reset. */
  function After(p: Window, ins: seq<Inputs>): (Regs, Log) {
    if ins == [] then (RESET, Log(0, 0, 0, 0, 0, 0, 0, QUIET, []))
    else
      var before := After(p, ins[..|ins| - 1]);
      var i := ins[|ins| - 1];
      (Next(p, before.0, i), Note(before.1, before.0, i))
  }

  /** How many beats the request in hand asks for. */
  function Wanted(i: Inputs): u4 { if i.readBeats == 0 then 1 else i.readBeats }

  /** Every write taken has made each of its handshakes but those still to come. */
  predicate WritesBalanced(r: Regs, l: Log) {
    && l.aw == l.stores - One(r.state == WaitAwW && !r.awDone)
    && l.w == l.stores - One(r.state == WaitAwW && !r.wDone)
    && l.b == l.stores - One(r.state == WaitAwW || r.state == WaitB)
    && (r.state == WaitAwW ==> !(r.awDone && r.wDone))
  }

  predicate ReadsBalanced(r: Regs, l: Log) { l.ar == l.loads - One(r.state == WaitAr) }

  predicate AnswersBalanced(r: Regs, l: Log) { l.answers == l.stores + l.loads - One(r.state != Idle) }

  predicate Balanced(r: Regs, l: Log) { WritesBalanced(r, l) && ReadsBalanced(r, l) && AnswersBalanced(r, l) }

  /** The registers hold the request in hand, addressed on the bus. */
  predicate Holds(p: Window, r: Regs, q: Inputs) {
    && r.addr == OnBus(p, q.addr) && r.wdata == q.wdata && r.wstrb == q.wstrb && r.beats == Wanted(q)
    && (r.state in {WaitAwW, WaitB} ==> q.we)
    && (r.state in {WaitAr, WaitR} ==> !q.we)
  }

  /** The beats so far are numbered from 0 in order and only the last one may end the
      burst, by RLAST or by being the last wanted. */
  predicate InOrder(bs: seq<Beat>, wanted: u4) {
    && |bs| <= wanted
    && forall k :: 0 <= k < |bs| ==> bs[k].index == k && (k < |bs| - 1 ==> !bs[k].last)
  }

  predicate Reading(r: Regs, l: Log) {
    match r.state
    case WaitAr => l.beats == [] && r.beat == 0
    case WaitR =>
      && |l.beats| == r.beat < r.beats && InOrder(l.beats, r.beats)
      && (r.beat > 0 ==> !l.beats[|l.beats| - 1].last)
    case Done =>
      !l.request.we ==>
        && InOrder(l.beats, r.beats) && |l.beats| > 0
        && (l.beats[|l.beats| - 1].last || |l.beats| == r.beats)
        && r.rdata == l.beats[|l.beats| - 1].data
    case _ => true
  }

  predicate Inv(p: Window, r: Regs, l: Log) {
    && Balanced(r, l)
    && (r.state != Idle ==> Holds(p, r, l.request) && Reading(r, l))
  }

  lemma WritesKept(p: Window, r: Regs, l: Log, i: Inputs)
    requires WritesBalanced(r, l)
    ensures WritesBalanced(Next(p, r, i), Note(l, r, i))
  {
    hide OnBus, FinalBeat;
  }

  lemma ReadsKept(p: Window, r: Regs, l: Log, i: Inputs)
    requires ReadsBalanced(r, l)
    ensures ReadsBalanced(Next(p, r, i), Note(l, r, i))
  {
    hide OnBus, FinalBeat;
  }

  lemma AnswersKept(p: Window, r: Regs, l: Log, i: Inputs)
    requires AnswersBalanced(r, l)
    ensures AnswersBalanced(Next(p, r, i), Note(l, r, i))
  {
    hide OnBus, FinalBeat;
  }

  lemma BalanceKept(p: Window, r: Regs, l: Log, i: Inputs)
    requires Balanced(r, l)
    ensures Balanced(Next(p, r, i), Note(l, r, i))
  {
    hide WritesBalanced, ReadsBalanced, AnswersBalanced, Next, Note;
    WritesKept(p, r, l, i);
    ReadsKept(p, r, l, i);
    AnswersKept(p, r, l, i);
  }

  lemma HoldKept(p: Window, r: Regs, l: Log, i: Inputs)
    requires r.state != Idle ==> Holds(p, r, l.request)
    ensures Next(p, r, i).state != Idle ==> Holds(p, Next(p, r, i), Note(l, r, i).request)
  {
  }

  lemma ReadKept(p: Window, r: Regs, l: Log, i: Inputs)
    requires r.state != Idle ==> Holds(p, r, l.request) && Reading(r, l)
    ensures Next(p, r, i).state != Idle ==> Reading(Next(p, r, i), Note(l, r, i))
  {
    if r.state == WaitR && i.rvalid {
      assert (r.beat + 1) % 16 == r.beat + 1;
    }
  }

  /** The invariant of every run, against every slave and every sequence of requests. */
  lemma {:induction false} EveryRun(p: Window, ins: seq<Inputs>)
    ensures Inv(p, After(p, ins).0, After(p, ins).1)
  {
    if ins != [] {
      EveryRun(p, ins[..|ins| - 1]);
      var before, i := After(p, ins[..|ins| - 1]), ins[|ins| - 1];
      BalanceKept(p, before.0, before.1, i);
      HoldKept(p, before.0, before.1, i);
      ReadKept(p, before.0, before.1, i);
    }
  }

  /** When the bridge is idle, every write taken has made exactly one AW, one W and one B
      handshake and every read exactly one AR, and all of them have been answered. */
  lemma {:induction false} OneHandshakeEach(p: Window, ins: seq<Inputs>)
    requires After(p, ins).0.state == Idle
    ensures var l := After(p, ins).1;
            l.aw == l.stores && l.w == l.stores && l.b == l.stores && l.ar == l.loads && l.answers == l.stores + l.loads
  {
    EveryRun(p, ins);
  }

  /** At most one request is outstanding, and its channels are never ahead of it. */
  lemma {:induction false} OneOutstanding(p: Window, ins: seq<Inputs>)
    ensures var l := After(p, ins).1;
            && l.answers <= l.stores + l.loads <= l.answers + 1
            && l.b <= l.aw <= l.stores && l.b <= l.w <= l.stores && l.ar <= l.loads
            && l.stores - l.b + (l.loads - l.ar) <= 1
  {
    EveryRun(p, ins);
  }

  lemma Offered(p: Window, r: Regs, q: Inputs, i: Inputs)
    requires r.state != Idle ==> Holds(p, r, q)
    ensures var o := Out(r, i);
            && (o.awvalid ==> q.we && OnWindow(p, q.addr, o.awaddr))
            && (o.wvalid ==> q.we && o.wdata == q.wdata && o.wstrb == q.wstrb)
            && (o.arvalid ==> !q.we && OnWindow(p, q.addr, o.araddr) && o.arlen == if q.readBeats == 0 then 0 else q.readBeats - 1)
  {
    Shifted(p, q.addr);
    hide OnBus;
  }

  /** The bus address is as far from the window's base there as the request is from the base here. */
  predicate OnWindow(p: Window, addr: u32, bus: u32) {
    (bus - p.physBase) % 0x1_0000_0000 == (addr - p.cpuBase) % 0x1_0000_0000
  }

  lemma Shifted(p: Window, addr: u32)
    ensures OnWindow(p, addr, OnBus(p, addr))
  {
    var x: int := addr - p.cpuBase + p.physBase;
    WAdd(x, 0 - p.physBase);
  }

  /** Whatever a channel offers is the request in hand. */
  lemma {:induction false} OffersTheRequest(p: Window, ins: seq<Inputs>, i: Inputs)
    ensures var s := After(p, ins);
            var o, q := Out(s.0, i), s.1.request;
            && (o.awvalid ==> q.we && OnWindow(p, q.addr, o.awaddr))
            && (o.wvalid ==> q.we && o.wdata == q.wdata && o.wstrb == q.wstrb)
            && (o.arvalid ==> !q.we && OnWindow(p, q.addr, o.araddr) && o.arlen == if q.readBeats == 0 then 0 else q.readBeats - 1)
  {
    hide After, Out, Holds, Balanced, Reading;
    EveryRun(p, ins);
    Offered(p, After(p, ins).0, After(p, ins).1.request, i);
  }

  /** A read is answered with the data of its last beat.  Its beats are numbered 0, 1, ...
      in order, and all that were wanted came if and only if the slave raised RLAST on
      none before the last of them. */
  lemma {:induction false} ReadAnswer(p: Window, ins: seq<Inputs>, i: Inputs)
    requires Out(After(p, ins).0, i).ready && !After(p, ins).1.request.we
    ensures var l := After(p, ins).1;
            var n := |l.beats|;
            && 0 < n <= Wanted(l.request)
            && (forall k :: 0 <= k < n ==> l.beats[k].index == k)
            && Out(After(p, ins).0, i).rdata == l.beats[n - 1].data
            && (n == Wanted(l.request) <==> forall k :: 0 <= k < n && l.beats[k].last ==> k == Wanted(l.request) - 1)
  {
    EveryRun(p, ins);
    var l := After(p, ins).1;
    assert l.beats[|l.beats| - 1].index == |l.beats| - 1;
  }
}
