/** The M-mode firmware's trap handler, register by register.  Fields are the
    registers and CSRs it uses; `scratch` holds the 1 KiB scratch block as words. */
module Firmware {
  import opened Words
  import Bits

  const SCRATCH: u32 := 0x2001_0000
  const TIMER: u32 := 0x1001_0000

  /** One access of the console calls to memory the launcher shares. */
  datatype Access =
    | ReadTotal(total: u32)
    | ReadHead(head: u32)
    | StoreByte(slot: nat, ch: u8)
    | WriteTotal(total: u32)
    | ReadTail(tail: u32)
    | LoadByte(slot: nat, ch: u8)
    | WriteHead(head: u32)

  datatype Outcome = Returned | Reset | Failed | Waiting

  function Value(hi: u32, lo: u32): u64 { hi * 0x1_0000_0000 + lo }

  /** The hart's add and sub. */
  function Add(x: u32, y: u32): u32 { W(x + y) }

  function Sub(x: u32, y: u32): u32 { W(x - y) }

  function Flag(b: bool): u32 { if b then 1 else 0 }

  function W64(x: int): u64 { x % 0x1_0000_0000_0000_0000 }

  ghost predicate Monotone(clock: nat -> u64) {
    forall i: nat, j: nat :: i <= j ==> clock(i) <= clock(j)
  }

  /** Byte b of the scratch block. */
  function ByteOf(words: seq<u32>, b: nat): u8
    requires b / 4 < |words|
  {
    Byte(words[b / 4], b % 4)
  }

  /** The word after `sb` of v into its byte i. */
  function Stored(word: u32, i: nat, v: int): u32
    requires i < 4
  {
    W(Patch(word, i, v % 0x100))
  }

  /** The clock showed v at some tick of the interval. */
  ghost predicate Shown(clock: nat -> u64, v: u64, from: nat, to: nat) {
    exists k: nat :: from <= k < to && clock(k) == v
  }

  /** Words outside `changed` are the same. */
  ghost predicate Keeps(was: seq<u32>, now: seq<u32>, changed: set<int>) {
    |was| == |now| && forall i :: 0 <= i < |was| && i !in changed ==> now[i] == was[i]
  }

  // ---------------------------------------------------------------- 64 bits in two words

  /** The unsigned comparison after an addition is its carry. */
  lemma Carry(x: u32, y: u32)
    ensures x + y == Add(x, y) + 0x1_0000_0000 * Flag(Add(x, y) < x)
    ensures Add(x, y) < x <==> Add(x, y) < y
  {
  }

  lemma Add64(ah: u32, al: u32, bh: u32, bl: u32)
    ensures var lo := Add(al, bl);
            && Value(Add(Add(ah, bh), Flag(lo < al)), lo) == W64(Value(ah, al) + Value(bh, bl))
            && (lo < al <==> lo < bl)
  {
    hide W, Flag;
    Carry(al, bl);
    var lo: int := Add(al, bl);
    var carry: int := Flag(lo < al);
    WAdd(ah + bh, carry);
    Joined(ah + bh + carry, lo);
  }

  /** Truncating the high half is truncating the whole. */
  lemma Joined(hi: int, lo: u32)
    ensures W64(hi * 0x1_0000_0000 + lo) == Value(W(hi), lo)
  {
    var top := hi / 0x1_0000_0000;
    assert hi == W(hi) + 0x1_0000_0000 * top;
    Bits.DivUnique(hi * 0x1_0000_0000 + lo, 0x1_0000_0000_0000_0000, top, Value(W(hi), lo));
  }

  /** The unsigned comparison before a subtraction is its borrow. */
  lemma Borrow(x: u32, y: u32)
    ensures x - y == Sub(x, y) - 0x1_0000_0000 * Flag(x < y)
  {
  }

  lemma Sub64(ah: u32, al: u32, bh: u32, bl: u32)
    ensures Value(Sub(Sub(ah, bh), Flag(al < bl)), Sub(al, bl)) == W64(Value(ah, al) - Value(bh, bl))
  {
    hide W, Flag;
    Borrow(al, bl);
    var borrow: int := Flag(al < bl);
    WAdd(ah - bh, -borrow);
    Joined(ah - bh - borrow, Sub(al, bl));
  }

  lemma OnlyDeadline(was: seq<u32>, now: seq<u32>)
    requires |was| == 256 == |now| && now == was[200 := now[200]][201 := now[201]]
    ensures Keeps(was, now, {200, 201})
  {
  }

  lemma AddMinimum(h: u32, l: u32)
    ensures var lo := Add(l, 0x1_0000);
            Value(Add(h, Flag(lo < 0x1_0000)), lo) == W64(Value(h, l) + 0x1_0000)
  {
    Add64(h, l, 0, 0x1_0000);
    WId(h);
  }

  lemma Split(v: u64)
    ensures v / 0x1_0000_0000 < 0x1_0000_0000
    ensures Value(v / 0x1_0000_0000, v % 0x1_0000_0000) == v
  {
  }

  class Hart {
    var t0: u32
    var t1: u32
    var t2: u32
    var t3: u32
    var t4: u32
    var t5: u32
    var t6: u32
    var s0: u32
    var s1: u32
    var a0: u32
    var a1: u32
    var a6: u32
    var a7: u32
    var mscratch: u32
    var mepc: u32
    var mcause: u32
    var mtimecmp: u64
    const scratch: array<u32>
    /** The clocks behind the timer registers and the time CSR, read at `now`. */
    const mtime: nat -> u64
    const rdtime: nat -> u64
    var now: nat
    /** Every value mtimecmp has had since the handler was entered. */
    ghost var deadlines: seq<u64>
    /** The accesses to the two rings, in order. */
    ghost var accesses: seq<Access>

    ghost predicate Valid() {
      scratch.Length == 256 && Monotone(mtime) && Monotone(rdtime)
    }

    method Sw(base: u32, off: nat, v: u32)
      requires Valid() && base == SCRATCH && off % 4 == 0 && off < 1024
      modifies scratch
      ensures scratch[..] == old(scratch[..])[off / 4 := v]
    {
      scratch[off / 4] := v;
    }

    function Lw(base: u32, off: nat): u32
      requires scratch.Length == 256 && base == SCRATCH && off % 4 == 0 && off < 1024
      reads scratch
    {
      scratch[off / 4]
    }

    method StoreTimer(base: u32, off: nat, v: u32)
      requires base == TIMER && off in {8, 12}
      modifies `mtimecmp, `deadlines
      ensures mtimecmp == (if off == 8 then old(mtimecmp) / 0x1_0000_0000 * 0x1_0000_0000 + v
                           else v * 0x1_0000_0000 + old(mtimecmp) % 0x1_0000_0000)
      ensures deadlines == old(deadlines) + [mtimecmp]
    {
      if off == 8 {
        mtimecmp := mtimecmp / 0x1_0000_0000 * 0x1_0000_0000 + v;
      } else {
        mtimecmp := v * 0x1_0000_0000 + mtimecmp % 0x1_0000_0000;
      }
      deadlines := deadlines + [mtimecmp];
    }

    /** The hi/lo/hi loop over mtime: it ends, and what it leaves in t1:t0 is a value
        the clock showed while it ran. */
    method ReadMtime()
      requires Valid()
      modifies `t0, `t1, `t3, `now
      ensures now > old(now) && Shown(mtime, Value(t1, t0), old(now), now)
    {
      var tries := 0x1_0000_0000;
      while true
        invariant now >= old(now)
        invariant tries < 0x1_0000_0000 ==> now > 0 && mtime(now - 1) / 0x1_0000_0000 >= 0x1_0000_0000 - tries
        invariant 0 <= tries <= 0x1_0000_0000
        decreases tries
      {
        Split(mtime(now));
        Split(mtime(now + 1));
        Split(mtime(now + 2));
        t1 := mtime(now) / 0x1_0000_0000;
        t0 := mtime(now + 1) % 0x1_0000_0000;
        t3 := mtime(now + 2) / 0x1_0000_0000;
        ghost var middle := mtime(now + 1);
        HighWords(mtime, now);
        now := now + 3;
        if t1 == t3 {
          return;
        }
        tries := 0x1_0000_0000 - t3;
      }
    }

    /** The same loop over the time CSRs, into t3:t2. */
    method ReadRdtime()
      requires Valid()
      modifies `t2, `t3, `t5, `now
      ensures now > old(now) && Shown(rdtime, Value(t3, t2), old(now), now)
    {
      var tries := 0x1_0000_0000;
      while true
        invariant now >= old(now)
        invariant tries < 0x1_0000_0000 ==> now > 0 && rdtime(now - 1) / 0x1_0000_0000 >= 0x1_0000_0000 - tries
        invariant 0 <= tries <= 0x1_0000_0000
        decreases tries
      {
        Split(rdtime(now));
        Split(rdtime(now + 1));
        Split(rdtime(now + 2));
        t3 := rdtime(now) / 0x1_0000_0000;
        t2 := rdtime(now + 1) % 0x1_0000_0000;
        t5 := rdtime(now + 2) / 0x1_0000_0000;
        ghost var middle := rdtime(now + 1);
        HighWords(rdtime, now);
        now := now + 3;
        if t3 == t5 {
          return;
        }
        tries := 0x1_0000_0000 - t5;
      }
    }

    // -------------------------------------------------------------- the timer call

    /** The clock offset in force: fixed by the first timer call, then reused. */
    function Offset(mt: u64, rt: u64): u64
      requires scratch.Length == 256
      reads scratch
    {
      if scratch[139] != 0 then Value(scratch[141], scratch[140]) else W64(mt - rt)
    }

    /** `program_timer`: the deadline is the request, moved from the kernel's clock to
        the timer's, but at least 0x10000 ticks ahead, all modulo 2^64. */
    method ProgramTimer() returns (ghost mt: u64, ghost rt: u64)
      requires Valid() && s0 == SCRATCH
      modifies `t0, `t1, `t2, `t3, `t4, `t5, `a0, `a1, `now, `mtimecmp, `deadlines, scratch
      ensures now > old(now)
      ensures Shown(mtime, mt, old(now), now) && Shown(rdtime, rt, old(now), now)
      ensures mtimecmp == Max(W64(Value(old(a1), old(a0)) + old(Offset(mt, rt))), W64(mt + 0x1_0000))
      ensures Parked(old(deadlines), deadlines, mtimecmp)
      ensures scratch[139] != 0 && Value(scratch[141], scratch[140]) == old(Offset(mt, rt))
      ensures old(scratch[139]) != 0 ==> scratch[139] == old(scratch[139])
      ensures Keeps(old(scratch[..]), scratch[..], {129, 137, 139, 140, 141, 142, 143, 200, 201})
      ensures Value(scratch[201], scratch[200]) == mtimecmp
      ensures a0 == 0 && a1 == 0
    {
      hide Add, Sub, W64, Max, Value, Monotone, Parked, Shown;
      mt, rt := ReadClocks();
      assert Offset(mt, rt) == old(Offset(mt, rt));
      FixOffset(mt, rt);
      ChooseDeadline(mt);
      a0 := 0;
      a1 := 0;
    }

    /** The call's bookkeeping and the two clock readings, t1:t0 and t3:t2. */
    method ReadClocks() returns (ghost mt: u64, ghost rt: u64)
      requires Valid() && s0 == SCRATCH
      modifies `t0, `t1, `t2, `t3, `t4, `t5, `now, scratch
      ensures now > old(now) && t4 == TIMER
      ensures mt == Value(t1, t0) && Shown(mtime, mt, old(now), now)
      ensures rt == Value(t3, t2) && Shown(rdtime, rt, old(now), now)
      ensures Keeps(old(scratch[..]), scratch[..], {129, 137, 142, 143})
    {
      hide Add, Value, Monotone, Shown;
      t5 := Lw(s0, 516);
      t5 := Add(t5, 1);
      Sw(s0, 516, t5);
      Sw(s0, 548, s1);
      t4 := TIMER;
      ghost var start := now;
      ReadMtime();
      mt := Value(t1, t0);
      ghost var middle := now;
      Sw(s0, 568, t0);
      Sw(s0, 572, t1);
      ReadRdtime();
      rt := Value(t3, t2);
      ShownLonger(mtime, mt, start, middle, now);
      ShownLonger(rdtime, rt, start, middle, now);
    }

    /** On the first call, stores mtime - rdtime as the offset. */
    method FixOffset(ghost mt: u64, ghost rt: u64)
      requires Valid() && s0 == SCRATCH && Value(t1, t0) == mt && Value(t3, t2) == rt
      modifies `t2, `t3, `t5, scratch
      ensures scratch[139] != 0 && Value(scratch[141], scratch[140]) == old(Offset(mt, rt))
      ensures old(scratch[139]) != 0 ==> scratch[139] == old(scratch[139])
      ensures Keeps(old(scratch[..]), scratch[..], {139, 140, 141})
    {
      hide Add, Sub, W64, Value;
      t5 := Lw(s0, 556);
      if t5 == 0 {
        Sub64(t1, t0, t3, t2);
        t5 := Sub(t0, t2);
        t2 := Flag(t0 < t2);
        t3 := Sub(t1, t3);
        t3 := Sub(t3, t2);
        Sw(s0, 560, t5);
        Sw(s0, 564, t3);
        t2 := 1;
        Sw(s0, 556, t2);
      }
    }

    /** The additions with carry, the 64-bit comparison and the store of the larger. */
    method ChooseDeadline(ghost mt: u64)
      requires Valid() && s0 == SCRATCH && t4 == TIMER && Value(t1, t0) == mt
      modifies `t0, `t1, `t2, `t3, `t5, `mtimecmp, `deadlines, scratch
      ensures mtimecmp == Max(W64(Value(a1, a0) + Value(old(scratch[141]), old(scratch[140]))), W64(mt + 0x1_0000))
      ensures Parked(old(deadlines), deadlines, mtimecmp)
      ensures Keeps(old(scratch[..]), scratch[..], {200, 201})
      ensures Value(scratch[201], scratch[200]) == mtimecmp
    {
      hide Add, W64, Max, Value, Parked, Monotone, Keeps;
      Candidates(mt);
      Compare(t3, t5, t1, t0);
      t2 := 0xFFFF_FFFF;
      if t3 < t1 || (t3 == t1 && t5 < t0) {
        SetDeadline(t0, t1);
      } else {
        SetDeadline(t5, t3);
      }
      OnlyDeadline(old(scratch[..]), scratch[..]);
    }

    /** The requested deadline on the timer's clock in t3:t5, the least one in t1:t0. */
    method Candidates(ghost mt: u64)
      requires Valid() && s0 == SCRATCH && Value(t1, t0) == mt
      modifies `t0, `t1, `t2, `t3, `t5
      ensures Value(t3, t5) == W64(Value(a1, a0) + Value(scratch[141], scratch[140]))
      ensures Value(t1, t0) == W64(mt + 0x1_0000)
    {
      hide Add, W64, Value, Monotone;
      t2 := Lw(s0, 560);
      t3 := Lw(s0, 564);
      Add64(a1, a0, t3, t2);
      t5 := Add(a0, t2);
      t2 := Flag(t5 < a0);
      t3 := Add(a1, t3);
      t3 := Add(t3, t2);
      AddMinimum(t1, t0);
      t2 := 0x1_0000;
      t0 := Add(t0, t2);
      t2 := Flag(t0 < t2);
      t1 := Add(t1, t2);
    }

    /** Parks the deadline in the far future while its low word changes. */
    method SetDeadline(lo: u32, hi: u32)
      requires Valid() && s0 == SCRATCH && t4 == TIMER && t2 == 0xFFFF_FFFF
      modifies `mtimecmp, `deadlines, scratch
      ensures mtimecmp == Value(hi, lo)
      ensures Parked(old(deadlines), deadlines, mtimecmp)
      ensures scratch[..] == old(scratch[..])[200 := lo][201 := hi]
    {
      StoreTimer(t4, 12, t2);
      StoreTimer(t4, 8, lo);
      StoreTimer(t4, 12, hi);
      Sw(s0, 800, lo);
      Sw(s0, 804, hi);
    }

    // -------------------------------------------------------------- the console calls

    /** The out-ring byte at slot b, and the in-ring byte at slot b. */
    ghost function OutCell(b: nat): u8
      requires scratch.Length == 256 && b < 256
      reads scratch
    {
      ByteOf(scratch[..], b)
    }

    /** `sbi_console_putchar`.  `heads` are the values the launcher leaves in the head
        word as the firmware polls it; the call waits until one of them shows room. */
    method ConsolePutchar(heads: seq<u32>) returns (done: bool)
      requires Valid() && s0 == SCRATCH
      modifies `t0, `t1, `t2, `t3, `t5, `accesses, scratch
      ensures done <==> SeesRoom(old(scratch[65]), heads)
      ensures done ==> accesses == old(accesses) + PutcharAccesses(old(scratch[65]), heads, a0)
      ensures done ==>
                && scratch[65] == Add(old(scratch[65]), 1)
                && OutCell(old(scratch[65]) % 256) == a0 % 0x100
                && (forall b :: 0 <= b < 256 && b != old(scratch[65]) % 256 ==> OutCell(b) == old(OutCell(b)))
      ensures Keeps(old(scratch[..]), scratch[..], {131, 136, 138, 65, old(scratch[65]) % 256 / 4})
    {
      hide Add, Byte, SeesRoom, Monotone, Polls;
      t5 := Lw(s0, 524);
      t5 := Add(t5, 1);
      Sw(s0, 524, t5);
      Sw(s0, 544, a0);
      Sw(s0, 552, s1);
      ghost var entered := scratch[..];
      assert forall b :: 0 <= b < 256 ==> ByteOf(entered, b) == old(OutCell(b));
      done := WaitForSpace(heads);
      if done {
        StoreChar();
        Appended(old(accesses), Polls(old(scratch[65]), heads),
                 [StoreByte(old(scratch[65]) % 256, a0 % 0x100), WriteTotal(scratch[65])]);
      }
    }

    /** `console_wait_space`: polls the two counters until they are less than a ring apart. */
    method WaitForSpace(heads: seq<u32>) returns (done: bool)
      requires Valid() && s0 == SCRATCH
      modifies `t0, `t2, `t3, `accesses
      ensures done <==> SeesRoom(scratch[65], heads)
      ensures accesses == old(accesses) + Polls(scratch[65], heads)
      ensures done ==> t0 == scratch[65]
    {
      hide Sub, Polls, SeesRoom;
      var k := 0;
      assert heads[0..] == heads;
      while true
        invariant 0 <= k <= |heads|
        invariant forall i :: 0 <= i < k ==> !HasRoom(scratch[65], heads[i])
        invariant accesses + Polls(scratch[65], heads[k..]) == old(accesses) + Polls(scratch[65], heads)
        decreases |heads| - k
      {
        PollStep(accesses, scratch[65], heads, k);
        t0 := Lw(s0, 260);
        accesses := accesses + [ReadTotal(t0)];
        if k == |heads| {
          NoRoomSeen(scratch[65], heads);
          return false;
        }
        accesses := accesses + [ReadHead(heads[k])];
        t2 := Sub(t0, heads[k]);
        t3 := 256;
        if t2 < t3 {
          RoomSeen(scratch[65], heads, k);
          return true;
        }
        k := k + 1;
      }
    }

    /** Stores the character at the slot of the total, then publishes the new total. */
    method StoreChar()
      requires Valid() && s0 == SCRATCH && t0 == scratch[65]
      modifies `t0, `t1, `accesses, scratch
      ensures accesses == old(accesses) + [StoreByte(old(scratch[65]) % 256, a0 % 0x100), WriteTotal(scratch[65])]
      ensures scratch[65] == Add(old(scratch[65]), 1)
      ensures OutCell(old(scratch[65]) % 256) == a0 % 0x100
      ensures forall b :: 0 <= b < 256 && b != old(scratch[65]) % 256 ==> OutCell(b) == old(OutCell(b))
      ensures Keeps(old(scratch[..]), scratch[..], {65, old(scratch[65]) % 256 / 4})
    {
      hide Add, Byte, Patch, Monotone;
      t1 := t0 % 256;
      ghost var before := scratch[..];
      PatchedBytes(scratch[t1 / 4], t1 % 4, a0 % 0x100);
      scratch[t1 / 4] := Stored(scratch[t1 / 4], t1 % 4, a0);
      assert forall b :: 0 <= b < 256 && b != t1 ==> ByteOf(scratch[..], b) == ByteOf(before, b);
      ghost var stored := scratch[..];
      accesses := accesses + [StoreByte(t1, a0 % 0x100)];
      t1 := Add(s0, t1);
      t0 := Add(t0, 1);
      Sw(s0, 260, t0);
      accesses := accesses + [WriteTotal(t0)];
      assert forall b :: 0 <= b < 256 ==> ByteOf(scratch[..], b) == ByteOf(stored, b);
    }

    /** `sbi_console_getchar`: the ring first, then the one-byte mailbox, then -1. */
    method ConsoleGetchar()
      requires Valid() && s0 == SCRATCH
      modifies `t0, `t1, `t2, `t5, `a0, `accesses, scratch
      ensures accesses == old(accesses) + GetcharAccesses(old(scratch[..]))
      ensures a0 == GetcharAnswer(old(scratch[..]))
      ensures scratch[100] == if old(scratch[100]) != old(scratch[101]) then Add(old(scratch[100]), 1) else old(scratch[100])
      ensures scratch[67] == if old(scratch[100]) == old(scratch[101]) then 0 else old(scratch[67])
      ensures Keeps(old(scratch[..]), scratch[..], GetcharWords(old(scratch[..])))
    {
      hide Add, Byte;
      t5 := Lw(s0, 528);
      t5 := Add(t5, 1);
      Sw(s0, 528, t5);
      t0 := Lw(s0, 400);
      t2 := Lw(s0, 404);
      accesses := accesses + [ReadHead(t0), ReadTail(t2)];
      if t0 != t2 {
        TakeChar();
        Appended(old(accesses), [ReadHead(old(scratch[100])), ReadTail(t2)],
                 [LoadByte(old(scratch[100]) % 128, a0), WriteHead(scratch[100])]);
      } else {
        Mailbox();
      }
    }

    /** The byte at the head of the ring, and the head moved past it. */
    method TakeChar()
      requires Valid() && s0 == SCRATCH && t0 == scratch[100]
      modifies `t0, `t1, `a0, `accesses, scratch
      ensures a0 == ByteOf(old(scratch[..]), 272 + old(t0) % 128)
      ensures accesses == old(accesses) + [LoadByte(old(t0) % 128, a0), WriteHead(scratch[100])]
      ensures scratch[..] == old(scratch[..])[100 := Add(old(t0), 1)]
    {
      hide Add, Byte;
      t1 := t0 % 128 + 272;
      a0 := ByteOf(scratch[..], t1);
      accesses := accesses + [LoadByte(t1 - 272, a0)];
      t0 := Add(t0, 1);
      Sw(s0, 400, t0);
      accesses := accesses + [WriteHead(t0)];
    }

    method Mailbox()
      requires Valid() && s0 == SCRATCH
      modifies `t0, `a0, scratch
      ensures a0 == if old(scratch[67]) != 0 then scratch[66] else 0xFFFF_FFFF
      ensures scratch[..] == old(scratch[..])[67 := 0]
    {
      t0 := Lw(s0, 268);
      if t0 == 0 {
        a0 := 0xFFFF_FFFF;
        assert scratch[..] == scratch[..][67 := 0];
        return;
      }
      a0 := Lw(s0, 264);
      Sw(s0, 268, 0);
    }

    // -------------------------------------------------------------- the trap handler

    /** The registers the handler uses and gives back. */
    ghost function Registers(): (r: seq<u32>)
      reads `t0, `t1, `t2, `t3, `t4, `t5, `t6, `s0, `s1
      ensures |r| == 9
    {
      [t0, t1, t2, t3, t4, t5, s0, s1, t6]
    }

    /** The words the entry code saves, in the order of the registers. */
    ghost predicate Saved(saved: seq<u32>)
      requires scratch.Length == 256 && |saved| == 9
      reads `s0, `mscratch, scratch
    {
      && s0 == SCRATCH && mscratch == saved[8]
      && scratch[112] == saved[0] && scratch[113] == saved[1] && scratch[119] == saved[2]
      && scratch[114] == saved[3] && scratch[115] == saved[4] && scratch[116] == saved[5]
      && scratch[117] == saved[6] && scratch[118] == saved[7]
    }

    method Bump(off: nat)
      requires Valid() && s0 == SCRATCH && off % 4 == 0 && 512 <= off < 544
      modifies `t5, scratch
      ensures Keeps(old(scratch[..]), scratch[..], {off / 4})
      ensures scratch[off / 4] == Add(old(scratch[off / 4]), 1)
    {
      t5 := Lw(s0, off);
      t5 := Add(t5, 1);
      Sw(s0, off, t5);
    }

    method ReturnSbi(ghost saved: seq<u32>)
      requires Valid() && |saved| == 9 && Saved(saved)
      modifies `t0, `t1, `t2, `t3, `t4, `t5, `t6, `s0, `s1, `mscratch, `mepc, scratch
      ensures mscratch == SCRATCH && mepc == Add(old(s1), 4)
      ensures Registers() == saved
      ensures scratch[..] == old(scratch[..])[199 := a0][205 := a1]
    {
      hide Add, Monotone;
      Sw(s0, 796, a0);
      Sw(s0, 820, a1);
      s1 := Add(s1, 4);
      mepc := s1;
      Restore();
    }

    method Restore()
      requires Valid() && s0 == SCRATCH
      modifies `t0, `t1, `t2, `t3, `t4, `t5, `t6, `s0, `s1, `mscratch
      ensures mscratch == SCRATCH && t6 == old(mscratch)
      ensures t0 == scratch[112] && t1 == scratch[113] && t2 == scratch[119]
      ensures t3 == scratch[114] && t4 == scratch[115] && t5 == scratch[116]
      ensures s0 == scratch[117] && s1 == scratch[118]
    {
      hide Monotone;
      RestoreTemps();
      s1 := Lw(s0, 472);
      t6, mscratch := mscratch, s0;
      s0 := Lw(s0, 468);
    }

    method RestoreTemps()
      requires Valid() && s0 == SCRATCH
      modifies `t0, `t1, `t2, `t3, `t4, `t5
      ensures t0 == scratch[112] && t1 == scratch[113] && t2 == scratch[119]
      ensures t3 == scratch[114] && t4 == scratch[115] && t5 == scratch[116]
    {
      hide Monotone;
      t0 := Lw(s0, 448);
      t1 := Lw(s0, 452);
      t2 := Lw(s0, 476);
      t3 := Lw(s0, 456);
      t4 := Lw(s0, 460);
      t5 := Lw(s0, 464);
    }

    /** The entry code: swaps t6 with mscratch, saves, and records the call. */
    method Enter(ghost saved: seq<u32>)
      requires Valid() && mscratch == SCRATCH
      requires saved == Registers()
      modifies `t1, `t5, `t6, `s0, `s1, `mscratch, scratch
      ensures Saved(saved) && s0 == SCRATCH && s1 == mepc && t1 == mcause
      ensures Keeps(old(scratch[..]), scratch[..], EntryWords())
    {
      hide Add, Monotone, EntryWords, Keeps;
      t6, mscratch := mscratch, t6;
      Save(t6);
      ghost var mid := scratch[..];
      s0 := t6;
      Record();
      EntryKeeps(old(scratch[..]), mid, scratch[..]);
      EntrySaves(mid, scratch[..]);
    }

    method Record()
      requires Valid() && s0 == SCRATCH
      modifies `t1, `t5, `s1, scratch
      ensures s1 == mepc && t1 == mcause
      ensures Keeps(old(scratch[..]), scratch[..], {135, 194, 195, 196, 197, 198})
    {
      hide Add, Monotone;
      t5 := Lw(s0, 540);
      t5 := Add(t5, 1);
      Sw(s0, 540, t5);
      t1 := mcause;
      Sw(s0, 776, t1);
      s1 := mepc;
      Sw(s0, 780, s1);
      Sw(s0, 784, a7);
      Sw(s0, 788, a6);
      Sw(s0, 792, a0);
    }

    method Save(base: u32)
      requires Valid() && base == SCRATCH
      modifies scratch
      ensures Keeps(old(scratch[..]), scratch[..], {112, 113, 114, 115, 116, 117, 118, 119})
      ensures scratch[112] == t0 && scratch[113] == t1 && scratch[119] == t2 && scratch[114] == t3
      ensures scratch[115] == t4 && scratch[116] == t5 && scratch[117] == s0 && scratch[118] == s1
    {
      Sw(base, 448, t0);
      Sw(base, 452, t1);
      Sw(base, 476, t2);
      Sw(base, 456, t3);
      Sw(base, 460, t4);
      Sw(base, 464, t5);
      Sw(base, 468, s0);
      Sw(base, 472, s1);
    }

    /** `sbi_base` and its functions, and every other call with a fixed answer. */
    method FixedCall()
      requires Valid() && s0 == SCRATCH && FixedAnswer(a7, a6, a0).Some?
      modifies `t3, `t5, `a0, `a1, scratch
      ensures (a0, a1) == FixedAnswer(a7, a6, old(a0)).value
      ensures Keeps(old(scratch[..]), scratch[..], {130, 133, 134, 144, 145, 146})
    {
      hide Add, Monotone;
      if a7 == 0x10 {
        Bump(520);
        if a6 == 0 { a0, a1 := 0, 2; return; }
        t3 := 1;
        if a6 == t3 { a0, a1 := 0, 0x5A32; return; }
        t3 := 2;
        if a6 == t3 { a0, a1 := 0, 1; return; }
        t3 := 3;
        if a6 == t3 {
          a1 := 0;
          if a0 == 0x10 || a0 == 0x5449_4D45 || a0 == 0x5352_5354 {
            a1 := 1;
          }
          a0 := 0;
          return;
        }
        t3 := 4;
        if a6 == t3 { a0, a1 := 0, 0; return; }
        t3 := 5;
        if a6 == t3 { a0, a1 := 0, 0x5A32; return; }
        t3 := 6;
        if a6 == t3 { a0, a1 := 0, 0; return; }
        Unsupported();
        return;
      }
      if a7 == 0x5A44_4247 {
        Bump(532);
        Sw(s0, 576, a0);
        Sw(s0, 580, a1);
        Sw(s0, 584, a6);
        a0, a1 := 0, 0;
        return;
      }
      Unsupported();
    }

    method Unsupported()
      requires Valid() && s0 == SCRATCH
      modifies `t5, `a0, `a1, scratch
      ensures a0 == 0xFFFF_FFFE && a1 == 0
      ensures Keeps(old(scratch[..]), scratch[..], {134})
    {
      Bump(536);
      a0 := 0xFFFF_FFFE;
      a1 := 0;
    }

    ghost function Shot(): Snap
      reads this, scratch
    {
      Snap(a0, a1, a6, a7, scratch[..], mtimecmp, deadlines, now)
    }

    /** What follows the cause check: the call is counted, then routed. */
    method Dispatch(heads: seq<u32>) returns (outcome: Outcome, ghost mt: u64, ghost rt: u64)
      requires Valid() && s0 == SCRATCH
      modifies `t0, `t1, `t2, `t3, `t4, `t5, `a0, `a1, `now, `mtimecmp, `deadlines, `accesses, scratch
      ensures outcome == CallOutcome(a7, old(scratch[65]), heads)
      ensures Keeps(old(scratch[..]), scratch[..], HandlerWords(old(scratch[65]), a7))
      ensures outcome == Returned ==> CallEffect(old(Shot()), Shot(), mt, rt, mtime, rdtime)
      ensures forall i :: 112 <= i < 120 ==> scratch[i] == old(scratch[i])
    {
      hide Add, Monotone, CallEffect, CallOutcome, HandlerWords, SameCore, Keeps;
      ghost var was := Shot();
      Bump(512);
      ghost var s := Shot();
      CountedCore(was, s);
      outcome, mt, rt := Route(heads);
      CountedKeeps(was.words, s.words, scratch[..], a7);
      if outcome == Returned {
        ghost var t := Shot();
        CoreReflexive(t);
        EffectRespects(was, s, t, t, mt, rt, mtime, rdtime);
      }
    }

    /** The dispatch chain: extensions first, then the legacy calls. */
    method Route(heads: seq<u32>) returns (outcome: Outcome, ghost mt: u64, ghost rt: u64)
      requires Valid() && s0 == SCRATCH
      modifies `t0, `t1, `t2, `t3, `t4, `t5, `a0, `a1, `now, `mtimecmp, `deadlines, `accesses, scratch
      ensures outcome == CallOutcome(a7, old(scratch[65]), heads)
      ensures Keeps(old(scratch[..]), scratch[..], HandlerWords(old(scratch[65]), a7))
      ensures outcome == Returned ==> CallEffect(old(Shot()), Shot(), mt, rt, mtime, rdtime)
    {
      hide Add, Monotone, CallEffect, HandlerWords, Keeps, SeesRoom, Shown;
      outcome, mt, rt := Returned, 0, 0;
      if a7 == 0x10 {
        mt, rt := FixedCase();
      } else if a7 == 0x5449_4D45 {
        if a6 != 0 {
          mt, rt := FixedCase();
        } else {
          mt, rt := TimerCase();
        }
      } else if a7 == 0x5352_5354 {
        ResetCase();
        outcome := Reset;
      } else if a7 == 0x5A44_4247 {
        mt, rt := FixedCase();
      } else if a7 == 0 {
        mt, rt := TimerCase();
      } else if a7 == 1 {
        outcome := PutcharCase(heads);
      } else if a7 == 2 {
        mt, rt := GetcharCase();
      } else {
        mt, rt := FixedCase();
      }
    }

    method FixedCase() returns (ghost mt: u64, ghost rt: u64)
      requires Valid() && s0 == SCRATCH && FixedAnswer(a7, a6, a0).Some?
      modifies `t3, `t5, `a0, `a1, scratch
      ensures Keeps(old(scratch[..]), scratch[..], HandlerWords(old(scratch[65]), a7))
      ensures CallEffect(old(Shot()), Shot(), mt, rt, mtime, rdtime)
    {
      hide TimerEffect, PutcharEffect, GetcharEffect;
      mt, rt := 0, 0;
      FixedCall();
    }

    method TimerCase() returns (ghost mt: u64, ghost rt: u64)
      requires Valid() && s0 == SCRATCH && IsTimer(a7, a6)
      modifies `t0, `t1, `t2, `t3, `t4, `t5, `a0, `a1, `now, `mtimecmp, `deadlines, scratch
      ensures Keeps(old(scratch[..]), scratch[..], HandlerWords(old(scratch[65]), a7))
      ensures CallEffect(old(Shot()), Shot(), mt, rt, mtime, rdtime)
    {
      hide PutcharEffect, GetcharEffect, FixedAnswer, Max, W64, Value, Shown, Parked, Monotone;
      mt, rt := ProgramTimer();
      assert TimerEffect(old(Shot()), Shot(), mt, rt, mtime, rdtime);
    }

    method PutcharCase(heads: seq<u32>) returns (outcome: Outcome)
      requires Valid() && s0 == SCRATCH && a7 == 1
      modifies `t0, `t1, `t2, `t3, `t5, `accesses, scratch
      ensures outcome == if SeesRoom(old(scratch[65]), heads) then Returned else Waiting
      ensures Keeps(old(scratch[..]), scratch[..], HandlerWords(old(scratch[65]), a7))
      ensures outcome == Returned ==> CallEffect(old(Shot()), Shot(), 0, 0, mtime, rdtime)
    {
      hide Add, Monotone, SeesRoom, CallEffect, HandlerWords, Keeps, Byte;
      ghost var s := Shot();
      var done := ConsolePutchar(heads);
      ghost var t := Shot();
      CallWords(s.words[65]);
      KeepsMore(s.words, t.words, {131, 136, 138, 65, s.words[65] % 256 / 4}, HandlerWords(s.words[65], 1));
      if done {
        assert forall b :: 0 <= b < 256 ==> ByteOf(s.words, b) == old(OutCell(b)) && ByteOf(t.words, b) == OutCell(b);
        PutcharHolds(s, t, mtime, rdtime);
      }
      outcome := if done then Returned else Waiting;
    }

    method GetcharCase() returns (ghost mt: u64, ghost rt: u64)
      requires Valid() && s0 == SCRATCH && a7 == 2
      modifies `t0, `t1, `t2, `t5, `a0, `accesses, scratch
      ensures Keeps(old(scratch[..]), scratch[..], HandlerWords(old(scratch[65]), a7))
      ensures CallEffect(old(Shot()), Shot(), mt, rt, mtime, rdtime)
    {
      hide Add, Monotone, CallEffect, HandlerWords, Keeps, ByteOf;
      mt, rt := 0, 0;
      ghost var s := Shot();
      ConsoleGetchar();
      ghost var t := Shot();
      CallWords(s.words[65]);
      KeepsMore(s.words, t.words, GetcharWords(s.words), HandlerWords(s.words[65], 2));
      GetcharHolds(s, t, mtime, rdtime);
    }

    /** `sbi_system_reset`: records the request; the hart then sleeps for good. */
    method ResetCase()
      requires Valid() && s0 == SCRATCH && a7 == 0x5352_5354
      modifies `t3, scratch
      ensures Keeps(old(scratch[..]), scratch[..], HandlerWords(old(scratch[65]), a7))
      ensures scratch[150] == a0 && scratch[151] == a1 && scratch[252] == 0x222
    {
      t3 := 0x5352_5354;
      Sw(s0, 600, a0);
      Sw(s0, 604, a1);
      Sw(s0, 608, t3);
      t3 := 0x222;
      Sw(s0, 1008, t3);
    }

    /** One trap, from `m_trap` to its mret, or to where it stops.  Every call that
        returns resumes after the ecall with the scratch base back in mscratch and
        every register but a0 and a1 as it was. */
    method MTrap(heads: seq<u32>) returns (outcome: Outcome, ghost mt: u64, ghost rt: u64)
      requires Valid() && mscratch == SCRATCH
      modifies `t0, `t1, `t2, `t3, `t4, `t5, `t6, `s0, `s1, `a0, `a1, `mscratch, `mepc,
               `now, `mtimecmp, `deadlines, `accesses, scratch
      ensures outcome == if mcause != 9 then Failed else CallOutcome(a7, old(scratch[65]), heads)
      ensures outcome == Returned ==>
                && mscratch == SCRATCH && mepc == Add(old(mepc), 4)
                && Registers() == old(Registers())
                && CallEffect(old(Shot()), Shot(), mt, rt, mtime, rdtime)
    {
      hide Add, Monotone, CallEffect, EntryWords, Keeps, CallOutcome, SameCore, Registers, Saved;
      ghost var saved := Registers();
      ghost var before := Shot();
      Enter(saved);
      EntryKeepsTotal(before.words, scratch[..]);
      EntryCore(before, Shot());
      t3 := 9;
      if t1 != t3 {
        t3 := 0x333;
        Sw(s0, 1008, t3);
        return Failed, 0, 0;
      }
      outcome, mt, rt := Answer(heads, saved, before);
    }

    /** From the cause check on: the call, and the return if there is one. */
    method Answer(heads: seq<u32>, ghost saved: seq<u32>, ghost before: Snap)
      returns (outcome: Outcome, ghost mt: u64, ghost rt: u64)
      requires Valid() && |saved| == 9 && Saved(saved) && SameCore(before, Shot())
      modifies `t0, `t1, `t2, `t3, `t4, `t5, `t6, `s0, `s1, `a0, `a1, `mscratch, `mepc,
               `now, `mtimecmp, `deadlines, `accesses, scratch
      ensures outcome == CallOutcome(a7, old(scratch[65]), heads)
      ensures outcome == Returned ==>
                && mscratch == SCRATCH && mepc == Add(old(s1), 4)
                && Registers() == saved
                && CallEffect(before, Shot(), mt, rt, mtime, rdtime)
    {
      hide Add, Monotone, CallEffect, HandlerWords, Keeps, CallOutcome, SameCore, Registers;
      ghost var entered := Shot();
      outcome, mt, rt := Dispatch(heads);
      assert Saved(saved);
      if outcome == Returned {
        Leave(saved, before, entered, mt, rt);
      }
    }

    /** The return, seen from the call: what it restores hides nothing of the effect. */
    method Leave(ghost saved: seq<u32>, ghost before: Snap, ghost entered: Snap, ghost mt: u64, ghost rt: u64)
      requires Valid() && |saved| == 9 && Saved(saved)
      requires CallEffect(entered, Shot(), mt, rt, mtime, rdtime) && SameCore(before, entered)
      modifies `t0, `t1, `t2, `t3, `t4, `t5, `t6, `s0, `s1, `mscratch, `mepc, scratch
      ensures mscratch == SCRATCH && mepc == Add(old(s1), 4)
      ensures Registers() == saved
      ensures CallEffect(before, Shot(), mt, rt, mtime, rdtime)
    {
      hide Add, Monotone, CallEffect, SameCore, Registers;
      ghost var t := Shot();
      ReturnSbi(saved);
      EffectWords(entered, t, mt, rt, mtime, rdtime);
      ReturnCore(t);
      EffectRespects(before, entered, t, Shot(), mt, rt, mtime, rdtime);
    }
  }

  /** What a call can see and change, apart from the registers the handler restores. */
  datatype Snap = Snap(a0: u32, a1: u32, a6: u32, a7: u32, words: seq<u32>, mtimecmp: u64, deadlines: seq<u64>, now: nat)

  ghost function OffsetOf(s: Snap, mt: u64, rt: u64): u64
    requires |s.words| == 256
  {
    if s.words[139] != 0 then Value(s.words[141], s.words[140]) else W64(mt - rt)
  }

  /** A timer call moves the request to the timer's clock by the fixed offset. */
  ghost predicate TimerEffect(s: Snap, t: Snap, mt: u64, rt: u64, mtime: nat -> u64, rdtime: nat -> u64)
    requires |s.words| == 256 && |t.words| == 256
  {
    && t.a0 == 0 && t.a1 == 0
    && Shown(mtime, mt, s.now, t.now) && Shown(rdtime, rt, s.now, t.now)
    && t.mtimecmp == Max(W64(Value(s.a1, s.a0) + OffsetOf(s, mt, rt)), W64(mt + 0x1_0000))
    && Parked(s.deadlines, t.deadlines, t.mtimecmp)
    && t.words[139] != 0 && Value(t.words[141], t.words[140]) == OffsetOf(s, mt, rt)
    && RingsKept(s, t)
  }

  /** putchar appends one byte to the out ring. */
  ghost predicate PutcharEffect(s: Snap, t: Snap)
    requires |s.words| == 256 && |t.words| == 256
  {
    && t.a0 == s.a0 && t.a1 == s.a1
    && t.words[65] == Add(s.words[65], 1)
    && ByteOf(t.words, s.words[65] % 256) == s.a0 % 0x100
    && (forall b :: 0 <= b < 256 && b != s.words[65] % 256 ==> ByteOf(t.words, b) == ByteOf(s.words, b))
    && (forall i :: 66 <= i < 112 ==> t.words[i] == s.words[i]) && t.words[64] == s.words[64]
    && ClockKept(s, t)
  }

  /** getchar takes one byte from the in ring, or the mailbox, or reports neither. */
  ghost predicate GetcharEffect(s: Snap, t: Snap)
    requires |s.words| == 256 && |t.words| == 256
  {
    && t.a0 == GetcharAnswer(s.words) && t.a1 == s.a1
    && t.words[100] == (if s.words[100] != s.words[101] then Add(s.words[100], 1) else s.words[100])
    && t.words[67] == (if s.words[100] == s.words[101] then 0 else s.words[67])
    && (forall i :: 0 <= i < 112 && i != 67 && i != 100 ==> t.words[i] == s.words[i])
    && ClockKept(s, t)
  }

  ghost predicate RingsKept(s: Snap, t: Snap)
    requires |s.words| == 256 && |t.words| == 256
  {
    forall i :: 0 <= i < 112 ==> t.words[i] == s.words[i]
  }

  ghost predicate ClockKept(s: Snap, t: Snap)
    requires |s.words| == 256 && |t.words| == 256
  {
    && t.mtimecmp == s.mtimecmp && t.deadlines == s.deadlines
    && t.words[139] == s.words[139] && t.words[140] == s.words[140] && t.words[141] == s.words[141]
  }

  /** What each call that returns does. */
  ghost predicate CallEffect(s: Snap, t: Snap, mt: u64, rt: u64, mtime: nat -> u64, rdtime: nat -> u64) {
    && |s.words| == 256 && |t.words| == 256
    && (if IsTimer(s.a7, s.a6) then TimerEffect(s, t, mt, rt, mtime, rdtime)
        else if s.a7 == 1 then PutcharEffect(s, t)
        else if s.a7 == 2 then GetcharEffect(s, t)
        else
          && FixedAnswer(s.a7, s.a6, s.a0) == Some((t.a0, t.a1))
          && RingsKept(s, t) && ClockKept(s, t))
  }

  /** The words a call reads or answers through: rings, mailbox, clock offset. */
  ghost predicate SameCore(s: Snap, e: Snap) {
    && |s.words| == 256 && |e.words| == 256 && e == s.(words := e.words)
    && forall i :: 0 <= i < 112 || 139 <= i < 142 ==> e.words[i] == s.words[i]
  }

  /** Bookkeeping in the other words does not change what a call does. */
  lemma EffectRespects(s: Snap, e: Snap, t: Snap, u: Snap, mt: u64, rt: u64, mtime: nat -> u64, rdtime: nat -> u64)
    requires SameCore(s, e) && SameCore(t, u)
    requires CallEffect(e, t, mt, rt, mtime, rdtime)
    ensures CallEffect(s, u, mt, rt, mtime, rdtime)
  {
    hide TimerEffect, PutcharEffect, GetcharEffect, FixedAnswer;
    if IsTimer(s.a7, s.a6) {
      TimerRespects(s, e, t, u, mt, rt, mtime, rdtime);
    } else if s.a7 == 1 {
      PutcharRespects(s, e, t, u);
    } else if s.a7 == 2 {
      GetcharRespects(s, e, t, u);
    }
  }

  lemma TimerRespects(s: Snap, e: Snap, t: Snap, u: Snap, mt: u64, rt: u64, mtime: nat -> u64, rdtime: nat -> u64)
    requires SameCore(s, e) && SameCore(t, u)
    requires TimerEffect(e, t, mt, rt, mtime, rdtime)
    ensures TimerEffect(s, u, mt, rt, mtime, rdtime)
  {
    hide Max, W64, Value, Shown, Parked;
  }

  lemma PutcharRespects(s: Snap, e: Snap, t: Snap, u: Snap)
    requires SameCore(s, e) && SameCore(t, u) && PutcharEffect(e, t)
    ensures PutcharEffect(s, u)
  {
    hide Byte, Add;
    assert forall b :: 0 <= b < 256 ==> ByteOf(e.words, b) == ByteOf(s.words, b) && ByteOf(t.words, b) == ByteOf(u.words, b);
  }

  lemma GetcharRespects(s: Snap, e: Snap, t: Snap, u: Snap)
    requires SameCore(s, e) && SameCore(t, u) && GetcharEffect(e, t)
    ensures GetcharEffect(s, u)
  {
    hide Byte, Add;
    var b := 272 + s.words[100] % 128;
    assert ByteOf(e.words, b) == ByteOf(s.words, b);
  }

  ghost function EntryWords(): set<int> { {112, 113, 114, 115, 116, 117, 118, 119, 135, 194, 195, 196, 197, 198} }

  lemma EntryKeeps(was: seq<u32>, mid: seq<u32>, now: seq<u32>)
    requires Keeps(was, mid, {112, 113, 114, 115, 116, 117, 118, 119})
    requires Keeps(mid, now, {135, 194, 195, 196, 197, 198})
    ensures Keeps(was, now, EntryWords())
  {
  }

  lemma EntrySaves(mid: seq<u32>, now: seq<u32>)
    requires |mid| == 256 && Keeps(mid, now, {135, 194, 195, 196, 197, 198})
    ensures |now| == 256 && forall i :: 112 <= i < 120 ==> now[i] == mid[i]
  {
  }

  lemma EntryKeepsTotal(was: seq<u32>, now: seq<u32>)
    requires |was| == 256 && Keeps(was, now, EntryWords())
    ensures |now| == 256 && now[65] == was[65]
  {
  }

  lemma KeepsMore(was: seq<u32>, now: seq<u32>, c: set<int>, d: set<int>)
    requires Keeps(was, now, c) && c <= d
    ensures Keeps(was, now, d)
  {
  }

  lemma CallWords(total: u32)
    ensures {131, 136, 138, 65, total % 256 / 4} <= HandlerWords(total, 1)
    ensures forall words: seq<u32> :: |words| == 256 ==> GetcharWords(words) <= HandlerWords(total, 2)
  {
  }

  lemma PutcharHolds(s: Snap, t: Snap, mtime: nat -> u64, rdtime: nat -> u64)
    requires |s.words| == 256 && s.a7 == 1
    requires Keeps(s.words, t.words, {131, 136, 138, 65, s.words[65] % 256 / 4})
    requires t == s.(words := t.words) && t.words[65] == Add(s.words[65], 1)
    requires ByteOf(t.words, s.words[65] % 256) == s.a0 % 0x100
    requires forall b :: 0 <= b < 256 && b != s.words[65] % 256 ==> ByteOf(t.words, b) == ByteOf(s.words, b)
    ensures CallEffect(s, t, 0, 0, mtime, rdtime)
  {
    hide TimerEffect, GetcharEffect, FixedAnswer, Byte, Add;
    assert s.words[65] % 256 / 4 < 64;
  }

  lemma GetcharHolds(s: Snap, t: Snap, mtime: nat -> u64, rdtime: nat -> u64)
    requires |s.words| == 256 && s.a7 == 2
    requires Keeps(s.words, t.words, GetcharWords(s.words))
    requires t == s.(words := t.words, a0 := t.a0) && t.a0 == GetcharAnswer(s.words)
    requires t.words[100] == if s.words[100] != s.words[101] then Add(s.words[100], 1) else s.words[100]
    requires t.words[67] == if s.words[100] == s.words[101] then 0 else s.words[67]
    ensures CallEffect(s, t, 0, 0, mtime, rdtime)
  {
    hide TimerEffect, PutcharEffect, FixedAnswer, ByteOf, Add;
  }

  lemma CountedCore(s: Snap, e: Snap)
    requires |s.words| == 256 && Keeps(s.words, e.words, {128}) && e == s.(words := e.words)
    ensures SameCore(s, e) && e.words[65] == s.words[65]
  {
  }

  lemma CoreReflexive(t: Snap)
    requires |t.words| == 256
    ensures SameCore(t, t)
  {
  }

  /** Counting the call adds no word to those it may write, and none of these is saved. */
  lemma CountedKeeps(was: seq<u32>, mid: seq<u32>, now: seq<u32>, a7: u32)
    requires |was| == 256 && Keeps(was, mid, {128}) && Keeps(mid, now, HandlerWords(was[65], a7))
    ensures Keeps(was, now, HandlerWords(was[65], a7))
    ensures forall i :: 112 <= i < 120 ==> now[i] == was[i]
  {
  }

  lemma EffectWords(e: Snap, t: Snap, mt: u64, rt: u64, mtime: nat -> u64, rdtime: nat -> u64)
    requires CallEffect(e, t, mt, rt, mtime, rdtime)
    ensures |t.words| == 256
  {
  }

  lemma EntryCore(s: Snap, e: Snap)
    requires |s.words| == 256 && Keeps(s.words, e.words, EntryWords()) && e == s.(words := e.words)
    ensures SameCore(s, e)
  {
  }

  lemma ReturnCore(t: Snap)
    requires |t.words| == 256
    ensures SameCore(t, t.(words := t.words[199 := t.a0][205 := t.a1]))
  {
  }

  predicate IsTimer(a7: u32, a6: u32) { a7 == 0 || (a7 == 0x5449_4D45 && a6 == 0) }

  /** The calls whose answer does not depend on the clocks or the rings. */
  function FixedAnswer(a7: u32, a6: u32, a0: u32): (r: Option<(u32, u32)>)
    ensures r.Some? <==> !IsTimer(a7, a6) && a7 !in {1, 2, 0x5352_5354}
  {
    if a7 == 0x10 then
      Some(if a6 == 0 then (0, 2)
           else if a6 == 1 || a6 == 5 then (0, 0x5A32)
           else if a6 == 2 then (0, 1)
           else if a6 == 3 then (0, if a0 in {0x10, 0x5449_4D45, 0x5352_5354} then 1 else 0)
           else if a6 == 4 || a6 == 6 then (0, 0)
           else (0xFFFF_FFFE, 0))
    else if a7 == 0x5A44_4247 then Some((0, 0))
    else if IsTimer(a7, a6) || a7 in {1, 2, 0x5352_5354} then None
    else Some((0xFFFF_FFFE, 0))
  }

  ghost function GetcharAnswer(words: seq<u32>): u32
    requires |words| == 256
  {
    if words[100] != words[101] then ByteOf(words, 272 + words[100] % 128)
    else if words[67] != 0 then words[66]
    else 0xFFFF_FFFF
  }

  /** Polling the counters: the total, then the head, until they show room. */
  ghost function Polls(total: u32, heads: seq<u32>): seq<Access>
    decreases |heads|
  {
    [ReadTotal(total)] +
    if heads == [] then [] else [ReadHead(heads[0])] + if HasRoom(total, heads[0]) then [] else Polls(total, heads[1..])
  }

  /** One poll more, after what was accessed before. */
  lemma PollStep(before: seq<Access>, total: u32, heads: seq<u32>, k: nat)
    requires k <= |heads|
    ensures before + Polls(total, heads[k..]) ==
              if k == |heads| then before + [ReadTotal(total)]
              else if HasRoom(total, heads[k]) then before + [ReadTotal(total)] + [ReadHead(heads[k])]
              else before + [ReadTotal(total)] + [ReadHead(heads[k])] + Polls(total, heads[k + 1..])
  {
    hide HasRoom;
    if k < |heads| {
      assert heads[k..][1..] == heads[k + 1..];
    }
  }

  lemma NoRoomSeen(total: u32, heads: seq<u32>)
    requires forall i :: 0 <= i < |heads| ==> !HasRoom(total, heads[i])
    ensures !SeesRoom(total, heads)
  {
    hide HasRoom;
  }

  lemma RoomSeen(total: u32, heads: seq<u32>, k: nat)
    requires k < |heads| && HasRoom(total, heads[k])
    ensures SeesRoom(total, heads)
  {
    hide HasRoom;
  }

  lemma Appended(a: seq<Access>, b: seq<Access>, c: seq<Access>)
    ensures a + b + c == a + (b + c)
  {
  }

  ghost function PutcharAccesses(total: u32, heads: seq<u32>, a0: u32): seq<Access> {
    Polls(total, heads) + [StoreByte(total % 256, a0 % 0x100), WriteTotal(Add(total, 1))]
  }

  ghost function GetcharAccesses(words: seq<u32>): seq<Access>
    requires |words| == 256
  {
    [ReadHead(words[100]), ReadTail(words[101])] +
    if words[100] == words[101] then []
    else [LoadByte(words[100] % 128, ByteOf(words, 272 + words[100] % 128)), WriteHead(Add(words[100], 1))]
  }

  /** The words getchar writes: the new head when it took from the ring, the mailbox's
      full flag when it took from that. */
  ghost function GetcharWords(words: seq<u32>): set<int>
    requires |words| == 256
  {
    if words[100] != words[101] then {132, 100} else if words[67] != 0 then {132, 67} else {132}
  }

  ghost predicate SeesRoom(total: u32, heads: seq<u32>) {
    exists i :: 0 <= i < |heads| && HasRoom(total, heads[i])
  }

  ghost function CallOutcome(a7: u32, total: u32, heads: seq<u32>): Outcome {
    if a7 == 0x5352_5354 then Reset
    else if a7 == 1 && !SeesRoom(total, heads) then Waiting
    else Returned
  }

  /** The words a call may write: its counters and records, and for the console calls
      the ring words they own.  The save area, words 112 to 119, is not among them. */
  ghost function HandlerWords(total: u32, a7: u32): set<int> {
    {128, 129, 130, 131, 132, 133, 134, 136, 137, 138, 139, 140, 141, 142, 143, 144, 145, 146, 150, 151, 152, 200, 201, 252}
    + (if a7 == 1 then {65, total % 256 / 4} else {})
    + (if a7 == 2 then {67, 100} else {})
  }

  /** Three stores, the first two of which leave the deadline in the last 2^32 ticks. */
  ghost predicate Parked(was: seq<u64>, now: seq<u64>, last: u64) {
    && |now| == |was| + 3 && now[..|was|] == was && now[|was| + 2] == last
    && now[|was|] >= 0xFFFF_FFFF_0000_0000 && now[|was| + 1] >= 0xFFFF_FFFF_0000_0000
  }

  /** The timer's interrupt line. */
  predicate TimerPending(clock: u64, deadline: u64) { deadline != 0 && clock >= deadline }

  /** While the clock has not reached the last 2^32 ticks of its range, a deadline being
      set raises the timer line only once it is complete, and then exactly when due. */
  lemma NoSpuriousInterrupt(was: seq<u64>, now: seq<u64>, last: u64, clock: u64, k: nat)
    requires Parked(was, now, last) && clock < 0xFFFF_FFFF_0000_0000 && |was| <= k < |now|
    ensures TimerPending(clock, now[k]) <==> k == |now| - 1 && TimerPending(clock, last)
  {
  }

  predicate HasRoom(total: u32, head: u32) { Sub(total, head) < 256 }

  lemma Compare(ah: u32, al: u32, bh: u32, bl: u32)
    ensures ah < bh || (ah == bh && al < bl) ==> Max(Value(ah, al), Value(bh, bl)) == Value(bh, bl)
    ensures !(ah < bh || (ah == bh && al < bl)) ==> Max(Value(ah, al), Value(bh, bl)) == Value(ah, al)
  {
  }

  lemma ShownLonger(clock: nat -> u64, v: u64, from: nat, middle: nat, to: nat)
    requires from <= middle <= to
    requires Shown(clock, v, from, middle) || Shown(clock, v, middle, to)
    ensures Shown(clock, v, from, to)
  {
  }

  lemma HighWords(clock: nat -> u64, n: nat)
    requires Monotone(clock)
    ensures clock(n) / 0x1_0000_0000 <= clock(n + 1) / 0x1_0000_0000 <= clock(n + 2) / 0x1_0000_0000
    ensures n > 0 ==> clock(n - 1) / 0x1_0000_0000 <= clock(n) / 0x1_0000_0000
  {
    assert clock(n) <= clock(n + 1) <= clock(n + 2);
    if n > 0 {
      assert clock(n - 1) <= clock(n);
    }
  }
}
