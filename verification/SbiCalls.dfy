/** The firmware's calls by name: extensions are known by the ASCII of their names, and each
    call's answer and effect in numbers, as the RISC-V SBI specification 0.2 has them. */
module SbiCalls {
  import opened Words
  import opened Firmware

  /** A name of up to four characters as a number, the first character on top. */
  function Ascii(name: string): nat {
    if name == "" then 0 else Ascii(name[..|name| - 1]) * 0x100 + name[|name| - 1] as int
  }

  lemma Names()
    ensures Ascii("TIME") == 0x5449_4D45 && Ascii("SRST") == 0x5352_5354 && Ascii("ZDBG") == 0x5A44_4247
  {
    Spelled('T', 'I', 'M', 'E');
    Spelled('S', 'R', 'S', 'T');
    Spelled('Z', 'D', 'B', 'G');
    assert "TIME" == ['T', 'I', 'M', 'E'] && "SRST" == ['S', 'R', 'S', 'T'] && "ZDBG" == ['Z', 'D', 'B', 'G'];
  }

  lemma Spelled(a: char, b: char, c: char, d: char)
    ensures Ascii([a, b, c, d]) == ((a as int * 0x100 + b as int) * 0x100 + c as int) * 0x100 + d as int
  {
    assert [a, b, c, d][..3] == [a, b, c] && [a, b, c][..2] == [a, b] && [a, b][..1] == [a] && [a][..0] == [];
    assert Ascii([a]) == a as int;
    assert Ascii([a, b]) == Ascii([a]) * 0x100 + b as int;
    assert Ascii([a, b, c]) == Ascii([a, b]) * 0x100 + c as int;
  }

  const NOT_SUPPORTED: (u32, u32) := (0xFFFF_FFFE, 0)

  const BASE := 0x10

  /** The base extension, function by function: specification 0.2, this implementation and
      its version, a probe, and the three machine registers; error 0 and the value, or -2. */
  lemma BaseAnswers(f: u32, eid: u32)
    ensures FixedAnswer(BASE, f, eid) ==
              Some(if f > 6 then NOT_SUPPORTED
                   else (0, [2, 0x5A32, 1, if Probed(eid) then 1 else 0, 0, 0x5A32, 0][f]))
  {
    Names();
  }

  /** The extensions of this firmware that have names or are the base. */
  predicate Probed(eid: u32) { eid == BASE || eid == Ascii("TIME") || eid == Ascii("SRST") }

  /** A call is refused: it returns -2. */
  predicate Refused(eid: u32, f: u32, a0: u32) { FixedAnswer(eid, f, a0) == Some(NOT_SUPPORTED) }

  /** Main result: the probe tells the truth about what it admits to, and is silent about
      exactly four extensions that do answer: the three legacy calls and the debug call. */
  lemma ProbeAnswers(eid: u32, f: u32, a0: u32)
    ensures FixedAnswer(BASE, 3, eid) == Some((0, 1)) <==>
              !Refused(eid, 0, a0) && eid !in {0, 1, 2} && eid != Ascii("ZDBG")
    ensures Refused(eid, f, a0) <==>
              || (eid == BASE && f > 6) || (eid == Ascii("TIME") && f != 0)
              || (eid !in {0, 1, 2, BASE} && eid !in {Ascii("TIME"), Ascii("SRST"), Ascii("ZDBG")})
  {
    Names();
  }

  /** Main result: which call ends where.  A reset request never returns; a putchar returns
      once there is room; everything else returns. */
  lemma CallsEnd(eid: u32, total: u32, heads: seq<u32>)
    ensures CallOutcome(eid, total, heads) ==
              if eid == Ascii("SRST") then Reset else if eid == 1 && !SeesRoom(total, heads) then Waiting else Returned
  {
    Names();
  }

  /** How far the timer's clock is ahead of the caller's: as kept by an earlier call, or else
      as the two clocks read now. */
  function Ahead(words: seq<u32>, mt: u64, rt: u64): int
    requires |words| == 256
  {
    if words[139] == 0 then mt - rt else words[141] as int * 0x1_0000_0000 + words[140]
  }

  /** Main result: set_timer, under its own number or its legacy one, has the low word of a
      deadline in a0 and the high word in a1, by the caller's clock.  It keeps how far the
      timer's clock is ahead, and the deadline set is 0x10000 ticks away or later. */
  lemma TimerCallDoes(s: Snap, t: Snap, mt: u64, rt: u64, mtime: nat -> u64, rdtime: nat -> u64)
    requires CallEffect(s, t, mt, rt, mtime, rdtime)
    requires s.a7 == 0 || (s.a7 == Ascii("TIME") && s.a6 == 0)
    ensures t.a0 == 0 && t.a1 == 0 && forall i :: 0 <= i < 112 ==> t.words[i] == s.words[i]
    ensures exists k: nat :: s.now <= k < t.now && mtime(k) == mt
    ensures exists k: nat :: s.now <= k < t.now && rdtime(k) == rt
    ensures var asked := (s.a1 as int * 0x1_0000_0000 + s.a0 + Ahead(s.words, mt, rt)) % 0x1_0000_0000_0000_0000;
            var soonest := (mt + 0x1_0000) % 0x1_0000_0000_0000_0000;
            t.mtimecmp == if asked < soonest then soonest else asked
    ensures && t.words[139] != 0
            && t.words[141] as int * 0x1_0000_0000 + t.words[140] == Ahead(s.words, mt, rt) % 0x1_0000_0000_0000_0000
  {
    hide FixedAnswer, Parked, Byte, PutcharEffect, GetcharEffect;
    Names();
    assert TimerEffect(s, t, mt, rt, mtime, rdtime);
    Moved(s, mt, rt);
  }

  /** The deadline asked for, moved to the timer's clock. */
  lemma Moved(s: Snap, mt: u64, rt: u64)
    requires |s.words| == 256
    ensures OffsetOf(s, mt, rt) == Ahead(s.words, mt, rt) % 0x1_0000_0000_0000_0000
    ensures W64(Value(s.a1, s.a0) + OffsetOf(s, mt, rt)) ==
              (s.a1 as int * 0x1_0000_0000 + s.a0 + Ahead(s.words, mt, rt)) % 0x1_0000_0000_0000_0000
  {
    var asked, ahead := Value(s.a1, s.a0), Ahead(s.words, mt, rt);
    assert ahead == ahead / 0x1_0000_0000_0000_0000 * 0x1_0000_0000_0000_0000 + ahead % 0x1_0000_0000_0000_0000;
  }

  /** Main result: what every other returning call has done, in the terms of its caller.
      putchar takes the low byte of a0; getchar answers in a0; the rest answer and touch
      neither clock nor rings. */
  lemma CallsDo(s: Snap, t: Snap, mt: u64, rt: u64, mtime: nat -> u64, rdtime: nat -> u64)
    requires CallEffect(s, t, mt, rt, mtime, rdtime)
    ensures s.a7 == 1 ==>
              && t.a0 == s.a0 && t.a1 == s.a1 && t.mtimecmp == s.mtimecmp
              && t.words[65] == Add(s.words[65], 1) && ByteOf(t.words, s.words[65] % 256) == s.a0 % 0x100
              && forall b :: 0 <= b < 256 && b != s.words[65] % 256 ==> ByteOf(t.words, b) == ByteOf(s.words, b)
    ensures s.a7 == 2 ==>
              && t.a1 == s.a1 && t.mtimecmp == s.mtimecmp
              && (s.words[100] != s.words[101] ==>
                    && t.a0 == ByteOf(s.words, 272 + s.words[100] % 128) && t.words[100] == Add(s.words[100], 1)
                    && t.words[67] == s.words[67])
              && (s.words[100] == s.words[101] ==>
                    && t.a0 == (if s.words[67] != 0 then s.words[66] else 0xFFFF_FFFF)
                    && t.words[67] == 0 && t.words[100] == s.words[100])
    ensures s.a7 !in {0, 1, 2} && (s.a7 != Ascii("TIME") || s.a6 != 0) ==>
              && FixedAnswer(s.a7, s.a6, s.a0) == Some((t.a0, t.a1)) && t.mtimecmp == s.mtimecmp
              && forall i :: 0 <= i < 112 ==> t.words[i] == s.words[i]
  {
    hide FixedAnswer, W64, Max, Parked, Byte;
    Names();
  }
}
