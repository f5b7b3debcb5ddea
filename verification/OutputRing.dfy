/** The console output ring: the firmware's putchar produces one byte per call, the
    launcher on the other processor drains it.  Each transition is one access to
    shared memory, and the two sides interleave in any order. */
module OutputRing {
  import opened Words
  import opened Counters

  /** Where putchar is: before it, or after reading `total`, after reading `head` and
      finding room, or after storing the byte. */
  datatype Producer =
    | Outside
    | Called(ch: u8)
    | HasTotal(ch: u8, t0: u32)
    | HasRoom(ch: u8, t0: u32)
    | Stored(ch: u8, t0: u32)

  /** Where the launcher's drain loop is. */
  datatype Consumer =
    | Away
    | Draining(total: u32)
    | HasWord(total: u32, word: u32)
    | Taken(total: u32)

  datatype State = State(
    cells: seq<u8>, head: u32, total: u32,
    p: Producer, c: Consumer, last: u32,
    produced: seq<u8>, consumed: seq<u8>, skipped: bool)

  predicate Init(s: State) {
    && |s.cells| == 256 && s.head == 0 && s.total == 0 && s.last == 0
    && s.p == Outside && s.c == Away && s.produced == [] && s.consumed == [] && !s.skipped
  }

  function WordOf(cells: seq<u8>, idx: nat): u32
    requires |cells| == 256 && idx < 256
  {
    var a := idx / 4 * 4;
    Le32(cells[a], cells[a + 1], cells[a + 2], cells[a + 3])
  }

  /** (word >> ((idx & 3) * 8)) & 0xFF */
  function ByteOf(word: u32, idx: nat): u8 { Byte(word, idx % 4) }

  // ---------------------------------------------------------------- firmware

  predicate Call(s: State, s': State, ch: u8) { s.p == Outside && s' == s.(p := Called(ch)) }

  predicate ReadTotal(s: State, s': State) {
    s.p.Called? && s' == s.(p := HasTotal(s.p.ch, s.total))
  }

  predicate ReadHead(s: State, s': State) {
    && s.p.HasTotal?
    && s' == s.(p := if W(s.p.t0 - s.head) >= 256 then Called(s.p.ch) else HasRoom(s.p.ch, s.p.t0))
  }

  predicate StoreByte(s: State, s': State) {
    && s.p.HasRoom? && |s.cells| == 256
    && s' == s.(cells := s.cells[s.p.t0 % 256 := s.p.ch], p := Stored(s.p.ch, s.p.t0))
  }

  predicate Publish(s: State, s': State) {
    && s.p.Stored?
    && s' == s.(total := W(s.p.t0 + 1), p := Outside, produced := s.produced + [s.p.ch])
  }

  // ---------------------------------------------------------------- launcher

  predicate Poll(s: State, s': State) {
    && s.c == Away
    && (if s.total == s.last then s' == s
        else if W(s.total - s.last) > 256 then
          s' == s.(c := Draining(s.total), last := W(s.total - 256), skipped := true)
        else s' == s.(c := Draining(s.total)))
  }

  predicate Finish(s: State, s': State) { s.c.Draining? && s.last == s.c.total && s' == s.(c := Away) }

  predicate ReadWord(s: State, s': State) {
    && s.c.Draining? && s.last != s.c.total && |s.cells| == 256
    && s' == s.(c := HasWord(s.c.total, WordOf(s.cells, s.last % 256)))
  }

  predicate Take(s: State, s': State) {
    && s.c.HasWord?
    && s' == s.(c := Taken(s.c.total), last := W(s.last + 1),
                consumed := s.consumed + [ByteOf(s.c.word, s.last % 256)])
  }

  predicate WriteHead(s: State, s': State) { s.c.Taken? && s' == s.(head := s.last, c := Draining(s.c.total)) }

  predicate ProducerStep(s: State, s': State) {
    || (exists ch: u8 :: Call(s, s', ch))
    || ReadTotal(s, s') || ReadHead(s, s') || StoreByte(s, s') || Publish(s, s')
  }

  predicate ConsumerStep(s: State, s': State) {
    Poll(s, s') || Finish(s, s') || ReadWord(s, s') || Take(s, s') || WriteHead(s, s')
  }

  predicate Next(s: State, s': State) { ProducerStep(s, s') || ConsumerStep(s, s') }

  // ---------------------------------------------------------------- invariant

  /** How many bytes the head word acknowledges. */
  function Acked(s: State): int { if s.c.Taken? then |s.consumed| - 1 else |s.consumed| }

  /** n is the number of bytes the word t stands for, 2^32 wrap apart. */
  predicate Counts(t: u32, n: int) { t == W(n) }

  ghost predicate Inv(s: State) {
    && |s.cells| == 256 && !s.skipped
    && 0 <= Acked(s) && |s.consumed| <= |s.produced| <= Acked(s) + 256
    && Counts(s.head, Acked(s)) && Counts(s.total, |s.produced|) && Counts(s.last, |s.consumed|)
    && s.consumed == s.produced[..|s.consumed|]
    && (forall k :: Acked(s) <= k < |s.produced| ==> s.cells[k % 256] == s.produced[k])
    && (s.p.HasTotal? || s.p.HasRoom? || s.p.Stored? ==> s.p.t0 == s.total)
    && (s.p.HasRoom? || s.p.Stored? ==> |s.produced| < Acked(s) + 256)
    && (s.p.Stored? ==> s.cells[|s.produced| % 256] == s.p.ch)
    && (!s.c.Away? ==> exists n :: |s.consumed| <= n <= |s.produced| && Counts(s.c.total, n))
    && (s.c.HasWord? ==>
          && |s.consumed| < |s.produced|
          && s.c.total != s.last
          && ByteOf(s.c.word, s.last % 256) == s.produced[|s.consumed|])
  }

  lemma InitHolds(s: State)
    requires Init(s)
    ensures Inv(s)
  {
  }

  lemma PickedByte(cells: seq<u8>, idx: nat)
    requires |cells| == 256 && idx < 256
    ensures ByteOf(WordOf(cells, idx), idx) == cells[idx]
  {
    hide Byte, Le32;
    var a := idx / 4 * 4;
    BytesOfLe32(cells[a], cells[a + 1], cells[a + 2], cells[a + 3]);
  }

  lemma ProducerKeeps(s: State, s': State)
    requires Inv(s) && ProducerStep(s, s')
    ensures Inv(s')
  {
    hide W;
    if ReadHead(s, s') {
      WordDifference(|s.produced|, Acked(s));
    } else if StoreByte(s, s') {
      StoreKeeps(s, s');
    } else if Publish(s, s') {
      PublishKeeps(s, s');
    }
  }

  lemma StoreKeeps(s: State, s': State)
    requires Inv(s) && StoreByte(s, s')
    ensures Inv(s')
  {
    hide W, ByteOf;
    WordSlot(|s.produced|, 256);
    forall k | Acked(s) <= k < |s.produced|
      ensures s'.cells[k % 256] == s.produced[k]
    {
      SlotsDiffer(k, |s.produced|, 256);
    }
  }

  lemma PublishKeeps(s: State, s': State)
    requires Inv(s) && Publish(s, s')
    ensures Inv(s')
  {
    hide W, ByteOf;
    WAdd(|s.produced|, 1);
    if !s.c.Away? {
      var n :| |s.consumed| <= n <= |s.produced| && Counts(s.c.total, n);
      assert |s'.consumed| <= n <= |s'.produced| && Counts(s'.c.total, n);
    }
  }

  lemma ConsumerKeeps(s: State, s': State)
    requires Inv(s) && ConsumerStep(s, s')
    ensures Inv(s')
  {
    hide W, ByteOf, WordOf;
    if Poll(s, s') {
      WordDifference(|s.produced|, |s.consumed|);
      assert Counts(s.total, |s.produced|);
    } else if ReadWord(s, s') {
      ReadKeeps(s, s');
    } else if Take(s, s') {
      TakeKeeps(s, s');
    }
  }

  lemma ReadKeeps(s: State, s': State)
    requires Inv(s) && ReadWord(s, s')
    ensures Inv(s')
  {
    hide W, ByteOf, WordOf;
    var n :| |s.consumed| <= n <= |s.produced| && Counts(s.c.total, n);
    WordsAgree(n, |s.consumed|);
    WordSlot(|s.consumed|, 256);
    PickedByte(s.cells, s.last % 256);
    assert Counts(s'.c.total, n);
  }

  lemma TakeKeeps(s: State, s': State)
    requires Inv(s) && Take(s, s')
    ensures Inv(s')
  {
    hide W, ByteOf;
    WAdd(|s.consumed|, 1);
    var n :| |s.consumed| <= n <= |s.produced| && Counts(s.c.total, n);
    WordsAgree(n, |s.consumed|);
    assert |s'.consumed| <= n && Counts(s'.c.total, n);
  }

  lemma Gap(s: State)
    requires Inv(s)
    ensures W(s.total - s.head) == |s.produced| - Acked(s) <= 256 && !s.skipped && s.consumed <= s.produced
  {
    WordDifference(|s.produced|, Acked(s));
  }

  /** Main result: in every interleaving of the two sides' accesses, from boot, the
      counters stay at most a ring apart whatever the 2^32 wrap does, nothing is ever
      skipped, and what the launcher printed is a prefix of what Linux wrote. */
  lemma {:induction false} NothingLost(run: seq<State>)
    requires run != [] && Init(run[0])
    requires forall i :: 0 <= i < |run| - 1 ==> Next(run[i], run[i + 1])
    ensures forall i :: 0 <= i < |run| ==>
              var s := run[i];
              && Inv(s) && !s.skipped
              && W(s.total - s.head) <= 256
              && s.consumed <= s.produced
    decreases |run|
  {
    hide Inv, W, Init, Acked, ProducerStep, ConsumerStep;
    var last := |run| - 1;
    if last == 0 {
      InitHolds(run[0]);
    } else {
      NothingLost(run[..last]);
      assert run[..last][last - 1] == run[last - 1];
      assert Next(run[last - 1], run[last]);
      if ProducerStep(run[last - 1], run[last]) {
        ProducerKeeps(run[last - 1], run[last]);
      } else {
        ConsumerKeeps(run[last - 1], run[last]);
      }
    }
    forall i | 0 <= i < |run|
      ensures Inv(run[i]) && !run[i].skipped && W(run[i].total - run[i].head) <= 256 && run[i].consumed <= run[i].produced
    {
      if i < last {
        assert run[..last][i] == run[i];
      }
      Gap(run[i]);
    }
  }

  /** The two sides never wait for each other: when the launcher finds nothing to
      drain, the firmware finds room. */
  lemma NoStandoff(s: State)
    requires Inv(s) && s.c == Away && s.total == s.last
    ensures W(s.total - s.head) < 256
  {
    WordsAgree(|s.produced|, |s.consumed|);
    Gap(s);
  }
}
