/** The console input ring: the launcher produces bytes by rewriting whole words, the
    firmware's getchar consumes one byte per call.  Each transition is one access to
    shared memory, and the two sides interleave in any order. */
module InputRing {
  import opened Words
  import opened Counters

  /** Where the launcher's pump is. */
  datatype Producer =
    | Away
    | HasHead(h: u32)
    | Pumping(h: u32, t: u32)
    | HasWord(h: u32, t: u32, ch: u8, word: u32)
    | Stored(h: u32, t: u32, ch: u8)

  /** Where getchar is. */
  datatype Consumer =
    | Outside
    | ReadingTail(t0: u32)
    | HasWork(t0: u32)
    | Loaded(t0: u32, ch: u8)

  datatype State = State(
    cells: seq<u8>, head: u32, tail: u32, p: Producer, c: Consumer,
    produced: seq<u8>, consumed: seq<u8>, empties: nat)

  predicate Init(s: State) {
    && |s.cells| == 128 && s.head == 0 && s.tail == 0
    && s.p == Away && s.c == Outside && s.produced == [] && s.consumed == [] && s.empties == 0
  }

  function WordOf(cells: seq<u8>, idx: nat): u32
    requires |cells| == 128 && idx < 128
  {
    var a := idx / 4 * 4;
    Le32(cells[a], cells[a + 1], cells[a + 2], cells[a + 3])
  }

  function WithWordOf(cells: seq<u8>, idx: nat, word: u32): (r: seq<u8>)
    requires |cells| == 128 && idx < 128
    ensures |r| == 128
  {
    var a := idx / 4 * 4;
    cells[a := Byte(word, 0)][a + 1 := Byte(word, 1)][a + 2 := Byte(word, 2)][a + 3 := Byte(word, 3)]
  }

  // ---------------------------------------------------------------- launcher

  predicate PumpHead(s: State, s': State) { s.p == Away && s' == s.(p := HasHead(s.head)) }

  predicate PumpTail(s: State, s': State) { s.p.HasHead? && s' == s.(p := Pumping(s.p.h, s.tail)) }

  predicate Leave(s: State, s': State) { s.p.Pumping? && s' == s.(p := Away) }

  predicate Receive(s: State, s': State, ch: u8) {
    && s.p.Pumping? && W(s.p.t - s.p.h) < 128 && |s.cells| == 128
    && s' == s.(p := HasWord(s.p.h, s.p.t, ch, WordOf(s.cells, s.p.t % 128)))
  }

  predicate WriteWord(s: State, s': State) {
    && s.p.HasWord? && |s.cells| == 128
    && var idx := s.p.t % 128;
       s' == s.(cells := WithWordOf(s.cells, idx, W(Patch(s.p.word, idx % 4, s.p.ch))), p := Stored(s.p.h, s.p.t, s.p.ch))
  }

  predicate Publish(s: State, s': State) {
    && s.p.Stored?
    && s' == s.(tail := W(s.p.t + 1), p := Pumping(s.p.h, W(s.p.t + 1)), produced := s.produced + [s.p.ch])
  }

  // ---------------------------------------------------------------- firmware

  predicate ReadHead(s: State, s': State) { s.c == Outside && s' == s.(c := ReadingTail(s.head)) }

  predicate ReadTail(s: State, s': State) {
    && s.c.ReadingTail?
    && s' == (if s.c.t0 == s.tail then s.(c := Outside, empties := s.empties + 1) else s.(c := HasWork(s.c.t0)))
  }

  predicate LoadByte(s: State, s': State) {
    && s.c.HasWork? && |s.cells| == 128 && s' == s.(c := Loaded(s.c.t0, s.cells[s.c.t0 % 128]))
  }

  predicate WriteHead(s: State, s': State) {
    && s.c.Loaded?
    && s' == s.(head := W(s.c.t0 + 1), c := Outside, consumed := s.consumed + [s.c.ch])
  }

  predicate ProducerStep(s: State, s': State) {
    || PumpHead(s, s') || PumpTail(s, s') || Leave(s, s')
    || (exists ch: u8 :: Receive(s, s', ch))
    || WriteWord(s, s') || Publish(s, s')
  }

  predicate ConsumerStep(s: State, s': State) {
    ReadHead(s, s') || ReadTail(s, s') || LoadByte(s, s') || WriteHead(s, s')
  }

  predicate Next(s: State, s': State) { ProducerStep(s, s') || ConsumerStep(s, s') }

  // ---------------------------------------------------------------- invariant

  predicate Counts(t: u32, n: int) { t == W(n) }

  /** The launcher's copy of head stands for a count the firmware has reached, and the
      ring has `room` free slots or more by that copy. */
  ghost predicate Copy(s: State, h: u32, room: int) {
    exists n :: 0 <= n <= |s.consumed| && |s.produced| - n <= 128 - room && Counts(h, n)
  }

  ghost predicate Inv(s: State) {
    && |s.cells| == 128
    && |s.consumed| <= |s.produced| <= |s.consumed| + 128
    && Counts(s.head, |s.consumed|) && Counts(s.tail, |s.produced|)
    && s.consumed == s.produced[..|s.consumed|]
    && (forall k :: |s.consumed| <= k < |s.produced| ==> s.cells[k % 128] == s.produced[k])
    && (match s.p
        case Away => true
        case HasHead(h) => Copy(s, h, 0)
        case Pumping(h, t) => Copy(s, h, 0) && t == s.tail
        case HasWord(h, t, ch, word) => Copy(s, h, 1) && t == s.tail && word == WordOf(s.cells, t % 128)
        case Stored(h, t, ch) => Copy(s, h, 1) && t == s.tail && s.cells[|s.produced| % 128] == ch)
    && (match s.c
        case Outside => true
        case ReadingTail(t0) => t0 == s.head
        case HasWork(t0) => t0 == s.head && |s.consumed| < |s.produced|
        case Loaded(t0, ch) => t0 == s.head && |s.consumed| < |s.produced| && ch == s.produced[|s.consumed|])
  }

  lemma InitHolds(s: State)
    requires Init(s)
    ensures Inv(s)
  {
  }

  /** Rewriting a word with one byte patched changes one cell. */
  lemma PatchedCell(cells: seq<u8>, idx: nat, ch: u8)
    requires |cells| == 128 && idx < 128
    ensures WithWordOf(cells, idx, W(Patch(WordOf(cells, idx), idx % 4, ch))) == cells[idx := ch]
  {
    hide Byte, Le32, Patch, W;
    var a, i := idx / 4 * 4, idx % 4;
    var word := WordOf(cells, idx);
    BytesOfLe32(cells[a], cells[a + 1], cells[a + 2], cells[a + 3]);
    PatchedBytes(word, i, ch);
    OneCell(cells, a, i, ch);
  }

  lemma OneCell(cells: seq<u8>, a: nat, i: nat, ch: u8)
    requires a + 3 < |cells| && i < 4
    ensures cells[a := if i == 0 then ch else cells[a]][a + 1 := if i == 1 then ch else cells[a + 1]]
                 [a + 2 := if i == 2 then ch else cells[a + 2]][a + 3 := if i == 3 then ch else cells[a + 3]]
            == cells[a + i := ch]
  {
  }

  lemma CopyGrows(s: State, s': State, h: u32, room: int)
    requires Copy(s, h, room) && s'.produced == s.produced && |s.consumed| <= |s'.consumed|
    ensures Copy(s', h, room)
  {
    var n :| 0 <= n <= |s.consumed| && |s.produced| - n <= 128 - room && Counts(h, n);
    assert 0 <= n <= |s'.consumed| && Counts(h, n);
  }

  lemma ProducerKeeps(s: State, s': State)
    requires Inv(s) && ProducerStep(s, s')
    ensures Inv(s')
  {
    hide W, WordOf, WithWordOf, Patch;
    if PumpHead(s, s') {
      assert Counts(s.head, |s.consumed|);
      assert Copy(s', s.head, 0);
    } else if PumpTail(s, s') {
      CopyGrows(s, s', s.p.h, 0);
    } else if Leave(s, s') {
    } else if WriteWord(s, s') {
      WriteKeeps(s, s');
    } else if Publish(s, s') {
      PublishKeeps(s, s');
    } else {
      var ch :| Receive(s, s', ch);
      var n :| 0 <= n <= |s.consumed| && |s.produced| - n <= 128 && Counts(s.p.h, n);
      WordDifference(|s.produced|, n);
      assert 0 <= n <= |s'.consumed| && Counts(s'.p.h, n);
      assert Copy(s', s'.p.h, 1);
    }
  }

  lemma WriteKeeps(s: State, s': State)
    requires Inv(s) && WriteWord(s, s')
    ensures Inv(s')
  {
    var idx := s.p.t % 128;
    PatchedCell(s.cells, idx, s.p.ch);
    WordSlot(|s.produced|, 128);
    hide W, WordOf, WithWordOf, Patch;
    assert Copy(s, s.p.h, 1);
    CopyGrows(s, s', s.p.h, 1);
    assert s'.cells == s.cells[idx := s.p.ch];
    var n :| 0 <= n <= |s.consumed| && |s.produced| - n <= 127 && Counts(s.p.h, n);
    forall k | |s.consumed| <= k < |s.produced|
      ensures s'.cells[k % 128] == s.produced[k]
    {
      SlotsDiffer(k, |s.produced|, 128);
    }
  }

  lemma PublishKeeps(s: State, s': State)
    requires Inv(s) && Publish(s, s')
    ensures Inv(s')
  {
    hide W;
    WAdd(|s.produced|, 1);
    var n :| 0 <= n <= |s.consumed| && |s.produced| - n <= 127 && Counts(s.p.h, n);
    assert 0 <= n <= |s'.consumed| && |s'.produced| - n <= 128 && Counts(s'.p.h, n);
    assert Copy(s', s'.p.h, 0);
  }

  lemma ConsumerKeeps(s: State, s': State)
    requires Inv(s) && ConsumerStep(s, s')
    ensures Inv(s')
  {
    hide W, WordOf;
    var room := if s.p.HasWord? || s.p.Stored? then 1 else 0;
    if !s.p.Away? {
      CopyGrows(s, s', s.p.h, room);
    }
    if ReadTail(s, s') {
      WordsAgree(|s.produced|, |s.consumed|);
      assert Counts(s.tail, |s.produced|) && Counts(s.head, |s.consumed|);
    } else if LoadByte(s, s') {
      WordSlot(|s.consumed|, 128);
    } else if WriteHead(s, s') {
      WAdd(|s.consumed|, 1);
    }
  }

  lemma Gap(s: State)
    requires Inv(s)
    ensures W(s.tail - s.head) == |s.produced| - |s.consumed| <= 128 && s.consumed <= s.produced
  {
    WordDifference(|s.produced|, |s.consumed|);
  }

  /** Main result: in every interleaving, from boot, the counters stay at most a ring
      apart whatever the 2^32 wrap does, and what getchar returned is a prefix of what
      was typed. */
  lemma {:induction false} NothingLost(run: seq<State>)
    requires run != [] && Init(run[0])
    requires forall i :: 0 <= i < |run| - 1 ==> Next(run[i], run[i + 1])
    ensures forall i :: 0 <= i < |run| ==>
              Inv(run[i]) && W(run[i].tail - run[i].head) <= 128 && run[i].consumed <= run[i].produced
    decreases |run|
  {
    hide Inv, W, Init, ProducerStep, ConsumerStep;
    var last := |run| - 1;
    if last == 0 {
      InitHolds(run[0]);
    } else {
      NothingLost(run[..last]);
      assert run[..last][last - 1] == run[last - 1];
      assert Next(run[last - 1], run[last]);
      if ProducerStep(run[last - 1], run[last]) {
        ProducerKeeps(run[last - 1], run[last]);
      } else {
        ConsumerKeeps(run[last - 1], run[last]);
      }
    }
    forall i | 0 <= i < |run|
      ensures Inv(run[i]) && W(run[i].tail - run[i].head) <= 128 && run[i].consumed <= run[i].produced
    {
      if i < last {
        assert run[..last][i] == run[i];
      }
      Gap(run[i]);
    }
  }

  /** getchar reports an empty ring only when every byte published when it read the
      tail has been returned. */
  lemma EmptyIsEmpty(s: State, s': State)
    requires Inv(s) && ReadTail(s, s')
    ensures s'.empties > s.empties <==> s.consumed == s.produced
  {
    WordsAgree(|s.produced|, |s.consumed|);
  }
}
