/** The firmware's console calls against the ring protocols: the accesses that putchar and
    getchar make are steps of the rings' two protocols, so what is proved of every run of
    those covers the firmware. */
module FirmwareRings {
  import opened Words
  import opened Firmware
  import OutputRing
  import InputRing

  // ---------------------------------------------------------------- putchar

  /** The access is this producer step.  The head word may have been moved by the launcher
      at any time before it is read. */
  ghost predicate Produces(s: OutputRing.State, a: Access, t: OutputRing.State) {
    match a
    case ReadTotal(total) => s.total == total && OutputRing.ReadTotal(s, t)
    case ReadHead(head) => OutputRing.ReadHead(s.(head := head), t)
    case StoreByte(slot, ch) =>
      s.p.HasRoom? && slot == s.p.t0 % 256 && ch == s.p.ch && OutputRing.StoreByte(s, t)
    case WriteTotal(total) => OutputRing.Publish(s, t) && t.total == total
    case _ => false
  }

  ghost predicate ProducesAll(s: OutputRing.State, accesses: seq<Access>, t: OutputRing.State)
    decreases |accesses|
  {
    if accesses == [] then t == s
    else exists m :: Produces(s, accesses[0], m) && ProducesAll(m, accesses[1..], t)
  }

  lemma {:induction false} ProducesThen(s: OutputRing.State, x: seq<Access>, m: OutputRing.State, y: seq<Access>,
                                        t: OutputRing.State)
    requires ProducesAll(s, x, m) && ProducesAll(m, y, t)
    ensures ProducesAll(s, x + y, t)
    decreases |x|
  {
    hide Produces;
    if x == [] {
      assert x + y == y;
    } else {
      var n :| Produces(s, x[0], n) && ProducesAll(n, x[1..], m);
      ProducesThen(n, x[1..], m, y, t);
      assert (x + y)[0] == x[0] && (x + y)[1..] == x[1..] + y;
    }
  }

  lemma ProducesOne(s: OutputRing.State, a: Access, t: OutputRing.State)
    requires Produces(s, a, t)
    ensures ProducesAll(s, [a], t)
  {
    hide Produces;
    assert ProducesAll(t, [a][1..], t);
  }

  /** One round of polling: the total, then the head, and room or another round. */
  lemma PollRound(s: OutputRing.State, head: u32) returns (t: OutputRing.State)
    requires s.p.Called?
    ensures ProducesAll(s, [ReadTotal(s.total)] + [ReadHead(head)], t)
    ensures t == s.(head := head, p := if HasRoom(s.total, head) then OutputRing.HasRoom(s.p.ch, s.total) else s.p)
  {
    hide ProducesAll;
    var a := s.(p := OutputRing.HasTotal(s.p.ch, s.total));
    ProducesOne(s, ReadTotal(s.total), a);
    t := a.(head := head, p := if HasRoom(s.total, head) then OutputRing.HasRoom(s.p.ch, s.total) else s.p);
    ProducesOne(a, ReadHead(head), t);
    ProducesThen(s, [ReadTotal(s.total)], a, [ReadHead(head)], t);
  }

  /** Polling until there is room leaves the producer with room for its byte. */
  lemma {:induction false} PollsProduce(s: OutputRing.State, heads: seq<u32>) returns (t: OutputRing.State)
    requires s.p.Called? && SeesRoom(s.total, heads)
    ensures ProducesAll(s, Polls(s.total, heads), t)
    ensures t == s.(head := t.head, p := OutputRing.HasRoom(s.p.ch, s.total))
    decreases |heads|
  {
    hide ProducesAll, HasRoom;
    t := PollRound(s, heads[0]);
    var round := [ReadTotal(s.total)] + [ReadHead(heads[0])];
    if HasRoom(s.total, heads[0]) {
      assert Polls(s.total, heads) == round;
    } else {
      var i :| 0 <= i < |heads| && HasRoom(s.total, heads[i]);
      RoomSeen(s.total, heads[1..], i - 1);
      var m := t;
      t := PollsProduce(m, heads[1..]);
      ProducesThen(s, round, m, Polls(s.total, heads[1..]), t);
      assert Polls(s.total, heads) == round + Polls(s.total, heads[1..]);
    }
  }

  /** Main result: the accesses of one putchar are, in order, producer steps that take the
      ring from the call to its end with one more byte produced, in the slot and with the
      total that the method's contract gives. */
  lemma PutcharProduces(s: OutputRing.State, heads: seq<u32>, a0: u32) returns (t: OutputRing.State)
    requires s.p == OutputRing.Called(a0 % 0x100) && |s.cells| == 256 && SeesRoom(s.total, heads)
    ensures ProducesAll(s, PutcharAccesses(s.total, heads, a0), t)
    ensures t.p == OutputRing.Outside && t.produced == s.produced + [a0 % 0x100]
    ensures t.total == Add(s.total, 1) && t.cells == s.cells[s.total % 256 := a0 % 0x100]
    ensures t == s.(head := t.head, p := t.p, produced := t.produced, total := t.total, cells := t.cells)
  {
    hide SeesRoom, Polls;
    var ch: u8 := a0 % 0x100;
    var ready := PollsProduce(s, heads);
    var stored := ready.(cells := s.cells[s.total % 256 := ch], p := OutputRing.Stored(ch, s.total));
    t := stored.(total := W(s.total + 1), p := OutputRing.Outside, produced := s.produced + [ch]);
    ProducesOne(ready, StoreByte(s.total % 256, ch), stored);
    ProducesOne(stored, WriteTotal(t.total), t);
    ProducesThen(ready, [StoreByte(s.total % 256, ch)], stored, [WriteTotal(t.total)], t);
    ProducesThen(s, Polls(s.total, heads), ready, [StoreByte(s.total % 256, ch)] + [WriteTotal(t.total)], t);
    assert PutcharAccesses(s.total, heads, a0) ==
           Polls(s.total, heads) + ([StoreByte(s.total % 256, ch)] + [WriteTotal(t.total)]);
  }

  // ---------------------------------------------------------------- getchar

  ghost predicate Consumes(s: InputRing.State, a: Access, t: InputRing.State) {
    match a
    case ReadHead(head) => s.head == head && InputRing.ReadHead(s, t)
    case ReadTail(tail) => InputRing.ReadTail(s.(tail := tail), t)
    case LoadByte(slot, ch) =>
      s.c.HasWork? && slot == s.c.t0 % 128 && InputRing.LoadByte(s, t) && t.c.ch == ch
    case WriteHead(head) => InputRing.WriteHead(s, t) && t.head == head
    case _ => false
  }

  ghost predicate ConsumesAll(s: InputRing.State, accesses: seq<Access>, t: InputRing.State)
    decreases |accesses|
  {
    if accesses == [] then t == s
    else exists m :: Consumes(s, accesses[0], m) && ConsumesAll(m, accesses[1..], t)
  }

  /** The ring state that the words show: the 128 cells and the head. */
  ghost predicate Shows(words: seq<u32>, s: InputRing.State) {
    && |words| == 256 && |s.cells| == 128 && s.head == words[100]
    && forall b :: 0 <= b < 128 ==> s.cells[b] == ByteOf(words, 272 + b)
  }

  /** Main result: the accesses of one getchar are consumer steps that either find the ring
      empty or consume the byte that the call returns. */
  lemma GetcharConsumes(s: InputRing.State, words: seq<u32>) returns (t: InputRing.State)
    requires s.c == InputRing.Outside && Shows(words, s)
    ensures ConsumesAll(s, GetcharAccesses(words), t) && t.c == InputRing.Outside
    ensures words[100] == words[101] ==> t.empties == s.empties + 1 && t.consumed == s.consumed && t.head == s.head
    ensures words[100] != words[101] ==>
              && t.empties == s.empties && t.consumed == s.consumed + [GetcharAnswer(words)]
              && t.head == Add(s.head, 1)
  {
    hide ByteOf;
    var made := GetcharAccesses(words);
    var a := s.(c := InputRing.ReadingTail(s.head));
    assert Consumes(s, made[0], a);
    if words[100] == words[101] {
      t := a.(tail := words[101], c := InputRing.Outside, empties := s.empties + 1);
      assert Consumes(a, made[1], t) && ConsumesAll(t, made[2..], t);
      assert made[1..][1..] == made[2..] && ConsumesAll(a, made[1..], t);
    } else {
      var ch := ByteOf(words, 272 + words[100] % 128);
      var b := a.(tail := words[101], c := InputRing.HasWork(s.head));
      var d := b.(c := InputRing.Loaded(s.head, ch));
      t := d.(head := W(s.head + 1), c := InputRing.Outside, consumed := s.consumed + [ch]);
      assert Consumes(a, made[1], b) && Consumes(b, made[2], d) && Consumes(d, made[3], t);
      assert ConsumesAll(t, made[4..], t);
      assert made[3..][1..] == made[4..] && ConsumesAll(d, made[3..], t);
      assert made[2..][1..] == made[3..] && ConsumesAll(b, made[2..], t);
      assert made[1..][1..] == made[2..] && ConsumesAll(a, made[1..], t);
    }
  }
}
