/** The split queue over time: serving one available head, then all of them, with the
    rings protected from the buffers. */
module VirtioQueue {
  import opened Words
  import opened FlatMemory
  import opened VirtioModel
  import opened Counters
  import Bits

  datatype World = World(m: Flat, image: seq<u8>, last: u16)

  ghost function AvailIdx(m: Flat, q: Queue): u16 { HalfAt(m, q.avail + 2) }

  ghost function UsedIdx(m: Flat, q: Queue): u16 { HalfAt(m, q.used + 2) }

  ghost function HeadAt(m: Flat, q: Queue, last: u16): u16
    requires q.num > 0
  {
    HalfAt(m, q.avail + 4 + last % q.num * 2)
  }

  /** The status and the data of one chain: memory, image and the length reported. */
  ghost function Serve(m: Flat, image: seq<u8>, readonly: bool, c: seq<Desc>): (Flat, seq<u8>, nat) {
    if |c| >= 2 && Writable(c[|c| - 1]) && c[|c| - 1].length >= 1 then
      var (n, image', r) := Perform(m, image, readonly, c);
      (WithByte(n, c[|c| - 1].addr, r.status), image', r.written)
    else (m, image, 1)
  }

  /** Where the used element of index u lies. */
  ghost function Elem(q: Queue, u: u16): int
    requires q.num > 0
  {
    q.used + 4 + u % q.num * 8
  }

  ghost function PushUsed(m: Flat, q: Queue, head: int, length: int): Flat
    requires q.num > 0
  {
    var u := UsedIdx(m, q);
    WithHalf(WithWord(WithWord(m, Elem(q, u), head), Elem(q, u) + 4, length), q.used + 2, H(u + 1))
  }

  ghost function ChainAt(m: Flat, q: Queue, last: u16): seq<Desc>
    requires q.num > 0
  {
    ChainOf(m, q, HeadAt(m, q, last))
  }

  ghost function Process(w: World, q: Queue, readonly: bool): World
    requires q.num > 0
  {
    var (n, image', length) := Serve(w.m, w.image, readonly, ChainAt(w.m, q, w.last));
    World(PushUsed(n, q, HeadAt(w.m, q, w.last), length), image', H(w.last + 1))
  }

  ghost function Served(w: World, q: Queue, readonly: bool, n: nat): World
    requires q.num > 0
    decreases n
  {
    if n == 0 then w else Process(Served(w, q, readonly, n - 1), q, readonly)
  }

  // ---------------------------------------------------------------- regions

  /** a lies within n bytes from base, wrapping at 2^32. */
  ghost predicate Within(a: int, base: int, n: int) { W(a - base) < n }

  ghost predicate InDesc(q: Queue, a: int) { Within(a, q.desc, 16 * q.num) }
  ghost predicate InAvail(q: Queue, a: int) { Within(a, q.avail, 4 + 2 * q.num) }
  ghost predicate InUsed(q: Queue, a: int) { Within(a, q.used, 4 + 8 * q.num) }

  /** The driver's duty for the rings: the used ring overlaps neither the descriptor
      table nor the available ring, and the queue has a legal size. */
  ghost predicate SafeRings(q: Queue) {
    && 0 < q.num <= 0x8000
    && forall a: u32 :: InUsed(q, a) ==> !InDesc(q, a) && !InAvail(q, a)
  }

  /** The driver's duty for a chain: its device-writable buffers are not the rings. */
  ghost predicate SafeChain(q: Queue, c: seq<Desc>) {
    forall k, o :: 0 <= k < |c| && Writable(c[k]) && 0 <= o < c[k].length ==>
      !InDesc(q, Spot(c[k], o)) && !InAvail(q, Spot(c[k], o)) && !InUsed(q, Spot(c[k], o))
  }

  /** The i-th chain the driver has made available and the device not yet served. */
  ghost function Pending(w: World, q: Queue, i: nat): seq<Desc>
    requires q.num > 0
  {
    ChainAt(w.m, q, H(w.last + i))
  }

  ghost predicate SafePending(w: World, q: Queue, n: nat)
    requires q.num > 0
  {
    SafeRings(q) && forall i :: 0 <= i < n ==> SafeChain(q, Pending(w, q, i))
  }

  /** The n bytes from base are the same in both memories. */
  ghost predicate SameWithin(m: Flat, n: Flat, base: int, size: int) {
    forall a: u32 :: Within(a, base, size) ==> n[a] == m[a]
  }

  /** The driver's side of the queue is the same in both memories. */
  ghost predicate Guarded(m: Flat, n: Flat, q: Queue) {
    SameWithin(m, n, q.desc, 16 * q.num) && SameWithin(m, n, q.avail, 4 + 2 * q.num)
  }

  lemma WithinOffset(base: int, i: int, n: int)
    requires 0 <= i < n <= 0x1_0000_0000
    ensures Within(W(base + i), base, n)
  {
    var k := (base + i) / 0x1_0000_0000;
    assert W(base + i) - base == i + 0x1_0000_0000 * (-k);
    Bits.DivUnique(W(base + i) - base, 0x1_0000_0000, -k, i);
  }

  lemma SameByte(m: Flat, n: Flat, base: int, size: int, i: int)
    requires SameWithin(m, n, base, size) && 0 <= i < size <= 0x1_0000_0000
    ensures ByteAt(n, base + i) == ByteAt(m, base + i)
  {
    WithinOffset(base, i, size);
  }

  lemma SameHalf(m: Flat, n: Flat, base: int, size: int, i: int)
    requires SameWithin(m, n, base, size) && 0 <= i && i + 2 <= size <= 0x1_0000_0000
    ensures HalfAt(n, base + i) == HalfAt(m, base + i)
  {
    hide W, Le16, ByteAt, SameWithin;
    SameByte(m, n, base, size, i);
    SameByte(m, n, base, size, i + 1);
    assert base + (i + 1) == base + i + 1;
  }

  lemma SameWord(m: Flat, n: Flat, base: int, size: int, i: int)
    requires SameWithin(m, n, base, size) && 0 <= i && i + 4 <= size <= 0x1_0000_0000
    ensures WordAt(n, base + i) == WordAt(m, base + i)
  {
    hide W, Le32, ByteAt, SameWithin;
    SameByte(m, n, base, size, i);
    SameByte(m, n, base, size, i + 1);
    SameByte(m, n, base, size, i + 2);
    SameByte(m, n, base, size, i + 3);
    assert base + (i + 1) == base + i + 1 && base + (i + 2) == base + i + 2 && base + (i + 3) == base + i + 3;
  }

  lemma SameDesc(m: Flat, n: Flat, q: Queue, i: nat)
    requires Guarded(m, n, q) && i < q.num <= 0x8000
    ensures DescAt(n, q, i) == DescAt(m, q, i)
  {
    hide WordAt, HalfAt, SameWithin;
    SameWord(m, n, q.desc, 16 * q.num, i * 16);
    SameWord(m, n, q.desc, 16 * q.num, i * 16 + 4);
    SameWord(m, n, q.desc, 16 * q.num, i * 16 + 8);
    SameHalf(m, n, q.desc, 16 * q.num, i * 16 + 12);
    SameHalf(m, n, q.desc, 16 * q.num, i * 16 + 14);
    Reassociate(q.desc, i * 16);
  }

  lemma Reassociate(x: int, y: int)
    ensures x + (y + 4) == x + y + 4 && x + (y + 8) == x + y + 8
    ensures x + (y + 12) == x + y + 12 && x + (y + 14) == x + y + 14
  {
  }

  lemma {:induction false} SameChain(m: Flat, n: Flat, q: Queue, index: nat, seen: set<nat>, k: nat)
    requires Guarded(m, n, q) && q.num <= 0x8000
    ensures ChainFrom(n, q, index, seen, k) == ChainFrom(m, q, index, seen, k)
    decreases k
  {
    hide DescAt, Guarded, Bit;
    if k > 0 && index < q.num && index !in seen {
      SameDesc(m, n, q, index);
      var d := DescAt(m, q, index);
      if !Indirect(d) && HasNext(d) {
        SameChain(m, n, q, d.next, seen + {index}, k - 1);
      }
    }
  }

  /** What the device reads of the driver's side is the same in both memories. */
  lemma SameHeads(m: Flat, n: Flat, q: Queue, last: u16)
    requires Guarded(m, n, q) && 0 < q.num <= 0x8000
    ensures AvailIdx(n, q) == AvailIdx(m, q)
    ensures HeadAt(n, q, last) == HeadAt(m, q, last)
    ensures ChainAt(n, q, last) == ChainAt(m, q, last)
  {
    hide HalfAt, SameWithin, ChainFrom;
    SameHalf(m, n, q.avail, 4 + 2 * q.num, 2);
    var slot := last % q.num;
    SameHalf(m, n, q.avail, 4 + 2 * q.num, 4 + slot * 2);
    assert q.avail + (4 + slot * 2) == q.avail + 4 + slot * 2;
    SameChain(m, n, q, HeadAt(m, q, last), {}, q.num);
  }

  // ---------------------------------------------------------------- frames

  /** Serving a chain writes only its device-writable buffers. */
  lemma ServeFrame(m: Flat, image: seq<u8>, readonly: bool, c: seq<Desc>, a: u32)
    requires forall k, o :: 0 <= k < |c| && Writable(c[k]) && 0 <= o < c[k].length ==> Spot(c[k], o) != a
    ensures Serve(m, image, readonly, c).0[a] == m[a]
  {
    hide W, Scatter, Gather, WordAt, Bit, TotalLength;
    if |c| >= 2 && Writable(c[|c| - 1]) && c[|c| - 1].length >= 1 {
      var ds := c[1..|c| - 1];
      forall k, o | 0 <= k < |ds| && Writable(ds[k]) && 0 <= o < ds[k].length
        ensures Spot(ds[k], o) != a
      {
        assert ds[k] == c[k + 1];
      }
      PerformFrame(m, image, readonly, c, a);
      assert Spot(c[|c| - 1], 0) != a;
    }
  }

  lemma PerformFrame(m: Flat, image: seq<u8>, readonly: bool, c: seq<Desc>, a: u32)
    requires |c| >= 2
    requires var ds := c[1..|c| - 1];
             forall k, o :: 0 <= k < |ds| && Writable(ds[k]) && 0 <= o < ds[k].length ==> Spot(ds[k], o) != a
    ensures Perform(m, image, readonly, c).0[a] == m[a]
  {
    hide Scatter, Gather, WordAt, Writable, TotalLength, Spot;
    var ds := c[1..|c| - 1];
    ScatterFrame(m, ds, IDENT, 0, a);
    var kind := WordAt(m, c[0].addr);
    var sector := WordAt(m, c[0].addr + 8) + WordAt(m, c[0].addr + 12) * 0x1_0000_0000;
    if sector * 512 + TotalLength(ds) <= |image| {
      ScatterFrame(m, ds, image[sector * 512..sector * 512 + TotalLength(ds)], 0, a);
    }
  }

  lemma ServeKeepsRings(m: Flat, image: seq<u8>, readonly: bool, q: Queue, c: seq<Desc>)
    requires SafeChain(q, c)
    ensures var n := Serve(m, image, readonly, c).0;
            Guarded(m, n, q) && SameWithin(m, n, q.used, 4 + 8 * q.num)
  {
    hide Serve, Within, Writable, Spot;
    forall a: u32 | InDesc(q, a) || InAvail(q, a) || InUsed(q, a)
      ensures Serve(m, image, readonly, c).0[a] == m[a]
    {
      ServeFrame(m, image, readonly, c, a);
    }
  }

  // ---------------------------------------------------------------- the used ring

  lemma OffsetOf(base: int, k: int)
    requires 0 <= k < 0x1_0000_0000
    ensures W(W(base + k) - base) == k
  {
    var q := (base + k) / 0x1_0000_0000;
    assert W(base + k) - base == k + 0x1_0000_0000 * (-q);
    Bits.DivUnique(W(base + k) - base, 0x1_0000_0000, -q, k);
  }

  /** A word stored at an offset from base leaves the bytes at other offsets alone. */
  lemma WordElsewhere(m: Flat, base: int, off: int, v: int, a: u32)
    requires 0 <= off && off + 4 <= 0x1_0000_0000
    requires !(off <= W(a - base) < off + 4)
    ensures WithWord(m, base + off, v)[a] == m[a]
  {
    OffsetOf(base, off);
    OffsetOf(base, off + 1);
    OffsetOf(base, off + 2);
    OffsetOf(base, off + 3);
    assert base + off + 1 == base + (off + 1) && base + off + 2 == base + (off + 2) && base + off + 3 == base + (off + 3);
    hide W;
  }

  lemma HalfElsewhere(m: Flat, base: int, off: int, v: int, a: u32)
    requires 0 <= off && off + 2 <= 0x1_0000_0000
    requires !(off <= W(a - base) < off + 2)
    ensures WithHalf(m, base + off, v)[a] == m[a]
  {
    OffsetOf(base, off);
    OffsetOf(base, off + 1);
    assert base + off + 1 == base + (off + 1);
    hide W;
  }

  lemma HalfOfWithHalf(m: Flat, a: int, v: int)
    ensures HalfAt(WithHalf(m, a, v), a) == H(v)
  {
    Distinct4(a);
    assert v == 0x100 * (v / 0x100) + v % 0x100;
    assert H(v) == v / 0x100 % 0x100 * 0x100 + v % 0x100;
  }

  /** A word at offset `at` survives a store at a disjoint offset. */
  lemma WordBeyond(m: Flat, n: Flat, base: int, at: int, lo: int, hi: int)
    requires 0 <= at && at + 4 <= 0x1_0000_0000 && (at + 4 <= lo || hi <= at)
    requires forall a: u32 :: !(lo <= W(a - base) < hi) ==> n[a] == m[a]
    ensures WordAt(n, base + at) == WordAt(m, base + at)
  {
    OffsetOf(base, at);
    OffsetOf(base, at + 1);
    OffsetOf(base, at + 2);
    OffsetOf(base, at + 3);
    assert base + at + 1 == base + (at + 1) && base + at + 2 == base + (at + 2) && base + at + 3 == base + (at + 3);
    hide W, Le32;
    assert ByteAt(n, base + at) == ByteAt(m, base + at);
    assert ByteAt(n, base + at + 1) == ByteAt(m, base + at + 1);
    assert ByteAt(n, base + at + 2) == ByteAt(m, base + at + 2);
    assert ByteAt(n, base + at + 3) == ByteAt(m, base + at + 3);
  }

  /** The head and the length recorded in slot s. */
  ghost function SlotHead(m: Flat, q: Queue, s: nat): u32 { WordAt(m, q.used + (4 + s * 8)) }
  ghost function SlotLength(m: Flat, q: Queue, s: nat): u32 { WordAt(m, q.used + (8 + s * 8)) }

  ghost predicate OutsideSame(m: Flat, n: Flat, base: int, lo: int, hi: int) {
    forall a: u32 :: !(lo <= W(a - base) < hi) ==> n[a] == m[a]
  }

  lemma WordWrite(m: Flat, base: int, off: int, v: int)
    requires 0 <= off && off + 4 <= 0x1_0000_0000
    ensures OutsideSame(m, WithWord(m, base + off, v), base, off, off + 4)
    ensures WordAt(WithWord(m, base + off, v), base + off) == W(v)
  {
    hide WordAt, WithWord, W;
    forall a: u32 | !(off <= W(a - base) < off + 4) ensures WithWord(m, base + off, v)[a] == m[a] {
      WordElsewhere(m, base, off, v, a);
    }
    WordOfWithWord(m, base + off, v);
  }

  lemma HalfWrite(m: Flat, base: int, off: int, v: int)
    requires 0 <= off && off + 2 <= 0x1_0000_0000
    ensures OutsideSame(m, WithHalf(m, base + off, v), base, off, off + 2)
    ensures HalfAt(WithHalf(m, base + off, v), base + off) == H(v)
  {
    hide HalfAt, WithHalf, W;
    forall a: u32 | !(off <= W(a - base) < off + 2) ensures WithHalf(m, base + off, v)[a] == m[a] {
      HalfElsewhere(m, base, off, v, a);
    }
    HalfOfWithHalf(m, base + off, v);
  }

  lemma SlotKept(m: Flat, n: Flat, q: Queue, t: nat, lo: int, hi: int)
    requires OutsideSame(m, n, q.used, lo, hi) && t < 0x8000
    requires 12 + t * 8 <= lo || hi <= 4 + t * 8
    ensures SlotHead(n, q, t) == SlotHead(m, q, t) && SlotLength(n, q, t) == SlotLength(m, q, t)
  {
    hide WordAt, W;
    WordBeyond(m, n, q.used, 4 + t * 8, lo, hi);
    WordBeyond(m, n, q.used, 8 + t * 8, lo, hi);
  }

  /** Pushing writes the slot of the used index, advances the index by one, and
      leaves every other slot and everything outside the used ring alone. */
  lemma PushEffect(m: Flat, q: Queue, head: int, length: int)
    requires 0 < q.num <= 0x8000
    ensures var n, u := PushUsed(m, q, head, length), UsedIdx(m, q);
            && UsedIdx(n, q) == H(u + 1)
            && SlotHead(n, q, u % q.num) == W(head) && SlotLength(n, q, u % q.num) == W(length)
            && (forall t :: 0 <= t < q.num && t != u % q.num ==>
                  SlotHead(n, q, t) == SlotHead(m, q, t) && SlotLength(n, q, t) == SlotLength(m, q, t))
            && (forall a: u32 :: !InUsed(q, a) ==> n[a] == m[a])
  {
    hide WordAt, WithWord, HalfAt, WithHalf, W, H, SlotHead, SlotLength;
    var u := UsedIdx(m, q);
    var s: nat := u % q.num;
    assert Elem(q, u) == q.used + (4 + s * 8) && Elem(q, u) + 4 == q.used + (8 + s * 8);
    var m1 := WithWord(m, q.used + (4 + s * 8), head);
    var m2 := WithWord(m1, q.used + (8 + s * 8), length);
    var n := WithHalf(m2, q.used + 2, H(u + 1));
    assert n == PushUsed(m, q, head, length);
    WordWrite(m, q.used, 4 + s * 8, head);
    WordWrite(m1, q.used, 8 + s * 8, length);
    HalfWrite(m2, q.used, 2, H(u + 1));
    SlotOf(m1, m2, n, q, s);
    HId(H(u + 1));
    forall t | 0 <= t < q.num && t != s
      ensures SlotHead(n, q, t) == SlotHead(m, q, t) && SlotLength(n, q, t) == SlotLength(m, q, t)
    {
      SlotKept(m, m1, q, t, 4 + s * 8, 8 + s * 8);
      SlotKept(m1, m2, q, t, 8 + s * 8, 12 + s * 8);
      SlotKept(m2, n, q, t, 2, 4);
    }
  }

  lemma HId(x: u16)
    ensures H(x) == x
  {
  }

  lemma SlotOf(m1: Flat, m2: Flat, n: Flat, q: Queue, s: nat)
    requires s < q.num <= 0x8000
    requires OutsideSame(m1, m2, q.used, 8 + s * 8, 12 + s * 8) && OutsideSame(m2, n, q.used, 2, 4)
    ensures SlotHead(n, q, s) == WordAt(m1, q.used + (4 + s * 8))
    ensures SlotLength(n, q, s) == WordAt(m2, q.used + (8 + s * 8))
  {
    hide WordAt, W;
    WordBeyond(m1, m2, q.used, 4 + s * 8, 8 + s * 8, 12 + s * 8);
    SlotKept(m2, n, q, s, 2, 4);
  }

  // ---------------------------------------------------------------- runs

  /** One chain served: the driver's side is kept, the used index moves by one, and
      the one new element names the head and the length. */
  lemma ProcessStep(w: World, q: Queue, readonly: bool)
    requires SafeRings(q) && SafeChain(q, ChainAt(w.m, q, w.last))
    ensures var v, u := Process(w, q, readonly), UsedIdx(w.m, q);
            && Guarded(w.m, v.m, q) && v.last == H(w.last + 1)
            && UsedIdx(v.m, q) == H(u + 1)
            && SlotHead(v.m, q, u % q.num) == HeadAt(w.m, q, w.last)
            && SlotLength(v.m, q, u % q.num) == W(Serve(w.m, w.image, readonly, ChainAt(w.m, q, w.last)).2)
            && (forall t :: 0 <= t < q.num && t != u % q.num ==>
                  SlotHead(v.m, q, t) == SlotHead(w.m, q, t) && SlotLength(v.m, q, t) == SlotLength(w.m, q, t))
  {
    hide WordAt, HalfAt, Serve, PushUsed, ChainAt, W, H, Elem, SlotHead, SlotLength;
    var c := ChainAt(w.m, q, w.last);
    var n := Serve(w.m, w.image, readonly, c).0;
    ServeKeepsRings(w.m, w.image, readonly, q, c);
    SameUsed(w.m, n, q);
    PushEffect(n, q, HeadAt(w.m, q, w.last), Serve(w.m, w.image, readonly, c).2);
    WId(HeadAt(w.m, q, w.last));
  }

  lemma SameUsed(m: Flat, n: Flat, q: Queue)
    requires SameWithin(m, n, q.used, 4 + 8 * q.num) && q.num <= 0x8000
    ensures UsedIdx(n, q) == UsedIdx(m, q)
    ensures forall t :: 0 <= t < q.num ==>
              SlotHead(n, q, t) == SlotHead(m, q, t) && SlotLength(n, q, t) == SlotLength(m, q, t)
  {
    hide WordAt, HalfAt, SameWithin;
    SameHalf(m, n, q.used, 4 + 8 * q.num, 2);
    forall t | 0 <= t < q.num
      ensures SlotHead(n, q, t) == SlotHead(m, q, t) && SlotLength(n, q, t) == SlotLength(m, q, t)
    {
      SameWord(m, n, q.used, 4 + 8 * q.num, 4 + t * 8);
      SameWord(m, n, q.used, 4 + 8 * q.num, 8 + t * 8);
    }
  }

  lemma GuardedTransitive(m: Flat, n: Flat, o: Flat, q: Queue)
    requires Guarded(m, n, q) && Guarded(n, o, q)
    ensures Guarded(m, o, q)
  {
    hide Within;
  }

  lemma GuardedReflexive(m: Flat, q: Queue)
    ensures Guarded(m, m, q)
  {
  }

  lemma HSum(a: int, b: int)
    ensures H(H(a) + b) == H(a + b)
  {
    assert H(a) == a - 0x1_0000 * (a / 0x1_0000);
  }

  /** Serving any number of pending chains keeps the driver's side of the queue,
      takes the chains the driver left there, and moves both indices by that number. */
  lemma {:induction false} ServedIndices(w: World, q: Queue, readonly: bool, n: nat)
    requires q.num > 0 && SafePending(w, q, n)
    ensures var v := Served(w, q, readonly, n);
            && Guarded(w.m, v.m, q)
            && v.last == H(w.last + n)
            && UsedIdx(v.m, q) == H(UsedIdx(w.m, q) + n)
    decreases n
  {
    hide HalfAt, H, Process, SameWithin, Guarded, Within, InDesc, InAvail, InUsed, SafeChain, ChainAt, HeadAt,
         UsedIdx, AvailIdx, Serve, SlotHead, SlotLength, W;
    if n == 0 {
      GuardedReflexive(w.m, q);
      HId(w.last);
      HId(UsedIdx(w.m, q));
    } else {
      var v := Served(w, q, readonly, n - 1);
      ServedIndices(w, q, readonly, n - 1);
      SameHeads(w.m, v.m, q, v.last);
      assert SafeChain(q, Pending(w, q, n - 1));
      ProcessStep(v, q, readonly);
      GuardedTransitive(w.m, v.m, Process(v, q, readonly).m, q);
      HSum(w.last + (n - 1), 1);
      HSum(UsedIdx(w.m, q) + (n - 1), 1);
      assert UsedIdx(w.m, q) + (n - 1) + 1 == UsedIdx(w.m, q) + n;
    }
  }

  /** Nothing the driver made available is left to serve. */
  ghost predicate CaughtUp(w: World, q: Queue) { w.last == AvailIdx(w.m, q) }

  /** Serving catches up with the driver after n chains and not before. */
  ghost predicate CatchesUp(w: World, q: Queue, readonly: bool, n: nat)
    requires q.num > 0
  {
    forall k :: 0 <= k <= n ==> (CaughtUp(Served(w, q, readonly, k), q) <==> k == n)
  }

  /** i steps from `last` reach `avail` exactly when i is their 16-bit distance. */
  lemma IndexDistance(avail: u16, last: u16, i: nat)
    requires i <= H(avail - last)
    ensures H(last + i) == avail <==> i == H(avail - last)
  {
  }

  /** Main result for a notification: chains whose buffers avoid the rings are all served,
      (avail - last) mod 2^16 of them, and both indices move by that number. */
  lemma NotificationEnds(w: World, q: Queue, readonly: bool)
    requires q.num > 0 && SafePending(w, q, H(AvailIdx(w.m, q) - w.last))
    ensures var n := H(AvailIdx(w.m, q) - w.last);
            var v := Served(w, q, readonly, n);
            && CatchesUp(w, q, readonly, n)
            && v.last == AvailIdx(v.m, q) == AvailIdx(w.m, q)
            && UsedIdx(v.m, q) == H(UsedIdx(w.m, q) + n)
  {
    hide HalfAt, H, Process, SameWithin, SafeChain, ChainAt, HeadAt, UsedIdx, AvailIdx;
    var n := H(AvailIdx(w.m, q) - w.last);
    forall k | 0 <= k <= n
      ensures AvailIdx(Served(w, q, readonly, k).m, q) == AvailIdx(w.m, q)
      ensures CaughtUp(Served(w, q, readonly, k), q) <==> k == n
    {
      ServedIndices(w, q, readonly, k);
      SameHeads(w.m, Served(w, q, readonly, k).m, q, 0);
      IndexDistance(AvailIdx(w.m, q), w.last, k);
    }
    ServedIndices(w, q, readonly, n);
  }

  /** The length the i-th chain reports, in the state its turn finds. */
  ghost function LengthOf(w: World, q: Queue, readonly: bool, i: nat): nat
    requires q.num > 0
  {
    var v := Served(w, q, readonly, i);
    Serve(v.m, v.image, readonly, Pending(w, q, i)).2
  }

  ghost function UsedSlot(w: World, q: Queue, i: nat): nat
    requires q.num > 0
  {
    H(UsedIdx(w.m, q) + i) % q.num
  }

  lemma SlotApart(u: int, i: nat, j: nat, num: nat)
    requires num > 0 && 0x1_0000 % num == 0 && i < j < i + num
    ensures H(u + i) % num != H(u + j) % num
  {
    SlotWraps(u + i, 0x1_0000, num);
    SlotWraps(u + j, 0x1_0000, num);
    SlotsDiffer(u + i, u + j, num);
  }

  /** Main result for the used ring: after serving n chains, at most a ring's worth,
      the n slots from the old used index hold the n heads in the order the driver
      listed them, each with the length its chain reported. */
  lemma {:induction false} UsedRingRecords(w: World, q: Queue, readonly: bool, n: nat)
    requires q.num > 0 && SafePending(w, q, n) && n <= q.num && 0x1_0000 % q.num == 0
    ensures forall i :: 0 <= i < n ==>
              && SlotHead(Served(w, q, readonly, n).m, q, UsedSlot(w, q, i)) == HeadAt(w.m, q, H(w.last + i))
              && SlotLength(Served(w, q, readonly, n).m, q, UsedSlot(w, q, i)) == W(LengthOf(w, q, readonly, i))
    decreases n
  {
    hide HalfAt, WordAt, H, W, Process, SameWithin, SafeChain, ChainAt, HeadAt, Serve, SlotHead, SlotLength, UsedIdx;
    if n > 0 {
      var v := Served(w, q, readonly, n - 1);
      UsedRingRecords(w, q, readonly, n - 1);
      ServedIndices(w, q, readonly, n - 1);
      SameHeads(w.m, v.m, q, v.last);
      assert SafeChain(q, Pending(w, q, n - 1));
      ProcessStep(v, q, readonly);
      forall i | 0 <= i < n - 1
        ensures 0 <= UsedSlot(w, q, i) < q.num && UsedSlot(w, q, i) != UsedSlot(w, q, n - 1)
      {
        SlotApart(UsedIdx(w.m, q), i, n - 1, q.num);
      }
    }
  }

  /** Ring order is next-slot order at every index exactly when the queue size
      divides 2^16; otherwise it breaks where the 16-bit index wraps. */
  lemma RingOrder(num: nat)
    requires 0 < num < 0x1_0000
    ensures (forall idx: u16 :: NextSlot(idx, num)) <==> 0x1_0000 % num == 0
  {
    if 0x1_0000 % num == 0 {
      forall idx: u16 ensures NextSlot(idx, num) {
        SlotWraps(idx + 1, 0x1_0000, num);
        ModSum(idx, num);
      }
    } else {
      WrapBreaks(num);
    }
  }

  lemma WrapBreaks(num: nat)
    requires 0 < num < 0x1_0000 && 0x1_0000 % num != 0
    ensures !NextSlot(0xFFFF, num)
  {
    ModSum(0xFFFF, num);
    assert H(0xFFFF + 1) == 0;
    hide H;
    Bits.DivUnique(0, num, 0, 0);
  }

  ghost predicate NextSlot(idx: u16, num: nat)
    requires num > 0
  {
    H(idx + 1) % num == (idx % num + 1) % num
  }

  lemma ModSum(x: int, num: int)
    requires num > 0
    ensures (x % num + 1) % num == (x + 1) % num
  {
    var a, r := x / num, x % num;
    assert x == num * a + r;
    if r + 1 == num {
      assert x + 1 == num * (a + 1) + 0;
      Bits.DivUnique(x + 1, num, a + 1, 0);
      Bits.DivUnique(r + 1, num, 1, 0);
    } else {
      Bits.DivUnique(x + 1, num, a, r + 1);
      Bits.DivUnique(r + 1, num, 0, r + 1);
    }
  }
}
