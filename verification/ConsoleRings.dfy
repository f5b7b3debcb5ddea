/** The simulator's own end of the console rings, on its paged memory: queueing input,
    draining output, and peeking at the last of it.  A ring is 4-byte words in memory with
    a free-running head and total; its size divides 2^32. */
module ConsoleRings {
  import opened Words
  import opened FlatMemory
  import opened PagedMemory
  import opened Counters

  datatype Ring = Ring(base: u32, head: u32, total: u32, bytes: nat)
  {
    /** Aligned, with both counters outside the data. */
    predicate Laid() {
      && bytes > 0 && bytes % 4 == 0 && 0x1_0000_0000 % bytes == 0 && base + bytes <= 0x1_0000_0000
      && base % 4 == 0 && head % 4 == 0 && total % 4 == 0 && head != total
      && !(base <= head < base + bytes) && !(base <= total < base + bytes)
    }

    /** The address of the byte i places after stream position k. */
    function Slot(k: int, i: int): u32
      requires Laid()
    {
      Bounded(base, bytes, k + i);
      base + (k + i) % bytes
    }
  }

  lemma Bounded(base: u32, n: nat, k: int)
    requires n > 0 && base + n <= 0x1_0000_0000
    ensures 0 <= k % n < n && 0 <= base + k % n < 0x1_0000_0000
  {
  }

  lemma InRing(r: Ring, k: int, i: int)
    requires r.Laid()
    ensures r.base <= r.Slot(k, i) < r.base + r.bytes
  {
    Bounded(r.base, r.bytes, k + i);
  }

  ghost function HeadOf(m: Flat, r: Ring): u32 { WordAt(m, r.head) }

  ghost function TotalOf(m: Flat, r: Ring): u32 { WordAt(m, r.total) }

  ghost function Used(m: Flat, r: Ring): u32 { W(TotalOf(m, r) - HeadOf(m, r)) }

  /** n bytes of the ring from stream position k on. */
  ghost function Bytes(m: Flat, r: Ring, k: int, n: nat): (s: seq<u8>)
    requires r.Laid()
    ensures |s| == n
    ensures forall i :: 0 <= i < n ==> s[i] == m[r.Slot(k, i)]
  {
    seq<u8>(n, i requires 0 <= i < n => m[r.Slot(k, i)])
  }

  /** What has been queued and not yet taken. */
  ghost function Pending(m: Flat, r: Ring): seq<u8>
    requires r.Laid()
  {
    Bytes(m, r, HeadOf(m, r), Used(m, r))
  }

  /** Bytes d stored one at a time from stream position k on. */
  ghost function Stored(m: Flat, r: Ring, k: int, d: seq<u8>): Flat
    requires r.Laid()
  {
    if d == [] then m else Stored(m, r, k, d[..|d| - 1])[r.Slot(k, |d| - 1) := d[|d| - 1]]
  }

  lemma {:induction false} StoredBytes(m: Flat, r: Ring, k: int, d: seq<u8>)
    requires r.Laid() && |d| <= r.bytes
    ensures var n := Stored(m, r, k, d);
            && (forall i :: 0 <= i < |d| ==> n[r.Slot(k, i)] == d[i])
            && (forall a: u32 :: (forall i :: 0 <= i < |d| ==> a != r.Slot(k, i)) ==> n[a] == m[a])
            && (forall a: u32 :: !(r.base <= a < r.base + r.bytes) ==> n[a] == m[a])
    decreases |d|
  {
    if d != [] {
      var l := |d| - 1;
      StoredBytes(m, r, k, d[..l]);
      forall i | 0 <= i < l ensures r.Slot(k, i) != r.Slot(k, l) {
        SlotsDiffer(k + i, k + l, r.bytes);
      }
      InRing(r, k, l);
      hide Ring.Slot, Ring.Laid;
    }
  }

  /** Rewriting the word that holds a byte, patched, stores that byte alone. */
  lemma PatchStores(m: Flat, r: Ring, idx: nat, ch: u8)
    requires r.Laid() && idx < r.bytes
    ensures var a := r.base + (idx - idx % 4);
            WithWord(m, a, Patch(WordAt(m, a), idx % 4, ch)) == m[r.base + idx := ch]
  {
    hide WithWord, WordAt, W, Patch;
    Aligned(r.base, idx);
    PatchWord(m, r.base + (idx - idx % 4), idx, ch);
    WId(r.base + idx);
  }

  lemma PatchWord(m: Flat, a: u32, idx: nat, ch: u8)
    requires a % 4 == 0
    ensures WithWord(m, a, Patch(WordAt(m, a), idx % 4, ch)) == m[W(a + idx % 4) := ch]
  {
    hide Byte, Le32, Patch, WithWord;
    var i := idx % 4;
    AlignedBytes(a);
    var b0, b1, b2, b3 := m[a], m[a + 1], m[a + 2], m[a + 3];
    var c0, c1, c2, c3 := if i == 0 then ch else b0, if i == 1 then ch else b1, if i == 2 then ch else b2, if i == 3 then ch else b3;
    PatchedWord(b0, b1, b2, b3, i, ch);
    BytesOfLe32(c0, c1, c2, c3);
    WithWordBytes(m, a, Le32(c0, c1, c2, c3));
  }

  lemma Aligned(base: u32, idx: nat)
    requires base % 4 == 0 && base + idx < 0x1_0000_0000
    ensures (base + (idx - idx % 4)) % 4 == 0 && base + (idx - idx % 4) + 3 < 0x1_0000_0000
  {
  }

  lemma PickWord(m: Flat, a: u32, i: nat)
    requires a % 4 == 0 && i < 4
    ensures a + 3 < 0x1_0000_0000 && Byte(WordAt(m, a), i) == m[a + i]
  {
    hide Byte, Le32;
    AlignedBytes(a);
    BytesOfLe32(m[a], m[a + 1], m[a + 2], m[a + 3]);
  }

  /** Picking the byte out of its word reads that byte. */
  lemma PickReads(m: Flat, r: Ring, idx: nat)
    requires r.Laid() && idx < r.bytes
    ensures Byte(WordAt(m, r.base + (idx - idx % 4)), idx % 4) == m[r.base + idx]
  {
    hide Byte, WordAt;
    var a := r.base + (idx - idx % 4);
    Aligned(r.base, idx);
    PickWord(m, a, idx % 4);
  }

  lemma SameWord(m: Flat, n: Flat, a: u32)
    requires a % 4 == 0 && forall x: u32 :: a <= x <= a + 3 ==> n[x] == m[x]
    ensures WordAt(n, a) == WordAt(m, a)
  {
    hide Le32;
    AlignedBytes(a);
  }

  /** The counters are untouched by bytes stored in the ring. */
  lemma StoredCounters(m: Flat, r: Ring, k: int, d: seq<u8>)
    requires r.Laid() && |d| <= r.bytes
    ensures HeadOf(Stored(m, r, k, d), r) == HeadOf(m, r) && TotalOf(Stored(m, r, k, d), r) == TotalOf(m, r)
  {
    hide WordAt, Stored, Ring.Slot;
    StoredBytes(m, r, k, d);
    var n := Stored(m, r, k, d);
    OutsideWord(r, r.head);
    OutsideWord(r, r.total);
    SameWord(m, n, r.head);
    SameWord(m, n, r.total);
  }

  lemma OutsideWord(r: Ring, a: u32)
    requires r.Laid() && a % 4 == 0 && !(r.base <= a < r.base + r.bytes)
    ensures a + 3 < r.base || r.base + r.bytes <= a
  {
  }

  /** Storing after what is pending and then advancing the total appends. */
  lemma QueueAppends(m: Flat, r: Ring, d: seq<u8>)
    requires r.Laid() && Used(m, r) + |d| <= r.bytes
    ensures var n := WithWord(Stored(m, r, TotalOf(m, r), d), r.total, TotalOf(m, r) + |d|);
            Pending(n, r) == Pending(m, r) + d && HeadOf(n, r) == HeadOf(m, r)
  {
    hide WordAt, WithWord, Stored, Ring.Slot, W;
    var h, t, u := HeadOf(m, r), TotalOf(m, r), Used(m, r);
    var s := Stored(m, r, t, d);
    var n := WithWord(s, r.total, t + |d|);
    StoredCounters(m, r, t, d);
    CountersAfter(s, r, t + |d|);
    assert HeadOf(n, r) == h && TotalOf(n, r) == W(t + |d|);
    UsedAfter(h, t, |d|, r.bytes);
    assert Used(n, r) == u + |d|;
    StoredBytes(m, r, t, d);
    forall i | 0 <= i < u + |d| ensures n[r.Slot(h, i)] == (Pending(m, r) + d)[i] {
      InRing(r, h, i);
      RingKept(s, r, t + |d|, r.Slot(h, i));
      if i < u {
        forall j | 0 <= j < |d| ensures r.Slot(h, i) != r.Slot(t, j) {
          SlotFrom(r, h, t, j);
          SlotApart(r, h, i, u + j);
        }
      } else {
        SlotFrom(r, h, t, i - u);
      }
    }
  }

  lemma UsedAfter(h: u32, t: u32, n: nat, bytes: nat)
    requires W(t - h) + n <= bytes < 0x1_0000_0000
    ensures W(W(t + n) - h) == W(t - h) + n
  {
    var g: int := h;
    WAdd(t + n, -g);
    WAdd(t - h, n);
    WId(W(t - h) + n);
  }

  lemma SlotFrom(r: Ring, h: u32, t: u32, j: int)
    requires r.Laid()
    ensures r.Slot(t, j) == r.Slot(h, W(t - h) + j)
  {
    hide W;
    var k: int := W(t - h) + j;
    WordSlot(t + j, r.bytes);
    WordSlot(h + k, r.bytes);
    WAdd(t - h, h + j);
    assert W(h + k) == W(t + j);
  }

  lemma SlotApart(r: Ring, h: int, i: int, j: int)
    requires r.Laid() && i - j < r.bytes && j - i < r.bytes && i != j
    ensures r.Slot(h, i) != r.Slot(h, j)
  {
    SlotsDiffer(h + i, h + j, r.bytes);
  }

  lemma CountersAfter(m: Flat, r: Ring, v: int)
    requires r.Laid()
    ensures TotalOf(WithWord(m, r.total, v), r) == W(v) && HeadOf(WithWord(m, r.total, v), r) == HeadOf(m, r)
    ensures HeadOf(WithWord(m, r.head, v), r) == W(v) && TotalOf(WithWord(m, r.head, v), r) == TotalOf(m, r)
  {
    hide WordAt, WithWord;
    WId(r.head);
    WId(r.total);
    WordFrame(m, r.total, v, r.total);
    WordFrame(m, r.total, v, r.head);
    WordFrame(m, r.head, v, r.head);
    WordFrame(m, r.head, v, r.total);
  }

  /** Writing a counter leaves the ring's bytes alone. */
  lemma RingKept(m: Flat, r: Ring, v: int, x: u32)
    requires r.Laid() && r.base <= x < r.base + r.bytes
    ensures WithWord(m, r.total, v)[x] == m[x] && WithWord(m, r.head, v)[x] == m[x]
  {
    OutsideWord(r, r.total);
    OutsideWord(r, r.head);
    hide WithWord, Ring.Laid;
    WordLeaves(m, r.total, v, x);
    WordLeaves(m, r.head, v, x);
  }

  lemma WordLeaves(m: Flat, a: u32, v: int, x: u32)
    requires a % 4 == 0 && !(a <= x <= a + 3)
    ensures WithWord(m, a, v)[x] == m[x]
  {
    hide WithWord, Byte;
    AlignedBytes(a);
    WithWordBytes(m, a, v);
  }

  // ---------------------------------------------------------------- the simulator's functions

  /** One byte put into the ring: read its word, patch it, write it back. */
  method PutByte(mem: Memory, r: Ring, t: u32, off: nat, b: u8)
    requires mem.Valid() && r.Laid()
    modifies mem, mem.pages.Values
    ensures mem.Valid() && fresh(mem.pages.Values - old(mem.pages.Values))
    ensures mem.View() == old(mem.View())[r.Slot(t, off) := b]
  {
    hide WordAt, WithWord, Memory.View, Memory.Valid;
    Bounded(r.base, r.bytes, t + off);
    var idx := (t + off) % r.bytes;
    var addr := r.base + (idx - idx % 4);
    var word := mem.ReadU32(addr);
    PatchStores(mem.View(), r, idx, b);
    mem.WriteU32(addr, Patch(word, idx % 4, b));
  }

  /** `write_console_input`: all of the data or, when it does not fit, none of it. */
  method WriteConsoleInput(mem: Memory, r: Ring, data: seq<u8>) returns (ok: bool)
    requires mem.Valid() && r.Laid()
    modifies mem, mem.pages.Values
    ensures mem.Valid() && fresh(mem.pages.Values - old(mem.pages.Values))
    ensures ok <==> Used(old(mem.View()), r) + |data| <= r.bytes
    ensures !ok ==> mem.View() == old(mem.View())
    ensures ok ==> Pending(mem.View(), r) == Pending(old(mem.View()), r) + data
    ensures ok ==> HeadOf(mem.View(), r) == HeadOf(old(mem.View()), r)
    ensures ok ==>
              var m, t := old(mem.View()), TotalOf(old(mem.View()), r);
              mem.View() == WithWord(Stored(m, r, t, data), r.total, t + |data|)
  {
    hide WordAt, WithWord, Pending, Memory.View, Memory.Valid, Ring.Slot;
    var head: int := mem.ReadU32(r.head);
    var total: int := mem.ReadU32(r.total);
    ghost var was := mem.View();
    if W(total - head) + |data| > r.bytes {
      return false;
    }
    var off := 0;
    assert data[..0] == [];
    while off < |data|
      invariant 0 <= off <= |data|
      invariant mem.Valid() && fresh(mem.pages.Values - old(mem.pages.Values))
      invariant mem.View() == Stored(was, r, total, data[..off])
    {
      PutByte(mem, r, total, off, data[off]);
      assert data[..off + 1][..off] == data[..off];
      off := off + 1;
    }
    assert data[..off] == data;
    QueueAppends(was, r, data);
    WithWordMod(mem.View(), r.total, total + |data|);
    mem.WriteU32(r.total, W(total + |data|));
    ok := true;
  }

  lemma WithWordMod(m: Flat, a: int, v: int)
    ensures WithWord(m, a, W(v)) == WithWord(m, a, v)
  {
    hide Byte;
    WithWordBytes(m, a, v);
    WithWordBytes(m, a, W(v));
    BytesOfW(v);
  }

  lemma BytesOfW(v: int)
    ensures Byte(W(v), 0) == Byte(v, 0) && Byte(W(v), 1) == Byte(v, 1)
    ensures Byte(W(v), 2) == Byte(v, 2) && Byte(W(v), 3) == Byte(v, 3)
  {
    hide Byte;
    Le32OfBytes(v);
    BytesOfLe32(Byte(v, 0), Byte(v, 1), Byte(v, 2), Byte(v, 3));
  }

  /** The loop the two readers share: n bytes from stream position k on. */
  method CollectBytes(mem: Memory, r: Ring, k: u32, n: nat) returns (out: seq<u8>)
    requires mem.Valid() && r.Laid()
    ensures out == Bytes(mem.View(), r, k, n)
  {
    hide WordAt, Memory.View, Memory.Valid, Byte;
    out := [];
    var off := 0;
    while off < n
      invariant 0 <= off <= n && out == Bytes(mem.View(), r, k, off)
    {
      Bounded(r.base, r.bytes, k + off);
      var idx := (k + off) % r.bytes;
      var word := mem.ReadU32(r.base + (idx - idx % 4));
      PickReads(mem.View(), r, idx);
      out := out + [Byte(word, idx % 4)];
      off := off + 1;
    }
  }

  /** `drain_console_ring`: everything pending, in order, and the ring is then empty.
      A ring that has overrun yields its size. */
  method DrainConsoleRing(mem: Memory, r: Ring) returns (out: seq<u8>)
    requires mem.Valid() && r.Laid()
    modifies mem, mem.pages.Values
    ensures mem.Valid() && fresh(mem.pages.Values - old(mem.pages.Values))
    ensures out == Bytes(old(mem.View()), r, HeadOf(old(mem.View()), r), Min(Used(old(mem.View()), r), r.bytes))
    ensures Used(old(mem.View()), r) <= r.bytes ==> out == Pending(old(mem.View()), r)
    ensures Pending(mem.View(), r) == [] && TotalOf(mem.View(), r) == TotalOf(old(mem.View()), r)
  {
    hide WordAt, WithWord, Memory.View, Memory.Valid, Ring.Slot, W;
    var head: int := mem.ReadU32(r.head);
    var total: int := mem.ReadU32(r.total);
    var count := Min(W(total - head), r.bytes);
    out := CollectBytes(mem, r, head, count);
    if count != 0 {
      Drained(mem.View(), r);
      mem.WriteU32(r.head, total);
    }
  }

  lemma Drained(m: Flat, r: Ring)
    requires r.Laid()
    ensures var n := WithWord(m, r.head, TotalOf(m, r));
            Pending(n, r) == [] && TotalOf(n, r) == TotalOf(m, r)
  {
    hide WordAt, WithWord;
    CountersAfter(m, r, TotalOf(m, r));
    WId(TotalOf(m, r));
  }

  /** `read_console_ring`: the total, and the last bytes written, at most a ring's worth.
      Nothing is taken. */
  method ReadConsoleRing(mem: Memory, r: Ring) returns (total: u32, out: seq<u8>)
    requires mem.Valid() && r.Laid()
    ensures total == TotalOf(mem.View(), r)
    ensures out == Bytes(mem.View(), r, total - Min(total, r.bytes), Min(total, r.bytes))
  {
    hide WordAt, Memory.View, Memory.Valid, Ring.Slot, Ring.Laid, W;
    total := mem.ReadU32(r.total);
    var count: int := Min(total, r.bytes);
    var first: int := total - count;
    WId(first);
    out := CollectBytes(mem, r, W(first), count);
  }
}
