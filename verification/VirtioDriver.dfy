/** The driver's side of the split queue, in bytes: descriptors, the available ring and a
    request's header as sections 2.6.5, 2.6.6 and 5.2.6 of VIRTIO 1.1 lay them out, and what
    the driver reads back. */
module VirtioDriver {
  import opened Words
  import opened FlatMemory
  import opened VirtioModel
  import opened VirtioQueue
  import opened VirtioRequests

  function Le16Bytes(v: u16): seq<u8> { [v % 0x100, v / 0x100] }

  function Le32Bytes(v: u32): seq<u8> { [v % 0x100, v / 0x100 % 0x100, v / 0x1_0000 % 0x100, v / 0x100_0000] }

  function Le64Bytes(v: u64): seq<u8> { Le32Bytes(v % 0x1_0000_0000) + Le32Bytes(v / 0x1_0000_0000) }

  /** The bytes at a, wrapping at 2^32, are these. */
  ghost predicate Holds(m: Flat, a: int, bytes: seq<u8>) { BytesAt(m, a, |bytes|) == bytes }

  /** A buffer as the driver has it: the table slot it uses, and who writes it. */
  datatype Buffer = Buffer(slot: nat, addr: u64, length: u32, write: bool)

  /** NEXT is 1 and WRITE is 2. */
  function FlagsOf(bs: seq<Buffer>, k: nat): u16
    requires k < |bs|
  {
    (if k < |bs| - 1 then 1 else 0) + (if bs[k].write then 2 else 0)
  }

  predicate Chained(q: Queue, bs: seq<Buffer>) {
    && |bs| > 0 && 0 < q.num <= 0x8000
    && (forall k :: 0 <= k < |bs| ==> bs[k].slot < q.num)
    && (forall j, k :: 0 <= j < k < |bs| ==> bs[j].slot != bs[k].slot)
  }

  function NextOf(bs: seq<Buffer>, k: nat): nat
    requires k < |bs|
  {
    if k < |bs| - 1 then bs[k + 1].slot else 0
  }

  /** The sixteen bytes of a descriptor. */
  function DescBytes(addr: u64, length: u32, flags: u16, next: u16): (r: seq<u8>)
    ensures |r| == 16
  {
    Le64Bytes(addr) + Le32Bytes(length) + Le16Bytes(flags) + Le16Bytes(next)
  }

  /** The k-th descriptor of the list, as the driver stores it. */
  function EntryBytes(q: Queue, bs: seq<Buffer>, k: nat): (r: seq<u8>)
    requires Chained(q, bs) && k < |bs|
    ensures |r| == 16
  {
    DescBytes(bs[k].addr, bs[k].length, FlagsOf(bs, k), NextOf(bs, k))
  }

  /** The descriptors of the list are in the table. */
  ghost predicate Listed(m: Flat, q: Queue, bs: seq<Buffer>)
    requires Chained(q, bs)
  {
    forall k :: 0 <= k < |bs| ==> Holds(m, q.desc + 16 * bs[k].slot, EntryBytes(q, bs, k))
  }

  /** The list's head is at the slot of `last` in the available ring, whose index is idx. */
  ghost predicate Available(m: Flat, q: Queue, bs: seq<Buffer>, last: u16, idx: u16)
    requires Chained(q, bs)
  {
    Holds(m, q.avail + 4 + 2 * (last % q.num), Le16Bytes(bs[0].slot)) && Holds(m, q.avail + 2, Le16Bytes(idx))
  }

  /** What the device should make of the list. */
  function DescsOf(q: Queue, bs: seq<Buffer>): (r: seq<Desc>)
    requires Chained(q, bs)
    ensures |r| == |bs|
  {
    seq(|bs|, k requires 0 <= k < |bs| => Desc(bs[k].slot, bs[k].addr, bs[k].length, FlagsOf(bs, k), NextOf(bs, k)))
  }

  // ---------------------------------------------------------------- reading bytes

  lemma HoldsHalf(m: Flat, a: int, v: u16)
    ensures Holds(m, a, Le16Bytes(v)) <==> HalfAt(m, a) == v
  {
    hide ByteAt;
    if Holds(m, a, Le16Bytes(v)) {
      assert BytesAt(m, a, 2)[0] == ByteAt(m, a) && BytesAt(m, a, 2)[1] == ByteAt(m, a + 1);
    } else {
      assert BytesAt(m, a, 2) == [ByteAt(m, a), ByteAt(m, a + 1)];
    }
  }

  lemma HoldsWord(m: Flat, a: int, v: u32)
    ensures Holds(m, a, Le32Bytes(v)) <==> WordAt(m, a) == v
  {
    hide ByteAt, Le32;
    var b := BytesAt(m, a, 4);
    assert b == [ByteAt(m, a), ByteAt(m, a + 1), ByteAt(m, a + 2), ByteAt(m, a + 3)];
    BytesOfLe32(b[0], b[1], b[2], b[3]);
    Le32OfBytes(v);
    WId(v);
  }

  /** A block is its two parts. */
  lemma HoldsParts(m: Flat, a: int, x: seq<u8>, y: seq<u8>)
    ensures Holds(m, a, x + y) <==> Holds(m, a, x) && Holds(m, a + |x|, y)
  {
    hide ByteAt;
    BytesAtAppend(m, a, |x|, |y|);
    var p, r := BytesAt(m, a, |x|), BytesAt(m, a + |x|, |y|);
    assert (x + y)[..|x|] == x && (x + y)[|x|..] == y;
    assert (p + r)[..|x|] == p && (p + r)[|x|..] == r;
  }

  lemma HoldsLong(m: Flat, a: int, v: u64)
    ensures Holds(m, a, Le64Bytes(v)) <==> WordAt(m, a) + WordAt(m, a + 4) * 0x1_0000_0000 == v
  {
    hide Holds, WordAt, Byte;
    var lo, hi := v % 0x1_0000_0000, v / 0x1_0000_0000;
    HoldsParts(m, a, Le32Bytes(lo), Le32Bytes(hi));
    HoldsWord(m, a, lo);
    HoldsWord(m, a + 4, hi);
    Halves(WordAt(m, a), WordAt(m, a + 4), v);
  }

  lemma Halves(lo: u32, hi: u32, v: u64)
    ensures lo + hi * 0x1_0000_0000 == v <==> lo == v % 0x1_0000_0000 && hi == v / 0x1_0000_0000
  {
  }

  /** Main result for one descriptor: its sixteen bytes are read back field by field. */
  lemma DescRead(m: Flat, q: Queue, i: nat, addr: u64, length: u32, flags: u16, next: u16)
    ensures Holds(m, q.desc + 16 * i, DescBytes(addr, length, flags, next)) <==>
              DescAt(m, q, i) == Desc(i, addr, length, flags, next)
  {
    hide Holds, WordAt, HalfAt, Byte, Le64Bytes, Le32Bytes, Le16Bytes;
    var base := q.desc + 16 * i;
    var x, y, z := Le64Bytes(addr), Le32Bytes(length), Le16Bytes(flags);
    Lengths(addr, length, flags);
    HoldsParts(m, base, x + y + z, Le16Bytes(next));
    HoldsParts(m, base, x + y, z);
    HoldsParts(m, base, x, y);
    HoldsLong(m, base, addr);
    HoldsWord(m, base + 8, length);
    HoldsHalf(m, base + 12, flags);
    HoldsHalf(m, base + 14, next);
  }

  lemma Lengths(addr: u64, length: u32, half: u16)
    ensures |Le64Bytes(addr)| == 8 && |Le32Bytes(length)| == 4 && |Le16Bytes(half)| == 2
  {
  }

  // ---------------------------------------------------------------- walking the list

  function SlotsBefore(bs: seq<Buffer>, k: nat): set<nat>
    requires k <= |bs|
  {
    set j | 0 <= j < k :: bs[j].slot
  }

  lemma FlagBits(bs: seq<Buffer>, k: nat, d: Desc)
    requires k < |bs| && d.flags == FlagsOf(bs, k)
    ensures (HasNext(d) <==> k < |bs| - 1) && (Writable(d) <==> bs[k].write) && !Indirect(d)
  {
  }

  lemma ListedDesc(m: Flat, q: Queue, bs: seq<Buffer>, k: nat)
    requires Chained(q, bs) && Listed(m, q, bs) && k < |bs|
    ensures var d := DescsOf(q, bs)[k];
            && DescAt(m, q, bs[k].slot) == d && !Indirect(d)
            && (HasNext(d) ==> k < |bs| - 1 && d.next == bs[k + 1].slot) && (!HasNext(d) ==> k == |bs| - 1)
  {
    hide DescAt, Holds, Bit, FlagsOf;
    DescRead(m, q, bs[k].slot, bs[k].addr, bs[k].length, FlagsOf(bs, k), NextOf(bs, k));
    FlagBits(bs, k, DescsOf(q, bs)[k]);
  }

  lemma {:induction false} ListWalked(m: Flat, q: Queue, bs: seq<Buffer>, k: nat, n: nat)
    requires Chained(q, bs) && Listed(m, q, bs) && k < |bs| && n >= |bs| - k
    ensures ChainFrom(m, q, bs[k].slot, SlotsBefore(bs, k), n) == DescsOf(q, bs)[k..]
    decreases |bs| - k
  {
    hide DescAt, Listed, HasNext, Indirect, DescsOf;
    var ds := DescsOf(q, bs);
    ListedDesc(m, q, bs, k);
    assert bs[k].slot !in SlotsBefore(bs, k);
    if HasNext(ds[k]) {
      ListWalked(m, q, bs, k + 1, n - 1);
      assert SlotsBefore(bs, k + 1) == SlotsBefore(bs, k) + {bs[k].slot};
      assert ds[k..] == [ds[k]] + ds[k + 1..];
    } else {
      assert ds[k..] == [ds[k]];
    }
  }

  /** As many distinct slots as buffers fit the table. */
  lemma ListFits(q: Queue, bs: seq<Buffer>)
    requires Chained(q, bs)
    ensures |bs| <= q.num
  {
    SlotCount(bs, |bs|);
    Fits(SlotsBefore(bs, |bs|), q.num);
  }

  lemma {:induction false} SlotCount(bs: seq<Buffer>, k: nat)
    requires k <= |bs| && forall i, j :: 0 <= i < j < |bs| ==> bs[i].slot != bs[j].slot
    ensures |SlotsBefore(bs, k)| == k
  {
    if k > 0 {
      SlotCount(bs, k - 1);
      assert SlotsBefore(bs, k) == SlotsBefore(bs, k - 1) + {bs[k - 1].slot};
      assert bs[k - 1].slot !in SlotsBefore(bs, k - 1);
    }
  }

  /** Main result: a list of buffers stored as descriptors and made available is the chain the
      device takes next, buffer by buffer, and the index it compares with is the driver's. */
  lemma ListTaken(m: Flat, q: Queue, bs: seq<Buffer>, last: u16, idx: u16)
    requires Chained(q, bs) && Listed(m, q, bs) && Available(m, q, bs, last, idx)
    ensures AvailIdx(m, q) == idx && HeadAt(m, q, last) == bs[0].slot && ChainAt(m, q, last) == DescsOf(q, bs)
    ensures forall k :: 0 <= k < |bs| ==> (Writable(DescsOf(q, bs)[k]) <==> bs[k].write)
  {
    hide Holds, HalfAt, ChainFrom, Bit, DescAt, Le16Bytes;
    HoldsHalf(m, q.avail + 2, idx);
    HoldsHalf(m, q.avail + 4 + 2 * (last % q.num), bs[0].slot);
    ListFits(q, bs);
    ListWalked(m, q, bs, 0, q.num);
    assert SlotsBefore(bs, 0) == {};
    forall k | 0 <= k < |bs| ensures Writable(DescsOf(q, bs)[k]) <==> bs[k].write {
      FlagBits(bs, k, DescsOf(q, bs)[k]);
    }
  }

  /** A descriptor without NEXT, or with INDIRECT, which is 4, is taken by itself. */
  lemma EntryEnds(m: Flat, q: Queue, head: nat, addr: u64, length: u32, flags: u16, next: u16)
    requires head < q.num && Holds(m, q.desc + 16 * head, DescBytes(addr, length, flags, next))
    requires flags % 2 == 0 || flags / 4 % 2 == 1
    ensures ChainOf(m, q, head) == [Desc(head, addr, length, flags, next)]
  {
    hide Holds, DescBytes, DescAt;
    DescRead(m, q, head, addr, length, flags, next);
  }

  // ---------------------------------------------------------------- storing the list

  /** The driver's stores, one descriptor after the other. */
  ghost function Stored(m: Flat, q: Queue, bs: seq<Buffer>, k: nat): Flat
    requires Chained(q, bs) && k <= |bs|
  {
    if k == 0 then m
    else WithBytes(Stored(m, q, bs, k - 1), q.desc + 16 * bs[k - 1].slot, EntryBytes(q, bs, k - 1))
  }

  /** Then the head at its available slot, and the index. */
  ghost function Posted(m: Flat, q: Queue, bs: seq<Buffer>, last: u16, idx: u16): Flat
    requires Chained(q, bs)
  {
    var n := WithBytes(Stored(m, q, bs, |bs|), q.avail + (4 + 2 * (last % q.num)), Le16Bytes(bs[0].slot));
    WithBytes(n, q.avail + 2, Le16Bytes(idx))
  }

  /** No byte of one block is a byte of the other. */
  ghost predicate Disjoined(a: int, n: nat, b: int, l: nat) {
    forall i, j :: 0 <= i < n && 0 <= j < l ==> At(a, i) != At(b, j)
  }

  lemma StoreHolds(m: Flat, a: int, d: seq<u8>)
    requires |d| <= 0x1_0000_0000
    ensures Holds(WithBytes(m, a, d), a, d)
  {
    hide WithBytes, ByteAt;
    var z := BytesAt(WithBytes(m, a, d), a, |d|);
    forall i | 0 <= i < |d| ensures z[i] == d[i] {
      WithBytesReads(m, a, d, i);
    }
  }

  lemma StoreKeeps(m: Flat, a: int, d: seq<u8>, b: int, e: seq<u8>)
    requires Disjoined(a, |d|, b, |e|) && Holds(m, b, e)
    ensures Holds(WithBytes(m, a, d), b, e)
  {
    hide WithBytes, W;
    var n := WithBytes(m, a, d);
    var z := BytesAt(n, b, |e|);
    forall j | 0 <= j < |e| ensures z[j] == e[j] {
      forall i | 0 <= i < |d| ensures At(a, i) != At(b, j) {
      }
      WithBytesFrame(m, a, d, At(b, j));
      assert BytesAt(m, b, |e|)[j] == ByteAt(m, b + j);
    }
  }

  lemma SameBase(base: int, o: nat, n: nat, p: nat, l: nat)
    requires o + n <= 0x1_0000_0000 && p + l <= 0x1_0000_0000 && (o + n <= p || p + l <= o)
    ensures Disjoined(base + o, n, base + p, l)
  {
    hide W;
    var a, b := base + o, base + p;
    forall i, j | 0 <= i < n && 0 <= j < l ensures At(a, i) != At(b, j) {
      if o + i < p + j {
        NotSame(base, o + i, p + j);
      } else {
        NotSame(base, p + j, o + i);
      }
      assert base + o + i == base + (o + i) && base + p + j == base + (p + j);
    }
  }

  /** The standard's layout: table and available ring do not overlap. */
  ghost predicate Separate(q: Queue) { forall a: u32 :: !(InDesc(q, a) && InAvail(q, a)) }

  lemma TwoRegions(q: Queue, o: nat, n: nat, p: nat, l: nat)
    requires Separate(q) && q.num <= 0x8000 && o + n <= 16 * q.num && p + l <= 4 + 2 * q.num
    ensures Disjoined(q.avail + p, l, q.desc + o, n)
  {
    hide W, Within;
    var a, b := q.avail + p, q.desc + o;
    forall i, j | 0 <= i < l && 0 <= j < n ensures At(a, i) != At(b, j) {
      WithinOffset(q.avail, p + i, 4 + 2 * q.num);
      WithinOffset(q.desc, o + j, 16 * q.num);
      assert q.avail + p + i == q.avail + (p + i) && q.desc + o + j == q.desc + (o + j);
      assert InAvail(q, At(q.avail + p, i)) && InDesc(q, At(q.desc + o, j));
    }
  }

  lemma {:induction false} StoredHolds(m: Flat, q: Queue, bs: seq<Buffer>, n: nat, k: nat)
    requires Chained(q, bs) && k < n <= |bs|
    ensures Holds(Stored(m, q, bs, n), q.desc + 16 * bs[k].slot, EntryBytes(q, bs, k))
    decreases n
  {
    hide Holds, WithBytes, Disjoined, EntryBytes;
    var m1 := Stored(m, q, bs, n - 1);
    if k == n - 1 {
      StoreHolds(m1, q.desc + 16 * bs[k].slot, EntryBytes(q, bs, k));
    } else {
      StoredHolds(m, q, bs, n - 1, k);
      SlotsSplit(bs[n - 1].slot, bs[k].slot);
      SameBase(q.desc, 16 * bs[n - 1].slot, 16, 16 * bs[k].slot, 16);
      StoreKeeps(m1, q.desc + 16 * bs[n - 1].slot, EntryBytes(q, bs, n - 1), q.desc + 16 * bs[k].slot, EntryBytes(q, bs, k));
    }
  }

  lemma SlotsSplit(i: nat, j: nat)
    requires i != j
    ensures 16 * i + 16 <= 16 * j || 16 * j + 16 <= 16 * i
  {
  }

  /** Main result: after the driver's stores the list is in the table and available, so it is
      the chain the device takes next. */
  lemma PostedTaken(m: Flat, q: Queue, bs: seq<Buffer>, last: u16, idx: u16)
    requires Chained(q, bs) && Separate(q)
    ensures var n := Posted(m, q, bs, last, idx);
            && Listed(n, q, bs) && Available(n, q, bs, last, idx)
            && ChainAt(n, q, last) == DescsOf(q, bs) && AvailIdx(n, q) == idx
  {
    hide Holds, WithBytes, Disjoined, EntryBytes, ChainAt, Le16Bytes, DescsOf, AvailIdx, HeadAt, Separate;
    var p := 4 + 2 * (last % q.num);
    var m1 := Stored(m, q, bs, |bs|);
    var m2 := WithBytes(m1, q.avail + p, Le16Bytes(bs[0].slot));
    var n := Posted(m, q, bs, last, idx);
    Lengths(0, 0, bs[0].slot);
    Lengths(0, 0, idx);
    forall k | 0 <= k < |bs| ensures Holds(n, q.desc + 16 * bs[k].slot, EntryBytes(q, bs, k)) {
      StoredHolds(m, q, bs, |bs|, k);
      TwoRegions(q, 16 * bs[k].slot, 16, p, 2);
      StoreKeeps(m1, q.avail + p, Le16Bytes(bs[0].slot), q.desc + 16 * bs[k].slot, EntryBytes(q, bs, k));
      TwoRegions(q, 16 * bs[k].slot, 16, 2, 2);
      StoreKeeps(m2, q.avail + 2, Le16Bytes(idx), q.desc + 16 * bs[k].slot, EntryBytes(q, bs, k));
    }
    StoreHolds(m1, q.avail + p, Le16Bytes(bs[0].slot));
    SameBase(q.avail, 2, 2, p, 2);
    StoreKeeps(m2, q.avail + 2, Le16Bytes(idx), q.avail + p, Le16Bytes(bs[0].slot));
    StoreHolds(m2, q.avail + 2, Le16Bytes(idx));
    assert q.avail + p == q.avail + 4 + 2 * (last % q.num);
    ListTaken(n, q, bs, last, idx);
  }

  // ---------------------------------------------------------------- requests

  /** The bytes of the data buffers, between the header and the status byte, in order. */
  ghost function Contents(m: Flat, bs: seq<Buffer>): seq<u8>
    decreases |bs|
  {
    if bs == [] then [] else BytesAt(m, bs[0].addr, bs[0].length) + Contents(m, bs[1..])
  }

  function Middle(bs: seq<Buffer>): seq<Buffer>
    requires |bs| >= 2
  {
    bs[1..|bs| - 1]
  }

  /** A read (0) or write (1) of sectors as the driver lays it out: header, data, status. */
  ghost predicate Asks(w: World, q: Queue, bs: seq<Buffer>, idx: u16, kind: u32, sector: u64) {
    && Chained(q, bs) && |bs| >= 2
    && Listed(w.m, q, bs) && Available(w.m, q, bs, w.last, idx)
    && !bs[0].write && bs[0].length >= 16
    && Holds(w.m, bs[0].addr, Le32Bytes(kind)) && Holds(w.m, bs[0].addr + 8, Le64Bytes(sector))
    && bs[|bs| - 1].write && bs[|bs| - 1].length >= 1
    && (forall b :: b in Middle(bs) ==> b.write == (kind == 0))
    && SafeRings(q) && SafeChain(q, DescsOf(q, bs)) && (kind == 0 ==> Disjoint(DescsOf(q, bs)[1..]))
    && sector * 512 + |Contents(w.m, Middle(bs))| <= |w.image|
  }

  lemma {:induction false} ContentsGather(m: Flat, bs: seq<Buffer>, ds: seq<Desc>)
    requires |ds| == |bs| && forall k :: 0 <= k < |bs| ==> ds[k].addr == bs[k].addr && ds[k].length == bs[k].length
    ensures Gather(m, ds) == Contents(m, bs)
    decreases |bs|
  {
    hide BytesAt;
    if bs != [] {
      ContentsGather(m, bs[1..], ds[1..]);
    }
  }

  /** The header the device reads is the one the driver wrote. */
  lemma HeaderRead(w: World, q: Queue, bs: seq<Buffer>, kind: u32, sector: u64)
    requires Chained(q, bs) && |bs| >= 2
    requires Holds(w.m, bs[0].addr, Le32Bytes(kind)) && Holds(w.m, bs[0].addr + 8, Le64Bytes(sector))
    ensures KindOf(w.m, DescsOf(q, bs)) == kind && SectorOf(w.m, DescsOf(q, bs)) == sector
  {
    hide Holds, Le64Bytes, Le32Bytes, WordAt, FlagsOf;
    HoldsWord(w.m, bs[0].addr, kind);
    HoldsLong(w.m, bs[0].addr + 8, sector);
  }

  /** The data descriptors hold what the data buffers hold. */
  lemma DataGather(m: Flat, q: Queue, bs: seq<Buffer>)
    requires Chained(q, bs) && |bs| >= 2
    ensures Gather(m, Data(DescsOf(q, bs))) == Contents(m, Middle(bs))
  {
    hide Gather, Contents, FlagsOf;
    ContentsGather(m, Middle(bs), Data(DescsOf(q, bs)));
  }

  /** What the driver asks for is the transfer the device sees. */
  lemma AsksTransfers(w: World, q: Queue, bs: seq<Buffer>, idx: u16, kind: u32, sector: u64)
    requires Asks(w, q, bs, idx, kind, sector) && kind <= 1
    ensures Transfers(w, q, kind, sector) && ChainAt(w.m, q, w.last) == DescsOf(q, bs)
    ensures HeadAt(w.m, q, w.last) == bs[0].slot
    ensures forall n: Flat :: Gather(n, Data(DescsOf(q, bs))) == Contents(n, Middle(bs))
  {
    hide Holds, Listed, Available, SafeRings, SafeChain, Disjoint, Le64Bytes, Le32Bytes, Bit, WordAt, ChainAt, HeadAt, FlagsOf,
         Gather, Contents, AvailIdx, KindOf, SectorOf, TotalLength;
    ListTaken(w.m, q, bs, w.last, idx);
    HeaderRead(w, q, bs, kind, sector);
    var ds := Data(DescsOf(q, bs));
    forall n: Flat ensures Gather(n, ds) == Contents(n, Middle(bs)) {
      DataGather(n, q, bs);
    }
    GatherLength(w.m, ds);
    DataDirection(q, bs, kind == 0);
  }

  lemma GatherLength(m: Flat, ds: seq<Desc>)
    ensures |Gather(m, ds)| == TotalLength(ds)
  {
  }

  lemma DataDirection(q: Queue, bs: seq<Buffer>, write: bool)
    requires Chained(q, bs) && |bs| >= 2
    requires forall b :: b in Middle(bs) ==> b.write == write
    requires forall k :: 0 <= k < |bs| ==> (Writable(DescsOf(q, bs)[k]) <==> bs[k].write)
    ensures forall d :: d in Data(DescsOf(q, bs)) ==> Writable(d) == write
  {
    hide Bit, FlagsOf;
    var c := DescsOf(q, bs);
    forall d | d in Data(c) ensures Writable(d) == write {
      var k :| 0 <= k < |Data(c)| && Data(c)[k] == d;
      assert c[k + 1] == d && Middle(bs)[k] == bs[k + 1];
    }
  }

  lemma WrittenImage(w: World, q: Queue, sector: u64)
    requires Transfers(w, q, 1, sector)
    ensures var data, at := Gather(w.m, Data(ChainAt(w.m, q, w.last))), sector * 512;
            at + |data| <= |w.image| && Process(w, q, false).image == w.image[..at] + data + w.image[at + |data|..]
  {
    hide Gather, ChainAt, WithByte, WordAt, Bit, SafeRings, SafeChain, Disjoint, HeadAt, PushUsed, Process, KindOf, SectorOf;
    ProcessTransfers(w, q, 1, sector);
  }

  /** A used element as the driver reads it. */
  lemma ElementBytes(m: Flat, q: Queue, s: nat, head: u32, length: u32)
    requires SlotHead(m, q, s) == head && SlotLength(m, q, s) == length
    ensures Holds(m, q.used + (4 + s * 8), Le32Bytes(head) + Le32Bytes(length))
  {
    hide Holds, WordAt, Byte;
    HoldsWord(m, q.used + (4 + s * 8), head);
    HoldsWord(m, q.used + (8 + s * 8), length);
    HoldsParts(m, q.used + (4 + s * 8), Le32Bytes(head), Le32Bytes(length));
    assert q.used + (4 + s * 8) + 4 == q.used + (8 + s * 8);
  }

  lemma FirstByte(m: Flat, d: Desc)
    ensures ByteAt(m, d.addr) == m[Spot(d, 0)]
  {
  }

  /** Main result: sectors written from the driver's buffers and read into other buffers later,
      whatever else the driver did to memory.  In bytes: the image holds what the first
      buffers held and is otherwise as before, the second buffers hold the same, both status
      bytes are 0, and the used ring's next element and its index are the driver's to read. */
  lemma DriverRoundTrip(w: World, q: Queue, bs: seq<Buffer>, idx: u16, w': World, bs': seq<Buffer>, idx': u16,
                        sector: u64, u: u16)
    requires Asks(w, q, bs, idx, 1, sector) && Asks(w', q, bs', idx', 0, sector)
    requires w'.image == Process(w, q, false).image
    requires |Contents(w'.m, Middle(bs'))| == |Contents(w.m, Middle(bs))|
    requires Holds(w'.m, q.used + 2, Le16Bytes(u))
    ensures var v, v' := Process(w, q, false), Process(w', q, false);
            var data, at := Contents(w.m, Middle(bs)), sector * 512;
            && v.image == w.image[..at] + data + w.image[at + |data|..] && v'.image == v.image
            && Contents(v'.m, Middle(bs')) == data
            && ByteAt(v.m, bs[|bs| - 1].addr) == 0 && ByteAt(v'.m, bs'[|bs'| - 1].addr) == 0
            && Holds(v'.m, q.used + (4 + u % q.num * 8), Le32Bytes(bs'[0].slot) + Le32Bytes(W(|data| + 1)))
            && Holds(v'.m, q.used + 2, Le16Bytes(H(u + 1)))
  {
    hide Holds, Listed, Available, SafeRings, SafeChain, Disjoint, Le64Bytes, Le32Bytes, Le16Bytes, Bit, WordAt, ChainAt,
         HeadAt, FlagsOf, Gather, Contents, Process, Transfers, Transfer, H, W, HalfAt, AvailIdx, SlotHead, SlotLength,
         TotalLength, Spot, ByteAt, Serve;
    AsksTransfers(w, q, bs, idx, 1, sector);
    AsksTransfers(w', q, bs', idx', 0, sector);
    var c, c' := DescsOf(q, bs), DescsOf(q, bs');
    var v, v' := Process(w, q, false), Process(w', q, false);
    OutThenInServed(w, q, w', sector);
    WrittenImage(w, q, sector);
    FirstByte(v.m, StatusOf(c));
    FirstByte(v'.m, StatusOf(c'));
    HoldsHalf(w'.m, q.used + 2, u);
    HoldsHalf(v'.m, q.used + 2, H(u + 1));
    ProcessStep(w', q, false);
    ElementBytes(v'.m, q, u % q.num, bs'[0].slot, W(|Contents(w.m, Middle(bs))| + 1));
  }

  // ---------------------------------------------------------------- other requests

  /** The identification string, padded with NULs to twenty bytes. */
  lemma Identity()
    ensures |IDENT| == 20 && (forall i :: 0 <= i < 12 ==> IDENT[i] == "ZX32SIM-DISK"[i] as int)
    ensures forall i :: 12 <= i < 20 ==> IDENT[i] == 0
  {
  }

  /** The type and the sector in a request's header. */
  ghost predicate Header(m: Flat, c: seq<Desc>, kind: u32, sector: u64) {
    && |c| >= 2 && Holds(m, c[0].addr, Le32Bytes(kind)) && Holds(m, c[0].addr + 8, Le64Bytes(sector))
  }

  /** Every answer but that of a successful transfer, by the standard's numbers: types IN 0,
      OUT 1, FLUSH 4 and GET_ID 8, status OK 0, IOERR 1 and UNSUPP 2.  None of them changes
      the image, and only the identification changes memory. */
  lemma Answers(m: Flat, image: seq<u8>, readonly: bool, c: seq<Desc>, kind: u32, sector: u64)
    requires Header(m, c, kind, sector)
    ensures var (n, image', r) := Perform(m, image, readonly, c);
            var ds := Data(c);
            var inside := sector * 512 + TotalLength(ds) <= |image|;
            && (!Formed(c) && c[|c| - 1].length >= 1 ==> (n, image', r) == (m, image, Reply(1, 1)))
            && (Formed(c) && kind == 4 ==> (n, image', r) == (m, image, Reply(0, 1)))
            && (Formed(c) && kind == 8 ==> image' == image && (n, r) == Scatter(m, ds, IDENT, 0))
            && (Formed(c) && kind !in {0, 1, 4, 8} ==> (n, image', r) == (m, image, Reply(if inside then 2 else 1, 1)))
            && (Formed(c) && kind in {0, 1} && !inside ==> (n, image', r) == (m, image, Reply(1, 1)))
            && (Formed(c) && kind == 0 && (exists d :: d in ds && !Writable(d)) ==> (n, image', r) == (m, image, Reply(1, 1)))
            && (Formed(c) && kind == 1 && (readonly || exists d :: d in ds && Writable(d)) ==>
                  (n, image', r) == (m, image, Reply(1, 1)))
  {
    hide Holds, Le32Bytes, Le64Bytes, WordAt, Bit, Scatter, Gather, TotalLength;
    HoldsWord(m, c[0].addr, kind);
    HoldsLong(m, c[0].addr + 8, sector);
  }

  /** A driver's buffers for the identification hold it afterwards. */
  lemma IdentityRead(m: Flat, image: seq<u8>, readonly: bool, c: seq<Desc>, sector: u64)
    requires Header(m, c, 8, sector) && Formed(c)
    requires Disjoint(Data(c)) && TotalLength(Data(c)) == 20 && forall d :: d in Data(c) ==> Writable(d)
    ensures var (n, image', r) := Perform(m, image, readonly, c);
            Gather(n, Data(c)) == IDENT && image' == image && r == Reply(0, 20)
  {
    hide Holds, Le32Bytes, Le64Bytes, Bit, Scatter, Gather, Disjoint, Perform, TotalLength;
    Answers(m, image, readonly, c, 8, sector);
    ScatterGather(m, Data(c), IDENT, 0);
    assert IDENT[0..] == IDENT;
  }
}
