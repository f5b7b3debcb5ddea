/** Requests as the driver sees them: memory after the data, the status byte and the used
    element have all been written, and the image over whole notifications. */
module VirtioRequests {
  import opened Words
  import opened FlatMemory
  import opened VirtioModel
  import opened VirtioQueue

  function Data(c: seq<Desc>): seq<Desc>
    requires |c| >= 2
  {
    c[1..|c| - 1]
  }

  function StatusOf(c: seq<Desc>): Desc
    requires |c| >= 2
  {
    c[|c| - 1]
  }

  ghost function KindOf(m: Flat, c: seq<Desc>): u32
    requires |c| >= 2
  {
    WordAt(m, c[0].addr)
  }

  ghost function SectorOf(m: Flat, c: seq<Desc>): u64
    requires |c| >= 2
  {
    WordAt(m, c[0].addr + 8) + WordAt(m, c[0].addr + 12) * 0x1_0000_0000
  }

  /** A well-formed request: a header the device reads, and a status byte it writes. */
  predicate Formed(c: seq<Desc>) {
    && |c| >= 2 && c[0].length >= 16 && !Writable(c[0]) && Writable(c[|c| - 1]) && c[|c| - 1].length >= 1
  }

  // ---------------------------------------------------------------- the image

  /** The chain is a request to write byte i of the image. */
  ghost predicate Writes(m: Flat, c: seq<Desc>, i: int) {
    && |c| >= 2 && KindOf(m, c) == 1
    && SectorOf(m, c) * 512 <= i < SectorOf(m, c) * 512 + TotalLength(Data(c))
  }

  lemma ServeImage(m: Flat, image: seq<u8>, readonly: bool, c: seq<Desc>)
    ensures var image' := Serve(m, image, readonly, c).1;
            && |image'| == |image| && (readonly ==> image' == image)
            && (forall i :: 0 <= i < |image| && !Writes(m, c, i) ==> image'[i] == image[i])
  {
    hide WordAt, Scatter, Bit, TotalLength, Gather;
    if Formed(c) {
      ImageKept(m, image, readonly, Data(c), KindOf(m, c), SectorOf(m, c));
    }
  }

  /** The k-th request served since w. */
  ghost function Nth(w: World, q: Queue, readonly: bool, k: nat): seq<Desc>
    requires q.num > 0
  {
    ChainAt(Served(w, q, readonly, k).m, q, Served(w, q, readonly, k).last)
  }

  ghost predicate NthWrites(w: World, q: Queue, readonly: bool, k: nat, i: int)
    requires q.num > 0
  {
    Writes(Served(w, q, readonly, k).m, Nth(w, q, readonly, k), i)
  }

  /** Over any number of requests the image keeps its length and every byte that none of
      them writes, and a read-only image keeps every byte. */
  lemma {:induction false} ServedImage(w: World, q: Queue, readonly: bool, n: nat)
    requires q.num > 0
    ensures var image' := Served(w, q, readonly, n).image;
            && |image'| == |w.image| && (readonly ==> image' == w.image)
            && (forall i :: 0 <= i < |w.image| && (forall k :: 0 <= k < n ==> !NthWrites(w, q, readonly, k, i)) ==>
                  image'[i] == w.image[i])
  {
    hide Serve, PushUsed, ChainAt, Writes, HeadAt;
    if n > 0 {
      ServedImage(w, q, readonly, n - 1);
      var v := Served(w, q, readonly, n - 1);
      ServeImage(v.m, v.image, readonly, ChainAt(v.m, q, v.last));
      forall i | 0 <= i < |w.image| && (forall k :: 0 <= k < n ==> !NthWrites(w, q, readonly, k, i))
        ensures Served(w, q, readonly, n).image[i] == w.image[i]
      {
        assert !NthWrites(w, q, readonly, n - 1, i);
      }
    }
  }

  // ---------------------------------------------------------------- round trip

  /** The buffer holds the same bytes in both memories. */
  ghost predicate SameBuffer(m: Flat, n: Flat, d: Desc) {
    forall o :: 0 <= o < d.length ==> n[Spot(d, o)] == m[Spot(d, o)]
  }

  lemma SameBytes(m: Flat, n: Flat, d: Desc)
    requires SameBuffer(m, n, d)
    ensures BytesAt(n, d.addr, d.length) == BytesAt(m, d.addr, d.length)
  {
    hide Spot, ByteAt;
    var x, y := BytesAt(n, d.addr, d.length), BytesAt(m, d.addr, d.length);
    forall o | 0 <= o < d.length ensures x[o] == y[o] {
      assert n[Spot(d, o)] == m[Spot(d, o)];
      VirtioModel.SameByte(n, m, d, o);
    }
  }

  lemma {:induction false} GatherSame(m: Flat, n: Flat, ds: seq<Desc>)
    requires forall d :: d in ds ==> SameBuffer(m, n, d)
    ensures Gather(n, ds) == Gather(m, ds)
    decreases |ds|
  {
    hide SameBuffer, BytesAt;
    if ds != [] {
      SameBytes(m, n, ds[0]);
      GatherSame(m, n, ds[1..]);
    }
  }

  /** A transfer over the i-th pending chain, whose buffers are not the rings and, for those
      the device writes, do not overlap each other. */
  ghost predicate Transfers(w: World, q: Queue, kind: u32, sector: u64) {
    && q.num > 0 && SafeRings(q) && SafeChain(q, ChainAt(w.m, q, w.last))
    && var c := ChainAt(w.m, q, w.last);
       && Formed(c) && KindOf(w.m, c) == kind && SectorOf(w.m, c) == sector
       && sector * 512 + TotalLength(Data(c)) <= |w.image|
       && (forall d :: d in Data(c) ==> Writable(d) == (kind == 0))
       && (kind == 0 ==> Disjoint(c[1..]))
  }

  /** A well-formed transfer performs it, stores its status, and records head and length. */
  lemma ProcessTransfers(w: World, q: Queue, kind: u32, sector: u64)
    requires Transfers(w, q, kind, sector) && kind <= 1
    ensures var c := ChainAt(w.m, q, w.last);
            var (n, image', r) := Transfer(w.m, w.image, false, Data(c), kind, sector);
            && Process(w, q, false).image == image'
            && Process(w, q, false).m == PushUsed(WithByte(n, StatusOf(c).addr, r.status), q, HeadAt(w.m, q, w.last), r.written)
            && Serve(w.m, w.image, false, c).2 == r.written
  {
    hide PushUsed, ChainAt, WithByte, Transfer, WordAt, Bit, SafeRings, SafeChain, Disjoint, TotalLength, HeadAt;
  }

  /** The device-writable buffers of a safe chain lie outside the used ring. */
  lemma OutsideUsed(q: Queue, c: seq<Desc>, k: nat, o: nat)
    requires SafeChain(q, c) && k < |c| && Writable(c[k]) && o < c[k].length
    ensures !InUsed(q, Spot(c[k], o))
  {
    hide InUsed, InDesc, InAvail, Spot, Bit;
  }

  lemma ByteThere(m: Flat, d: Desc, v: u8, a: u32)
    ensures WithByte(m, d.addr, v)[a] == if a == Spot(d, 0) then v else m[a]
  {
  }

  /** The used element and its index leave the bytes outside the used ring alone. */
  lemma PushOutside(m: Flat, q: Queue, head: int, length: int, a: u32)
    requires SafeRings(q) && !InUsed(q, a)
    ensures PushUsed(m, q, head, length)[a] == m[a]
  {
    hide PushUsed, InUsed, SlotHead, SlotLength, UsedIdx, Guarded;
    PushEffect(m, q, head, length);
  }

  /** Outside the used ring, and but for the status byte, memory is what the transfer left. */
  lemma ProcessBytes(w: World, q: Queue, kind: u32, sector: u64, a: u32)
    requires Transfers(w, q, kind, sector) && kind <= 1 && !InUsed(q, a)
    ensures var c := ChainAt(w.m, q, w.last);
            var (n, _, r) := Transfer(w.m, w.image, false, Data(c), kind, sector);
            Process(w, q, false).m[a] == if a == Spot(StatusOf(c), 0) then r.status else n[a]
  {
    hide PushUsed, ChainAt, Transfer, WordAt, Bit, Disjoint, TotalLength, HeadAt, InUsed, Process, WithByte, Spot,
         SafeChain, Serve;
    ProcessTransfers(w, q, kind, sector);
    var c := ChainAt(w.m, q, w.last);
    var (n, _, r) := Transfer(w.m, w.image, false, Data(c), kind, sector);
    PushOutside(WithByte(n, StatusOf(c).addr, r.status), q, HeadAt(w.m, q, w.last), r.written, a);
    ByteThere(n, StatusOf(c), r.status, a);
  }

  lemma StatusStands(w: World, q: Queue, kind: u32, sector: u64)
    requires Transfers(w, q, kind, sector) && kind <= 1
    ensures var c := ChainAt(w.m, q, w.last);
            Process(w, q, false).m[Spot(StatusOf(c), 0)] ==
              Transfer(w.m, w.image, false, Data(c), kind, sector).2.status
  {
    hide ChainAt, Transfer, KindOf, SectorOf, Bit, Disjoint, TotalLength, InUsed, Process, Spot, SafeChain, SafeRings;
    var c := ChainAt(w.m, q, w.last);
    OutsideUsed(q, c, |c| - 1, 0);
    ProcessBytes(w, q, kind, sector, Spot(StatusOf(c), 0));
  }

  /** Neither the status byte nor the used element disturbs the data. */
  lemma DataStands(w: World, q: Queue, sector: u64)
    requires Transfers(w, q, 0, sector)
    ensures var c := ChainAt(w.m, q, w.last);
            Gather(Process(w, q, false).m, Data(c)) ==
              Gather(Transfer(w.m, w.image, false, Data(c), 0, sector).0, Data(c))
  {
    hide ChainAt, Transfer, KindOf, SectorOf, Bit, TotalLength, InUsed, Process, Spot, SafeChain, SafeRings, Gather;
    var c := ChainAt(w.m, q, w.last);
    var n, p := Transfer(w.m, w.image, false, Data(c), 0, sector).0, Process(w, q, false).m;
    forall d | d in Data(c) ensures SameBuffer(n, p, d) {
      var k :| 0 <= k < |Data(c)| && Data(c)[k] == d;
      assert c[k + 1] == d && c[1..][k] == d && c[1..][|c| - 2] == StatusOf(c);
      forall o | 0 <= o < d.length ensures p[Spot(d, o)] == n[Spot(d, o)] {
        OutsideUsed(q, c, k + 1, o);
        assert Spot(d, o) != Spot(StatusOf(c), 0);
        ProcessBytes(w, q, 0, sector, Spot(d, o));
      }
    }
    GatherSame(n, p, Data(c));
  }

  /** Main result: a driver that writes sectors with one request and later, whatever else it
      has done to memory, reads them with another, finds in its buffers the bytes it wrote,
      after the status byte and the used element have been written too; both requests are
      reported done, with their lengths. */
  lemma OutThenInServed(w: World, q: Queue, w': World, sector: u64)
    requires Transfers(w, q, 1, sector) && Transfers(w', q, 0, sector)
    requires w'.image == Process(w, q, false).image
    requires TotalLength(Data(ChainAt(w'.m, q, w'.last))) == TotalLength(Data(ChainAt(w.m, q, w.last)))
    ensures var c, c' := ChainAt(w.m, q, w.last), ChainAt(w'.m, q, w'.last);
            var v, v' := Process(w, q, false), Process(w', q, false);
            && Gather(v'.m, Data(c')) == Gather(w.m, Data(c)) && v'.image == v.image
            && v.m[Spot(StatusOf(c), 0)] == 0 && v'.m[Spot(StatusOf(c'), 0)] == 0
            && SlotHead(v'.m, q, UsedIdx(w'.m, q) % q.num) == HeadAt(w'.m, q, w'.last)
            && SlotLength(v'.m, q, UsedIdx(w'.m, q) % q.num) == W(TotalLength(Data(c')) + 1)
  {
    hide ChainAt, WordAt, Bit, Process, Gather, SlotHead, SlotLength, UsedIdx, HeadAt, W, SafeChain, SafeRings,
         Serve, Disjoint,
         TotalLength, Transfer, HalfAt;
    var c, c' := ChainAt(w.m, q, w.last), ChainAt(w'.m, q, w'.last);
    DisjointPrefix(c'[1..]);
    assert c'[1..][..|c'[1..]| - 1] == Data(c');
    OutThenIn(w.m, w.image, Data(c), w'.m, Data(c'), sector);
    ProcessTransfers(w, q, 1, sector);
    ProcessTransfers(w', q, 0, sector);
    StatusStands(w, q, 1, sector);
    StatusStands(w', q, 0, sector);
    DataStands(w', q, sector);
    ProcessStep(w', q, false);
  }

  lemma DisjointPrefix(ds: seq<Desc>)
    requires Disjoint(ds) && |ds| > 0
    ensures Disjoint(ds[..|ds| - 1])
  {
    hide Spot;
    var p := ds[..|ds| - 1];
    forall j, k, o, i | 0 <= j < k < |p| && 0 <= o < p[j].length && 0 <= i < p[k].length
      ensures Spot(p[j], o) != Spot(p[k], i)
    {
      assert p[j] == ds[j] && p[k] == ds[k];
    }
  }
}
