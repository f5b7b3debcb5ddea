/** The virtio block device as functions on flat memory and the disk image: reading
    descriptor chains, scatter and gather, one request, one used element.  The split
    queue is that of sections 2.6 and 5.2.6 of VIRTIO 1.1. */
module VirtioModel {
  import opened Words
  import opened FlatMemory

  datatype Desc = Desc(index: nat, addr: u64, length: u32, flags: u16, next: u16)

  datatype Queue = Queue(num: nat, desc: u64, avail: u64, used: u64)

  predicate HasNext(d: Desc) { Bit(d.flags, 1) }
  predicate Writable(d: Desc) { Bit(d.flags, 2) }
  predicate Indirect(d: Desc) { Bit(d.flags, 4) }

  ghost function DescAt(m: Flat, q: Queue, i: nat): Desc {
    var base := q.desc + i * 16;
    Desc(i, WordAt(m, base) + WordAt(m, base + 4) * 0x1_0000_0000,
         WordAt(m, base + 8), HalfAt(m, base + 12), HalfAt(m, base + 14))
  }

  // ---------------------------------------------------------------- chains

  /** The descriptors from `index` on: at most n, stopping at one already seen. */
  ghost function ChainFrom(m: Flat, q: Queue, index: nat, seen: set<nat>, n: nat): seq<Desc>
    decreases n
  {
    if n == 0 || index >= q.num || index in seen then []
    else
      var d := DescAt(m, q, index);
      if Indirect(d) || !HasNext(d) then [d] else [d] + ChainFrom(m, q, d.next, seen + {index}, n - 1)
  }

  ghost function ChainOf(m: Flat, q: Queue, head: nat): seq<Desc> { ChainFrom(m, q, head, {}, q.num) }

  /** Whether a chain was ended by its last descriptor rather than cut off. */
  predicate Ends(d: Desc) { Indirect(d) || !HasNext(d) }

  lemma {:induction false} ChainEntries(m: Flat, q: Queue, index: nat, seen: set<nat>, n: nat)
    ensures var c := ChainFrom(m, q, index, seen, n);
            && |c| <= n
            && (forall k :: 0 <= k < |c| ==> c[k].index < q.num && c[k].index !in seen && c[k] == DescAt(m, q, c[k].index))
            && (c != [] ==> c[0].index == index)
            && (n > 0 ==> (c == [] <==> index >= q.num || index in seen))
    decreases n
  {
    hide DescAt, Bit;
    IndexOf(m, q, index);
    if n > 0 && index < q.num && index !in seen && !Ends(DescAt(m, q, index)) {
      ChainEntries(m, q, DescAt(m, q, index).next, seen + {index}, n - 1);
    }
  }

  lemma {:induction false} ChainLinks(m: Flat, q: Queue, index: nat, seen: set<nat>, n: nat)
    ensures var c := ChainFrom(m, q, index, seen, n);
            && (forall j, k :: 0 <= j < k < |c| ==> c[j].index != c[k].index)
            && (forall k :: 0 <= k < |c| - 1 ==> !Ends(c[k]) && c[k + 1].index == c[k].next)
    decreases n
  {
    hide DescAt, Bit;
    var d := DescAt(m, q, index);
    IndexOf(m, q, index);
    if n > 0 && index < q.num && index !in seen && !Ends(d) {
      ChainEntries(m, q, d.next, seen + {index}, n - 1);
      ChainLinks(m, q, d.next, seen + {index}, n - 1);
    }
  }

  /** A chain that no descriptor ends stops where its last link leads nowhere new. */
  ghost predicate Stuck(q: Queue, seen: set<nat>, c: seq<Desc>)
    requires c != []
  {
    var l := c[|c| - 1].next;
    l >= q.num || l in seen || exists k :: 0 <= k < |c| && c[k].index == l
  }

  lemma {:induction false} ChainStops(m: Flat, q: Queue, index: nat, seen: set<nat>, n: nat)
    requires forall i :: i in seen ==> i < q.num
    requires n == q.num - |seen|
    ensures var c := ChainFrom(m, q, index, seen, n);
            && (c == [] <==> index >= q.num || index in seen)
            && (c != [] && !Ends(c[|c| - 1]) ==> Stuck(q, seen, c))
    decreases n
  {
    hide DescAt, Bit;
    if n == 0 {
      Full(seen, q.num, index);
    } else if index < q.num && index !in seen && !Ends(DescAt(m, q, index)) {
      Fits(seen + {index}, q.num);
      IndexOf(m, q, index);
      var d := DescAt(m, q, index);
      ChainStops(m, q, d.next, seen + {index}, n - 1);
      StuckLonger(q, seen, d, ChainFrom(m, q, d.next, seen + {index}, n - 1));
    }
  }

  lemma StuckLonger(q: Queue, seen: set<nat>, d: Desc, rest: seq<Desc>)
    requires rest == [] ==> d.next >= q.num || d.next in seen + {d.index}
    requires rest != [] && !Ends(rest[|rest| - 1]) ==> Stuck(q, seen + {d.index}, rest)
    ensures var c := [d] + rest;
            !Ends(c[|c| - 1]) ==> Stuck(q, seen, c)
  {
    hide Ends;
    var c := [d] + rest;
    var l := c[|c| - 1].next;
    assert c[0].index == d.index;
    if rest != [] && !Ends(c[|c| - 1]) && l < q.num && l !in seen && l != d.index {
      var k :| 0 <= k < |rest| && rest[k].index == l;
      assert c[k + 1].index == l;
    }
  }

  /** Whatever the table holds, cycles included: a chain visits distinct descriptors
      inside the table, follows their links, and stops only at a descriptor that
      ends it or whose link leaves the table or returns to one it visited. */
  lemma ChainShape(m: Flat, q: Queue, head: nat)
    ensures var c := ChainOf(m, q, head);
            && (forall k :: 0 <= k < |c| ==> c[k].index < q.num && c[k] == DescAt(m, q, c[k].index))
            && (forall j, k :: 0 <= j < k < |c| ==> c[j].index != c[k].index)
            && (forall k :: 0 <= k < |c| - 1 ==> !Ends(c[k]) && c[k + 1].index == c[k].next)
            && (c == [] <==> head >= q.num)
            && (c != [] ==> c[0].index == head)
            && (c != [] && !Ends(c[|c| - 1]) ==>
                  var l := c[|c| - 1].next;
                  l >= q.num || exists k :: 0 <= k < |c| && c[k].index == l)
  {
    hide ChainFrom, DescAt, Ends;
    ChainEntries(m, q, head, {}, q.num);
    ChainLinks(m, q, head, {}, q.num);
    ChainStops(m, q, head, {}, q.num);
  }

  lemma IndexOf(m: Flat, q: Queue, i: nat)
    ensures DescAt(m, q, i).index == i
  {
  }

  ghost function Below(n: nat): (s: set<nat>)
    ensures |s| == n && forall i :: i in s <==> 0 <= i < n
  {
    if n == 0 then {} else Below(n - 1) + {n - 1}
  }

  lemma SubsetSize(s: set<nat>, t: set<nat>)
    requires s <= t
    ensures |s| <= |t| && (|s| == |t| ==> s == t)
    decreases |s|
  {
    if s != {} {
      var x :| x in s;
      SubsetSize(s - {x}, t - {x});
      if |s| == |t| {
        assert s == (s - {x}) + {x} && t == (t - {x}) + {x};
      }
    } else if |s| == |t| {
      assert t == {};
    }
  }

  lemma Fits(s: set<nat>, n: nat)
    requires forall i :: i in s ==> i < n
    ensures |s| <= n
  {
    SubsetSize(s, Below(n));
  }

  /** As many distinct indices as the table has entries are all of them. */
  lemma Full(s: set<nat>, n: nat, index: nat)
    requires forall i :: i in s ==> i < n
    requires |s| == n
    ensures index >= n || index in s
  {
    SubsetSize(s, Below(n));
  }

  // ---------------------------------------------------------------- buffers

  ghost function TotalLength(ds: seq<Desc>): nat
    decreases |ds|
  {
    if ds == [] then 0 else ds[0].length + TotalLength(ds[1..])
  }

  /** The bytes of the buffers, one after the other. */
  ghost function Gather(m: Flat, ds: seq<Desc>): (r: seq<u8>)
    ensures |r| == TotalLength(ds)
    decreases |ds|
  {
    if ds == [] then [] else BytesAt(m, ds[0].addr, ds[0].length) + Gather(m, ds[1..])
  }

  datatype Reply = Reply(status: u8, written: nat)

  /** Memory and reply after writing data[pos..] to the buffers in order. */
  ghost function Scatter(m: Flat, ds: seq<Desc>, data: seq<u8>, pos: nat): (Flat, Reply)
    requires pos <= |data|
    decreases |ds|
  {
    if ds == [] then (m, Reply(0, pos))
    else if !Writable(ds[0]) then (m, Reply(1, 1))
    else
      var chunk := Min(ds[0].length, |data| - pos);
      var n := WithBytes(m, ds[0].addr, data[pos..pos + chunk]);
      if pos + chunk >= |data| then (n, Reply(0, pos + chunk))
      else Scatter(n, ds[1..], data, pos + chunk)
  }

  // ---------------------------------------------------------------- requests

  const IDENT: seq<u8> := [0x5A, 0x58, 0x33, 0x32, 0x53, 0x49, 0x4D, 0x2D, 0x44, 0x49, 0x53, 0x4B, 0, 0, 0, 0, 0, 0, 0, 0]

  /** Memory, image and reply after one request, before its status byte is stored. */
  ghost function Perform(m: Flat, image: seq<u8>, readonly: bool, chain: seq<Desc>): (Flat, seq<u8>, Reply)
    requires |chain| >= 2
  {
    var header, ds := chain[0], chain[1..|chain| - 1];
    if header.length < 16 || Writable(header) || !Writable(chain[|chain| - 1]) then (m, image, Reply(1, 1))
    else
      var kind := WordAt(m, header.addr);
      var sector := WordAt(m, header.addr + 8) + WordAt(m, header.addr + 12) * 0x1_0000_0000;
      if kind == 4 then (m, image, Reply(0, 1))
      else if kind == 8 then
        var s := Scatter(m, ds, IDENT, 0);
        (s.0, image, s.1)
      else Transfer(m, image, readonly, ds, kind, sector)
  }

  ghost function Transfer(m: Flat, image: seq<u8>, readonly: bool, ds: seq<Desc>, kind: u32, sector: u64)
      : (Flat, seq<u8>, Reply) {
    var total := TotalLength(ds);
    var start := sector * 512;
    if start + total > |image| then (m, image, Reply(1, 1))
    else if kind == 0 then
      if exists d :: d in ds && !Writable(d) then (m, image, Reply(1, 1))
      else
        var s := Scatter(m, ds, image[start..start + total], 0);
        (s.0, image, s.1.(written := s.1.written + 1))
    else if kind == 1 then
      if readonly || (exists d :: d in ds && Writable(d)) then (m, image, Reply(1, 1))
      else (m, image[..start] + Gather(m, ds) + image[start + total..], Reply(0, 1))
    else (m, image, Reply(2, 1))
  }

  /** No request changes the image's length, one on a read-only device changes
      nothing, and one that writes changes only the sectors it names. */
  lemma ImageKept(m: Flat, image: seq<u8>, readonly: bool, ds: seq<Desc>, kind: u32, sector: u64)
    ensures var image' := Transfer(m, image, readonly, ds, kind, sector).1;
            && |image'| == |image|
            && (readonly ==> image' == image)
            && (forall i :: 0 <= i < |image| && !(sector * 512 <= i < sector * 512 + TotalLength(ds)) ==> image'[i] == image[i])
  {
    hide Scatter, Bit;
  }

  // ---------------------------------------------------------------- round trip

  /** The address of the o-th byte of a buffer. */
  ghost function Spot(d: Desc, o: int): u32 { At(d.addr, o) }

  /** No two buffers of the list overlap, wrapping at 2^32 included. */
  ghost predicate Disjoint(ds: seq<Desc>) {
    forall j, k, o, p :: 0 <= j < k < |ds| && 0 <= o < ds[j].length && 0 <= p < ds[k].length ==>
      Spot(ds[j], o) != Spot(ds[k], p)
  }

  lemma NotSame(a: int, i: nat, j: nat)
    requires i < j < 0x1_0000_0000
    ensures W(a + i) != W(a + j)
  {
    var q, r := (a + i) / 0x1_0000_0000, (a + j) / 0x1_0000_0000;
    assert a + i == 0x1_0000_0000 * q + W(a + i);
    assert a + j == 0x1_0000_0000 * r + W(a + j);
  }

  lemma {:induction false} WithBytesReads(m: Flat, a: int, d: seq<u8>, i: nat)
    requires |d| <= 0x1_0000_0000 && i < |d|
    ensures ByteAt(WithBytes(m, a, d), a + i) == d[i]
    decreases |d|
  {
    hide W;
    if i < |d| - 1 {
      WithBytesReads(m, a, d[..|d| - 1], i);
      NotSame(a, i, |d| - 1);
    }
  }

  lemma {:induction false} WithBytesFrame(m: Flat, a: int, d: seq<u8>, b: u32)
    requires forall i :: 0 <= i < |d| ==> At(a, i) != b
    ensures WithBytes(m, a, d)[b] == m[b]
    decreases |d|
  {
    hide W;
    if d != [] {
      assert At(a, |d| - 1) != b;
      WithBytesFrame(m, a, d[..|d| - 1], b);
    }
  }

  /** Scatter touches only the buffers it is given. */
  lemma {:induction false} ScatterFrame(m: Flat, ds: seq<Desc>, data: seq<u8>, pos: nat, b: u32)
    requires pos <= |data|
    requires forall k, o :: 0 <= k < |ds| && Writable(ds[k]) && 0 <= o < ds[k].length ==> Spot(ds[k], o) != b
    ensures Scatter(m, ds, data, pos).0[b] == m[b]
    decreases |ds|
  {
    hide W, WithBytes, Bit;
    if ds != [] && Writable(ds[0]) {
      var chunk := Min(ds[0].length, |data| - pos);
      forall i | 0 <= i < chunk ensures At(ds[0].addr, i) != b {
        assert Spot(ds[0], i) != b;
      }
      WithBytesFrame(m, ds[0].addr, data[pos..pos + chunk], b);
      forall k, o | 0 <= k < |ds[1..]| && Writable(ds[1..][k]) && 0 <= o < ds[1..][k].length
        ensures Spot(ds[1..][k], o) != b
      {
        assert ds[1..][k] == ds[k + 1];
      }
      if pos + chunk < |data| {
        ScatterFrame(WithBytes(m, ds[0].addr, data[pos..pos + chunk]), ds[1..], data, pos + chunk, b);
      }
    }
  }

  lemma TailDisjoint(ds: seq<Desc>)
    requires ds != [] && Disjoint(ds)
    ensures Disjoint(ds[1..])
    ensures forall k, o, p :: 0 <= k < |ds[1..]| && 0 <= o < ds[0].length && 0 <= p < ds[1..][k].length ==>
              Spot(ds[0], o) != Spot(ds[1..][k], p)
  {
    hide Spot;
    forall j, k, o, p | 0 <= j < k < |ds[1..]| && 0 <= o < ds[1..][j].length && 0 <= p < ds[1..][k].length
      ensures Spot(ds[1..][j], o) != Spot(ds[1..][k], p)
    {
      assert ds[1..][j] == ds[j + 1] && ds[1..][k] == ds[k + 1];
    }
    forall k, o, p | 0 <= k < |ds[1..]| && 0 <= o < ds[0].length && 0 <= p < ds[1..][k].length
      ensures Spot(ds[0], o) != Spot(ds[1..][k], p)
    {
      assert ds[1..][k] == ds[k + 1];
    }
  }

  /** Buffers that are all empty gather nothing. */
  lemma {:induction false} GatherNothing(m: Flat, ds: seq<Desc>)
    requires TotalLength(ds) == 0
    ensures Gather(m, ds) == []
  {
  }

  /** Scattering data over disjoint device-writable buffers of its exact length, then
      gathering them, gives the data back. */
  lemma {:induction false} ScatterGather(m: Flat, ds: seq<Desc>, data: seq<u8>, pos: nat)
    requires pos <= |data| && |data| - pos == TotalLength(ds)
    requires Disjoint(ds) && forall d :: d in ds ==> Writable(d)
    ensures var (n, r) := Scatter(m, ds, data, pos);
            Gather(n, ds) == data[pos..] && r == Reply(0, |data|)
    decreases |ds|
  {
    hide W, WithBytes, Bit, BytesAt;
    if ds != [] {
      var d, rest := ds[0], ds[1..];
      assert d in ds;
      var len: int := d.length;
      var part := data[pos..pos + len];
      var n := WithBytes(m, d.addr, part);
      TailDisjoint(ds);
      if pos + len < |data| {
        ScatterGather(n, rest, data, pos + len);
      } else {
        GatherNothing(n, rest);
      }
      var z := Scatter(m, ds, data, pos).0;
      if pos + len < |data| {
        forall i | 0 <= i < len ensures z[Spot(d, i)] == n[Spot(d, i)] {
          ScatterFrame(n, rest, data, pos + len, Spot(d, i));
        }
      }
      Kept(m, z, d, part);
      assert data[pos..] == part + data[pos + len..];
    }
  }

  /** A stored part that nothing else has touched is read back. */
  lemma Kept(m: Flat, z: Flat, d: Desc, part: seq<u8>)
    requires |part| == d.length
    requires forall i :: 0 <= i < d.length ==> z[Spot(d, i)] == WithBytes(m, d.addr, part)[Spot(d, i)]
    ensures BytesAt(z, d.addr, d.length) == part
  {
    hide W, WithBytes, ByteAt;
    var n := WithBytes(m, d.addr, part);
    forall i | 0 <= i < |part| ensures ByteAt(z, d.addr + i) == part[i] {
      WithBytesReads(m, d.addr, part, i);
      SameByte(z, n, d, i);
    }
  }

  lemma SameByte(z: Flat, n: Flat, d: Desc, i: int)
    requires z[Spot(d, i)] == n[Spot(d, i)]
    ensures ByteAt(z, d.addr + i) == ByteAt(n, d.addr + i)
  {
  }

  /** Main result: an OUT request followed, whatever happens to memory in between,
      by an IN request for the same sectors returns the same bytes, however the two
      are split into buffers. */
  lemma OutThenIn(m: Flat, image: seq<u8>, ds: seq<Desc>, m': Flat, ds': seq<Desc>, sector: u64)
    requires forall d :: d in ds ==> !Writable(d)
    requires forall d :: d in ds' ==> Writable(d)
    requires Disjoint(ds') && TotalLength(ds') == TotalLength(ds)
    requires sector * 512 + TotalLength(ds) <= |image|
    ensures var (m1, image1, r1) := Transfer(m, image, false, ds, 1, sector);
            var (m2, image2, r2) := Transfer(m', image1, false, ds', 0, sector);
            && m1 == m && r1 == Reply(0, 1)
            && Gather(m2, ds') == Gather(m, ds)
            && image2 == image1 && r2 == Reply(0, TotalLength(ds) + 1)
  {
    hide Bit, Scatter, Disjoint, BytesAt;
    var total, start := TotalLength(ds), sector * 512;
    var data := Gather(m, ds);
    var image1 := image[..start] + data + image[start + total..];
    assert image1[start..start + total] == data;
    ScatterGather(m', ds', data, 0);
    assert data[0..] == data;
  }
}
