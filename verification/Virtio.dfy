/** The virtio block device of the simulator: its queue fields, its image and the
    guest memory are changed in place. */
module Virtio {
  import opened Words
  import opened FlatMemory
  import opened PagedMemory
  import opened VirtioModel
  import opened VirtioQueue

  class BlockDevice {
    var image: seq<u8>
    const readonly: bool
    var num: nat
    var ready: bool
    var descAddr: u64
    var availAddr: u64
    var usedAddr: u64
    var lastAvailIdx: u16
    var interruptStatus: u32

    constructor (image: seq<u8>, readonly: bool)
      ensures this.image == image && this.readonly == readonly && !ready && num == 0 && lastAvailIdx == 0
    {
      this.image, this.readonly := image, readonly;
      num, ready, descAddr, availAddr, usedAddr, lastAvailIdx, interruptStatus := 0, false, 0, 0, 0, 0, 0;
    }

    ghost function TheQueue(): Queue
      reads this
    {
      Queue(num, descAddr, availAddr, usedAddr)
    }

    ghost function Now(mem: Memory): World
      requires mem.Valid()
      reads this, mem, mem.pages.Values
    {
      World(mem.View(), image, lastAvailIdx)
    }

    method ReadDesc(index: nat, mem: Memory) returns (d: Desc)
      requires mem.Valid()
      ensures d == DescAt(mem.View(), TheQueue(), index)
    {
      hide WordAt, HalfAt, Memory.View;
      var base := descAddr + index * 16;
      var lo: int := mem.ReadU32(base);
      var hi: int := mem.ReadU32(base + 4);
      var length := mem.ReadU32(base + 8);
      var flags := mem.ReadU16(base + 12);
      var next := mem.ReadU16(base + 14);
      d := Desc(index, lo + hi * 0x1_0000_0000, length, flags, next);
    }

    method ReadChain(head: nat, mem: Memory) returns (chain: seq<Desc>)
      requires mem.Valid()
      ensures chain == ChainOf(mem.View(), TheQueue(), head)
    {
      hide DescAt, Memory.View, Bit, ChainFrom, Indirect, HasNext;
      chain := [];
      ghost var m, q := mem.View(), TheQueue();
      var seen: set<nat>, index: nat := {}, head;
      for i := 0 to num
        invariant ChainOf(m, q, head) == chain + ChainFrom(m, q, index, seen, num - i)
      {
        ChainStep(m, q, index, seen, num - i, chain);
        if index >= num || index in seen {
          return;
        }
        var d := ReadDesc(index, mem);
        chain := chain + [d];
        if Indirect(d) || !HasNext(d) {
          return;
        }
        seen := seen + {index};
        index := d.next;
      }
      ChainStep(m, q, index, seen, 0, chain);
    }

    method WriteToDescs(mem: Memory, descs: seq<Desc>, data: seq<u8>) returns (r: Reply)
      requires mem.Valid()
      modifies mem, mem.pages.Values
      ensures mem.Valid() && fresh(mem.pages.Values - old(mem.pages.Values))
      ensures (mem.View(), r) == Scatter(old(mem.View()), descs, data, 0)
    {
      hide WithBytes, Memory.View, Memory.Valid, Bit;
      var pos: nat := 0;
      for k := 0 to |descs|
        invariant mem.Valid() && fresh(mem.pages.Values - old(mem.pages.Values))
        invariant pos <= |data|
        invariant Scatter(old(mem.View()), descs, data, 0) == Scatter(mem.View(), descs[k..], data, pos)
      {
        assert descs[k..][0] == descs[k] && descs[k..][1..] == descs[k + 1..];
        if !Writable(descs[k]) {
          return Reply(1, 1);
        }
        var chunk := Min(descs[k].length, |data| - pos);
        NoBytes(mem.View(), descs[k].addr);
        if chunk > 0 {
          mem.Load(descs[k].addr, data[pos..pos + chunk]);
        } else {
          assert data[pos..pos + chunk] == [];
        }
        pos := pos + chunk;
        if pos >= |data| {
          return Reply(0, pos);
        }
      }
      r := Reply(0, pos);
    }

    method GatherFrom(mem: Memory, descs: seq<Desc>) returns (data: seq<u8>)
      requires mem.Valid()
      ensures data == Gather(mem.View(), descs)
    {
      hide BytesAt, Memory.View, Memory.Valid, Gather;
      data := [];
      assert descs[0..] == descs;
      for k := 0 to |descs|
        invariant Gather(mem.View(), descs) == data + Gather(mem.View(), descs[k..])
      {
        GatherMore(mem.View(), data, descs, k);
        var part := mem.ReadBytes(descs[k].addr, descs[k].length);
        data := data + part;
      }
      assert descs[|descs|..] == [];
      GatherStep(mem.View(), []);
    }

    method SumLengths(descs: seq<Desc>) returns (total: nat)
      ensures total == TotalLength(descs)
    {
      total := 0;
      for k := 0 to |descs|
        invariant total + TotalLength(descs[k..]) == TotalLength(descs)
      {
        total := total + descs[k].length;
        assert descs[k..][1..] == descs[k + 1..];
      }
    }

    /** `any(...)` over the flags of the data descriptors. */
    method AnyWith(descs: seq<Desc>, writable: bool) returns (found: bool)
      ensures found <==> exists d :: d in descs && Writable(d) == writable
    {
      hide Bit;
      for k := 0 to |descs|
        invariant forall j :: 0 <= j < k ==> Writable(descs[j]) != writable
      {
        if Writable(descs[k]) == writable {
          return true;
        }
      }
      found := false;
    }

    method ExecuteRequest(chain: seq<Desc>, mem: Memory) returns (r: Reply)
      requires mem.Valid() && |chain| >= 2
      modifies `image, mem, mem.pages.Values
      ensures mem.Valid() && fresh(mem.pages.Values - old(mem.pages.Values))
      ensures (mem.View(), image, r) == Perform(old(mem.View()), old(image), readonly, chain)
    {
      hide WordAt, Memory.View, Memory.Valid, Bit, Scatter, Transfer;
      var header, data := chain[0], chain[1..|chain| - 1];
      if header.length < 16 || Writable(header) {
        return Reply(1, 1);
      }
      if !Writable(chain[|chain| - 1]) {
        return Reply(1, 1);
      }
      var kind := mem.ReadU32(header.addr);
      var lo: int := mem.ReadU32(header.addr + 8);
      var hi: int := mem.ReadU32(header.addr + 12);
      var sector: u64 := lo + hi * 0x1_0000_0000;
      if kind == 4 {
        return Reply(0, 1);
      }
      if kind == 8 {
        r := WriteToDescs(mem, data, IDENT);
        return;
      }
      r := TransferData(data, kind, sector, mem);
    }

    method TransferData(data: seq<Desc>, kind: u32, sector: u64, mem: Memory) returns (r: Reply)
      requires mem.Valid()
      modifies `image, mem, mem.pages.Values
      ensures mem.Valid() && fresh(mem.pages.Values - old(mem.pages.Values))
      ensures (mem.View(), image, r) == Transfer(old(mem.View()), old(image), readonly, data, kind, sector)
    {
      hide Memory.View, Memory.Valid, Bit, Scatter, Gather, TotalLength;
      var total := SumLengths(data);
      var start := sector * 512;
      var end := start + total;
      if end > |image| {
        return Reply(1, 1);
      }
      if kind == 0 {
        var bad := AnyWith(data, false);
        if bad {
          return Reply(1, 1);
        }
        var s := WriteToDescs(mem, data, image[start..end]);
        return s.(written := s.written + 1);
      }
      if kind == 1 {
        if readonly {
          return Reply(1, 1);
        }
        var bad := AnyWith(data, true);
        if bad {
          return Reply(1, 1);
        }
        var bytes := GatherFrom(mem, data);
        image := image[..start] + bytes + image[end..];
        return Reply(0, 1);
      }
      r := Reply(2, 1);
    }

    method PushUsedElement(head: u16, length: nat, mem: Memory)
      requires mem.Valid() && num > 0
      modifies mem, mem.pages.Values
      ensures mem.Valid() && fresh(mem.pages.Values - old(mem.pages.Values))
      ensures mem.View() == PushUsed(old(mem.View()), TheQueue(), head, length)
    {
      hide WithWord, WithHalf, HalfAt, Memory.View, Memory.Valid;
      var usedIdx := mem.ReadU16(usedAddr + 2);
      var elem := usedAddr + 4 + usedIdx % num * 8;
      mem.WriteU32(elem, head);
      mem.WriteU32(elem + 4, length);
      mem.WriteU16(usedAddr + 2, H(usedIdx + 1));
    }

    method ProcessChain(head: u16, mem: Memory)
      requires mem.Valid() && num > 0
      requires head == HeadAt(mem.View(), TheQueue(), lastAvailIdx)
      modifies `image, `interruptStatus, mem, mem.pages.Values
      ensures mem.Valid() && fresh(mem.pages.Values - old(mem.pages.Values))
      ensures mem.View() == Process(old(Now(mem)), TheQueue(), readonly).m
      ensures image == Process(old(Now(mem)), TheQueue(), readonly).image
      ensures Bit(interruptStatus, 1)
    {
      hide Memory.View, Memory.Valid, Perform, ChainOf, PushUsed, WithByte, HalfAt, HeadAt;
      var chain := ReadChain(head, mem);
      var length := 1;
      if |chain| >= 2 {
        var last := chain[|chain| - 1];
        if Writable(last) && last.length >= 1 {
          var r := ExecuteRequest(chain, mem);
          length := r.written;
          mem.WriteU8(last.addr, r.status);
        }
      }
      PushUsedElement(head, length, mem);
      interruptStatus := With(interruptStatus, 1, true);
    }

    /** `_notify`: serves chains in ring order until it has caught up with the driver's
        index, which it reads again after each.  It ends exactly when it catches up, after
        `turns` chains; buffers that do not overlap the rings see to that. */
    method Notify(mem: Memory, ghost turns: nat)
      requires mem.Valid()
      requires ready && num > 0 ==> CatchesUp(Now(mem), TheQueue(), readonly, turns)
      modifies `image, `interruptStatus, `lastAvailIdx, mem, mem.pages.Values
      ensures mem.Valid() && fresh(mem.pages.Values - old(mem.pages.Values))
      ensures Now(mem) == if ready && num > 0 then Served(old(Now(mem)), TheQueue(), readonly, turns) else old(Now(mem))
      ensures !ready || num == 0 || turns == 0 ==> interruptStatus == old(interruptStatus)
    {
      hide Memory.View, Memory.Valid, Process, HalfAt, ChainAt, H;
      if !ready || num == 0 {
        return;
      }
      ghost var w, q := Now(mem), TheQueue();
      var availIdx := mem.ReadU16(availAddr + 2);
      ghost var i := 0;
      while lastAvailIdx != availIdx
        invariant mem.Valid() && fresh(mem.pages.Values - old(mem.pages.Values))
        invariant 0 <= i <= turns && Now(mem) == Served(w, q, readonly, i)
        invariant availIdx == AvailIdx(mem.View(), q)
        invariant i == 0 ==> interruptStatus == old(interruptStatus)
        decreases turns - i
      {
        assert !CaughtUp(Served(w, q, readonly, i), q);
        var head := mem.ReadU16(availAddr + 4 + lastAvailIdx % num * 2);
        HeadIs(mem.View(), q, lastAvailIdx);
        ProcessChain(head, mem);
        lastAvailIdx := H(lastAvailIdx + 1);
        ProcessLast(Served(w, q, readonly, i), q, readonly);
        i := i + 1;
        availIdx := mem.ReadU16(availAddr + 2);
      }
      assert CaughtUp(Served(w, q, readonly, i), q);
    }
  }

  /** One turn of the chain walk: what it appends and what is left to read. */
  lemma ChainStep(m: Flat, q: Queue, index: nat, seen: set<nat>, n: nat, before: seq<Desc>)
    ensures var d := DescAt(m, q, index);
            before + ChainFrom(m, q, index, seen, n) ==
              if n == 0 || index >= q.num || index in seen then before
              else if Indirect(d) || !HasNext(d) then before + [d]
              else before + [d] + ChainFrom(m, q, d.next, seen + {index}, n - 1)
  {
    hide DescAt, Indirect, HasNext;
  }

  lemma GatherStep(m: Flat, ds: seq<Desc>)
    ensures Gather(m, ds) == if ds == [] then [] else BytesAt(m, ds[0].addr, ds[0].length) + Gather(m, ds[1..])
  {
  }

  /** Gathering one more buffer onto what was gathered before. */
  lemma GatherMore(m: Flat, data: seq<u8>, descs: seq<Desc>, k: nat)
    requires k < |descs|
    ensures data + Gather(m, descs[k..]) ==
              data + BytesAt(m, descs[k].addr, descs[k].length) + Gather(m, descs[k + 1..])
  {
    hide BytesAt, Gather;
    GatherStep(m, descs[k..]);
    assert descs[k..][1..] == descs[k + 1..];
  }

  lemma HeadIs(m: Flat, q: Queue, last: u16)
    requires q.num > 0
    ensures HeadAt(m, q, last) == HalfAt(m, q.avail + 4 + last % q.num * 2)
  {
  }

  lemma ProcessLast(w: World, q: Queue, readonly: bool)
    requires q.num > 0
    ensures Process(w, q, readonly).last == H(w.last + 1)
  {
  }
}
