/** Sv32 address translation without a TLB: the two-level walk of the simulator,
    which sets A and D in the entry it reaches, and the reference algorithm of
    section 4.3.2 of the RISC-V Privileged Architecture manual. */
module Sv32 {
  import opened Words
  import opened FlatMemory
  import Bits

  datatype Access = Fetch | Load | Store

  function Cause(acc: Access): int {
    match acc case Fetch => 12 case Load => 13 case Store => 15
  }

  datatype Outcome = Ok(pa: u32) | PageFault(cause: int, vaddr: u32)

  /** What a translation depends on besides memory. */
  datatype Regime = Regime(satp: u32, sstatus: u32, priv: int)

  predicate Active(c: Regime) { c.priv != 3 && Bit(c.satp, 0x8000_0000) }

  // ---------------------------------------------------------------- entries

  predicate Invalid(pte: u32) { !Bit(pte, 1) || (Bit(pte, 4) && !Bit(pte, 2)) }

  predicate Leaf(pte: u32) { Bit(pte, 2) || Bit(pte, 8) }

  lemma WithFits(x: u32, w: int, b: bool)
    requires w in {0x40, 0x80}
    ensures 0 <= With(x, w, b) < 0x1_0000_0000
  {
    var k, r := x / w, x % w;
    assert x == w * k + r && 0 <= k < 0x1_0000_0000 / w;
    assert With(x, w, b) == w * (k - k % 2 + if b then 1 else 0) + r;
  }

  function WithAd(pte: u32, store: bool): u32 {
    WithFits(pte, 0x40, true);
    WithFits(With(pte, 0x40, true), 0x80, store || Bit(pte, 0x80));
    With(With(pte, 0x40, true), 0x80, store || Bit(pte, 0x80))
  }

  /** The entry with A and D masked off: pte & ~0xC0. */
  function Core(pte: u32): u32 { pte - pte / 0x40 % 4 * 0x40 }

  const SUM := 0x4_0000
  const MXR := 0x8_0000

  predicate Permitted(c: Regime, pte: u32, acc: Access) {
    var readable := Bit(pte, 2) || (acc == Load && Bit(c.sstatus, 0x8_0000) && Bit(pte, 8));
    && (acc == Fetch ==> Bit(pte, 8))
    && (acc == Load ==> readable)
    && (acc == Store ==> Bit(pte, 4))
    && (c.priv == 0 ==> Bit(pte, 0x10))
    && !(c.priv == 1 && acc == Fetch && Bit(pte, 0x10))
    && !(c.priv == 1 && acc != Fetch && Bit(pte, 0x10) && !Bit(c.sstatus, 0x4_0000))
  }

  lemma CoreDetermines(p: u32, q: u32)
    requires Core(p) == Core(q)
    ensures p % 0x40 == q % 0x40 && p / 0x100 == q / 0x100
    ensures p / 0x400 == q / 0x400 && p / 0x10_0000 == q / 0x10_0000
    ensures forall w :: w in {1, 2, 4, 8, 0x10} ==> (Bit(p, w) <==> Bit(q, w))
    ensures Invalid(p) == Invalid(q) && Leaf(p) == Leaf(q)
    ensures forall c, acc :: Permitted(c, p, acc) == Permitted(c, q, acc)
  {
    assert p == p / 0x100 * 0x100 + p / 0x40 % 4 * 0x40 + p % 0x40 by { Nest(p); Split(p / 0x40); }
    assert q == q / 0x100 * 0x100 + q / 0x40 % 4 * 0x40 + q % 0x40 by { Nest(q); Split(q / 0x40); }
    LowBits(p);
    LowBits(q);
    HighBits(p);
    HighBits(q);
  }

  lemma HighBits(p: int)
    ensures p / 0x400 == p / 0x100 / 4 && p / 0x10_0000 == p / 0x100 / 0x1000
  {
  }

  lemma LowBits(p: u32)
    ensures forall w :: w in {1, 2, 4, 8, 0x10} ==> (Bit(p, w) <==> Bit(p % 0x40, w))
  {
    hide Bit;
    var h, l := p / 0x40, p % 0x40;
    assert p == l + 0x40 * h;
    Bits.BitOfSum(l, 1, 0x20 * h);
    Bits.BitOfSum(l, 2, 0x10 * h);
    Bits.BitOfSum(l, 4, 8 * h);
    Bits.BitOfSum(l, 8, 4 * h);
    Bits.BitOfSum(l, 0x10, 2 * h);
  }

  /** Setting A and D touches those two bits and only sets them. */
  lemma AdBits(pte: u32, store: bool)
    ensures Core(WithAd(pte, store)) == Core(pte)
    ensures Bit(WithAd(pte, store), 0x40)
    ensures Bit(WithAd(pte, store), 0x80) <==> store || Bit(pte, 0x80)
    ensures WithAd(WithAd(pte, store), store) == WithAd(pte, store)
  {
    AdField(pte, store);
    AdField(WithAd(pte, store), store);
  }

  /** The two bits as one field of the entry. */
  lemma AdField(pte: u32, store: bool)
    ensures var h, d, l := pte / 0x100, Bit(pte, 0x80), pte % 0x40;
            var n := WithAd(pte, store);
            && n == 0x100 * h + (if store || d then 0xC0 else 0x40) + l
            && Core(n) == 0x100 * h + l && Core(pte) == 0x100 * h + l
            && Bit(n, 0x40) && (Bit(n, 0x80) <==> store || d)
  {
    var h, d, a, l := pte / 0x100, pte / 0x40 / 2 % 2, pte / 0x40 % 2, pte % 0x40;
    Nest(pte);
    assert pte == 0x40 * (pte / 0x40) + l;
    assert pte / 0x40 == 4 * h + 2 * d + a by { Split(pte / 0x40); }
    var p1 := With(pte, 0x40, true);
    assert p1 == 0x40 * (4 * h + 2 * d + 1) + l;
    Field(p1, h, d, 1, l);
    var d' := if store || Bit(pte, 0x80) then 1 else 0;
    var p2 := WithAd(pte, store);
    assert p2 == 0x40 * (4 * h + 2 * d' + 1) + l;
    Field(p2, h, d', 1, l);
    Field(pte, h, d, a, l);
  }

  lemma Nest(p: int)
    ensures p / 0x80 == p / 0x40 / 2 && p / 0x100 == p / 0x40 / 4
  {
  }

  lemma Split(k: int)
    ensures k == 4 * (k / 4) + 2 * (k / 2 % 2) + k % 2
  {
  }

  lemma Field(p: int, h: int, d: int, a: int, l: int)
    requires 0 <= d < 2 && 0 <= a < 2 && 0 <= l < 0x40
    requires p == 0x40 * (4 * h + 2 * d + a) + l
    ensures p / 0x40 == 4 * h + 2 * d + a
    ensures p / 0x80 % 2 == d && p / 0x40 % 2 == a && p / 0x40 % 4 == 2 * d + a
  {
    assert p / 0x40 == 4 * h + 2 * d + a;
    Nest(p);
  }

  // ---------------------------------------------------------------- the walk

  /** The leaf a walk reaches: the address of its entry and the entry as read. */
  datatype Walk = Fault | Super(at: u32, pte: u32) | Page(at: u32, pte: u32)

  ghost function Root(satp: u32, va: u32): u32 {
    W(satp % 0x40_0000 * 0x1000 + va / 0x40_0000 * 4)
  }

  ghost function Second(pte1: u32, va: u32): u32 {
    W(pte1 / 0x400 * 0x1000 + va / 0x1000 % 0x400 * 4)
  }

  /** The leaf the tables lead to, whoever may use it. */
  ghost function LeafOf(m: Flat, satp: u32, va: u32): Walk {
    var p1 := Root(satp, va);
    var pte1 := WordAt(m, p1);
    if Invalid(pte1) then Fault
    else if Leaf(pte1) then
      if pte1 / 0x400 % 0x400 != 0 then Fault else Super(p1, pte1)
    else
      var p0 := Second(pte1, va);
      var pte0 := WordAt(m, p0);
      if Invalid(pte0) || !Leaf(pte0) then Fault else Page(p0, pte0)
  }

  ghost function WalkOf(m: Flat, c: Regime, va: u32, acc: Access): Walk {
    var w := LeafOf(m, c.satp, va);
    if w != Fault && !Permitted(c, w.pte, acc) then Fault else w
  }

  ghost function Base(w: Walk): u32
    requires w != Fault
  {
    if w.Super? then W(w.pte / 0x10_0000 * 0x40_0000) else W(w.pte / 0x400 * 0x1000)
  }

  /** Translation by a fresh walk. */
  ghost function Fresh(m: Flat, c: Regime, va: u32, acc: Access): Outcome {
    if !Active(c) then Ok(va)
    else
      var w := WalkOf(m, c, va, acc);
      match w
      case Fault => PageFault(Cause(acc), va)
      case Super(_, _) => Ok(W(Base(w) + va % 0x40_0000))
      case Page(_, _) => Ok(W(Base(w) + va % 0x1000))
  }

  /** Memory after a fresh walk: a fault writes nothing, a success marks its leaf. */
  ghost function After(m: Flat, c: Regime, va: u32, acc: Access): Flat {
    if !Active(c) then m
    else
      var w := WalkOf(m, c, va, acc);
      if w == Fault then m else WithWord(m, w.at, WithAd(w.pte, acc == Store))
  }

  lemma FaultOutcome(m: Flat, c: Regime, va: u32, acc: Access)
    requires Active(c) && WalkOf(m, c, va, acc) == Fault
    ensures Fresh(m, c, va, acc) == PageFault(Cause(acc), va) && After(m, c, va, acc) == m
  {
  }

  lemma FaultWritesNothing(m: Flat, c: Regime, va: u32, acc: Access)
    ensures Fresh(m, c, va, acc).PageFault? ==> After(m, c, va, acc) == m
  {
  }

  /** The addresses of the entries a walk reads. */
  ghost function Reads(m: Flat, satp: u32, va: u32): set<u32> {
    var p1 := Root(satp, va);
    var pte1 := WordAt(m, p1);
    if Invalid(pte1) || Leaf(pte1) then {p1} else {p1, Second(pte1, va)}
  }

  lemma RootAligned(satp: u32, va: u32)
    ensures Root(satp, va) % 4 == 0
  {
    AlignedBytes(satp % 0x40_0000 * 0x1000 + va / 0x40_0000 * 4);
  }

  lemma SecondAligned(pte1: u32, va: u32)
    ensures Second(pte1, va) % 4 == 0
  {
    AlignedBytes(pte1 / 0x400 * 0x1000 + va / 0x1000 % 0x400 * 4);
  }

  lemma ReadsAligned(m: Flat, satp: u32, va: u32)
    ensures forall a :: a in Reads(m, satp, va) ==> a % 4 == 0
    ensures LeafOf(m, satp, va) != Fault ==> LeafOf(m, satp, va).at in Reads(m, satp, va)
  {
    hide WordAt, Root, Second;
    RootAligned(satp, va);
    SecondAligned(WordAt(m, Root(satp, va)), va);
  }

  /** Two walks that reach the same leaf, up to its A and D bits. */
  ghost predicate Similar(v: Walk, w: Walk) {
    || (v == Fault && w == Fault)
    || (v.Super? && w.Super? && v.at == w.at && Core(v.pte) == Core(w.pte))
    || (v.Page? && w.Page? && v.at == w.at && Core(v.pte) == Core(w.pte))
  }

  lemma SimilarBase(v: Walk, w: Walk)
    requires Similar(v, w) && v != Fault
    ensures Base(v) == Base(w)
  {
    CoreDetermines(v.pte, w.pte);
  }

  /** The entries at the given addresses agree up to A and D, and A and D are not
      cleared. */
  ghost predicate Kept(m: Flat, n: Flat, at: set<u32>) {
    forall a :: a in at ==>
      && Core(WordAt(m, a)) == Core(WordAt(n, a))
      && (Bit(WordAt(m, a), 0x40) ==> Bit(WordAt(n, a), 0x40))
      && (Bit(WordAt(m, a), 0x80) ==> Bit(WordAt(n, a), 0x80))
  }

  /** A walk depends only on the entries it reads, and on those only up to A and D. */
  lemma WalkDependsOnCores(m: Flat, n: Flat, c: Regime, va: u32, acc: Access)
    requires Kept(m, n, Reads(m, c.satp, va))
    ensures Similar(WalkOf(m, c, va, acc), WalkOf(n, c, va, acc))
    ensures Reads(m, c.satp, va) == Reads(n, c.satp, va)
    ensures Fresh(m, c, va, acc) == Fresh(n, c, va, acc)
    ensures WalkOf(m, c, va, acc) != Fault ==>
              Base(WalkOf(m, c, va, acc)) == Base(WalkOf(n, c, va, acc))
  {
    hide WordAt, Bit, Core, Base, LeafOf, Reads, W, Kept, Permitted;
    ReadsDependOnCores(m, n, c.satp, va);
    var v, w := LeafOf(m, c.satp, va), LeafOf(n, c.satp, va);
    if v != Fault {
      CoreDetermines(v.pte, w.pte);
      SimilarBase(v, w);
    }
  }

  lemma ReadsDependOnCores(m: Flat, n: Flat, satp: u32, va: u32)
    requires Kept(m, n, Reads(m, satp, va))
    ensures Similar(LeafOf(m, satp, va), LeafOf(n, satp, va))
    ensures Reads(m, satp, va) == Reads(n, satp, va)
  {
    hide WordAt, Bit, Core, Invalid, Leaf, Permitted, Root, Second;
    var p1 := Root(satp, va);
    assert p1 in Reads(m, satp, va);
    CoreDetermines(WordAt(m, p1), WordAt(n, p1));
    var p0 := Second(WordAt(m, p1), va);
    SecondOf(WordAt(m, p1), WordAt(n, p1), va);
    if !Invalid(WordAt(m, p1)) && !Leaf(WordAt(m, p1)) {
      assert p0 in Reads(m, satp, va);
      CoreDetermines(WordAt(m, p0), WordAt(n, p0));
    }
  }

  lemma SecondOf(p: u32, q: u32, va: u32)
    requires p / 0x400 == q / 0x400
    ensures Second(p, va) == Second(q, va)
  {
  }

  /** Setting A (and D) in any aligned word keeps every entry, whoever reads it:
      tables that map themselves and words used at both levels included. */
  lemma MarkingKeeps(m: Flat, at: u32, store: bool, entries: set<u32>)
    requires at % 4 == 0 && forall a :: a in entries ==> a % 4 == 0
    ensures Kept(m, WithWord(m, at, WithAd(WordAt(m, at), store)), entries)
  {
    hide WithAd, WordAt, WithWord, W, Core;
    var was := WordAt(m, at);
    var now := WithAd(was, store);
    var n := WithWord(m, at, now);
    AdBits(was, store);
    WId(at);
    WId(now);
    forall a | a in entries
      ensures WordAt(n, a) == if a == at then now else WordAt(m, a)
    {
      WordFrame(m, at, now, a);
      WId(a);
    }
    KeptPointwise(m, n, at, entries);
  }

  lemma KeptPointwise(m: Flat, n: Flat, at: u32, entries: set<u32>)
    requires forall a :: a in entries ==> a == at || WordAt(n, a) == WordAt(m, a)
    requires at in entries ==> Kept(m, n, {at})
    ensures Kept(m, n, entries)
  {
  }

  /** Marking any word of memory changes no translation. */
  lemma MarkingChangesNoTranslation(m: Flat, at: u32, store: bool, c: Regime, va: u32, acc: Access)
    requires at % 4 == 0
    ensures Fresh(WithWord(m, at, WithAd(WordAt(m, at), store)), c, va, acc) == Fresh(m, c, va, acc)
  {
    ReadsAligned(m, c.satp, va);
    MarkingKeeps(m, at, store, Reads(m, c.satp, va));
    WalkDependsOnCores(m, WithWord(m, at, WithAd(WordAt(m, at), store)), c, va, acc);
  }

  /** The word a walk marks is the word it read. */
  lemma LeafReadsAt(m: Flat, satp: u32, va: u32)
    ensures var w := LeafOf(m, satp, va);
            w != Fault ==> w.at % 4 == 0 && WordAt(m, w.at) == w.pte
  {
    hide WordAt, Root, Second;
    RootAligned(satp, va);
    SecondAligned(WordAt(m, Root(satp, va)), va);
  }

  /** One translation never disturbs another. */
  lemma AfterKeeps(m: Flat, c: Regime, va: u32, acc: Access, d: Regime, va': u32, acc': Access)
    ensures Kept(m, After(m, c, va, acc), Reads(m, d.satp, va'))
    ensures Fresh(After(m, c, va, acc), d, va', acc') == Fresh(m, d, va', acc')
  {
    ReadsAligned(m, d.satp, va');
    LeafReadsAt(m, c.satp, va);
    if Active(c) && WalkOf(m, c, va, acc) != Fault {
      MarkingKeeps(m, WalkOf(m, c, va, acc).at, acc == Store, Reads(m, d.satp, va'));
    }
    WalkDependsOnCores(m, After(m, c, va, acc), d, va', acc');
  }

  /** After a translation its leaf is marked, so translating again writes nothing. */
  lemma TranslateTwice(m: Flat, c: Regime, va: u32, acc: Access)
    ensures After(After(m, c, va, acc), c, va, acc) == After(m, c, va, acc)
    ensures Fresh(After(m, c, va, acc), c, va, acc) == Fresh(m, c, va, acc)
  {
    hide WithAd;
    hide WordAt;
    hide WithWord;
    AfterKeeps(m, c, va, acc, c, va, acc);
    var n := After(m, c, va, acc);
    var v, w := WalkOf(m, c, va, acc), WalkOf(n, c, va, acc);
    WalkDependsOnCores(m, n, c, va, acc);
    if Active(c) && w != Fault {
      AfterMarks(m, c, va, acc);
      WithWordSame(n, w.at);
    }
  }

  /** The leaf a successful translation reaches has A set, and D for a store. */
  lemma AfterMarks(m: Flat, c: Regime, va: u32, acc: Access)
    requires Active(c) && WalkOf(m, c, va, acc) != Fault
    ensures var w := WalkOf(After(m, c, va, acc), c, va, acc);
            && w != Fault && w.at == WalkOf(m, c, va, acc).at
            && WordAt(After(m, c, va, acc), w.at) == w.pte
            && Bit(w.pte, 0x40) && (acc == Store ==> Bit(w.pte, 0x80))
            && WithAd(w.pte, acc == Store) == w.pte
  {
    hide WithAd;
    hide WordAt;
    hide WithWord;
    hide W;
    var n := After(m, c, va, acc);
    var v := WalkOf(m, c, va, acc);
    AfterKeeps(m, c, va, acc, c, va, acc);
    WalkDependsOnCores(m, n, c, va, acc);
    LeafReadsAt(m, c.satp, va);
    LeafReadsAt(n, c.satp, va);
    WordFrame(m, v.at, WithAd(v.pte, acc == Store), v.at);
    AdBits(v.pte, acc == Store);
    WId(v.at);
    WId(WithAd(v.pte, acc == Store));
  }

  // ---------------------------------------------------------------- the standard

  /** pte with A set, and D when `store`: the bits of weight 0x40 and 0x80. */
  function Marked(pte: u32, store: bool): int {
    pte + (if Bit(pte, 0x40) then 0 else 0x40) + (if store && !Bit(pte, 0x80) then 0x80 else 0)
  }

  /** Steps 5 and 6 of the algorithm for a leaf, in U and S mode. */
  predicate Allowed(c: Regime, pte: u32, acc: Access) {
    var r, w, x, u := Bit(pte, 2), Bit(pte, 4), Bit(pte, 8), Bit(pte, 0x10);
    match acc
    case Fetch => x && (if c.priv == 0 then u else !u)
    case Load => (r || (Bit(c.sstatus, MXR) && x)) && (if c.priv == 0 then u else !u || Bit(c.sstatus, SUM))
    case Store => w && (if c.priv == 0 then u else !u || Bit(c.sstatus, SUM))
  }

  /** The iterative algorithm of section 4.3.2, from level i with table base a: the outcome,
      and memory with A and D set in the leaf that was reached. */
  ghost function Standard(m: Flat, c: Regime, va: u32, acc: Access, i: nat, a: int): (Outcome, Flat)
    requires i < 2
  {
    var vpn := if i == 1 then va / 0x40_0000 else va / 0x1000 % 0x400;
    var pte := WordAt(m, a + vpn * 4);
    var v, r, w, x := Bit(pte, 1), Bit(pte, 2), Bit(pte, 4), Bit(pte, 8);
    var fault := (PageFault(match acc case Fetch => 12 case Load => 13 case Store => 15, va), m);
    if !v || (!r && w) then fault
    else if !r && !x then
      if i == 0 then fault else Standard(m, c, va, acc, i - 1, pte / 0x400 * 0x1000)
    else if !Allowed(c, pte, acc) || (i == 1 && pte / 0x400 % 0x400 != 0) then fault
    else
      var ppn := if i == 1 then pte / 0x10_0000 * 0x400 + va / 0x1000 % 0x400 else pte / 0x400;
      (Ok(W(ppn * 0x1000 + va % 0x1000)), WithWord(m, W(a + vpn * 4), Marked(pte, acc == Store)))
  }

  lemma MarkedIs(pte: u32, store: bool)
    ensures WithAd(pte, store) == Marked(pte, store)
  {
    AdBits(pte, store);
    var a, d := pte / 0x40 % 2, pte / 0x80 % 2;
    assert pte / 0x40 / 2 == pte / 0x80;
  }

  /** The standard's physical address of a leaf is frame base plus offset. */
  lemma LeafAddress(pte: u32, va: u32)
    ensures W((pte / 0x10_0000 * 0x400 + va / 0x1000 % 0x400) * 0x1000 + va % 0x1000) ==
              W(W(pte / 0x10_0000 * 0x40_0000) + va % 0x40_0000)
    ensures W(pte / 0x400 * 0x1000 + va % 0x1000) == W(W(pte / 0x400 * 0x1000) + va % 0x1000)
  {
    assert va % 0x40_0000 == va / 0x1000 % 0x400 * 0x1000 + va % 0x1000;
    hide W;
    WAdd(pte / 0x10_0000 * 0x40_0000, va % 0x40_0000);
    WAdd(pte / 0x400 * 0x1000, va % 0x1000);
  }

  lemma AllowedIs(c: Regime, pte: u32, acc: Access)
    requires 0 <= c.priv <= 2
    ensures Permitted(c, pte, acc) <==>
              if c.priv <= 1 then Allowed(c, pte, acc)
              else Allowed(c.(priv := 0), pte, acc) || Allowed(c.(priv := 1), pte, acc)
  {
    hide Bit;
  }

  /** The outcome and the memory of a walk of the tables that satp names. */
  ghost function Walked(m: Flat, c: Regime, va: u32, acc: Access): (Outcome, Flat) {
    Standard(m, c, va, acc, 1, c.satp % 0x40_0000 * 0x1000)
  }

  /** What reaching the leaf w comes to. */
  ghost function Reached(m: Flat, va: u32, acc: Access, w: Walk): (Outcome, Flat)
    requires w != Fault
  {
    (Ok(W(Base(w) + va % (if w.Super? then 0x40_0000 else 0x1000))), WithWord(m, w.at, WithAd(w.pte, acc == Store)))
  }

  /** The standard's walk is the leaf the tables lead to, with its permission rule. */
  lemma WalkedLeaf(m: Flat, c: Regime, va: u32, acc: Access)
    ensures var w := LeafOf(m, c.satp, va);
            Walked(m, c, va, acc) ==
              if w == Fault || !Allowed(c, w.pte, acc) then (PageFault(Cause(acc), va), m) else Reached(m, va, acc, w)
  {
    hide WordAt, Bit, W, WithWord, WithAd, Marked, Allowed;
    var p1 := c.satp % 0x40_0000 * 0x1000 + va / 0x40_0000 * 4;
    WordAtMod(m, p1);
    var pte1 := WordAt(m, p1);
    var p0 := pte1 / 0x400 * 0x1000 + va / 0x1000 % 0x400 * 4;
    WordAtMod(m, p0);
    var pte0 := WordAt(m, p0);
    LeafAddress(pte1, va);
    LeafAddress(pte0, va);
    MarkedIs(pte1, acc == Store);
    MarkedIs(pte0, acc == Store);
    var fault := (PageFault(Cause(acc), va), m);
    assert Standard(m, c, va, acc, 0, pte1 / 0x400 * 0x1000) ==
           if Invalid(pte0) || !Leaf(pte0) || !Allowed(c, pte0, acc) then fault else Reached(m, va, acc, Page(W(p0), pte0));
  }

  lemma FreshLeaf(m: Flat, c: Regime, va: u32, acc: Access)
    ensures (Fresh(m, c, va, acc), After(m, c, va, acc)) ==
              if c.priv == 3 || c.satp < 0x8000_0000 then (Ok(va), m)
              else
                var w := LeafOf(m, c.satp, va);
                if w == Fault || !Permitted(c, w.pte, acc) then (PageFault(Cause(acc), va), m) else Reached(m, va, acc, w)
  {
    hide Bit, LeafOf, Base, WithWord, WithAd, W, Permitted;
    Mode(c.satp);
  }

  lemma Mode(satp: u32)
    ensures Bit(satp, 0x8000_0000) <==> satp >= 0x8000_0000
  {
  }

  /** Main result: in M-mode, or with MODE 0, addresses are physical and memory stays.
      Otherwise the simulator's walk, marks included, is the standard's for the two modes
      that use Sv32, with physical addresses truncated to the 32 bits the simulator has.
      The reserved privilege has the rights of both. */
  lemma FreshMeetsStandard(m: Flat, c: Regime, va: u32, acc: Access)
    requires 0 <= c.priv <= 3
    ensures (Fresh(m, c, va, acc), After(m, c, va, acc)) ==
              if c.priv == 3 || c.satp < 0x8000_0000 then (Ok(va), m)
              else if c.priv <= 1 then Walked(m, c, va, acc)
              else
                var user, system := Walked(m, c.(priv := 0), va, acc), Walked(m, c.(priv := 1), va, acc);
                if user.0.Ok? then user else system
  {
    hide Fresh, After, LeafOf, Permitted, Allowed, Walked, Base, WithWord, WithAd, W;
    FreshLeaf(m, c, va, acc);
    WalkedLeaf(m, c, va, acc);
    WalkedLeaf(m, c.(priv := 0), va, acc);
    WalkedLeaf(m, c.(priv := 1), va, acc);
    var w := LeafOf(m, c.satp, va);
    if c.priv != 3 && w != Fault {
      AllowedIs(c, w.pte, acc);
    }
  }

  lemma WordAtMod(m: Flat, a: int)
    ensures WordAt(m, W(a)) == WordAt(m, a)
  {
    hide W, Le32;
    WId(W(a));
    WAdd(a, 1);
    WAdd(a, 2);
    WAdd(a, 3);
  }
}
