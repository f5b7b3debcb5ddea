/** The software TLBs: what their keys identify and what their entries promise. */
module Tlb {
  import opened Words
  import opened FlatMemory
  import opened Sv32

  function Code(acc: Access): int {
    match acc case Fetch => 0 case Load => 1 case Store => 2
  }

  /** access << n | priv << (n-1), in units of 1 << (n-1).  The upper bit of a
      privilege of 2 is or-ed into the access code. */
  function Tag(acc: Access, priv: int): int {
    var code := if priv / 2 % 2 == 1 && Code(acc) % 2 == 0 then Code(acc) + 1 else Code(acc);
    2 * code + priv % 2
  }

  function Key4k(acc: Access, priv: int, va: u32): int { Tag(acc, priv) * 0x10_0000 + va / 0x1000 }

  function Key4m(acc: Access, priv: int, va: u32): int { Tag(acc, priv) * 0x400 + va / 0x40_0000 }

  /** Requests whose keys are not their own: reserved privilege 2 confuses fetches
      with loads, and both with user loads. */
  predicate Confused(acc: Access, priv: int) {
    (acc == Load && priv == 0) || (acc != Store && priv == 2)
  }

  /** Two requests share a key exactly when they are for the same page and either
      are the same kind of request or are both confused ones. */
  lemma KeysCollide(acc: Access, priv: int, va: u32, acc': Access, priv': int, va': u32)
    requires 0 <= priv <= 2 && 0 <= priv' <= 2
    ensures Key4k(acc, priv, va) == Key4k(acc', priv', va') <==>
              va / 0x1000 == va' / 0x1000 &&
              ((acc == acc' && priv == priv') || (Confused(acc, priv) && Confused(acc', priv')))
    ensures Key4m(acc, priv, va) == Key4m(acc', priv', va') <==>
              va / 0x40_0000 == va' / 0x40_0000 &&
              ((acc == acc' && priv == priv') || (Confused(acc, priv) && Confused(acc', priv')))
  {
    TagsCollide(acc, priv, acc', priv');
    hide Tag;
    assert 0 <= va / 0x1000 < 0x10_0000 && 0 <= va' / 0x1000 < 0x10_0000;
    assert 0 <= va / 0x40_0000 < 0x400 && 0 <= va' / 0x40_0000 < 0x400;
  }

  lemma TagsCollide(acc: Access, priv: int, acc': Access, priv': int)
    requires 0 <= priv <= 2 && 0 <= priv' <= 2
    ensures Tag(acc, priv) == Tag(acc', priv') <==>
              ((acc == acc' && priv == priv') || (Confused(acc, priv) && Confused(acc', priv')))
  {
  }

  // ---------------------------------------------------------------- entries

  /** In the reserved privilege a fetch and a load have one key, so an entry made by one of
      them answers the other. */
  predicate Shared(c: Regime, acc: Access) { c.priv == 2 && acc != Store }

  /** The tables lead to a leaf of this size and base, already marked for this access, by
      the given entries; the access is permitted, unless its key is shared. */
  ghost predicate Backs(m: Flat, c: Regime, va: u32, acc: Access, super: bool, base: u32, used: set<u32>) {
    var w := LeafOf(m, c.satp, va);
    && (if super then w.Super? else w.Page?)
    && Base(w) == base
    && Bit(w.pte, 0x40) && (acc == Store ==> Bit(w.pte, 0x80))
    && (Shared(c, acc) || Permitted(c, w.pte, acc))
    && Reads(m, c.satp, va) <= used
  }

  ghost predicate Backed4k(m: Flat, c: Regime, t: map<int, u32>, used: set<u32>) {
    forall acc: Access, va: u32 :: Key4k(acc, c.priv, va) in t ==>
      Backs(m, c, va, acc, false, t[Key4k(acc, c.priv, va)], used)
  }

  ghost predicate Backed4m(m: Flat, c: Regime, t: map<int, u32>, used: set<u32>) {
    forall acc: Access, va: u32 :: Key4m(acc, c.priv, va) in t ==>
      Backs(m, c, va, acc, true, t[Key4m(acc, c.priv, va)], used)
  }

  /** A slot remembers the last hit of its dictionary, or holds no key (-1). */
  predicate SlotOf(key: int, base: u32, t: map<int, u32>) {
    key == -1 || (key in t && t[key] == base)
  }

  lemma KeysNotSentinel(acc: Access, priv: int, va: u32)
    requires 0 <= priv <= 3
    ensures Key4k(acc, priv, va) >= 0 && Key4m(acc, priv, va) >= 0
  {
  }

  lemma MarkedFixed(pte: u32, store: bool)
    requires Bit(pte, 0x40) && (store ==> Bit(pte, 0x80))
    ensures WithAd(pte, store) == pte
  {
  }

  /** What a hit answers is the leaf's address, and a walk would write nothing.  The walk
      answers the same if and only if the access is permitted there. */
  lemma HitIsWalk(m: Flat, c: Regime, va: u32, acc: Access, super: bool, base: u32, used: set<u32>)
    requires Active(c) && Backs(m, c, va, acc, super, base, used)
    ensures Fresh(m, c, va, acc) ==
              if Permitted(c, LeafOf(m, c.satp, va).pte, acc) then Ok(W(base + va % (if super then 0x40_0000 else 0x1000)))
              else PageFault(Cause(acc), va)
    ensures !Shared(c, acc) ==> Permitted(c, LeafOf(m, c.satp, va).pte, acc)
    ensures After(m, c, va, acc) == m
    ensures Reads(m, c.satp, va) <= used
  {
    hide WordAt, WithWord, WithAd, Bit, Permitted, LeafOf;
    var w := LeafOf(m, c.satp, va);
    MarkedFixed(w.pte, acc == Store);
    LeafReadsAt(m, c.satp, va);
    WithWordSame(m, w.at);
  }

  /** Entries survive any change of memory that keeps the table words they used. */
  lemma BacksKept(m: Flat, n: Flat, c: Regime, va: u32, acc: Access, super: bool, base: u32, used: set<u32>, used': set<u32>)
    requires Backs(m, c, va, acc, super, base, used)
    requires Kept(m, n, used) && used <= used'
    ensures Backs(n, c, va, acc, super, base, used')
  {
    hide WordAt, Bit, Core, LeafOf, Reads, Base;
    ReadsDependOnCores(m, n, c.satp, va);
    var v, w := LeafOf(m, c.satp, va), LeafOf(n, c.satp, va);
    SimilarBase(v, w);
    CoreDetermines(v.pte, w.pte);
    LeafReadsAt(m, c.satp, va);
    LeafReadsAt(n, c.satp, va);
    ReadsAligned(m, c.satp, va);
  }

  lemma BackedKept(m: Flat, n: Flat, c: Regime, t4k: map<int, u32>, t4m: map<int, u32>, used: set<u32>, used': set<u32>)
    requires Backed4k(m, c, t4k, used) && Backed4m(m, c, t4m, used)
    requires Kept(m, n, used) && used <= used'
    ensures Backed4k(n, c, t4k, used') && Backed4m(n, c, t4m, used')
  {
    hide Backs, Kept, Tag;
    forall acc: Access, va: u32 | Key4k(acc, c.priv, va) in t4k
      ensures Backs(n, c, va, acc, false, t4k[Key4k(acc, c.priv, va)], used')
    {
      BacksKept(m, n, c, va, acc, false, t4k[Key4k(acc, c.priv, va)], used, used');
    }
    forall acc: Access, va: u32 | Key4m(acc, c.priv, va) in t4m
      ensures Backs(n, c, va, acc, true, t4m[Key4m(acc, c.priv, va)], used')
    {
      BacksKept(m, n, c, va, acc, true, t4m[Key4m(acc, c.priv, va)], used, used');
    }
  }

  /** All addresses of one page, or of one superpage, lead to the same leaf. */
  lemma LeafOfPage(m: Flat, satp: u32, va: u32, va': u32)
    requires LeafOf(m, satp, va) != Fault
    requires if LeafOf(m, satp, va).Super? then va / 0x40_0000 == va' / 0x40_0000 else va / 0x1000 == va' / 0x1000
    ensures LeafOf(m, satp, va') == LeafOf(m, satp, va) && Reads(m, satp, va') == Reads(m, satp, va)
  {
    hide WordAt, Bit;
    assert va / 0x40_0000 == va' / 0x40_0000 by { PageOfSuper(va); PageOfSuper(va'); }
    if LeafOf(m, satp, va).Page? {
      assert Second(WordAt(m, Root(satp, va)), va) == Second(WordAt(m, Root(satp, va')), va');
    }
  }

  /** What is right for one address and access is right for its page, and for the other
      access of a shared key. */
  lemma BacksPage(m: Flat, c: Regime, va: u32, va': u32, acc: Access, acc': Access, super: bool, base: u32, used: set<u32>)
    requires Backs(m, c, va, acc, super, base, used)
    requires if super then va / 0x40_0000 == va' / 0x40_0000 else va / 0x1000 == va' / 0x1000
    requires acc == acc' || (Shared(c, acc) && Shared(c, acc'))
    ensures Backs(m, c, va', acc', super, base, used)
  {
    hide LeafOf, Bit, Base, Permitted;
    LeafOfPage(m, c.satp, va, va');
  }

  lemma PageOfSuper(va: u32)
    ensures va / 0x40_0000 == va / 0x1000 / 0x400
  {
  }

  /** What a completed walk puts into a dictionary is backed, and what was there
      stays backed although the walk marked its leaf. */
  lemma Insert(m: Flat, c: Regime, va: u32, acc: Access, t4k: map<int, u32>, t4m: map<int, u32>, used: set<u32>)
    requires Active(c) && 0 <= c.priv <= 2 && WalkOf(m, c, va, acc) != Fault
    requires Backed4k(m, c, t4k, used) && Backed4m(m, c, t4m, used)
    requires forall a :: a in used ==> a % 4 == 0
    ensures var n := After(m, c, va, acc);
            var w := WalkOf(m, c, va, acc);
            var used' := used + Reads(m, c.satp, va);
            && Backed4k(n, c, if w.Page? then t4k[Key4k(acc, c.priv, va) := Base(w)] else t4k, used')
            && Backed4m(n, c, if w.Super? then t4m[Key4m(acc, c.priv, va) := Base(w)] else t4m, used')
  {
    hide WordAt, WithWord, WithAd, Bit, Core, Base, Key4k, Key4m, LeafOf, Reads, Permitted;
    var n, w := After(m, c, va, acc), WalkOf(m, c, va, acc);
    var used' := used + Reads(m, c.satp, va);
    ReadsAligned(m, c.satp, va);
    LeafReadsAt(m, c.satp, va);
    MarkingKeeps(m, w.at, acc == Store, used');
    WalkDependsOnCores(m, n, c, va, acc);
    AfterMarks(m, c, va, acc);
    BackedKept(m, n, c, t4k, t4m, used, used');
    assert Backs(n, c, va, acc, w.Super?, Base(w), used');
    hide Backs;
    forall acc': Access, va': u32 |
      if w.Super? then Key4m(acc, c.priv, va) == Key4m(acc', c.priv, va')
      else Key4k(acc, c.priv, va) == Key4k(acc', c.priv, va')
      ensures Backs(n, c, va', acc', w.Super?, Base(w), used')
    {
      KeysCollide(acc, c.priv, va, acc', c.priv, va');
      BacksPage(n, c, va, va', acc, acc', w.Super?, Base(w), used');
    }
  }

  /** What a completed walk needs and gives, backed or not. */
  lemma Miss(m: Flat, c: Regime, va: u32, acc: Access, t4k: map<int, u32>, t4m: map<int, u32>, used: set<u32>)
    requires Active(c) && 0 <= c.priv <= 3 && WalkOf(m, c, va, acc) != Fault
    requires forall a :: a in used ==> a % 4 == 0
    ensures var w := WalkOf(m, c, va, acc);
            && WordAt(m, w.at) == w.pte
            && After(m, c, va, acc) == WithWord(m, w.at, WithAd(w.pte, acc == Store))
            && Fresh(m, c, va, acc) == Ok(W(Base(w) + va % (if w.Super? then 0x40_0000 else 0x1000)))
    ensures forall a :: a in used + Reads(m, c.satp, va) ==> a % 4 == 0
    ensures Backed4k(m, c, t4k, used) && Backed4m(m, c, t4m, used) ==>
              var w := WalkOf(m, c, va, acc);
              && Backed4k(After(m, c, va, acc), c,
                          if w.Page? then t4k[Key4k(acc, c.priv, va) := Base(w)] else t4k, used + Reads(m, c.satp, va))
              && Backed4m(After(m, c, va, acc), c,
                          if w.Super? then t4m[Key4m(acc, c.priv, va) := Base(w)] else t4m, used + Reads(m, c.satp, va))
  {
    hide WordAt, WithWord, WithAd, LeafOf, Reads, W, Base, Key4k, Key4m, Backed4k, Backed4m, Permitted;
    ReadsAligned(m, c.satp, va);
    LeafReadsAt(m, c.satp, va);
    if Backed4k(m, c, t4k, used) && Backed4m(m, c, t4m, used) {
      Insert(m, c, va, acc, t4k, t4m, used);
    }
  }

  /** What the dictionaries answer, the 4 KiB one first. */
  function Hit(t4k: map<int, u32>, t4m: map<int, u32>, acc: Access, priv: int, va: u32): Option<u32> {
    if Key4k(acc, priv, va) in t4k then Some(W(t4k[Key4k(acc, priv, va)] + va % 0x1000))
    else if Key4m(acc, priv, va) in t4m then Some(W(t4m[Key4m(acc, priv, va)] + va % 0x40_0000))
    else None
  }

  /** The key under which a completed walk enters its leaf, in either dictionary. */
  ghost function Entered4k(m: Flat, c: Regime, va: u32, acc: Access): set<int> {
    if Active(c) && WalkOf(m, c, va, acc).Page? then {Key4k(acc, c.priv, va)} else {}
  }

  ghost function Entered4m(m: Flat, c: Regime, va: u32, acc: Access): set<int> {
    if Active(c) && WalkOf(m, c, va, acc).Super? then {Key4m(acc, c.priv, va)} else {}
  }

  /** While the dictionaries are backed a hit is the fresh walk if and only if the access is
      permitted at the leaf; only in the reserved privilege can it be anything else. */
  lemma HitIsFresh(m: Flat, c: Regime, t4k: map<int, u32>, t4m: map<int, u32>, used: set<u32>, va: u32, acc: Access)
    requires Active(c) && Backed4k(m, c, t4k, used) && Backed4m(m, c, t4m, used)
    requires Hit(t4k, t4m, acc, c.priv, va).Some?
    ensures LeafOf(m, c.satp, va) != Fault
    ensures Fresh(m, c, va, acc) == if Permitted(c, LeafOf(m, c.satp, va).pte, acc) then Ok(Hit(t4k, t4m, acc, c.priv, va).value)
                                    else PageFault(Cause(acc), va)
    ensures !Shared(c, acc) ==> Permitted(c, LeafOf(m, c.satp, va).pte, acc)
    ensures After(m, c, va, acc) == m
    ensures Reads(m, c.satp, va) <= used
    ensures Entered4k(m, c, va, acc) <= t4k.Keys && Entered4m(m, c, va, acc) <= t4m.Keys
  {
    hide Key4k, Key4m, W, LeafOf, Fresh, After, Permitted, Bit, Base;
    if Key4k(acc, c.priv, va) in t4k {
      HitIsWalk(m, c, va, acc, false, t4k[Key4k(acc, c.priv, va)], used);
    } else {
      HitIsWalk(m, c, va, acc, true, t4m[Key4m(acc, c.priv, va)], used);
    }
  }

  /** What the entry a walk leaves behind answers to any request that finds it, in any
      privilege and for both page sizes: the fresh walk, if and only if the leaf permits the
      request.  Below the reserved privilege it always does. */
  lemma EntryAnswers(m: Flat, c: Regime, va: u32, acc: Access, va': u32, acc': Access)
    requires Active(c) && 0 <= c.priv <= 2 && WalkOf(m, c, va, acc) != Fault
    requires if WalkOf(m, c, va, acc).Super? then Key4m(acc, c.priv, va) == Key4m(acc', c.priv, va')
             else Key4k(acc, c.priv, va) == Key4k(acc', c.priv, va')
    ensures var w, n := WalkOf(m, c, va, acc), After(m, c, va, acc);
            && (Fresh(n, c, va', acc') == Ok(W(Base(w) + va' % (if w.Super? then 0x40_0000 else 0x1000))) <==>
                  Permitted(c, w.pte, acc'))
            && (c.priv != 2 ==> Permitted(c, w.pte, acc'))
            && After(n, c, va', acc') == n
  {
    hide WordAt, WithWord, WithAd, Bit, Core, Key4k, Key4m, LeafOf, Reads, W, Fresh, After, Permitted;
    var w, n := WalkOf(m, c, va, acc), After(m, c, va, acc);
    AfterKeeps(m, c, va, acc, c, va, acc);
    WalkDependsOnCores(m, n, c, va, acc);
    AfterMarks(m, c, va, acc);
    var v := LeafOf(n, c.satp, va);
    CoreDetermines(w.pte, v.pte);
    KeysCollide(acc, c.priv, va, acc', c.priv, va');
    BacksPage(n, c, va, va', acc, acc', w.Super?, Base(w), Reads(n, c.satp, va));
    PageOfSuper(va);
    PageOfSuper(va');
    LeafOfPage(n, c.satp, va, va');
    hide Base;
    HitIsWalk(n, c, va', acc', w.Super?, Base(w), Reads(n, c.satp, va));
  }
}
