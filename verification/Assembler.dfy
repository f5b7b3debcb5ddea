/** The two passes of the assembler over parsed items.  The first lays labels out from
    estimated sizes; the second emits words and resolves labels against that layout. */
module Assembler {
  import opened Words
  import opened Isa
  import opened Encoding

  /** An operand: a numeral, or a name, which is not a numeral. */
  datatype Token = Num(n: int) | Name(name: string)

  datatype Item =
    | Label(name: string)
    | Org(address: int)
    | Word(ops: seq<Token>)
    | Zero(count: int)
    | Li(rd: int, imm: Token)
    | Branch(funct3: int, rs1: int, rs2: int, target: Token)
    | BranchBy(funct3: int, rs1: int, offset: Token)
    | Jump(rd: int, offset: Token)
    | IType(imm: Token, rs1: int, funct3: int, rd: int, opcode: int)
    | SType(imm: Token, rs2: int, rs1: int, funct3: int, opcode: int)
    | UType(imm: Token, rd: int, opcode: int)
    | RType(funct7: int, rs2: int, rs1: int, funct3: int, rd: int, opcode: int)
    | Amo(funct5: int, rd: int, rs1: int, rs2: int, aq: int, rl: int)
    | Fixed(word: u32)

  type Symbols = map<string, int>

  // ---------------------------------------------------------------- sizes

  /** `estimate_words`: None is an assembler error. */
  function Estimate(item: Item): Option<nat> {
    match item
    case Label(_) => Some(0)
    case Org(_) => Some(0)
    case Word(ops) => Some(|ops|)
    case Zero(count) => if count < 0 then None else Some((count + 3) / 4)
    case Li(_, imm) => if imm.Num? then Some(if FitsSigned(imm.n, 0x1000) then 1 else 2) else None
    case _ => Some(1)
  }

  /** The first pass's pc after an item. */
  function Advance(pc: nat, item: Item): Option<nat> {
    if item.Org? then (if item.address < pc then None else Some(item.address))
    else
      var n := Estimate(item);
      if n.None? then None else Some(pc + 4 * n.value)
  }

  /** The first pass's pc before item i. */
  function Layout(items: seq<Item>, i: nat): Option<nat>
    requires i <= |items|
  {
    if i == 0 then Some(0)
    else
      var pc := Layout(items, i - 1);
      if pc.None? then None else Advance(pc.value, items[i - 1])
  }

  /** The symbol table after the first i items. */
  function Table(items: seq<Item>, i: nat): Symbols
    requires i <= |items|
  {
    if i == 0 then map[]
    else if items[i - 1].Label? && Layout(items, i - 1).Some? then
      Table(items, i - 1)[items[i - 1].name := Layout(items, i - 1).value]
    else Table(items, i - 1)
  }

  // ---------------------------------------------------------------- words

  function Resolve(symbols: Symbols, t: Token): Option<int> {
    match t
    case Num(n) => Some(n)
    case Name(name) => if name in symbols then Some(symbols[name]) else None
  }

  /** A name is an absolute target; a numeral is already an offset. */
  function ResolveOffset(symbols: Symbols, t: Token, pc: nat): Option<int> {
    match t
    case Num(n) => Some(n)
    case Name(name) => if name in symbols then Some(symbols[name] - pc) else None
  }

  function ResolveAll(symbols: Symbols, ops: seq<Token>): Option<seq<u32>> {
    if ops == [] then Some([])
    else
      var rest := ResolveAll(symbols, ops[..|ops| - 1]);
      var last := Resolve(symbols, ops[|ops| - 1]);
      if rest.None? || last.None? then None else Some(rest.value + [W(last.value)])
  }

  function One(w: Option<u32>): Option<seq<u32>> {
    if w.None? then None else Some([w.value])
  }

  /** `encode_stmt` at pc. */
  function Encode(symbols: Symbols, item: Item, pc: nat): Option<seq<u32>> {
    match item
    case Label(_) => Some([])
    case Org(_) => Some([])
    case Word(ops) => ResolveAll(symbols, ops)
    case Zero(count) => if count < 0 then None else Some(seq((count + 3) / 4, _ => 0 as u32))
    case Li(rd, imm) =>
      var v := Resolve(symbols, imm);
      if v.None? then None else Some(EncodeLi(rd, v.value))
    case Branch(funct3, rs1, rs2, target) =>
      var v := Resolve(symbols, target);
      if v.None? then None else One(EncodeB(v.value - pc, rs2, rs1, funct3, 0x63))
    case BranchBy(funct3, rs1, offset) =>
      var v := ResolveOffset(symbols, offset, pc);
      if v.None? then None else One(EncodeB(v.value, 0, rs1, funct3, 0x63))
    case Jump(rd, offset) =>
      var v := ResolveOffset(symbols, offset, pc);
      if v.None? then None else One(EncodeJ(v.value, rd, 0x6F))
    case IType(imm, rs1, funct3, rd, opcode) =>
      var v := Resolve(symbols, imm);
      if v.None? then None else Some([EncodeI(v.value, rs1, funct3, rd, opcode)])
    case SType(imm, rs2, rs1, funct3, opcode) =>
      var v := Resolve(symbols, imm);
      if v.None? then None else Some([EncodeS(v.value, rs2, rs1, funct3, opcode)])
    case UType(imm, rd, opcode) =>
      var v := Resolve(symbols, imm);
      if v.None? then None else Some([EncodeU(v.value, rd, opcode)])
    case RType(funct7, rs2, rs1, funct3, rd, opcode) => Some([EncodeR(funct7, rs2, rs1, funct3, rd, opcode)])
    case Amo(funct5, rd, rs1, rs2, aq, rl) => Some([EncodeAmo(funct5, rd, rs1, rs2, aq, rl)])
    case Fixed(word) => Some([word])
  }

  /** Zero words from pc until it is not below the target: the second pass's .org. */
  function Padding(pc: nat, target: int): nat {
    if target <= pc then 0 else (target - pc + 3) / 4
  }

  /** The words of the first i items; the second pass's pc is four times their number. */
  function Emitted(symbols: Symbols, items: seq<Item>, i: nat): Option<seq<u32>>
    requires i <= |items|
  {
    if i == 0 then Some([])
    else
      var before := Emitted(symbols, items, i - 1);
      if before.None? then None
      else
        var pc, item := 4 * |before.value|, items[i - 1];
        if item.Org? then
          if item.address < pc then None
          else Some(before.value + seq(Padding(pc, item.address), _ => 0 as u32))
        else
          var ws := Encode(symbols, item, pc);
          if ws.None? then None else Some(before.value + ws.value)
  }

  // ---------------------------------------------------------------- agreement

  /** The two things the passes must agree on: .org targets on a word boundary, and
      `li` immediates that fit 12 bits before reduction to 32 bits exactly when they
      do after. */
  predicate Agrees(item: Item) {
    && (item.Org? ==> item.address % 4 == 0)
    && (item.Li? && item.imm.Num? ==>
          (FitsSigned(item.imm.n, 0x1000) <==> FitsSigned(Signed(item.imm.n), 0x1000)))
  }

  lemma LiSize(rd: int, imm: int)
    ensures |EncodeLi(rd, imm)| == if FitsSigned(Signed(imm), 0x1000) then 1 else 2
  {
    hide EncodeI, EncodeU, Sext;
    WId(W(imm));
  }

  /** An li immediate on which the passes disagree fits only after reduction. */
  lemma LiDisagreement(imm: int)
    ensures (FitsSigned(imm, 0x1000) <==> FitsSigned(Signed(imm), 0x1000)) <==>
              FitsSigned(imm, 0x1000) || !FitsSigned(Signed(imm), 0x1000)
    ensures FitsSigned(imm, 0x1000) ==> Signed(imm) == imm
  {
  }

  lemma {:induction false} ResolveAllSize(symbols: Symbols, ops: seq<Token>)
    ensures ResolveAll(symbols, ops).Some? ==> |ResolveAll(symbols, ops).value| == |ops|
    decreases |ops|
  {
    if ops != [] {
      ResolveAllSize(symbols, ops[..|ops| - 1]);
    }
  }

  lemma PaddingReaches(pc: nat, target: int)
    requires pc % 4 == 0 && target >= pc
    ensures pc + 4 * Padding(pc, target) == target <==> target % 4 == 0
    ensures 0 <= pc + 4 * Padding(pc, target) - target < 4
  {
  }

  /** From a common pc, an item takes both passes to a common pc exactly when it agrees. */
  lemma ItemAgrees(symbols: Symbols, items: seq<Item>, i: nat)
    requires i < |items|
    requires Layout(items, i + 1).Some? && Emitted(symbols, items, i + 1).Some?
    requires Layout(items, i).value == 4 * |Emitted(symbols, items, i).value|
    ensures Layout(items, i + 1).value == 4 * |Emitted(symbols, items, i + 1).value| <==> Agrees(items[i])
  {
    hide EncodeLi, EncodeB, EncodeJ, EncodeI, EncodeS, EncodeU, EncodeR, EncodeAmo, FitsSigned, Signed;
    match items[i]
    case Word(ops) => ResolveAllSize(symbols, ops);
    case Li(rd, imm) =>
      if imm.Num? {
        LiSize(rd, imm.n);
      }
    case Org(target) => PaddingReaches(Layout(items, i).value, target);
    case _ =>
  }

  /** Main result: when both passes succeed, they are at the same address before every
      item exactly when every item agrees. */
  lemma {:induction false} PassesAgree(symbols: Symbols, items: seq<Item>, n: nat)
    requires n <= |items|
    requires Layout(items, n).Some? && Emitted(symbols, items, n).Some?
    ensures forall i :: 0 <= i <= n ==> Layout(items, i).Some? && Emitted(symbols, items, i).Some?
    ensures (forall i :: 0 <= i <= n ==> SamePc(symbols, items, i)) <==> forall i :: 0 <= i < n ==> Agrees(items[i])
    decreases n
  {
    hide Agrees, Encode, Advance;
    if n > 0 {
      PassesAgree(symbols, items, n - 1);
      if SamePc(symbols, items, n - 1) {
        ItemAgrees(symbols, items, n - 1);
      }
      assert (forall i :: 0 <= i <= n ==> SamePc(symbols, items, i)) <==>
        (forall i :: 0 <= i <= n - 1 ==> SamePc(symbols, items, i)) && SamePc(symbols, items, n);
    }
  }

  ghost predicate SamePc(symbols: Symbols, items: seq<Item>, i: nat)
    requires i <= |items|
  {
    Layout(items, i).Some? && Emitted(symbols, items, i).Some?
    && Layout(items, i).value == 4 * |Emitted(symbols, items, i).value|
  }

  /** Labels are distinct: the parser refuses a duplicate. */
  predicate Distinct(items: seq<Item>) {
    forall i, j :: 0 <= i < j < |items| && items[i].Label? && items[j].Label? ==> items[i].name != items[j].name
  }

  lemma {:induction false} LabelEntry(items: seq<Item>, l: nat, n: nat)
    requires l < n <= |items| && items[l].Label? && Distinct(items)
    requires Layout(items, n).Some?
    ensures Layout(items, l).Some?
    ensures items[l].name in Table(items, n) && Table(items, n)[items[l].name] == Layout(items, l).value
    decreases n
  {
    hide Advance;
    if n - 1 > l {
      LabelEntry(items, l, n - 1);
    }
  }

  /** Every label of an agreeing program names the place where the words after it
      begin in the image. */
  lemma LabelsAreRight(items: seq<Item>, l: nat)
    requires l < |items| && items[l].Label? && Distinct(items)
    requires forall i :: 0 <= i < |items| ==> Agrees(items[i])
    requires Layout(items, |items|).Some? && Emitted(Table(items, |items|), items, |items|).Some?
    ensures var symbols := Table(items, |items|);
            && items[l].name in symbols
            && Emitted(symbols, items, l).Some?
            && symbols[items[l].name] == 4 * |Emitted(symbols, items, l).value|
  {
    hide Agrees;
    var symbols := Table(items, |items|);
    PassesAgree(symbols, items, |items|);
    assert SamePc(symbols, items, l);
    LabelEntry(items, l, |items|);
  }

  /** The word at item i's place in the image is the one encoded for it. */
  lemma {:induction false} ImageAt(symbols: Symbols, items: seq<Item>, i: nat, n: nat)
    requires i < n <= |items| && Emitted(symbols, items, n).Some?
    ensures Emitted(symbols, items, i).Some? && Emitted(symbols, items, i + 1).Some?
    ensures Emitted(symbols, items, i + 1).value <= Emitted(symbols, items, n).value
    decreases n
  {
    hide Encode;
    if n - 1 > i {
      ImageAt(symbols, items, i, n - 1);
    }
  }

  /** Main result: in an agreeing program, the branch to a label, as it stands in the
      image, decodes to an instruction that lands where that label's words begin
      exactly when the label is within the branch's reach. */
  lemma BranchLands(items: seq<Item>, b: nat, l: nat)
    requires b < |items| && items[b].Branch? && l < |items| && items[l].Label?
    requires items[b].target == Name(items[l].name) && InRange(0, items[b].rs2, items[b].rs1, items[b].funct3, 0, 0x63)
    requires Distinct(items) && forall i :: 0 <= i < |items| ==> Agrees(items[i])
    requires Layout(items, |items|).Some? && Emitted(Table(items, |items|), items, |items|).Some?
    ensures var symbols := Table(items, |items|);
            var image := Emitted(symbols, items, |items|).value;
            && Emitted(symbols, items, b).Some? && Emitted(symbols, items, l).Some?
            && var k, target := |Emitted(symbols, items, b).value|, |Emitted(symbols, items, l).value|;
               && k < |image|
               && var d := DecodeOf(image[k]);
                  && (d.opcode, d.funct3, d.rs1, d.rs2) == (0x63, items[b].funct3, items[b].rs1, items[b].rs2)
                  && (4 * k + d.immB == 4 * target <==> FitsSigned(4 * target - 4 * k, 0x2000))
  {
    hide DecodeOf, EncodeB, Agrees, FitsSigned;
    var symbols := Table(items, |items|);
    LabelsAreRight(items, l);
    ImageAt(symbols, items, b, |items|);
    var k := |Emitted(symbols, items, b).value|;
    var offset := symbols[items[l].name] - 4 * k;
    DecodeB(offset, items[b].rs2, items[b].rs1, items[b].funct3, 0x63);
    assert Emitted(symbols, items, b + 1).value[k] == EncodeB(offset, items[b].rs2, items[b].rs1, items[b].funct3, 0x63).value;
  }

  /** The same for the branches against zero, `beqz` and `bnez`. */
  lemma BranchByLands(items: seq<Item>, b: nat, l: nat)
    requires b < |items| && items[b].BranchBy? && l < |items| && items[l].Label?
    requires items[b].offset == Name(items[l].name) && InRange(0, 0, items[b].rs1, items[b].funct3, 0, 0x63)
    requires Distinct(items) && forall i :: 0 <= i < |items| ==> Agrees(items[i])
    requires Layout(items, |items|).Some? && Emitted(Table(items, |items|), items, |items|).Some?
    ensures var symbols := Table(items, |items|);
            var image := Emitted(symbols, items, |items|).value;
            && Emitted(symbols, items, b).Some? && Emitted(symbols, items, l).Some?
            && var k, target := |Emitted(symbols, items, b).value|, |Emitted(symbols, items, l).value|;
               && k < |image|
               && var d := DecodeOf(image[k]);
                  && (d.opcode, d.funct3, d.rs1, d.rs2) == (0x63, items[b].funct3, items[b].rs1, 0)
                  && (4 * k + d.immB == 4 * target <==> FitsSigned(4 * target - 4 * k, 0x2000))
  {
    hide DecodeOf, EncodeB, Agrees, FitsSigned;
    var symbols := Table(items, |items|);
    LabelsAreRight(items, l);
    ImageAt(symbols, items, b, |items|);
    var k := |Emitted(symbols, items, b).value|;
    var offset := symbols[items[l].name] - 4 * k;
    DecodeB(offset, 0, items[b].rs1, items[b].funct3, 0x63);
    assert Emitted(symbols, items, b + 1).value[k] == EncodeB(offset, 0, items[b].rs1, items[b].funct3, 0x63).value;
  }

  /** The same for jumps. */
  lemma JumpLands(items: seq<Item>, j: nat, l: nat)
    requires j < |items| && items[j].Jump? && l < |items| && items[l].Label?
    requires items[j].offset == Name(items[l].name) && 0 <= items[j].rd < 0x20
    requires Distinct(items) && forall i :: 0 <= i < |items| ==> Agrees(items[i])
    requires Layout(items, |items|).Some? && Emitted(Table(items, |items|), items, |items|).Some?
    ensures var symbols := Table(items, |items|);
            var image := Emitted(symbols, items, |items|).value;
            && Emitted(symbols, items, j).Some? && Emitted(symbols, items, l).Some?
            && var k, target := |Emitted(symbols, items, j).value|, |Emitted(symbols, items, l).value|;
               && k < |image|
               && var d := DecodeOf(image[k]);
                  && d.opcode == 0x6F && d.rd == items[j].rd
                  && (4 * k + d.immJ == 4 * target <==> FitsSigned(4 * target - 4 * k, 0x20_0000))
  {
    hide DecodeOf, EncodeJ, Agrees, FitsSigned;
    var symbols := Table(items, |items|);
    LabelsAreRight(items, l);
    ImageAt(symbols, items, j, |items|);
    var k := |Emitted(symbols, items, j).value|;
    var offset := symbols[items[l].name] - 4 * k;
    DecodeJ(offset, items[j].rd, 0x6F);
    assert Emitted(symbols, items, j + 1).value[k] == EncodeJ(offset, items[j].rd, 0x6F).value;
  }

  /** The known disagreement: `li rd, 0xFFFFFFFF` is sized as two words and emitted as
      one, so a label after it is four bytes too far. */
  lemma LiMinusOneDisagrees()
    ensures !Agrees(Li(5, Num(0xFFFF_FFFF)))
    ensures Estimate(Li(5, Num(0xFFFF_FFFF))) == Some(2) && |EncodeLi(5, 0xFFFF_FFFF)| == 1
  {
    hide EncodeLi;
    LiSize(5, 0xFFFF_FFFF);
    assert W(0xFFFF_FFFF) == 0xFFFF_FFFF;
  }

  // ---------------------------------------------------------------- the passes

  class TwoPass {
    const items: seq<Item>
    var symbols: Symbols

    constructor (items: seq<Item>)
      ensures this.items == items && symbols == map[]
    {
      this.items := items;
      symbols := map[];
    }

    /** `first_pass`: false is an assembler error. */
    method FirstPass() returns (ok: bool)
      requires symbols == map[]
      modifies this
      ensures ok <==> Layout(items, |items|).Some?
      ensures ok ==> symbols == Table(items, |items|)
    {
      hide FitsSigned, Estimate;
      var pc: nat := 0;
      for i := 0 to |items|
        invariant Layout(items, i) == Some(pc) && symbols == Table(items, i)
      {
        var item := items[i];
        match item {
          case Label(name) =>
            LabelSize(item);
            symbols := symbols[name := pc];
          case Org(target) =>
            if target < pc {
              LayoutFails(items, i + 1, |items|);
              return false;
            }
            pc := target;
          case _ =>
            var n := Estimate(item);
            if n.None? {
              LayoutFails(items, i + 1, |items|);
              return false;
            }
            pc := pc + 4 * n.value;
        }
      }
      ok := true;
    }

    /** `assemble`, after parsing: None is an assembler error. */
    method Assemble() returns (r: Option<seq<u32>>)
      requires symbols == map[]
      modifies this
      ensures r == if Layout(items, |items|).None? then None else Emitted(Table(items, |items|), items, |items|)
    {
      hide Encode;
      var ok := FirstPass();
      if !ok {
        return None;
      }
      var words: seq<u32>, pc: nat := [], 0;
      for i := 0 to |items|
        invariant symbols == Table(items, |items|)
        invariant Emitted(symbols, items, i) == Some(words) && pc == 4 * |words|
      {
        var item := items[i];
        if item.Label? {
          LabelWords(symbols, item, pc);
          assert words + [] == words;
        } else if item.Org? {
          if item.address < pc {
            EmittedFails(symbols, items, i + 1, |items|);
            return None;
          }
          ghost var was := words;
          while pc < item.address
            invariant pc == 4 * |words| && |was| <= |words|
            invariant words == was + seq(|words| - |was|, _ => 0 as u32)
            invariant pc >= item.address ==> |words| - |was| == Padding(4 * |was|, item.address)
            invariant pc < item.address + 4
          {
            words := words + [0];
            pc := pc + 4;
          }
          assert Emitted(symbols, items, i + 1).value == words;
        } else {
          var encoded := Encode(symbols, item, pc);
          if encoded.None? {
            EmittedFails(symbols, items, i + 1, |items|);
            return None;
          }
          words := words + encoded.value;
          pc := pc + 4 * |encoded.value|;
        }
      }
      r := Some(words);
    }
  }

  lemma LabelSize(item: Item)
    requires item.Label?
    ensures Estimate(item) == Some(0)
  {
  }

  lemma LabelWords(symbols: Symbols, item: Item, pc: nat)
    requires item.Label?
    ensures Encode(symbols, item, pc) == Some([])
  {
  }

  /** An error in either pass is final. */
  lemma {:induction false} LayoutFails(items: seq<Item>, i: nat, n: nat)
    requires i <= n <= |items| && Layout(items, i).None?
    ensures Layout(items, n).None?
    decreases n
  {
    if i < n {
      LayoutFails(items, i, n - 1);
    }
  }

  lemma {:induction false} EmittedFails(symbols: Symbols, items: seq<Item>, i: nat, n: nat)
    requires i <= n <= |items| && Emitted(symbols, items, i).None?
    ensures Emitted(symbols, items, n).None?
    decreases n
  {
    hide Encode;
    if i < n {
      EmittedFails(symbols, items, i, n - 1);
    }
  }
}
