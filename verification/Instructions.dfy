/** What the register instructions compute, by mnemonic: each as a relation between the
    operands and the result, and the hart's instructions against it. */
module Instructions {
  import opened Words
  import opened Bits
  import opened Isa

  datatype Operation =
    | Add | Sub | Sll | Slt | Sltu | Xor | Srl | Sra | Or | And
    | Mul | Mulh | Mulhsu | Mulhu | Div | Divu | Rem | Remu

  /** funct7 and funct3 of the three-register instructions. */
  function Funct(op: Operation): (int, int) {
    match op
    case Add => (0, 0) case Sub => (0x20, 0) case Sll => (0, 1) case Slt => (0, 2) case Sltu => (0, 3)
    case Xor => (0, 4) case Srl => (0, 5) case Sra => (0x20, 5) case Or => (0, 6) case And => (0, 7)
    case Mul => (1, 0) case Mulh => (1, 1) case Mulhsu => (1, 2) case Mulhu => (1, 3)
    case Div => (1, 4) case Divu => (1, 5) case Rem => (1, 6) case Remu => (1, 7)
  }

  const TWO32 := 0x1_0000_0000

  predicate Congruent(x: int, y: int) { (x - y) % TWO32 == 0 }

  /** h is the high half of p. */
  predicate High(h: int, p: int) { TWO32 * h <= p < TWO32 * h + TWO32 }

  /** r is to a op b what the mnemonic says. */
  ghost predicate Computes(op: Operation, a: u32, b: u32, r: u32) {
    match op
    case Add => Congruent(r, a + b)
    case Sub => Congruent(r + b, a)
    case Sll => forall i: nat :: i < 32 ==> BitAt(r, i) == (i >= b % 32 && BitAt(a, i - b % 32))
    case Srl => forall i: nat :: i < 32 ==> BitAt(r, i) == (i + b % 32 < 32 && BitAt(a, i + b % 32))
    case Sra => forall i: nat :: i < 32 ==> BitAt(r, i) == BitAt(a, Min(i + b % 32, 31))
    case Slt => r == if Signed(a) < Signed(b) then 1 else 0
    case Sltu => r == if a < b then 1 else 0
    case Xor => forall i: nat :: i < 32 ==> BitAt(r, i) == (BitAt(a, i) != BitAt(b, i))
    case Or => forall i: nat :: i < 32 ==> BitAt(r, i) == (BitAt(a, i) || BitAt(b, i))
    case And => forall i: nat :: i < 32 ==> BitAt(r, i) == (BitAt(a, i) && BitAt(b, i))
    case Mul => Congruent(r, a * b)
    case Mulh => High(Signed(r), Signed(a) * Signed(b))
    case Mulhsu => High(Signed(r), Signed(a) * b)
    case Mulhu => High(r, a * b)
    case Divu => if b == 0 then r == 0xFFFF_FFFF else b * r <= a < b * r + b
    case Remu => if b == 0 then r == a else r < b && exists q :: a == b * q + r
    case Div =>
      if b == 0 then r == 0xFFFF_FFFF
      else if a == 0x8000_0000 && b == 0xFFFF_FFFF then r == a
      else Truncates(Signed(a), Signed(b), Signed(r))
    case Rem =>
      if b == 0 then r == a
      else Floors(Signed(a), Signed(b), Signed(r))
  }

  /** q is x / y rounded toward zero: what is left is less than y and not against x. */
  predicate Truncates(x: int, y: int, q: int) {
    var t := x - y * q;
    Abs(t) < Abs(y) && (x >= 0 ==> t >= 0) && (x <= 0 ==> t <= 0)
  }

  /** t is what a division rounded down leaves: of the sign of y, and less. */
  ghost predicate Floors(x: int, y: int, t: int) {
    (if y > 0 then 0 <= t < y else y < t <= 0) && exists q :: x == y * q + t
  }

  // ---------------------------------------------------------------- what the hart computes

  lemma CongruentWord(x: int)
    ensures Congruent(W(x), x)
  {
    DivUnique(W(x) - x, TWO32, -(x / TWO32), 0);
  }

  lemma SignedWord(x: int)
    requires -0x8000_0000 <= x < 0x8000_0000
    ensures Signed(W(x)) == x
  {
  }

  lemma SignedBit(a: u32, i: nat)
    requires i < 32
    ensures BitAt(Signed(a), i) == BitAt(a, i)
  {
    assert W(Signed(a)) == a;
    hide BitAt, Signed;
    TruncatedBit(Signed(a), i);
  }

  lemma LeftBits(a: u32, s: nat, i: nat)
    requires i < 32
    ensures BitAt(W(a * Pow2(s)), i) == (i >= s && BitAt(a, i - s))
  {
    hide BitAt, W;
    TruncatedBit(a * Pow2(s), i);
    LeftShiftedBit(a, s, i);
  }

  lemma RightBits(a: u32, s: nat, i: nat)
    requires i < 32
    ensures BitAt(W(a / Pow2(s)), i) == (i + s < 32 && BitAt(a, i + s))
  {
    hide BitAt, W, Pow2;
    TruncatedBit(a / Pow2(s), i);
    RightShiftedBit(a, s, i);
    Pow2Values();
    if i + s >= 32 {
      SignBit(a, 32, i + s);
    }
  }

  lemma ArithmeticBits(a: u32, s: nat, i: nat)
    requires i < 32 && s < 32
    ensures BitAt(W(Signed(a) / Pow2(s)), i) == BitAt(a, Min(i + s, 31))
  {
    hide BitAt, W, Pow2, Signed;
    TruncatedBit(Signed(a) / Pow2(s), i);
    RightShiftedBit(Signed(a), s, i);
    Pow2Values();
    SignedRange(a);
    if i + s >= 31 {
      SignBit(Signed(a), 31, i + s);
      SignBit(Signed(a), 31, 31);
    }
    SignedBit(a, Min(i + s, 31));
  }

  lemma SignedRange(a: u32)
    ensures -0x8000_0000 <= Signed(a) < 0x8000_0000
  {
  }

  /** The high half of a product that fits 64 bits, as a word. */
  lemma HighWord(p: int)
    ensures 0 <= p < TWO32 * TWO32 ==> High(W(p / TWO32), p)
    ensures -0x8000_0000 * TWO32 <= p < 0x8000_0000 * TWO32 ==> High(Signed(W(p / TWO32)), p)
  {
    var h := p / TWO32;
    assert p == TWO32 * h + p % TWO32;
    if 0 <= p < TWO32 * TWO32 {
      WId(h);
    }
    if -0x8000_0000 * TWO32 <= p < 0x8000_0000 * TWO32 {
      SignedWord(h);
    }
  }

  lemma ProductRange(x: int, y: int, m: int, n: int)
    requires -m <= x < m && -n <= y < n
    ensures -m * n <= x * y <= m * n
    ensures x >= 0 ==> x * y <= (m - 1) * n
    ensures x >= 0 && y >= 0 ==> 0 <= x * y <= (m - 1) * (n - 1)
  {
    Product(Abs(x), Abs(y), m, n);
    MulNeg(Abs(x), Abs(y));
    if x >= 0 {
      Product(x, Abs(y), m - 1, n);
      if y >= 0 {
        Product(x, y, m - 1, n - 1);
      }
    }
  }

  lemma Product(x: nat, y: nat, m: nat, n: nat)
    requires x <= m && y <= n
    ensures 0 <= x * y <= m * n
  {
    assert x * y <= m * y;
    assert m * y <= m * n;
  }

  lemma QuotTruncates(x: int, y: int)
    requires y != 0
    ensures Truncates(x, y, Quot(x, y)) && Abs(Quot(x, y)) <= Abs(x)
    ensures Quot(x, y) == Abs(x) ==> x == 0 || Abs(y) == 1
  {
    var q, r := Abs(x) / Abs(y), Abs(x) % Abs(y);
    assert Abs(x) == Abs(y) * q + r;
    RemOf(x, y, q, r);
    assert Isa.Rem(x, y) == x - y * Quot(x, y);
    AtMost(Abs(x), Abs(y));
  }

  lemma AtMost(p: nat, q: nat)
    requires q > 0
    ensures 0 <= p / q <= p && (p / q == p ==> p == 0 || q == 1)
  {
    var k := p / q;
    assert p == q * k + p % q;
    Grown(q, k);
  }

  lemma Grown(q: int, k: int)
    requires q > 0
    ensures k >= 0 ==> q * k >= k && (q > 1 && k > 0 ==> q * k > k)
  {
    if k >= 0 {
      NonNegative(q - 1, k);
      assert q * k == (q - 1) * k + k;
      if q > 1 && k > 0 {
        AtLeast(q - 1, k);
        assert (q - 1) * k >= q - 1;
      }
    }
  }

  lemma FloorFloors(x: int, y: int)
    requires y != 0
    ensures Floors(x, y, FloorMod(x, y))
  {
    if y > 0 {
      assert x == y * (x / y) + FloorMod(x, y);
    } else {
      assert -x == -y * (-x / -y) + (-x) % (-y);
      MulNeg(y, -x / -y);
      assert x == y * (-x / -y) + FloorMod(x, y);
    }
  }

  lemma BitwiseComputes(a: u32, b: u32)
    ensures Computes(Xor, a, b, Isa.Xor(a, b)) && Computes(Or, a, b, Isa.Or(a, b)) && Computes(And, a, b, Isa.And(a, b))
  {
    hide BitAt;
    forall i: nat | i < 32
      ensures BitAt(Isa.Xor(a, b), i) == (BitAt(a, i) != BitAt(b, i))
      ensures BitAt(Isa.Or(a, b), i) == (BitAt(a, i) || BitAt(b, i))
      ensures BitAt(Isa.And(a, b), i) == (BitAt(a, i) && BitAt(b, i))
    {
      CombinedBit((p, q) => p != q, 32, a, b, i);
      CombinedBit((p, q) => p || q, 32, a, b, i);
      CombinedBit((p, q) => p && q, 32, a, b, i);
    }
  }

  lemma ShiftsCompute(a: u32, b: u32)
    ensures Computes(Sll, a, b, W(a * Pow2(b % 32))) && Computes(Srl, a, b, W(a / Pow2(b % 32)))
    ensures Computes(Sra, a, b, W(Signed(a) / Pow2(b % 32)))
  {
    hide BitAt, W, Pow2, Signed;
    var s := b % 32;
    forall i: nat | i < 32
      ensures BitAt(W(a * Pow2(s)), i) == (i >= s && BitAt(a, i - s))
      ensures BitAt(W(a / Pow2(s)), i) == (i + s < 32 && BitAt(a, i + s))
      ensures BitAt(W(Signed(a) / Pow2(s)), i) == BitAt(a, Min(i + s, 31))
    {
      LeftBits(a, s, i);
      RightBits(a, s, i);
      ArithmeticBits(a, s, i);
    }
  }

  lemma SumsCompute(a: u32, b: u32)
    ensures Computes(Add, a, b, W(a + b)) && Computes(Sub, a, b, W(a - b)) && Computes(Mul, a, b, W(a * b))
  {
    hide W;
    CongruentWord(a + b);
    CongruentWord(a - b);
    CongruentWord(a * b);
  }

  lemma ProductsCompute(a: u32, b: u32)
    ensures Computes(Mulh, a, b, MulDiv(1, a, b).value)
    ensures Computes(Mulhsu, a, b, MulDiv(2, a, b).value)
    ensures Computes(Mulhu, a, b, MulDiv(3, a, b).value)
  {
    hide W, High, Signed;
    SignedRange(a);
    SignedRange(b);
    HighSigned(Signed(a), Signed(b));
    HighSigned(Signed(a), b);
    HighUnsigned(a, b);
  }

  lemma HighSigned(x: int, y: int)
    requires -0x8000_0000 <= x < 0x8000_0000 && -0x8000_0000 <= y < TWO32
    ensures High(Signed(W(x * y / TWO32)), x * y)
  {
    hide W, High, Signed;
    ProductRange(x, y, 0x8000_0000, TWO32);
    if y < 0 {
      ProductRange(x, y, 0x8000_0000, 0x8000_0000);
    } else if x < 0 {
      MulNeg(-x, y);
      Product(-x, y, 0x8000_0000, TWO32);
    }
    HighWord(x * y);
  }

  lemma HighUnsigned(a: u32, b: u32)
    ensures High(W(a * b / TWO32), a * b)
  {
    hide W, High, Signed;
    ProductRange(a, b, TWO32, TWO32);
    HighWord(a * b);
  }

  lemma UnsignedDivisions(a: u32, b: u32)
    ensures Computes(Divu, a, b, MulDiv(5, a, b).value) && Computes(Remu, a, b, MulDiv(7, a, b).value)
  {
    if b != 0 {
      assert a == b * (a / b) + a % b;
      AtMost(a, b);
      WId(a / b);
      WId(a % b);
      hide W;
    }
  }

  lemma SignedQuotient(x: int, y: int)
    requires -0x8000_0000 <= x < 0x8000_0000 && -0x8000_0000 <= y < 0x8000_0000 && y != 0
    requires !(x == -0x8000_0000 && y == -1)
    ensures -0x8000_0000 <= Quot(x, y) < 0x8000_0000 && Truncates(x, y, Quot(x, y))
  {
    hide Truncates;
    QuotTruncates(x, y);
  }

  lemma SignedDivision(a: u32, b: u32)
    ensures Computes(Div, a, b, MulDiv(4, a, b).value)
  {
    hide Truncates, Quot, W, Signed;
    SignedIsZero(a);
    SignedIsZero(b);
    if b != 0 && !(a == 0x8000_0000 && b == 0xFFFF_FFFF) {
      SignedRange(a);
      SignedRange(b);
      SignedQuotient(Signed(a), Signed(b));
      SignedWord(Quot(Signed(a), Signed(b)));
    }
  }

  lemma SignedIsZero(b: u32)
    ensures Signed(b) == 0 <==> b == 0
    ensures Signed(b) == -1 <==> b == 0xFFFF_FFFF
    ensures Signed(b) == -0x8000_0000 <==> b == 0x8000_0000
  {
  }

  lemma SignedRemainder(a: u32, b: u32)
    ensures Computes(Rem, a, b, MulDiv(6, a, b).value)
  {
    hide Floors, FloorMod, W, Signed;
    SignedIsZero(a);
    SignedIsZero(b);
    if b != 0 {
      SignedRange(b);
      FloorFloors(Signed(a), Signed(b));
      FloorRange(Signed(a), Signed(b));
      SignedWord(FloorMod(Signed(a), Signed(b)));
      SignedIsZero(0);
      if a == 0x8000_0000 && b == 0xFFFF_FFFF {
        FloorsExact();
      }
    }
  }

  lemma FloorsExact()
    ensures Floors(-0x8000_0000, -1, 0)
  {
    assert -0x8000_0000 == -1 * 0x8000_0000 + 0;
  }

  lemma ComparisonsCompute(a: u32, b: u32)
    ensures Computes(Slt, a, b, Isa.Flag(Signed(a) < Signed(b))) && Computes(Sltu, a, b, Isa.Flag(a < b))
  {
  }

  /** Main result: the hart computes every mnemonic of the table. */
  lemma OperationComputes(op: Operation, d: Decoded, a: u32, b: u32)
    requires (d.funct7, d.funct3) == Funct(op)
    ensures Op(d, a, b).Some? && Computes(op, a, b, Op(d, a, b).value)
  {
    hide Computes, W, Signed, Pow2, Isa.And, Isa.Or, Isa.Xor, Isa.Flag;
    match op {
      case Add => SumsCompute(a, b);
      case Sub => SumsCompute(a, b);
      case Mul => SumsCompute(a, b);
      case Sll => ShiftsCompute(a, b);
      case Srl => ShiftsCompute(a, b);
      case Sra => ShiftsCompute(a, b);
      case Slt => ComparisonsCompute(a, b);
      case Sltu => ComparisonsCompute(a, b);
      case Xor => BitwiseComputes(a, b);
      case Or => BitwiseComputes(a, b);
      case And => BitwiseComputes(a, b);
      case Mulh => ProductsCompute(a, b);
      case Mulhsu => ProductsCompute(a, b);
      case Mulhu => ProductsCompute(a, b);
      case Div => SignedDivision(a, b);
      case Divu => UnsignedDivisions(a, b);
      case Rem => SignedRemainder(a, b);
      case Remu => UnsignedDivisions(a, b);
    }
  }

  /** Any other pair of function codes is an illegal instruction. */
  lemma OnlyOperations(d: Decoded, a: u32, b: u32)
    ensures Op(d, a, b).Some? <==> exists op: Operation :: Funct(op) == (d.funct7, d.funct3)
  {
    hide W, Signed, Pow2, Isa.And, Isa.Or, Isa.Xor;
    var c := (d.funct7, d.funct3);
    if d.funct7 == 1 {
      assert Funct(Mul) == (1, 0) && Funct(Mulh) == (1, 1) && Funct(Mulhsu) == (1, 2) && Funct(Mulhu) == (1, 3);
      assert Funct(Div) == (1, 4) && Funct(Divu) == (1, 5) && Funct(Rem) == (1, 6) && Funct(Remu) == (1, 7);
    } else {
      assert Funct(Add) == (0, 0) && Funct(Sll) == (0, 1) && Funct(Slt) == (0, 2) && Funct(Sltu) == (0, 3);
      assert Funct(Xor) == (0, 4) && Funct(Srl) == (0, 5) && Funct(Or) == (0, 6) && Funct(And) == (0, 7);
      assert Funct(Sub) == (0x20, 0) && Funct(Sra) == (0x20, 5);
    }
  }

  // ---------------------------------------------------------------- immediates and branches

  /** A register-immediate instruction is the register instruction on the sign-extended
      immediate; a shift takes its amount from the rs2 field. */
  lemma ImmediateIsOperation(d: Decoded, a: u32)
    requires -0x800 <= d.immI < 0x800 && 0 <= d.rs2 < 32
    ensures d.funct3 !in {1, 5} ==> OpImm(d, a) == Op(d.(funct7 := 0), a, W(d.immI))
    ensures d.funct3 in {1, 5} ==> OpImm(d, a) == if d.funct7 == 1 then None else Op(d, a, d.rs2)
  {
    hide W, Signed, Pow2, Isa.And, Isa.Or, Isa.Xor, MulDiv;
    SignedWord(d.immI);
    WAdd(d.immI, a);
    ShiftAmount(d.rs2);
  }

  lemma ShiftAmount(n: nat)
    requires n < 32
    ensures n % 0x20 == n
  {
  }

  /** Main result: what each immediate mnemonic computes, and which encodings are illegal. */
  lemma ImmediateComputes(op: Operation, d: Decoded, a: u32)
    requires -0x800 <= d.immI < 0x800 && 0 <= d.rs2 < 32
    requires op in {Add, Slt, Sltu, Xor, Or, And, Sll, Srl, Sra} && d.funct3 == Funct(op).1
    ensures op !in {Sll, Srl, Sra} ==> OpImm(d, a).Some? && Computes(op, a, W(d.immI), OpImm(d, a).value)
    ensures op in {Sll, Srl, Sra} && d.funct7 == Funct(op).0 ==> OpImm(d, a).Some? && Computes(op, a, d.rs2, OpImm(d, a).value)
  {
    hide Computes, Op, OpImm, W;
    ImmediateIsOperation(d, a);
    if op !in {Sll, Srl, Sra} {
      OperationComputes(op, d.(funct7 := 0), a, W(d.immI));
    } else if d.funct7 == Funct(op).0 {
      OperationComputes(op, d, a, d.rs2);
    }
  }

  lemma OnlyImmediates(d: Decoded, a: u32)
    requires -0x800 <= d.immI < 0x800 && 0 <= d.rs2 < 32 && 0 <= d.funct3 < 8
    ensures OpImm(d, a).None? <==> (d.funct3 in {1, 5} && (d.funct7, d.funct3) !in {Funct(Sll), Funct(Srl), Funct(Sra)})
  {
    hide W, Signed, Pow2, Isa.And, Isa.Or, Isa.Xor;
  }

  /** The six branches are three pairs of opposites over equality and the two orders. */
  lemma BranchTakes(a: u32, b: u32)
    ensures Taken(0, a, b) == Some(a == b) && Taken(1, a, b) == Some(a != b)
    ensures Taken(4, a, b) == Some(Computes(Slt, a, b, 1)) && Taken(5, a, b) == Some(Computes(Slt, a, b, 0))
    ensures Taken(6, a, b) == Some(Computes(Sltu, a, b, 1)) && Taken(7, a, b) == Some(Computes(Sltu, a, b, 0))
    ensures forall f :: f !in {0, 1, 4, 5, 6, 7} ==> Taken(f, a, b) == None
  {
    hide Signed;
  }

  // ---------------------------------------------------------------- the relation is exact

  lemma SameRemainder(y: int, q: int, t: int, q': int, t': int)
    requires y != 0 && y * q + t == y * q' + t' && Abs(t - t') < Abs(y)
    ensures q == q' && t == t'
  {
    MulNeg(Abs(y), q' - q);
    MulBound(Abs(y), q' - q);
    assert y * (q' - q) == t - t' by { assert y * (q' - q) == y * q' - y * q; }
  }

  lemma SignedInjective(r: u32, s: u32)
    requires Signed(r) == Signed(s)
    ensures r == s
  {
  }

  lemma CongruentSame(r: u32, s: u32, x: int)
    requires Congruent(r, x) && Congruent(s, x)
    ensures r == s
  {
    var p, q := (r - x) / TWO32, (s - x) / TWO32;
    assert r - x == TWO32 * p && s - x == TWO32 * q;
  }

  /** Each mnemonic's relation leaves one result. */
  lemma ComputesOne(op: Operation, a: u32, b: u32, r: u32, s: u32)
    requires Computes(op, a, b, r) && Computes(op, a, b, s)
    ensures r == s
  {
    if op in {Sll, Srl, Sra, Xor, Or, And} {
      hide Pow2, BitAt;
      Pow2Values();
      BitsDetermine(32, r, s);
    } else if op in {Div, Divu, Rem, Remu} && b != 0 {
      hide Abs, Signed;
      SignedIsZero(b);
      DivisionOne(op, a, b, r, s);
    } else if op in {Add, Mul} {
      CongruentSame(r, s, if op == Add then a + b else a * b);
    } else if op == Sub {
      assert Congruent(r, a - b) && Congruent(s, a - b);
      CongruentSame(r, s, a - b);
    } else if op in {Mulh, Mulhsu} {
      hide Signed;
      SignedInjectiveIf(r, s);
    }
  }

  lemma SignedInjectiveIf(r: u32, s: u32)
    ensures Signed(r) == Signed(s) ==> r == s
  {
  }

  lemma DivisionOne(op: Operation, a: u32, b: u32, r: u32, s: u32)
    requires op in {Div, Divu, Rem, Remu} && b != 0 && Signed(b) != 0
    requires Computes(op, a, b, r) && Computes(op, a, b, s)
    ensures r == s
  {
    hide Signed;
    SignedInjectiveIf(r, s);
    match op {
      case Divu => SameRemainder(b, r, a - b * r, s, a - b * s);
      case Remu =>
        var p :| a == b * p + r;
        var q :| a == b * q + s;
        SameRemainder(b, p, r, q, s);
      case Div =>
        if !(a == 0x8000_0000 && b == 0xFFFF_FFFF) {
          var x, y := Signed(a), Signed(b);
          SameRemainder(y, Signed(r), x - y * Signed(r), Signed(s), x - y * Signed(s));
        }
      case Rem =>
        var p :| Signed(a) == Signed(b) * p + Signed(r);
        var q :| Signed(a) == Signed(b) * q + Signed(s);
        SameRemainder(Signed(b), p, Signed(r), q, Signed(s));
    }
  }
}
