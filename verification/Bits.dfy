/** Setting one bit, or one two-bit field, of a word leaves every other bit alone. */
module Bits {
  import opened Words

  lemma DivUnique(x: int, n: int, q: int, r: int)
    requires 0 <= r < n && x == n * q + r
    ensures x / n == q && x % n == r
  {
    QuotientOf(n, q, r, x / n, x % n);
  }

  lemma QuotientOf(n: int, q: int, r: int, d: int, e: int)
    requires 0 <= r < n && 0 <= e < n && n * q + r == n * d + e
    ensures q == d && r == e
  {
    var k := d - q;
    assert n * k == r - e by { assert n * k == n * d - n * q; }
    MulBound(n, k);
  }

  lemma MulBound(n: int, k: int)
    requires n > 0
    ensures k >= 1 ==> n * k >= n
    ensures k <= -1 ==> n * k <= -n
  {
    if k >= 1 {
      assert n * k == n + n * (k - 1);
    } else if k <= -1 {
      assert n * k == -n + n * (k + 1);
    }
  }

  lemma DivDiv(x: int, a: int, b: int)
    requires a > 0 && b > 0
    ensures a * b > 0 && x / (a * b) == x / a / b
  {
    var y, r := x / a, x % a;
    var q, t := y / b, y % b;
    assert x == a * y + r && y == b * q + t;
    assert a * y == a * b * q + a * t by { Distribute(a, b, q, t); }
    Grows(a, t, b);
    DivUnique(x, a * b, q, a * t + r);
  }

  lemma Distribute(a: int, b: int, q: int, t: int)
    ensures a * (b * q + t) == a * b * q + a * t
  {
  }

  lemma Grows(a: int, t: int, b: int)
    requires a > 0 && 0 <= t < b
    ensures 0 <= a * t <= a * b - a
  {
    var d := b - 1 - t;
    assert b == t + (d + 1);
    assert a * b == a * t + a * d + a by { Spread(a, t, d); }
    assert a * t >= 0 && a * d >= 0 by { NonNegative(a, t); NonNegative(a, d); }
  }

  lemma Spread(a: int, t: int, d: int)
    ensures a * (t + (d + 1)) == a * t + a * d + a
  {
  }

  lemma NonNegative(a: int, t: int)
    requires a >= 0 && t >= 0
    ensures a * t >= 0
  {
  }

  lemma DivShift(x: int, n: int, k: int)
    requires n > 0
    ensures (x + n * k) / n == x / n + k
  {
    assert x + n * k == n * (x / n + k) + x % n;
    DivUnique(x + n * k, n, x / n + k, x % n);
  }

  lemma BitOfWith(x: int, w: int, b: bool)
    requires w > 0
    ensures Bit(With(x, w, b), w) == b
    ensures With(x, w, b) / w / 2 == x / w / 2
    ensures With(With(x, w, b), w, Bit(x, w)) == x
  {
    var t := (if b then 1 else 0) - x / w % 2;
    assert With(x, w, b) == x + w * t;
    DivShift(x, w, t);
  }

  /** A bit of higher weight is not touched. */
  lemma HigherBit(x: int, w: int, b: bool, j: int)
    requires w > 0 && j > 0
    ensures 2 * w * j > 0 && Bit(With(x, w, b), 2 * w * j) == Bit(x, 2 * w * j)
  {
    BitOfWith(x, w, b);
    var y := With(x, w, b);
    DivDiv(x, w, 2); DivDiv(y, w, 2);
    DivDiv(x, w * 2, j); DivDiv(y, w * 2, j);
    assert 2 * w * j == w * 2 * j;
  }

  /** A multiple of twice the weight does not reach the bit. */
  lemma BitOfSum(x: int, w: int, n: int)
    requires w > 0
    ensures Bit(x + w * (2 * n), w) == Bit(x, w)
  {
    DivShift(x, w, 2 * n);
    assert (x / w + 2 * n) % 2 == x / w % 2;
  }

  /** A bit of lower weight is not touched. */
  lemma LowerBit(x: int, w: int, b: bool, v: int, j: int)
    requires v > 0 && j > 0 && w == 2 * v * j
    ensures Bit(With(x, w, b), v) == Bit(x, v)
  {
    var t := (if b then 1 else 0) - x / w % 2;
    assert With(x, w, b) == x + w * t;
    Regroup(v, j, t);
    BitOfSum(x, v, j * t);
  }

  lemma Regroup(w: int, j: int, q: int)
    ensures 2 * w * j * q == w * (2 * (j * q))
  {
  }

  /** Truncation to 32 bits keeps the bits below. */
  lemma BitOfW(x: int, w: int, j: int)
    requires w > 0 && 0x1_0000_0000 == 2 * w * j
    ensures Bit(W(x), w) == Bit(x, w)
  {
    var q := x / 0x1_0000_0000;
    assert x == W(x) + 0x1_0000_0000 * q;
    Regroup(w, j, q);
    hide W;
    BitOfSum(W(x), w, j * q);
  }

  // ---------------------------------------------------------------- bits by number

  function Pow2(n: nat): (r: int)
    ensures r > 0
  {
    if n == 0 then 1 else 2 * Pow2(n - 1)
  }

  lemma {:induction false} Pow2Add(i: nat, j: nat)
    ensures Pow2(i + j) == Pow2(i) * Pow2(j)
    decreases j
  {
    if j > 0 {
      Pow2Add(i, j - 1);
      Twice(Pow2(i), Pow2(j - 1));
    }
  }

  lemma Twice(a: int, b: int)
    ensures a * (2 * b) == 2 * (a * b)
  {
  }

  lemma Pow2Values()
    ensures Pow2(1) == 2 && Pow2(3) == 8 && Pow2(4) == 0x10 && Pow2(5) == 0x20 && Pow2(7) == 0x80 && Pow2(8) == 0x100
    ensures Pow2(9) == 0x200 && Pow2(11) == 0x800 && Pow2(12) == 0x1000 && Pow2(13) == 0x2000 && Pow2(15) == 0x8000
    ensures Pow2(16) == 0x1_0000 && Pow2(31) == 0x8000_0000 && Pow2(32) == 0x1_0000_0000
  {
    assert Pow2(2) == 4;
    Pow2Add(4, 3);
    Pow2Add(4, 4);
    Pow2Add(8, 1);
    Pow2Add(8, 3);
    Pow2Add(8, 4);
    Pow2Add(8, 5);
    Pow2Add(8, 7);
    Pow2Add(8, 8);
    Pow2Add(16, 15);
    Pow2Add(16, 16);
  }

  /** Whether bit i of x is set. */
  predicate BitAt(x: int, i: nat) { Bit(x, Pow2(i)) }

  /** Forcing one bit leaves every other bit alone. */
  lemma WithElsewhere(x: int, j: nat, b: bool, i: nat)
    ensures BitAt(With(x, Pow2(j), b), i) == if i == j then b else BitAt(x, i)
  {
    hide Bit, With, Pow2;
    if i == j {
      BitOfWith(x, Pow2(j), b);
    } else if i > j {
      Between(j, i);
      HigherBit(x, Pow2(j), b, Pow2(i - j - 1));
    } else {
      Between(i, j);
      LowerBit(x, Pow2(j), b, Pow2(i), Pow2(j - i - 1));
    }
  }

  lemma Between(i: nat, j: nat)
    requires i < j
    ensures Pow2(j) == 2 * Pow2(i) * Pow2(j - i - 1)
  {
    Pow2Add(i + 1, j - i - 1);
  }

  lemma TruncatedBit(x: int, i: nat)
    requires i < 32
    ensures BitAt(W(x), i) == BitAt(x, i)
  {
    hide Bit, W;
    Pow2Values();
    Between(i, 32);
    BitOfW(x, Pow2(i), Pow2(31 - i));
  }

  // ---------------------------------------------------------------- words bit by bit

  /** The n bits f makes of the low bits of a and b, one pair at a time. */
  function Combine(f: (bool, bool) -> bool, n: nat, a: int, b: int): (r: int)
    ensures 0 <= r < Pow2(n)
  {
    if n == 0 then 0
    else (if f(a % 2 == 1, b % 2 == 1) then 1 else 0) + 2 * Combine(f, n - 1, a / 2, b / 2)
  }

  lemma NextBit(x: int, i: nat)
    requires i > 0
    ensures BitAt(x, i) == BitAt(x / 2, i - 1)
  {
    DivDiv(x, 2, Pow2(i - 1));
  }

  lemma {:induction false} CombinedBit(f: (bool, bool) -> bool, n: nat, a: int, b: int, i: nat)
    requires i < n
    ensures BitAt(Combine(f, n, a, b), i) == f(BitAt(a, i), BitAt(b, i))
    decreases n
  {
    if i > 0 {
      hide BitAt;
      CombinedBit(f, n - 1, a / 2, b / 2, i - 1);
      NextBit(a, i);
      NextBit(b, i);
      NextBit(Combine(f, n, a, b), i);
    }
  }

  /** A number of n bits is its bits. */
  lemma {:induction false} BitsDetermine(n: nat, a: int, b: int)
    requires 0 <= a < Pow2(n) && 0 <= b < Pow2(n)
    requires forall i: nat :: i < n ==> BitAt(a, i) == BitAt(b, i)
    ensures a == b
    decreases n
  {
    if n > 0 {
      assert BitAt(a, 0) == BitAt(b, 0);
      forall i: nat | i < n - 1 ensures BitAt(a / 2, i) == BitAt(b / 2, i) {
        NextBit(a, i + 1);
        NextBit(b, i + 1);
      }
      BitsDetermine(n - 1, a / 2, b / 2);
    }
  }

  lemma RightShiftedBit(x: int, s: nat, i: nat)
    ensures BitAt(x / Pow2(s), i) == BitAt(x, i + s)
  {
    hide Pow2;
    Pow2Add(s, i);
    DivDiv(x, Pow2(s), Pow2(i));
  }

  lemma LeftShiftedBit(x: int, s: nat, i: nat)
    ensures BitAt(x * Pow2(s), i) == (i >= s && BitAt(x, i - s))
  {
    hide Pow2;
    if i >= s {
      RightShiftedBit(x * Pow2(s), s, i - s);
      DivUnique(x * Pow2(s), Pow2(s), x, 0);
    } else {
      Between(i, s);
      var k := Pow2(s - i - 1) * x;
      assert x * Pow2(s) == Pow2(i) * (2 * k) by { Rotate(x, Pow2(i), Pow2(s - i - 1)); }
      DivUnique(x * Pow2(s), Pow2(i), 2 * k, 0);
    }
  }

  lemma Rotate(x: int, p: int, q: int)
    ensures x * (2 * p * q) == p * (2 * (q * x))
  {
  }

  /** Beyond its sign bit a number repeats its sign. */
  lemma SignBit(x: int, n: nat, i: nat)
    requires n <= i && -Pow2(n) <= x < Pow2(n)
    ensures BitAt(x, i) == (x < 0)
  {
    Pow2Add(n, i - n);
    assert Pow2(n) <= Pow2(i) by { AtLeast(Pow2(n), Pow2(i - n)); }
    if x < 0 {
      DivUnique(x, Pow2(i), -1, x + Pow2(i));
    } else {
      DivUnique(x, Pow2(i), 0, x);
    }
  }

  lemma AtLeast(p: int, q: int)
    requires p > 0 && q > 0
    ensures p <= p * q
  {
  }
}
