/** Free-running 32-bit counters that stand for unbounded counts, and the slots of a
    ring whose size divides 2^32. */
module Counters {
  import opened Words
  import Bits

  /** Two counts less than 2^32 apart are equal when their words are. */
  lemma WordsAgree(a: int, b: int)
    requires -0x1_0000_0000 < a - b < 0x1_0000_0000
    ensures W(a) == W(b) <==> a == b
  {
  }

  /** The 32-bit difference of two counter words is the difference of the counts. */
  lemma WordDifference(a: int, b: int)
    requires 0 <= a - b < 0x1_0000_0000
    ensures W(W(a) - W(b)) == a - b
  {
    var q, r := a / 0x1_0000_0000, b / 0x1_0000_0000;
    assert W(a) - W(b) == (a - b) + 0x1_0000_0000 * (r - q);
    Bits.DivUnique(W(a) - W(b), 0x1_0000_0000, r - q, a - b);
  }

  /** Reducing a count modulo a multiple of the ring's size does not move its slot. */
  lemma SlotWraps(x: int, big: nat, n: nat)
    requires n > 0 && big > 0 && big % n == 0
    ensures x % big % n == x % n
  {
    var k, q, d := big / n, x / big, x % big / n;
    assert n * (d + k * q) == n * d + big * q by { Products(n, d, k, q); }
    Bits.DivUnique(x, n, d + k * q, x % big % n);
  }

  lemma Products(n: int, d: int, k: int, q: int)
    ensures n * (d + k * q) == n * d + n * k * q
  {
  }

  lemma WordSlot(x: int, n: nat)
    requires n > 0 && 0x1_0000_0000 % n == 0
    ensures W(x) % n == x % n
  {
    SlotWraps(x, 0x1_0000_0000, n);
  }

  /** Within a ring's length no two counts share a slot. */
  lemma SlotsDiffer(a: int, b: int, n: int)
    requires n > 0 && -n < a - b < n && a != b
    ensures a % n != b % n
  {
    if a % n == b % n {
      var p, q := a / n, b / n;
      assert a - b == n * (p - q) by { assert n * (p - q) == n * p - n * q; }
      Bits.MulBound(n, p - q);
    }
  }
}
