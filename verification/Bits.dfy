/** Bitwise operators on natural numbers, bit by bit from the lowest, and the facts about them
    that range and tnum reasoning needs. */
module Bits {

  function Pow2(n: nat): (r: nat)
    ensures r > 0
  {
    if n == 0 then 1 else 2 * Pow2(n - 1)
  }

  lemma TwiceProduct(x: int, y: int)
    ensures 2 * x * y == 2 * (x * y)
  {
  }

  lemma {:induction false} Pow2Sum(a: nat, b: nat)
    ensures Pow2(a + b) == Pow2(a) * Pow2(b)
  {
    if a > 0 {
      Pow2Sum(a - 1, b);
      TwiceProduct(Pow2(a - 1), Pow2(b));
    }
  }

  lemma WordSizes()
    ensures Pow2(32) == 0x1_0000_0000 && Pow2(64) == 0x1_0000_0000_0000_0000
  {
    assert Pow2(8) == 0x100;
    Pow2Sum(8, 8);
    Pow2Sum(16, 16);
    Pow2Sum(32, 32);
  }

  /** Bit k of v: `v >> k & 1`. */
  predicate BitSet(v: nat, k: nat) {
    if k == 0 then v % 2 == 1 else BitSet(v / 2, k - 1)
  }

  function And(a: nat, b: nat): nat {
    if a == 0 || b == 0 then 0 else (if a % 2 == 1 && b % 2 == 1 then 1 else 0) + 2 * And(a / 2, b / 2)
  }

  function Or(a: nat, b: nat): nat {
    if a == 0 then b else if b == 0 then a
    else (if a % 2 == 1 || b % 2 == 1 then 1 else 0) + 2 * Or(a / 2, b / 2)
  }

  function Xor(a: nat, b: nat): nat {
    if a == 0 then b else if b == 0 then a
    else (if a % 2 != b % 2 then 1 else 0) + 2 * Xor(a / 2, b / 2)
  }

  /** `a & ~m`. */
  function AndNot(a: nat, m: nat): nat {
    if a == 0 then 0 else (if a % 2 == 1 && m % 2 == 0 then 1 else 0) + 2 * AndNot(a / 2, m / 2)
  }

  // ---- they are what their names say --------------------------------------------------------------

  lemma {:induction false} ZeroHasNoBits(k: nat)
    ensures !BitSet(0, k)
  {
    if k > 0 {
      ZeroHasNoBits(k - 1);
    }
  }

  lemma {:induction false} BitwiseMeaning(a: nat, b: nat, k: nat)
    ensures BitSet(And(a, b), k) <==> BitSet(a, k) && BitSet(b, k)
    ensures BitSet(Or(a, b), k) <==> BitSet(a, k) || BitSet(b, k)
    ensures BitSet(Xor(a, b), k) <==> BitSet(a, k) != BitSet(b, k)
    ensures BitSet(AndNot(a, b), k) <==> BitSet(a, k) && !BitSet(b, k)
    decreases k
  {
    ZeroHasNoBits(k);
    if k > 0 {
      BitwiseMeaning(a / 2, b / 2, k - 1);
      HalvesPass(a, b);
    } else {
      HalvesPass(a, b);
    }
  }

  /** Some bit is set in both. */
  ghost predicate ShareBit(a: nat, b: nat) {
    exists k: nat :: BitSet(a, k) && BitSet(b, k)
  }

  lemma {:induction false} SomeBit(x: nat) returns (k: nat)
    requires x > 0
    ensures BitSet(x, k)
  {
    if x % 2 == 1 {
      k := 0;
    } else {
      var j := SomeBit(x / 2);
      k := j + 1;
    }
  }

  lemma CommonBit(a: nat, b: nat)
    ensures And(a, b) != 0 <==> ShareBit(a, b)
  {
    if And(a, b) != 0 {
      var k := SomeBit(And(a, b));
      BitwiseMeaning(a, b, k);
    }
    if k: nat :| BitSet(a, k) && BitSet(b, k) {
      BitwiseMeaning(a, b, k);
      ZeroHasNoBits(k);
    }
  }

  lemma HalvesPass(a: nat, b: nat)
    ensures And(a, b) / 2 == And(a / 2, b / 2) && And(a, b) % 2 == if a % 2 == 1 && b % 2 == 1 then 1 else 0
    ensures Or(a, b) / 2 == Or(a / 2, b / 2) && Or(a, b) % 2 == if a % 2 == 1 || b % 2 == 1 then 1 else 0
    ensures Xor(a, b) / 2 == Xor(a / 2, b / 2) && Xor(a, b) % 2 == if a % 2 != b % 2 then 1 else 0
    ensures AndNot(a, b) / 2 == AndNot(a / 2, b / 2) && AndNot(a, b) % 2 == if a % 2 == 1 && b % 2 == 0 then 1 else 0
  {
  }

  // ---- a value and the bits left open -------------------------------------------------------------

  /** What is left after clearing the open bits is disjoint from them and bounds the value. */
  lemma {:induction false} ClearedBounds(x: nat, m: nat)
    ensures var v := AndNot(x, m); And(v, m) == 0 && v <= x <= Or(v, m)
    decreases x
  {
    var v := AndNot(x, m);
    HalvesPass(x, m);
    HalvesPass(v, m);
    if x > 0 {
      ClearedBounds(x / 2, m / 2);
      AndZeroSplits(v, m);
    }
  }

  lemma AndZeroSplits(v: nat, m: nat)
    ensures And(v, m) == 0 <==> And(v / 2, m / 2) == 0 && !(v % 2 == 1 && m % 2 == 1)
  {
  }

  /** A value with no bit in the open ones is what clearing leaves of it, with or without them set. */
  lemma {:induction false} DisjointCleared(v: nat, m: nat)
    requires And(v, m) == 0
    ensures AndNot(v, m) == v && AndNot(Or(v, m), m) == v
    decreases v + m
  {
    if v + m > 0 {
      AndZeroSplits(v, m);
      DisjointCleared(v / 2, m / 2);
      HalvesPass(v, m);
      HalvesPass(Or(v, m), m);
    }
  }

  lemma {:induction false} ClearTwice(x: nat, small: nat, big: nat)
    requires AndNot(small, big) == 0
    ensures AndNot(AndNot(x, small), big) == AndNot(x, big)
    decreases x
  {
    if x > 0 {
      HalvesPass(small, big);
      HalvesPass(x, small);
      HalvesPass(x, big);
      HalvesPass(AndNot(x, small), big);
      ClearTwice(x / 2, small / 2, big / 2);
    }
  }

  /** If setting the open bits of m leaves no trace outside big, they all lie in big. */
  lemma {:induction false} OpenBitsInside(v: nat, m: nat, big: nat)
    requires And(v, m) == 0 && AndNot(v, big) == AndNot(Or(v, m), big)
    ensures AndNot(m, big) == 0
    decreases v + m
  {
    HalvesPass(v, m);
    HalvesPass(v, big);
    HalvesPass(m, big);
    HalvesPass(Or(v, m), big);
    if v + m > 0 {
      OpenBitsInside(v / 2, m / 2, big / 2);
    }
  }

  lemma {:induction false} FullMaskClears(x: nat, k: nat)
    requires x < Pow2(k)
    ensures AndNot(x, Pow2(k) - 1) == 0
    decreases k
  {
    if k > 0 {
      HalvesPass(x, Pow2(k) - 1);
      FullMaskClears(x / 2, k - 1);
    }
  }

  /** The low k bits of the results come from the low k bits of the operands. */
  lemma {:induction false} LowBitsPass(a: nat, b: nat, k: nat)
    ensures AndNot(a, b) % Pow2(k) == AndNot(a % Pow2(k), b % Pow2(k))
    ensures Or(a, b) % Pow2(k) == Or(a % Pow2(k), b % Pow2(k))
    decreases k
  {
    if k > 0 {
      LowBitsPass(a / 2, b / 2, k - 1);
      LowSplit(a, k);
      LowSplit(b, k);
      LowSplit(AndNot(a, b), k);
      LowSplit(Or(a, b), k);
      HalvesPass(a, b);
      HalvesPass(a % Pow2(k), b % Pow2(k));
    }
  }

  lemma LowSplit(x: nat, k: nat)
    requires k > 0
    ensures x % Pow2(k) == x % 2 + 2 * (x / 2 % Pow2(k - 1))
    ensures x % Pow2(k) / 2 == x / 2 % Pow2(k - 1) && x % Pow2(k) % 2 == x % 2
  {
    var m, h := Pow2(k - 1), x / 2;
    var q, low := h / m, h % m;
    assert h == q * m + low && x == 2 * h + x % 2;
    assert x == q * (2 * m) + (2 * low + x % 2);
    RemainderIs(x, 2 * m, q, 2 * low + x % 2);
  }

  lemma RemainderIs(x: int, m: int, q: int, r: int)
    requires x == q * m + r && 0 <= r < m
    ensures x % m == r
  {
    var d := x / m - q;
    assert x / m * m + x % m == x;
    assert d * m == r - x % m;
    assert d >= 1 ==> d * m >= m;
    assert d <= -1 ==> d * m <= 0 - m;
  }
}
