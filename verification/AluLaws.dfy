/** What the ALU and jump opcodes do, said without their formulas: shifts bit by bit, comparisons as
    orders, and the 32-bit classes blind to upper halves. */
module AluLaws {
  import opened Isa
  import opened Bits
  import opened Domains
  import opened Interp
  import opened Division

  // ---- bits of shifted numbers ----------------------------------------------------------------------

  lemma HalveFirst(a: nat, m: nat)
    requires m > 0
    ensures a / (2 * m) == a / 2 / m
  {
    var q, r := a / 2 / m, a / 2 % m;
    assert a == (2 * m) * q + (2 * r + a % 2);
    QuotientIs(a, 2 * m, q, 2 * r + a % 2);
  }

  lemma QuotientIs(x: int, m: int, q: int, r: int)
    requires x == m * q + r && 0 <= r < m
    ensures x / m == q
  {
    RemainderIs(x, m, q, r);
    assert m * (x / m) == m * q;
  }

  function Halved(a: nat, s: nat): nat {
    if s == 0 then a else Halved(a / 2, s - 1)
  }

  lemma {:induction false} HalvedDivides(a: nat, s: nat)
    ensures a / Pow2(s) == Halved(a, s)
  {
    if s > 0 {
      HalveFirst(a, Pow2(s - 1));
      HalvedDivides(a / 2, s - 1);
    }
  }

  lemma {:induction false} HalvedBits(a: nat, s: nat, k: nat)
    ensures BitSet(Halved(a, s), k) <==> BitSet(a, k + s)
  {
    if s > 0 {
      HalvedBits(a / 2, s - 1, k);
    }
  }

  /** A low part below 2^n and a multiple of 2^n keep their bits apart. */
  lemma {:induction false} JoinedBits(low: nat, high: nat, n: nat, k: nat)
    requires low < Pow2(n)
    ensures BitSet(low + Pow2(n) * high, k) <==> if k < n then BitSet(low, k) else BitSet(high, k - n)
    decreases n
  {
    if n > 0 {
      var x := low + Pow2(n) * high;
      assert Pow2(n) * high == 2 * (Pow2(n - 1) * high);
      assert x / 2 == low / 2 + Pow2(n - 1) * high && x % 2 == low % 2;
      if k > 0 {
        JoinedBits(low / 2, high, n - 1, k - 1);
      }
    }
  }

  lemma {:induction false} OnesBits(n: nat, k: nat)
    ensures BitSet(Pow2(n) - 1, k) <==> k < n
    decreases n
  {
    if n == 0 {
      ZeroHasNoBits(k);
    } else if k > 0 {
      assert (Pow2(n) - 1) / 2 == Pow2(n - 1) - 1;
      OnesBits(n - 1, k - 1);
    }
  }

  lemma HighBitsAreZero(a: nat, n: nat, k: nat)
    requires a < Pow2(n) && n <= k
    ensures !BitSet(a, k)
  {
    JoinedBits(a, 0, n, k);
    ZeroHasNoBits(k - n);
  }

  /** Reducing modulo 2^n keeps the bits below n. */
  lemma {:induction false} LowBitsKept(a: nat, n: nat, k: nat)
    requires k < n
    ensures BitSet(a % Pow2(n), k) <==> BitSet(a, k)
    decreases n
  {
    LowSplit(a, n);
    if k > 0 {
      LowBitsKept(a / 2, n - 1, k - 1);
    }
  }

  function Bitness(is64: bool): nat { if is64 then 64 else 32 }

  lemma ModulusIsPower(is64: bool)
    ensures Modulus(is64) == Pow2(Bitness(is64))
  {
    WordSizes();
  }

  // ---- shifts -----------------------------------------------------------------------------------------

  /** A register amount is masked; an immediate one is below the width in verified programs. */
  function Amount(is64: bool, x: bool, v: u64): nat { if x then v % Bitness(is64) else v }

  function Doubled(a: nat, s: nat): nat {
    if s == 0 then a else 2 * Doubled(a, s - 1)
  }

  lemma {:induction false} DoubledMultiplies(a: nat, s: nat)
    ensures a * Pow2(s) == Doubled(a, s)
  {
    if s > 0 {
      DoubledMultiplies(a, s - 1);
      assert a * (2 * Pow2(s - 1)) == 2 * (a * Pow2(s - 1));
    }
  }

  lemma {:induction false} DoubledBits(a: nat, s: nat, k: nat)
    ensures BitSet(Doubled(a, s), k) <==> k >= s && BitSet(a, k - s)
    decreases s
  {
    if s > 0 && k > 0 {
      DoubledBits(a, s - 1, k - 1);
    }
  }

  lemma RaisedBits(w: nat, s: nat, d: nat, k: nat)
    requires k < w
    ensures BitSet((d % Pow2(w) * Pow2(s)) % Pow2(w), k) <==> k >= s && BitSet(d, k - s)
  {
    var a := d % Pow2(w);
    DoubledMultiplies(a, s);
    LowBitsKept(Doubled(a, s), w, k);
    DoubledBits(a, s, k);
    if k >= s {
      LowBitsKept(d, w, k - s);
    }
  }

  lemma LoweredBits(w: nat, s: nat, d: nat, k: nat)
    requires k < w
    ensures BitSet((d % Pow2(w) / Pow2(s)) % Pow2(w), k) <==> k + s < w && BitSet(d, k + s)
  {
    var a := d % Pow2(w);
    HalvedDivides(a, s);
    LowBitsKept(Halved(a, s), w, k);
    HalvedBits(a, s, k);
    if k + s < w {
      LowBitsKept(d, w, k + s);
    } else {
      HighBitsAreZero(a, w, k + s);
    }
  }

  /** Both logical shifts move every bit by the amount and fill with zeros. */
  lemma LogicalShifts(is64: bool, x: bool, off: i16, d: u64, v: u64, k: nat)
    requires k < Bitness(is64) && (x || v < Bitness(is64))
    ensures var (w, s) := (Bitness(is64), Amount(is64, x, v));
            var left, right := Alu(is64, 0x60, x, off, d, v), Alu(is64, 0x70, x, off, d, v);
            && left.Some? && (BitSet(left.value, k) <==> k >= s && BitSet(d, k - s))
            && right.Some? && (BitSet(right.value, k) <==> k + s < w && BitSet(d, k + s))
  {
    ModulusIsPower(is64);
    RaisedBits(Bitness(is64), Amount(is64, x, v), d, k);
    LoweredBits(Bitness(is64), Amount(is64, x, v), d, k);
  }

  /** The sign bit decides between a value and its two's complement. */
  lemma SignBit(w: nat, a: nat)
    requires w > 0 && a < Pow2(w)
    ensures Signed(Pow2(w), a) == if BitSet(a, w - 1) then a - Pow2(w) else a
  {
    assert Pow2(w) == 2 * Pow2(w - 1);
    RemainderIs(a, Pow2(w), 0, a);
    if a >= Pow2(w - 1) {
      JoinedBits(a - Pow2(w - 1), 1, w - 1, w - 1);
    } else {
      HighBitsAreZero(a, w - 1, w - 1);
    }
  }

  lemma NegativeShifted(w: nat, s: nat, a: nat)
    requires s < w && a < Pow2(w)
    ensures (a - Pow2(w)) / Pow2(s) == Halved(a, s) - Pow2(w - s) && Halved(a, s) < Pow2(w - s)
  {
    HalvedDivides(a, s);
    Pow2Sum(s, w - s);
    var q, r := Halved(a, s), a % Pow2(s);
    assert a == Pow2(s) * q + r;
    assert Pow2(s) * (q - Pow2(w - s)) == Pow2(s) * q - Pow2(s) * Pow2(w - s);
    QuotientIs(a - Pow2(w), Pow2(s), q - Pow2(w - s), r);
    if q >= Pow2(w - s) {
      TimesMonotone(Pow2(s), Pow2(w - s), q);
    }
  }

  lemma TimesMonotone(m: int, p: int, q: int)
    requires m >= 0 && p <= q
    ensures m * p <= m * q
  {
  }

  /** s set bits from bit n up. */
  function Ones(n: nat, s: nat): nat {
    if s == 0 then 0 else Ones(n, s - 1) + Pow2(n + s - 1)
  }

  lemma {:induction false} OnesSum(n: nat, s: nat)
    ensures Ones(n, s) == Pow2(n + s) - Pow2(n)
  {
    if s > 0 {
      OnesSum(n, s - 1);
    }
  }

  lemma {:induction false} HighOnes(low: nat, n: nat, s: nat, k: nat)
    requires low < Pow2(n)
    ensures BitSet(low + Ones(n, s), k) <==> if k < n then BitSet(low, k) else k < n + s
    decreases n
  {
    if n == 0 {
      OnesSum(0, s);
      OnesBits(s, k);
    } else {
      OnesSum(n, s);
      OnesSum(n - 1, s);
      assert Ones(n, s) == 2 * Ones(n - 1, s);
      if k > 0 {
        HighOnes(low / 2, n - 1, s, k - 1);
      }
    }
  }

  lemma WrapsUp(m: int, x: int)
    requires m > 0 && -m <= x < 0
    ensures x % m == x + m
  {
    RemainderIs(x, m, -1, x + m);
  }

  /** A negative value shifted right has its upper s bits set. */
  lemma NegativeShift(w: nat, s: nat, a: nat)
    requires s < w && a < Pow2(w)
    ensures ((a - Pow2(w)) / Pow2(s)) % Pow2(w) == Halved(a, s) + Ones(w - s, s) && Halved(a, s) < Pow2(w - s)
  {
    NegativeShifted(w, s, a);
    OnesSum(w - s, s);
    WrapsUp(Pow2(w), Halved(a, s) - Pow2(w - s));
  }

  lemma WrapTwice(is64: bool, x: int)
    ensures Wrap(is64, Wrap(is64, x)) == Wrap(is64, x) &&
            Signed(Modulus(is64), Wrap(is64, x)) == Signed(Modulus(is64), x)
  {
    RemainderIs(Wrap(is64, x), Modulus(is64), 0, Wrap(is64, x));
  }

  lemma ShiftedBits(w: nat, s: nat, a: nat, k: nat)
    requires s < w && k < w && a < Pow2(w)
    ensures BitSet((Signed(Pow2(w), a) / Pow2(s)) % Pow2(w), k) <==> BitSet(a, if k + s < w then k + s else w - 1)
  {
    SignBit(w, a);
    HalvedBits(a, s, k);
    if BitSet(a, w - 1) {
      NegativeShift(w, s, a);
      HighOnes(Halved(a, s), w - s, s, k);
    } else {
      HalvedDivides(a, s);
      LowBitsKept(Halved(a, s), w, k);
      if k + s >= w {
        HighBitsAreZero(a, w, k + s);
      }
    }
  }

  /** The arithmetic shift moves every bit down by the amount and repeats the sign bit. */
  lemma ArithmeticShift(is64: bool, x: bool, off: i16, d: u64, v: u64, k: nat)
    requires k < Bitness(is64) && (x || v < Bitness(is64))
    ensures var (w, s) := (Bitness(is64), Amount(is64, x, v));
            var r := Alu(is64, 0xc0, x, off, d, v);
            r.Some? && (BitSet(r.value, k) <==> BitSet(d, if k + s < w then k + s else w - 1))
  {
    var w, s := Bitness(is64), Amount(is64, x, v);
    ModulusIsPower(is64);
    WrapTwice(is64, d);
    ShiftedBits(w, s, Wrap(is64, d), k);
    LowBitsKept(d, w, if k + s < w then k + s else w - 1);
  }

  // ---- the other operations ---------------------------------------------------------------------------

  /** OR, AND and XOR act on every bit of the width. */
  lemma LogicBits(is64: bool, x: bool, off: i16, d: u64, v: u64, k: nat)
    requires k < Bitness(is64)
    ensures var or, and, xor :=
              Alu(is64, 0x40, x, off, d, v), Alu(is64, 0x50, x, off, d, v), Alu(is64, 0xa0, x, off, d, v);
            && or.Some? && (BitSet(or.value, k) <==> BitSet(d, k) || BitSet(v, k))
            && and.Some? && (BitSet(and.value, k) <==> BitSet(d, k) && BitSet(v, k))
            && xor.Some? && (BitSet(xor.value, k) <==> BitSet(d, k) != BitSet(v, k))
  {
    var w, a, b := Bitness(is64), Wrap(is64, d), Wrap(is64, v);
    ModulusIsPower(is64);
    BitwiseMeaning(a, b, k);
    LowBitsKept(d, w, k);
    LowBitsKept(v, w, k);
    LowBitsKept(Or(a, b), w, k);
    LowBitsKept(And(a, b), w, k);
    LowBitsKept(Xor(a, b), w, k);
  }

  /** SUB takes back what ADD added. */
  lemma SubUndoesAdd(is64: bool, x: bool, off: i16, d: u64, v: u64)
    ensures var sum := Alu(is64, 0x00, x, off, d, v);
            sum.Some? && Alu(is64, 0x10, x, off, sum.value, v) == Some(Wrap(is64, d))
  {
    SumAndBack(is64, Wrap(is64, d), Wrap(is64, v));
    WrapTwice(is64, Wrap(is64, d) + Wrap(is64, v));
  }

  /** A value and its NEG add up to zero. */
  lemma NegIsOpposite(is64: bool, x: bool, off: i16, d: u64, v: u64)
    ensures var neg := Alu(is64, 0x80, x, off, d, v); neg.Some? && Alu(is64, 0x00, x, off, d, neg.value) == Some(0)
  {
    SumAndBack(is64, Wrap(is64, d), 0);
    WrapTwice(is64, 0 - Wrap(is64, d));
  }

  lemma SumAndBack(is64: bool, a: u64, b: u64)
    requires a < Modulus(is64) && b < Modulus(is64)
    ensures Wrap(is64, Wrap(is64, a + b) - b) == a && Wrap(is64, a + Wrap(is64, 0 - a)) == 0
  {
    var m := Modulus(is64);
    ModShift(m, a + b);
    ModShift(m, Wrap(is64, a + b) - b);
    ModShift(m, 0 - a);
    ModShift(m, a + Wrap(is64, 0 - a));
  }

  lemma ExtendedLow(low: nat, n: nat, w: nat)
    requires 0 < n <= w && low < Pow2(n)
    ensures Signed(Pow2(n), low) % Pow2(w) == if BitSet(low, n - 1) then low + Ones(n, w - n) else low
  {
    SignBit(n, low);
    OnesSum(n, w - n);
    if BitSet(low, n - 1) {
      WrapsUp(Pow2(w), low - Pow2(n));
    } else {
      RemainderIs(low, Pow2(w), 0, low);
    }
  }

  lemma MoveExtends(is64: bool, n: i16, d: u64, v: u64)
    requires n == 8 || n == 16 || n == 32
    ensures Alu(is64, 0xb0, true, n, d, v) == Some(Signed(Pow2(n), v % Pow2(n)) % Pow2(Bitness(is64)))
  {
    WordSizes();
    assert Pow2(8) == TWO8 && Pow2(16) == TWO16;
    RemainderIs(v % Pow2(n), Pow2(n), 0, v % Pow2(n));
  }

  lemma ExtendedBits(v: nat, n: nat, w: nat, k: nat)
    requires 0 < n <= w && k < w
    ensures BitSet(Signed(Pow2(n), v % Pow2(n)) % Pow2(w), k) <==> BitSet(v, if k < n then k else n - 1)
  {
    var low := v % Pow2(n);
    ExtendedLow(low, n, w);
    LowBitsKept(v, n, if k < n then k else n - 1);
    LowBitsKept(v, n, n - 1);
    HighOnes(low, n, w - n, k);
    if k >= n {
      HighBitsAreZero(low, n, k);
    }
  }

  /** A sign-extending move copies the low bits and repeats their top bit over the width. */
  lemma SignExtends(is64: bool, n: i16, d: u64, v: u64, k: nat)
    requires n == 8 || n == 16 || n == 32
    requires k < Bitness(is64)
    ensures var r := Alu(is64, 0xb0, true, n, d, v);
            r.Some? && (BitSet(r.value, k) <==> BitSet(v, if k < n then k else n - 1))
  {
    MoveExtends(is64, n, d, v);
    ExtendedBits(v, n, Bitness(is64), k);
  }

  // ---- the 32-bit classes -------------------------------------------------------------------------------

  lemma LowHalf(v: nat)
    ensures v % TWO32 % TWO32 == v % TWO32 && v % TWO32 % 32 == v % 32
    ensures v % TWO32 % TWO8 == v % TWO8 && v % TWO32 % TWO16 == v % TWO16
  {
    var q, r := v / TWO32, v % TWO32;
    RemainderIs(v, 32, q * 0x800_0000 + r / 32, r % 32);
    RemainderIs(v, TWO8, q * 0x100_0000 + r / TWO8, r % TWO8);
    RemainderIs(v, TWO16, q * TWO16 + r / TWO16, r % TWO16);
  }

  lemma LowMoves(x: bool, off: i16, d: u64, v: u64)
    ensures Alu(false, 0xb0, x, off, d, v) == Alu(false, 0xb0, x, off, d % TWO32, v % TWO32)
  {
    LowHalf(v);
  }

  lemma LowDivides(op: bv8, x: bool, off: i16, d: u64, v: u64)
    requires op == 0x30 || op == 0x90
    ensures Alu(false, op, x, off, d, v) == Alu(false, op, x, off, d % TWO32, v % TWO32)
  {
    WrapTwice(false, d);
    WrapTwice(false, v);
    SignedDependsOnResidue(false, d, v);
  }

  lemma LowShifts(op: bv8, x: bool, off: i16, d: u64, v: u64)
    requires op == 0x60 || op == 0x70 || op == 0xc0
    requires x || v < TWO32
    ensures Alu(false, op, x, off, d, v) == Alu(false, op, x, off, d % TWO32, v % TWO32)
  {
    WrapTwice(false, d);
    LowHalf(v);
    if !x {
      RemainderIs(v, TWO32, 0, v);
    }
    var s, t := if x then v % 32 else v, if x then v % TWO32 % 32 else v % TWO32;
    assert s == t;
  }

  /** A 32-bit ALU instruction never looks at an upper half; an immediate is a 32-bit pattern already. */
  lemma LowHalvesDecide(op: bv8, x: bool, off: i16, d: u64, v: u64)
    requires x || v < TWO32
    ensures Alu(false, op, x, off, d, v) == Alu(false, op, x, off, d % TWO32, v % TWO32)
  {
    if op == 0xb0 {
      LowMoves(x, off, d, v);
    } else if op == 0x30 || op == 0x90 {
      LowDivides(op, x, off, d, v);
    } else if op == 0x60 || op == 0x70 || op == 0xc0 {
      LowShifts(op, x, off, d, v);
    } else {
      WrapTwice(false, d);
      WrapTwice(false, v);
    }
  }

  lemma LowHalvesDecideJumps(op: bv8, dst: u64, operand: u64)
    ensures Taken(op, true, dst, operand) == Taken(op, true, dst % TWO32, operand % TWO32)
  {
    LowHalf(dst);
    LowHalf(operand);
  }

  // ---- comparisons ----------------------------------------------------------------------------------------

  /** Exactly one of the three comparisons is taken, and the other three are their opposites. */
  predicate IsOrder(eq: Option<bool>, lt: Option<bool>, gt: Option<bool>, ne: Option<bool>, ge: Option<bool>,
                    le: Option<bool>) {
    && eq.Some? && lt.Some? && gt.Some? && ne.Some? && ge.Some? && le.Some?
    && (if eq.value then !gt.value && !lt.value else gt.value != lt.value)
    && ne.value == !eq.value && ge.value == !lt.value && le.value == !gt.value
  }

  lemma SignedReadsApart(m: int, x: int, y: int)
    requires m > 0 && 0 <= x < m && 0 <= y < m
    ensures Signed(m, x) == Signed(m, y) <==> x == y
  {
    RemainderIs(x, m, 0, x);
    RemainderIs(y, m, 0, y);
  }

  /** JEQ, JLT, JGT, JNE, JGE, JLE at either width, and the signed forms with the same equality. */
  lemma JumpsAreOrders(j32: bool, a: u64, b: u64)
    ensures IsOrder(Taken(0x10, j32, a, b), Taken(0xa0, j32, a, b), Taken(0x20, j32, a, b),
                    Taken(0x50, j32, a, b), Taken(0x30, j32, a, b), Taken(0xb0, j32, a, b))
    ensures IsOrder(Taken(0x10, j32, a, b), Taken(0xc0, j32, a, b), Taken(0x60, j32, a, b),
                    Taken(0x50, j32, a, b), Taken(0x70, j32, a, b), Taken(0xd0, j32, a, b))
  {
    SignedReadsApart(Modulus(!j32), Wrap(!j32, a), Wrap(!j32, b));
  }

  function Flipped(is64: bool, a: u64): u64 { Wrap(is64, a + Modulus(is64) / 2) }

  lemma FlippedLow(a: nat)
    ensures (a + TWO32 / 2) % TWO32 == Signed(TWO32, a) + TWO32 / 2
  {
    var q, low := a / TWO32, a % TWO32;
    RemainderIs(a + TWO32 / 2, TWO32, if low < TWO32 / 2 then q else q + 1,
                if low < TWO32 / 2 then low + TWO32 / 2 else low - TWO32 / 2);
  }

  lemma FlippedReads(is64: bool, a: u64)
    ensures Wrap(is64, Flipped(is64, a)) == Signed(Modulus(is64), a) + Modulus(is64) / 2
  {
    WrapTwice(is64, a + Modulus(is64) / 2);
    if is64 {
      ModShift(TWO64, a + TWO63);
      ModShift(TWO64, a);
    } else {
      FlippedLow(a);
    }
  }

  lemma GreaterMeans(j32: bool, a: u64, b: u64)
    ensures Taken(0x20, j32, a, b) == Some(Wrap(!j32, a) > Wrap(!j32, b))
    ensures Taken(0x60, j32, a, b) == Some(Signed(Modulus(!j32), a) > Signed(Modulus(!j32), b))
  {
    WrapTwice(!j32, a);
    WrapTwice(!j32, b);
  }

  /** A signed comparison is the unsigned one on values whose sign bit is flipped. */
  lemma SignedIsFlipped(j32: bool, a: u64, b: u64)
    ensures Taken(0x60, j32, a, b) == Taken(0x20, j32, Flipped(!j32, a), Flipped(!j32, b))
  {
    FlippedReads(!j32, a);
    FlippedReads(!j32, b);
    GreaterMeans(j32, a, b);
    GreaterMeans(j32, Flipped(!j32, a), Flipped(!j32, b));
  }
}
