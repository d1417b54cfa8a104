/** When comparing a tnum's span with a range tells whether the two share a value. */
module Span {
  import opened Isa
  import opened Bits
  import opened Domains
  import opened Records
  import opened Intrinsic
  import opened IntrinsicSound

  lemma HalvedInTnum(v: nat, m: nat, x: nat)
    ensures InTnum(v, m, x) <==> InTnum(v / 2, m / 2, x / 2) && v % 2 == if m % 2 == 0 then x % 2 else 0
  {
    HalvesPass(x, m);
  }

  lemma HalvedSpan(v: nat, m: nat)
    requires And(v, m) == 0
    ensures And(v / 2, m / 2) == 0 && (m % 2 == 1 ==> v % 2 == 0)
    ensures Or(v, m) == 2 * Or(v / 2, m / 2) + if v % 2 == 1 || m % 2 == 1 then 1 else 0
  {
    AndZeroSplits(v, m);
    HalvesPass(v, m);
  }

  /** The least value of the tnum at or above x. */
  function Ceiling(v: nat, m: nat, x: nat): (c: nat)
    requires And(v, m) == 0 && x <= Or(v, m)
    decreases v + m
  {
    if v + m == 0 then 0
    else
      HalvedSpan(v, m);
      var h := Ceiling(v / 2, m / 2, x / 2);
      if h > x / 2 then 2 * h + v % 2
      else if m % 2 == 1 then 2 * h + x % 2
      else if v % 2 >= x % 2 then 2 * h + v % 2
      else 2 * Ceiling(v / 2, m / 2, x / 2 + 1)
  }

  /** Where the ceiling of the upper halves lands, told apart by the lowest bit. */
  predicate StepsUp(v: nat, m: nat, x: nat)
    requires And(v, m) == 0 && x <= Or(v, m) && v + m > 0
  {
    HalvedSpan(v, m);
    Ceiling(v / 2, m / 2, x / 2) == x / 2 && m % 2 == 0 && v % 2 < x % 2
  }

  lemma {:induction false} CeilingHits(v: nat, m: nat, x: nat)
    requires And(v, m) == 0 && x <= Or(v, m)
    ensures x <= Ceiling(v, m, x) && InTnum(v, m, Ceiling(v, m, x))
    decreases v + m
  {
    if v + m > 0 {
      HalvedSpan(v, m);
      HalvedInTnum(v, m, Ceiling(v, m, x));
      if StepsUp(v, m, x) {
        CeilingHits(v / 2, m / 2, x / 2 + 1);
      } else {
        CeilingHits(v / 2, m / 2, x / 2);
      }
    }
  }

  lemma {:induction false} CeilingIsLeast(v: nat, m: nat, x: nat, y: nat)
    requires And(v, m) == 0 && x <= Or(v, m) && InTnum(v, m, y) && x <= y
    ensures Ceiling(v, m, x) <= y
    decreases v + m
  {
    if v + m > 0 {
      HalvedSpan(v, m);
      HalvedInTnum(v, m, y);
      assert y == 2 * (y / 2) + y % 2 && x == 2 * (x / 2) + x % 2;
      CeilingHits(v / 2, m / 2, x / 2);
      if StepsUp(v, m, x) {
        CeilingIsLeast(v / 2, m / 2, x / 2 + 1, y / 2);
      } else {
        CeilingIsLeast(v / 2, m / 2, x / 2, y / 2);
      }
    }
  }

  /** Tnum and range share a value. */
  ghost predicate Meet(v: nat, m: nat, lo: nat, hi: nat) {
    exists x: nat :: InTnum(v, m, x) && lo <= x <= hi
  }

  /** Comparing the tnum's span with the range leaves the two apart. */
  predicate SpanApart(v: nat, m: nat, lo: nat, hi: nat) { Or(v, m) < lo || v > hi }

  /** The span reaches over the range, but the tnum has no value in it: its least one from the lower end
      on lies past the upper. */
  predicate Straddles(v: nat, m: nat, lo: nat, hi: nat)
    requires And(v, m) == 0
  {
    !SpanApart(v, m, lo, hi) && hi < Ceiling(v, m, lo)
  }

  /** The comparison of spans reports an empty intersection exactly, but for straddled ranges. */
  lemma SpanMeans(v: nat, m: nat, lo: nat, hi: nat)
    requires And(v, m) == 0
    ensures Meet(v, m, lo, hi) <==> !SpanApart(v, m, lo, hi) && !Straddles(v, m, lo, hi)
  {
    if x: nat :| InTnum(v, m, x) && lo <= x <= hi {
      ClearedBounds(x, m);
      CeilingIsLeast(v, m, lo, x);
    }
    if !SpanApart(v, m, lo, hi) {
      CeilingHits(v, m, lo);
    }
  }

  // ---- the 64-bit test --------------------------------------------------------------------------------

  /** On a well-formed tnum and an ordered range the span test is exact but for straddled ranges: those are
      empty and not reported. */
  lemma SpanTestExactly(reg: RegState)
    requires And(reg.tnum.value, reg.tnum.mask) == 0 && reg.umin <= reg.umax
    ensures SpanDisjoint(reg) ==> !Meet(reg.tnum.value, reg.tnum.mask, reg.umin, reg.umax)
    ensures !Meet(reg.tnum.value, reg.tnum.mask, reg.umin, reg.umax) && !SpanDisjoint(reg) <==>
            Straddles(reg.tnum.value, reg.tnum.mask, reg.umin, reg.umax)
  {
    SpanMeans(reg.tnum.value, reg.tnum.mask, reg.umin, reg.umax);
  }

  // ---- the 32-bit test --------------------------------------------------------------------------------

  lemma LowTnum(v: nat, m: nat, k: nat)
    requires And(v, m) == 0
    ensures And(v % Pow2(k), m % Pow2(k)) == 0 && Or(v % Pow2(k), m % Pow2(k)) == Or(v, m) % Pow2(k)
  {
    DisjointCleared(v, m);
    LowBitsPass(v, m, k);
    assert InTnum(v % Pow2(k), m % Pow2(k), v % Pow2(k));
    WellFormedIffInhabited(v % Pow2(k), m % Pow2(k));
  }

  /** v with its low k bits replaced by those of y. */
  function WithLow(v: nat, k: nat, y: nat): nat {
    if k == 0 then v else 2 * WithLow(v / 2, k - 1, y / 2) + y % 2
  }

  lemma {:induction false} WithLowFits(v: nat, k: nat, y: nat, n: nat)
    requires k <= n && v < Pow2(n)
    ensures WithLow(v, k, y) < Pow2(n)
  {
    if k > 0 {
      WithLowFits(v / 2, k - 1, y / 2, n - 1);
    }
  }

  /** A bit below: lowV and lowM end like v and m, and h fits the upper halves. */
  lemma DoubledInTnum(v: nat, m: nat, lowV: nat, lowM: nat, y: nat, h: nat)
    requires InTnum(lowV, lowM, y) && lowV % 2 == v % 2 && lowM % 2 == m % 2 && InTnum(v / 2, m / 2, h)
    ensures InTnum(v, m, 2 * h + y % 2)
  {
    HalvedInTnum(lowV, lowM, y);
    HalvedInTnum(v, m, 2 * h + y % 2);
  }

  lemma DoubledEnds(half: nat, k: nat, y: nat)
    requires k > 0 && half % Pow2(k - 1) == y / 2
    ensures (2 * half + y % 2) % Pow2(k) == y
  {
    var x := 2 * half + y % 2;
    assert x / 2 == half && x % 2 == y % 2;
    LowSplit(x, k);
  }

  lemma {:induction false} WithLowEnds(v: nat, k: nat, y: nat)
    requires y < Pow2(k)
    ensures WithLow(v, k, y) % Pow2(k) == y
  {
    if k > 0 {
      WithLowEnds(v / 2, k - 1, y / 2);
      DoubledEnds(WithLow(v / 2, k - 1, y / 2), k, y);
    }
  }

  lemma LowHalves(v: nat, m: nat, k: nat, y: nat)
    requires k > 0 && InTnum(v % Pow2(k), m % Pow2(k), y)
    ensures InTnum(v / 2 % Pow2(k - 1), m / 2 % Pow2(k - 1), y / 2)
    ensures v % Pow2(k) % 2 == v % 2 && m % Pow2(k) % 2 == m % 2
  {
    LowSplit(v, k);
    LowSplit(m, k);
    HalvedInTnum(v % Pow2(k), m % Pow2(k), y);
  }

  /** Every value of the low part of a tnum is the low part of a value of the tnum. */
  lemma {:induction false} LowValueExtends(v: nat, m: nat, k: nat, y: nat)
    requires And(v, m) == 0 && y < Pow2(k) && InTnum(v % Pow2(k), m % Pow2(k), y)
    ensures InTnum(v, m, WithLow(v, k, y)) && WithLow(v, k, y) % Pow2(k) == y
    decreases k
  {
    WithLowEnds(v, k, y);
    if k == 0 {
      DisjointCleared(v, m);
    } else {
      AndZeroSplits(v, m);
      LowHalves(v, m, k, y);
      LowValueExtends(v / 2, m / 2, k - 1, y / 2);
      DoubledInTnum(v, m, v % Pow2(k), m % Pow2(k), y, WithLow(v / 2, k - 1, y / 2));
    }
  }

  /** Some value of the tnum has its low half in the 32-bit range. */
  ghost predicate LowMeet(reg: RegState) {
    exists x: u64 :: InTnum(reg.tnum.value, reg.tnum.mask, x) && InRange32(reg, x)
  }

  /** Low halves of the tnum's values are the values of its low half. */
  lemma LowMeetMeans(reg: RegState)
    requires And(reg.tnum.value, reg.tnum.mask) == 0 && 0 <= reg.U32Lo() && 0 <= reg.U32Hi()
    ensures LowMeet(reg) <==> Meet(Low32(reg.tnum.value), Low32(reg.tnum.mask), reg.U32Lo(), reg.U32Hi())
  {
    WordSizes();
    var v, m := reg.tnum.value, reg.tnum.mask;
    if x: u64 :| InTnum(v, m, x) && InRange32(reg, x) {
      LowBitsPass(x, m, 32);
      var y: nat := Low32(x);
      assert InTnum(Low32(v), Low32(m), y) && reg.U32Lo() <= y <= reg.U32Hi();
    }
    if y: nat :| InTnum(Low32(v), Low32(m), y) && reg.U32Lo() <= y <= reg.U32Hi() {
      LowValuesAreLow(v, m, y);
      LowValueExtends(v, m, 32, y);
      WithLowFits(v, 32, y, 64);
      var x: u64 := WithLow(v, 32, y);
      assert InTnum(v, m, x) && InRange32(reg, x);
    }
  }

  lemma LowValuesAreLow(v: nat, m: nat, y: nat)
    requires InTnum(Low32(v), Low32(m), y)
    ensures y < TWO32
  {
    WordSizes();
    ClearedBounds(y, Low32(m));
    OrFits(Low32(v), Low32(m), 32);
  }

  lemma {:induction false} OrFits(a: nat, b: nat, k: nat)
    requires a < Pow2(k) && b < Pow2(k)
    ensures Or(a, b) < Pow2(k)
    decreases k
  {
    if k > 0 {
      OrFits(a / 2, b / 2, k - 1);
      HalvesPass(a, b);
    }
  }

  /** The tnum's low half and the 32-bit range: likewise exact but for straddled ranges. */
  lemma Tnum32TestExactly(reg: RegState)
    requires And(reg.tnum.value, reg.tnum.mask) == 0 && 0 <= reg.U32Lo() && 0 <= reg.U32Hi()
    ensures And(Low32(reg.tnum.value), Low32(reg.tnum.mask)) == 0
    ensures Tnum32Disjoint(reg) ==> !LowMeet(reg)
    ensures !LowMeet(reg) && !Tnum32Disjoint(reg) <==>
            Straddles(Low32(reg.tnum.value), Low32(reg.tnum.mask), reg.U32Lo(), reg.U32Hi())
  {
    WordSizes();
    var v, m := reg.tnum.value, reg.tnum.mask;
    LowTnum(v, m, 32);
    LowMeetMeans(reg);
    SpanMeans(Low32(v), Low32(m), reg.U32Lo(), reg.U32Hi());
  }

  // ---- the two ranges -----------------------------------------------------------------------------------

  /** The 64-bit range crosses one block boundary, and the 32-bit range fits between its two ends: the low
      halves run from the lower end up and then from zero to the upper. */
  predicate BetweenEnds(reg: RegState) {
    High32(reg.umax) == High32(reg.umin) + 1 && Low32(reg.umax) < reg.U32Lo() && reg.U32Hi() < Low32(reg.umin)
  }

  ghost predicate ViewsMeet(reg: RegState) {
    exists x: u64 :: InRange64(reg, x) && InRange32(reg, x)
  }

  lemma InBlock(reg: RegState, block: nat, low: nat)
    requires low < TWO32 && reg.U32Lo() <= low <= reg.U32Hi() && reg.umin <= block * TWO32 + low <= reg.umax
    ensures ViewsMeet(reg)
  {
    var x: u64 := block * TWO32 + low;
    assert InRange64(reg, x) && InRange32(reg, x);
  }

  /** The two views are reported exactly when no value fits both, but for one family: a range over one
      block boundary with the 32-bit range between its ends. */
  lemma ViewsTestExactly(reg: RegState)
    requires reg.umin <= reg.umax && 0 <= reg.U32Lo() <= reg.U32Hi() <= U32_MAX
    ensures ViewsDisjoint(reg) ==> !ViewsMeet(reg)
    ensures !ViewsMeet(reg) && !ViewsDisjoint(reg) <==> BetweenEnds(reg)
  {
    var first, last := High32(reg.umin), High32(reg.umax);
    if ViewsDisjoint(reg) || BetweenEnds(reg) {
      forall x: u64 | InRange64(reg, x) ensures !InRange32(reg, x) {
        assert first <= High32(x) <= last;
      }
    } else if first == last {
      InBlock(reg, first, if Low32(reg.umin) >= reg.U32Lo() then Low32(reg.umin) else reg.U32Lo());
    } else if first + 1 < last {
      InBlock(reg, first + 1, reg.U32Lo());
    } else if reg.U32Hi() >= Low32(reg.umin) {
      InBlock(reg, first, reg.U32Hi());
    } else {
      InBlock(reg, last, reg.U32Lo());
    }
  }
}
