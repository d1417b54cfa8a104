/** The two value domains of a register state and their containment tests, exact both ways.
    `subs_subset64` and `subs_subset32` are ArcSubset at the moduli 2^64 and 2^32, and the
    Python `cnum_is_subset` is the same computation at mask = m - 1. */
module Domains {
  import opened Bits

  /** The empty set's encoding; read as an arc it would be the full circle. */
  predicate IsEmpty(m: int, base: int, size: int) {
    base == m - 1 && size == m - 1
  }

  predicate ArcOk(m: int, base: int, size: int) {
    0 <= base < m && 0 <= size < m
  }

  /** x lies at most size steps clockwise of base on the circle of m values. */
  predicate InArc(m: int, base: int, size: int, x: int)
    requires m > 0
  {
    !(base == m - 1 && size == m - 1) && (x - base) % m <= size
  }

  function ArcSubset(m: int, bb: int, bs: int, sb: int, ss: int): bool
    requires m > 0
  {
    if IsEmpty(m, sb, ss) then true
    else if IsEmpty(m, bb, bs) then false
    else
      var start := (sb - bb) % m;
      if ss > m - 1 - start && bs < m - 1 then false else (start + ss) % m <= bs
  }

  lemma ModShift(m: int, x: int)
    requires m > 0 && -m <= x < 2 * m
    ensures x % m == if x < 0 then x + m else if x >= m then x - m else x
  {
  }

  /** A value of the smaller arc outside the bigger: its last, or the last before wrapping. */
  lemma ArcOutsider(m: int, bb: int, bs: int, sb: int, ss: int) returns (x: int)
    requires m > 1 && ArcOk(m, bb, bs) && ArcOk(m, sb, ss) && !ArcSubset(m, bb, bs, sb, ss)
    ensures 0 <= x < m && InArc(m, sb, ss, x) && !InArc(m, bb, bs, x)
  {
    ModShift(m, sb - bb);
    ModShift(m, (sb - bb) % m + ss);
    ModShift(m, sb + ss);
    x := (sb + ss) % m;
    ModShift(m, x - sb);
    ModShift(m, x - bb);
    if InArc(m, bb, bs, x) {
      ModShift(m, bb + m - 1);
      x := (bb + m - 1) % m;
      ModShift(m, x - sb);
      ModShift(m, x - bb);
    }
  }

  /** The arc test answers exactly set containment, wrap-around, full circle and empty included. */
  lemma ArcSubsetExact(m: int, bb: int, bs: int, sb: int, ss: int)
    requires m > 1 && ArcOk(m, bb, bs) && ArcOk(m, sb, ss)
    ensures ArcSubset(m, bb, bs, sb, ss) <==>
            forall x :: 0 <= x < m && InArc(m, sb, ss, x) ==> InArc(m, bb, bs, x)
  {
    if ArcSubset(m, bb, bs, sb, ss) {
      forall x | 0 <= x < m && InArc(m, sb, ss, x) ensures InArc(m, bb, bs, x) {
        ModShift(m, sb - bb);
        ModShift(m, (sb - bb) % m + ss);
        ModShift(m, x - bb);
        ModShift(m, x - sb);
      }
    } else {
      var x := ArcOutsider(m, bb, bs, sb, ss);
    }
  }

  /** The values whose known bits agree: every bit outside the mask equals value's. */
  predicate InTnum(value: nat, mask: nat, x: nat) {
    AndNot(x, mask) == value
  }

  function TnumIn(av: nat, am: nat, bv: nat, bm: nat): bool {
    if AndNot(bm, am) != 0 then false else av == AndNot(bv, am)
  }

  lemma TnumInContains(av: nat, am: nat, bv: nat, bm: nat, x: nat)
    requires TnumIn(av, am, bv, bm) && InTnum(bv, bm, x)
    ensures InTnum(av, am, x)
  {
    ClearTwice(x, bm, am);
  }

  /** For any two encodings, well formed or not, the test says that whatever agrees with b's value
      outside b's mask is a value of a. */
  lemma TnumInMeans(av: nat, am: nat, bv: nat, bm: nat)
    ensures TnumIn(av, am, bv, bm) <==> forall x: nat :: AndNot(x, bm) == AndNot(bv, bm) ==> InTnum(av, am, x)
  {
    if TnumIn(av, am, bv, bm) {
      forall x: nat | AndNot(x, bm) == AndNot(bv, bm) ensures InTnum(av, am, x) {
        ClearTwice(x, bm, am);
        ClearTwice(bv, bm, am);
      }
    } else if forall x: nat :: AndNot(x, bm) == AndNot(bv, bm) ==> InTnum(av, am, x) {
      var v := AndNot(bv, bm);
      ClearedBounds(bv, bm);
      DisjointCleared(v, bm);
      assert InTnum(av, am, bv) && InTnum(av, am, v) && InTnum(av, am, Or(v, bm));
      OpenBitsInside(v, bm, am);
    }
  }

  /** For a well-formed b that is containment of the value sets; a malformed b has no value, so
      containment holds and the test may still refuse. */
  lemma TnumInExact(av: nat, am: nat, bv: nat, bm: nat)
    ensures var contained := forall x :: InTnum(bv, bm, x) ==> InTnum(av, am, x);
            if And(bv, bm) == 0 then TnumIn(av, am, bv, bm) == contained else contained
  {
    TnumInMeans(av, am, bv, bm);
    if And(bv, bm) == 0 {
      DisjointCleared(bv, bm);
    } else {
      WellFormedIffInhabited(bv, bm);
    }
  }

  /** A tnum denotes some value exactly when no bit is both known and open. */
  lemma WellFormedIffInhabited(value: nat, mask: nat)
    ensures And(value, mask) == 0 <==> exists x :: InTnum(value, mask, x)
  {
    if And(value, mask) == 0 {
      DisjointCleared(value, mask);
      assert InTnum(value, mask, value);
    }
    if x :| InTnum(value, mask, x) {
      ClearedBounds(x, mask);
    }
  }

  /** A malformed b denotes no value, so containment holds where the test may still refuse. */
  lemma MalformedTnumIsRefused()
    ensures !TnumIn(0, 0, 1, 1) && forall x :: !InTnum(1, 1, x)
  {
  }
}
