/** The interpreter's DIV and MOD obey the division law on all operands, the zero divisor and
    the overflowing quotient included (section 4.1 of RFC 9669). */
module Division {
  import opened Isa
  import opened Bits
  import opened Interp

  /** Two integers a multiple of m apart have the same residue. */
  lemma SameResidue(u: int, v: int, m: int, t: int)
    requires m > 0 && u - v == m * t
    ensures u % m == v % m
  {
    RemainderIs(u, m, v / m + t, v % m);
  }

  lemma TruncLaw(a: int, b: int)
    requires b != 0
    ensures TruncDiv(a, b) * b + TruncMod(a, b) == a
    ensures Abs(TruncMod(a, b)) < Abs(b)
    ensures TruncMod(a, b) == 0 || (TruncMod(a, b) < 0) == (a < 0)
  {
  }

  lemma SignedApart(m: int, x: int) returns (k: int)
    requires m > 0
    ensures x == Signed(m, x) + m * k
  {
    k := if 2 * (x % m) < m then x / m else x / m + 1;
    assert x == m * (x / m) + x % m;
    assert m * (x / m + 1) == m * (x / m) + m;
  }

  lemma Combine(m: int, q: int, kq: int, r: int, kr: int, a: int, ka: int, b: int, kb: int)
    requires (q + m * kq) * b + (r + m * kr) == a
    ensures q * (b + m * kb) + r - (a + m * ka) == m * (q * kb - kq * b - kr - ka)
  {
  }

  lemma Residue(m: int, x: int) returns (low: int, k: int)
    requires m > 0
    ensures low == x % m && x == low + m * k
  {
    low, k := x % m, x / m;
  }

  /** A law over signed readings carries over to the wrapped values. */
  lemma WrapLaw(m: int, q: int, r: int, a: int, b: int, x: int, y: int)
    requires m > 0 && q * b + r == a && a == Signed(m, x) && b == Signed(m, y)
    ensures ((q % m) * y + r % m) % m == x % m
  {
    var ka := SignedApart(m, x);
    var kb := SignedApart(m, y);
    var qm, kq := Residue(m, q);
    var rm, kr := Residue(m, r);
    Combine(m, qm, kq, rm, kr, a, ka, b, kb);
    SameResidue(qm * y + rm, x, m, qm * kb - kq * b - kr - ka);
  }

  lemma ProductGrows(q: nat, b: nat)
    requires b > 0
    ensures q <= q * b
  {
  }

  lemma QuotientInRange(a: nat, b: nat)
    requires b > 0
    ensures 0 <= a / b <= a && a / b * b + a % b == a && 0 <= a % b < b
  {
    ProductGrows(a / b, b);
  }

  lemma UnsignedLaw(is64: bool, a: u64, b: u64)
    requires a < Modulus(is64) && b < Modulus(is64)
    ensures DivU(is64, a, b) * b + ModU(is64, a, b) == a
    ensures b != 0 ==> ModU(is64, a, b) < b
  {
    if b != 0 {
      QuotientInRange(a, b);
      RemainderIs(a / b, Modulus(is64), 0, a / b);
      RemainderIs(a % b, Modulus(is64), 0, a % b);
    }
  }

  /** The integers whose residues DivS and ModS return satisfy the law exactly. */
  lemma SignedParts(is64: bool, x: u64, y: u64) returns (q: int, r: int)
    ensures var m := Modulus(is64);
            q * Signed(m, y) + r == Signed(m, x) && DivS(is64, x, y) == q % m && ModS(is64, x, y) == r % m
  {
    var m := Modulus(is64);
    var a, b := Signed(m, x), Signed(m, y);
    if b == 0 {
      q, r := 0, a;
    } else if Overflows(is64, a, b) {
      q, r := -a, 0;
    } else {
      q, r := TruncDiv(a, b), TruncMod(a, b);
      TruncLaw(a, b);
    }
  }

  lemma SignedLaw(is64: bool, x: u64, y: u64)
    ensures (DivS(is64, x, y) * y + ModS(is64, x, y)) % Modulus(is64) == x % Modulus(is64)
  {
    var m := Modulus(is64);
    var q, r := SignedParts(is64, x, y);
    WrapLaw(m, q, r, Signed(m, x), Signed(m, y), x, y);
  }

  /** Only the residues of the operands matter. */
  lemma SignedDependsOnResidue(is64: bool, x: u64, y: u64)
    ensures DivS(is64, x, y) == DivS(is64, Wrap(is64, x), Wrap(is64, y))
    ensures ModS(is64, x, y) == ModS(is64, Wrap(is64, x), Wrap(is64, y))
  {
    var m := Modulus(is64);
    assert Signed(m, x) == Signed(m, Wrap(is64, x)) && Signed(m, y) == Signed(m, Wrap(is64, y));
  }

  function Quotient(is64: bool, signed: bool, d: u64, v: u64): u64 {
    if signed then DivS(is64, d, v) else DivU(is64, Wrap(is64, d), Wrap(is64, v))
  }

  function Remainder(is64: bool, signed: bool, d: u64, v: u64): u64 {
    if signed then ModS(is64, d, v) else ModU(is64, Wrap(is64, d), Wrap(is64, v))
  }

  lemma SignedDivisionLaw(is64: bool, d: u64, v: u64)
    ensures (DivS(is64, d, v) * Wrap(is64, v) + ModS(is64, d, v)) % Modulus(is64) == d % Modulus(is64)
  {
    SignedDependsOnResidue(is64, d, v);
    SignedLaw(is64, Wrap(is64, d), Wrap(is64, v));
    SameResidue(d, Wrap(is64, d), Modulus(is64), d / Modulus(is64));
  }

  lemma UnsignedDivisionLaw(is64: bool, d: u64, v: u64)
    ensures (DivU(is64, Wrap(is64, d), Wrap(is64, v)) * Wrap(is64, v) +
             ModU(is64, Wrap(is64, d), Wrap(is64, v))) % Modulus(is64)
            == d % Modulus(is64)
  {
    UnsignedLaw(is64, Wrap(is64, d), Wrap(is64, v));
    SameResidue(d, Wrap(is64, d), Modulus(is64), d / Modulus(is64));
  }

  /** Quotient times divisor plus remainder gives the dividend back, modulo the width. */
  lemma DivisionLaw(is64: bool, signed: bool, d: u64, v: u64)
    ensures (Quotient(is64, signed, d, v) * Wrap(is64, v) + Remainder(is64, signed, d, v)) % Modulus(is64) ==
            d % Modulus(is64)
  {
    if signed {
      SignedDivisionLaw(is64, d, v);
    } else {
      UnsignedDivisionLaw(is64, d, v);
    }
  }

  /** The remainder is smaller than the divisor and, signed, takes the dividend's sign: with the law
      this leaves one quotient. */
  lemma RemainderIsSmall(is64: bool, signed: bool, d: u64, v: u64)
    requires Wrap(is64, v) != 0
    ensures var m, r := Modulus(is64), Remainder(is64, signed, d, v);
            if signed then Abs(Signed(m, r)) < Abs(Signed(m, v)) &&
                (Signed(m, r) == 0 || (Signed(m, r) < 0) == (Signed(m, d) < 0))
            else r < Wrap(is64, v)
  {
    var m := Modulus(is64);
    if signed {
      var a, b := Signed(m, d), Signed(m, v);
      if !Overflows(is64, a, b) {
        TruncLaw(a, b);
        SignedReads(m, TruncMod(a, b));
      }
    } else {
      UnsignedLaw(is64, Wrap(is64, d), Wrap(is64, v));
    }
  }

  lemma SignedReads(m: int, r: int)
    requires m > 0 && -m <= 2 * r < m
    ensures Signed(m, r % m) == r
  {
    RemainderIs(r, m, if r < 0 then -1 else 0, if r < 0 then r + m else r);
  }

  /** And these are what the DIV and MOD instructions leave in their destination. */
  lemma InstructionsDivide(is64: bool, reg: bool, off: i16, d: u64, v: u64)
    ensures Alu(is64, 0x30, reg, off, d, v) ==
            if off == 0 || off == 1 then Some(Quotient(is64, off == 1, d, v)) else None
    ensures Alu(is64, 0x90, reg, off, d, v) ==
            if off == 0 || off == 1 then Some(Remainder(is64, off == 1, d, v)) else None
  {
  }
}
