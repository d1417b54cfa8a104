/** What one instruction does, said a second time: by opcode bits and plain arithmetic, with none of the
    interpreter's own functions for values, addresses or targets. */
module Steps {
  import opened Isa
  import opened Bits
  import opened Domains
  import opened Division
  import opened Interp
  import opened AluLaws

  // ---- operands -------------------------------------------------------------------------------------

  /** How many values a register, or its low half, can hold. */
  function Values(is64: bool): int { if is64 then 0x1_0000_0000_0000_0000 else 0x1_0000_0000 }

  function Low(is64: bool, x: int): int { x % Values(is64) }

  /** The low part as two's complement. */
  function TwosComplement(is64: bool, x: int): int {
    if Low(is64, x) < Values(is64) / 2 then Low(is64, x) else Low(is64, x) - Values(is64)
  }

  /** A register when bit 3 of the opcode says so, else the immediate, sign and all. */
  function SecondOperand(ins: Insn, s: State): int
    requires s.Valid() && ins.src <= 10
  {
    if ins.code & 0x08 == 0x08 then s.r[ins.src] else ins.imm
  }

  predicate Encodable(p: Program, pc: int, s: State) {
    s.Valid() && 0 <= pc < |p| && p[pc].dst <= 10 && p[pc].src <= 10
  }

  predicate Refuses(p: Program, pc: int, s: State)
    requires Encodable(p, pc, s)
  {
    Step(p, pc, s) == Halt(Result(UNSUPPORTED, 0, pc, p[pc].code))
  }

  lemma OperandIs(ins: Insn, s: State)
    requires s.Valid() && ins.src <= 10
    ensures SrcIsReg(ins.code) <==> ins.code & 0x08 == 0x08
  {
  }

  // ---- jumps ----------------------------------------------------------------------------------------

  /** The relation each conditional jump asks for. */
  ghost predicate Asks(op: bv8, is64: bool, x: int, y: int) {
    var (a, b) := (Low(is64, x), Low(is64, y));
    var (sa, sb) := (TwosComplement(is64, x), TwosComplement(is64, y));
    if op == 0x10 then a == b
    else if op == 0x20 then a > b
    else if op == 0x30 then a >= b
    else if op == 0x40 then ShareBit(a, b)
    else if op == 0x50 then a != b
    else if op == 0x60 then sa > sb
    else if op == 0x70 then sa >= sb
    else if op == 0xa0 then a < b
    else if op == 0xb0 then a <= b
    else if op == 0xc0 then sa < sb
    else sa <= sb
  }

  predicate Conditional(op: bv8) {
    || op == 0x10 || op == 0x20 || op == 0x30 || op == 0x40 || op == 0x50 || op == 0x60
    || op == 0x70 || op == 0xa0 || op == 0xb0 || op == 0xc0 || op == 0xd0
  }

  lemma LowTwice(is64: bool, x: int)
    ensures Low(is64, Low(is64, x)) == Low(is64, x) && Wrap(is64, x) == Low(is64, x)
    ensures Signed(Modulus(is64), Low(is64, x)) == TwosComplement(is64, x) == Signed(Modulus(is64), x)
  {
  }

  lemma TakenAsks(op: bv8, is64: bool, x: u64, y: int, v: u64)
    requires v == y || v == Low(is64, y)
    ensures Taken(op, !is64, x, v) == if Conditional(op) then Some(Asks(op, is64, x, y)) else None
  {
    LowTwice(is64, x);
    LowTwice(is64, y);
    var a, b := Low(is64, x), Low(is64, y);
    assert Wrap(is64, x) == a && Wrap(is64, v) == b;
    assert Signed(Modulus(is64), a) == TwosComplement(is64, x) && Signed(Modulus(is64), b) == TwosComplement(is64, y);
    CommonBit(a, b);
  }

  /** Where a jump goes, at both classes and from either operand: a conditional one to its target if and only
      if the relation holds and else to the next slot, an unconditional one to the offset, or in the 32-bit
      class the immediate; an exit with r0; calls and all else are refused.  Nothing else changes. */
  lemma JumpsGo(p: Program, pc: int, s: State)
    requires Encodable(p, pc, s) && (p[pc].code & 0x07 == 0x05 || p[pc].code & 0x07 == 0x06)
    ensures var (ins, is64, op) := (p[pc], p[pc].code & 0x07 == 0x05, p[pc].code & 0xf0);
            if Conditional(op) then
              Step(p, pc, s) == Next(if Asks(op, is64, s.r[ins.dst], SecondOperand(ins, s)) then pc + 1 + ins.off
                                     else pc + 1, s)
            else if op == 0x00 then Step(p, pc, s) == Next(pc + 1 + (if is64 then ins.off else ins.imm), s)
            else if op == 0x90 && is64 then Step(p, pc, s) == Halt(Result(OK, s.r[0], 0, 0))
            else Refuses(p, pc, s)
  {
    var ins := p[pc];
    var is64, op := ins.code & 0x07 == 0x05, ins.code & 0xf0;
    var y := SecondOperand(ins, s);
    OperandIs(ins, s);
    TakenAsks(op, is64, s.r[ins.dst], y, if SrcIsReg(ins.code) then s.r[ins.src] else Wrap(is64, ins.imm));
    LowTwice(is64, ins.imm);
    assert Step(p, pc, s) == StepJump(ins, pc, s);
  }

  // ---- arithmetic -----------------------------------------------------------------------------------

  function Bitwidth(is64: bool): nat { if is64 then 64 else 32 }

  predicate Magnitude(r: int, b: int) { if b < 0 then b < r < -b else -b < r < b }

  /** r is what truncating division of a by b leaves. */
  predicate Leaves(a: int, b: int, q: int, r: int) {
    q * b + r == a && Magnitude(r, b) && (r == 0 || (r < 0) == (a < 0))
  }

  ghost predicate Quotes(signed: bool, is64: bool, d: int, y: int, v: int) {
    var (a, b) := (Low(is64, d), Low(is64, y));
    var (sa, sb) := (TwosComplement(is64, d), TwosComplement(is64, y));
    if b == 0 then v == 0
    else if !signed then v * b <= a < v * b + b
    else if sb == -1 && 2 * sa == -Values(is64) then v == a
    else exists r: int :: Leaves(sa, sb, TwosComplement(is64, v), r)
  }

  ghost predicate Remains(signed: bool, is64: bool, d: int, y: int, v: int) {
    var (a, b) := (Low(is64, d), Low(is64, y));
    var (sa, sb) := (TwosComplement(is64, d), TwosComplement(is64, y));
    if b == 0 then v == a
    else if !signed then v < b && (a - v) % b == 0
    else if sb == -1 && 2 * sa == -Values(is64) then v == 0
    else exists q: int :: Leaves(sa, sb, q, TwosComplement(is64, v))
  }

  /** Bit k of v is the bit of a that the shift by n brings there, or the one it fills up with. */
  predicate ShiftsBit(op: bv8, w: nat, a: nat, n: nat, v: nat, k: nat)
    requires k < w
  {
    BitSet(v, k) <==>
      if op == 0x60 then k >= n && BitSet(a, k - n)
      else if op == 0x70 then k + n < w && BitSet(a, k + n)
      else BitSet(a, if k + n < w then k + n else w - 1)
  }

  ghost predicate Shifted(op: bv8, w: nat, a: nat, n: nat, v: nat) {
    forall k: nat :: k < w ==> ShiftsBit(op, w, a, n, v, k)
  }

  ghost predicate Combined(op: bv8, w: nat, a: nat, b: nat, v: nat) {
    forall k: nat :: k < w ==>
      (BitSet(v, k) <==>
       if op == 0x40 then BitSet(a, k) || BitSet(b, k)
       else if op == 0x50 then BitSet(a, k) && BitSet(b, k)
       else BitSet(a, k) != BitSet(b, k))
  }

  ghost predicate Extends(w: nat, n: int, b: nat, v: nat)
    requires n > 0
  {
    forall k: nat :: k < w ==> (BitSet(v, k) <==> BitSet(b, if k < n then k else n - 1))
  }

  /** v is the result of the operation on d and y; reg says that y came from a register. */
  ghost predicate Computes(op: bv8, reg: bool, off: int, is64: bool, d: int, y: int, v: nat) {
    var (w, a, b) := (Bitwidth(is64), Low(is64, d), Low(is64, y));
    v < Values(is64) &&
    if op == 0x00 then v == Low(is64, d + y)
    else if op == 0x10 then Low(is64, v + y) == a
    else if op == 0x20 then v == Low(is64, a * b)
    else if op == 0x30 then Quotes(off == 1, is64, d, y, v)
    else if op == 0x40 || op == 0x50 || op == 0xa0 then Combined(op, w, a, b, v)
    else if op == 0x60 || op == 0x70 || op == 0xc0 then
      reg || 0 <= y < w ==> Shifted(op, w, a, if reg then y % w else y, v)
    else if op == 0x80 then Low(is64, v + d) == 0
    else if op == 0x90 then Remains(off == 1, is64, d, y, v)
    else if off == 0 then v == b
    else off > 0 && Extends(w, off, b, v)
  }

  predicate Computable(op: bv8, reg: bool, off: int) {
    if op == 0x30 || op == 0x90 then off == 0 || off == 1
    else if op == 0xb0 then off == 0 || (reg && (off == 8 || off == 16 || off == 32))
    else op != 0xd0 && op != 0xe0 && op != 0xf0
  }

  lemma Residues(m: int, x: int) returns (k: int)
    requires m > 0
    ensures x == x % m + m * k
  {
    k := x / m;
  }

  lemma SumResidue(m: int, x: int, y: int)
    requires m > 0
    ensures (x % m + y % m) % m == (x + y) % m == (x % m + y) % m
  {
    var j := Residues(m, x);
    var k := Residues(m, y);
    assert x + y == (x % m + y % m) + m * (j + k) == (x % m + y) + m * j;
    SameResidue(x + y, x % m + y % m, m, j + k);
    SameResidue(x + y, x % m + y, m, j);
  }

  lemma DifferenceResidue(m: int, x: int, y: int)
    requires m > 0
    ensures (x % m - y % m) % m == (x - y) % m
  {
    var j := Residues(m, x);
    var k := Residues(m, y);
    assert x - y == (x % m - y % m) + m * (j - k);
    SameResidue(x - y, x % m - y % m, m, j - k);
  }

  lemma Adds(is64: bool, reg: bool, off: i16, d: u64, y: int, v: u64)
    requires Low(is64, v) == Low(is64, y)
    ensures Alu(is64, 0x00, reg, off, d, v) == Some(Low(is64, d + y))
  {
    LowTwice(is64, d);
    LowTwice(is64, v);
    SumResidue(Values(is64), d, y);
  }

  lemma Subtracts(is64: bool, reg: bool, off: i16, d: u64, y: int, v: u64)
    requires Low(is64, v) == Low(is64, y)
    ensures Alu(is64, 0x10, reg, off, d, v) == Some(Low(is64, d - y)) && Low(is64, Low(is64, d - y) + y) == Low(is64, d)
  {
    LowTwice(is64, d);
    LowTwice(is64, v);
    DifferenceResidue(Values(is64), d, y);
    SumResidue(Values(is64), d - y, y);
  }

  lemma Negates(is64: bool, reg: bool, off: i16, d: u64, v: u64)
    ensures Alu(is64, 0x80, reg, off, d, v) == Some(Low(is64, 0 - d)) && Low(is64, Low(is64, 0 - d) + d) == 0
  {
    LowTwice(is64, d);
    DifferenceResidue(Values(is64), 0, d);
    SumResidue(Values(is64), 0 - d, d);
  }

  lemma UnsignedDivides(is64: bool, reg: bool, d: u64, y: int, v: u64)
    requires Low(is64, v) == Low(is64, y)
    ensures var q, r := Alu(is64, 0x30, reg, 0, d, v), Alu(is64, 0x90, reg, 0, d, v);
            q.Some? && r.Some? && Quotes(false, is64, d, y, q.value) && Remains(false, is64, d, y, r.value)
  {
    var a, b := Low(is64, d), Low(is64, v);
    LowTwice(is64, d);
    UnsignedLaw(is64, a, b);
    var q, r := DivU(is64, a, b), ModU(is64, a, b);
    if b != 0 {
      RemainderIs(a - r, b, q, 0);
    }
  }

  /** The operands on which signed division is the truncating one. */
  predicate Regular(is64: bool, sa: int, sb: int) { sb != 0 && !(sb == -1 && 2 * sa == -Values(is64)) }

  lemma SignedValues(is64: bool, reg: bool, d: u64, y: int, v: u64)
    requires Low(is64, v) == Low(is64, y)
    ensures var (sa, sb) := (TwosComplement(is64, d), TwosComplement(is64, y));
            && Alu(is64, 0x30, reg, 1, d, v) ==
               Some(if sb == 0 then 0 else if Regular(is64, sa, sb) then Low(is64, TruncDiv(sa, sb)) else Low(is64, d))
            && Alu(is64, 0x90, reg, 1, d, v) ==
               Some(if sb == 0 then Low(is64, d) else if Regular(is64, sa, sb) then Low(is64, TruncMod(sa, sb)) else 0)
  {
    LowTwice(is64, d);
    LowTwice(is64, v);
  }

  lemma ReadsBack(is64: bool, x: int)
    requires -Values(is64) <= 2 * x < Values(is64)
    ensures TwosComplement(is64, Low(is64, x)) == x
  {
    SignedReads(Values(is64), x);
    LowTwice(is64, x);
  }

  lemma SignedDivides(is64: bool, reg: bool, d: u64, y: int, v: u64)
    requires Low(is64, v) == Low(is64, y)
    ensures var q, r := Alu(is64, 0x30, reg, 1, d, v), Alu(is64, 0x90, reg, 1, d, v);
            q.Some? && r.Some? && Quotes(true, is64, d, y, q.value) && Remains(true, is64, d, y, r.value)
  {
    var sa, sb := TwosComplement(is64, d), TwosComplement(is64, y);
    SignedValues(is64, reg, d, y, v);
    if Regular(is64, sa, sb) {
      var q, r := TruncDiv(sa, sb), TruncMod(sa, sb);
      TruncLaw(sa, sb);
      TruncFits(sa, sb, Values(is64));
      ReadsBack(is64, q);
      ReadsBack(is64, r);
      assert Leaves(sa, sb, q, r);
    }
  }

  lemma TruncFits(a: int, b: int, m: int)
    requires b != 0 && -m <= 2 * a < m && -m <= 2 * b < m && !(b == -1 && 2 * a == -m)
    ensures -m <= 2 * TruncDiv(a, b) < m && -m <= 2 * TruncMod(a, b) < m
  {
    QuotientInRange(Abs(a), Abs(b));
    if Abs(b) >= 2 {
      HalfAtMost(Abs(a), Abs(b));
    }
  }

  lemma HalfAtMost(a: nat, b: nat)
    requires b >= 2
    ensures 2 * (a / b) <= a
  {
    QuotientInRange(a, b);
    assert a / b * 2 <= a / b * b;
  }

  lemma Multiplies(is64: bool, reg: bool, off: i16, d: u64, y: int, v: u64)
    requires Low(is64, v) == Low(is64, y)
    ensures Alu(is64, 0x20, reg, off, d, v) == Some(Low(is64, Low(is64, d) * Low(is64, y)))
  {
  }

  lemma ShiftedBit(is64: bool, op: bv8, reg: bool, off: i16, d: u64, n: nat, v: u64, k: nat)
    requires op == 0x60 || op == 0x70 || op == 0xc0
    requires k < Bitwidth(is64) && n == Amount(is64, reg, v) < Bitwidth(is64)
    ensures var r := Alu(is64, op, reg, off, d, v);
            r.Some? && ShiftsBit(op, Bitwidth(is64), Low(is64, d), n, r.value, k)
  {
    var w := Bitwidth(is64);
    ModulusIsPower(is64);
    if op == 0xc0 {
      ArithmeticShift(is64, reg, off, d, v, k);
      LowBitsKept(d, w, if k + n < w then k + n else w - 1);
    } else {
      LogicalShifts(is64, reg, off, d, v, k);
      if op == 0x60 && k >= n {
        LowBitsKept(d, w, k - n);
      }
      if op == 0x70 && k + n < w {
        LowBitsKept(d, w, k + n);
      }
    }
  }

  lemma Shifts(is64: bool, op: bv8, reg: bool, off: i16, d: u64, y: int, v: u64)
    requires op == 0x60 || op == 0x70 || op == 0xc0
    requires if reg then v == y else 0 <= y < Bitwidth(is64) && v == Low(is64, y)
    ensures var r := Alu(is64, op, reg, off, d, v);
            r.Some? && Shifted(op, Bitwidth(is64), Low(is64, d), if reg then y % Bitwidth(is64) else y, r.value)
  {
    var w, n, r := Bitwidth(is64), Amount(is64, reg, v), Alu(is64, op, reg, off, d, v);
    ShiftedBit(is64, op, reg, off, d, n, v, 0);
    forall k: nat | k < w ensures ShiftsBit(op, w, Low(is64, d), n, r.value, k) {
      ShiftedBit(is64, op, reg, off, d, n, v, k);
    }
  }

  lemma Combines(is64: bool, op: bv8, reg: bool, off: i16, d: u64, y: int, v: u64)
    requires (op == 0x40 || op == 0x50 || op == 0xa0) && Low(is64, v) == Low(is64, y)
    ensures var r := Alu(is64, op, reg, off, d, v);
            r.Some? && Combined(op, Bitwidth(is64), Low(is64, d), Low(is64, y), r.value)
  {
    ModulusIsPower(is64);
    var w, a, b := Bitwidth(is64), Low(is64, d), Low(is64, y);
    forall k: nat | k < w
      ensures var r := Alu(is64, op, reg, off, d, v);
              r.Some? && (BitSet(r.value, k) <==>
              if op == 0x40 then BitSet(a, k) || BitSet(b, k)
              else if op == 0x50 then BitSet(a, k) && BitSet(b, k)
              else BitSet(a, k) != BitSet(b, k))
    {
      LogicBits(is64, reg, off, d, v, k);
      LowBitsKept(d, w, k);
      LowBitsKept(v, w, k);
    }
  }

  lemma Moves(is64: bool, reg: bool, off: i16, d: u64, y: int, v: u64)
    requires Low(is64, v) == Low(is64, y)
    ensures Alu(is64, 0xb0, reg, 0, d, v) == Some(Low(is64, y))
    ensures reg && (off == 8 || off == 16 || off == 32) ==>
              && Alu(is64, 0xb0, reg, off, d, v).Some?
              && Extends(Bitwidth(is64), off, Low(is64, y), Alu(is64, 0xb0, reg, off, d, v).value)
  {
    if reg && (off == 8 || off == 16 || off == 32) {
      ModulusIsPower(is64);
      forall k: nat | k < Bitwidth(is64)
        ensures var r := Alu(is64, 0xb0, true, off, d, v);
                r.Some? && (BitSet(r.value, k) <==> BitSet(Low(is64, y), if k < off then k else off - 1))
      {
        SignExtends(is64, off, d, v, k);
        LowBitsKept(v, Bitwidth(is64), if k < off then k else off - 1);
      }
    }
  }

  lemma AluComputes(is64: bool, op: bv8, reg: bool, off: i16, d: u64, y: int, v: u64)
    requires op & 0x0f == 0 && (if reg then v == y else v == Low(is64, y))
    ensures var r := Alu(is64, op, reg, off, d, v);
            if Computable(op, reg, off) then r.Some? && Computes(op, reg, off, is64, d, y, r.value) else r == None
  {
    LowTwice(is64, y);
    if op == 0x00 {
      Adds(is64, reg, off, d, y, v);
    } else if op == 0x10 {
      Subtracts(is64, reg, off, d, y, v);
    } else if op == 0x80 {
      Negates(is64, reg, off, d, v);
    } else if op == 0x20 {
      Multiplies(is64, reg, off, d, y, v);
    } else if op == 0x30 || op == 0x90 {
      UnsignedDivides(is64, reg, d, y, v);
      SignedDivides(is64, reg, d, y, v);
    } else if op == 0x40 || op == 0x50 || op == 0xa0 {
      Combines(is64, op, reg, off, d, y, v);
    } else if op == 0x60 || op == 0x70 || op == 0xc0 {
      if reg || 0 <= y < Bitwidth(is64) {
        Shifts(is64, op, reg, off, d, y, v);
      }
    } else if op == 0xb0 {
      Moves(is64, reg, off, d, y, v);
    }
  }

  /** An arithmetic instruction leaves its result in dst, changes nothing else, and goes on; at both widths
      a 32-bit result fills the upper half with zeros.  An operation or offset with no meaning is refused. */
  lemma ArithmeticLeaves(p: Program, pc: int, s: State)
    requires Encodable(p, pc, s) && (p[pc].code & 0x07 == 0x04 || p[pc].code & 0x07 == 0x07)
    ensures var (ins, is64) := (p[pc], p[pc].code & 0x07 == 0x07);
            var (op, reg) := (ins.code & 0xf0, ins.code & 0x08 == 0x08);
            if Computable(op, reg, ins.off) then
              exists v: u64 :: Computes(op, reg, ins.off, is64, s.r[ins.dst], SecondOperand(ins, s), v)
                               && Step(p, pc, s) == Next(pc + 1, State(s.r[ins.dst := v], s.mem))
            else Refuses(p, pc, s)
  {
    var ins := p[pc];
    var is64, op, reg := ins.code & 0x07 == 0x07, ins.code & 0xf0, ins.code & 0x08 == 0x08;
    var y := SecondOperand(ins, s);
    OperandIs(ins, s);
    LowTwice(is64, ins.imm);
    OperationNibble(ins.code);
    AluComputes(is64, op, reg, ins.off, s.r[ins.dst], y, if reg then s.r[ins.src] else Wrap(is64, ins.imm));
    assert Step(p, pc, s) == StepAlu(ins, pc, s);
  }

  lemma OperationNibble(c: bv8)
    ensures (c & 0xf0) & 0x0f == 0
  {
  }
}
