/** The checks of one abstract register state against itself: tnum, 64-bit ranges and 32-bit
    ranges each over-approximate one set of values, so on a state some value satisfies none of
    them may fire. */
module Intrinsic {
  import opened Isa
  import opened Bits
  import opened Records

  // ---- conditions -----------------------------------------------------------------------------------

  /** `order_checkable`: neither endpoint at its extreme. */
  predicate OrderCheckable(lo: int, hi: int, min: int, max: int) { lo > min && hi < max }

  predicate TnumBoundsCheckable(reg: RegState) {
    reg.IsScalar() && reg.tnum.mask != 0 && reg.tnum.mask != U64_MAX && (reg.umin > 0 || reg.umax < U64_MAX)
  }

  function SpanHi(t: Tnum): nat { Or(t.value, t.mask) }

  function Low32(x: nat): nat { x % TWO32 }

  function High32(x: nat): nat { x / TWO32 }

  predicate Reg32Checkable(reg: RegState) {
    && reg.IsScalar()
    && !(reg.U32Lo() == 0 && reg.U32Hi() == U32_MAX)
    && (reg.U32Lo() != Low32(reg.umin) || reg.U32Hi() != Low32(reg.umax) || High32(reg.umin) != High32(reg.umax))
  }

  function ToSigned(x: nat): int { if x < TWO63 then x else x - TWO64 }

  // ---- check_logical_invariants ---------------------------------------------------------------------

  function At(insn: nat, reg: RegState, k: Kind): Finding { Finding(k, insn, reg.reg) }

  /** Two comparisons counted where they could fire, and one finding. */
  function Partial(r: Report, counts: bool, partial: bool, overlap: bool, f: Finding): Report {
    Note(Tick(Tick(r, counts, TnumBounds), partial, TnumWellformed), overlap, f)
  }

  function TnumPart(r: Report, insn: nat, reg: RegState): Report {
    Partial(r, TnumBoundsCheckable(reg), TnumPartial(reg.tnum), TnumOverlaps(reg.tnum),
            At(insn, reg, TnumMalformed))
  }

  /** An unsigned and a signed range, each counted where it could be inverted and reported where it is. */
  function Ordering(r: Report, uCheckable: bool, uInverted: bool, u: Finding, sCheckable: bool, sInverted: bool,
                    s: Finding): Report {
    Note(Tick(Note(Tick(r, uCheckable, BoundsOrder), uInverted, u), sCheckable, BoundsOrder), sInverted, s)
  }

  predicate UnsignedBackwards(reg: RegState) { reg.umin > reg.umax }

  predicate SignedBackwards(reg: RegState) { reg.smin > reg.smax }

  predicate UnsignedOrderable(reg: RegState) { OrderCheckable(reg.umin, reg.umax, 0, U64_MAX) }

  predicate SignedOrderable(reg: RegState) { OrderCheckable(reg.smin, reg.smax, I64_MIN, I64_MAX) }

  predicate TnumOverlaps(t: Tnum) { And(t.value, t.mask) != 0 }

  predicate TnumPartial(t: Tnum) { t.value != 0 && t.mask != 0 }

  function OrderPart(r: Report, insn: nat, reg: RegState): Report {
    Ordering(r, UnsignedOrderable(reg), UnsignedBackwards(reg), At(insn, reg, UnsignedInverted),
             SignedOrderable(reg), SignedBackwards(reg), At(insn, reg, SignedInverted))
  }

  /** Behind a gate, one comparison counted and up to two findings. */
  function Gated(r: Report, gate: bool, k: Counter, c1: bool, f1: Finding, c2: bool, f2: Finding): Report {
    if gate then Note(Note(Tick(r, true, k), c1, f1), c2, f2) else r
  }

  predicate ConstGate(reg: RegState) {
    reg.tnum.mask == 0 && reg.umax != U64_MAX && reg.boundsFromLog
  }

  predicate SignedNotPinned(reg: RegState) {
    var sval := ToSigned(reg.tnum.value);
    reg.smin != I64_MIN && reg.smax != I64_MAX && (reg.smin != sval || reg.smax != sval)
  }

  predicate UnsignedNotPinned(reg: RegState) {
    reg.umin != reg.tnum.value || reg.umax != reg.tnum.value
  }

  function ConstPart(r: Report, insn: nat, reg: RegState): Report {
    Gated(r, ConstGate(reg), TnumBounds, SignedNotPinned(reg), At(insn, reg, ConstTnumMismatch),
          UnsignedNotPinned(reg), At(insn, reg, ConstTnumMismatch))
  }

  predicate SpanDisjoint(reg: RegState) {
    reg.umin <= reg.umax && (SpanHi(reg.tnum) < reg.umin || reg.tnum.value > reg.umax)
  }

  function LogicalOf(r: Report, insn: nat, reg: RegState): Report {
    var r1 := OrderPart(TnumPart(r, insn, reg), insn, reg);
    Note(ConstPart(r1, insn, reg), SpanDisjoint(reg), At(insn, reg, TnumBoundsInconsistent))
  }

  // ---- check_subregister_invariants -----------------------------------------------------------------

  function Order32Part(r: Report, insn: nat, reg: RegState): Report {
    Ordering(r, OrderCheckable(reg.U32Lo(), reg.U32Hi(), 0, U32_MAX), reg.U32Lo() > reg.U32Hi(),
             At(insn, reg, U32Inverted),
             OrderCheckable(reg.S32Lo(), reg.S32Hi(), I32_MIN, I32_MAX), reg.S32Lo() > reg.S32Hi(),
             At(insn, reg, S32Inverted))
  }

  predicate Tnum32Disjoint(reg: RegState) {
    Low32(SpanHi(reg.tnum)) < reg.U32Lo() || Low32(reg.tnum.value) > reg.U32Hi()
  }

  predicate ViewsDisjoint(reg: RegState) {
    High32(reg.umin) == High32(reg.umax) && (Low32(reg.umax) < reg.U32Lo() || Low32(reg.umin) > reg.U32Hi())
  }

  function ViewsPart(r: Report, insn: nat, reg: RegState): Report {
    Gated(r, Reg32Checkable(reg), Reg32, Tnum32Disjoint(reg), At(insn, reg, Tnum32Inconsistent),
          ViewsDisjoint(reg), At(insn, reg, Reg32Reg64Inconsistent))
  }

  function SubOf(r: Report, insn: nat, reg: RegState): Report {
    if reg.IsScalar() then ViewsPart(Order32Part(r, insn, reg), insn, reg) else r
  }

  // ---- the loops ------------------------------------------------------------------------------------

  function OneOf(r: Report, insn: nat, reg: RegState, sub: bool): Report {
    if sub then SubOf(r, insn, reg) else LogicalOf(r, insn, reg)
  }

  function OverRegs(r: Report, insn: nat, regs: seq<RegState>, sub: bool): Report {
    if regs == [] then r else OneOf(OverRegs(r, insn, regs[..|regs| - 1], sub), insn, regs[|regs| - 1], sub)
  }

  function OverEvolution(r: Report, evo: seq<Snapshot>, sub: bool): Report {
    if evo == [] then r
    else OverRegs(OverEvolution(r, evo[..|evo| - 1], sub), evo[|evo| - 1].insnIdx, evo[|evo| - 1].regs, sub)
  }

  method PushOrdering(uCheckable: bool, uInverted: bool, u: Finding, sCheckable: bool, sInverted: bool, s: Finding,
                      out: Sink)
    modifies out
    ensures out.Abs() == Ordering(old(out.Abs()), uCheckable, uInverted, u, sCheckable, sInverted, s)
  {
    out.Count(uCheckable, BoundsOrder);
    out.Push(uInverted, u);
    out.Count(sCheckable, BoundsOrder);
    out.Push(sInverted, s);
  }

  method PushPartial(counts: bool, partial: bool, overlap: bool, f: Finding, out: Sink)
    modifies out
    ensures out.Abs() == Partial(old(out.Abs()), counts, partial, overlap, f)
  {
    out.Count(counts, TnumBounds);
    out.Count(partial, TnumWellformed);
    out.Push(overlap, f);
  }

  method PushGated(gate: bool, k: Counter, c1: bool, f1: Finding, c2: bool, f2: Finding, out: Sink)
    modifies out
    ensures out.Abs() == Gated(old(out.Abs()), gate, k, c1, f1, c2, f2)
  {
    if gate {
      out.Count(true, k);
      out.Push(c1, f1);
      out.Push(c2, f2);
    }
  }

  method CheckTnum(insn: nat, reg: RegState, out: Sink)
    modifies out
    ensures out.Abs() == TnumPart(old(out.Abs()), insn, reg)
  {
    PushPartial(TnumBoundsCheckable(reg), TnumPartial(reg.tnum), TnumOverlaps(reg.tnum),
                At(insn, reg, TnumMalformed), out);
  }

  method CheckOrder(insn: nat, reg: RegState, out: Sink)
    modifies out
    ensures out.Abs() == OrderPart(old(out.Abs()), insn, reg)
  {
    PushOrdering(UnsignedOrderable(reg), UnsignedBackwards(reg), At(insn, reg, UnsignedInverted),
                 SignedOrderable(reg), SignedBackwards(reg), At(insn, reg, SignedInverted), out);
  }

  method CheckConst(insn: nat, reg: RegState, out: Sink)
    modifies out
    ensures out.Abs() == ConstPart(old(out.Abs()), insn, reg)
  {
    PushGated(ConstGate(reg), TnumBounds, SignedNotPinned(reg), At(insn, reg, ConstTnumMismatch),
              UnsignedNotPinned(reg), At(insn, reg, ConstTnumMismatch), out);
  }

  /** The loop body of `check_logical_invariants`. */
  method CheckLogical(insn: nat, reg: RegState, out: Sink)
    modifies out
    ensures out.Abs() == LogicalOf(old(out.Abs()), insn, reg)
  {
    CheckTnum(insn, reg, out);
    CheckOrder(insn, reg, out);
    CheckConst(insn, reg, out);
    out.Push(SpanDisjoint(reg), At(insn, reg, TnumBoundsInconsistent));
  }

  /** The loop body of `check_subregister_invariants`. */
  method CheckSubregister(insn: nat, reg: RegState, out: Sink)
    modifies out
    ensures out.Abs() == SubOf(old(out.Abs()), insn, reg)
  {
    if !reg.IsScalar() {
      return;
    }
    PushOrdering(OrderCheckable(reg.U32Lo(), reg.U32Hi(), 0, U32_MAX), reg.U32Lo() > reg.U32Hi(),
                 At(insn, reg, U32Inverted),
                 OrderCheckable(reg.S32Lo(), reg.S32Hi(), I32_MIN, I32_MAX), reg.S32Lo() > reg.S32Hi(),
                 At(insn, reg, S32Inverted), out);
    PushGated(Reg32Checkable(reg), Reg32, Tnum32Disjoint(reg), At(insn, reg, Tnum32Inconsistent),
              ViewsDisjoint(reg), At(insn, reg, Reg32Reg64Inconsistent), out);
  }

  /** Both checks' loops over every register of every snapshot. */
  method CheckEvolution(evo: seq<Snapshot>, sub: bool, out: Sink)
    modifies out
    ensures out.Abs() == OverEvolution(old(out.Abs()), evo, sub)
  {
    ghost var start := out.Abs();
    for i := 0 to |evo|
      invariant out.Abs() == OverEvolution(start, evo[..i], sub)
    {
      assert evo[..i + 1][..i] == evo[..i];
      CheckSnapshot(evo[i], sub, out);
    }
    assert evo[..|evo|] == evo;
  }

  method CheckOne(insn: nat, reg: RegState, sub: bool, out: Sink)
    modifies out
    ensures out.Abs() == OneOf(old(out.Abs()), insn, reg, sub)
  {
    if sub {
      CheckSubregister(insn, reg, out);
    } else {
      CheckLogical(insn, reg, out);
    }
  }

  lemma OverRegsStep(r: Report, insn: nat, regs: seq<RegState>, j: nat, sub: bool)
    requires j < |regs|
    ensures OverRegs(r, insn, regs[..j + 1], sub) == OneOf(OverRegs(r, insn, regs[..j], sub), insn, regs[j], sub)
  {
    assert regs[..j + 1][..j] == regs[..j];
  }

  method CheckSnapshot(snap: Snapshot, sub: bool, out: Sink)
    modifies out
    ensures out.Abs() == OverRegs(old(out.Abs()), snap.insnIdx, snap.regs, sub)
  {
    ghost var before := out.Abs();
    for j := 0 to |snap.regs|
      invariant out.Abs() == OverRegs(before, snap.insnIdx, snap.regs[..j], sub)
    {
      OverRegsStep(before, snap.insnIdx, snap.regs, j, sub);
      CheckOne(snap.insnIdx, snap.regs[j], sub, out);
    }
    assert snap.regs[..|snap.regs|] == snap.regs;
  }
}
