/** What the checks of one register state append and count, spelled out on its fields. */
module Checks {
  import opened Isa
  import opened Bits
  import opened Records
  import opened Intrinsic

  function Line(c: bool, k: Kind, insn: nat, reg: nat): seq<Finding> {
    if c then [Finding(k, insn, reg)] else []
  }

  function One(b: bool): nat { if b then 1 else 0 }

  /** A printed end of a range, or its extreme. */
  function Or0(x: Option<u64>): int { if x == None then 0 else x.value }

  function OrAll(x: Option<u64>): int { if x == None then 0xffff_ffff else x.value }

  function OrLeast(x: Option<i64>): int { if x == None then -0x8000_0000 else x.value }

  function OrMost(x: Option<i64>): int { if x == None then 0x7fff_ffff else x.value }

  /** The constant as a signed number. */
  function SignedValue(v: u64): int { if v < 0x8000_0000_0000_0000 then v else v - 0x1_0000_0000_0000_0000 }

  /** A constant whose bounds come from the log and are not left open above. */
  predicate Pinned(reg: RegState) {
    reg.tnum.mask == 0 && reg.umax != 0xffff_ffff_ffff_ffff && reg.boundsFromLog
  }

  /** One more finding, or none. */
  lemma NoteLine(r: Report, c: bool, k: Kind, insn: nat, reg: nat)
    ensures Note(r, c, Finding(k, insn, reg)).findings == r.findings + Line(c, k, insn, reg)
    ensures Note(r, c, Finding(k, insn, reg)).checked == r.checked
  {
    assert r.findings + [] == r.findings;
  }

  lemma PartialLines(r: Report, counts: bool, partial: bool, overlap: bool, k: Kind, insn: nat, reg: nat, n: Counter)
    ensures var now := Partial(r, counts, partial, overlap, Finding(k, insn, reg));
            && now.findings == r.findings + Line(overlap, k, insn, reg)
            && now.checked[n] == r.checked[n] + One(counts && n == TnumBounds) + One(partial && n == TnumWellformed)
  {
    NoteLine(Tick(Tick(r, counts, TnumBounds), partial, TnumWellformed), overlap, k, insn, reg);
  }

  lemma OrderingLines(r: Report, uC: bool, uI: bool, u: Kind, sC: bool, sI: bool, s: Kind, insn: nat, reg: nat,
                      n: Counter)
    ensures var now := Ordering(r, uC, uI, Finding(u, insn, reg), sC, sI, Finding(s, insn, reg));
            && now.findings == r.findings + Line(uI, u, insn, reg) + Line(sI, s, insn, reg)
            && now.checked[n] == r.checked[n] + One(uC && n == BoundsOrder) + One(sC && n == BoundsOrder)
  {
    var r1 := Tick(r, uC, BoundsOrder);
    NoteLine(r1, uI, u, insn, reg);
    var r2 := Note(r1, uI, Finding(u, insn, reg));
    NoteLine(Tick(r2, sC, BoundsOrder), sI, s, insn, reg);
  }

  lemma GatedLines(r: Report, gate: bool, c: Counter, c1: bool, k1: Kind, c2: bool, k2: Kind, insn: nat, reg: nat,
                   n: Counter)
    ensures var now := Gated(r, gate, c, c1, Finding(k1, insn, reg), c2, Finding(k2, insn, reg));
            && now.findings == r.findings + Line(gate && c1, k1, insn, reg) + Line(gate && c2, k2, insn, reg)
            && now.checked[n] == r.checked[n] + One(gate && n == c)
  {
    var r1 := Tick(r, true, c);
    NoteLine(r1, c1, k1, insn, reg);
    NoteLine(Note(r1, c1, Finding(k1, insn, reg)), c2, k2, insn, reg);
    assert r.findings + [] + [] == r.findings;
  }

  ghost function TnumLine(insn: nat, reg: RegState): seq<Finding> {
    Line(ShareBit(reg.tnum.value, reg.tnum.mask), TnumMalformed, insn, reg.reg)
  }

  function OrderLines(insn: nat, reg: RegState): seq<Finding> {
    Line(reg.umin > reg.umax, UnsignedInverted, insn, reg.reg) +
        Line(reg.smin > reg.smax, SignedInverted, insn, reg.reg)
  }

  /** A constant is held to a signed range that is closed on both sides, and to the unsigned one. */
  function ConstLines(insn: nat, reg: RegState): seq<Finding> {
    Line(Pinned(reg) && reg.smin != -0x8000_0000_0000_0000 && reg.smax != 0x7fff_ffff_ffff_ffff
         && !(reg.smin == SignedValue(reg.tnum.value) == reg.smax), ConstTnumMismatch, insn, reg.reg)
    + Line(Pinned(reg) && !(reg.umin == reg.tnum.value == reg.umax), ConstTnumMismatch, insn, reg.reg)
  }

  function SpanLine(insn: nat, reg: RegState): seq<Finding> {
    Line(reg.umin <= reg.umax && (Or(reg.tnum.value, reg.tnum.mask) < reg.umin || reg.tnum.value > reg.umax),
         TnumBoundsInconsistent, insn, reg.reg)
  }

  /** A scalar with some bits known and some open, and a bound on one side at least. */
  predicate PartlyKnown(reg: RegState) {
    && reg.regType == "scalar" && reg.tnum.mask != 0 && reg.tnum.mask != 0xffff_ffff_ffff_ffff
    && (reg.umin > 0 || reg.umax < 0xffff_ffff_ffff_ffff)
  }

  /** What they add to each counter. */
  function Adds64(reg: RegState, n: Counter): nat {
    One(n == TnumBounds && PartlyKnown(reg)) + One(n == TnumBounds && Pinned(reg))
    + One(n == TnumWellformed && reg.tnum.value != 0 && reg.tnum.mask != 0)
    + One(n == BoundsOrder && reg.umin > 0 && reg.umax < 0xffff_ffff_ffff_ffff)
    + One(n == BoundsOrder && reg.smin > -0x8000_0000_0000_0000 && reg.smax < 0x7fff_ffff_ffff_ffff)
  }

  lemma TnumAdds(r: Report, insn: nat, reg: RegState, n: Counter)
    ensures TnumPart(r, insn, reg).findings == r.findings + TnumLine(insn, reg)
    ensures TnumPart(r, insn, reg).checked[n] == r.checked[n] + One(n == TnumBounds && PartlyKnown(reg))
            + One(n == TnumWellformed && reg.tnum.value != 0 && reg.tnum.mask != 0)
  {
    CommonBit(reg.tnum.value, reg.tnum.mask);
    PartialLines(r, TnumBoundsCheckable(reg), TnumPartial(reg.tnum), TnumOverlaps(reg.tnum), TnumMalformed, insn,
                 reg.reg, n);
  }

  lemma OrderAdds(r: Report, insn: nat, reg: RegState, n: Counter)
    ensures OrderPart(r, insn, reg).findings == r.findings + OrderLines(insn, reg)
    ensures OrderPart(r, insn, reg).checked[n] ==
            r.checked[n] + One(n == BoundsOrder && reg.umin > 0 && reg.umax < 0xffff_ffff_ffff_ffff)
            + One(n == BoundsOrder && reg.smin > -0x8000_0000_0000_0000 && reg.smax < 0x7fff_ffff_ffff_ffff)
  {
    OrderingLines(r, UnsignedOrderable(reg), UnsignedBackwards(reg), UnsignedInverted,
                  SignedOrderable(reg), SignedBackwards(reg), SignedInverted, insn, reg.reg, n);
    Regroup(r.findings, Line(reg.umin > reg.umax, UnsignedInverted, insn, reg.reg),
            Line(reg.smin > reg.smax, SignedInverted, insn, reg.reg));
  }

  lemma Regroup<T>(s: seq<T>, a: seq<T>, b: seq<T>)
    ensures s + a + b == s + (a + b)
  {
  }

  lemma ConstAdds(r: Report, insn: nat, reg: RegState, n: Counter)
    ensures ConstPart(r, insn, reg).findings == r.findings + ConstLines(insn, reg)
    ensures ConstPart(r, insn, reg).checked[n] == r.checked[n] + One(n == TnumBounds && Pinned(reg))
  {
    GatedLines(r, ConstGate(reg), TnumBounds, SignedNotPinned(reg), ConstTnumMismatch,
               UnsignedNotPinned(reg), ConstTnumMismatch, insn, reg.reg, n);
    Regroup(r.findings, Line(ConstGate(reg) && SignedNotPinned(reg), ConstTnumMismatch, insn, reg.reg),
            Line(ConstGate(reg) && UnsignedNotPinned(reg), ConstTnumMismatch, insn, reg.reg));
  }

  /** The 64-bit checks of one register append these findings, in this order, and count these comparisons. */
  lemma LogicalAdds(r: Report, insn: nat, reg: RegState, n: Counter)
    ensures LogicalOf(r, insn, reg).findings ==
            r.findings + (TnumLine(insn, reg) + OrderLines(insn, reg) + ConstLines(insn, reg) + SpanLine(insn, reg))
    ensures LogicalOf(r, insn, reg).checked[n] == r.checked[n] + Adds64(reg, n)
  {
    var r1 := TnumPart(r, insn, reg);
    var r2 := OrderPart(r1, insn, reg);
    TnumAdds(r, insn, reg, n);
    OrderAdds(r1, insn, reg, n);
    ConstAdds(r2, insn, reg, n);
    NoteLine(ConstPart(r2, insn, reg), SpanDisjoint(reg), TnumBoundsInconsistent, insn, reg.reg);
    Joined(r.findings, TnumLine(insn, reg), OrderLines(insn, reg), ConstLines(insn, reg), SpanLine(insn, reg));
  }

  lemma Joined<T>(s: seq<T>, a: seq<T>, b: seq<T>, c: seq<T>, d: seq<T>)
    ensures s + a + b + c + d == s + (a + b + c + d)
  {
  }

  // ---- 32 bits ------------------------------------------------------------------------------------------

  /** A 32-bit range that says something the 64-bit one does not. */
  predicate SaysMore(reg: RegState) {
    var lo, hi, b := Or0(reg.u32Min), OrAll(reg.u32Max), 0x1_0000_0000;
    && reg.regType == "scalar" && !(lo == 0 && hi == 0xffff_ffff)
    && (lo != reg.umin % b || hi != reg.umax % b || reg.umin / b != reg.umax / b)
  }

  function Order32Lines(insn: nat, reg: RegState): seq<Finding> {
    Line(reg.regType == "scalar" && Or0(reg.u32Min) > OrAll(reg.u32Max), U32Inverted, insn, reg.reg)
    + Line(reg.regType == "scalar" && OrLeast(reg.s32Min) > OrMost(reg.s32Max), S32Inverted, insn, reg.reg)
  }

  /** The low half of the tnum's span, and the low halves of the 64-bit ends within one block, against the range. */
  function ViewLines(insn: nat, reg: RegState): seq<Finding> {
    var lo, hi, b := Or0(reg.u32Min), OrAll(reg.u32Max), 0x1_0000_0000;
    Line(SaysMore(reg) && (Or(reg.tnum.value, reg.tnum.mask) % b < lo || reg.tnum.value % b > hi),
         Tnum32Inconsistent, insn, reg.reg)
    + Line(SaysMore(reg) && reg.umin / b == reg.umax / b && (reg.umax % b < lo || reg.umin % b > hi),
           Reg32Reg64Inconsistent, insn, reg.reg)
  }

  function Adds32(reg: RegState, n: Counter): nat {
    var scalar := reg.regType == "scalar";
    One(n == BoundsOrder && scalar && Or0(reg.u32Min) > 0 && OrAll(reg.u32Max) < 0xffff_ffff)
    + One(n == BoundsOrder && scalar && OrLeast(reg.s32Min) > -0x8000_0000 && OrMost(reg.s32Max) < 0x7fff_ffff)
    + One(n == Reg32 && SaysMore(reg))
  }

  lemma RangeEnds(reg: RegState)
    ensures reg.U32Lo() == Or0(reg.u32Min) && reg.U32Hi() == OrAll(reg.u32Max)
    ensures reg.S32Lo() == OrLeast(reg.s32Min) && reg.S32Hi() == OrMost(reg.s32Max)
    ensures Reg32Checkable(reg) <==> SaysMore(reg)
  {
  }

  lemma Order32Adds(r: Report, insn: nat, reg: RegState, n: Counter)
    requires reg.regType == "scalar"
    ensures Order32Part(r, insn, reg).findings == r.findings + Order32Lines(insn, reg)
    ensures Order32Part(r, insn, reg).checked[n] ==
            r.checked[n] + One(n == BoundsOrder && Or0(reg.u32Min) > 0 && OrAll(reg.u32Max) < 0xffff_ffff)
            + One(n == BoundsOrder && OrLeast(reg.s32Min) > -0x8000_0000 && OrMost(reg.s32Max) < 0x7fff_ffff)
  {
    RangeEnds(reg);
    OrderingLines(r, OrderCheckable(reg.U32Lo(), reg.U32Hi(), 0, U32_MAX), reg.U32Lo() > reg.U32Hi(), U32Inverted,
                  OrderCheckable(reg.S32Lo(), reg.S32Hi(), I32_MIN, I32_MAX), reg.S32Lo() > reg.S32Hi(), S32Inverted,
                  insn, reg.reg, n);
    Regroup(r.findings, Line(reg.U32Lo() > reg.U32Hi(), U32Inverted, insn, reg.reg),
            Line(reg.S32Lo() > reg.S32Hi(), S32Inverted, insn, reg.reg));
  }

  lemma ViewsAdd(r: Report, insn: nat, reg: RegState, n: Counter)
    ensures ViewsPart(r, insn, reg).findings == r.findings + ViewLines(insn, reg)
    ensures ViewsPart(r, insn, reg).checked[n] == r.checked[n] + One(n == Reg32 && SaysMore(reg))
  {
    RangeEnds(reg);
    GatedLines(r, Reg32Checkable(reg), Reg32, Tnum32Disjoint(reg), Tnum32Inconsistent,
               ViewsDisjoint(reg), Reg32Reg64Inconsistent, insn, reg.reg, n);
    Regroup(r.findings, Line(Reg32Checkable(reg) && Tnum32Disjoint(reg), Tnum32Inconsistent, insn, reg.reg),
            Line(Reg32Checkable(reg) && ViewsDisjoint(reg), Reg32Reg64Inconsistent, insn, reg.reg));
  }

  /** The 32-bit checks likewise, on scalars only. */
  lemma SubAdds(r: Report, insn: nat, reg: RegState, n: Counter)
    ensures SubOf(r, insn, reg).findings == r.findings + (Order32Lines(insn, reg) + ViewLines(insn, reg))
    ensures SubOf(r, insn, reg).checked[n] == r.checked[n] + Adds32(reg, n)
  {
    if reg.regType == "scalar" {
      Order32Adds(r, insn, reg, n);
      ViewsAdd(Order32Part(r, insn, reg), insn, reg, n);
      Regroup(r.findings, Order32Lines(insn, reg), ViewLines(insn, reg));
    } else {
      assert r.findings + [] == r.findings && Order32Lines(insn, reg) + ViewLines(insn, reg) == [];
    }
  }
}
