/** A state some value satisfies raises none of the intrinsic findings; and how sharp each test is. */
module IntrinsicSound {
  import opened Isa
  import opened Bits
  import opened Domains
  import opened Records
  import opened Intrinsic

  predicate InRange64(reg: RegState, x: u64) { reg.umin <= x <= reg.umax }

  predicate InRange32(reg: RegState, x: u64) { reg.U32Lo() <= Low32(x) <= reg.U32Hi() }

  /** The low half, read as signed. */
  function LowSigned(x: nat): int {
    if Low32(x) < TWO32 / 2 then Low32(x) else Low32(x) - TWO32
  }

  /** x meets the tnum, both 64-bit ranges and both 32-bit ranges; an absent bound is its extreme. */
  predicate Admits(reg: RegState, x: u64) {
    && InTnum(reg.tnum.value, reg.tnum.mask, x) && InRange64(reg, x) && InRange32(reg, x)
    && reg.smin <= ToSigned(x) <= reg.smax
    && reg.S32Lo() <= LowSigned(x) <= reg.S32Hi()
  }

  lemma LowBitsBounds(value: nat, mask: nat, x: nat)
    requires InTnum(value, mask, x)
    ensures Low32(value) <= Low32(x) <= Low32(Or(value, mask))
  {
    WordSizes();
    LowBitsPass(x, mask, 32);
    LowBitsPass(value, mask, 32);
    ClearedBounds(x % TWO32, mask % TWO32);
  }

  lemma NoTestFires(reg: RegState, x: u64)
    requires Admits(reg, x)
    ensures !TnumOverlaps(reg.tnum) && !SpanDisjoint(reg) && !Tnum32Disjoint(reg) && !ViewsDisjoint(reg)
    ensures !UnsignedBackwards(reg) && !SignedBackwards(reg)
    ensures reg.U32Lo() <= reg.U32Hi() && reg.S32Lo() <= reg.S32Hi()
  {
    ClearedBounds(x, reg.tnum.mask);
    LowBitsBounds(reg.tnum.value, reg.tnum.mask, x);
  }

  /** Only the precision check on constants may add a finding. */
  lemma SatisfiableIsSilent(r: Report, insn: nat, reg: RegState, sub: bool, x: u64, k: Kind)
    requires Admits(reg, x) && k != ConstTnumMismatch
    ensures Mentions(OneOf(r, insn, reg, sub), k) <==> Mentions(r, k)
  {
    NoTestFires(reg, x);
    if sub {
      SubSilent(r, insn, reg, k);
    } else {
      LogicalSilent(r, insn, reg, k);
    }
  }

  lemma OrderingMentions(r: Report, uC: bool, uI: bool, u: Finding, sC: bool, sI: bool, s: Finding, k: Kind)
    ensures Mentions(Ordering(r, uC, uI, u, sC, sI, s), k) <==>
            Mentions(r, k) || (uI && u.kind == k) || (sI && s.kind == k)
  {
  }

  lemma GatedMentions(r: Report, gate: bool, n: Counter, c1: bool, f1: Finding, c2: bool, f2: Finding, k: Kind)
    ensures Mentions(Gated(r, gate, n, c1, f1, c2, f2), k) <==>
            Mentions(r, k) || (gate && ((c1 && f1.kind == k) || (c2 && f2.kind == k)))
  {
  }

  lemma PartialMentions(r: Report, counts: bool, partial: bool, overlap: bool, f: Finding, k: Kind)
    ensures Mentions(Partial(r, counts, partial, overlap, f), k) <==> Mentions(r, k) || (overlap && f.kind == k)
  {
  }

  lemma TnumAndOrderMention(r: Report, insn: nat, reg: RegState, k: Kind)
    ensures Mentions(OrderPart(TnumPart(r, insn, reg), insn, reg), k) <==>
      || Mentions(r, k)
      || (k == TnumMalformed && TnumOverlaps(reg.tnum))
      || (k == UnsignedInverted && UnsignedBackwards(reg)) || (k == SignedInverted && SignedBackwards(reg))
  {
    PartialMentions(r, TnumBoundsCheckable(reg), TnumPartial(reg.tnum), TnumOverlaps(reg.tnum),
                    At(insn, reg, TnumMalformed), k);
    OrderingMentions(TnumPart(r, insn, reg), UnsignedOrderable(reg), UnsignedBackwards(reg),
                     At(insn, reg, UnsignedInverted),
                     SignedOrderable(reg), SignedBackwards(reg), At(insn, reg, SignedInverted), k);
  }

  /** The kinds the 64-bit checks report of a register, as conditions on it. */
  predicate Says64(reg: RegState, k: Kind) {
    || (k == TnumMalformed && TnumOverlaps(reg.tnum))
    || (k == UnsignedInverted && UnsignedBackwards(reg)) || (k == SignedInverted && SignedBackwards(reg))
    || (k == ConstTnumMismatch && ConstGate(reg) && (SignedNotPinned(reg) || UnsignedNotPinned(reg)))
    || (k == TnumBoundsInconsistent && SpanDisjoint(reg))
  }

  lemma LogicalMentions(r: Report, insn: nat, reg: RegState, k: Kind)
    ensures Mentions(LogicalOf(r, insn, reg), k) <==> Mentions(r, k) || Says64(reg, k)
  {
    TnumAndOrderMention(r, insn, reg, k);
    var r1 := OrderPart(TnumPart(r, insn, reg), insn, reg);
    GatedMentions(r1, ConstGate(reg), TnumBounds, SignedNotPinned(reg), At(insn, reg, ConstTnumMismatch),
                  UnsignedNotPinned(reg), At(insn, reg, ConstTnumMismatch), k);
    MentionsNote(ConstPart(r1, insn, reg), SpanDisjoint(reg), At(insn, reg, TnumBoundsInconsistent), k);
  }

  /** And the kinds the 32-bit checks report. */
  predicate Says32(reg: RegState, k: Kind) {
    || (reg.IsScalar() && k == U32Inverted && reg.U32Lo() > reg.U32Hi())
    || (reg.IsScalar() && k == S32Inverted && reg.S32Lo() > reg.S32Hi())
    || (Reg32Checkable(reg) && k == Tnum32Inconsistent && Tnum32Disjoint(reg))
    || (Reg32Checkable(reg) && k == Reg32Reg64Inconsistent && ViewsDisjoint(reg))
  }

  lemma Order32Mentions(r: Report, insn: nat, reg: RegState, k: Kind)
    ensures Mentions(Order32Part(r, insn, reg), k) <==>
      || Mentions(r, k) || (k == U32Inverted && reg.U32Lo() > reg.U32Hi()) ||
          (k == S32Inverted && reg.S32Lo() > reg.S32Hi())
  {
    OrderingMentions(r, OrderCheckable(reg.U32Lo(), reg.U32Hi(), 0, U32_MAX), reg.U32Lo() > reg.U32Hi(),
                     At(insn, reg, U32Inverted), OrderCheckable(reg.S32Lo(), reg.S32Hi(), I32_MIN, I32_MAX),
                     reg.S32Lo() > reg.S32Hi(), At(insn, reg, S32Inverted), k);
  }

  lemma ViewsMention(r: Report, insn: nat, reg: RegState, k: Kind)
    ensures Mentions(ViewsPart(r, insn, reg), k) <==>
      || Mentions(r, k) || (Reg32Checkable(reg) && k == Tnum32Inconsistent && Tnum32Disjoint(reg))
      || (Reg32Checkable(reg) && k == Reg32Reg64Inconsistent && ViewsDisjoint(reg))
  {
    GatedMentions(r, Reg32Checkable(reg), Reg32, Tnum32Disjoint(reg), At(insn, reg, Tnum32Inconsistent),
                  ViewsDisjoint(reg), At(insn, reg, Reg32Reg64Inconsistent), k);
  }

  lemma SubMentions(r: Report, insn: nat, reg: RegState, k: Kind)
    ensures Mentions(SubOf(r, insn, reg), k) <==> Mentions(r, k) || Says32(reg, k)
  {
    Order32Mentions(r, insn, reg, k);
    ViewsMention(Order32Part(r, insn, reg), insn, reg, k);
  }

  lemma LogicalSilent(r: Report, insn: nat, reg: RegState, k: Kind)
    requires !TnumOverlaps(reg.tnum) && !SpanDisjoint(reg) && !UnsignedBackwards(reg) && !SignedBackwards(reg)
    requires k != ConstTnumMismatch
    ensures Mentions(LogicalOf(r, insn, reg), k) <==> Mentions(r, k)
  {
  }

  lemma SubSilent(r: Report, insn: nat, reg: RegState, k: Kind)
    requires !Tnum32Disjoint(reg) && !ViewsDisjoint(reg) && reg.U32Lo() <= reg.U32Hi() && reg.S32Lo() <= reg.S32Hi()
    ensures Mentions(SubOf(r, insn, reg), k) <==> Mentions(r, k)
  {
  }

  /** A whole record of satisfiable states raises none of them. */
  lemma {:induction false} SatisfiableEvolutionIsSilent(r: Report, evo: seq<Snapshot>, sub: bool, k: Kind)
    requires k != ConstTnumMismatch
    requires forall s, reg :: s in evo && reg in s.regs ==> exists x :: Admits(reg, x)
    ensures Mentions(OverEvolution(r, evo, sub), k) <==> Mentions(r, k)
  {
    if evo != [] {
      var front, last := evo[..|evo| - 1], evo[|evo| - 1];
      SatisfiableEvolutionIsSilent(r, front, sub, k);
      assert last in evo;
      RegsAreSilent(OverEvolution(r, front, sub), last.insnIdx, last.regs, sub, k);
    }
  }

  lemma {:induction false} RegsAreSilent(r: Report, insn: nat, regs: seq<RegState>, sub: bool, k: Kind)
    requires k != ConstTnumMismatch && forall reg :: reg in regs ==> exists x :: Admits(reg, x)
    ensures Mentions(OverRegs(r, insn, regs, sub), k) <==> Mentions(r, k)
  {
    if regs != [] {
      var front, last := regs[..|regs| - 1], regs[|regs| - 1];
      assert forall reg :: reg in front ==> reg in regs;
      RegsAreSilent(r, insn, front, sub, k);
      assert last in regs;
      var x :| Admits(last, x);
      SatisfiableIsSilent(OverRegs(r, insn, front, sub), insn, last, sub, x, k);
    }
  }

  // ---- how sharp the tests are ----------------------------------------------------------------------

  /** The malformed-tnum finding appears exactly on a tnum that denotes nothing. */
  lemma MalformedExactly(reg: RegState)
    ensures TnumOverlaps(reg.tnum) <==> forall x :: !InTnum(reg.tnum.value, reg.tnum.mask, x)
  {
    WellFormedIffInhabited(reg.tnum.value, reg.tnum.mask);
  }

  /** The span test is not exact: {0, 4} and [1, 3] share no value, and nothing is reported. */
  lemma SpanTestCanMiss(reg: RegState)
    requires reg.tnum == Tnum(0, 4) && reg.umin == 1 && reg.umax == 3
    ensures !SpanDisjoint(reg) && forall x: u64 :: !(InTnum(0, 4, x) && InRange64(reg, x))
  {
    assert AndNot(1, 4) == 1 && AndNot(2, 4) == 2 && AndNot(3, 4) == 3;
    assert Or(0, 4) == 4;
  }
}
