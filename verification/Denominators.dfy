/** No finding without its denominator: over any period the counter registered for a kind bounds
    the findings of that kind. */
module Denominators {
  import opened Isa
  import opened Bits
  import opened Records
  import opened Gate
  import opened Intrinsic
  import opened IntrinsicSound
  import opened Runtime
  import opened Store
  import opened Pipeline

  /** How many findings of kind k the counters allow: a constant tnum is compared once and may be
      reported against both ranges. */
  function Allowed(r: Report, k: Kind): nat {
    var n := r.checked[Denominator(k)];
    if k == ConstTnumMismatch then n + n else n
  }

  function Slack(r: Report, k: Kind): int {
    Allowed(r, k) - CountOf(r.findings, k)
  }

  /** The tnum span finding is the one with no gate before it. */
  predicate Covered(k: Kind) { k != TnumBoundsInconsistent }

  /** b adds no finding its counters do not pay for. */
  ghost predicate Pays(a: Report, b: Report) {
    forall k :: Covered(k) ==> Slack(b, k) >= Slack(a, k)
  }

  lemma TickSlack(r: Report, c: bool, n: Counter, k: Kind)
    ensures Slack(Tick(r, c, n), k) ==
            Slack(r, k) + if !c || n != Denominator(k) then 0 else if k == ConstTnumMismatch then 2 else 1
  {
  }

  lemma CountNote(r: Report, c: bool, f: Finding, k: Kind)
    ensures CountOf(Note(r, c, f).findings, k) == CountOf(r.findings, k) + if c && f.kind == k then 1 else 0
  {
  }

  lemma NoteSlack(r: Report, c: bool, f: Finding, k: Kind)
    ensures Slack(Note(r, c, f), k) == Slack(r, k) - if c && f.kind == k then 1 else 0
  {
  }

  // ---- one check at a time --------------------------------------------------------------------------

  lemma OncePays(r: Report, n: Counter, c: bool, f: Finding)
    requires n == Denominator(f.kind)
    ensures Pays(r, Note(Tick(r, true, n), c, f))
  {
  }

  lemma OrderingPays(r: Report, uC: bool, uI: bool, u: Finding, sC: bool, sI: bool, s: Finding)
    requires (uI ==> uC) && (sI ==> sC) && Denominator(u.kind) == Denominator(s.kind) == BoundsOrder
    ensures Pays(r, Ordering(r, uC, uI, u, sC, sI, s))
  {
    forall k ensures Slack(Ordering(r, uC, uI, u, sC, sI, s), k) >= Slack(r, k) {
      var r1 := Tick(r, uC, BoundsOrder);
      var r2 := Note(r1, uI, u);
      TickSlack(r, uC, BoundsOrder, k);
      NoteSlack(r1, uI, u, k);
      TickSlack(r2, sC, BoundsOrder, k);
      NoteSlack(Tick(r2, sC, BoundsOrder), sI, s, k);
    }
  }

  lemma GatedPays(r: Report, gate: bool, n: Counter, c1: bool, f1: Finding, c2: bool, f2: Finding)
    requires Denominator(f1.kind) == Denominator(f2.kind) == n
    requires f1.kind != f2.kind || f1.kind == ConstTnumMismatch
    ensures Pays(r, Gated(r, gate, n, c1, f1, c2, f2))
  {
    forall k ensures Slack(Gated(r, gate, n, c1, f1, c2, f2), k) >= Slack(r, k) {
      var r1 := Tick(r, true, n);
      TickSlack(r, true, n, k);
      NoteSlack(r1, c1, f1, k);
      NoteSlack(Note(r1, c1, f1), c2, f2, k);
    }
  }

  lemma PartialPays(r: Report, counts: bool, partial: bool, overlap: bool, f: Finding)
    requires (overlap ==> partial) && f.kind == TnumMalformed
    ensures Pays(r, Partial(r, counts, partial, overlap, f))
  {
  }

  lemma LogicalPays(r: Report, insn: nat, reg: RegState)
    ensures Pays(r, LogicalOf(r, insn, reg))
  {
    PartialPays(r, TnumBoundsCheckable(reg), TnumPartial(reg.tnum), TnumOverlaps(reg.tnum),
                At(insn, reg, TnumMalformed));
    var r1 := TnumPart(r, insn, reg);
    OrderingPays(r1, UnsignedOrderable(reg), UnsignedBackwards(reg), At(insn, reg, UnsignedInverted),
                 SignedOrderable(reg), SignedBackwards(reg), At(insn, reg, SignedInverted));
    var r2 := OrderPart(r1, insn, reg);
    GatedPays(r2, ConstGate(reg), TnumBounds, SignedNotPinned(reg), At(insn, reg, ConstTnumMismatch),
              UnsignedNotPinned(reg), At(insn, reg, ConstTnumMismatch));
    var r3 := ConstPart(r2, insn, reg);
    forall k | Covered(k) ensures Slack(LogicalOf(r, insn, reg), k) >= Slack(r, k) {
      NoteSlack(r3, SpanDisjoint(reg), At(insn, reg, TnumBoundsInconsistent), k);
      assert Slack(r1, k) >= Slack(r, k) && Slack(r2, k) >= Slack(r1, k) && Slack(r3, k) >= Slack(r2, k);
    }
  }

  /** The 32-bit fields hold 32-bit values, on the sides where it matters. */
  predicate Fits32(reg: RegState) {
    reg.U32Lo() <= U32_MAX && reg.S32Lo() <= I32_MAX && I32_MIN <= reg.S32Hi()
  }

  /** An inverted 32-bit range was counted. */
  predicate Counted32(reg: RegState) {
    && (reg.U32Lo() > reg.U32Hi() ==> OrderCheckable(reg.U32Lo(), reg.U32Hi(), 0, U32_MAX))
    && (reg.S32Lo() > reg.S32Hi() ==> OrderCheckable(reg.S32Lo(), reg.S32Hi(), I32_MIN, I32_MAX))
  }

  lemma SubPays(r: Report, insn: nat, reg: RegState)
    requires Counted32(reg)
    ensures Pays(r, SubOf(r, insn, reg))
  {
    OrderingPays(r, OrderCheckable(reg.U32Lo(), reg.U32Hi(), 0, U32_MAX), reg.U32Lo() > reg.U32Hi(),
                 At(insn, reg, U32Inverted),
                 OrderCheckable(reg.S32Lo(), reg.S32Hi(), I32_MIN, I32_MAX), reg.S32Lo() > reg.S32Hi(),
                 At(insn, reg, S32Inverted));
    var r1 := Order32Part(r, insn, reg);
    GatedPays(r1, Reg32Checkable(reg), Reg32, Tnum32Disjoint(reg), At(insn, reg, Tnum32Inconsistent),
              ViewsDisjoint(reg), At(insn, reg, Reg32Reg64Inconsistent));
    forall k | Covered(k) ensures Slack(SubOf(r, insn, reg), k) >= Slack(r, k) {
      assert Slack(r1, k) >= Slack(r, k) && Slack(ViewsPart(r1, insn, reg), k) >= Slack(r1, k);
    }
  }

  // ---- the loops ------------------------------------------------------------------------------------

  predicate Sane(evo: seq<Snapshot>) {
    forall snap, reg :: snap in evo && reg in snap.regs ==> Fits32(reg)
  }

  lemma PaysTrans(a: Report, b: Report, c: Report)
    requires Pays(a, b) && Pays(b, c)
    ensures Pays(a, c)
  {
  }

  lemma {:induction false} RegsPay(r: Report, insn: nat, regs: seq<RegState>, sub: bool)
    requires sub ==> forall reg :: reg in regs ==> Fits32(reg)
    ensures Pays(r, OverRegs(r, insn, regs, sub))
  {
    if regs != [] {
      var front, last := regs[..|regs| - 1], regs[|regs| - 1];
      RegsPay(r, insn, front, sub);
      assert last in regs;
      var mid := OverRegs(r, insn, front, sub);
      if sub {
        SubPays(mid, insn, last);
      } else {
        LogicalPays(mid, insn, last);
      }
      PaysTrans(r, mid, OverRegs(r, insn, regs, sub));
    }
  }

  lemma {:induction false} EvolutionPays(r: Report, evo: seq<Snapshot>, sub: bool)
    requires sub ==> Sane(evo)
    ensures Pays(r, OverEvolution(r, evo, sub))
  {
    if evo != [] {
      var front, last := evo[..|evo| - 1], evo[|evo| - 1];
      EvolutionPays(r, front, sub);
      assert last in evo;
      var mid := OverEvolution(r, front, sub);
      RegsPay(mid, last.insnIdx, last.regs, sub);
      PaysTrans(r, mid, OverEvolution(r, evo, sub));
    }
  }

  lemma {:induction false} ReturnsPay(r: Report, u: Union, samples: seq<Sample>)
    ensures Pays(r, JudgeReturns(r, u, samples))
  {
    if samples != [] {
      var front, smp := JudgeReturns(r, u, samples[..|samples| - 1]), samples[|samples| - 1];
      ReturnsPay(r, u, samples[..|samples| - 1]);
      OncePays(front, RuntimeChecked, Escapes(u, smp.retval), Finding(RuntimeBound, 0, |samples| - 1));
      PaysTrans(r, front, JudgeReturns(r, u, samples));
    }
  }

  lemma {:induction false} IntentsPay(r: Report, rec: Record, samples: seq<Sample>)
    ensures Pays(r, JudgeIntents(r, rec, samples))
  {
    if samples != [] {
      var front, smp := JudgeIntents(r, rec, samples[..|samples| - 1]), samples[|samples| - 1];
      IntentsPay(r, rec, samples[..|samples| - 1]);
      if IntentApplies(rec, smp) {
        OncePays(front, IntentChecked, smp.retval != Intended(rec, smp).value,
                 Finding(RuntimeIntent, 0, |samples| - 1));
      }
      PaysTrans(r, front, JudgeIntents(r, rec, samples));
    }
  }

  lemma {:induction false} WritesPay(r: Report, samples: seq<Sample>)
    ensures Pays(r, JudgeWrites(r, samples))
  {
    if samples != [] {
      var front, smp := JudgeWrites(r, samples[..|samples| - 1]), samples[|samples| - 1];
      WritesPay(r, samples[..|samples| - 1]);
      if WriteApplies(smp) {
        OncePays(front, WritesChecked, Escaped(smp), Finding(RuntimeOobWrite, 0, |samples| - 1));
      }
      PaysTrans(r, front, JudgeWrites(r, samples));
    }
  }

  lemma {:induction false} StoresPay(r: Report, claims: seq<RegState>, site: StoreSite, samples: seq<Sample>)
    ensures Pays(r, JudgeStores(r, claims, site, samples))
  {
    if samples != [] {
      var front, smp := JudgeStores(r, claims, site, samples[..|samples| - 1]), samples[|samples| - 1];
      StoresPay(r, claims, site, samples[..|samples| - 1]);
      if Judged(smp) {
        OncePays(front, StoresChecked, !Admitted(claims, site.insnOff, smp.storeOff.value),
                 Finding(StoreLocation, site.insnIdx, |samples| - 1));
      }
      PaysTrans(r, front, JudgeStores(r, claims, site, samples));
    }
  }

  lemma {:induction false} GateFindingsCount(cells: seq<Cell>, k: Kind)
    ensures CountOf(GateFindings(cells), k) == if k == LivenessOverreach then |cells| else 0
  {
    if cells != [] {
      var front := GateFindings(cells[..|cells| - 1]);
      var f := Finding(LivenessOverreach, cells[|cells| - 1].insn, cells[|cells| - 1].reg);
      GateFindingsCount(cells[..|cells| - 1], k);
      assert (front + [f])[..|front|] == front;
    }
  }

  lemma NoteAllSlack(r: Report, fs: seq<Finding>, k: Kind)
    ensures Slack(NoteAll(r, fs), k) == Slack(r, k) - CountOf(fs, k)
  {
    CountOfConcat(r.findings, fs, k);
  }

  lemma TickManySlack(r: Report, c: Counter, n: nat, k: Kind)
    ensures Slack(TickMany(r, c, n), k) ==
            Slack(r, k) + if c != Denominator(k) then 0 else if k == ConstTnumMismatch then n + n else n
  {
  }

  lemma GateFindingsPay(r: Report, fs: seq<Finding>, n: nat, k: Kind)
    requires CountOf(fs, k) <= if k == LivenessOverreach then n else 0
    ensures Slack(NoteAll(TickMany(r, GateChecked, n), fs), k) >= Slack(r, k)
  {
    TickManySlack(r, GateChecked, n, k);
    NoteAllSlack(TickMany(r, GateChecked, n), fs, k);
  }

  lemma LivenessPays(r: Report, rec: Record)
    ensures Pays(r, LivenessOf(r, rec))
  {
    if rec.gate.Some? && rec.gate.value.claim.Some? {
      var claim, rows := rec.gate.value.claim.value, rec.gate.value.kernel;
      OverreachIsChecked(claim, rows);
      var cells, n := AllOverreach(claim, rows), AllChecked(claim, rows);
      forall k ensures Slack(NoteAll(TickMany(r, GateChecked, n), GateFindings(cells)), k) >= Slack(r, k) {
        GateFindingsCount(cells, k);
        GateFindingsPay(r, GateFindings(cells), n, k);
      }
    }
  }

  lemma JitPays(r: Report, rec: Record)
    ensures Pays(r, JitOf(r, rec))
  {
    if rec.jit.Some? {
      var d := rec.jit.value;
      OncePays(r, JitInterp, d.retvalJit != d.retvalInterp || !d.dataOutEqual, Finding(JitDivergence, 0, 0));
    }
  }

  lemma PrunePays(r: Report, p: Probe)
    ensures Pays(r, PruneOf(r, p))
  {
    var r1 := InvariantPart(r, p);
    if p.baseAccept {
      OncePays(r, InvariantsChecked, p.invReason == "efault", Finding(RegInvariants, 0, 0));
    }
    assert Pays(r, r1);
    OncePays(r1, PrunePairs, p.freqAccept && !p.baseAccept, Finding(PruneSoundness, 0, 0));
    OncePays(r1, PrunePairs, p.baseAccept && !p.freqAccept, Finding(PruneDisagreement, 0, 0));
    forall k ensures Slack(Tick(Tick(r1, true, PrunePairs), true, ResourceArtifacts), k) >= Slack(r1, k) {
      TickSlack(r1, true, PrunePairs, k);
      TickSlack(Tick(r1, true, PrunePairs), true, ResourceArtifacts, k);
    }
    PaysTrans(r, r1, PruneOf(r, p));
  }

  // ---- a record and a period ------------------------------------------------------------------------

  lemma IntrinsicPays(r: Report, rec: Record)
    requires Sane(rec.evolution)
    ensures Pays(r, IntrinsicOf(r, rec))
  {
    var r1 := OverEvolution(r, rec.evolution, false);
    var r2 := JitOf(r1, rec);
    EvolutionPays(r, rec.evolution, false);
    JitPays(r1, rec);
    PaysTrans(r, r1, r2);
    EvolutionPays(r2, rec.evolution, true);
    PaysTrans(r, r2, IntrinsicOf(r, rec));
  }

  lemma ObservedPays(r: Report, rec: Record)
    ensures Pays(r, ObservedOf(r, rec))
  {
    var r1 := GroundTruthOf(r, rec);
    ReturnsPay(r, AbsorbAll(NoClaim, rec.evolution), rec.samples);
    var r2 := IntentOf(r1, rec);
    IntentsPay(r1, rec, rec.samples);
    PaysTrans(r, r1, r2);
    var r3 := LivenessOf(r2, rec);
    LivenessPays(r2, rec);
    PaysTrans(r, r2, r3);
    WritesPay(r3, rec.samples);
    PaysTrans(r, r3, ObservedOf(r, rec));
  }

  lemma RecordPays(r: Report, rec: Record)
    requires Sane(rec.evolution)
    ensures Pays(r, RecordOf(r, rec))
  {
    var r1 := IntrinsicOf(r, rec);
    IntrinsicPays(r, rec);
    var r2 := ObservedOf(r1, rec);
    ObservedPays(r1, rec);
    PaysTrans(r, r1, r2);
    var r3 := StoreOf(r2, rec);
    if rec.site.Some? {
      StoresPay(r2, UsableOf(Claims(rec.evolution, rec.site.value)), rec.site.value, rec.samples);
    }
    PaysTrans(r, r2, r3);
    if rec.probe.Some? {
      PrunePays(r3, rec.probe.value);
    }
    PaysTrans(r, r3, RecordOf(r, rec));
  }

  lemma {:induction false} RunPays(records: seq<Record>)
    requires forall rec :: rec in records ==> Sane(rec.evolution)
    ensures Pays(Empty, RunOf(records))
  {
    if records != [] {
      var front, last := records[..|records| - 1], records[|records| - 1];
      RunPays(front);
      assert last in records;
      RecordPays(RunOf(front), last);
      PaysTrans(Empty, RunOf(front), RunOf(records));
    }
  }

  /** Over any period whose 32-bit fields fit, the counter of a kind bounds its findings, twice over
      for the constant check; a kind whose counter is zero has none. */
  lemma DenominatorsBoundFindings(records: seq<Record>, k: Kind)
    requires forall rec :: rec in records ==> Sane(rec.evolution)
    requires k != TnumBoundsInconsistent
    ensures CountOf(RunOf(records).findings, k) <= Allowed(RunOf(records), k)
    ensures RunOf(records).checked[Denominator(k)] == 0 ==> CountOf(RunOf(records).findings, k) == 0
  {
    RunPays(records);
    assert Slack(RunOf(records), k) >= Slack(Empty, k);
  }

  // ---- exactly where a finding goes uncounted ---------------------------------------------------------

  /** Every finding has its comparison counted somewhere in the same report. */
  predicate Backed(r: Report) {
    forall f :: f in r.findings ==> Denominator(f.kind) in r.checked
  }

  lemma OrderingCounts(r: Report, uC: bool, uI: bool, u: Finding, sC: bool, sI: bool, s: Finding, n: Counter)
    ensures n in Ordering(r, uC, uI, u, sC, sI, s).checked <==> n in r.checked || (n == BoundsOrder && (uC || sC))
  {
  }

  lemma GatedCounts(r: Report, gate: bool, k: Counter, c1: bool, f1: Finding, c2: bool, f2: Finding, n: Counter)
    ensures n in Gated(r, gate, k, c1, f1, c2, f2).checked <==> n in r.checked || (gate && n == k)
  {
  }

  /** The counters the 64-bit checks of one register touch. */
  predicate Counts64(reg: RegState, n: Counter) {
    || (n == TnumBounds && (TnumBoundsCheckable(reg) || ConstGate(reg)))
    || (n == TnumWellformed && TnumPartial(reg.tnum))
    || (n == BoundsOrder && (UnsignedOrderable(reg) || SignedOrderable(reg)))
  }

  lemma TnumCounts(insn: nat, reg: RegState, n: Counter)
    ensures n in TnumPart(Empty, insn, reg).checked <==>
            (n == TnumBounds && TnumBoundsCheckable(reg)) || (n == TnumWellformed && TnumPartial(reg.tnum))
  {
  }

  lemma OrderAndConstCount(r: Report, insn: nat, reg: RegState, n: Counter)
    ensures n in ConstPart(OrderPart(r, insn, reg), insn, reg).checked <==>
      || n in r.checked || (n == TnumBounds && ConstGate(reg))
      || (n == BoundsOrder && (UnsignedOrderable(reg) || SignedOrderable(reg)))
  {
    OrderingCounts(r, UnsignedOrderable(reg), UnsignedBackwards(reg), At(insn, reg, UnsignedInverted),
                   SignedOrderable(reg), SignedBackwards(reg), At(insn, reg, SignedInverted), n);
    GatedCounts(OrderPart(r, insn, reg), ConstGate(reg), TnumBounds, SignedNotPinned(reg),
                At(insn, reg, ConstTnumMismatch), UnsignedNotPinned(reg), At(insn, reg, ConstTnumMismatch), n);
  }

  lemma LogicalCounts(insn: nat, reg: RegState, n: Counter)
    ensures n in LogicalOf(Empty, insn, reg).checked <==> Counts64(reg, n)
  {
    TnumCounts(insn, reg, n);
    OrderAndConstCount(TnumPart(Empty, insn, reg), insn, reg, n);
  }

  predicate Orderable32(reg: RegState) {
    OrderCheckable(reg.U32Lo(), reg.U32Hi(), 0, U32_MAX) || OrderCheckable(reg.S32Lo(), reg.S32Hi(), I32_MIN, I32_MAX)
  }

  predicate Inverted32(reg: RegState) {
    reg.U32Lo() > reg.U32Hi() || reg.S32Lo() > reg.S32Hi()
  }

  /** The counters the 32-bit checks of one register touch. */
  predicate Counts32(reg: RegState, n: Counter) {
    (n == BoundsOrder && reg.IsScalar() && Orderable32(reg)) || (n == Reg32 && Reg32Checkable(reg))
  }

  lemma SubCounts(insn: nat, reg: RegState, n: Counter)
    ensures n in SubOf(Empty, insn, reg).checked <==> Counts32(reg, n)
  {
    OrderingCounts(Empty, OrderCheckable(reg.U32Lo(), reg.U32Hi(), 0, U32_MAX), reg.U32Lo() > reg.U32Hi(),
                   At(insn, reg, U32Inverted),
                   OrderCheckable(reg.S32Lo(), reg.S32Hi(), I32_MIN, I32_MAX), reg.S32Lo() > reg.S32Hi(),
                   At(insn, reg, S32Inverted), n);
    GatedCounts(Order32Part(Empty, insn, reg), Reg32Checkable(reg), Reg32, Tnum32Disjoint(reg),
                At(insn, reg, Tnum32Inconsistent),
                ViewsDisjoint(reg), At(insn, reg, Reg32Reg64Inconsistent), n);
  }

  /** Only kinds in loose can be mentioned without their counter. */
  lemma BackedUnless(r: Report, loose: set<Kind>)
    requires forall k :: Mentions(r, k) && k !in loose ==> Denominator(k) in r.checked
    ensures Backed(r) <==> forall k :: k in loose && Mentions(r, k) ==> Denominator(k) in r.checked
  {
  }

  lemma LogicalLoose(insn: nat, reg: RegState, k: Kind)
    requires k != TnumBoundsInconsistent && Mentions(LogicalOf(Empty, insn, reg), k)
    ensures Denominator(k) in LogicalOf(Empty, insn, reg).checked
  {
    LogicalMentions(Empty, insn, reg, k);
    LogicalCounts(insn, reg, Denominator(k));
  }

  /** One register through the 64-bit checks: a finding goes uncounted exactly when the spans are
      disjoint on a state neither gate admits, such as a pointer or an unbounded scalar. */
  lemma LogicalUncountedExactly(insn: nat, reg: RegState)
    ensures Backed(LogicalOf(Empty, insn, reg)) <==>
            (SpanDisjoint(reg) ==> TnumBoundsCheckable(reg) || ConstGate(reg))
  {
    forall k | Mentions(LogicalOf(Empty, insn, reg), k) && k !in {TnumBoundsInconsistent}
      ensures Denominator(k) in LogicalOf(Empty, insn, reg).checked
    {
      LogicalLoose(insn, reg, k);
    }
    BackedUnless(LogicalOf(Empty, insn, reg), {TnumBoundsInconsistent});
    LogicalMentions(Empty, insn, reg, TnumBoundsInconsistent);
    LogicalCounts(insn, reg, TnumBounds);
  }

  lemma SubLoose(insn: nat, reg: RegState, k: Kind)
    requires k != U32Inverted && k != S32Inverted && Mentions(SubOf(Empty, insn, reg), k)
    ensures Denominator(k) in SubOf(Empty, insn, reg).checked
  {
    SubMentions(Empty, insn, reg, k);
    SubCounts(insn, reg, Denominator(k));
  }

  /** One register through the 32-bit checks: exactly when a range is inverted and neither range
      has both ends inside its extremes. */
  lemma SubUncountedExactly(insn: nat, reg: RegState)
    ensures Backed(SubOf(Empty, insn, reg)) <==> (reg.IsScalar() && Inverted32(reg) ==> Orderable32(reg))
  {
    forall k | Mentions(SubOf(Empty, insn, reg), k) && k !in {U32Inverted, S32Inverted}
      ensures Denominator(k) in SubOf(Empty, insn, reg).checked
    {
      SubLoose(insn, reg, k);
    }
    BackedUnless(SubOf(Empty, insn, reg), {U32Inverted, S32Inverted});
    SubMentions(Empty, insn, reg, U32Inverted);
    SubMentions(Empty, insn, reg, S32Inverted);
    SubCounts(insn, reg, BoundsOrder);
    assert Denominator(U32Inverted) == BoundsOrder == Denominator(S32Inverted);
  }

  // ---- the pruning differential is directional --------------------------------------------------------

  lemma PruneCounts(r: Report, p: Probe, k: Kind)
    ensures CountOf(PruneOf(r, p).findings, k) == CountOf(r.findings, k) +
      if k == RegInvariants && p.baseAccept && p.invReason == "efault" then 1
      else if k == PruneSoundness && Grown(p) && p.freqAccept && !p.baseAccept then 1
      else if k == PruneDisagreement && Grown(p) && p.baseAccept && !p.freqAccept &&
          !ResourceReason(p.freqReason) then 1
      else 0
  {
    CountNote(Tick(r, p.baseAccept, InvariantsChecked), p.invReason == "efault" && p.baseAccept,
              Finding(RegInvariants, 0, 0), k);
    var r2 := Tick(InvariantPart(r, p), true, PrunePairs);
    CountNote(r2, true, Finding(PruneSoundness, 0, 0), k);
    CountNote(r2, true, Finding(PruneDisagreement, 0, 0), k);
  }

  function OneIf(b: bool): nat { if b then 1 else 0 }

  /** The rejections that speak about the instrument. */
  const RESOURCE_REASONS: set<string> := {"too_large", "too_many_states", "log_truncated"}

  /** A pair is compared when the flag made more states.  Flagged accept against default reject is a soundness
      finding; default accept against flagged reject is an artefact when a resource limit is the reason and a
      disagreement otherwise; so a differing pair is accounted for once.  Apart from that an accepted program is
      checked for a range invariant that broke. */
  lemma PruneVerdicts(r: Report, p: Probe)
    ensures var (now, grown) := (PruneOf(r, p), p.freqStates > p.baseStates);
            var lost := grown && p.baseAccept && !p.freqAccept;
            && CountOf(now.findings, PruneSoundness) ==
               CountOf(r.findings, PruneSoundness) + OneIf(grown && p.freqAccept && !p.baseAccept)
            && CountOf(now.findings, PruneDisagreement) ==
               CountOf(r.findings, PruneDisagreement) + OneIf(lost && p.freqReason !in RESOURCE_REASONS)
            && CountOf(now.findings, RegInvariants) ==
               CountOf(r.findings, RegInvariants) + OneIf(p.baseAccept && p.invReason == "efault")
            && now.checked[PrunePairs] == r.checked[PrunePairs] + OneIf(grown)
            && now.checked[ResourceArtifacts] == r.checked[ResourceArtifacts] +
                OneIf(lost && p.freqReason in RESOURCE_REASONS)
            && now.checked[InvariantsChecked] == r.checked[InvariantsChecked] + OneIf(p.baseAccept)
  {
    PruneCounts(r, p, PruneSoundness);
    PruneCounts(r, p, PruneDisagreement);
    PruneCounts(r, p, RegInvariants);
  }
}
