/** Over a whole period: exactly when a kind of finding is reported while its counter stands at zero. */
module Uncounted {
  import opened Isa
  import opened Records
  import opened Gate
  import opened Intrinsic
  import opened IntrinsicSound
  import opened Runtime
  import opened Store
  import opened Pipeline
  import opened Denominators
  import opened Period

  // ---- one register --------------------------------------------------------------------------------

  predicate Says(reg: RegState, sub: bool, k: Kind) { if sub then Says32(reg, k) else Says64(reg, k) }

  predicate Ticks(reg: RegState, sub: bool, n: Counter) { if sub then Counts32(reg, n) else Counts64(reg, n) }

  lemma OneSays(r: Report, insn: nat, reg: RegState, sub: bool, k: Kind, n: Counter)
    ensures Mentions(OneOf(r, insn, reg, sub), k) <==> Mentions(r, k) || Says(reg, sub, k)
    ensures n in OneOf(r, insn, reg, sub).checked <==> n in r.checked || Ticks(reg, sub, n)
  {
    PlusEmpty(r);
    if sub {
      SubMentions(r, insn, reg, k);
      SubCounts(insn, reg, n);
      SubPlus(r, Empty, insn, reg);
    } else {
      LogicalMentions(r, insn, reg, k);
      LogicalCounts(insn, reg, n);
      LogicalPlus(r, Empty, insn, reg);
    }
  }

  /** Three kinds can be reported of a register that ticks no counter for them. */
  predicate Loose(k: Kind) { k == TnumBoundsInconsistent || k == U32Inverted || k == S32Inverted }

  lemma TightIsCounted(reg: RegState, sub: bool, k: Kind)
    requires Says(reg, sub, k) && !Loose(k)
    ensures Ticks(reg, sub, Denominator(k))
  {
    OneSays(Empty, 0, reg, sub, k, Denominator(k));
    if sub {
      SubLoose(0, reg, k);
    } else {
      LogicalLoose(0, reg, k);
    }
  }

  // ---- a record's evolution --------------------------------------------------------------------------

  ghost predicate SomeSays(regs: seq<RegState>, sub: bool, k: Kind) {
    exists reg :: reg in regs && Says(reg, sub, k)
  }

  ghost predicate SomeTicks(regs: seq<RegState>, sub: bool, n: Counter) {
    exists reg :: reg in regs && Ticks(reg, sub, n)
  }

  lemma SomeStep(front: seq<RegState>, last: RegState, sub: bool, k: Kind, n: Counter)
    ensures SomeSays(front + [last], sub, k) <==> SomeSays(front, sub, k) || Says(last, sub, k)
    ensures SomeTicks(front + [last], sub, n) <==> SomeTicks(front, sub, n) || Ticks(last, sub, n)
  {
    assert last in front + [last];
  }

  lemma {:induction false} RegsSay(r: Report, insn: nat, regs: seq<RegState>, sub: bool, k: Kind, n: Counter)
    ensures Mentions(OverRegs(r, insn, regs, sub), k) <==> Mentions(r, k) || SomeSays(regs, sub, k)
    ensures n in OverRegs(r, insn, regs, sub).checked <==> n in r.checked || SomeTicks(regs, sub, n)
  {
    if regs != [] {
      var front, last := regs[..|regs| - 1], regs[|regs| - 1];
      assert regs == front + [last];
      RegsSay(r, insn, front, sub, k, n);
      OneSays(OverRegs(r, insn, front, sub), insn, last, sub, k, n);
      SomeStep(front, last, sub, k, n);
    }
  }

  ghost predicate Shown(evo: seq<Snapshot>, reg: RegState) {
    exists snap :: snap in evo && reg in snap.regs
  }

  lemma {:induction false} EvolutionSays(evo: seq<Snapshot>, sub: bool, k: Kind, n: Counter)
    ensures Mentions(OverEvolution(Empty, evo, sub), k) <==> exists reg :: Shown(evo, reg) && Says(reg, sub, k)
    ensures n in OverEvolution(Empty, evo, sub).checked <==> exists reg :: Shown(evo, reg) && Ticks(reg, sub, n)
  {
    if evo != [] {
      var front, last := evo[..|evo| - 1], evo[|evo| - 1];
      assert evo == front + [last];
      EvolutionSays(front, sub, k, n);
      RegsSay(OverEvolution(Empty, front, sub), last.insnIdx, last.regs, sub, k, n);
      assert forall reg :: Shown(evo, reg) <==> Shown(front, reg) || reg in last.regs;
    }
  }

  // ---- the other checks ------------------------------------------------------------------------------

  lemma PaidIsCounted(r: Report, k: Kind)
    requires Pays(Empty, r) && Covered(k) && Mentions(r, k)
    ensures Denominator(k) in r.checked
  {
    assert Slack(r, k) >= Slack(Empty, k);
    OfKindMeans(r.findings, k);
  }

  predicate OfRegisters(c: Check) { c == LogicalCheck || c == SubCheck }

  lemma OtherCounted(c: Check, rec: Record, k: Kind)
    requires !OfRegisters(c) && Mentions(Alone(c, rec), k)
    ensures Denominator(k) in Alone(c, rec).checked
  {
    CheckWithin(c, rec);
    match c {
      case JitCheck => JitPays(Empty, rec);
      case ReturnCheck => ReturnsPay(Empty, AbsorbAll(NoClaim, rec.evolution), rec.samples);
      case IntentCheck => IntentsPay(Empty, rec, rec.samples);
      case LivenessCheck => LivenessPays(Empty, rec);
      case WriteCheck => WritesPay(Empty, rec.samples);
      case StoreCheck =>
        if rec.site.Some? {
          StoresPay(Empty, UsableOf(Claims(rec.evolution, rec.site.value)), rec.site.value, rec.samples);
        }
      case PruneCheck =>
        if rec.probe.Some? {
          PrunePays(Empty, rec.probe.value);
        }
    }
    PaidIsCounted(Alone(c, rec), k);
  }

  // ---- the period ------------------------------------------------------------------------------------

  lemma {:induction false} RunMentions(records: seq<Record>, k: Kind)
    ensures Mentions(RunOf(records), k) <==> exists rec :: rec in records && Mentions(Alone(Owner(k), rec), k)
  {
    if records != [] {
      var front, last := records[..|records| - 1], records[|records| - 1];
      assert records == front + [last];
      RunMentions(front, k);
      RecordAdds(RunOf(front), last, k, TnumBounds);
      SomeOfKind(RunOf(records), k);
      SomeOfKind(RunOf(front), k);
      SomeOfKind(Alone(Owner(k), last), k);
    }
  }

  lemma SomeOfKind(r: Report, k: Kind)
    ensures Mentions(r, k) <==> |OfKind(r.findings, k)| > 0
  {
    OfKindMeans(r.findings, k);
    if |OfKind(r.findings, k)| > 0 {
      assert OfKind(r.findings, k)[0] in OfKind(r.findings, k);
    }
  }

  lemma {:induction false} RunTicks(records: seq<Record>, n: Counter)
    ensures n in RunOf(records).checked <==> exists rec :: rec in records && CountedBy(n, rec) > 0
  {
    if records != [] {
      var front, last := records[..|records| - 1], records[|records| - 1];
      assert records == front + [last];
      RunTicks(front, n);
      RecordAdds(RunOf(front), last, JitDivergence, n);
    }
  }

  ghost predicate InPeriod(records: seq<Record>, reg: RegState) {
    exists rec :: rec in records && Shown(rec.evolution, reg)
  }

  predicate Reports(reg: RegState, k: Kind) { Says(reg, Owner(k) == SubCheck, k) }

  predicate Counts(reg: RegState, n: Counter) { Ticks(reg, false, n) || Ticks(reg, true, n) }

  /** A kind of the register checks is reported iff some printed state of the period calls for it. */
  lemma RunReports(records: seq<Record>, k: Kind)
    requires OfRegisters(Owner(k))
    ensures Mentions(RunOf(records), k) <==> exists reg :: InPeriod(records, reg) && Reports(reg, k)
  {
    RunMentions(records, k);
    forall rec: Record
      ensures Mentions(Alone(Owner(k), rec), k) <==> exists reg :: Shown(rec.evolution, reg) && Reports(reg, k)
    {
      EvolutionSays(rec.evolution, Owner(k) == SubCheck, k, TnumBounds);
    }
    if Mentions(RunOf(records), k) {
      var rec :| rec in records && Mentions(Alone(Owner(k), rec), k);
      var reg :| Shown(rec.evolution, reg) && Reports(reg, k);
      assert InPeriod(records, reg);
    }
    if reg :| InPeriod(records, reg) && Reports(reg, k) {
      var rec :| rec in records && Shown(rec.evolution, reg);
      assert Mentions(Alone(Owner(k), rec), k);
    }
  }

  predicate RegisterCounter(n: Counter) {
    n == TnumBounds || n == TnumWellformed || n == BoundsOrder || n == Reg32
  }

  lemma RecordTicks(rec: Record, n: Counter)
    requires RegisterCounter(n)
    ensures CountedBy(n, rec) > 0 <==> exists reg :: Shown(rec.evolution, reg) && Counts(reg, n)
  {
    EvolutionSays(rec.evolution, false, JitDivergence, n);
    EvolutionSays(rec.evolution, true, JitDivergence, n);
  }

  /** Their counters move iff some printed state lets a comparison be made. */
  lemma RunCountsRegisters(records: seq<Record>, n: Counter)
    requires RegisterCounter(n)
    ensures n in RunOf(records).checked <==> exists reg :: InPeriod(records, reg) && Counts(reg, n)
  {
    RunTicks(records, n);
    forall rec: Record ensures CountedBy(n, rec) > 0 <==> exists reg :: Shown(rec.evolution, reg) && Counts(reg, n) {
      RecordTicks(rec, n);
    }
    if n in RunOf(records).checked {
      var rec :| rec in records && CountedBy(n, rec) > 0;
      var reg :| Shown(rec.evolution, reg) && Counts(reg, n);
      assert InPeriod(records, reg);
    }
    if reg :| InPeriod(records, reg) && Counts(reg, n) {
      var rec :| rec in records && Shown(rec.evolution, reg);
      assert CountedBy(n, rec) > 0;
    }
  }

  /** Findings of the kind stand beside a zero counter. */
  predicate Uncounted(r: Report, k: Kind) { Mentions(r, k) && Denominator(k) !in r.checked }

  lemma TightIsNeverUncounted(records: seq<Record>, k: Kind)
    requires !Loose(k)
    ensures !Uncounted(RunOf(records), k)
  {
    if Mentions(RunOf(records), k) {
      if OfRegisters(Owner(k)) {
        RunReports(records, k);
        var reg :| InPeriod(records, reg) && Reports(reg, k);
        TightIsCounted(reg, Owner(k) == SubCheck, k);
        RunCountsRegisters(records, Denominator(k));
      } else {
        RunMentions(records, k);
        var rec :| rec in records && Mentions(Alone(Owner(k), rec), k);
        OtherCounted(Owner(k), rec, k);
        CheckWithin(Owner(k), rec);
        RunTicks(records, Denominator(k));
      }
    }
  }

  /** Over any period, whatever its records: the only kinds that can be reported with a zero counter are the
      tnum span and the two 32-bit inversions, and that happens exactly when some printed state calls for
      the finding and none lets the comparison be counted. */
  lemma UncountedExactly(records: seq<Record>, k: Kind)
    ensures Uncounted(RunOf(records), k) <==>
      && Loose(k) && (exists reg :: InPeriod(records, reg) && Reports(reg, k))
      && forall reg :: InPeriod(records, reg) ==> !Counts(reg, Denominator(k))
  {
    if Loose(k) {
      RunReports(records, k);
      RunCountsRegisters(records, Denominator(k));
    } else {
      TightIsNeverUncounted(records, k);
    }
  }
}
