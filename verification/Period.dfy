/** A period's report is the sum of what each check says of each record on its own, and each kind of
    finding comes from one check only. */
module Period {
  import opened Isa
  import opened Records
  import opened Gate
  import opened Intrinsic
  import opened IntrinsicSound
  import opened Runtime
  import opened Store
  import opened Pipeline

  // ---- sums -------------------------------------------------------------------------------------------

  function Plus(a: Report, b: Report): Report {
    Report(a.findings + b.findings, a.checked + b.checked)
  }

  lemma PlusEmpty(a: Report)
    ensures Plus(a, Empty) == a == Plus(Empty, a)
  {
    assert a.findings + [] == a.findings == [] + a.findings;
  }

  lemma TickPlus(a: Report, b: Report, c: bool, k: Counter)
    ensures Tick(Plus(a, b), c, k) == Plus(a, Tick(b, c, k))
  {
  }

  lemma NotePlus(a: Report, b: Report, c: bool, f: Finding)
    ensures Note(Plus(a, b), c, f) == Plus(a, Note(b, c, f))
  {
    assert (a.findings + b.findings) + [f] == a.findings + (b.findings + [f]);
  }

  lemma OncePlus(a: Report, b: Report, k: Counter, c: bool, f: Finding)
    ensures Note(Tick(Plus(a, b), true, k), c, f) == Plus(a, Note(Tick(b, true, k), c, f))
  {
    TickPlus(a, b, true, k);
    NotePlus(a, Tick(b, true, k), c, f);
  }

  // ---- every check adds to what stands ------------------------------------------------------------------

  lemma OrderingPlus(a: Report, b: Report, uC: bool, uI: bool, u: Finding, sC: bool, sI: bool, s: Finding)
    ensures Ordering(Plus(a, b), uC, uI, u, sC, sI, s) == Plus(a, Ordering(b, uC, uI, u, sC, sI, s))
  {
    TickPlus(a, b, uC, BoundsOrder);
    var b1 := Tick(b, uC, BoundsOrder);
    NotePlus(a, b1, uI, u);
    var b2 := Note(b1, uI, u);
    TickPlus(a, b2, sC, BoundsOrder);
    NotePlus(a, Tick(b2, sC, BoundsOrder), sI, s);
  }

  lemma GatedPlus(a: Report, b: Report, gate: bool, k: Counter, c1: bool, f1: Finding, c2: bool, f2: Finding)
    ensures Gated(Plus(a, b), gate, k, c1, f1, c2, f2) == Plus(a, Gated(b, gate, k, c1, f1, c2, f2))
  {
    OncePlus(a, b, k, c1, f1);
    NotePlus(a, Note(Tick(b, true, k), c1, f1), c2, f2);
  }

  lemma PartialPlus(a: Report, b: Report, counts: bool, partial: bool, overlap: bool, f: Finding)
    ensures Partial(Plus(a, b), counts, partial, overlap, f) == Plus(a, Partial(b, counts, partial, overlap, f))
  {
    TickPlus(a, b, counts, TnumBounds);
    TickPlus(a, Tick(b, counts, TnumBounds), partial, TnumWellformed);
    NotePlus(a, Tick(Tick(b, counts, TnumBounds), partial, TnumWellformed), overlap, f);
  }

  lemma TnumAndOrderPlus(a: Report, b: Report, insn: nat, reg: RegState)
    ensures OrderPart(TnumPart(Plus(a, b), insn, reg), insn, reg) ==
            Plus(a, OrderPart(TnumPart(b, insn, reg), insn, reg))
  {
    PartialPlus(a, b, TnumBoundsCheckable(reg), TnumPartial(reg.tnum), TnumOverlaps(reg.tnum),
                At(insn, reg, TnumMalformed));
    OrderingPlus(a, TnumPart(b, insn, reg), UnsignedOrderable(reg), UnsignedBackwards(reg),
                 At(insn, reg, UnsignedInverted),
                 SignedOrderable(reg), SignedBackwards(reg), At(insn, reg, SignedInverted));
  }

  lemma ConstPlus(a: Report, b: Report, insn: nat, reg: RegState)
    ensures ConstPart(Plus(a, b), insn, reg) == Plus(a, ConstPart(b, insn, reg))
  {
    GatedPlus(a, b, ConstGate(reg), TnumBounds, SignedNotPinned(reg), At(insn, reg, ConstTnumMismatch),
              UnsignedNotPinned(reg), At(insn, reg, ConstTnumMismatch));
  }

  lemma LogicalPlus(a: Report, b: Report, insn: nat, reg: RegState)
    ensures LogicalOf(Plus(a, b), insn, reg) == Plus(a, LogicalOf(b, insn, reg))
  {
    TnumAndOrderPlus(a, b, insn, reg);
    var b2 := OrderPart(TnumPart(b, insn, reg), insn, reg);
    ConstPlus(a, b2, insn, reg);
    NotePlus(a, ConstPart(b2, insn, reg), SpanDisjoint(reg), At(insn, reg, TnumBoundsInconsistent));
  }

  lemma SubPlus(a: Report, b: Report, insn: nat, reg: RegState)
    ensures SubOf(Plus(a, b), insn, reg) == Plus(a, SubOf(b, insn, reg))
  {
    OrderingPlus(a, b, OrderCheckable(reg.U32Lo(), reg.U32Hi(), 0, U32_MAX), reg.U32Lo() > reg.U32Hi(),
                 At(insn, reg, U32Inverted),
                 OrderCheckable(reg.S32Lo(), reg.S32Hi(), I32_MIN, I32_MAX), reg.S32Lo() > reg.S32Hi(),
                 At(insn, reg, S32Inverted));
    GatedPlus(a, Order32Part(b, insn, reg), Reg32Checkable(reg), Reg32, Tnum32Disjoint(reg),
              At(insn, reg, Tnum32Inconsistent),
              ViewsDisjoint(reg), At(insn, reg, Reg32Reg64Inconsistent));
  }

  lemma {:induction false} RegsPlus(a: Report, b: Report, insn: nat, regs: seq<RegState>, sub: bool)
    ensures OverRegs(Plus(a, b), insn, regs, sub) == Plus(a, OverRegs(b, insn, regs, sub))
  {
    if regs != [] {
      var front, last := regs[..|regs| - 1], regs[|regs| - 1];
      RegsPlus(a, b, insn, front, sub);
      if sub {
        SubPlus(a, OverRegs(b, insn, front, sub), insn, last);
      } else {
        LogicalPlus(a, OverRegs(b, insn, front, sub), insn, last);
      }
    }
  }

  lemma {:induction false} EvolutionPlus(a: Report, b: Report, evo: seq<Snapshot>, sub: bool)
    ensures OverEvolution(Plus(a, b), evo, sub) == Plus(a, OverEvolution(b, evo, sub))
  {
    if evo != [] {
      var front, last := evo[..|evo| - 1], evo[|evo| - 1];
      EvolutionPlus(a, b, front, sub);
      RegsPlus(a, OverEvolution(b, front, sub), last.insnIdx, last.regs, sub);
    }
  }

  lemma {:induction false} ReturnsPlus(a: Report, b: Report, u: Union, samples: seq<Sample>)
    ensures JudgeReturns(Plus(a, b), u, samples) == Plus(a, JudgeReturns(b, u, samples))
  {
    if samples != [] {
      var front, smp := samples[..|samples| - 1], samples[|samples| - 1];
      ReturnsPlus(a, b, u, front);
      OncePlus(a, JudgeReturns(b, u, front), RuntimeChecked, Escapes(u, smp.retval),
               Finding(RuntimeBound, 0, |samples| - 1));
    }
  }

  lemma {:induction false} IntentsPlus(a: Report, b: Report, rec: Record, samples: seq<Sample>)
    ensures JudgeIntents(Plus(a, b), rec, samples) == Plus(a, JudgeIntents(b, rec, samples))
  {
    if samples != [] {
      var front, smp := samples[..|samples| - 1], samples[|samples| - 1];
      IntentsPlus(a, b, rec, front);
      if IntentApplies(rec, smp) {
        OncePlus(a, JudgeIntents(b, rec, front), IntentChecked, smp.retval != Intended(rec, smp).value,
                 Finding(RuntimeIntent, 0, |samples| - 1));
      }
    }
  }

  lemma {:induction false} WritesPlus(a: Report, b: Report, samples: seq<Sample>)
    ensures JudgeWrites(Plus(a, b), samples) == Plus(a, JudgeWrites(b, samples))
  {
    if samples != [] {
      var front, smp := samples[..|samples| - 1], samples[|samples| - 1];
      WritesPlus(a, b, front);
      if WriteApplies(smp) {
        OncePlus(a, JudgeWrites(b, front), WritesChecked, Escaped(smp), Finding(RuntimeOobWrite, 0, |samples| - 1));
      }
    }
  }

  lemma {:induction false} StoresPlus(a: Report, b: Report, claims: seq<RegState>, site: StoreSite,
                                      samples: seq<Sample>)
    ensures JudgeStores(Plus(a, b), claims, site, samples) == Plus(a, JudgeStores(b, claims, site, samples))
  {
    if samples != [] {
      var front, smp := samples[..|samples| - 1], samples[|samples| - 1];
      StoresPlus(a, b, claims, site, front);
      if Judged(smp) {
        OncePlus(a, JudgeStores(b, claims, site, front), StoresChecked,
                 !Admitted(claims, site.insnOff, smp.storeOff.value),
                 Finding(StoreLocation, site.insnIdx, |samples| - 1));
      }
    }
  }

  lemma JitPlus(a: Report, b: Report, rec: Record)
    ensures JitOf(Plus(a, b), rec) == Plus(a, JitOf(b, rec))
  {
    if rec.jit.Some? {
      var d := rec.jit.value;
      OncePlus(a, b, JitInterp, d.retvalJit != d.retvalInterp || !d.dataOutEqual, Finding(JitDivergence, 0, 0));
    }
  }

  lemma CellsPlus(a: Report, b: Report, k: Counter, n: nat, fs: seq<Finding>)
    ensures NoteAll(TickMany(Plus(a, b), k, n), fs) == Plus(a, NoteAll(TickMany(b, k, n), fs))
  {
    assert (a.findings + b.findings) + fs == a.findings + (b.findings + fs);
    assert (a.checked + b.checked)[k := (a.checked + b.checked)[k] + n] == a.checked + b.checked[k := b.checked[k] + n];
  }

  lemma LivenessPlus(a: Report, b: Report, rec: Record)
    ensures LivenessOf(Plus(a, b), rec) == Plus(a, LivenessOf(b, rec))
  {
    if rec.gate.Some? && rec.gate.value.claim.Some? {
      var claim, rows := rec.gate.value.claim.value, rec.gate.value.kernel;
      CellsPlus(a, b, GateChecked, AllChecked(claim, rows), GateFindings(AllOverreach(claim, rows)));
    }
  }

  lemma PrunePlus(a: Report, b: Report, p: Probe)
    ensures PruneOf(Plus(a, b), p) == Plus(a, PruneOf(b, p))
  {
    TickPlus(a, b, p.baseAccept, InvariantsChecked);
    NotePlus(a, Tick(b, p.baseAccept, InvariantsChecked), p.invReason == "efault" && p.baseAccept,
             Finding(RegInvariants, 0, 0));
    var b1 := InvariantPart(b, p);
    OncePlus(a, b1, PrunePairs, true, Finding(PruneSoundness, 0, 0));
    OncePlus(a, b1, PrunePairs, true, Finding(PruneDisagreement, 0, 0));
    TickPlus(a, b1, true, PrunePairs);
    TickPlus(a, Tick(b1, true, PrunePairs), true, ResourceArtifacts);
  }

  // ---- a record as the sum of its checks ------------------------------------------------------------------

  /** The checks of this model, in the order a record meets them. */
  datatype Check =
    | LogicalCheck | JitCheck | SubCheck | ReturnCheck | IntentCheck
    | LivenessCheck | WriteCheck | StoreCheck | PruneCheck

  /** One check of one record added to a report. */
  function AfterCheck(c: Check, r: Report, rec: Record): Report {
    match c
    case LogicalCheck => OverEvolution(r, rec.evolution, false)
    case JitCheck => JitOf(r, rec)
    case SubCheck => OverEvolution(r, rec.evolution, true)
    case ReturnCheck => GroundTruthOf(r, rec)
    case IntentCheck => IntentOf(r, rec)
    case LivenessCheck => LivenessOf(r, rec)
    case WriteCheck => JudgeWrites(r, rec.samples)
    case StoreCheck => StoreOf(r, rec)
    case PruneCheck => ProbeOf(r, rec)
  }

  /** What one check says of a record on its own. */
  function Alone(c: Check, rec: Record): Report { AfterCheck(c, Empty, rec) }

  lemma CheckAdds(c: Check, r: Report, rec: Record)
    ensures AfterCheck(c, r, rec) == Plus(r, Alone(c, rec))
  {
    PlusEmpty(r);
    match c
    case LogicalCheck => EvolutionPlus(r, Empty, rec.evolution, false);
    case JitCheck => JitPlus(r, Empty, rec);
    case SubCheck => EvolutionPlus(r, Empty, rec.evolution, true);
    case ReturnCheck => ReturnsPlus(r, Empty, AbsorbAll(NoClaim, rec.evolution), rec.samples);
    case IntentCheck => IntentsPlus(r, Empty, rec, rec.samples);
    case LivenessCheck => LivenessPlus(r, Empty, rec);
    case WriteCheck => WritesPlus(r, Empty, rec.samples);
    case StoreCheck =>
      if rec.site.Some? {
        StoresPlus(r, Empty, UsableOf(Claims(rec.evolution, rec.site.value)), rec.site.value, rec.samples);
      }
    case PruneCheck =>
      if rec.probe.Some? {
        PrunePlus(r, Empty, rec.probe.value);
      }
  }

  // ---- each kind and counter belongs to its check ---------------------------------------------------------

  function Owner(k: Kind): Check {
    match k
    case TnumMalformed => LogicalCheck
    case UnsignedInverted => LogicalCheck
    case SignedInverted => LogicalCheck
    case ConstTnumMismatch => LogicalCheck
    case TnumBoundsInconsistent => LogicalCheck
    case U32Inverted => SubCheck
    case S32Inverted => SubCheck
    case Tnum32Inconsistent => SubCheck
    case Reg32Reg64Inconsistent => SubCheck
    case JitDivergence => JitCheck
    case RuntimeBound => ReturnCheck
    case RuntimeIntent => IntentCheck
    case RuntimeOobWrite => WriteCheck
    case StoreLocation => StoreCheck
    case PruneSoundness => PruneCheck
    case PruneDisagreement => PruneCheck
    case RegInvariants => PruneCheck
    case LivenessOverreach => LivenessCheck
  }

  function User(n: Counter): Check {
    match n
    case TnumBounds => LogicalCheck
    case TnumWellformed => LogicalCheck
    case BoundsOrder => LogicalCheck
    case Reg32 => SubCheck
    case JitInterp => JitCheck
    case RuntimeChecked => ReturnCheck
    case IntentChecked => IntentCheck
    case WritesChecked => WriteCheck
    case StoresChecked => StoreCheck
    case PrunePairs => PruneCheck
    case ResourceArtifacts => PruneCheck
    case InvariantsChecked => PruneCheck
    case GateChecked => LivenessCheck
  }

  /** The two register checks share the ordering counter; every other has one user. */
  predicate Uses(c: Check, n: Counter) { c == User(n) || (c == SubCheck && n == BoundsOrder) }

  /** The report holds nothing but c's own kinds and counters. */
  predicate Within(c: Check, r: Report) {
    (forall f :: f in r.findings ==> Owner(f.kind) == c) && forall n :: n in r.checked ==> Uses(c, n)
  }

  lemma TickWithin(c: Check, r: Report, b: bool, n: Counter)
    requires Within(c, r) && Uses(c, n)
    ensures Within(c, Tick(r, b, n))
  {
  }

  lemma NoteWithin(c: Check, r: Report, b: bool, f: Finding)
    requires Within(c, r) && Owner(f.kind) == c
    ensures Within(c, Note(r, b, f))
  {
  }

  lemma OnceWithin(c: Check, r: Report, n: Counter, b: bool, f: Finding)
    requires Within(c, r) && Uses(c, n) && Owner(f.kind) == c
    ensures Within(c, Note(Tick(r, true, n), b, f))
  {
    TickWithin(c, r, true, n);
    NoteWithin(c, Tick(r, true, n), b, f);
  }

  lemma OrderingWithin(c: Check, r: Report, uC: bool, uI: bool, u: Finding, sC: bool, sI: bool, s: Finding)
    requires Within(c, r) && Uses(c, BoundsOrder) && Owner(u.kind) == c == Owner(s.kind)
    ensures Within(c, Ordering(r, uC, uI, u, sC, sI, s))
  {
    TickWithin(c, r, uC, BoundsOrder);
    var r1 := Tick(r, uC, BoundsOrder);
    NoteWithin(c, r1, uI, u);
    var r2 := Note(r1, uI, u);
    TickWithin(c, r2, sC, BoundsOrder);
    NoteWithin(c, Tick(r2, sC, BoundsOrder), sI, s);
  }

  lemma GatedWithin(c: Check, r: Report, gate: bool, k: Counter, c1: bool, f1: Finding, c2: bool, f2: Finding)
    requires Within(c, r) && Uses(c, k) && Owner(f1.kind) == c == Owner(f2.kind)
    ensures Within(c, Gated(r, gate, k, c1, f1, c2, f2))
  {
    OnceWithin(c, r, k, c1, f1);
    NoteWithin(c, Note(Tick(r, true, k), c1, f1), c2, f2);
  }

  lemma PartialWithin(r: Report, counts: bool, partial: bool, overlap: bool, f: Finding)
    requires Within(LogicalCheck, r) && f.kind == TnumMalformed
    ensures Within(LogicalCheck, Partial(r, counts, partial, overlap, f))
  {
    TickWithin(LogicalCheck, r, counts, TnumBounds);
    TickWithin(LogicalCheck, Tick(r, counts, TnumBounds), partial, TnumWellformed);
    NoteWithin(LogicalCheck, Tick(Tick(r, counts, TnumBounds), partial, TnumWellformed), overlap, f);
  }

  lemma LogicalWithin(r: Report, insn: nat, reg: RegState)
    requires Within(LogicalCheck, r)
    ensures Within(LogicalCheck, LogicalOf(r, insn, reg))
  {
    PartialWithin(r, TnumBoundsCheckable(reg), TnumPartial(reg.tnum), TnumOverlaps(reg.tnum),
                  At(insn, reg, TnumMalformed));
    var r1 := TnumPart(r, insn, reg);
    OrderingWithin(LogicalCheck, r1, UnsignedOrderable(reg), UnsignedBackwards(reg), At(insn, reg, UnsignedInverted),
                   SignedOrderable(reg), SignedBackwards(reg), At(insn, reg, SignedInverted));
    var r2 := OrderPart(r1, insn, reg);
    GatedWithin(LogicalCheck, r2, ConstGate(reg), TnumBounds, SignedNotPinned(reg), At(insn, reg, ConstTnumMismatch),
                UnsignedNotPinned(reg), At(insn, reg, ConstTnumMismatch));
    NoteWithin(LogicalCheck, ConstPart(r2, insn, reg), SpanDisjoint(reg), At(insn, reg, TnumBoundsInconsistent));
  }

  lemma SubWithin(r: Report, insn: nat, reg: RegState)
    requires Within(SubCheck, r)
    ensures Within(SubCheck, SubOf(r, insn, reg))
  {
    OrderingWithin(SubCheck, r, OrderCheckable(reg.U32Lo(), reg.U32Hi(), 0, U32_MAX), reg.U32Lo() > reg.U32Hi(),
                   At(insn, reg, U32Inverted),
                   OrderCheckable(reg.S32Lo(), reg.S32Hi(), I32_MIN, I32_MAX), reg.S32Lo() > reg.S32Hi(),
                   At(insn, reg, S32Inverted));
    GatedWithin(SubCheck, Order32Part(r, insn, reg), Reg32Checkable(reg), Reg32, Tnum32Disjoint(reg),
                At(insn, reg, Tnum32Inconsistent),
                ViewsDisjoint(reg), At(insn, reg, Reg32Reg64Inconsistent));
  }

  lemma {:induction false} RegsWithin(r: Report, insn: nat, regs: seq<RegState>, sub: bool)
    requires Within(if sub then SubCheck else LogicalCheck, r)
    ensures Within(if sub then SubCheck else LogicalCheck, OverRegs(r, insn, regs, sub))
  {
    if regs != [] {
      var front, last := regs[..|regs| - 1], regs[|regs| - 1];
      RegsWithin(r, insn, front, sub);
      if sub {
        SubWithin(OverRegs(r, insn, front, sub), insn, last);
      } else {
        LogicalWithin(OverRegs(r, insn, front, sub), insn, last);
      }
    }
  }

  lemma {:induction false} EvolutionWithin(r: Report, evo: seq<Snapshot>, sub: bool)
    requires Within(if sub then SubCheck else LogicalCheck, r)
    ensures Within(if sub then SubCheck else LogicalCheck, OverEvolution(r, evo, sub))
  {
    if evo != [] {
      var front, last := evo[..|evo| - 1], evo[|evo| - 1];
      EvolutionWithin(r, front, sub);
      RegsWithin(OverEvolution(r, front, sub), last.insnIdx, last.regs, sub);
    }
  }

  lemma {:induction false} ReturnsWithin(u: Union, samples: seq<Sample>)
    ensures Within(ReturnCheck, JudgeReturns(Empty, u, samples))
  {
    if samples != [] {
      var front, smp := samples[..|samples| - 1], samples[|samples| - 1];
      ReturnsWithin(u, front);
      OnceWithin(ReturnCheck, JudgeReturns(Empty, u, front), RuntimeChecked, Escapes(u, smp.retval),
                 Finding(RuntimeBound, 0, |samples| - 1));
    }
  }

  lemma {:induction false} IntentsWithin(rec: Record, samples: seq<Sample>)
    ensures Within(IntentCheck, JudgeIntents(Empty, rec, samples))
  {
    if samples != [] {
      var front, smp := samples[..|samples| - 1], samples[|samples| - 1];
      IntentsWithin(rec, front);
      if IntentApplies(rec, smp) {
        OnceWithin(IntentCheck, JudgeIntents(Empty, rec, front), IntentChecked, smp.retval != Intended(rec, smp).value,
                   Finding(RuntimeIntent, 0, |samples| - 1));
      }
    }
  }

  lemma {:induction false} WritesWithin(samples: seq<Sample>)
    ensures Within(WriteCheck, JudgeWrites(Empty, samples))
  {
    if samples != [] {
      var front, smp := samples[..|samples| - 1], samples[|samples| - 1];
      WritesWithin(front);
      if WriteApplies(smp) {
        OnceWithin(WriteCheck, JudgeWrites(Empty, front), WritesChecked, Escaped(smp),
                   Finding(RuntimeOobWrite, 0, |samples| - 1));
      }
    }
  }

  lemma {:induction false} StoresWithin(claims: seq<RegState>, site: StoreSite, samples: seq<Sample>)
    ensures Within(StoreCheck, JudgeStores(Empty, claims, site, samples))
  {
    if samples != [] {
      var front, smp := samples[..|samples| - 1], samples[|samples| - 1];
      StoresWithin(claims, site, front);
      if Judged(smp) {
        OnceWithin(StoreCheck, JudgeStores(Empty, claims, site, front), StoresChecked,
                   !Admitted(claims, site.insnOff, smp.storeOff.value),
                   Finding(StoreLocation, site.insnIdx, |samples| - 1));
      }
    }
  }

  lemma {:induction false} GateFindingsKind(cells: seq<Cell>)
    ensures forall f :: f in GateFindings(cells) ==> f.kind == LivenessOverreach
  {
    if cells != [] {
      GateFindingsKind(cells[..|cells| - 1]);
    }
  }

  lemma InvariantWithin(p: Probe)
    ensures Within(PruneCheck, InvariantPart(Empty, p))
  {
    var r := Tick(Empty, p.baseAccept, InvariantsChecked);
    TickWithin(PruneCheck, Empty, p.baseAccept, InvariantsChecked);
    NoteWithin(PruneCheck, r, p.invReason == "efault" && p.baseAccept, Finding(RegInvariants, 0, 0));
  }

  lemma JitWithin(rec: Record)
    ensures Within(JitCheck, JitOf(Empty, rec))
  {
    if rec.jit.Some? {
      var d := rec.jit.value;
      OnceWithin(JitCheck, Empty, JitInterp, d.retvalJit != d.retvalInterp || !d.dataOutEqual,
                 Finding(JitDivergence, 0, 0));
    }
  }

  lemma LivenessWithin(rec: Record)
    ensures Within(LivenessCheck, LivenessOf(Empty, rec))
  {
    if rec.gate.Some? && rec.gate.value.claim.Some? {
      var claim, rows := rec.gate.value.claim.value, rec.gate.value.kernel;
      CellsWithin(AllChecked(claim, rows), AllOverreach(claim, rows));
    }
  }

  lemma CellsWithin(n: nat, cells: seq<Cell>)
    ensures Within(LivenessCheck, NoteAll(TickMany(Empty, GateChecked, n), GateFindings(cells)))
  {
    GateFindingsKind(cells);
  }

  lemma PruneWithin(p: Probe)
    ensures Within(PruneCheck, PruneOf(Empty, p))
  {
    var r1 := InvariantPart(Empty, p);
    InvariantWithin(p);
    OnceWithin(PruneCheck, r1, PrunePairs, true, Finding(PruneSoundness, 0, 0));
    OnceWithin(PruneCheck, r1, PrunePairs, true, Finding(PruneDisagreement, 0, 0));
    TickWithin(PruneCheck, r1, true, PrunePairs);
    TickWithin(PruneCheck, Tick(r1, true, PrunePairs), true, ResourceArtifacts);
  }

  lemma CheckWithin(c: Check, rec: Record)
    ensures Within(c, Alone(c, rec))
  {
    match c
    case LogicalCheck => EvolutionWithin(Empty, rec.evolution, false);
    case JitCheck => JitWithin(rec);
    case SubCheck => EvolutionWithin(Empty, rec.evolution, true);
    case ReturnCheck => ReturnsWithin(AbsorbAll(NoClaim, rec.evolution), rec.samples);
    case IntentCheck => IntentsWithin(rec, rec.samples);
    case LivenessCheck => LivenessWithin(rec);
    case WriteCheck => WritesWithin(rec.samples);
    case StoreCheck =>
      if rec.site.Some? {
        StoresWithin(UsableOf(Claims(rec.evolution, rec.site.value)), rec.site.value, rec.samples);
      }
    case PruneCheck =>
      if rec.probe.Some? {
        PruneWithin(rec.probe.value);
      }
  }

  // ---- a record, a period -----------------------------------------------------------------------------------

  /** The findings of one kind, in order. */
  function OfKind(fs: seq<Finding>, k: Kind): seq<Finding> {
    if fs == [] then [] else OfKind(fs[..|fs| - 1], k) + if fs[|fs| - 1].kind == k then [fs[|fs| - 1]] else []
  }

  lemma {:induction false} OfKindMeans(fs: seq<Finding>, k: Kind)
    ensures |OfKind(fs, k)| == CountOf(fs, k)
    ensures forall f :: f in OfKind(fs, k) <==> f in fs && f.kind == k
  {
    if fs != [] {
      var front, last := fs[..|fs| - 1], fs[|fs| - 1];
      assert fs == front + [last];
      OfKindMeans(front, k);
    }
  }

  lemma {:induction false} OfKindConcat(a: seq<Finding>, b: seq<Finding>, k: Kind)
    ensures OfKind(a + b, k) == OfKind(a, k) + OfKind(b, k)
  {
    if b == [] {
      assert a + b == a;
    } else {
      assert (a + b)[..|a + b| - 1] == a + b[..|b| - 1];
      OfKindConcat(a, b[..|b| - 1], k);
    }
  }

  lemma {:induction false} NoneOfKind(fs: seq<Finding>, k: Kind)
    requires forall f :: f in fs ==> f.kind != k
    ensures OfKind(fs, k) == []
  {
    if fs != [] {
      NoneOfKind(fs[..|fs| - 1], k);
    }
  }

  /** Adding what one check says moves its own kinds and counters and no others. */
  lemma PlusMoves(c: Check, r: Report, d: Report, k: Kind, n: Counter)
    requires Within(c, d)
    ensures OfKind(Plus(r, d).findings, k) ==
            OfKind(r.findings, k) + if c == Owner(k) then OfKind(d.findings, k) else []
    ensures Plus(r, d).checked[n] == r.checked[n] + if Uses(c, n) then d.checked[n] else 0
  {
    OfKindConcat(r.findings, d.findings, k);
    if c != Owner(k) {
      NoneOfKind(d.findings, k);
    }
  }

  const ORDER: seq<Check> := [LogicalCheck, JitCheck, SubCheck, ReturnCheck, IntentCheck, LivenessCheck, WriteCheck,
                              StoreCheck, PruneCheck]

  /** A report with what each of these checks says added to it. */
  function Sum(r: Report, cs: seq<Check>, d: Check -> Report): Report
    decreases |cs|
  {
    if cs == [] then r else Sum(Plus(r, d(cs[0])), cs[1..], d)
  }

  predicate Distinct(cs: seq<Check>) {
    forall i, j :: 0 <= i < j < |cs| ==> cs[i] != cs[j]
  }

  lemma DistinctRest(cs: seq<Check>)
    requires cs != [] && Distinct(cs)
    ensures Distinct(cs[1..]) && cs[0] !in cs[1..]
    ensures forall c :: c in cs <==> c == cs[0] || c in cs[1..]
  {
    assert cs == [cs[0]] + cs[1..];
  }

  /** What the kind's check says, if it is one of these. */
  function Mine(cs: seq<Check>, d: Check -> Report, k: Kind): seq<Finding> {
    if Owner(k) in cs then OfKind(d(Owner(k)).findings, k) else []
  }

  lemma MineStep(cs: seq<Check>, d: Check -> Report, k: Kind, before: seq<Finding>)
    requires cs != [] && Distinct(cs)
    ensures before + (if cs[0] == Owner(k) then OfKind(d(cs[0]).findings, k) else []) + Mine(cs[1..], d, k) ==
            before + Mine(cs, d, k)
  {
    DistinctRest(cs);
  }

  lemma {:induction false} SumFinds(r: Report, cs: seq<Check>, d: Check -> Report, k: Kind)
    requires Distinct(cs) && forall c :: Within(c, d(c))
    ensures OfKind(Sum(r, cs, d).findings, k) == OfKind(r.findings, k) + Mine(cs, d, k)
    decreases |cs|
  {
    if cs != [] {
      DistinctRest(cs);
      PlusMoves(cs[0], r, d(cs[0]), k, TnumBounds);
      SumFinds(Plus(r, d(cs[0])), cs[1..], d, k);
      MineStep(cs, d, k, OfKind(r.findings, k));
    }
  }

  /** What c counts towards n, if it is one of these. */
  function Share(cs: seq<Check>, d: Check -> Report, c: Check, n: Counter): nat {
    if c in cs then d(c).checked[n] else 0
  }

  lemma {:induction false} SumCounts(r: Report, cs: seq<Check>, d: Check -> Report, n: Counter)
    requires Distinct(cs) && (forall c :: Within(c, d(c)))
    ensures Sum(r, cs, d).checked[n] ==
            r.checked[n] + Share(cs, d, User(n), n) + if n == BoundsOrder then Share(cs, d, SubCheck, n) else 0
    decreases |cs|
  {
    if cs != [] {
      DistinctRest(cs);
      PlusMoves(cs[0], r, d(cs[0]), JitDivergence, n);
      SumCounts(Plus(r, d(cs[0])), cs[1..], d, n);
    }
  }

  lemma SumStep(r: Report, c: Check, rest: seq<Check>, d: Check -> Report)
    ensures Sum(r, [c] + rest, d) == Sum(Plus(r, d(c)), rest, d)
  {
    assert ([c] + rest)[1..] == rest;
  }

  function AloneOn(rec: Record): Check -> Report { c => Alone(c, rec) }

  lemma IntrinsicIsSum(r: Report, rec: Record)
    ensures IntrinsicOf(r, rec) ==
            Plus(Plus(Plus(r, Alone(LogicalCheck, rec)), Alone(JitCheck, rec)), Alone(SubCheck, rec))
  {
    CheckAdds(LogicalCheck, r, rec);
    CheckAdds(JitCheck, AfterCheck(LogicalCheck, r, rec), rec);
    CheckAdds(SubCheck, AfterCheck(JitCheck, AfterCheck(LogicalCheck, r, rec), rec), rec);
  }

  lemma ObservedIsSum(r: Report, rec: Record)
    ensures ObservedOf(r, rec) ==
            Plus(Plus(Plus(Plus(r, Alone(ReturnCheck, rec)), Alone(IntentCheck, rec)), Alone(LivenessCheck, rec)),
                 Alone(WriteCheck, rec))
  {
    CheckAdds(ReturnCheck, r, rec);
    var r1 := AfterCheck(ReturnCheck, r, rec);
    CheckAdds(IntentCheck, r1, rec);
    var r2 := AfterCheck(IntentCheck, r1, rec);
    CheckAdds(LivenessCheck, r2, rec);
    CheckAdds(WriteCheck, AfterCheck(LivenessCheck, r2, rec), rec);
  }

  lemma LastTwoAdd(r: Report, rec: Record)
    ensures ProbeOf(StoreOf(r, rec), rec) == Plus(Plus(r, Alone(StoreCheck, rec)), Alone(PruneCheck, rec))
  {
    CheckAdds(StoreCheck, r, rec);
    CheckAdds(PruneCheck, AfterCheck(StoreCheck, r, rec), rec);
  }

  lemma SumOfTwo(r: Report, c: Check, e: Check, rest: seq<Check>, d: Check -> Report)
    ensures Sum(r, [c, e] + rest, d) == Sum(Plus(Plus(r, d(c)), d(e)), rest, d)
  {
    assert [c, e] + rest == [c] + ([e] + rest);
    SumStep(r, c, [e] + rest, d);
    SumStep(Plus(r, d(c)), e, rest, d);
  }

  lemma SumOfNine(r: Report, d: Check -> Report)
    ensures Sum(r, ORDER, d) ==
            var a := Plus(Plus(Plus(r, d(LogicalCheck)), d(JitCheck)), d(SubCheck));
            var b := Plus(Plus(Plus(Plus(a, d(ReturnCheck)), d(IntentCheck)), d(LivenessCheck)), d(WriteCheck));
            Plus(Plus(b, d(StoreCheck)), d(PruneCheck))
  {
    var last: seq<Check> := [PruneCheck];
    var four := [WriteCheck, StoreCheck] + last;
    var six := [IntentCheck, LivenessCheck] + four;
    var eight := [SubCheck, ReturnCheck] + six;
    assert ORDER == [LogicalCheck, JitCheck] + eight;
    SumOfTwo(r, LogicalCheck, JitCheck, eight, d);
    var r2 := Plus(Plus(r, d(LogicalCheck)), d(JitCheck));
    SumOfTwo(r2, SubCheck, ReturnCheck, six, d);
    var r4 := Plus(Plus(r2, d(SubCheck)), d(ReturnCheck));
    SumOfTwo(r4, IntentCheck, LivenessCheck, four, d);
    var r6 := Plus(Plus(r4, d(IntentCheck)), d(LivenessCheck));
    SumOfTwo(r6, WriteCheck, StoreCheck, last, d);
    SumStep(Plus(Plus(r6, d(WriteCheck)), d(StoreCheck)), PruneCheck, [], d);
    assert last == [PruneCheck] + [];
  }

  /** A record's report is what stands plus what each check says of it alone, in their order. */
  lemma RecordIsSum(r: Report, rec: Record)
    ensures RecordOf(r, rec) == Sum(r, ORDER, AloneOn(rec))
  {
    IntrinsicIsSum(r, rec);
    ObservedIsSum(IntrinsicOf(r, rec), rec);
    LastTwoAdd(ObservedOf(IntrinsicOf(r, rec), rec), rec);
    SumOfNine(r, AloneOn(rec));
  }

  lemma OrderIsComplete(c: Check)
    ensures c in ORDER && Distinct(ORDER)
  {
    match c
    case LogicalCheck => assert ORDER[0] == c;
    case JitCheck => assert ORDER[1] == c;
    case SubCheck => assert ORDER[2] == c;
    case ReturnCheck => assert ORDER[3] == c;
    case IntentCheck => assert ORDER[4] == c;
    case LivenessCheck => assert ORDER[5] == c;
    case WriteCheck => assert ORDER[6] == c;
    case StoreCheck => assert ORDER[7] == c;
    case PruneCheck => assert ORDER[8] == c;
  }

  /** What the users of a counter count in a record: one check, or two that share it. */
  function CountedBy(n: Counter, rec: Record): nat {
    Alone(User(n), rec).checked[n] + if n == BoundsOrder then Alone(SubCheck, rec).checked[n] else 0
  }

  /** A record adds to each kind just what that kind's check finds in it alone, and to each counter just
      what its users count. */
  lemma RecordAdds(r: Report, rec: Record, k: Kind, n: Counter)
    ensures OfKind(RecordOf(r, rec).findings, k) == OfKind(r.findings, k) + OfKind(Alone(Owner(k), rec).findings, k)
    ensures RecordOf(r, rec).checked[n] == r.checked[n] + CountedBy(n, rec)
  {
    RecordIsSum(r, rec);
    forall c ensures Within(c, AloneOn(rec)(c)) {
      CheckWithin(c, rec);
    }
    OrderIsComplete(Owner(k));
    OrderIsComplete(User(n));
    OrderIsComplete(SubCheck);
    SumFinds(r, ORDER, AloneOn(rec), k);
    SumCounts(r, ORDER, AloneOn(rec), n);
  }

  function Flat<T>(parts: seq<seq<T>>): seq<T> {
    if parts == [] then [] else Flat(parts[..|parts| - 1]) + parts[|parts| - 1]
  }

  function Total(ns: seq<nat>): nat {
    if ns == [] then 0 else Total(ns[..|ns| - 1]) + ns[|ns| - 1]
  }

  /** What the kind's check finds in each record. */
  function FoundIn(records: seq<Record>, k: Kind): seq<seq<Finding>> {
    seq(|records|, i requires 0 <= i < |records| => OfKind(Alone(Owner(k), records[i]).findings, k))
  }

  /** What the counter's users count in each record. */
  function CountedIn(records: seq<Record>, n: Counter): seq<nat> {
    seq(|records|, i requires 0 <= i < |records| => CountedBy(n, records[i]))
  }

  lemma {:induction false} ChainFlat<T>(sofar: seq<seq<T>>, parts: seq<seq<T>>)
    requires |sofar| == |parts| + 1 && sofar[0] == []
    requires forall i :: 0 <= i < |parts| ==> sofar[i + 1] == sofar[i] + parts[i]
    ensures sofar[|parts|] == Flat(parts)
  {
    if parts != [] {
      ChainFlat(sofar[..|parts|], parts[..|parts| - 1]);
    }
  }

  lemma {:induction false} ChainTotal(sofar: seq<nat>, ns: seq<nat>)
    requires |sofar| == |ns| + 1 && sofar[0] == 0 && forall i :: 0 <= i < |ns| ==> sofar[i + 1] == sofar[i] + ns[i]
    ensures sofar[|ns|] == Total(ns)
  {
    if ns != [] {
      ChainTotal(sofar[..|ns|], ns[..|ns| - 1]);
    }
  }

  lemma RunAdds(records: seq<Record>, i: nat, k: Kind, n: Counter)
    requires i < |records|
    ensures OfKind(RunOf(records[..i + 1]).findings, k) ==
            OfKind(RunOf(records[..i]).findings, k) + FoundIn(records, k)[i]
    ensures RunOf(records[..i + 1]).checked[n] == RunOf(records[..i]).checked[n] + CountedIn(records, n)[i]
  {
    assert records[..i + 1][..i] == records[..i];
    RecordAdds(RunOf(records[..i]), records[i], k, n);
  }

  lemma RunFinds(records: seq<Record>, k: Kind)
    ensures OfKind(RunOf(records).findings, k) == Flat(FoundIn(records, k))
  {
    var sofar := seq(|records| + 1, i requires 0 <= i <= |records| => OfKind(RunOf(records[..i]).findings, k));
    var parts := FoundIn(records, k);
    forall i | 0 <= i < |records| ensures sofar[i + 1] == sofar[i] + parts[i] {
      RunAdds(records, i, k, TnumBounds);
    }
    assert records[..0] == [] && records[..|records|] == records;
    ChainFlat(sofar, parts);
  }

  lemma RunCounts(records: seq<Record>, n: Counter)
    ensures RunOf(records).checked[n] == Total(CountedIn(records, n))
  {
    var sofar := seq(|records| + 1, i requires 0 <= i <= |records| => RunOf(records[..i]).checked[n]);
    var ns := CountedIn(records, n);
    forall i | 0 <= i < |records| ensures sofar[i + 1] == sofar[i] + ns[i] {
      RunAdds(records, i, JitDivergence, n);
    }
    assert records[..0] == [] && records[..|records|] == records;
    ChainTotal(sofar, ns);
  }

  /** Over a period no check disturbs another: each kind is what its own check finds record by record,
      and each counter is what its users count. */
  lemma RunIsTheSum(records: seq<Record>, k: Kind, n: Counter)
    ensures OfKind(RunOf(records).findings, k) == Flat(FoundIn(records, k))
    ensures RunOf(records).checked[n] == Total(CountedIn(records, n))
  {
    RunFinds(records, k);
    RunCounts(records, n);
  }

  /** A finding is in a record's report exactly when its kind's check puts it there. */
  lemma RecordReports(rec: Record, f: Finding)
    ensures f in RecordOf(Empty, rec).findings <==> f in Alone(Owner(f.kind), rec).findings
  {
    RecordAdds(Empty, rec, f.kind, TnumBounds);
    OfKindMeans(RecordOf(Empty, rec).findings, f.kind);
    OfKindMeans(Alone(Owner(f.kind), rec).findings, f.kind);
    assert f in OfKind(RecordOf(Empty, rec).findings, f.kind) <==>
           f in OfKind(Alone(Owner(f.kind), rec).findings, f.kind);
  }

  lemma RecordCounts(rec: Record, n: Counter)
    ensures RecordOf(Empty, rec).checked[n] == CountedBy(n, rec)
  {
    RecordAdds(Empty, rec, JitDivergence, n);
  }
}
