/** The diff stage over one record and over a period: every check in the order it runs, into one
    list of findings and one set of counters. */
module Pipeline {
  import opened Isa
  import opened Records
  import opened Gate
  import opened Intrinsic
  import opened Runtime
  import opened Store

  // ---- JIT against interpreter ----------------------------------------------------------------------

  function JitOf(r: Report, rec: Record): Report {
    match rec.jit
    case None => r
    case Some(d) =>
      Note(Tick(r, true, JitInterp), d.retvalJit != d.retvalInterp || !d.dataOutEqual, Finding(JitDivergence, 0, 0))
  }

  method CheckJit(rec: Record, out: Sink)
    modifies out
    ensures out.Abs() == JitOf(old(out.Abs()), rec)
  {
    if rec.jit.Some? {
      var d := rec.jit.value;
      out.Count(true, JitInterp);
      out.Push(d.retvalJit != d.retvalInterp || !d.dataOutEqual, Finding(JitDivergence, 0, 0));
    }
  }

  // ---- the liveness gate ----------------------------------------------------------------------------

  function GateFindings(cells: seq<Cell>): seq<Finding> {
    if cells == [] then []
    else GateFindings(cells[..|cells| - 1]) + [Finding(LivenessOverreach, cells[|cells| - 1].insn,
                                                       cells[|cells| - 1].reg)]
  }

  function NoteAll(r: Report, fs: seq<Finding>): Report { r.(findings := r.findings + fs) }

  function TickMany(r: Report, k: Counter, n: nat): Report { r.(checked := r.checked[k := r.checked[k] + n]) }

  function LivenessOf(r: Report, rec: Record): Report {
    if rec.gate.None? || rec.gate.value.claim.None? then r
    else
      var claim, rows := rec.gate.value.claim.value, rec.gate.value.kernel;
      NoteAll(TickMany(r, GateChecked, AllChecked(claim, rows)), GateFindings(AllOverreach(claim, rows)))
  }

  method CheckLiveness(rec: Record, out: Sink)
    modifies out
    ensures out.Abs() == LivenessOf(old(out.Abs()), rec)
  {
    if rec.gate.None? || rec.gate.value.claim.None? {
      return;
    }
    var cells, n := CheckLivenessGate(rec.gate.value.claim.value, rec.gate.value.kernel);
    out.checked := out.checked[GateChecked := out.checked[GateChecked] + n];
    ghost var before := out.findings;
    for i := 0 to |cells|
      invariant out.findings == before + GateFindings(cells[..i]) &&
                out.checked == old(out.checked)[GateChecked := old(out.checked)[GateChecked] + n]
    {
      assert cells[..i + 1][..i] == cells[..i];
      out.Push(true, Finding(LivenessOverreach, cells[i].insn, cells[i].reg));
    }
    assert cells[..|cells|] == cells;
  }

  // ---- the pruning differential ---------------------------------------------------------------------

  /** A rejection that speaks about the instrument and not about the program. */
  predicate ResourceReason(reason: string) {
    reason == "too_large" || reason == "too_many_states" || reason == "log_truncated"
  }

  /** The flag demonstrably changed the state space. */
  predicate Grown(p: Probe) { p.freqStates > p.baseStates }

  function InvariantPart(r: Report, p: Probe): Report {
    Note(Tick(r, p.baseAccept, InvariantsChecked), p.invReason == "efault" && p.baseAccept,
         Finding(RegInvariants, 0, 0))
  }

  /** Flagged accept against default reject is the soundness direction; the other is a disagreement
      unless a resource limit explains it. */
  function PruneOf(r: Report, p: Probe): Report {
    var r1 := InvariantPart(r, p);
    if !Grown(p) then r1
    else
      var r2 := Tick(r1, true, PrunePairs);
      if p.baseAccept == p.freqAccept then r2
      else if p.freqAccept then Note(r2, true, Finding(PruneSoundness, 0, 0))
      else if ResourceReason(p.freqReason) then Tick(r2, true, ResourceArtifacts)
      else Note(r2, true, Finding(PruneDisagreement, 0, 0))
  }

  method CheckPrune(p: Probe, out: Sink)
    modifies out
    ensures out.Abs() == PruneOf(old(out.Abs()), p)
  {
    out.Count(p.baseAccept, InvariantsChecked);
    out.Push(p.invReason == "efault" && p.baseAccept, Finding(RegInvariants, 0, 0));
    if p.freqStates <= p.baseStates {
      return;
    }
    out.Count(true, PrunePairs);
    if p.baseAccept == p.freqAccept {
      return;
    }
    if p.freqAccept && !p.baseAccept {
      out.Push(true, Finding(PruneSoundness, 0, 0));
      return;
    }
    if ResourceReason(p.freqReason) {
      out.Count(true, ResourceArtifacts);
      return;
    }
    out.Push(true, Finding(PruneDisagreement, 0, 0));
  }

  // ---- a record and a period ------------------------------------------------------------------------

  function ProbeOf(r: Report, rec: Record): Report {
    if rec.probe.Some? then PruneOf(r, rec.probe.value) else r
  }

  function IntrinsicOf(r: Report, rec: Record): Report {
    OverEvolution(JitOf(OverEvolution(r, rec.evolution, false), rec), rec.evolution, true)
  }

  function ObservedOf(r: Report, rec: Record): Report {
    JudgeWrites(LivenessOf(IntentOf(GroundTruthOf(r, rec), rec), rec), rec.samples)
  }

  function RecordOf(r: Report, rec: Record): Report {
    ProbeOf(StoreOf(ObservedOf(IntrinsicOf(r, rec), rec), rec), rec)
  }

  function RunOf(records: seq<Record>): Report {
    if records == [] then Empty else RecordOf(RunOf(records[..|records| - 1]), records[|records| - 1])
  }

  method CheckRecord(rec: Record, out: Sink)
    modifies out
    ensures out.Abs() == RecordOf(old(out.Abs()), rec)
  {
    CheckEvolution(rec.evolution, false, out);
    CheckJit(rec, out);
    CheckEvolution(rec.evolution, true, out);
    CheckRuntimeGroundTruth(rec, out);
    CheckRuntimeIntent(rec, out);
    CheckLiveness(rec, out);
    CheckRuntimeWriteSafety(rec, out);
    CheckStoreLocation(rec, out);
    if rec.probe.Some? {
      CheckPrune(rec.probe.value, out);
    }
  }

  method Run(records: seq<Record>) returns (out: Sink)
    ensures fresh(out) && out.Abs() == RunOf(records)
  {
    out := new Sink();
    for i := 0 to |records|
      invariant fresh(out) && out.Abs() == RunOf(records[..i])
    {
      assert records[..i + 1][..i] == records[..i];
      CheckRecord(records[i], out);
    }
    assert records[..|records|] == records;
  }
}
