/** What a record's report says of each sample, and how often it looked. */
module Exactly {
  import opened Isa
  import opened Records
  import opened Runtime
  import opened Pipeline
  import opened Period
  import opened Least
  import opened Dataflow
  import opened Gate
  import opened Cells

  // ---- counting positions ---------------------------------------------------------------------------------

  /** The positions at which a condition holds. */
  function Trues(bs: seq<bool>): set<int> { set i | 0 <= i < |bs| && bs[i] }

  lemma TruesStep(front: seq<bool>, b: bool)
    ensures |Trues(front + [b])| == |Trues(front)| + if b then 1 else 0
  {
    var all := Trues(front + [b]);
    assert all == if b then Trues(front) + {|front|} else Trues(front);
  }

  // ---- return values ------------------------------------------------------------------------------------------

  function ReturnSamples(samples: seq<Sample>): seq<bool> {
    seq(|samples|, i requires 0 <= i < |samples| => IsReturnSample(samples[i]))
  }

  lemma {:induction false} ReturnsExactly(u: Union, samples: seq<Sample>, i: nat)
    ensures Finding(RuntimeBound, 0, i) in JudgeReturns(Empty, u, samples).findings <==>
            i < |samples| && IsReturnSample(samples[i]) && Escapes(u, samples[i].retval)
    ensures JudgeReturns(Empty, u, samples).checked[RuntimeChecked] == |Trues(ReturnSamples(samples))|
  {
    if samples != [] {
      var front, last := samples[..|samples| - 1], samples[|samples| - 1];
      ReturnsExactly(u, front, i);
      TruesStep(ReturnSamples(front), IsReturnSample(last));
      assert ReturnSamples(samples) == ReturnSamples(front) + [IsReturnSample(last)];
    }
  }

  /** Sample i is reported exactly when the record is not declared multi-path, some r0 scalar state was
      printed, the run returned, and the low half of its value lies on one side of every one of those
      states; every return is counted. */
  lemma BoundViolationExactly(rec: Record, i: nat)
    ensures var judged := rec.multiPath != Some(true) && exists reg :: Printed(rec.evolution, reg);
            && (Finding(RuntimeBound, 0, i) in RecordOf(Empty, rec).findings <==>
                judged && i < |rec.samples|
                && var s := rec.samples[i];
                   !s.error && s.storeOff == None && OneSided(rec.evolution, s.retval % 0x1_0000_0000))
            && RecordOf(Empty, rec).checked[RuntimeChecked] ==
               if judged then |set k | 0 <= k < |rec.samples| && Returned(rec.samples[k])| else 0
  {
    RecordReports(rec, Finding(RuntimeBound, 0, i));
    RecordCounts(rec, RuntimeChecked);
    UnionIsLeast(rec.evolution);
    if rec.multiPath != Some(true) && exists reg :: Printed(rec.evolution, reg) {
      ReturnsAlone(rec, i);
      ReturnedIsCounted(rec.samples);
      if i < |rec.samples| {
        EscapesOneSided(rec.evolution, rec.samples[i].retval);
      }
    } else {
      assert Alone(ReturnCheck, rec) == Empty;
    }
  }

  lemma ReturnsAlone(rec: Record, i: nat)
    requires rec.multiPath != Some(true) && AbsorbAll(NoClaim, rec.evolution).any
    ensures Finding(RuntimeBound, 0, i) in Alone(ReturnCheck, rec).findings <==>
            i < |rec.samples| && IsReturnSample(rec.samples[i])
            && Escapes(AbsorbAll(NoClaim, rec.evolution), rec.samples[i].retval)
    ensures Alone(ReturnCheck, rec).checked[RuntimeChecked] == |Trues(ReturnSamples(rec.samples))|
  {
    ReturnsExactly(AbsorbAll(NoClaim, rec.evolution), rec.samples, i);
  }

  predicate Returned(s: Sample) { !s.error && s.storeOff == None }

  lemma ReturnedIsCounted(samples: seq<Sample>)
    ensures (set k | 0 <= k < |samples| && Returned(samples[k])) == Trues(ReturnSamples(samples))
  {
  }

  // ---- intended results -----------------------------------------------------------------------------------------

  function IntentSamples(rec: Record, samples: seq<Sample>): seq<bool> {
    seq(|samples|, i requires 0 <= i < |samples| => IntentApplies(rec, samples[i]))
  }

  lemma {:induction false} IntentsExactly(rec: Record, samples: seq<Sample>, i: nat)
    ensures Finding(RuntimeIntent, 0, i) in JudgeIntents(Empty, rec, samples).findings <==>
            i < |samples| && IntentApplies(rec, samples[i]) && samples[i].retval != Intended(rec, samples[i]).value
    ensures JudgeIntents(Empty, rec, samples).checked[IntentChecked] == |Trues(IntentSamples(rec, samples))|
  {
    if samples != [] {
      var front, last := samples[..|samples| - 1], samples[|samples| - 1];
      IntentsExactly(rec, front, i);
      TruesStep(IntentSamples(rec, front), IntentApplies(rec, last));
      assert IntentSamples(rec, samples) == IntentSamples(rec, front) + [IntentApplies(rec, last)];
    }
  }

  /** The result the sample is held to: its own if it has one, else the record's. */
  ghost predicate HeldTo(rec: Record, s: Sample, v: u64) {
    s.intended == Some(v) || (s.intended == None && rec.intended == Some(v))
  }

  /** The sample's run observed a return value that some claim speaks of. */
  ghost predicate Observed(rec: Record, s: Sample) {
    rec.accepted && !s.error && s.executed != Some(false) && s.retvalObserved && exists v :: HeldTo(rec, s, v)
  }

  lemma AppliesMeans(rec: Record, i: nat)
    requires i < |rec.samples|
    ensures IntentGate(rec) && IntentApplies(rec, rec.samples[i]) <==> Observed(rec, rec.samples[i])
  {
    var s := rec.samples[i];
    if IntentApplies(rec, s) {
      assert HeldTo(rec, s, Intended(rec, s).value);
      assert s in rec.samples;
    }
  }

  /** Sample i is reported exactly when the program was accepted, the run observed a return value, and
      the result it is held to is another; as many samples are counted as could have been. */
  lemma IntentViolationExactly(rec: Record, i: nat)
    ensures Finding(RuntimeIntent, 0, i) in RecordOf(Empty, rec).findings <==>
            i < |rec.samples| && Observed(rec, rec.samples[i]) && !HeldTo(rec, rec.samples[i], rec.samples[i].retval)
    ensures RecordOf(Empty, rec).checked[IntentChecked] ==
            |set k | 0 <= k < |rec.samples| && Observed(rec, rec.samples[k])|
  {
    RecordReports(rec, Finding(RuntimeIntent, 0, i));
    RecordCounts(rec, IntentChecked);
    IntentsExactly(rec, rec.samples, i);
    ObservedIsCounted(rec);
    if i < |rec.samples| {
      AppliesMeans(rec, i);
    }
  }

  lemma ObservedIsCounted(rec: Record)
    ensures (set k | 0 <= k < |rec.samples| && Observed(rec, rec.samples[k])) ==
            if IntentGate(rec) then Trues(IntentSamples(rec, rec.samples)) else {}
  {
    forall k | 0 <= k < |rec.samples|
      ensures IntentGate(rec) && IntentSamples(rec, rec.samples)[k] <==> Observed(rec, rec.samples[k])
    {
      AppliesMeans(rec, k);
    }
  }

  // ---- writes -----------------------------------------------------------------------------------------------------

  function WriteSamples(samples: seq<Sample>): seq<bool> {
    seq(|samples|, i requires 0 <= i < |samples| => WriteApplies(samples[i]))
  }

  lemma {:induction false} WritesExactly(samples: seq<Sample>, i: nat)
    ensures Finding(RuntimeOobWrite, 0, i) in JudgeWrites(Empty, samples).findings <==>
            i < |samples| && WriteApplies(samples[i]) && Escaped(samples[i])
    ensures JudgeWrites(Empty, samples).checked[WritesChecked] == |Trues(WriteSamples(samples))|
  {
    if samples != [] {
      var front, last := samples[..|samples| - 1], samples[|samples| - 1];
      WritesExactly(front, i);
      TruesStep(WriteSamples(front), WriteApplies(last));
      assert WriteSamples(samples) == WriteSamples(front) + [WriteApplies(last)];
    }
  }

  /** The run reached its store, or was not asked to say. */
  predicate Stored(s: Sample) { s.storeOff.Some? && !s.error && s.executed != Some(false) }

  /** Every byte landed: the base inside the value and, where both lengths are known, the whole run. */
  predicate Landed(s: Sample)
    requires Stored(s)
  {
    s.storeOff.value >= 0 && (s.storeLen.Some? && s.storeSize.Some? ==> s.storeLen == s.storeSize)
  }

  lemma StoredIsCounted(samples: seq<Sample>)
    ensures (set k | 0 <= k < |samples| && Stored(samples[k])) == Trues(WriteSamples(samples))
  {
  }

  /** Sample i is reported exactly when its store ran and did not land whole; every store that ran counts. */
  lemma OobWriteExactly(rec: Record, i: nat)
    ensures Finding(RuntimeOobWrite, 0, i) in RecordOf(Empty, rec).findings <==>
            i < |rec.samples| && Stored(rec.samples[i]) && !Landed(rec.samples[i])
    ensures RecordOf(Empty, rec).checked[WritesChecked] == |set k | 0 <= k < |rec.samples| && Stored(rec.samples[k])|
  {
    OobWriteReported(rec, i);
    WriteCountExactly(rec);
  }

  lemma OobWriteReported(rec: Record, i: nat)
    ensures Finding(RuntimeOobWrite, 0, i) in RecordOf(Empty, rec).findings <==>
            i < |rec.samples| && Stored(rec.samples[i]) && !Landed(rec.samples[i])
  {
    WritesExactly(rec.samples, i);
    RecordReports(rec, Finding(RuntimeOobWrite, 0, i));
  }

  lemma WriteCountExactly(rec: Record)
    ensures RecordOf(Empty, rec).checked[WritesChecked] == |set k | 0 <= k < |rec.samples| && Stored(rec.samples[k])|
  {
    RecordCounts(rec, WritesChecked);
    WritesExactly(rec.samples, 0);
    StoredIsCounted(rec.samples);
  }

  // ---- JIT against interpreter, over a period -----------------------------------------------------------------------

  predicate Diverged(rec: Record) {
    rec.jit.Some? && !(rec.jit.value.retvalJit == rec.jit.value.retvalInterp && rec.jit.value.dataOutEqual)
  }

  function JitCompared(records: seq<Record>): seq<bool> {
    seq(|records|, i requires 0 <= i < |records| => records[i].jit.Some?)
  }

  function Divergent(records: seq<Record>): seq<bool> {
    seq(|records|, i requires 0 <= i < |records| => Diverged(records[i]))
  }

  lemma JitAlone(rec: Record)
    ensures |OfKind(Alone(JitCheck, rec).findings, JitDivergence)| == if Diverged(rec) then 1 else 0
    ensures Alone(JitCheck, rec).checked[JitInterp] == if rec.jit.Some? then 1 else 0
  {
    var f := Finding(JitDivergence, 0, 0);
    assert OfKind([], JitDivergence) == [] && [f][..0] == [];
    assert OfKind([f], JitDivergence) == [f];
    assert [] + [f] == [f];
  }

  lemma {:induction false} FlatOfFlags<T>(parts: seq<seq<T>>, bs: seq<bool>)
    requires |parts| == |bs| && forall i :: 0 <= i < |bs| ==> |parts[i]| == if bs[i] then 1 else 0
    ensures |Flat(parts)| == |Trues(bs)|
  {
    if bs == [] {
      assert Trues(bs) == {};
    } else {
      var front := bs[..|bs| - 1];
      FlatOfFlags(parts[..|bs| - 1], front);
      TruesStep(front, bs[|bs| - 1]);
      assert bs == front + [bs[|bs| - 1]];
    }
  }

  lemma {:induction false} TotalOfFlags(ns: seq<nat>, bs: seq<bool>)
    requires |ns| == |bs| && forall i :: 0 <= i < |bs| ==> ns[i] == if bs[i] then 1 else 0
    ensures Total(ns) == |Trues(bs)|
  {
    if bs == [] {
      assert Trues(bs) == {};
    } else {
      var front := bs[..|bs| - 1];
      TotalOfFlags(ns[..|bs| - 1], front);
      TruesStep(front, bs[|bs| - 1]);
      assert bs == front + [bs[|bs| - 1]];
    }
  }

  lemma JitSums(records: seq<Record>)
    ensures |Flat(FoundIn(records, JitDivergence))| == |Trues(Divergent(records))|
    ensures Total(CountedIn(records, JitInterp)) == |Trues(JitCompared(records))|
  {
    var parts, ns := FoundIn(records, JitDivergence), CountedIn(records, JitInterp);
    forall i | 0 <= i < |records|
      ensures |parts[i]| == if Divergent(records)[i] then 1 else 0
      ensures ns[i] == if JitCompared(records)[i] then 1 else 0
    {
      JitAlone(records[i]);
    }
    FlatOfFlags(parts, Divergent(records));
    TotalOfFlags(ns, JitCompared(records));
  }

  /** Over a period there are as many divergence findings as records whose two runs differ, and the
      counter is the number of records that were compared. */
  lemma JitDivergencesExactly(records: seq<Record>)
    ensures CountOf(RunOf(records).findings, JitDivergence) == |set i | 0 <= i < |records| && Diverged(records[i])|
    ensures RunOf(records).checked[JitInterp] == |set i | 0 <= i < |records| && records[i].jit.Some?|
  {
    RunIsTheSum(records, JitDivergence, JitInterp);
    JitSums(records);
    OfKindMeans(RunOf(records).findings, JitDivergence);
    assert (set i | 0 <= i < |records| && Diverged(records[i])) == Trues(Divergent(records));
    assert (set i | 0 <= i < |records| && records[i].jit.Some?) == Trues(JitCompared(records));
  }

  // ---- the liveness gate -------------------------------------------------------------------------------------------

  lemma {:induction false} GateFindingsAre(cells: seq<Cell>, f: Finding)
    ensures f in GateFindings(cells) <==>
            f.kind == LivenessOverreach && exists c :: c in cells && f.insn == c.insn && f.place == c.reg
  {
    if cells != [] {
      var front, last := cells[..|cells| - 1], cells[|cells| - 1];
      assert cells == front + [last];
      GateFindingsAre(front, f);
    }
  }

  lemma GateAlone(rec: Record, claim: seq<Mask>, rows: seq<TableRow>, insn: nat, r: int)
    requires rec.gate.Some? && rec.gate.value.claim == Some(claim) && rec.gate.value.kernel == rows
    ensures Finding(LivenessOverreach, insn, r) in Alone(LivenessCheck, rec).findings <==>
            Cell(insn, r) in AllOverreach(claim, rows)
    ensures Alone(LivenessCheck, rec).checked[GateChecked] == AllChecked(claim, rows)
  {
    GateFindingsAre(AllOverreach(claim, rows), Finding(LivenessOverreach, insn, r));
  }

  lemma NoGateAlone(rec: Record)
    requires !(rec.gate.Some? && rec.gate.value.claim.Some?)
    ensures Alone(LivenessCheck, rec) == Empty
  {
  }

  /** A record with a claim reports register r at an instruction exactly when the claim has it live there and some
      row of the kernel's table for that instruction has it dead; without a claim it reports nothing. */
  lemma OverreachExactly(rec: Record, insn: nat, r: int)
    ensures Finding(LivenessOverreach, insn, r) in RecordOf(Empty, rec).findings <==>
            && rec.gate.Some? && rec.gate.value.claim.Some?
            && var claim := rec.gate.value.claim.value;
               insn < |claim| && 0 <= r < 10 && r in claim[insn] && SaidDead(rec.gate.value.kernel, Cell(insn, r))
    ensures RecordOf(Empty, rec).checked[GateChecked] ==
            if rec.gate.Some? && rec.gate.value.claim.Some? then
              |CheckedCells(rec.gate.value.claim.value, rec.gate.value.kernel)|
            else 0
  {
    RecordReports(rec, Finding(LivenessOverreach, insn, r));
    RecordCounts(rec, GateChecked);
    if rec.gate.Some? && rec.gate.value.claim.Some? {
      var claim, rows := rec.gate.value.claim.value, rec.gate.value.kernel;
      GateAlone(rec, claim, rows, insn, r);
      ReportedExactly(claim, rows, Cell(insn, r));
      CellsCount(claim, rows);
    } else {
      NoGateAlone(rec);
    }
  }
}
