/** Observed runs against the verifier's printed claims: return values, intended results, writes. */
module Runtime {
  import opened Isa
  import opened Records
  import opened Intrinsic
  import opened IntrinsicSound

  // ---- the union over printed r0 states -------------------------------------------------------------

  datatype Union = Union(any: bool, umin: int, umax: int, u32lo: int, u32hi: int)

  const NoClaim := Union(false, U64_MAX, 0, U64_MAX, 0)

  function Min(a: int, b: int): int { if a <= b then a else b }
  function Max(a: int, b: int): int { if a >= b then a else b }

  predicate IsR0(reg: RegState) { reg.reg == 0 && reg.IsScalar() }

  /** A path whose 32-bit view was left out has the full 32-bit range, and so has a union with it. */
  function Absorb(u: Union, reg: RegState): Union {
    if !IsR0(reg) then u
    else
      var both := reg.u32Min.Some? && reg.u32Max.Some?;
      Union(true, Min(u.umin, reg.umin), Max(u.umax, reg.umax),
            if both then Min(u.u32lo, reg.u32Min.value) else 0,
            if both then Max(u.u32hi, reg.u32Max.value) else U32_MAX)
  }

  function AbsorbRegs(u: Union, regs: seq<RegState>): Union {
    if regs == [] then u else Absorb(AbsorbRegs(u, regs[..|regs| - 1]), regs[|regs| - 1])
  }

  function AbsorbAll(u: Union, evo: seq<Snapshot>): Union {
    if evo == [] then u else AbsorbRegs(AbsorbAll(u, evo[..|evo| - 1]), evo[|evo| - 1].regs)
  }

  method CollectClaims(evo: seq<Snapshot>) returns (u: Union)
    ensures u == AbsorbAll(NoClaim, evo)
  {
    u := NoClaim;
    for i := 0 to |evo|
      invariant u == AbsorbAll(NoClaim, evo[..i])
    {
      assert evo[..i + 1][..i] == evo[..i];
      ghost var before := u;
      var regs := evo[i].regs;
      for j := 0 to |regs|
        invariant u == AbsorbRegs(before, regs[..j])
      {
        assert regs[..j + 1][..j] == regs[..j];
        var reg := regs[j];
        if reg.reg == 0 && reg.regType == "scalar" {
          u := u.(any := true, umin := Min(u.umin, reg.umin), umax := Max(u.umax, reg.umax));
          if reg.u32Min.Some? && reg.u32Max.Some? {
            u := u.(u32lo := Min(u.u32lo, reg.u32Min.value), u32hi := Max(u.u32hi, reg.u32Max.value));
          } else {
            u := u.(u32lo := 0, u32hi := U32_MAX);
          }
        }
      }
      assert regs[..|regs|] == regs;
    }
    assert evo[..|evo|] == evo;
  }

  // ---- check_runtime_ground_truth -------------------------------------------------------------------

  /** The low half of the observed value escapes the 64-bit union, where that fits in 32 bits, or
      the 32-bit one. */
  predicate Escapes(u: Union, retval: u64) {
    var rv := Low32(retval);
    (u.umax <= U32_MAX && (rv < u.umin || rv > u.umax)) || rv < u.u32lo || rv > u.u32hi
  }

  predicate IsReturnSample(smp: Sample) { !smp.error && smp.storeOff.None? }

  function JudgeReturns(r: Report, u: Union, samples: seq<Sample>): Report {
    if samples == [] then r
    else
      var front, smp := JudgeReturns(r, u, samples[..|samples| - 1]), samples[|samples| - 1];
      if !IsReturnSample(smp) then front
      else Note(Tick(front, true, RuntimeChecked), Escapes(u, smp.retval), Finding(RuntimeBound, 0, |samples| - 1))
  }

  function GroundTruthOf(r: Report, rec: Record): Report {
    var u := AbsorbAll(NoClaim, rec.evolution);
    if rec.multiPath == Some(true) || !u.any then r else JudgeReturns(r, u, rec.samples)
  }

  method CheckRuntimeGroundTruth(rec: Record, out: Sink)
    modifies out
    ensures out.Abs() == GroundTruthOf(old(out.Abs()), rec)
  {
    if rec.multiPath == Some(true) || rec.samples == [] {
      return;
    }
    var u := CollectClaims(rec.evolution);
    if !u.any {
      return;
    }
    ghost var start := out.Abs();
    for i := 0 to |rec.samples|
      invariant out.Abs() == JudgeReturns(start, u, rec.samples[..i])
    {
      assert rec.samples[..i + 1][..i] == rec.samples[..i];
      var smp := rec.samples[i];
      if !smp.error && smp.storeOff.None? {
        out.Count(true, RuntimeChecked);
        out.Push(Escapes(u, smp.retval), Finding(RuntimeBound, 0, i));
      }
    }
    assert rec.samples[..|rec.samples|] == rec.samples;
  }

  // ---- the union never fabricates -------------------------------------------------------------------

  /** u leaves out nothing reg claims. */
  predicate Covers(u: Union, reg: RegState) {
    && u.any && u.umin <= reg.umin && reg.umax <= u.umax
    && u.u32lo <= reg.U32Lo() && Min(reg.U32Hi(), U32_MAX) <= u.u32hi
  }

  lemma AbsorbCovers(u: Union, reg: RegState, seen: RegState)
    requires (IsR0(seen) && Covers(u, seen)) || (reg == seen && IsR0(seen))
    ensures Covers(Absorb(u, reg), seen)
  {
  }

  lemma {:induction false} RegsCovered(u: Union, regs: seq<RegState>, seen: RegState)
    requires IsR0(seen) && (Covers(u, seen) || seen in regs)
    ensures Covers(AbsorbRegs(u, regs), seen)
  {
    if regs != [] {
      var front, last := regs[..|regs| - 1], regs[|regs| - 1];
      assert regs == front + [last];
      if Covers(u, seen) || seen in front {
        RegsCovered(u, front, seen);
      }
      AbsorbCovers(AbsorbRegs(u, front), last, seen);
    }
  }

  lemma {:induction false} EvolutionCovered(u: Union, evo: seq<Snapshot>, snap: Snapshot, seen: RegState)
    requires IsR0(seen) && (Covers(u, seen) || (snap in evo && seen in snap.regs))
    ensures Covers(AbsorbAll(u, evo), seen)
  {
    if evo != [] {
      var front, last := evo[..|evo| - 1], evo[|evo| - 1];
      assert evo == front + [last];
      if Covers(u, seen) || snap in front {
        EvolutionCovered(u, front, snap, seen);
      }
      RegsCovered(AbsorbAll(u, front), last.regs, seen);
    }
  }

  /** Some printed r0 state admits a value whose low half was returned. */
  ghost predicate Explained(evo: seq<Snapshot>, retval: u64) {
    exists snap, reg, x: u64 :: snap in evo && reg in snap.regs && IsR0(reg) && Admits(reg, x) &&
        Low32(x) == Low32(retval)
  }

  lemma ExplainedDoesNotEscape(evo: seq<Snapshot>, retval: u64)
    requires Explained(evo, retval)
    ensures !Escapes(AbsorbAll(NoClaim, evo), retval)
  {
    var snap, reg, x: u64 :| snap in evo && reg in snap.regs && IsR0(reg) && Admits(reg, x) &&
        Low32(x) == Low32(retval);
    EvolutionCovered(NoClaim, evo, snap, reg);
  }

  lemma {:induction false} ExplainedSamplesAreQuiet(r: Report, evo: seq<Snapshot>, samples: seq<Sample>)
    requires forall smp :: smp in samples && IsReturnSample(smp) ==> Explained(evo, smp.retval)
    ensures Mentions(JudgeReturns(r, AbsorbAll(NoClaim, evo), samples), RuntimeBound) <==> Mentions(r, RuntimeBound)
  {
    if samples != [] {
      var front, smp := samples[..|samples| - 1], samples[|samples| - 1];
      assert samples == front + [smp];
      ExplainedSamplesAreQuiet(r, evo, front);
      if IsReturnSample(smp) {
        ExplainedDoesNotEscape(evo, smp.retval);
        MentionsTick(JudgeReturns(r, AbsorbAll(NoClaim, evo), front), true, RuntimeChecked, RuntimeBound);
      }
    }
  }

  /** Whatever the snapshots, a run every return value of which some printed state explains is
      never reported. */
  lemma UnionNeverFabricates(r: Report, rec: Record)
    requires forall smp :: smp in rec.samples && IsReturnSample(smp) ==> Explained(rec.evolution, smp.retval)
    ensures Mentions(GroundTruthOf(r, rec), RuntimeBound) <==> Mentions(r, RuntimeBound)
  {
    ExplainedSamplesAreQuiet(r, rec.evolution, rec.samples);
  }

  // ---- check_runtime_intent -------------------------------------------------------------------------

  predicate IntentGate(rec: Record) {
    rec.accepted && (rec.intended.Some? || exists s :: s in rec.samples && s.intended.Some?)
  }

  function Intended(rec: Record, smp: Sample): Option<u64> {
    if smp.intended.Some? then smp.intended else rec.intended
  }

  predicate IntentApplies(rec: Record, smp: Sample) {
    !smp.error && smp.executed != Some(false) && smp.retvalObserved && Intended(rec, smp).Some?
  }

  function JudgeIntents(r: Report, rec: Record, samples: seq<Sample>): Report {
    if samples == [] then r
    else
      var front, smp := JudgeIntents(r, rec, samples[..|samples| - 1]), samples[|samples| - 1];
      if !IntentApplies(rec, smp) then front
      else Note(Tick(front, true, IntentChecked), smp.retval != Intended(rec, smp).value,
                Finding(RuntimeIntent, 0, |samples| - 1))
  }

  function IntentOf(r: Report, rec: Record): Report {
    if IntentGate(rec) then JudgeIntents(r, rec, rec.samples) else r
  }

  method CheckRuntimeIntent(rec: Record, out: Sink)
    modifies out
    ensures out.Abs() == IntentOf(old(out.Abs()), rec)
  {
    if !IntentGate(rec) {
      return;
    }
    ghost var start := out.Abs();
    for i := 0 to |rec.samples|
      invariant out.Abs() == JudgeIntents(start, rec, rec.samples[..i])
    {
      assert rec.samples[..i + 1][..i] == rec.samples[..i];
      var smp := rec.samples[i];
      if IntentApplies(rec, smp) {
        out.Count(true, IntentChecked);
        out.Push(smp.retval != Intended(rec, smp).value, Finding(RuntimeIntent, 0, i));
      }
    }
    assert rec.samples[..|rec.samples|] == rec.samples;
  }

  // ---- check_runtime_write_safety -------------------------------------------------------------------

  predicate WriteApplies(smp: Sample) {
    smp.storeOff.Some? && !smp.error && smp.executed != Some(false)
  }

  predicate Escaped(smp: Sample)
    requires smp.storeOff.Some?
  {
    smp.storeOff.value < 0 || (smp.storeLen.Some? && smp.storeSize.Some? && smp.storeLen.value != smp.storeSize.value)
  }

  function JudgeWrites(r: Report, samples: seq<Sample>): Report {
    if samples == [] then r
    else
      var front, smp := JudgeWrites(r, samples[..|samples| - 1]), samples[|samples| - 1];
      if !WriteApplies(smp) then front
      else Note(Tick(front, true, WritesChecked), Escaped(smp), Finding(RuntimeOobWrite, 0, |samples| - 1))
  }

  method CheckRuntimeWriteSafety(rec: Record, out: Sink)
    modifies out
    ensures out.Abs() == JudgeWrites(old(out.Abs()), rec.samples)
  {
    ghost var start := out.Abs();
    for i := 0 to |rec.samples|
      invariant out.Abs() == JudgeWrites(start, rec.samples[..i])
    {
      assert rec.samples[..i + 1][..i] == rec.samples[..i];
      var smp := rec.samples[i];
      if WriteApplies(smp) {
        out.Count(true, WritesChecked);
        out.Push(Escaped(smp), Finding(RuntimeOobWrite, 0, i));
      }
    }
    assert rec.samples[..|rec.samples|] == rec.samples;
  }
}
