/** The liveness masks are adequate for the interpreter: registers outside them cannot be
    observed.  This is what entitles a state comparison to skip a register called dead. */
module NonInterference {
  import opened Isa
  import opened Bits
  import opened Dataflow
  import opened Liveness
  import opened Interp

  /** Equal memory, equal r10, and equal values in the registers of m. */
  ghost predicate AgreeOn(m: Mask, a: State, b: State)
    requires a.Valid() && b.Valid()
  {
    a.mem == b.mem && forall j :: 0 <= j <= 10 && (j in m || j == 10) ==> a.r[j] == b.r[j]
  }

  /** The two outcomes cannot be told apart, except through registers that already differed
      and that the instruction does not define. */
  ghost predicate SameOutcome(def: Mask, a: State, b: State, oa: Outcome, ob: Outcome)
    requires a.Valid() && b.Valid()
  {
    if oa.Halt? then oa == ob
    else
      && ob.Next? && oa.pc == ob.pc && oa.s.Valid() && ob.s.Valid() && oa.s.mem == ob.s.mem
      && forall j :: 0 <= j <= 10 && (j in def || a.r[j] == b.r[j]) ==> oa.s.r[j] == ob.s.r[j]
  }

  /** The slot's one-step behaviour is determined by memory, r10 and its use set. */
  ghost predicate ReadsOnlyItsUses(p: Program, pc: nat, e: Effect)
    requires pc < |p|
  {
    forall a: State, b: State :: a.Valid() && b.Valid() && AgreeOn(e.use, a, b) ==>
      SameOutcome(e.def, a, b, Step(p, pc, a), Step(p, pc, b))
  }

  /** An atomic of a width the interpreter knows. */
  predicate IsAtomic(ins: Insn) {
    && Class(ins.code) == STX && Mode(ins.code) == MODE_ATOMIC && ins.dst <= 10 && ins.src <= 10
    && (Width(ins.code) == 4 || Width(ins.code) == 8)
  }

  /** A load-acquire: the interpreter resolves its dst as an address before refusing it. */
  predicate LoadsAcquire(ins: Insn) {
    IsAtomic(ins) && ins.imm == 0x100 && ins.dst != 10 && ins.dst != ins.src
  }

  /** A compare-exchange without the fetch bit, which compares with r0 all the same. */
  predicate ExchangesPlainly(ins: Insn) {
    IsAtomic(ins) && ins.imm == 0xf0 && ins.dst != 0 && ins.src != 0
  }

  /** The two atomics whose use set leaves out a register the interpreter reads. */
  predicate Underread(ins: Insn) { LoadsAcquire(ins) || ExchangesPlainly(ins) }

  lemma AluSame(kf: Kfuncs, ins: Insn, pc: int, e: Effect, a: State, b: State)
    requires a.Valid() && b.Valid() && UseDef(kf, ins) == Some(e) && AgreeOn(e.use, a, b)
    requires ins.dst <= 10 && ins.src <= 10 && (Class(ins.code) == ALU || Class(ins.code) == ALU64)
    ensures SameOutcome(e.def, a, b, StepAlu(ins, pc, a), StepAlu(ins, pc, b))
  {
  }

  lemma LdxSame(kf: Kfuncs, ins: Insn, pc: int, e: Effect, a: State, b: State)
    requires a.Valid() && b.Valid() && UseDef(kf, ins) == Some(e) && AgreeOn(e.use, a, b)
    requires ins.dst <= 10 && ins.src <= 10 && Class(ins.code) == LDX
    ensures SameOutcome(e.def, a, b, StepLdx(ins, pc, a), StepLdx(ins, pc, b))
  {
  }

  lemma AtomicAtSame(ins: Insn, pc: int, a: State, b: State, g: Region, i: nat, w: nat, m: Mask)
    requires a.Valid() && b.Valid() && ins.dst <= 10 && ins.src <= 10 && i + w <= RegionSize(g)
    requires AgreeOn(m, a, b) && ins.src in m && (ins.imm - ins.imm % 2 == 0xf0 ==> 0 in m)
    ensures SameOutcome({}, a, b, AtomicAt(ins, pc, a, g, i, w), AtomicAt(ins, pc, b, g, i, w))
  {
  }

  lemma AtomicSame(kf: Kfuncs, ins: Insn, pc: int, e: Effect, a: State, b: State)
    requires a.Valid() && b.Valid() && UseDef(kf, ins) == Some(e) && AgreeOn(e.use, a, b)
    requires ins.dst <= 10 && ins.src <= 10 && Class(ins.code) == STX && Mode(ins.code) == MODE_ATOMIC
    requires (LoadsAcquire(ins) ==> a.r[ins.dst] == b.r[ins.dst]) && (ExchangesPlainly(ins) ==> a.r[0] == b.r[0])
    ensures SameOutcome(e.def, a, b, StepAtomic(ins, pc, a), StepAtomic(ins, pc, b))
  {
    var w := Width(ins.code);
    if w == 4 || w == 8 {
      assert a.r[ins.dst] == b.r[ins.dst];
      assert Address(a, ins.dst, ins.off) == Address(b, ins.dst, ins.off);
      var at := Resolve(Address(a, ins.dst, ins.off), w);
      if at.Hit? && ins.imm != 0x100 {
        assert ins.src in e.use;
        var m := if a.r[0] == b.r[0] then e.use + {0} else e.use;
        assert AgreeOn(m, a, b);
        assert ins.imm - ins.imm % 2 == 0xf0 ==> 0 in m;
        AtomicAtSame(ins, pc, a, b, at.region, at.index, w, m);
      }
    }
  }

  lemma StoreSame(kf: Kfuncs, ins: Insn, pc: int, e: Effect, a: State, b: State)
    requires a.Valid() && b.Valid() && UseDef(kf, ins) == Some(e) && AgreeOn(e.use, a, b)
    requires ins.dst <= 10 && ins.src <= 10 && (Class(ins.code) == ST || Class(ins.code) == STX)
    ensures SameOutcome(e.def, a, b, StepStore(ins, pc, a), StepStore(ins, pc, b))
  {
  }

  lemma JumpSame(kf: Kfuncs, ins: Insn, pc: int, e: Effect, a: State, b: State)
    requires a.Valid() && b.Valid() && UseDef(kf, ins) == Some(e) && AgreeOn(e.use, a, b)
    requires ins.dst <= 10 && ins.src <= 10 && IsJump(ins.code)
    ensures SameOutcome(e.def, a, b, StepJump(ins, pc, a), StepJump(ins, pc, b))
  {
  }

  lemma StepSame(kf: Kfuncs, p: Program, pc: nat, e: Effect, a: State, b: State)
    requires pc < |p| && a.Valid() && b.Valid() && UseDef(kf, p[pc]) == Some(e) && AgreeOn(e.use, a, b)
    requires LoadsAcquire(p[pc]) ==> a.r[p[pc].dst] == b.r[p[pc].dst]
    requires ExchangesPlainly(p[pc]) ==> a.r[0] == b.r[0]
    ensures SameOutcome(e.def, a, b, Step(p, pc, a), Step(p, pc, b))
  {
    var ins := p[pc];
    var cls := Class(ins.code);
    if ins.dst <= 10 && ins.src <= 10 {
      if cls == ALU || cls == ALU64 {
        AluSame(kf, ins, pc, e, a, b);
      } else if cls == LDX {
        LdxSame(kf, ins, pc, e, a, b);
      } else if cls == STX && Mode(ins.code) == MODE_ATOMIC {
        AtomicSame(kf, ins, pc, e, a, b);
      } else if cls == ST || cls == STX {
        StoreSame(kf, ins, pc, e, a, b);
      } else if cls != LD {
        JumpSame(kf, ins, pc, e, a, b);
      }
    }
  }

  // ---- the two underread atomics really are the only ones ---------------------------------

  const ZeroMemory: Memory := Memory(seq(STACK, _ => 0), seq(MAP_SIZE, _ => 0), seq(PKT_SIZE, _ => 0))

  function Uniform(x: u64): State {
    State(seq(11, _ => x), ZeroMemory)
  }

  /** Two states that differ in the destination of a load-acquire alone: in one it points at the map,
      in the other nowhere. */
  lemma LoadAcquireWitness(p: Program, pc: nat, m: Mask) returns (a: State, b: State)
    requires pc < |p| && LoadsAcquire(p[pc]) && p[pc].dst !in m
    ensures a.Valid() && b.Valid() && AgreeOn(m, a, b)
    ensures Step(p, pc, a) == Fault(UNSUPPORTED, pc, p[pc]) && Step(p, pc, b) == Fault(OOB, pc, p[pc])
  {
    var ins := p[pc];
    a := Uniform(Wrap(true, MAP_BASE - ins.off));
    b := a.(r := a.r[ins.dst := Wrap(true, 0 - ins.off)]);
    assert Address(a, ins.dst, ins.off) == MAP_BASE && Address(b, ins.dst, ins.off) == 0;
  }

  lemma LoadAcquireLeaks(p: Program, pc: nat, e: Effect)
    requires pc < |p| && LoadsAcquire(p[pc]) && p[pc].dst !in e.use
    ensures !ReadsOnlyItsUses(p, pc, e)
  {
    var a, b := LoadAcquireWitness(p, pc, e.use);
    assert !SameOutcome(e.def, a, b, Step(p, pc, a), Step(p, pc, b));
  }

  lemma {:induction false} LoadZeros(b: Bytes, i: nat, w: nat)
    requires i + w <= |b| && forall j :: i <= j < i + w ==> b[j] == 0
    ensures LoadLE(b, i, w) == 0
    decreases w
  {
    if w > 0 {
      LoadZeros(b, i + 1, w - 1);
    }
  }

  lemma ExchangeWithZero(is64: bool, sv: u64, r0: u64)
    requires sv < Modulus(is64)
    ensures AtomicOp(0xf0, 0, sv, r0, is64) == Some(if Wrap(is64, r0) == 0 then sv else 0)
  {
    RemainderIs(sv, Modulus(is64), 0, sv);
  }

  lemma WrapFits(is64: bool, x: u64)
    ensures Wrap(is64, x) < Modulus(is64)
  {
  }

  lemma CompareExchangeStores(ins: Insn, pc: int, s: State, g: Region, i: nat, w: nat)
    requires s.Valid() && i + w <= RegionSize(g) && (w == 4 || w == 8)
    requires ins.dst <= 10 && ins.src <= 10 && ins.imm == 0xf0 && LoadLE(s.mem.Get(g), i, w) == 0
    ensures var stored := if Wrap(w == 8, s.r[0]) == 0 then Wrap(w == 8, s.r[ins.src]) else 0;
            AtomicAt(ins, pc, s, g, i, w) ==
            Next(pc + 1, State(s.r[0 := 0], s.mem.Set(g, StoreLE(s.mem.Get(g), i, w, stored))))
  {
    var sv := Wrap(w == 8, s.r[ins.src]);
    WrapFits(w == 8, s.r[ins.src]);
    ExchangeWithZero(w == 8, sv, s.r[0]);
    assert ins.imm % 2 == 0 && Wrap(true, LoadLE(s.mem.Get(g), i, w)) == 0;
  }

  /** Where memory holds 0, r0 = 0 lets the exchange through and any other r0 does not. */
  lemma CompareExchangeDiffers(ins: Insn, pc: int, a: State, b: State, g: Region, i: nat, w: nat)
    requires a.Valid() && b.Valid() && a.mem == b.mem && i + w <= RegionSize(g) && (w == 4 || w == 8)
    requires ins.dst <= 10 && ins.src <= 10 && ins.imm == 0xf0 && LoadLE(a.mem.Get(g), i, w) == 0
    requires b.r[0] == 0 && Wrap(w == 8, a.r[0]) != 0 && Wrap(w == 8, b.r[ins.src]) != 0
    ensures var oa, ob := AtomicAt(ins, pc, a, g, i, w), AtomicAt(ins, pc, b, g, i, w);
            oa.Next? && ob.Next? && oa.s.mem != ob.s.mem
  {
    CompareExchangeStores(ins, pc, a, g, i, w);
    CompareExchangeStores(ins, pc, b, g, i, w);
    assert Pow256(4) == TWO32 && Pow256(8) == TWO64;
    StoreDiffers(a.mem.Get(g), i, w, 0, Wrap(w == 8, b.r[ins.src]));
  }

  /** Two states that differ in r0 alone and leave different memory behind. */
  lemma CompareExchangeWitness(p: Program, pc: nat, m: Mask) returns (a: State, b: State)
    requires pc < |p| && ExchangesPlainly(p[pc]) && 0 !in m
    ensures a.Valid() && b.Valid() && AgreeOn(m, a, b)
    ensures var oa, ob := Step(p, pc, a), Step(p, pc, b); oa.Next? && ob.Next? && oa.s.mem != ob.s.mem
  {
    var ins, w := p[pc], Width(p[pc].code);
    a := Uniform(Wrap(true, MAP_BASE - ins.off));
    b := a.(r := a.r[0 := 0]);
    assert Address(a, ins.dst, ins.off) == MAP_BASE == Address(b, ins.dst, ins.off);
    LoadZeros(ZeroMemory.mapv, 0, w);
    CompareExchangeDiffers(ins, pc, a, b, Map, 0, w);
    assert Step(p, pc, a) == AtomicAt(ins, pc, a, Map, 0, w);
    assert Step(p, pc, b) == AtomicAt(ins, pc, b, Map, 0, w);
  }

  lemma CompareExchangeLeaks(p: Program, pc: nat, e: Effect)
    requires pc < |p| && ExchangesPlainly(p[pc]) && 0 !in e.use
    ensures !ReadsOnlyItsUses(p, pc, e)
  {
    var a, b := CompareExchangeWitness(p, pc, e.use);
    assert !SameOutcome(e.def, a, b, Step(p, pc, a), Step(p, pc, b));
  }

  /** The use set of an instruction in the model covers everything it observes, except for the
      two atomics, and for those it does not. */
  lemma UseSetIsAdequateIff(kf: Kfuncs, p: Program, pc: nat)
    requires pc < |p| && UseDef(kf, p[pc]).Some?
    ensures ReadsOnlyItsUses(p, pc, UseDef(kf, p[pc]).value) <==> !Underread(p[pc])
  {
    var e := UseDef(kf, p[pc]).value;
    if !Underread(p[pc]) {
      forall a: State, b: State | a.Valid() && b.Valid() && AgreeOn(e.use, a, b)
        ensures SameOutcome(e.def, a, b, Step(p, pc, a), Step(p, pc, b))
      {
        StepSame(kf, p, pc, e, a, b);
      }
    } else if LoadsAcquire(p[pc]) {
      LoadAcquireLeaks(p, pc, e);
    } else {
      CompareExchangeLeaks(p, pc, e);
    }
  }

  // ---- what a slot needs ------------------------------------------------------------------

  /** The registers known to be equal include the one each of the two atomics reads unlisted. */
  predicate Suffices(ins: Insn, known: Mask) {
    (LoadsAcquire(ins) ==> ins.dst in known) && (ExchangesPlainly(ins) ==> 0 in known)
  }

  function Edges(p: Program, i: nat): (succ: seq<nat>)
    requires i < |p|
    ensures forall k :: 0 <= k < |succ| ==> succ[k] < |p|
  {
    if Succ(p, i).Some? then Succ(p, i).value else []
  }

  /** The slot lists no use that is not known, and what is live after it is known or defined by it. */
  predicate CoveredBy(kf: Kfuncs, p: Program, live: seq<Mask>, i: nat, known: Mask)
    requires i < |p| && |live| == |p|
  {
    && UseDef(kf, p[i]).Some? && Succ(p, i).Some? && UseDef(kf, p[i]).value.use * TRACKED <= known
    && forall k :: 0 <= k < |Edges(p, i)| ==> live[Edges(p, i)[k]] <= UseDef(kf, p[i]).value.def + known
  }

  /** The fixed point covers every slot the analysis decodes. */
  lemma FixedPointCovers(kf: Kfuncs, p: Program, live: seq<Mask>, i: nat)
    requires Accepts(kf, p) && FixedPoint(CfgOf(kf, p), live) && i < |p| && !IsTail(p, i)
    ensures CoveredBy(kf, p, live, i, live[i])
  {
    var g := CfgOf(kf, p);
    assert SlotOk(kf, p, i) && g[i] == NodeAt(kf, p, i) && live[i] == Transfer(g, live, i);
    forall k | 0 <= k < |Edges(p, i)| ensures live[Edges(p, i)[k]] <= g[i].def + live[i] {
      forall j | j in live[Edges(p, i)[k]] ensures j in g[i].def || j in live[i] {
        MaskFlowsBack(g, live, i, Edges(p, i)[k], j);
      }
    }
  }

  lemma MoreIsKnown(kf: Kfuncs, p: Program, live: seq<Mask>, i: nat, known: Mask, more: Mask)
    requires i < |p| && |live| == |p| && CoveredBy(kf, p, live, i, known) && known <= more
    ensures CoveredBy(kf, p, live, i, more)
  {
  }

  /** What is live after a slot is tracked, and is defined by the slot or live before it. */
  lemma MaskFlowsBack(g: Cfg, live: seq<Mask>, pc: nat, t: nat, j: int)
    requires WellFormed(g) && FixedPoint(g, live) && pc < |g| && !g[pc].skip
    requires t < |g| && t in g[pc].succ && j in live[t]
    ensures j in TRACKED && (j in g[pc].def || j in live[pc])
  {
    AfterHas(live, g[pc].succ, j);
    assert live[t] == if g[t].skip then {} else Transfer(g, live, t);
  }

  /** The interpreter goes where the analysis says, or off the end. */
  lemma NextIsSuccessor(kf: Kfuncs, p: Program, pc: nat, s: State)
    requires pc < |p| && s.Valid() && UseDef(kf, p[pc]).Some? && Succ(p, pc).Some? && Step(p, pc, s).Next?
    ensures Step(p, pc, s).pc in Succ(p, pc).value || Step(p, pc, s).pc == |p|
  {
  }

  // ---- one step -----------------------------------------------------------------------------

  /** What is known at a slot: its mask, and the registers that are equal throughout. */
  function Known(live: seq<Mask>, keep: Mask, pc: int): Mask {
    (if 0 <= pc < |live| then live[pc] else {}) + keep
  }

  /** The two outcomes halt alike, or go on at one listed slot, agreeing on what is known there. */
  ghost predicate CarriesOn(p: Program, live: seq<Mask>, keep: Mask, pc: nat, oa: Outcome, ob: Outcome)
    requires |live| == |p| && pc < |p|
    requires (oa.Next? ==> oa.s.Valid()) && (ob.Next? ==> ob.s.Valid())
  {
    if oa.Halt? then oa == ob
    else
      && ob.Next? && oa.pc == ob.pc && (oa.pc in Edges(p, pc) || oa.pc == |p|)
      && AgreeOn(Known(live, keep, oa.pc), oa.s, ob.s)
  }

  /** One step carries agreement from a slot to whichever slot comes next. */
  lemma StepCarriesAgreement(kf: Kfuncs, p: Program, live: seq<Mask>, keep: Mask, pc: nat, a: State, b: State)
    requires pc < |p| && |live| == |p| && CoveredBy(kf, p, live, pc, Known(live, keep, pc))
    requires Suffices(p[pc], Known(live, keep, pc))
    requires a.Valid() && b.Valid() && AgreeOn(Known(live, keep, pc), a, b)
    ensures CarriesOn(p, live, keep, pc, Step(p, pc, a), Step(p, pc, b))
  {
    var e := UseDef(kf, p[pc]).value;
    forall j | 0 <= j < 10 && j in e.use ensures j in Known(live, keep, pc) {
      assert j in e.use * TRACKED;
    }
    assert AgreeOn(e.use, a, b);
    StepSame(kf, p, pc, e, a, b);
    var oa, ob := Step(p, pc, a), Step(p, pc, b);
    if oa.Next? {
      NextIsSuccessor(kf, p, pc, a);
      AgreementFlows(p, live, keep, pc, e.def, a, b, oa, ob);
    }
  }

  lemma AgreementFlows(p: Program, live: seq<Mask>, keep: Mask, pc: nat, def: Mask, a: State, b: State,
                       oa: Outcome, ob: Outcome)
    requires pc < |p| && |live| == |p| && a.Valid() && b.Valid() && AgreeOn(Known(live, keep, pc), a, b)
    requires oa.Next? && SameOutcome(def, a, b, oa, ob) && (oa.pc in Edges(p, pc) || oa.pc == |p|)
    requires forall k :: 0 <= k < |Edges(p, pc)| ==> live[Edges(p, pc)[k]] <= def + Known(live, keep, pc)
    ensures AgreeOn(Known(live, keep, oa.pc), oa.s, ob.s)
  {
    forall j | 0 <= j <= 10 && (j in Known(live, keep, oa.pc) || j == 10) ensures oa.s.r[j] == ob.s.r[j] {
      if j in keep || j == 10 {
        assert j in Known(live, keep, pc) || j == 10;
      } else {
        var k :| 0 <= k < |Edges(p, pc)| && Edges(p, pc)[k] == oa.pc;
        assert live[Edges(p, pc)[k]] <= def + Known(live, keep, pc);
      }
    }
  }

  /** What is known decides the slot: states agreeing before it agree after it. */
  ghost predicate MaskDecides(p: Program, live: seq<Mask>, keep: Mask, pc: nat)
    requires |live| == |p| && pc < |p|
  {
    forall a: State, b: State :: a.Valid() && b.Valid() && AgreeOn(Known(live, keep, pc), a, b) ==>
      CarriesOn(p, live, keep, pc, Step(p, pc, a), Step(p, pc, b))
  }

  /** A load-acquire's destination is defined by it and not used, so it is never live ahead of it. */
  lemma {:induction false} AcquiredIsDead(kf: Kfuncs, p: Program, live: seq<Mask>, pc: nat)
    requires Accepts(kf, p) && FixedPoint(CfgOf(kf, p), live)
    requires pc < |p| && !IsTail(p, pc) && LoadsAcquire(p[pc])
    ensures p[pc].dst !in live[pc]
  {
    var g := CfgOf(kf, p);
    assert SlotOk(kf, p, pc) && g[pc] == NodeAt(kf, p, pc);
    assert live[pc] == Transfer(g, live, pc);
  }

  lemma KnownCovers(kf: Kfuncs, p: Program, live: seq<Mask>, keep: Mask, pc: nat)
    requires Accepts(kf, p) && FixedPoint(CfgOf(kf, p), live) && pc < |p| && !IsTail(p, pc)
    ensures CoveredBy(kf, p, live, pc, Known(live, keep, pc))
  {
    FixedPointCovers(kf, p, live, pc);
    MoreIsKnown(kf, p, live, pc, live[pc], Known(live, keep, pc));
  }

  /** Slot by slot the condition is exact. */
  lemma MaskDecidesIff(kf: Kfuncs, p: Program, live: seq<Mask>, keep: Mask, pc: nat)
    requires Accepts(kf, p) && FixedPoint(CfgOf(kf, p), live) && pc < |p| && !IsTail(p, pc)
    ensures MaskDecides(p, live, keep, pc) <==> Suffices(p[pc], Known(live, keep, pc))
  {
    var known := Known(live, keep, pc);
    if Suffices(p[pc], known) {
      KnownCovers(kf, p, live, keep, pc);
      forall a: State, b: State | a.Valid() && b.Valid() && AgreeOn(known, a, b)
        ensures CarriesOn(p, live, keep, pc, Step(p, pc, a), Step(p, pc, b))
      {
        StepCarriesAgreement(kf, p, live, keep, pc, a, b);
      }
    } else if LoadsAcquire(p[pc]) && p[pc].dst !in known {
      var a, b := LoadAcquireWitness(p, pc, known);
      assert !CarriesOn(p, live, keep, pc, Step(p, pc, a), Step(p, pc, b));
    } else {
      var a, b := CompareExchangeWitness(p, pc, known);
      assert !CarriesOn(p, live, keep, pc, Step(p, pc, a), Step(p, pc, b));
    }
  }

  // ---- whole runs -------------------------------------------------------------------------

  /** Bytes the interpreter refuses whatever the state. */
  predicate Refused(ins: Insn) { Class(ins.code) == LD && ins.code != LD_IMM64 }

  /** A tail slot whose bytes, run as code, may read something unknown or pass it on.  The analysis
      takes them for data and calls every register dead ahead of them. */
  predicate Harmful(kf: Kfuncs, p: Program, live: seq<Mask>, keep: Mask, i: nat)
    requires i < |p| && |live| == |p|
  {
    && IsTail(p, i) && !Refused(p[i])
    && !(CoveredBy(kf, p, live, i, Known(live, keep, i)) && Suffices(p[i], Known(live, keep, i)))
  }

  /** No run that starts elsewhere gets into such a slot. */
  predicate TailsQuiet(kf: Kfuncs, p: Program, live: seq<Mask>, keep: Mask)
    requires |live| == |p|
  {
    forall i, k :: 0 <= i < |p| && !Harmful(kf, p, live, keep, i) && 0 <= k < |Edges(p, i)| ==>
      !Harmful(kf, p, live, keep, Edges(p, i)[k])
  }

  /** What a caller can check before trusting the masks. */
  predicate Trustworthy(kf: Kfuncs, p: Program, live: seq<Mask>, keep: Mask)
    requires |live| == |p|
  {
    && TailsQuiet(kf, p, live, keep)
    && forall i :: 0 <= i < |p| && !IsTail(p, i) ==> Suffices(p[i], Known(live, keep, i))
  }

  lemma RefusedHalts(p: Program, pc: nat, a: State)
    requires pc < |p| && a.Valid() && Refused(p[pc])
    ensures Step(p, pc, a) == Fault(UNSUPPORTED, pc, p[pc])
  {
  }

  /** Whatever the program around it, a load-acquire betrays its dead destination to any run that
      starts at it, unless the destination is equal throughout. */
  lemma LoadAcquireAlwaysMisleads(kf: Kfuncs, p: Program, live: seq<Mask>, keep: Mask, pc: nat, budget: nat)
    returns (a: State, b: State)
    requires Accepts(kf, p) && FixedPoint(CfgOf(kf, p), live)
    requires pc < |p| && !IsTail(p, pc) && LoadsAcquire(p[pc]) && p[pc].dst !in keep && budget > 0
    ensures a.Valid() && b.Valid() && AgreeOn(live[pc] + keep, a, b)
    ensures Exec(p, pc, a, budget) != Exec(p, pc, b, budget)
  {
    AcquiredIsDead(kf, p, live, pc);
    a, b := LoadAcquireWitness(p, pc, live[pc] + keep);
  }

  /** States that cannot be told apart, at a place a run may go on from. */
  ghost predicate AlikeAt(kf: Kfuncs, p: Program, live: seq<Mask>, keep: Mask, pc: int, a: State, b: State)
    requires |live| == |p| && a.Valid() && b.Valid()
  {
    AgreeOn(Known(live, keep, pc), a, b) && (0 <= pc < |p| ==> !Harmful(kf, p, live, keep, pc))
  }

  lemma StepKeepsAlike(kf: Kfuncs, p: Program, live: seq<Mask>, keep: Mask, pc: nat, a: State, b: State)
    requires Accepts(kf, p) && FixedPoint(CfgOf(kf, p), live) && Trustworthy(kf, p, live, keep)
    requires pc < |p| && a.Valid() && b.Valid() && AlikeAt(kf, p, live, keep, pc, a, b)
    ensures var oa, ob := Step(p, pc, a), Step(p, pc, b);
            if oa.Halt? then oa == ob else ob.Next? && oa.pc == ob.pc && AlikeAt(kf, p, live, keep, oa.pc, oa.s, ob.s)
  {
    if IsTail(p, pc) && Refused(p[pc]) {
      RefusedHalts(p, pc, a);
      RefusedHalts(p, pc, b);
    } else {
      if !IsTail(p, pc) {
        KnownCovers(kf, p, live, keep, pc);
      }
      StepCarriesAgreement(kf, p, live, keep, pc, a, b);
      var oa := Step(p, pc, a);
      if oa.Next? && oa.pc != |p| {
        var k :| 0 <= k < |Edges(p, pc)| && Edges(p, pc)[k] == oa.pc;
        assert !Harmful(kf, p, live, keep, Edges(p, pc)[k]);
      }
    }
  }

  /** Registers outside the masks, however they differ, cannot change how a run ends. */
  lemma {:induction false} DeadRegistersAreInvisible(kf: Kfuncs, p: Program, live: seq<Mask>, keep: Mask, pc: int,
                                                     a: State, b: State, budget: nat)
    requires Accepts(kf, p) && FixedPoint(CfgOf(kf, p), live) && Trustworthy(kf, p, live, keep)
    requires a.Valid() && b.Valid() && AlikeAt(kf, p, live, keep, pc, a, b)
    ensures Exec(p, pc, a, budget) == Exec(p, pc, b, budget)
    decreases budget
  {
    if 0 <= pc < |p| && budget > 0 {
      StepKeepsAlike(kf, p, live, keep, pc, a, b);
      var oa, ob := Step(p, pc, a), Step(p, pc, b);
      if oa.Next? {
        DeadRegistersAreInvisible(kf, p, live, keep, oa.pc, oa.s, ob.s, budget - 1);
      }
    }
  }

  /** Every run promised to be equal is equal: from every slot but the harmful tails, from states with
      equal memory that agree on the slot's mask, r10 and the registers kept. */
  ghost predicate RunsAlike(kf: Kfuncs, p: Program, live: seq<Mask>, keep: Mask)
    requires |live| == |p|
  {
    forall pc: nat, a: State, b: State, budget: nat ::
      pc < |p| && a.Valid() && b.Valid() && AlikeAt(kf, p, live, keep, pc, a, b) ==>
      Exec(p, pc, a, budget) == Exec(p, pc, b, budget)
  }

  predicate ExchangesSuffice(p: Program, live: seq<Mask>, keep: Mask)
    requires |live| == |p|
  {
    forall i :: 0 <= i < |p| && !IsTail(p, i) && ExchangesPlainly(p[i]) ==> 0 in Known(live, keep, i)
  }

  /** Every load-acquire has a destination that is equal throughout. */
  predicate AcquiresOnly(p: Program, keep: Mask) {
    forall i :: 0 <= i < |p| && !IsTail(p, i) && LoadsAcquire(p[i]) ==> p[i].dst in keep
  }

  /** With plain exchanges and tails aside, the masks keep their promise for every run if and only if
      no load-acquire has a destination that may differ. */
  lemma RunsAlikeIff(kf: Kfuncs, p: Program, live: seq<Mask>, keep: Mask)
    requires Accepts(kf, p) && FixedPoint(CfgOf(kf, p), live)
    requires TailsQuiet(kf, p, live, keep) && ExchangesSuffice(p, live, keep)
    ensures RunsAlike(kf, p, live, keep) <==> AcquiresOnly(p, keep)
  {
    if AcquiresOnly(p, keep) {
      forall pc: nat, a: State, b: State, budget: nat
        | pc < |p| && a.Valid() && b.Valid() && AlikeAt(kf, p, live, keep, pc, a, b)
        ensures Exec(p, pc, a, budget) == Exec(p, pc, b, budget)
      {
        DeadRegistersAreInvisible(kf, p, live, keep, pc, a, b, budget);
      }
    } else {
      var i: nat :| i < |p| && !IsTail(p, i) && LoadsAcquire(p[i]) && p[i].dst !in keep;
      var a, b := LoadAcquireAlwaysMisleads(kf, p, live, keep, i, 1);
      assert AlikeAt(kf, p, live, keep, i, a, b);
    }
  }

  /** Agreement on r0 besides the masks settles every plain exchange. */
  lemma EqualR0Settles(kf: Kfuncs, p: Program, live: seq<Mask>)
    requires Accepts(kf, p) && FixedPoint(CfgOf(kf, p), live) && TailsQuiet(kf, p, live, {0})
    ensures RunsAlike(kf, p, live, {0}) <==> AcquiresOnly(p, {0})
  {
    RunsAlikeIff(kf, p, live, {0});
  }
}
