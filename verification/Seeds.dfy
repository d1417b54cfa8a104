/** What the masks promise a harness that seeds registers and compares runs, and why each
    condition on that promise is there. */
module Seeds {
  import opened Isa
  import opened Bits
  import opened Dataflow
  import opened Liveness
  import opened Interp
  import opened NonInterference
  import opened Machine

  datatype Seeding = Seeding(ctx: u64, s6: u64, s7: u64, s9: u64)

  function Seeded(s: Seeding, mapRegion: bool, pktRegion: bool): (st: State)
    ensures st.Valid()
  {
    InitState(s.ctx, s.s6, s.s7, s.s9, mapRegion, pktRegion)
  }

  /** The two seedings differ only in registers the mask calls dead. */
  predicate DifferOnlyInDead(live: Mask, x: Seeding, y: Seeding) {
    && (1 in live ==> x.ctx == y.ctx) && (6 in live ==> x.s6 == y.s6)
    && (7 in live ==> x.s7 == y.s7) && (9 in live ==> x.s9 == y.s9)
  }

  /** The registers two seeded runs may start apart in, and the others. */
  const SEEDED: Mask := {1, 6, 7, 9}
  const UNSEEDED: Mask := {0, 2, 3, 4, 5, 8}

  /** A start the masks make a promise about. */
  predicate MayStart(kf: Kfuncs, p: Program, live: seq<Mask>, start: int, x: Seeding, y: Seeding)
    requires |live| == |p|
  {
    0 <= start < |p| ==> DifferOnlyInDead(live[start], x, y) && !Harmful(kf, p, live, UNSEEDED, start)
  }

  function SeededRun(p: Program, start: int, s: Seeding, mapRegion: bool, pktRegion: bool): Result {
    Exec(p, start, Seeded(s, mapRegion, pktRegion), BUDGET)
  }

  /** Seeded runs that differ only in dead seeds end alike, wherever they start. */
  ghost predicate SeedsAlike(kf: Kfuncs, p: Program, live: seq<Mask>)
    requires |live| == |p|
  {
    forall start: int, x, y, mapRegion, pktRegion :: MayStart(kf, p, live, start, x, y) ==>
      SeededRun(p, start, x, mapRegion, pktRegion) == SeededRun(p, start, y, mapRegion, pktRegion)
  }

  predicate AcquiresSpareSeeds(p: Program) {
    forall i :: 0 <= i < |p| && !IsTail(p, i) && LoadsAcquire(p[i]) ==> p[i].dst !in SEEDED
  }

  lemma SeededAgree(live: Mask, x: Seeding, y: Seeding, mapRegion: bool, pktRegion: bool)
    requires DifferOnlyInDead(live, x, y)
    ensures AgreeOn(live + UNSEEDED, Seeded(x, mapRegion, pktRegion), Seeded(y, mapRegion, pktRegion))
  {
  }

  lemma StartsAlike(kf: Kfuncs, p: Program, live: seq<Mask>, start: int, x: Seeding, y: Seeding,
                    mapRegion: bool, pktRegion: bool)
    requires |live| == |p| && MayStart(kf, p, live, start, x, y)
    ensures AlikeAt(kf, p, live, UNSEEDED, start, Seeded(x, mapRegion, pktRegion), Seeded(y, mapRegion, pktRegion))
  {
    SeededAgree(if 0 <= start < |p| then live[start] else {}, x, y, mapRegion, pktRegion);
  }

  lemma SparedIsTrustworthy(kf: Kfuncs, p: Program, live: seq<Mask>)
    requires |live| == |p| && TailsQuiet(kf, p, live, UNSEEDED) && AcquiresSpareSeeds(p)
    ensures Trustworthy(kf, p, live, UNSEEDED)
  {
  }

  /** Seeds in registers dead at the entry cannot change a seeded run.  Registers that no seed reaches are
      equal in both runs throughout, so a compare-exchange reading r0 unlisted does no harm here. */
  lemma DeadSeedsAreInvisible(kf: Kfuncs, p: Program, live: seq<Mask>, start: int, x: Seeding, y: Seeding,
                              mapRegion: bool, pktRegion: bool)
    requires Accepts(kf, p) && FixedPoint(CfgOf(kf, p), live) && TailsQuiet(kf, p, live, UNSEEDED)
    requires AcquiresSpareSeeds(p) && MayStart(kf, p, live, start, x, y)
    ensures SeededRun(p, start, x, mapRegion, pktRegion) == SeededRun(p, start, y, mapRegion, pktRegion)
  {
    StartsAlike(kf, p, live, start, x, y, mapRegion, pktRegion);
    SparedIsTrustworthy(kf, p, live);
    DeadRegistersAreInvisible(kf, p, live, UNSEEDED, start, Seeded(x, mapRegion, pktRegion),
                              Seeded(y, mapRegion, pktRegion), BUDGET);
  }

  /** An address no region holds, however far an instruction's offset moves it back. */
  const NOWHERE := 0x10_0000

  function Seed(s: Seeding, reg: nat): u64
    requires reg in SEEDED
  {
    if reg == 1 then s.ctx else if reg == 6 then s.s6 else if reg == 7 then s.s7 else s.s9
  }

  function WithSeed(s: Seeding, reg: nat, x: u64): Seeding
    requires reg in SEEDED
  {
    if reg == 1 then s.(ctx := x) else if reg == 6 then s.(s6 := x) else if reg == 7 then s.(s7 := x) else s.(s9 := x)
  }

  /** The seeds are 32-bit values, as the programs' map loads leave them. */
  predicate NarrowSeeds(s: Seeding) {
    s.ctx < TWO32 && s.s6 < TWO32 && s.s7 < TWO32 && s.s9 < TWO32
  }

  lemma AcquireFaults(p: Program, pc: nat, s: State, budget: nat)
    requires pc < |p| && LoadsAcquire(p[pc]) && s.Valid() && budget > 0
    ensures Address(s, p[pc].dst, p[pc].off) == MAP_BASE ==> Exec(p, pc, s, budget).status == UNSUPPORTED
    ensures Address(s, p[pc].dst, p[pc].off) == NOWHERE ==> Exec(p, pc, s, budget).status == OOB
  {
  }

  /** A load-acquire into a seed register betrays the seed, dead as it is, even among 32-bit seeds. */
  lemma AcquireBetraysSeed(kf: Kfuncs, p: Program, live: seq<Mask>, i: nat, mapRegion: bool, pktRegion: bool)
    returns (x: Seeding, y: Seeding)
    requires Accepts(kf, p) && FixedPoint(CfgOf(kf, p), live)
    requires i < |p| && !IsTail(p, i) && LoadsAcquire(p[i]) && p[i].dst in SEEDED
    ensures MayStart(kf, p, live, i, x, y)
    ensures NarrowSeeds(x) && NarrowSeeds(y)
    ensures SeededRun(p, i, x, mapRegion, pktRegion) != SeededRun(p, i, y, mapRegion, pktRegion)
  {
    AcquiredIsDead(kf, p, live, i);
    var ins := p[i];
    x := WithSeed(Seeding(0, 0, 0, 0), ins.dst, MAP_BASE - ins.off);
    y := WithSeed(Seeding(0, 0, 0, 0), ins.dst, NOWHERE - ins.off);
    SeedAddress(x, ins.dst, ins.off, MAP_BASE, mapRegion, pktRegion);
    SeedAddress(y, ins.dst, ins.off, NOWHERE, mapRegion, pktRegion);
    AcquireFaults(p, i, Seeded(x, mapRegion, pktRegion), BUDGET);
    AcquireFaults(p, i, Seeded(y, mapRegion, pktRegion), BUDGET);
  }

  lemma SeedAddress(s: Seeding, reg: nat, off: i16, at: u64, mapRegion: bool, pktRegion: bool)
    requires reg in SEEDED && Seed(s, reg) == at - off
    ensures Address(Seeded(s, mapRegion, pktRegion), reg, off) == at
  {
  }

  /** Where no jump gets into a harmful tail, the masks keep their promise to every seeded run if and only
      if no load-acquire has a seed register for its destination. */
  lemma SeedsAlikeIff(kf: Kfuncs, p: Program, live: seq<Mask>)
    requires Accepts(kf, p) && FixedPoint(CfgOf(kf, p), live) && TailsQuiet(kf, p, live, UNSEEDED)
    ensures SeedsAlike(kf, p, live) <==> AcquiresSpareSeeds(p)
  {
    if AcquiresSpareSeeds(p) {
      forall start: int, x, y, mapRegion, pktRegion | MayStart(kf, p, live, start, x, y)
        ensures SeededRun(p, start, x, mapRegion, pktRegion) == SeededRun(p, start, y, mapRegion, pktRegion)
      {
        DeadSeedsAreInvisible(kf, p, live, start, x, y, mapRegion, pktRegion);
      }
    } else {
      var i: nat :| i < |p| && !IsTail(p, i) && LoadsAcquire(p[i]) && p[i].dst in SEEDED;
      var x, y := AcquireBetraysSeed(kf, p, live, i, false, false);
    }
  }

  // ---- each condition is needed -----------------------------------------------------------

  const EXIT: Insn := Insn(0x95, 0, 0, 0, 0)

  /** r1 is called dead before a load-acquire through r2, yet decides how the run ends. */
  const LoadAcquire: Program := [Insn(0xdb, 1, 2, 0, 0x100), EXIT]

  /** r0 is called dead before a compare-exchange without fetch, yet decides what r0 holds after. */
  const PlainCompareExchange: Program := [Insn(0xc3, 8, 6, 0, 0xf0), Insn(0x61, 0, 8, 0, 0), EXIT]

  /** A jump over the first slot of an LD_IMM64 runs its second, `r0 = r6`, as code. */
  const IntoTail: Program := [Insn(0x05, 0, 0, 1, 0), Insn(0x18, 1, 0, 0, 0), Insn(0xbf, 0, 6, 0, 0), EXIT]

  /** Two seedings the masks cannot tell apart at the first instruction, and a run from there does. */
  predicate SeedsMislead(p: Program, live: seq<Mask>, x: Seeding, y: Seeding) {
    && 0 < |p| && |live| == |p| && DifferOnlyInDead(live[0], x, y)
    && SeededRun(p, 0, x, false, false) != SeededRun(p, 0, y, false, false)
  }

  /** The same of two states met somewhere in a run. */
  ghost predicate StatesMislead(p: Program, live: seq<Mask>, a: State, b: State) {
    && a.Valid() && b.Valid() && 0 < |p| && |live| == |p| && AgreeOn(live[0], a, b)
    && Exec(p, 0, a, BUDGET) != Exec(p, 0, b, BUDGET)
  }

  lemma LoadAcquireMisleads(live: seq<Mask>)
    requires Accepts(map[], LoadAcquire) ==> FixedPoint(CfgOf(map[], LoadAcquire), live)
    ensures Accepts(map[], LoadAcquire) && exists x, y :: SeedsMislead(LoadAcquire, live, x, y)
  {
    var p := LoadAcquire;
    assert SlotOk(map[], p, 0) && SlotOk(map[], p, 1);
    var x, y := AcquireBetraysSeed(map[], p, live, 0, false, false);
    assert SeedsMislead(p, live, x, y);
  }

  lemma IntoTailMasks(live: seq<Mask>)
    requires Accepts(map[], IntoTail) ==> FixedPoint(CfgOf(map[], IntoTail), live)
    ensures Accepts(map[], IntoTail) && |live| == 4 && live[0] == {}
  {
    var p := IntoTail;
    assert !IsTail(p, 0) && !IsTail(p, 1) && IsTail(p, 2) && !IsTail(p, 3);
    assert SlotOk(map[], p, 0) && SlotOk(map[], p, 1) && SlotOk(map[], p, 2) && SlotOk(map[], p, 3);
    var g := CfgOf(map[], p);
    assert g[0] == NodeAt(map[], p, 0) && g[2] == NodeAt(map[], p, 2);
    assert live[0] == Transfer(g, live, 0) && live[2] == {};
    assert After(live, g[0].succ) == live[2];
  }

  /** From the first slot the program returns r6. */
  lemma IntoTailReturns(s: State, budget: nat)
    requires s.Valid() && budget >= 3
    ensures Exec(IntoTail, 0, s, budget) == Result(OK, s.r[6], 0, 0)
  {
    var p, s' := IntoTail, s.(r := s.r[0 := s.r[6]]);
    assert Step(p, 0, s) == Next(2, s) && Step(p, 2, s) == Next(3, s');
    ExecGoesOn(p, 0, s, budget);
    ExecGoesOn(p, 2, s, budget - 1);
  }

  lemma IntoTailMisleads(live: seq<Mask>)
    requires Accepts(map[], IntoTail) ==> FixedPoint(CfgOf(map[], IntoTail), live)
    ensures Accepts(map[], IntoTail) && exists x, y :: SeedsMislead(IntoTail, live, x, y)
  {
    IntoTailMasks(live);
    var x, y := Seeding(0, 2, 0, 0), Seeding(0, 1, 0, 0);
    IntoTailReturns(Seeded(x, false, false), BUDGET);
    IntoTailReturns(Seeded(y, false, false), BUDGET);
    assert SeedsMislead(IntoTail, live, x, y);
  }

  /** Every register points at the first map cell, but for r0. */
  function AtCell(r0: u64): State {
    Uniform(MAP_BASE).(r := Uniform(MAP_BASE).r[0 := r0])
  }

  lemma PlainShape()
    ensures ExchangesThenReloads(PlainCompareExchange, 4)
  {
  }

  lemma CellRuns(p: Program, r0: u64, budget: nat)
    requires ExchangesThenReloads(p, 4) && budget >= 3
    ensures Exec(p, 0, AtCell(r0), budget) == Result(OK, if Wrap(false, r0) == 0 then MAP_BASE else 0, 0, 0)
  {
    var s := AtCell(r0);
    LoadZeros(s.mem.mapv, 0, 4);
    assert s.r[p[0].src] == MAP_BASE && s.r[8] == MAP_BASE;
    ExchangeThenExit(p, s, 0, 4, budget);
  }

  lemma PlainStatesDiffer(live: seq<Mask>)
    requires |live| == 3 && 0 !in live[0]
    ensures StatesMislead(PlainCompareExchange, live, AtCell(0), AtCell(1))
  {
    PlainShape();
    CellRuns(PlainCompareExchange, 0, BUDGET);
    CellRuns(PlainCompareExchange, 1, BUDGET);
    assert AgreeOn(live[0], AtCell(0), AtCell(1));
  }

  /** It takes two states that differ in r0 as well, which no seeding sets: met in the middle of a run they
      end differently, and two seeded runs never do. */
  lemma PlainCompareExchangeMisleads(live: seq<Mask>)
    requires Accepts(map[], PlainCompareExchange) ==> FixedPoint(CfgOf(map[], PlainCompareExchange), live)
    ensures Accepts(map[], PlainCompareExchange) && exists a, b :: StatesMislead(PlainCompareExchange, live, a, b)
    ensures SeedsAlike(map[], PlainCompareExchange, live)
  {
    PlainCompareExchangeMasks(live);
    PlainStatesDiffer(live);
    PlainSparesSeeds();
    TaillessSeedsAlike(map[], PlainCompareExchange, live);
  }

  lemma PlainSparesSeeds()
    ensures AcquiresSpareSeeds(PlainCompareExchange)
    ensures forall i :: 0 <= i < |PlainCompareExchange| ==> PlainCompareExchange[i].code != LD_IMM64
  {
  }

  lemma TaillessSeedsAlike(kf: Kfuncs, p: Program, live: seq<Mask>)
    requires Accepts(kf, p) && FixedPoint(CfgOf(kf, p), live)
    requires AcquiresSpareSeeds(p) && forall i :: 0 <= i < |p| ==> p[i].code != LD_IMM64
    ensures SeedsAlike(kf, p, live)
  {
    SeedsAlikeIff(kf, p, live);
  }

  lemma PlainCompareExchangeMasks(live: seq<Mask>)
    requires Accepts(map[], PlainCompareExchange) ==> FixedPoint(CfgOf(map[], PlainCompareExchange), live)
    ensures Accepts(map[], PlainCompareExchange) && |live| == 3 && 0 !in live[0]
  {
    var p := PlainCompareExchange;
    assert SlotOk(map[], p, 0) && SlotOk(map[], p, 1) && SlotOk(map[], p, 2);
    var g := CfgOf(map[], p);
    assert g[0] == NodeAt(map[], p, 0) && g[1] == NodeAt(map[], p, 1);
    assert live[0] == Transfer(g, live, 0) && live[1] == Transfer(g, live, 1);
    assert After(live, g[0].succ) == live[1];
  }

  lemma StepIsAtomic(p: Program, pc: nat, s: State, g: Region, i: nat, w: nat)
    requires pc < |p| && s.Valid() && p[pc].dst <= 10 && p[pc].src <= 10 && (w == 4 || w == 8)
    requires Class(p[pc].code) == STX && Mode(p[pc].code) == MODE_ATOMIC && Width(p[pc].code) == w
    requires Resolve(Address(s, p[pc].dst, p[pc].off), w) == Hit(g, i)
    ensures Step(p, pc, s) == AtomicAt(p[pc], pc, s, g, i, w)
  {
  }

  lemma StepIsLoad(p: Program, pc: nat, s: State, g: Region, i: nat, w: nat)
    requires pc < |p| && s.Valid() && p[pc].dst <= 10 && p[pc].src <= 10 && w <= 8
    requires Class(p[pc].code) == LDX && Mode(p[pc].code) == MODE_MEM && Width(p[pc].code) == w
    requires Resolve(Address(s, p[pc].src, p[pc].off), w) == Hit(g, i)
    ensures Step(p, pc, s) == Next(pc + 1, s.(r := s.r[p[pc].dst := Wrap(true, LoadLE(s.mem.Get(g), i, w))]))
  {
  }

  /** A compare-exchange on the cell r8 points at. */
  predicate Exchanges(ins: Insn, w: nat) {
    && ins.dst == 8 && 0 < ins.src <= 10 && ins.src != 8 && ins.off == 0 && ins.imm == 0xf0 && (w == 4 || w == 8)
    && Class(ins.code) == STX && Mode(ins.code) == MODE_ATOMIC && Width(ins.code) == w
  }

  /** A reload of that cell into r0. */
  predicate Reloads(ins: Insn, w: nat) {
    && ins.dst == 0 && ins.src == 8 && ins.off == 0 && w <= 8
    && Class(ins.code) == LDX && Mode(ins.code) == MODE_MEM && Width(ins.code) == w
  }

  predicate ExchangesThenReloads(p: Program, w: nat) {
    |p| == 3 && Exchanges(p[0], w) && Reloads(p[1], w) && p[2] == EXIT
  }

  function Exchanged(ins: Insn, s: State, w: nat): u64
    requires s.Valid() && ins.src <= 10
  {
    if Wrap(w == 8, s.r[0]) == 0 then Wrap(w == 8, s.r[ins.src]) else 0
  }

  lemma ExchangeStep(p: Program, s: State, i: nat, w: nat)
    requires |p| > 0 && Exchanges(p[0], w) && s.Valid()
    requires i + w <= MAP_SIZE && s.r[8] == MAP_BASE + i && LoadLE(s.mem.mapv, i, w) == 0
    ensures Step(p, 0, s) ==
            Next(1, State(s.r[0 := 0], s.mem.Set(Map, StoreLE(s.mem.mapv, i, w, Exchanged(p[0], s, w)))))
  {
    CellAddress(s, i, w);
    StepIsAtomic(p, 0, s, Map, i, w);
    CompareExchangeStores(p[0], 0, s, Map, i, w);
  }

  lemma ExchangedCell(ins: Insn, s: State, i: nat, w: nat)
    requires s.Valid() && ins.src <= 10 && i + w <= MAP_SIZE && (w == 4 || w == 8)
    ensures LoadLE(StoreLE(s.mem.mapv, i, w, Exchanged(ins, s, w)), i, w) == Exchanged(ins, s, w)
  {
    WidthModulus(w);
    StoredFits(s.mem.mapv, i, w, Exchanged(ins, s, w));
  }

  lemma CellAddress(s: State, i: nat, w: nat)
    requires s.Valid() && w <= 8 && i + w <= MAP_SIZE && s.r[8] == MAP_BASE + i
    ensures Resolve(Address(s, 8, 0), w) == Hit(Map, i)
  {
  }

  lemma ReloadStep(p: Program, s: State, i: nat, w: nat)
    requires 1 < |p| && Reloads(p[1], w) && s.Valid()
    requires i + w <= MAP_SIZE && s.r[8] == MAP_BASE + i && LoadLE(s.mem.mapv, i, w) < TWO64
    ensures Step(p, 1, s) == Next(2, s.(r := s.r[0 := LoadLE(s.mem.mapv, i, w)]))
  {
    CellAddress(s, i, w);
    StepIsLoad(p, 1, s, Map, i, w);
  }

  lemma StepThenExit(p: Program, s: State, s2: State, budget: nat)
    requires |p| == 3 && p[2] == EXIT && s.Valid() && s2.Valid() && budget >= 2 && Step(p, 1, s) == Next(2, s2)
    ensures Exec(p, 1, s, budget) == Result(OK, s2.r[0], 0, 0)
  {
  }

  lemma ReloadThenExit(p: Program, s: State, i: nat, w: nat, budget: nat)
    requires ExchangesThenReloads(p, w) && s.Valid() && budget >= 2
    requires i + w <= MAP_SIZE && s.r[8] == MAP_BASE + i && LoadLE(s.mem.mapv, i, w) < TWO64
    ensures Exec(p, 1, s, budget) == Result(OK, LoadLE(s.mem.mapv, i, w), 0, 0)
  {
    ReloadStep(p, s, i, w);
    StepThenExit(p, s, s.(r := s.r[0 := LoadLE(s.mem.mapv, i, w)]), budget);
  }

  lemma ExecGoesOn(p: Program, pc: nat, s: State, budget: nat)
    requires pc < |p| && s.Valid() && budget > 0 && Step(p, pc, s).Next?
    ensures Exec(p, pc, s, budget) == Exec(p, Step(p, pc, s).pc, Step(p, pc, s).s, budget - 1)
  {
  }

  /** The program returns what the exchange left in the map cell. */
  lemma ExchangeThenExit(p: Program, s: State, i: nat, w: nat, budget: nat)
    requires ExchangesThenReloads(p, w) && s.Valid() && budget >= 3
    requires i + w <= MAP_SIZE && s.r[8] == MAP_BASE + i && LoadLE(s.mem.mapv, i, w) == 0
    ensures Exec(p, 0, s, budget) == Result(OK, Exchanged(p[0], s, w), 0, 0)
  {
    ExchangeStep(p, s, i, w);
    ExchangedCell(p[0], s, i, w);
    var s1 := State(s.r[0 := 0], s.mem.Set(Map, StoreLE(s.mem.mapv, i, w, Exchanged(p[0], s, w))));
    ExecGoesOn(p, 0, s, budget);
    ReloadThenExit(p, s1, i, w, budget - 1);
  }

  lemma StoredFits(b: Bytes, i: nat, w: nat, v: nat)
    requires i + w <= |b| && v < Pow256(w)
    ensures LoadLE(StoreLE(b, i, w, v), i, w) == v
  {
    LoadAfterStore(b, i, w, v);
    RemainderIs(v, Pow256(w), 0, v);
  }

  lemma WidthModulus(w: nat)
    requires w == 4 || w == 8
    ensures Pow256(w) == Modulus(w == 8)
  {
  }

  // ---- but two of the conditions are not necessary --------------------------------------------------

  const ZERO_R0: Insn := Insn(0xb7, 0, 0, 0, 0)

  /** A compare-exchange without fetch ahead of `r0 = 0` and an exit: nothing reads what it leaves. */
  const QuietExchange: Program := [Insn(0xc3, 8, 6, 0, 0xf0), ZERO_R0, EXIT]

  /** A jump into the second slot of an LD_IMM64, whose bytes are `r0 = 0`. */
  const SafeTail: Program := [Insn(0x05, 0, 0, 1, 0), Insn(0x18, 1, 0, 0, 0), ZERO_R0, EXIT]

  /** Here they are `r6 *= 0`, which reads r6 and says nothing of it. */
  const QuietTail: Program :=
    [Insn(0x05, 0, 0, 1, 0), Insn(0x18, 1, 0, 0, 0), Insn(0x27, 6, 0, 0, 0), ZERO_R0, EXIT]

  /** `r0 = 0` and an exit end alike from any two states. */
  lemma ZeroThenExit(p: Program, pc: nat, a: State, b: State, budget: nat)
    requires pc + 1 < |p| && p[pc] == ZERO_R0 && p[pc + 1] == EXIT && a.Valid() && b.Valid()
    ensures Exec(p, pc, a, budget) == Exec(p, pc, b, budget)
  {
    if budget > 0 {
      var a0, b0 := a.(r := a.r[0 := 0]), b.(r := b.r[0 := 0]);
      assert Step(p, pc, a) == Next(pc + 1, a0) && Step(p, pc, b) == Next(pc + 1, b0);
      ExitsAlike(p, pc + 1, a0, b0, budget - 1);
      ExecGoesOn(p, pc, a, budget);
      ExecGoesOn(p, pc, b, budget);
    }
  }

  lemma ExitsAlike(p: Program, pc: nat, a: State, b: State, budget: nat)
    requires pc < |p| && p[pc] == EXIT && a.Valid() && b.Valid() && a.r[0] == b.r[0]
    ensures Exec(p, pc, a, budget) == Exec(p, pc, b, budget)
  {
  }

  lemma ExchangeEndsAlike(ins: Insn, pc: int, a: State, b: State)
    requires a.Valid() && b.Valid() && a.mem == b.mem && ins.dst <= 10 && ins.src <= 10 && ins.imm == 0xf0
    requires a.r[ins.dst] == b.r[ins.dst]
    ensures var oa, ob := StepAtomic(ins, pc, a), StepAtomic(ins, pc, b);
            if oa.Halt? then oa == ob else ob.Next? && oa.pc == ob.pc == pc + 1
  {
    assert Address(a, ins.dst, ins.off) == Address(b, ins.dst, ins.off);
  }

  lemma QuietExchangeMasks(live: seq<Mask>)
    requires Accepts(map[], QuietExchange) ==> FixedPoint(CfgOf(map[], QuietExchange), live)
    ensures Accepts(map[], QuietExchange) && |live| == 3 && 8 in live[0] && 0 !in live[0] && 0 in live[2]
  {
    var p := QuietExchange;
    assert SlotOk(map[], p, 0) && SlotOk(map[], p, 1) && SlotOk(map[], p, 2);
    var g := CfgOf(map[], p);
    assert g[0] == NodeAt(map[], p, 0) && g[1] == NodeAt(map[], p, 1) && g[2] == NodeAt(map[], p, 2);
    assert live[0] == Transfer(g, live, 0) && live[1] == Transfer(g, live, 1) && live[2] == Transfer(g, live, 2);
    assert After(live, g[0].succ) == live[1];
  }

  lemma QuietExchangeRuns(a: State, b: State, budget: nat)
    requires a.Valid() && b.Valid() && a.mem == b.mem && a.r[8] == b.r[8]
    ensures Exec(QuietExchange, 0, a, budget) == Exec(QuietExchange, 0, b, budget)
  {
    var p := QuietExchange;
    if budget > 0 {
      ExchangeEndsAlike(p[0], 0, a, b);
      assert Step(p, 0, a) == StepAtomic(p[0], 0, a) && Step(p, 0, b) == StepAtomic(p[0], 0, b);
      if Step(p, 0, a).Next? {
        ExecGoesOn(p, 0, a, budget);
        ExecGoesOn(p, 0, b, budget);
        ZeroThenExit(p, 1, Step(p, 0, a).s, Step(p, 0, b).s, budget - 1);
      }
    }
  }

  /** An exchange with r0 dead need not mislead any two states: what it leaves in memory may never be
      read. */
  lemma QuietExchangeIsHarmless(live: seq<Mask>)
    requires Accepts(map[], QuietExchange) ==> FixedPoint(CfgOf(map[], QuietExchange), live)
    ensures Accepts(map[], QuietExchange) && |live| == 3
    ensures !ExchangesSuffice(QuietExchange, live, {}) && RunsAlike(map[], QuietExchange, live, {})
  {
    var p := QuietExchange;
    QuietExchangeMasks(live);
    assert ExchangesPlainly(p[0]);
    forall pc: nat, a: State, b: State, budget: nat
      | pc < |p| && a.Valid() && b.Valid() && AlikeAt(map[], p, live, {}, pc, a, b)
      ensures Exec(p, pc, a, budget) == Exec(p, pc, b, budget)
    {
      if pc == 0 {
        QuietExchangeRuns(a, b, budget);
      } else if pc == 1 {
        ZeroThenExit(p, 1, a, b, budget);
      } else {
        ExitsAlike(p, 2, a, b, budget);
      }
    }
  }

  /** A jump into tail bytes that read nothing and pass nothing on is no harm, and passes the test. */
  lemma SafeTailIsTrusted(live: seq<Mask>)
    requires Accepts(map[], SafeTail) ==> FixedPoint(CfgOf(map[], SafeTail), live)
    ensures Accepts(map[], SafeTail) && |live| == 4 && IsTail(SafeTail, 2) && 2 in Edges(SafeTail, 0)
    ensures Trustworthy(map[], SafeTail, live, {})
  {
    SafeTailMasks(live);
    var p := SafeTail;
    assert CoveredBy(map[], p, live, 2, Known(live, {}, 2));
    SafeTailSuffices(live);
    assert forall i :: 0 <= i < |p| ==> !Harmful(map[], p, live, {}, i);
  }

  lemma SafeTailSuffices(live: seq<Mask>)
    ensures forall i :: 0 <= i < |SafeTail| ==> Suffices(SafeTail[i], Known(live, {}, i))
  {
  }

  lemma SafeTailMasks(live: seq<Mask>)
    requires Accepts(map[], SafeTail) ==> FixedPoint(CfgOf(map[], SafeTail), live)
    ensures Accepts(map[], SafeTail) && |live| == 4 && live[3] == {0}
    ensures !IsTail(SafeTail, 0) && !IsTail(SafeTail, 1) && IsTail(SafeTail, 2) && !IsTail(SafeTail, 3)
    ensures Edges(SafeTail, 0) == [2] && Edges(SafeTail, 2) == [3]
  {
    var p := SafeTail;
    assert !IsTail(p, 0) && !IsTail(p, 1) && IsTail(p, 2) && !IsTail(p, 3);
    assert SlotOk(map[], p, 0) && SlotOk(map[], p, 1) && SlotOk(map[], p, 2) && SlotOk(map[], p, 3);
    var g := CfgOf(map[], p);
    assert g[3] == NodeAt(map[], p, 3) && live[3] == Transfer(g, live, 3);
  }

  lemma QuietTailMasks(live: seq<Mask>)
    requires Accepts(map[], QuietTail) ==> FixedPoint(CfgOf(map[], QuietTail), live)
    ensures Accepts(map[], QuietTail) && |live| == 5 && live[2] == {} && 0 in live[4]
    ensures IsTail(QuietTail, 2) && !IsTail(QuietTail, 0) && Edges(QuietTail, 0) == [2]
  {
    var p := QuietTail;
    assert !IsTail(p, 0) && !IsTail(p, 1) && IsTail(p, 2) && !IsTail(p, 3) && !IsTail(p, 4);
    assert SlotOk(map[], p, 0) && SlotOk(map[], p, 1) && SlotOk(map[], p, 2);
    assert SlotOk(map[], p, 3) && SlotOk(map[], p, 4);
    var g := CfgOf(map[], p);
    assert g[2] == NodeAt(map[], p, 2) && g[4] == NodeAt(map[], p, 4);
    assert live[4] == Transfer(g, live, 4);
  }

  /** The test refuses the jump, with no register kept or all but the seeds. */
  lemma QuietTailIsRefused(live: seq<Mask>, keep: Mask)
    requires |live| == 5 && live[2] == {} && 6 !in keep
    requires IsTail(QuietTail, 2) && !IsTail(QuietTail, 0) && Edges(QuietTail, 0) == [2]
    ensures !TailsQuiet(map[], QuietTail, live, keep) && Harmful(map[], QuietTail, live, keep, 2)
  {
    var p := QuietTail;
    assert 6 in UseDef(map[], p[2]).value.use * TRACKED && 6 !in Known(live, keep, 2);
    assert Harmful(map[], p, live, keep, Edges(p, 0)[0]);
  }

  lemma QuietJumpRuns(a: State, b: State, budget: nat)
    requires a.Valid() && b.Valid()
    ensures Exec(QuietTail, 0, a, budget) == Exec(QuietTail, 0, b, budget)
  {
    var p := QuietTail;
    if budget > 1 {
      var a6, b6 := a.(r := a.r[6 := 0]), b.(r := b.r[6 := 0]);
      assert Step(p, 0, a) == Next(2, a) && Step(p, 0, b) == Next(2, b);
      assert Step(p, 2, a) == Next(3, a6) && Step(p, 2, b) == Next(3, b6);
      ExecGoesOn(p, 0, a, budget);
      ExecGoesOn(p, 0, b, budget);
      ExecGoesOn(p, 2, a, budget - 1);
      ExecGoesOn(p, 2, b, budget - 1);
      ZeroThenExit(p, 3, a6, b6, budget - 2);
    }
  }

  lemma QuietLoadRuns(a: State, b: State, budget: nat)
    requires a.Valid() && b.Valid()
    ensures Exec(QuietTail, 1, a, budget) == Exec(QuietTail, 1, b, budget)
  {
    var p := QuietTail;
    if budget > 0 {
      var a1, b1 := a.(r := a.r[1 := 0]), b.(r := b.r[1 := 0]);
      assert Step(p, 1, a) == Next(3, a1) && Step(p, 1, b) == Next(3, b1);
      ExecGoesOn(p, 1, a, budget);
      ExecGoesOn(p, 1, b, budget);
      ZeroThenExit(p, 3, a1, b1, budget - 1);
    }
  }

  /** Nor need tail bytes that read a register depend on it. */
  lemma QuietTailIsHarmless(live: seq<Mask>)
    requires Accepts(map[], QuietTail) ==> FixedPoint(CfgOf(map[], QuietTail), live)
    ensures Accepts(map[], QuietTail) && |live| == 5
    ensures !TailsQuiet(map[], QuietTail, live, {}) && RunsAlike(map[], QuietTail, live, {})
    ensures !TailsQuiet(map[], QuietTail, live, UNSEEDED) && SeedsAlike(map[], QuietTail, live)
  {
    QuietTailMasks(live);
    QuietTailIsRefused(live, {});
    QuietTailIsRefused(live, UNSEEDED);
    forall pc: nat, a: State, b: State, budget: nat
      | pc < 5 && a.Valid() && b.Valid() && AlikeAt(map[], QuietTail, live, {}, pc, a, b)
      ensures Exec(QuietTail, pc, a, budget) == Exec(QuietTail, pc, b, budget)
    {
      QuietTailRuns(live, pc, a, b, budget);
    }
    forall start: int, x, y, mapRegion, pktRegion | MayStart(map[], QuietTail, live, start, x, y)
      ensures SeededRun(QuietTail, start, x, mapRegion, pktRegion) ==
              SeededRun(QuietTail, start, y, mapRegion, pktRegion)
    {
      if 0 <= start < 5 {
        SeededAgree(live[start], x, y, mapRegion, pktRegion);
        QuietTailRuns(live, start, Seeded(x, mapRegion, pktRegion), Seeded(y, mapRegion, pktRegion), BUDGET);
      }
    }
  }

  lemma QuietTailRuns(live: seq<Mask>, pc: nat, a: State, b: State, budget: nat)
    requires |live| == 5 && 0 in live[4] && pc < 5 && pc != 2
    requires a.Valid() && b.Valid() && AgreeOn(live[pc], a, b)
    ensures Exec(QuietTail, pc, a, budget) == Exec(QuietTail, pc, b, budget)
  {
    if pc == 0 {
      QuietJumpRuns(a, b, budget);
    } else if pc == 1 {
      QuietLoadRuns(a, b, budget);
    } else if pc == 3 {
      ZeroThenExit(QuietTail, 3, a, b, budget);
    } else {
      ExitsAlike(QuietTail, 4, a, b, budget);
    }
  }
}
