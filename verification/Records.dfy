/** What the diff stage reads and writes: one record's observations, and a report of findings
    with the comparisons that could have produced one. */
module Records {
  import opened Isa
  import opened Dataflow
  import opened Gate

  type i64 = x: int | -0x8000_0000_0000_0000 <= x < 0x8000_0000_0000_0000

  const U64_MAX := 0xffff_ffff_ffff_ffff
  const U32_MAX := 0xffff_ffff
  const I64_MIN := -0x8000_0000_0000_0000
  const I64_MAX := 0x7fff_ffff_ffff_ffff
  const I32_MIN := -0x8000_0000
  const I32_MAX := 0x7fff_ffff

  datatype Tnum = Tnum(value: u64, mask: u64)

  /** A bound the log leaves out is at its extreme; the 32-bit view keeps the silence. */
  datatype RegState = RegState(reg: nat, regType: string, tnum: Tnum, umin: u64, umax: u64, smin: i64, smax: i64,
                               u32Min: Option<u64>, u32Max: Option<u64>, s32Min: Option<i64>, s32Max: Option<i64>,
                               ptrOff: Option<i64>, boundsFromLog: bool)
  {
    predicate IsScalar() { regType == "scalar" }
    function U32Lo(): int { if u32Min.Some? then u32Min.value else 0 }
    function U32Hi(): int { if u32Max.Some? then u32Max.value else U32_MAX }
    function S32Lo(): int { if s32Min.Some? then s32Min.value else I32_MIN }
    function S32Hi(): int { if s32Max.Some? then s32Max.value else I32_MAX }
  }

  datatype Snapshot = Snapshot(insnIdx: nat, regs: seq<RegState>)

  datatype Sample = Sample(retval: u64, retvalObserved: bool, intended: Option<u64>, storeOff: Option<i64>,
                           storeLen: Option<int>, storeSize: Option<int>, executed: Option<bool>, error: bool)

  datatype StoreSite = StoreSite(insnIdx: nat, baseReg: nat, insnOff: i64)

  datatype Probe = Probe(baseAccept: bool, baseStates: nat, freqAccept: bool, freqStates: nat, freqReason: string,
                         invReason: string)

  datatype JitDiff = JitDiff(retvalJit: int, retvalInterp: int, dataOutEqual: bool)

  datatype LivenessGate = LivenessGate(claim: Option<seq<Mask>>, kernel: seq<TableRow>)

  datatype Record = Record(accepted: bool, evolution: seq<Snapshot>, jit: Option<JitDiff>, samples: seq<Sample>,
                           intended: Option<u64>, multiPath: Option<bool>, site: Option<StoreSite>,
                           probe: Option<Probe>, gate: Option<LivenessGate>)

  datatype Kind =
    | TnumMalformed | UnsignedInverted | SignedInverted | ConstTnumMismatch | TnumBoundsInconsistent
    | U32Inverted | S32Inverted | Tnum32Inconsistent | Reg32Reg64Inconsistent | JitDivergence
    | RuntimeBound | RuntimeIntent | RuntimeOobWrite | StoreLocation | PruneSoundness | PruneDisagreement
    | RegInvariants | LivenessOverreach

  datatype Counter =
    | TnumBounds | TnumWellformed | BoundsOrder | Reg32 | JitInterp | RuntimeChecked | IntentChecked
    | WritesChecked | StoresChecked | PrunePairs | ResourceArtifacts | InvariantsChecked | GateChecked

  /** `INVARIANT_DENOMINATORS`. */
  function Denominator(k: Kind): Counter {
    match k
    case TnumMalformed => TnumWellformed
    case UnsignedInverted => BoundsOrder
    case SignedInverted => BoundsOrder
    case ConstTnumMismatch => TnumBounds
    case TnumBoundsInconsistent => TnumBounds
    case U32Inverted => BoundsOrder
    case S32Inverted => BoundsOrder
    case Tnum32Inconsistent => Reg32
    case Reg32Reg64Inconsistent => Reg32
    case JitDivergence => JitInterp
    case RuntimeBound => RuntimeChecked
    case RuntimeIntent => IntentChecked
    case RuntimeOobWrite => WritesChecked
    case StoreLocation => StoresChecked
    case PruneSoundness => PrunePairs
    case PruneDisagreement => PrunePairs
    case RegInvariants => InvariantsChecked
    case LivenessOverreach => GateChecked
  }

  /** A finding as its kind and place: instruction and register, or sample number. */
  datatype Finding = Finding(kind: Kind, insn: nat, place: int)

  datatype Report = Report(findings: seq<Finding>, checked: multiset<Counter>)

  const Empty := Report([], multiset{})

  /** r with f added when c holds. */
  function Note(r: Report, c: bool, f: Finding): Report {
    if c then r.(findings := r.findings + [f]) else r
  }

  /** r with one more comparison counted when c holds. */
  function Tick(r: Report, c: bool, k: Counter): Report {
    if c then r.(checked := r.checked + multiset{k}) else r
  }

  /** The vector of findings and the counters the checks write to. */
  class Sink {
    var findings: seq<Finding>
    var checked: multiset<Counter>

    constructor ()
      ensures Abs() == Empty
    {
      findings, checked := [], multiset{};
    }

    ghost function Abs(): Report
      reads this
    {
      Report(findings, checked)
    }

    method Count(c: bool, k: Counter)
      modifies this
      ensures Abs() == Tick(old(Abs()), c, k)
    {
      if c {
        checked := checked + multiset{k};
      }
    }

    method Push(c: bool, f: Finding)
      modifies this
      ensures Abs() == Note(old(Abs()), c, f)
    {
      if c {
        findings := findings + [f];
      }
    }
  }

  // ---- what a report says -------------------------------------------------------------------------

  /** How many findings of kind k there are. */
  function CountOf(fs: seq<Finding>, k: Kind): nat {
    if fs == [] then 0 else CountOf(fs[..|fs| - 1], k) + if fs[|fs| - 1].kind == k then 1 else 0
  }

  lemma {:induction false} CountOfConcat(a: seq<Finding>, b: seq<Finding>, k: Kind)
    ensures CountOf(a + b, k) == CountOf(a, k) + CountOf(b, k)
  {
    if b == [] {
      assert a + b == a;
    } else {
      assert (a + b)[..|a + b| - 1] == a + b[..|b| - 1];
      CountOfConcat(a, b[..|b| - 1], k);
    }
  }

  predicate Mentions(r: Report, k: Kind) {
    exists f :: f in r.findings && f.kind == k
  }

  lemma MentionsNote(r: Report, c: bool, f: Finding, k: Kind)
    ensures Mentions(Note(r, c, f), k) <==> Mentions(r, k) || (c && f.kind == k)
  {
  }

  lemma MentionsTick(r: Report, c: bool, n: Counter, k: Kind)
    ensures Mentions(Tick(r, c, n), k) <==> Mentions(r, k)
  {
  }
}
