/** `bpflive.h`: use and def sets, successors, and the analysis run over emitted bytes. */
module Liveness {
  import opened Isa
  import opened Dataflow

  const MAX_INSN := 8192

  /** The argument count of a registered kfunc; a call passes at most five. */
  type Arity = x: int | 0 <= x <= 5
  type Kfuncs = map<int, Arity>

  datatype Effect = Effect(use: Mask, def: Mask)

  datatype Status = Ok | Unsupported
  datatype Why = Fine | CountOutOfRange | OpcodeOutsideModel | TargetOutOfRange

  function HelperArgc(imm: int): Option<Arity> {
    match imm
    case 1 => Some(2)
    case 2 => Some(4)
    case 3 => Some(2)
    case 7 => Some(0)
    case 84 => Some(5)
    case 86 => Some(1)
    case 197 => Some(4)
    case 198 => Some(4)
    case 199 => Some(2)
    case 200 => Some(2)
    case 6 => Some(2)
    case _ => None
  }

  function ArgRegs(argc: Arity): Mask {
    if argc == 0 then {} else ArgRegs(argc - 1) + {argc}
  }

  /** Arguments arrive in r1, r2, ...; r0 to r5 are clobbered. */
  function CallEffect(argc: Option<Arity>): Option<Effect> {
    match argc
    case None => None
    case Some(a) => Some(Effect(ArgRegs(a), {0, 1, 2, 3, 4, 5}))
  }

  function UseDef(kf: Kfuncs, ins: Insn): Option<Effect> {
    var code, d, s := ins.code, {ins.dst}, {ins.src};
    var cls := Class(code);
    if cls == ALU || cls == ALU64 then
      if Op(code) == 0xd0 then Some(Effect(d, d))
      else Some(Effect((if Op(code) == 0xb0 then {} else d) + (if SrcIsReg(code) then s else {}), d))
    else if cls == LDX then Some(Effect(s, d))
    else if cls == ST then Some(Effect(d, {}))
    else if cls == STX then
      if Mode(code) == MODE_ATOMIC then
        if ins.imm == 0x100 then Some(Effect(s, d))
        else if ins.imm == 0x110 then Some(Effect(d + s, {}))
        else
          var cmpxchg: Mask := if ins.imm % 0x100 == 0xf1 then {0} else {};
          Some(Effect(d + s + cmpxchg, (if ins.imm % 2 == 1 then s else {}) + cmpxchg))
      else Some(Effect(d + s, {}))
    else if cls == LD then
      if code == LD_IMM64 then Some(Effect({}, d)) else None
    else if Op(code) == 0x90 then Some(Effect({0}, {}))
    else if Op(code) == 0x00 || Op(code) == 0xe0 then Some(Effect({}, {}))
    else if Op(code) == 0x80 then
      if ins.src == 2 then CallEffect(if ins.imm in kf then Some(kf[ins.imm]) else None)
      else if ins.src == 0 then CallEffect(HelperArgc(ins.imm))
      else None
    else Some(Effect(d + (if SrcIsReg(code) then s else {}), {}))
  }

  predicate IsJump(code: bv8) { Class(code) == JMP || Class(code) == JMP32 }

  /** Where the given slot may continue, or None when that is outside the program or the model. */
  function Succ(p: Program, i: nat): (r: Option<seq<nat>>)
    requires i < |p|
    ensures r.Some? ==> forall k :: 0 <= k < |r.value| ==> r.value[k] < |p|
  {
    var ins, n := p[i], |p|;
    var next := if ins.code == LD_IMM64 then i + 2 else i + 1;
    if !IsJump(ins.code) then
      if next >= n then None else Some([next])
    else if Op(ins.code) == 0x90 then Some([])
    else if Op(ins.code) == 0x80 then
      if next >= n then None else Some([next])
    else if Op(ins.code) == 0x00 then
      if SrcIsReg(ins.code) then None
      else
        var t := i + 1 + if Class(ins.code) == JMP32 then ins.imm else ins.off;
        if t < 0 || t >= n then None else Some([t])
    else
      var t := i + 1 + ins.off;
      if t < 0 || t >= n then None else Some([t] + if next < n then [next] else [])
  }

  /** The second slot of an LD_IMM64, which is data and not an instruction. */
  predicate IsTail(p: Program, i: nat)
    requires i < |p|
  {
    i > 0 && p[i - 1].code == LD_IMM64 && !IsTail(p, i - 1)
  }

  predicate SlotOk(kf: Kfuncs, p: Program, i: nat)
    requires i < |p|
  {
    IsTail(p, i) || (UseDef(kf, p[i]).Some? && Succ(p, i).Some?)
  }

  predicate Accepts(kf: Kfuncs, p: Program) {
    0 < |p| <= MAX_INSN && forall i :: 0 <= i < |p| ==> SlotOk(kf, p, i)
  }

  function NodeAt(kf: Kfuncs, p: Program, i: nat): (node: Node)
    requires i < |p| && SlotOk(kf, p, i)
    ensures forall k :: 0 <= k < |node.succ| ==> node.succ[k] < |p|
  {
    if IsTail(p, i) then Node(true, {}, {}, [])
    else
      var e := UseDef(kf, p[i]).value;
      Node(false, e.use, e.def, Succ(p, i).value)
  }

  function CfgOf(kf: Kfuncs, p: Program): (g: Cfg)
    requires Accepts(kf, p)
    ensures WellFormed(g) && |g| == |p|
    ensures forall i :: 0 <= i < |p| ==> g[i] == NodeAt(kf, p, i)
  {
    seq(|p|, i requires 0 <= i < |p| => NodeAt(kf, p, i))
  }

  /** `struct bpflive_result`. */
  class LiveResult {
    var status: Status
    var n: int
    var unsupportedAt: int
    var why: Why
    const liveBefore: array<Mask>

    constructor ()
      ensures liveBefore.Length == MAX_INSN && fresh(liveBefore)
    {
      liveBefore := new Mask[MAX_INSN](_ => {});
      status, n, unsupportedAt, why := Ok, 0, -1, Fine;
    }
  }

  /** `bpflive_run`.  On acceptance the masks are the exact live sets, reached within n + 1
      passes, far below the 4 * MAX_INSN passes at which the loop would give up. */
  method Run(kf: Kfuncs, p: Program, out: LiveResult) returns (ghost passes: nat)
    requires out.liveBefore.Length == MAX_INSN
    modifies out, out.liveBefore
    ensures out.n == |p|
    ensures out.status == Ok <==> Accepts(kf, p)
    ensures out.status == Ok ==> out.unsupportedAt == -1 && out.why == Fine
    ensures out.status == Ok ==> passes <= |p| + 1
    ensures out.status == Ok ==> Exact(CfgOf(kf, p), out.liveBefore[..|p|])
    ensures out.status == Ok ==> FixedPoint(CfgOf(kf, p), out.liveBefore[..|p|])
    ensures forall i :: (if out.status == Ok then |p| else 0) <= i < MAX_INSN ==> out.liveBefore[i] == {}
    ensures !(0 < |p| <= MAX_INSN) ==> out.why == CountOutOfRange && out.unsupportedAt == -1
    ensures 0 < |p| <= MAX_INSN && out.status == Unsupported ==>
      && 0 <= out.unsupportedAt < |p| && !SlotOk(kf, p, out.unsupportedAt)
      && (forall i :: 0 <= i < out.unsupportedAt ==> SlotOk(kf, p, i))
      && out.why == if UseDef(kf, p[out.unsupportedAt]).None? then OpcodeOutsideModel else TargetOutOfRange
  {
    passes := 0;
    var n := |p|;
    forall i | 0 <= i < MAX_INSN { out.liveBefore[i] := {}; }
    out.n, out.unsupportedAt, out.status, out.why := n, -1, Ok, Fine;
    if n <= 0 || n > MAX_INSN {
      out.status, out.why := Unsupported, CountOutOfRange;
      return;
    }
    var skip := new bool[n](_ => false);
    var g: Cfg := [];
    var i := 0;
    while i < n
      invariant 0 <= i <= n && |g| == i
      invariant out.n == n && out.unsupportedAt == -1 && out.status == Ok && out.why == Fine
      invariant forall j :: 0 <= j < MAX_INSN ==> out.liveBefore[j] == {}
      invariant forall j :: 0 <= j < i ==> SlotOk(kf, p, j) && g[j] == NodeAt(kf, p, j)
      invariant forall j :: 0 <= j <= i && j < n ==> skip[j] == IsTail(p, j)
      invariant forall j :: i < j < n ==> !skip[j]
    {
      if skip[i] {
        g := g + [Node(true, {}, {}, [])];
      } else {
        var e := UseDef(kf, p[i]);
        if e.None? {
          assert !SlotOk(kf, p, i);
          out.status, out.unsupportedAt, out.why := Unsupported, i, OpcodeOutsideModel;
          return;
        }
        var s := Succ(p, i);
        if s.None? {
          assert !SlotOk(kf, p, i);
          out.status, out.unsupportedAt, out.why := Unsupported, i, TargetOutOfRange;
          return;
        }
        g := g + [Node(false, e.value.use, e.value.def, s.value)];
        if p[i].code == LD_IMM64 && i + 1 < n {
          skip[i + 1] := true;
        }
      }
      i := i + 1;
    }
    assert g == CfgOf(kf, p);
    var live := out.liveBefore;
    var changed, guard := true, 0;
    while changed && guard < 4 * MAX_INSN
      invariant 0 <= guard <= n + 1 && (changed ==> guard <= n)
      invariant out.n == n && out.unsupportedAt == -1 && out.status == Ok && out.why == Fine
      invariant forall j :: n <= j < MAX_INSN ==> live[j] == {}
      invariant Justified(g, live[..n]) && Settled(g, live[..n], 0, guard)
      invariant !changed ==> FixedPoint(g, live[..n])
      decreases 4 * MAX_INSN - guard
    {
      ghost var rest := live[n..];
      changed := Pass(g, live, guard);
      assert forall j :: n <= j < MAX_INSN ==> live[j] == live[n..][j - n] == rest[j - n];
      guard := guard + 1;
    }
    passes := guard;
    StableIsExact(g, live[..n]);
  }

  /** Justified bits that solve the equation are the exact ones. */
  lemma StableIsExact(g: Cfg, live: seq<Mask>)
    requires WellFormed(g) && Justified(g, live) && FixedPoint(g, live)
    ensures Exact(g, live)
  {
    forall i: nat, r | i < |g| && r in TRACKED && Live(g, i, r) ensures r in live[i] {
      LiveIffShort(g, i, r);
      SolutionContains(g, live, i, r, |g| - 1);
    }
  }
}
