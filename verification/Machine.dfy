/** The interpreter as it runs: register and memory arrays overwritten in place, one loop, one
    budget.  Each method is proved to do what the step function of Interp says. */
module Machine {
  import opened Isa
  import opened Interp

  const BUDGET := 0x40_0000

  /** The packet's content, fixed so that a read at a wrong address shows. */
  function PktByte(i: int): u8 { (i * 7 + 13) % 256 }

  function InitMemory(): Memory {
    Memory(seq(STACK, _ => 0), seq(MAP_SIZE, _ => 0), seq(PKT_SIZE, i => PktByte(i)))
  }

  /** The machine a run starts from: ctx in r1, seeds in r6, r7 and r9, the frame pointer in
      r10, and pointers in r8 or r2 and r3 when the harness declares those regions. */
  function InitState(ctx: u64, s6: u64, s7: u64, s9: u64, mapRegion: bool, pktRegion: bool): (s: State)
    ensures s.Valid()
  {
    State([0, ctx, if pktRegion then PKT_BASE else 0, if pktRegion then PKT_BASE + PKT_SIZE else 0, 0, 0,
           s6, s7, if mapRegion then MAP_BASE else 0, s9, STACK_BASE],
          InitMemory())
  }

  datatype Control = Goto(pc: int) | Stop(result: Result)

  /** The in-place step left the machine in s and control at c, as the step function says. */
  ghost predicate Realises(o: Outcome, c: Control, s: State) {
    match o
    case Next(pc, s') => c == Goto(pc) && s == s'
    case Halt(r) => c == Stop(r)
  }

  class Cpu {
    const r: array<u64>
    const stack: array<u8>
    const mapv: array<u8>
    const pkt: array<u8>

    ghost predicate Valid() {
      && r.Length == 11 && stack.Length == STACK && mapv.Length == MAP_SIZE && pkt.Length == PKT_SIZE
      && stack != mapv && stack != pkt && mapv != pkt
    }

    ghost function Abs(): (s: State)
      requires Valid()
      reads r, stack, mapv, pkt
      ensures s.Valid()
    {
      State(r[..], Memory(stack[..], mapv[..], pkt[..]))
    }

    constructor ()
      ensures Valid() && fresh(r) && fresh(stack) && fresh(mapv) && fresh(pkt)
      ensures Abs() == State(seq(11, _ => 0), InitMemory())
    {
      r := new u64[11](_ => 0);
      stack := new u8[STACK](_ => 0);
      mapv := new u8[MAP_SIZE](_ => 0);
      pkt := new u8[PKT_SIZE](i => PktByte(i));
      new;
      assert r[..] == seq(11, _ => 0) && stack[..] == InitMemory().stack;
      assert mapv[..] == InitMemory().mapv && pkt[..] == InitMemory().pkt;
    }

    method Preload(ctx: u64, s6: u64, s7: u64, s9: u64, mapRegion: bool, pktRegion: bool)
      requires Valid() && Abs() == State(seq(11, _ => 0), InitMemory())
      modifies r
      ensures Abs() == InitState(ctx, s6, s7, s9, mapRegion, pktRegion)
    {
      assert forall k :: 0 <= k < 11 ==> r[k] == r[..][k] == 0;
      r[1] := ctx;
      r[6] := s6;
      r[7] := s7;
      r[9] := s9;
      r[10] := STACK_BASE;
      if mapRegion {
        r[8] := MAP_BASE;
      }
      if pktRegion {
        r[2] := PKT_BASE;
        r[3] := PKT_BASE + PKT_SIZE;
      }
      assert r[..] == InitState(ctx, s6, s7, s9, mapRegion, pktRegion).r;
    }

    function RegionArray(g: Region): array<u8> {
      match g
      case Stack => stack
      case Map => mapv
      case Pkt => pkt
    }

    method Load(g: Region, i: nat, w: nat) returns (v: nat)
      requires Valid() && i + w <= RegionSize(g)
      ensures v == LoadLE(Abs().mem.Get(g), i, w)
    {
      var b := RegionArray(g);
      v := 0;
      var k := w;
      while k > 0
        invariant 0 <= k <= w && v == LoadLE(b[..], i + k, w - k)
      {
        k := k - 1;
        v := b[i + k] + 256 * v;
      }
    }

    method Store(g: Region, i: nat, w: nat, v: nat)
      requires Valid() && i + w <= RegionSize(g)
      modifies RegionArray(g)
      ensures Abs().mem == old(Abs().mem.Set(g, StoreLE(Abs().mem.Get(g), i, w, v)))
    {
      var b := RegionArray(g);
      var rest := v;
      for k := 0 to w
        invariant StoreLE(b[..], i + k, w - k, rest) == old(StoreLE(b[..], i, w, v))
      {
        ghost var before := b[..];
        b[i + k] := rest % 256;
        assert b[..] == before[i + k := rest % 256];
        rest := rest / 256;
      }
    }

    method SetReg(dst: nat, v: u64)
      requires Valid() && dst <= 10
      modifies r
      ensures Abs() == old(Abs().(r := Abs().r[dst := v]))
    {
      r[dst] := v;
      assert r[..] == old(r[..])[dst := v];
    }

    method DoAlu(ins: Insn, pc: int) returns (c: Control)
      requires Valid() && ins.dst <= 10 && ins.src <= 10
      modifies r
      ensures Realises(old(StepAlu(ins, pc, Abs())), c, Abs())
    {
      var is64 := Class(ins.code) == ALU64;
      var v := if SrcIsReg(ins.code) then r[ins.src] else Wrap(is64, ins.imm);
      var res := Alu(is64, Op(ins.code), SrcIsReg(ins.code), ins.off, r[ins.dst], v);
      if res.None? {
        return Stop(Result(UNSUPPORTED, 0, pc, ins.code));
      }
      SetReg(ins.dst, res.value);
      c := Goto(pc + 1);
    }

    method DoLd(p: Program, pc: int) returns (c: Control)
      requires Valid() && 0 <= pc < |p| && p[pc].dst <= 10
      modifies r
      ensures Realises(old(StepLd(p, pc, Abs())), c, Abs())
    {
      var ins := p[pc];
      if ins.code != LD_IMM64 || ins.src != 0 {
        return Stop(Result(UNSUPPORTED, 0, pc, ins.code));
      }
      if pc + 1 >= |p| {
        return Stop(Result(BADPC, 0, pc, ins.code));
      }
      SetReg(ins.dst, Wrap(false, ins.imm) + TWO32 * Wrap(false, p[pc + 1].imm));
      c := Goto(pc + 2);
    }

    method DoLdx(ins: Insn, pc: int) returns (c: Control)
      requires Valid() && ins.dst <= 10 && ins.src <= 10
      modifies r
      ensures Realises(old(StepLdx(ins, pc, Abs())), c, Abs())
    {
      var w := Width(ins.code);
      var at := Resolve(Wrap(true, r[ins.src] + ins.off), w);
      if !at.Hit? {
        return Stop(Result(if at.Miss? then OOB else WILD, 0, pc, ins.code));
      }
      var raw := Load(at.region, at.index, w);
      if Mode(ins.code) == MODE_MEM {
        SetReg(ins.dst, Wrap(true, raw));
      } else if Mode(ins.code) == MODE_MEMSX && w != 8 {
        SetReg(ins.dst, Wrap(true, Signed(Pow256(w), raw)));
      } else {
        return Stop(Result(UNSUPPORTED, 0, pc, ins.code));
      }
      c := Goto(pc + 1);
    }

    method DoAtomic(ins: Insn, pc: int) returns (c: Control)
      requires Valid() && ins.dst <= 10 && ins.src <= 10
      modifies r, stack, mapv, pkt
      ensures Realises(old(StepAtomic(ins, pc, Abs())), c, Abs())
    {
      var w := Width(ins.code);
      if w != 4 && w != 8 {
        return Stop(Result(UNSUPPORTED, 0, pc, ins.code));
      }
      var at := Resolve(Wrap(true, r[ins.dst] + ins.off), w);
      if !at.Hit? {
        return Stop(Result(if at.Miss? then OOB else WILD, 0, pc, ins.code));
      }
      c := DoAtomicAt(ins, pc, at.region, at.index, w);
    }

    method DoAtomicAt(ins: Insn, pc: int, g: Region, i: nat, w: nat) returns (c: Control)
      requires Valid() && ins.dst <= 10 && ins.src <= 10 && i + w <= RegionSize(g)
      modifies r, stack, mapv, pkt
      ensures Realises(old(AtomicAt(ins, pc, Abs(), g, i, w)), c, Abs())
    {
      var loaded := Load(g, i, w);
      var was := Wrap(true, loaded);
      var fetch, aop := ins.imm % 2 == 1, ins.imm - ins.imm % 2;
      var res := AtomicOp(aop, was, Wrap(w == 8, r[ins.src]), r[0], w == 8);
      if res.None? {
        return Stop(Result(UNSUPPORTED, 0, pc, ins.code));
      }
      Store(g, i, w, res.value);
      if aop == 0xf0 {
        SetReg(0, was);
      } else if fetch {
        SetReg(ins.src, was);
      }
      c := Goto(pc + 1);
    }

    method DoStore(ins: Insn, pc: int) returns (c: Control)
      requires Valid() && ins.dst <= 10 && ins.src <= 10
      modifies stack, mapv, pkt
      ensures Realises(old(StepStore(ins, pc, Abs())), c, Abs())
    {
      if Mode(ins.code) != MODE_MEM {
        return Stop(Result(UNSUPPORTED, 0, pc, ins.code));
      }
      var w := Width(ins.code);
      var at := Resolve(Wrap(true, r[ins.dst] + ins.off), w);
      if !at.Hit? {
        return Stop(Result(if at.Miss? then OOB else WILD, 0, pc, ins.code));
      }
      Store(at.region, at.index, w, if Class(ins.code) == STX then r[ins.src] else Wrap(w == 8, ins.imm));
      c := Goto(pc + 1);
    }

    method DoJump(ins: Insn, pc: int) returns (c: Control)
      requires Valid() && ins.dst <= 10 && ins.src <= 10
      ensures Realises(StepJump(ins, pc, Abs()), c, Abs())
    {
      var j32, op := Class(ins.code) == JMP32, Op(ins.code);
      if op == 0x90 {
        return Stop(if j32 then Result(UNSUPPORTED, 0, pc, ins.code) else Result(OK, r[0], 0, 0));
      }
      if op == 0x00 {
        return Goto(pc + 1 + if j32 then ins.imm else ins.off);
      }
      var operand := if SrcIsReg(ins.code) then r[ins.src] else Wrap(!j32, ins.imm);
      var take := Taken(op, j32, r[ins.dst], operand);
      if take.None? {
        return Stop(Result(UNSUPPORTED, 0, pc, ins.code));
      }
      c := Goto(pc + 1 + if take.value then ins.off else 0);
    }

    method DoStep(p: Program, pc: int) returns (c: Control)
      requires Valid() && 0 <= pc < |p|
      modifies r, stack, mapv, pkt
      ensures Realises(old(Step(p, pc, Abs())), c, Abs())
    {
      var ins := p[pc];
      var cls := Class(ins.code);
      if ins.dst > 10 || ins.src > 10 {
        return Stop(Result(UNSUPPORTED, 0, pc, ins.code));
      }
      if cls == ALU || cls == ALU64 {
        c := DoAlu(ins, pc);
      } else if cls == LD {
        c := DoLd(p, pc);
      } else if cls == LDX {
        c := DoLdx(ins, pc);
      } else if cls == STX && Mode(ins.code) == MODE_ATOMIC {
        c := DoAtomic(ins, pc);
      } else if cls == ST || cls == STX {
        c := DoStore(ins, pc);
      } else {
        c := DoJump(ins, pc);
      }
    }
  }

  /** `bpfref_run_at2`. */
  method RunAt2(p: Program, startPc: int, ctx: u64, s6: u64, s7: u64, s9: u64, mapRegion: bool, pktRegion: bool)
    returns (out: Result)
    ensures out == Exec(p, startPc, InitState(ctx, s6, s7, s9, mapRegion, pktRegion), BUDGET)
  {
    var m := new Cpu();
    m.Preload(ctx, s6, s7, s9, mapRegion, pktRegion);
    var pc, budget := startPc, BUDGET;
    ghost var answer := Exec(p, pc, m.Abs(), BUDGET);
    while true
      invariant m.Valid() && fresh(m.r) && fresh(m.stack) && fresh(m.mapv) && fresh(m.pkt)
      invariant budget >= 0 && answer == Exec(p, pc, m.Abs(), budget)
      decreases budget
    {
      if pc < 0 || pc >= |p| {
        return Result(BADPC, 0, pc, 0);
      }
      if budget == 0 {
        return Result(LOOP, 0, pc, 0);
      }
      budget := budget - 1;
      var c := m.DoStep(p, pc);
      if c.Stop? {
        return c.result;
      }
      pc := c.pc;
    }
  }
}
