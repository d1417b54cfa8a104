/** The use and def sets say no more than the interpreter does: each use it lists is read by some variant of
    the instruction, each register it leaves undefined stays, each successor is reached. */
module Uses {
  import opened Isa
  import opened Bits
  import opened Dataflow
  import opened Liveness
  import opened Interp
  import opened NonInterference
  import opened Steps
  import opened MemSteps

  // ---- what is not defined stays ----------------------------------------------------------------------

  predicate CompareExchange(ins: Insn) {
    ins.code & 0x07 == 0x03 && ins.code & 0xe0 == 0xc0 && Operation(ins.imm) == 0xf0
  }

  /** A step that goes on leaves alone every register it is not said to define, but for the r0 of a
      compare-exchange without fetch. */
  lemma UndefinedStays(kf: Kfuncs, p: Program, pc: nat, s: State, r: nat)
    requires pc < |p| && s.Valid() && UseDef(kf, p[pc]).Some? && Step(p, pc, s).Next?
    requires r <= 10 && r !in UseDef(kf, p[pc]).value.def
    requires !(CompareExchange(p[pc]) && p[pc].imm % 2 == 0 && r == 0)
    ensures Step(p, pc, s).s.r[r] == s.r[r]
  {
  }

  // ---- the instructions the interpreter has a meaning for ---------------------------------------------------

  /** Another offset, and another immediate where the immediate is not the operation. */
  predicate Variant(a: Insn, b: Insn) {
    && a.code == b.code && a.dst == b.dst && a.src == b.src
    && (a.code & 0x07 == 0x03 && a.code & 0xe0 == 0xc0 ==> a.imm == b.imm)
  }

  /** Refused neither for its opcode nor for its registers. */
  predicate Meaningful(ins: Insn) {
    var (cls, op, mode, w) := (ins.code & 0x07, ins.code & 0xf0, ins.code & 0xe0, AccessWidth(ins.code));
    ins.dst <= 10 && ins.src <= 10 &&
    if cls == 0x04 || cls == 0x07 then op != 0xd0 && op != 0xe0 && op != 0xf0
    else if cls == 0x05 then Conditional(op) || op == 0x00 || op == 0x90
    else if cls == 0x06 then Conditional(op) || op == 0x00
    else if cls == 0x01 then mode == 0x60 || (mode == 0x80 && w != 8)
    else if cls == 0x02 then mode == 0x60
    else if cls == 0x03 then mode == 0x60 || (mode == 0xc0 && (w == 4 || w == 8) && KnownOperation(Operation(ins.imm)))
    else ins.code == 0x18 && ins.src == 0
  }

  /** The slot put in place of the one at pc. */
  function Swapped(p: Program, pc: nat, ins: Insn): Program
    requires pc < |p|
  {
    p[pc := ins]
  }

  /** Some variant of the slot tells two states apart that differ in r alone. */
  ghost predicate TellsApart(kf: Kfuncs, p: Program, pc: nat, r: nat, ins: Insn, a: State, x: u64)
    requires pc < |p| && r <= 10
  {
    && Variant(p[pc], ins) && a.Valid() && UseDef(kf, ins).Some?
    && var q, b := Swapped(p, pc, ins), a.(r := a.r[r := x]);
       !SameOutcome(UseDef(kf, ins).value.def, a, b, Step(q, pc, a), Step(q, pc, b))
  }

  ghost predicate IsRead(kf: Kfuncs, p: Program, pc: nat, r: nat)
    requires pc < |p| && r <= 10
  {
    exists ins, a, x :: TellsApart(kf, p, pc, r, ins, a, x)
  }

  /** A negation encoded with a register operand, which it ignores. */
  predicate NegatesRegister(ins: Insn) {
    (ins.code & 0x07 == 0x04 || ins.code & 0x07 == 0x07) && ins.code & 0xf0 == 0x80 && ins.code & 0x08 == 0x08
  }

  // ---- witnesses: arithmetic ---------------------------------------------------------------------------------

  /** All registers at z, over zero memory, but for two. */
  function Two(dst: nat, d: u64, src: nat, y: u64): State
    requires dst <= 10 && src <= 10
  {
    State(seq(11, _ => 0)[dst := d][src := y], ZeroMemory)
  }

  /** A second operand under which the operation tells 1 from 2. */
  function Telling(op: bv8): u64 {
    if op == 0x20 || op == 0x30 then 1 else if op == 0x50 then 3 else 0
  }

  /** A first operand under which it tells 1 from 2 as a second one. */
  function Told(op: bv8): u64 {
    if op == 0x20 || op == 0x60 || op == 0x90 then 1 else if op == 0x30 then 2 else if op == 0x50 then 3
    else if op == 0x70 || op == 0xc0 then 4 else 0
  }

  ghost predicate Differ(a: Option<u64>, b: Option<u64>) { a.Some? && b.Some? && a != b }

  ghost predicate TellsFirst(is64: bool, op: bv8, reg: bool) {
    Differ(Alu(is64, op, reg, 0, 1, Telling(op)), Alu(is64, op, reg, 0, 2, Telling(op)))
  }

  ghost predicate TellsSecond(is64: bool, op: bv8) {
    Differ(Alu(is64, op, true, 0, Told(op), 1), Alu(is64, op, true, 0, Told(op), 2))
  }

  lemma SmallWraps(is64: bool, x: int)
    ensures 0 <= x < 5 ==> Wrap(is64, x) == x && Signed(Modulus(is64), x) == x
    ensures -5 < x < 0 ==> Wrap(is64, x) == Modulus(is64) + x
  {
  }

  lemma LinearTells(is64: bool, op: bv8, reg: bool)
    requires op == 0x00 || op == 0x10 || op == 0x20 || op == 0x80 || op == 0xb0
    ensures op != 0xb0 ==> TellsFirst(is64, op, reg)
    ensures op != 0x80 ==> TellsSecond(is64, op)
  {
    SmallWraps(is64, 1);
    SmallWraps(is64, 2);
    SmallWraps(is64, -1);
    SmallWraps(is64, -2);
  }

  lemma DivisionTells(is64: bool, op: bv8, reg: bool)
    requires op == 0x30 || op == 0x90
    ensures TellsFirst(is64, op, reg) && TellsSecond(is64, op)
  {
    SmallWraps(is64, 0);
    SmallWraps(is64, 1);
    SmallWraps(is64, 2);
  }

  lemma BitwiseTells(is64: bool, op: bv8, reg: bool)
    requires op == 0x40 || op == 0x50 || op == 0xa0
    ensures TellsFirst(is64, op, reg) && TellsSecond(is64, op)
  {
    assert And(1, 3) == 1 && And(2, 3) == 2 && And(3, 1) == 1 && And(3, 2) == 2;
    assert Or(1, 0) == 1 && Or(2, 0) == 2 && Or(0, 1) == 1 && Or(0, 2) == 2;
    assert Xor(1, 0) == 1 && Xor(2, 0) == 2 && Xor(0, 1) == 1 && Xor(0, 2) == 2;
    SmallWraps(is64, 0);
    SmallWraps(is64, 1);
    SmallWraps(is64, 2);
    SmallWraps(is64, 3);
  }

  lemma ShiftTells(is64: bool, op: bv8, reg: bool)
    requires op == 0x60 || op == 0x70 || op == 0xc0
    ensures TellsFirst(is64, op, reg) && TellsSecond(is64, op)
  {
    if op == 0x60 {
      LeftTells(is64, reg);
    } else {
      RightTells(is64, op, reg);
    }
  }

  lemma LeftTells(is64: bool, reg: bool)
    ensures TellsFirst(is64, 0x60, reg) && TellsSecond(is64, 0x60)
  {
    assert Pow2(0) == 1 && Pow2(1) == 2 && Pow2(2) == 4;
    SmallWraps(is64, 1);
    SmallWraps(is64, 2);
    SmallWraps(is64, 4);
  }

  lemma RightTells(is64: bool, op: bv8, reg: bool)
    requires op == 0x70 || op == 0xc0
    ensures TellsFirst(is64, op, reg) && TellsSecond(is64, op)
  {
    assert Pow2(0) == 1 && Pow2(1) == 2 && Pow2(2) == 4;
    SmallWraps(is64, 1);
    SmallWraps(is64, 2);
    SmallWraps(is64, 4);
  }

  lemma OperandsMatter(is64: bool, op: bv8, reg: bool)
    requires op & 0x0f == 0 && op != 0xd0 && op != 0xe0 && op != 0xf0
    ensures op != 0xb0 ==> TellsFirst(is64, op, reg)
    ensures op != 0x80 ==> TellsSecond(is64, op)
  {
    if op == 0x30 || op == 0x90 {
      DivisionTells(is64, op, reg);
    } else if op == 0x40 || op == 0x50 || op == 0xa0 {
      BitwiseTells(is64, op, reg);
    } else if op == 0x60 || op == 0x70 || op == 0xc0 {
      ShiftTells(is64, op, reg);
    } else {
      LinearTells(is64, op, reg);
    }
  }

  /** A variant that tells apart two states is enough. */
  lemma Shows(kf: Kfuncs, p: Program, pc: nat, r: nat, ins: Insn, a: State, x: u64)
    requires pc < |p| && r <= 10 && TellsApart(kf, p, pc, r, ins, a, x)
    ensures IsRead(kf, p, pc, r)
  {
  }

  lemma AluRead(kf: Kfuncs, p: Program, pc: nat, r: nat)
    requires pc < |p| && p[pc].dst <= 10 && p[pc].src <= 10 && p[pc].dst != p[pc].src
    requires Class(p[pc].code) == ALU || Class(p[pc].code) == ALU64
    requires Op(p[pc].code) != 0xd0 && Op(p[pc].code) != 0xe0 && Op(p[pc].code) != 0xf0
    requires (r == p[pc].dst && Op(p[pc].code) != 0xb0) ||
             (r == p[pc].src && SrcIsReg(p[pc].code) && Op(p[pc].code) != 0x80)
    ensures IsRead(kf, p, pc, r)
  {
    var op, is64, reg := Op(p[pc].code), Class(p[pc].code) == ALU64, SrcIsReg(p[pc].code);
    var dst, src := p[pc].dst, p[pc].src;
    OperationNibble(p[pc].code);
    OperandsMatter(is64, op, reg);
    var y := if r == dst then Telling(op) else 0;
    var ins := p[pc].(off := 0, imm := y);
    var a := if r == dst then Two(dst, 1, src, y) else Two(dst, Told(op), src, 1);
    AluStepTells(p, pc, ins, a, r, op, is64, reg, y);
    AluDefines(kf, ins);
    Shows(kf, p, pc, r, ins, a, 2);
  }

  lemma AluDefines(kf: Kfuncs, ins: Insn)
    requires Class(ins.code) == ALU || Class(ins.code) == ALU64
    ensures UseDef(kf, ins).Some? && UseDef(kf, ins).value.def == {ins.dst}
  {
  }

  lemma AluStepTells(p: Program, pc: nat, ins: Insn, a: State, r: nat, op: bv8, is64: bool, reg: bool, y: u64)
    requires pc < |p| && ins.dst <= 10 && ins.src <= 10 && ins.dst != ins.src && ins.off == 0 && ins.imm == y < 5
    requires Class(ins.code) == if is64 then ALU64 else ALU
    requires Op(ins.code) == op && SrcIsReg(ins.code) == reg
    requires a.Valid() && (r == ins.dst || r == ins.src)
    requires r == ins.dst ==> a == Two(ins.dst, 1, ins.src, y) && y == Telling(op) && TellsFirst(is64, op, reg)
    requires r == ins.src ==> a == Two(ins.dst, Told(op), ins.src, 1) && reg && TellsSecond(is64, op)
    ensures var (q, b) := (Swapped(p, pc, ins), a.(r := a.r[r := 2]));
            !SameOutcome({ins.dst}, a, b, Step(q, pc, a), Step(q, pc, b))
  {
    var q, b := Swapped(p, pc, ins), a.(r := a.r[r := 2]);
    SmallWraps(is64, y);
    assert Step(q, pc, a) == StepAlu(ins, pc, a) && Step(q, pc, b) == StepAlu(ins, pc, b);
    var va := if reg then a.r[ins.src] else y;
    var vb := if reg then b.r[ins.src] else y;
    assert Differ(Alu(is64, op, reg, 0, a.r[ins.dst], va), Alu(is64, op, reg, 0, b.r[ins.dst], vb));
    assert Step(q, pc, a).s.r[ins.dst] != Step(q, pc, b).s.r[ins.dst];
  }

  // ---- witnesses: memory --------------------------------------------------------------------------------------

  /** Registers at 0 but for one at the map's first byte. */
  function Aimed(reg: nat): State
    requires reg <= 10
  {
    State(seq(11, _ => 0)[reg := MAP_BASE], ZeroMemory)
  }

  lemma AimedHits(reg: nat, w: nat)
    requires reg <= 10 && w <= 8
    ensures Resolve(Address(Aimed(reg), reg, 0), w) == Hit(Map, 0)
    ensures var b := Aimed(reg).(r := Aimed(reg).r[reg := 0]); Resolve(Address(b, reg, 0), w) == Miss
  {
  }

  /** The register a memory access points with. */
  lemma AddressRead(kf: Kfuncs, p: Program, pc: nat, r: nat)
    requires pc < |p| && Meaningful(p[pc]) && UseDef(kf, p[pc].(off := 0)).Some?
    requires Class(p[pc].code) == LDX || Class(p[pc].code) == ST || Class(p[pc].code) == STX
    requires r == if Class(p[pc].code) == LDX then p[pc].src else p[pc].dst
    ensures IsRead(kf, p, pc, r)
  {
    var ins, a := p[pc].(off := 0), Aimed(r);
    var q, b, w := Swapped(p, pc, ins), a.(r := a.r[r := 0]), AccessWidth(ins.code);
    assert Width(ins.code) == w;
    AimedHits(r, w);
    if Class(ins.code) == STX && Mode(ins.code) == MODE_ATOMIC {
      var was := CellSpells(a, Map, 0, w);
      var v, m := AtomicCell(ins, pc, a, Map, 0, w, was);
      assert Step(q, pc, a) == AtomicAt(ins, pc, a, Map, 0, w);
    }
    assert Step(q, pc, a).Next? && Step(q, pc, b).Halt?;
    Shows(kf, p, pc, r, ins, a, 0);
  }

  /** What a plain store writes. */
  lemma StoredRead(kf: Kfuncs, p: Program, pc: nat)
    requires pc < |p| && Meaningful(p[pc]) && p[pc].dst != p[pc].src
    requires Class(p[pc].code) == STX && Mode(p[pc].code) == MODE_MEM
    ensures IsRead(kf, p, pc, p[pc].src)
  {
    var ins := p[pc].(off := 0);
    var src, a, w := ins.src, Aimed(ins.dst), AccessWidth(ins.code);
    var q, b := Swapped(p, pc, ins), a.(r := a.r[src := 1]);
    AimedHits(ins.dst, w);
    assert Width(ins.code) == w && Resolve(Address(b, ins.dst, 0), w) == Hit(Map, 0);
    ByteFits(w);
    StoreDiffers(a.mem.mapv, 0, w, 0, 1);
    assert Step(q, pc, a) == StepStore(ins, pc, a) && Step(q, pc, b) == StepStore(ins, pc, b);
    MemoryShows(kf, p, pc, src, ins, a, 1);
  }

  lemma ByteFits(w: nat)
    requires w == 1 || w == 2 || w == 4 || w == 8
    ensures 0 % Pow256(w) == 0 && 1 % Pow256(w) == 1
  {
    assert Pow256(w) == 256 * Pow256(w - 1);
    RemainderIs(1, Pow256(w), 0, 1);
  }

  // ---- witnesses: atomics ---------------------------------------------------------------------------------------

  /** The first cell of the map holds c; dst points at it, src and r0 hold the values given. */
  function Armed(dst: nat, src: nat, y: u64, r0: u64, w: nat, c: u64): State
    requires dst <= 10 && src <= 10 && w <= 8
  {
    State(seq(11, _ => 0)[0 := r0][src := y][dst := MAP_BASE],
          ZeroMemory.(mapv := StoreLE(ZeroMemory.mapv, 0, w, c)))
  }

  lemma ArmedCell(dst: nat, src: nat, y: u64, r0: u64, w: nat, c: u64)
    requires dst <= 10 && src <= 10 && (w == 4 || w == 8) && c < TWO32
    ensures var a := Armed(dst, src, y, r0, w, c);
            a.Valid() && Resolve(Address(a, dst, 0), w) == Hit(Map, 0) && LoadLE(a.mem.mapv, 0, w) == c
  {
    LoadAfterStore(ZeroMemory.mapv, 0, w, c);
    WordPowers();
    RemainderIs(c, Pow256(w), 0, c);
  }

  lemma WordPowers()
    ensures Pow256(4) == TWO32 && Pow256(8) == TWO64
  {
  }

  /** The old cell that lets every operation tell a source of 0 from a source of 3: one that equals r0. */
  function Cell(dst: nat): u64 { if dst == 0 then MAP_BASE else 1 }

  lemma SourceMatters(op: int, wide: bool, dst: nat)
    requires KnownOperation(op)
    ensures var c := if op == 0xf0 then Cell(dst) else 1;
            var a, b := AtomicOp(op, c, 0, c, wide), AtomicOp(op, c, 3, c, wide);
            a.Some? && b.Some? && a != b && a.value < TWO32 && b.value < TWO32
  {
    assert And(1, 0) == 0 && And(1, 3) == 1;
    assert Or(1, 0) == 1 && Or(1, 3) == 3;
    assert Xor(1, 0) == 1 && Xor(1, 3) == 2;
    SmallWraps(wide, 0);
    SmallWraps(wide, 1);
    SmallWraps(wide, 2);
    SmallWraps(wide, 3);
    SmallWraps(wide, 4);
  }

  lemma StoresApart(b: Bytes, w: nat, x: u64, y: u64)
    requires w <= |b| && (w == 4 || w == 8) && x < TWO32 && y < TWO32 && x != y
    ensures StoreLE(b, 0, w, x) != StoreLE(b, 0, w, y)
  {
    WordPowers();
    RemainderIs(x, Pow256(w), 0, x);
    RemainderIs(y, Pow256(w), 0, y);
    StoreDiffers(b, 0, w, x, y);
  }

  /** What an atomic does at the armed cell. */
  lemma AtomicStores(ins: Insn, pc: nat, s: State, w: nat, c: u64)
    requires s.Valid() && ins.dst <= 10 && ins.src <= 10 && (w == 4 || w == 8)
    requires LoadLE(s.mem.mapv, 0, w) == c
    requires AtomicOp(Operation(ins.imm), c, Wrap(w == 8, s.r[ins.src]), s.r[0], w == 8).Some?
    ensures var res := AtomicOp(Operation(ins.imm), c, Wrap(w == 8, s.r[ins.src]), s.r[0], w == 8).value;
            AtomicAt(ins, pc, s, Map, 0, w).Next? &&
            AtomicAt(ins, pc, s, Map, 0, w).s.mem == s.mem.Set(Map, StoreLE(s.mem.mapv, 0, w, res))
  {
    assert Operation(ins.imm) == ins.imm - ins.imm % 2 && Wrap(true, c) == c;
  }

  /** What the operation stores at a cell that holds c. */
  function Replaced(ins: Insn, s: State, w: nat, c: u64): Option<u64>
    requires s.Valid() && ins.src <= 10
  {
    AtomicOp(Operation(ins.imm), c, Wrap(w == 8, s.r[ins.src]), s.r[0], w == 8)
  }

  predicate SmallAndApart(x: Option<u64>, y: Option<u64>) {
    x.Some? && y.Some? && x.value != y.value && x.value < TWO32 && y.value < TWO32
  }

  lemma ArmedStep(q: Program, pc: nat, s: State, w: nat, c: u64)
    requires pc < |q| && s.Valid() && q[pc].dst <= 10 && q[pc].src <= 10 && (w == 4 || w == 8)
    requires Class(q[pc].code) == STX && Mode(q[pc].code) == MODE_ATOMIC && w == AccessWidth(q[pc].code) &&
             q[pc].off == 0
    requires Resolve(Address(s, q[pc].dst, 0), w) == Hit(Map, 0) && LoadLE(s.mem.mapv, 0, w) == c
    requires Replaced(q[pc], s, w, c).Some?
    ensures Step(q, pc, s).Next?
    ensures Step(q, pc, s).s.mem == s.mem.Set(Map, StoreLE(s.mem.mapv, 0, w, Replaced(q[pc], s, w, c).value))
  {
    AtomicSteps(q, pc, s, w);
    AtomicStores(q[pc], pc, s, w, c);
  }

  /** Two states at the armed cell whose atomics store different values. */
  lemma AtomicsApart(kf: Kfuncs, p: Program, pc: nat, r: nat, ins: Insn, a: State, x: u64, w: nat, c: u64)
    requires pc < |p| && Meaningful(p[pc]) && Class(p[pc].code) == STX && Mode(p[pc].code) == MODE_ATOMIC
    requires ins == p[pc].(off := 0) && r <= 10 && r != ins.dst && a.Valid() && w == AccessWidth(ins.code)
    requires Resolve(Address(a, ins.dst, 0), w) == Hit(Map, 0) && LoadLE(a.mem.mapv, 0, w) == c
    requires SmallAndApart(Replaced(ins, a, w, c), Replaced(ins, a.(r := a.r[r := x]), w, c))
    ensures IsRead(kf, p, pc, r)
  {
    var q, b := Swapped(p, pc, ins), a.(r := a.r[r := x]);
    assert Address(b, ins.dst, 0) == Address(a, ins.dst, 0);
    ArmedStep(q, pc, a, w, c);
    ArmedStep(q, pc, b, w, c);
    StoresApart(a.mem.mapv, w, Replaced(ins, a, w, c).value, Replaced(ins, b, w, c).value);
    AtomicDefines(kf, ins);
    MemoryShows(kf, p, pc, r, ins, a, x);
  }

  lemma AtomicDefines(kf: Kfuncs, ins: Insn)
    requires Class(ins.code) == STX && Mode(ins.code) == MODE_ATOMIC
    ensures UseDef(kf, ins).Some?
  {
  }

  lemma AtomicSteps(q: Program, pc: nat, s: State, w: nat)
    requires pc < |q| && s.Valid() && q[pc].dst <= 10 && q[pc].src <= 10 && (w == 4 || w == 8)
    requires Class(q[pc].code) == STX && Mode(q[pc].code) == MODE_ATOMIC && w == AccessWidth(q[pc].code) &&
             q[pc].off == 0
    requires Resolve(Address(s, q[pc].dst, 0), w) == Hit(Map, 0)
    ensures Step(q, pc, s) == AtomicAt(q[pc], pc, s, Map, 0, w)
  {
    assert Width(q[pc].code) == w;
  }

  /** Different memory after is enough. */
  lemma MemoryShows(kf: Kfuncs, p: Program, pc: nat, r: nat, ins: Insn, a: State, x: u64)
    requires pc < |p| && r <= 10 && Variant(p[pc], ins) && a.Valid() && UseDef(kf, ins).Some?
    requires var q, b := Swapped(p, pc, ins), a.(r := a.r[r := x]);
             Step(q, pc, a).Next? && Step(q, pc, b).Next? && Step(q, pc, a).s.mem != Step(q, pc, b).s.mem
    ensures IsRead(kf, p, pc, r)
  {
    assert TellsApart(kf, p, pc, r, ins, a, x);
  }

  lemma AtomicSourceRead(kf: Kfuncs, p: Program, pc: nat)
    requires pc < |p| && Meaningful(p[pc]) && p[pc].dst != p[pc].src
    requires Class(p[pc].code) == STX && Mode(p[pc].code) == MODE_ATOMIC
    requires !(Operation(p[pc].imm) == 0xf0 && p[pc].src == 0)
    ensures IsRead(kf, p, pc, p[pc].src)
  {
    var ins, op := p[pc].(off := 0), Operation(p[pc].imm);
    var w, c := AccessWidth(ins.code), if op == 0xf0 then Cell(ins.dst) else 1;
    var a := Armed(ins.dst, ins.src, 0, 1, w, c);
    ArmedCell(ins.dst, ins.src, 0, 1, w, c);
    SourceValues(ins, op, w == 8, a, c);
    AtomicsApart(kf, p, pc, ins.src, ins, a, 3, w, c);
  }

  lemma SourceValues(ins: Insn, op: int, wide: bool, a: State, c: u64)
    requires ins.dst <= 10 && ins.src <= 10 && ins.dst != ins.src && a.Valid() && KnownOperation(op)
    requires a.r[ins.src] == 0 && c == (if op == 0xf0 then Cell(ins.dst) else 1)
    requires op == 0xf0 ==> ins.src != 0 && a.r[0] == c
    ensures var b := a.(r := a.r[ins.src := 3]);
            var va := AtomicOp(op, c, Wrap(wide, a.r[ins.src]), a.r[0], wide);
            var vb := AtomicOp(op, c, Wrap(wide, b.r[ins.src]), b.r[0], wide);
            va.Some? && vb.Some? && va.value != vb.value && va.value < TWO32 && vb.value < TWO32
  {
    SourceMatters(op, wide, ins.dst);
    SmallWraps(wide, 0);
    SmallWraps(wide, 3);
    if op != 0xf0 {
      IgnoresR0(op, c, 0, a.r[0], wide);
      IgnoresR0(op, c, 3, a.(r := a.r[ins.src := 3]).r[0], wide);
    }
  }

  lemma IgnoresR0(op: int, c: u64, sv: u64, r0: u64, wide: bool)
    requires op != 0xf0
    ensures AtomicOp(op, c, sv, r0, wide) == AtomicOp(op, c, sv, c, wide)
  {
  }

  lemma ComparedRead(kf: Kfuncs, p: Program, pc: nat)
    requires pc < |p| && Meaningful(p[pc]) && p[pc].dst != 0 && p[pc].src != 0 && p[pc].dst != p[pc].src
    requires CompareExchange(p[pc])
    ensures IsRead(kf, p, pc, 0)
  {
    var ins := p[pc].(off := 0);
    var w := AccessWidth(ins.code);
    var a := Armed(ins.dst, ins.src, 1, 0, w, 0);
    ArmedCell(ins.dst, ins.src, 1, 0, w, 0);
    SmallWraps(w == 8, 0);
    SmallWraps(w == 8, 1);
    AtomicsApart(kf, p, pc, 0, ins, a, 1, w, 0);
  }

  // ---- witnesses: jumps --------------------------------------------------------------------------------------------

  /** A second operand that tells a first one of 0 from 1, and the other way round. */
  function Bound(op: bv8): u64 {
    if op == 0x30 || op == 0x70 || op == 0xa0 || op == 0xc0 || op == 0x40 then 1 else 0
  }

  function Bounded(op: bv8): u64 {
    if op == 0x20 || op == 0x60 || op == 0xb0 || op == 0xd0 || op == 0x40 then 1 else 0
  }

  lemma OneBit()
    ensures ShareBit(1, 1) && !ShareBit(0, 1) && !ShareBit(1, 0)
  {
    assert BitSet(1, 0);
    forall k: nat ensures !BitSet(0, k) { ZeroHasNoBits(k); }
  }

  lemma SmallLow(is64: bool)
    ensures Low(is64, 0) == 0 == TwosComplement(is64, 0) && Low(is64, 1) == 1 == TwosComplement(is64, 1)
  {
  }

  lemma RelationTells(op: bv8, is64: bool)
    requires Conditional(op)
    ensures Asks(op, is64, 0, Bound(op)) != Asks(op, is64, 1, Bound(op))
    ensures Asks(op, is64, Bounded(op), 0) != Asks(op, is64, Bounded(op), 1)
  {
    OneBit();
    SmallLow(is64);
  }

  lemma JumpRead(kf: Kfuncs, p: Program, pc: nat, r: nat)
    requires pc < |p| && p[pc].dst <= 10 && p[pc].src <= 10 && p[pc].dst != p[pc].src
    requires (Class(p[pc].code) == JMP || Class(p[pc].code) == JMP32) && Conditional(Op(p[pc].code))
    requires r == p[pc].dst || (r == p[pc].src && SrcIsReg(p[pc].code))
    ensures IsRead(kf, p, pc, r)
  {
    var op, is64 := Op(p[pc].code), Class(p[pc].code) == JMP;
    var y := if r == p[pc].dst then Bound(op) else 0;
    var ins := p[pc].(off := 1, imm := y);
    var a := Two(ins.dst, if r == ins.dst then 0 else Bounded(op), ins.src, y);
    var q, b := Swapped(p, pc, ins), a.(r := a.r[r := 1]);
    RelationTells(op, is64);
    Branches(q, pc, a, op, is64, SecondOperand(ins, a));
    Branches(q, pc, b, op, is64, SecondOperand(ins, b));
    JumpDefines(kf, ins);
    Shows(kf, p, pc, r, ins, a, 1);
  }

  lemma JumpDefines(kf: Kfuncs, ins: Insn)
    requires (Class(ins.code) == JMP || Class(ins.code) == JMP32) && Conditional(Op(ins.code))
    ensures UseDef(kf, ins).Some?
  {
  }

  lemma Branches(q: Program, pc: nat, s: State, op: bv8, is64: bool, y: int)
    requires pc < |q| && s.Valid() && q[pc].dst <= 10 && q[pc].src <= 10 && Conditional(op)
    requires Class(q[pc].code) == (if is64 then JMP else JMP32) && Op(q[pc].code) == op
    requires y == SecondOperand(q[pc], s)
    ensures Step(q, pc, s) == Next(if Asks(op, is64, s.r[q[pc].dst], y) then pc + 1 + q[pc].off else pc + 1, s)
  {
    JumpsGo(q, pc, s);
  }

  lemma ExitRead(kf: Kfuncs, p: Program, pc: nat)
    requires pc < |p| && p[pc].dst <= 10 && p[pc].src <= 10 && Class(p[pc].code) == JMP && Op(p[pc].code) == 0x90
    ensures IsRead(kf, p, pc, 0)
  {
    var a := Two(0, 0, 0, 0);
    var b := a.(r := a.r[0 := 1]);
    JumpsGo(p, pc, a);
    JumpsGo(p, pc, b);
    assert Swapped(p, pc, p[pc]) == p;
    Shows(kf, p, pc, 0, p[pc], a, 1);
  }

  // ---- the two registers listed and never read
  // -----------------------------------------------------------------------

  /** A compare-exchange whose source is r0 stores the old value whatever r0 is. */
  predicate SwapsR0(ins: Insn) { CompareExchange(ins) && ins.src == 0 }

  lemma EqualOrOld(was: u64, r0: u64, wide: bool)
    requires was < Modulus(wide)
    ensures AtomicOp(0xf0, was, Wrap(wide, r0), r0, wide) == Some(was)
  {
    RemainderIs(was, Modulus(wide), 0, was);
  }

  lemma SwapIgnoresR0(ins: Insn, pc: nat, a: State, x: u64, g: Region, i: nat, w: nat)
    requires a.Valid() && ins.dst <= 10 && SwapsR0(ins) && i + w <= RegionSize(g) && (w == 4 || w == 8)
    ensures var b := a.(r := a.r[0 := x]); AtomicAt(ins, pc, a, g, i, w) == AtomicAt(ins, pc, b, g, i, w)
  {
    var b := a.(r := a.r[0 := x]);
    var was := CellSpells(a, g, i, w);
    EqualOrOld(was, a.r[0], w == 8);
    EqualOrOld(was, x, w == 8);
    assert Wrap(true, was) == was && Operation(ins.imm) == ins.imm - ins.imm % 2;
    assert a.r[0 := was] == b.r[0 := was];
  }

  lemma SwapIsDeaf(kf: Kfuncs, p: Program, pc: nat)
    requires pc < |p| && Meaningful(p[pc]) && SwapsR0(p[pc]) && p[pc].dst != 0
    ensures !IsRead(kf, p, pc, 0)
  {
    forall ins, a, x ensures !TellsApart(kf, p, pc, 0, ins, a, x) {
      if Variant(p[pc], ins) && a.Valid() {
        var q, b, w := Swapped(p, pc, ins), a.(r := a.r[0 := x]), AccessWidth(ins.code);
        assert Width(ins.code) == w && (w == 4 || w == 8);
        assert Address(b, ins.dst, ins.off) == Address(a, ins.dst, ins.off);
        var at := Resolve(Address(a, ins.dst, ins.off), w);
        if at.Hit? {
          SwapIgnoresR0(ins, pc, a, x, at.region, at.index, w);
        }
        assert Step(q, pc, a) == StepAtomic(ins, pc, a) && Step(q, pc, b) == StepAtomic(ins, pc, b);
      }
    }
  }

  lemma NegationSteps(kf: Kfuncs, q: Program, pc: nat, a: State, x: u64)
    requires pc < |q| && a.Valid() && q[pc].dst <= 10 && q[pc].src <= 10 && q[pc].dst != q[pc].src &&
             NegatesRegister(q[pc])
    ensures UseDef(kf, q[pc]).Some?
    ensures var b := a.(r := a.r[q[pc].src := x]);
            SameOutcome(UseDef(kf, q[pc]).value.def, a, b, Step(q, pc, a), Step(q, pc, b))
  {
    var b := a.(r := a.r[q[pc].src := x]);
    assert Step(q, pc, a) == StepAlu(q[pc], pc, a) && Step(q, pc, b) == StepAlu(q[pc], pc, b);
  }

  lemma NegationIsDeaf(kf: Kfuncs, p: Program, pc: nat)
    requires pc < |p| && Meaningful(p[pc]) && NegatesRegister(p[pc]) && p[pc].dst != p[pc].src
    ensures !IsRead(kf, p, pc, p[pc].src)
  {
    forall ins, a, x ensures !TellsApart(kf, p, pc, p[pc].src, ins, a, x) {
      if Variant(p[pc], ins) && a.Valid() {
        NegationSteps(kf, Swapped(p, pc, ins), pc, a, x);
      }
    }
  }

  // ---- the theorem
  // ------------------------------------------------------------------------------------------------------

  /** Every register an instruction with a meaning is said to use is read by it under some offset and immediate,
      but for exactly two: the source of a negation, and r0 as the source of a compare-exchange. */
  lemma UsesAreRead(kf: Kfuncs, p: Program, pc: nat, r: nat)
    requires pc < |p| && Meaningful(p[pc]) && p[pc].dst != p[pc].src && UseDef(kf, p[pc]).Some?
    requires r <= 10 && r in UseDef(kf, p[pc]).value.use
    ensures IsRead(kf, p, pc, r) <==>
            !(NegatesRegister(p[pc]) && r == p[pc].src) && !(SwapsR0(p[pc]) && r == 0 && p[pc].dst != 0)
  {
    var ins, cls := p[pc], Class(p[pc].code);
    if NegatesRegister(ins) && r == ins.src {
      NegationIsDeaf(kf, p, pc);
    } else if SwapsR0(ins) && r == 0 && ins.dst != 0 {
      SwapIsDeaf(kf, p, pc);
    } else if cls == ALU || cls == ALU64 {
      AluRead(kf, p, pc, r);
    } else if cls == JMP || cls == JMP32 {
      if Conditional(Op(ins.code)) {
        JumpRead(kf, p, pc, r);
      } else {
        ExitRead(kf, p, pc);
      }
    } else if cls == LDX || r == ins.dst {
      AddressRead(kf, p, pc, r);
    } else {
      OperandRead(kf, p, pc, r);
    }
  }

  /** What a store or an atomic reads besides its address. */
  lemma OperandRead(kf: Kfuncs, p: Program, pc: nat, r: nat)
    requires pc < |p| && Meaningful(p[pc]) && p[pc].dst != p[pc].src && UseDef(kf, p[pc]).Some?
    requires Class(p[pc].code) == ST || Class(p[pc].code) == STX
    requires r <= 10 && r in UseDef(kf, p[pc]).value.use && r != p[pc].dst && !(SwapsR0(p[pc]) && r == 0)
    ensures IsRead(kf, p, pc, r)
  {
    var ins := p[pc];
    if Mode(ins.code) == MODE_MEM {
      StoredRead(kf, p, pc);
    } else if r == ins.src {
      AtomicSourceRead(kf, p, pc);
    } else {
      ComparedRead(kf, p, pc);
    }
  }

  // ---- successors
  // ---------------------------------------------------------------------------------------------------------

  /** Some state goes from pc to t, under the slot's own offset. */
  ghost predicate IsReached(p: Program, pc: nat, ins: Insn, t: int)
    requires pc < |p|
  {
    exists s: State :: s.Valid() && Step(Swapped(p, pc, ins), pc, s).Next? && Step(Swapped(p, pc, ins), pc, s).pc == t
  }

  /** Of a conditional jump both the target and the next slot are reached, under some immediate. */
  lemma BothAreReached(p: Program, pc: nat)
    requires pc < |p| && p[pc].dst <= 10 && p[pc].src <= 10 && p[pc].dst != p[pc].src
    requires (Class(p[pc].code) == JMP || Class(p[pc].code) == JMP32) && Conditional(Op(p[pc].code))
    ensures exists imm: i32 :: IsReached(p, pc, p[pc].(imm := imm), pc + 1 + p[pc].off)
    ensures exists imm: i32 :: IsReached(p, pc, p[pc].(imm := imm), pc + 1)
  {
    var op, is64 := Op(p[pc].code), Class(p[pc].code) == JMP;
    var y := Bound(op);
    var ins := p[pc].(imm := y);
    var q, a, b := Swapped(p, pc, ins), Two(ins.dst, 0, ins.src, y), Two(ins.dst, 1, ins.src, y);
    RelationTells(op, is64);
    Branches(q, pc, a, op, is64, y);
    Branches(q, pc, b, op, is64, y);
    if Asks(op, is64, 0, y) {
      assert IsReached(p, pc, ins, pc + 1 + ins.off) by { assert Step(q, pc, a).Next?; }
      assert IsReached(p, pc, ins, pc + 1) by { assert Step(q, pc, b).Next?; }
    } else {
      assert IsReached(p, pc, ins, pc + 1 + ins.off) by { assert Step(q, pc, b).Next?; }
      assert IsReached(p, pc, ins, pc + 1) by { assert Step(q, pc, a).Next?; }
    }
  }

  /** Where a slot may continue, by opcode: an exit nowhere, an unconditional jump at its target, a conditional
      one at its target and, inside the program, at the next slot, anything else at the next slot, two on
      after an LD_IMM64.  None for a jump through a register, and for a target outside the program. */
  lemma ContinuesAt(p: Program, i: nat)
    requires i < |p|
    ensures var (code, n) := (p[i].code, |p|);
            var (cls, op) := (code & 0x07, code & 0xf0);
            var next := if code == 0x18 then i + 2 else i + 1;
            var target := i + 1 + if op == 0x00 && cls == 0x06 then p[i].imm else p[i].off;
            if (cls != 0x05 && cls != 0x06) || op == 0x80 then Succ(p, i) == if next < n then Some([next]) else None
            else if op == 0x90 then Succ(p, i) == Some([])
            else if op == 0x00 then
              Succ(p, i) == if code & 0x08 == 0 && 0 <= target < n then Some([target]) else None
            else
              Succ(p, i) == if !(0 <= target < n) then None else Some(if next < n then [target, next] else [target])
  {
    var target, next := i + 1 + p[i].off, i + 1;
    assert [target] + [next] == [target, next] && [target] + [] == [target];
  }

  // ---- what the interpreter does not run
  // -------------------------------------------------------------------------------------

  /** The argument counts of the helpers the harness emits. */
  const Prototypes: map<int, nat> :=
    map[1 := 2, 2 := 4, 3 := 2, 6 := 2, 7 := 0, 84 := 5, 86 := 1, 197 := 4, 198 := 4, 199 := 2, 200 := 2]

  lemma {:induction false} ArgumentsAre(argc: Arity, r: int)
    ensures r in ArgRegs(argc) <==> 1 <= r <= argc
    decreases argc
  {
    if argc > 0 {
      ArgumentsAre(argc - 1, r);
    }
  }

  lemma CallLists(argc: Option<Arity>, r: int)
    ensures CallEffect(argc).Some? <==> argc.Some?
    ensures argc.Some? ==> (r in CallEffect(argc).value.use <==> 1 <= r <= argc.value)
    ensures argc.Some? ==> (r in CallEffect(argc).value.def <==> 0 <= r <= 5)
  {
    if argc.Some? {
      ArgumentsAre(argc.value, r);
    }
  }

  /** How many arguments a call passes, where that is known: a listed helper's, or a registered kfunc's. */
  function Passed(kf: Kfuncs, ins: Insn): Option<nat> {
    if ins.src == 0 && ins.imm in Prototypes then Some(Prototypes[ins.imm])
    else if ins.src == 2 && ins.imm in kf then Some(kf[ins.imm])
    else None
  }

  lemma PassedIs(kf: Kfuncs, ins: Insn)
    ensures Passed(kf, ins) ==
            if ins.src == 2 then (if ins.imm in kf then Some(kf[ins.imm]) else None)
            else if ins.src == 0 then (if HelperArgc(ins.imm).Some? then Some(HelperArgc(ins.imm).value) else None)
            else None
  {
  }

  /** A call reads its arguments r1, r2, ... and clobbers r0 to r5, and is outside the model when the number of
      arguments is not known. */
  lemma CallsRead(kf: Kfuncs, ins: Insn, r: int)
    requires (ins.code & 0x07 == 0x05 || ins.code & 0x07 == 0x06) && ins.code & 0xf0 == 0x80
    ensures UseDef(kf, ins).Some? <==> Passed(kf, ins).Some?
    ensures Passed(kf, ins).Some? ==>
              && (r in UseDef(kf, ins).value.use <==> 1 <= r <= Passed(kf, ins).value)
              && (r in UseDef(kf, ins).value.def <==> 0 <= r <= 5)
  {
    PassedIs(kf, ins);
    CallLists(if ins.src == 2 then (if ins.imm in kf then Some(kf[ins.imm]) else None) else HelperArgc(ins.imm), r);
  }

  /** The other instructions without a meaning in the interpreter: a byte swap reads and writes its register, a
      load-acquire reads its source as an address and writes its destination, a store-release reads both, and
      may_goto and the absolute loads read nothing, the latter being outside the model. */
  lemma OthersList(kf: Kfuncs, ins: Insn)
    ensures var (cls, op, d, s) := (ins.code & 0x07, ins.code & 0xf0, {ins.dst}, {ins.src});
            && ((cls == 0x04 || cls == 0x07) && op == 0xd0 ==> UseDef(kf, ins) == Some(Effect(d, d)))
            && (cls == 0x03 && ins.code & 0xe0 == 0xc0 && ins.imm == 0x100 ==> UseDef(kf, ins) == Some(Effect(s, d)))
            && (cls == 0x03 && ins.code & 0xe0 == 0xc0 && ins.imm == 0x110 ==>
                UseDef(kf, ins) == Some(Effect(d + s, {})))
            && ((cls == 0x05 || cls == 0x06) && op == 0xe0 ==> UseDef(kf, ins) == Some(Effect({}, {})))
            && (cls == 0x00 ==> UseDef(kf, ins) == if ins.code == 0x18 then Some(Effect({}, d)) else None)
  {
  }

  /** Everything but the other LD forms and the calls just told is inside the model. */
  lemma InsideTheModel(kf: Kfuncs, ins: Insn)
    ensures UseDef(kf, ins).Some? <==>
            if ins.code & 0x07 == 0x00 then ins.code == 0x18
            else if (ins.code & 0x07 == 0x05 || ins.code & 0x07 == 0x06) &&
                ins.code & 0xf0 == 0x80 then Passed(kf, ins).Some?
            else true
  {
    PassedIs(kf, ins);
  }

  // ---- the slots that are decoded
  // ----------------------------------------------------------------------------------------------

  /** Where decoding from slot i on stops, one slot or two at a time. */
  function DecodedFrom(p: Program, i: nat): set<nat>
    decreases |p| - i
  {
    if i >= |p| then {} else {i} + DecodedFrom(p, if p[i].code == 0x18 then i + 2 else i + 1)
  }

  /** A slot is the second half of an LD_IMM64 exactly when decoding from the start passes over it. */
  lemma TailsAreSkipped(p: Program, i: nat)
    requires i < |p|
    ensures IsTail(p, i) <==> i !in DecodedFrom(p, 0)
  {
    DecodingSkips(p, 0, i);
  }

  lemma {:induction false} DecodingSkips(p: Program, from: nat, i: nat)
    requires i < |p| && from <= |p| + 1 && (from < |p| ==> !IsTail(p, from))
    ensures i < from ==> i !in DecodedFrom(p, from)
    ensures from <= i ==> (IsTail(p, i) <==> i !in DecodedFrom(p, from))
    decreases |p| + 1 - from
  {
    if from < |p| {
      DecodingSkips(p, if p[from].code == 0x18 then from + 2 else from + 1, i);
    }
  }

  /** A program is accepted when it has 1 to 8192 slots and each decoded one is inside the model with its targets
      in the program. */
  lemma AcceptedIff(kf: Kfuncs, p: Program)
    ensures Accepts(kf, p) <==>
            && 1 <= |p| <= 8192
            && forall i :: 0 <= i < |p| && i in DecodedFrom(p, 0) ==> UseDef(kf, p[i]).Some? && Succ(p, i).Some?
  {
    forall i | 0 <= i < |p|
      ensures SlotOk(kf, p, i) <==> (i in DecodedFrom(p, 0) ==> UseDef(kf, p[i]).Some? && Succ(p, i).Some?)
    {
      TailsAreSkipped(p, i);
    }
  }
}
