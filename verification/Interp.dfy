/** `bpfref.h`: what one instruction does to registers, memory and the program counter, as a
    function of the machine state, and runs of such steps under a budget. */
module Interp {
  import opened Isa
  import opened Bits

  // ---- arithmetic -----------------------------------------------------------------------

  function Modulus(is64: bool): int { if is64 then TWO64 else TWO32 }

  /** A cast to `uint64_t` or `uint32_t`. */
  function Wrap(is64: bool, x: int): u64 { x % Modulus(is64) }

  /** The two's-complement reading of x in a field of the given modulus. */
  function Signed(modulus: int, x: int): int
    requires modulus > 0
  {
    var y := x % modulus;
    if 2 * y < modulus then y else y - modulus
  }

  function Abs(x: int): nat { if x < 0 then -x else x }

  /** C division truncates toward zero and its remainder takes the dividend's sign. */
  function TruncDiv(a: int, b: int): int
    requires b != 0
  {
    if (a < 0) == (b < 0) then Abs(a) / Abs(b) else -(Abs(a) / Abs(b))
  }

  function TruncMod(a: int, b: int): int
    requires b != 0
  {
    if a < 0 then -(Abs(a) % Abs(b)) else Abs(a) % Abs(b)
  }

  function DivU(is64: bool, a: u64, b: u64): u64 {
    if b == 0 then 0 else Wrap(is64, a / b)
  }

  function ModU(is64: bool, a: u64, b: u64): u64 {
    if b == 0 then Wrap(is64, a) else Wrap(is64, a % b)
  }

  predicate Overflows(is64: bool, a: int, b: int) {
    b == -1 && 2 * a == -Modulus(is64)
  }

  function DivS(is64: bool, x: u64, y: u64): u64 {
    var a, b := Signed(Modulus(is64), x), Signed(Modulus(is64), y);
    if b == 0 then 0
    else if Overflows(is64, a, b) then Wrap(is64, a)
    else Wrap(is64, TruncDiv(a, b))
  }

  function ModS(is64: bool, x: u64, y: u64): u64 {
    var a, b := Signed(Modulus(is64), x), Signed(Modulus(is64), y);
    if b == 0 then Wrap(is64, x)
    else if Overflows(is64, a, b) then 0
    else Wrap(is64, TruncMod(a, b))
  }

  /** The result of an ALU instruction on destination d and operand v, or None when refused.
      x says that the operand came from a register.  A 32-bit result has a zero upper half. */
  function Alu(is64: bool, op: bv8, x: bool, off: i16, d: u64, v: u64): (r: Option<u64>)
    ensures r.Some? ==> r.value < Modulus(is64)
  {
    var a, b := Wrap(is64, d), Wrap(is64, v);
    var amount := if x then v % (if is64 then 64 else 32) else v;
    if op == 0x00 then Some(Wrap(is64, a + b))
    else if op == 0x10 then Some(Wrap(is64, a - b))
    else if op == 0x20 then Some(Wrap(is64, a * b))
    else if op == 0x40 then Some(Wrap(is64, Or(a, b)))
    else if op == 0x50 then Some(Wrap(is64, And(a, b)))
    else if op == 0xa0 then Some(Wrap(is64, Xor(a, b)))
    else if op == 0x60 then Some(Wrap(is64, a * Pow2(amount)))
    else if op == 0x70 then Some(Wrap(is64, a / Pow2(amount)))
    else if op == 0xc0 then Some(Wrap(is64, Signed(Modulus(is64), d) / Pow2(amount)))
    else if op == 0x80 then Some(Wrap(is64, 0 - a))
    else if op == 0xb0 then
      if off == 0 then Some(b)
      else if !x then None
      else if off == 8 then Some(Wrap(is64, Signed(TWO8, v)))
      else if off == 16 then Some(Wrap(is64, Signed(TWO16, v)))
      else if off == 32 then Some(Wrap(is64, Signed(TWO32, v)))
      else None
    else if op == 0x30 then
      if off == 0 then Some(DivU(is64, a, b)) else if off == 1 then Some(DivS(is64, d, v)) else None
    else if op == 0x90 then
      if off == 0 then Some(ModU(is64, a, b)) else if off == 1 then Some(ModS(is64, d, v)) else None
    else None
  }

  /** Whether a conditional jump is taken, or None when the comparison is refused. */
  function Taken(op: bv8, j32: bool, dst: u64, operand: u64): Option<bool> {
    var a, b := Wrap(!j32, dst), Wrap(!j32, operand);
    var sa, sb := Signed(Modulus(!j32), a), Signed(Modulus(!j32), b);
    if op == 0x10 then Some(a == b)
    else if op == 0x50 then Some(a != b)
    else if op == 0x20 then Some(a > b)
    else if op == 0x30 then Some(a >= b)
    else if op == 0xa0 then Some(a < b)
    else if op == 0xb0 then Some(a <= b)
    else if op == 0x40 then Some(And(a, b) != 0)
    else if op == 0x60 then Some(sa > sb)
    else if op == 0x70 then Some(sa >= sb)
    else if op == 0xc0 then Some(sa < sb)
    else if op == 0xd0 then Some(sa <= sb)
    else None
  }

  // ---- memory ---------------------------------------------------------------------------

  const STACK := 512
  const STACK_BASE := 0x20000
  const MAP_BASE := 0x10000
  const MAP_SIZE := 16
  const PKT_BASE := 0x30000
  const PKT_SIZE := 64

  datatype Region = Stack | Map | Pkt

  function RegionSize(g: Region): nat {
    match g
    case Stack => STACK
    case Map => MAP_SIZE
    case Pkt => PKT_SIZE
  }

  type Bytes = seq<u8>

  datatype Memory = Memory(stack: Bytes, mapv: Bytes, pkt: Bytes) {
    predicate Valid() {
      |stack| == STACK && |mapv| == MAP_SIZE && |pkt| == PKT_SIZE
    }
    function Get(g: Region): Bytes {
      match g
      case Stack => stack
      case Map => mapv
      case Pkt => pkt
    }
    function Set(g: Region, b: Bytes): Memory {
      match g
      case Stack => this.(stack := b)
      case Map => this.(mapv := b)
      case Pkt => this.(pkt := b)
    }
  }

  /** Wild is the pointer the C code hands back when addr + size wraps past 2^64: not null,
      and outside every region, so using it is undefined there. */
  datatype Resolved = Hit(region: Region, index: nat) | Miss | Wild

  function At(g: Region, index: nat, size: nat): Resolved {
    if index + size <= RegionSize(g) then Hit(g, index) else Wild
  }

  function Resolve(addr: u64, size: nat): (r: Resolved)
    requires size <= 8
    ensures r.Hit? ==> r.index + size <= RegionSize(r.region)
  {
    var end := Wrap(true, addr + size);
    if addr >= STACK_BASE - STACK && end <= STACK_BASE then At(Stack, addr - (STACK_BASE - STACK), size)
    else if addr >= MAP_BASE && end <= MAP_BASE + MAP_SIZE then At(Map, addr - MAP_BASE, size)
    else if addr >= PKT_BASE && end <= PKT_BASE + PKT_SIZE then At(Pkt, addr - PKT_BASE, size)
    else Miss
  }

  function RegionBase(g: Region): nat {
    match g
    case Stack => STACK_BASE - STACK
    case Map => MAP_BASE
    case Pkt => PKT_BASE
  }

  /** The access lies inside the region. */
  predicate Inside(g: Region, addr: u64, size: nat) {
    RegionBase(g) <= addr && addr + size <= RegionBase(g) + RegionSize(g)
  }

  /** An access resolves to a region exactly when it lies inside it, and to no region's byte at all
      exactly when its end reaches 2^64, the last address included. */
  lemma ResolveExactly(addr: u64, size: nat)
    requires size <= 8
    ensures forall g, i :: Resolve(addr, size) == Hit(g, i) <==> Inside(g, addr, size) && i == addr - RegionBase(g)
    ensures Resolve(addr, size) == Wild <==> addr + size >= TWO64
  {
    if addr + size >= TWO64 {
      assert Wrap(true, addr + size) == addr + size - TWO64;
    }
  }

  function Pow256(n: nat): (r: nat)
    ensures r > 0
  {
    if n == 0 then 1 else 256 * Pow256(n - 1)
  }

  /** w bytes from index i, little-endian. */
  function LoadLE(b: Bytes, i: nat, w: nat): (r: nat)
    requires i + w <= |b|
    ensures r < Pow256(w)
    decreases w
  {
    if w == 0 then 0 else b[i] + 256 * LoadLE(b, i + 1, w - 1)
  }

  /** The w low bytes of v over b from index i on. */
  function StoreLE(b: Bytes, i: nat, w: nat, v: nat): (r: Bytes)
    requires i + w <= |b|
    ensures |r| == |b|
    decreases w
  {
    if w == 0 then b else StoreLE(b[i := v % 256], i + 1, w - 1, v / 256)
  }

  lemma {:induction false} StoreFrame(b: Bytes, i: nat, w: nat, v: nat, j: nat)
    requires i + w <= |b| && j < |b| && (j < i || i + w <= j)
    ensures StoreLE(b, i, w, v)[j] == b[j]
    decreases w
  {
    if w > 0 {
      StoreFrame(b[i := v % 256], i + 1, w - 1, v / 256, j);
    }
  }

  /** A load of what was just stored gives back the stored value, cut to the access width. */
  lemma {:induction false} LoadAfterStore(b: Bytes, i: nat, w: nat, v: nat)
    requires i + w <= |b|
    ensures LoadLE(StoreLE(b, i, w, v), i, w) == v % Pow256(w)
    decreases w
  {
    if w > 0 {
      var low := b[i := v % 256];
      LoadAfterStore(low, i + 1, w - 1, v / 256);
      StoreFrame(low, i + 1, w - 1, v / 256, i);
      SplitByte(v, Pow256(w - 1));
    }
  }

  lemma StoreDiffers(b: Bytes, i: nat, w: nat, x: nat, y: nat)
    requires i + w <= |b| && x % Pow256(w) != y % Pow256(w)
    ensures StoreLE(b, i, w, x) != StoreLE(b, i, w, y)
  {
    LoadAfterStore(b, i, w, x);
    LoadAfterStore(b, i, w, y);
  }

  lemma SplitByte(v: nat, m: nat)
    requires m > 0
    ensures v % 256 + 256 * ((v / 256) % m) == v % (256 * m)
  {
    var q, r := v / 256, v % 256;
    var k, rest := q / m, q % m;
    var x := r + 256 * rest;
    assert v == x + (256 * m) * k;
    RemainderIs(v, 256 * m, k, x);
  }

  // ---- one step -------------------------------------------------------------------------

  datatype Status = OK | UNSUPPORTED | OOB | LOOP | BADPC | WILD

  datatype Result = Result(status: Status, retval: u64, faultPc: int, faultCode: bv8)

  /** r0..r10 and the three memory regions. */
  datatype State = State(r: seq<u64>, mem: Memory) {
    predicate Valid() {
      |r| == 11 && mem.Valid()
    }
  }

  datatype Outcome = Next(pc: int, s: State) | Halt(result: Result)

  function Fault(status: Status, pc: int, ins: Insn): Outcome {
    Halt(Result(status, 0, pc, ins.code))
  }

  function Width(code: bv8): nat {
    var size := Size(code);
    if size == 0x10 then 1 else if size == 0x08 then 2 else if size == 0x00 then 4 else 8
  }

  function Address(s: State, reg: nat, off: i16): u64
    requires s.Valid() && reg <= 10
  {
    Wrap(true, s.r[reg] + off)
  }

  function StepAlu(ins: Insn, pc: int, s: State): Outcome
    requires s.Valid() && ins.dst <= 10 && ins.src <= 10
  {
    var is64 := Class(ins.code) == ALU64;
    var v := if SrcIsReg(ins.code) then s.r[ins.src] else Wrap(is64, ins.imm);
    match Alu(is64, Op(ins.code), SrcIsReg(ins.code), ins.off, s.r[ins.dst], v)
    case None => Fault(UNSUPPORTED, pc, ins)
    case Some(res) => Next(pc + 1, s.(r := s.r[ins.dst := res]))
  }

  function StepLd(p: Program, pc: int, s: State): Outcome
    requires s.Valid() && 0 <= pc < |p| && p[pc].dst <= 10
  {
    var ins := p[pc];
    if ins.code != LD_IMM64 || ins.src != 0 then Fault(UNSUPPORTED, pc, ins)
    else if pc + 1 >= |p| then Fault(BADPC, pc, ins)
    else Next(pc + 2, s.(r := s.r[ins.dst := Wrap(false, ins.imm) + TWO32 * Wrap(false, p[pc + 1].imm)]))
  }

  function StepLdx(ins: Insn, pc: int, s: State): Outcome
    requires s.Valid() && ins.dst <= 10 && ins.src <= 10
  {
    var w := Width(ins.code);
    match Resolve(Address(s, ins.src, ins.off), w)
    case Miss => Fault(OOB, pc, ins)
    case Wild => Fault(WILD, pc, ins)
    case Hit(g, i) =>
      var raw: nat := LoadLE(s.mem.Get(g), i, w);
      if Mode(ins.code) == MODE_MEM then Next(pc + 1, s.(r := s.r[ins.dst := Wrap(true, raw)]))
      else if Mode(ins.code) == MODE_MEMSX && w != 8 then
        Next(pc + 1, s.(r := s.r[ins.dst := Wrap(true, Signed(Pow256(w), raw))]))
      else Fault(UNSUPPORTED, pc, ins)
  }

  /** What an atomic operation leaves in memory and in r0, or None when refused. */
  function AtomicOp(aop: int, old_: u64, sv: u64, r0: u64, is64: bool): Option<u64> {
    if aop == 0x00 then Some(Wrap(is64, old_ + sv))
    else if aop == 0x40 then Some(Wrap(is64, Or(old_, sv)))
    else if aop == 0x50 then Some(Wrap(is64, And(old_, sv)))
    else if aop == 0xa0 then Some(Wrap(is64, Xor(old_, sv)))
    else if aop == 0xe0 then Some(Wrap(is64, sv))
    else if aop == 0xf0 then Some(Wrap(is64, if old_ == Wrap(is64, r0) then sv else old_))
    else None
  }

  /** The read-modify-write itself, on w bytes at index i of region g. */
  function AtomicAt(ins: Insn, pc: int, s: State, g: Region, i: nat, w: nat): Outcome
    requires s.Valid() && ins.dst <= 10 && ins.src <= 10 && i + w <= RegionSize(g)
  {
    var was := Wrap(true, LoadLE(s.mem.Get(g), i, w));
    var fetch, aop := ins.imm % 2 == 1, ins.imm - ins.imm % 2;
    match AtomicOp(aop, was, Wrap(w == 8, s.r[ins.src]), s.r[0], w == 8)
    case None => Fault(UNSUPPORTED, pc, ins)
    case Some(res) =>
      var m := s.mem.Set(g, StoreLE(s.mem.Get(g), i, w, res));
      Next(pc + 1, State(if aop == 0xf0 then s.r[0 := was] else if fetch then s.r[ins.src := was] else s.r, m))
  }

  function StepAtomic(ins: Insn, pc: int, s: State): Outcome
    requires s.Valid() && ins.dst <= 10 && ins.src <= 10
  {
    var w := Width(ins.code);
    if w != 4 && w != 8 then Fault(UNSUPPORTED, pc, ins)
    else
      match Resolve(Address(s, ins.dst, ins.off), w)
      case Miss => Fault(OOB, pc, ins)
      case Wild => Fault(WILD, pc, ins)
      case Hit(g, i) => AtomicAt(ins, pc, s, g, i, w)
  }

  function StepStore(ins: Insn, pc: int, s: State): Outcome
    requires s.Valid() && ins.dst <= 10 && ins.src <= 10
  {
    if Mode(ins.code) != MODE_MEM then Fault(UNSUPPORTED, pc, ins)
    else
      var w := Width(ins.code);
      match Resolve(Address(s, ins.dst, ins.off), w)
      case Miss => Fault(OOB, pc, ins)
      case Wild => Fault(WILD, pc, ins)
      case Hit(g, i) =>
        var val := if Class(ins.code) == STX then s.r[ins.src] else Wrap(w == 8, ins.imm);
        Next(pc + 1, s.(mem := s.mem.Set(g, StoreLE(s.mem.Get(g), i, w, val))))
  }

  function StepJump(ins: Insn, pc: int, s: State): Outcome
    requires s.Valid() && ins.dst <= 10 && ins.src <= 10
  {
    var j32, op := Class(ins.code) == JMP32, Op(ins.code);
    if op == 0x90 then
      if j32 then Fault(UNSUPPORTED, pc, ins) else Halt(Result(OK, s.r[0], 0, 0))
    else if op == 0x00 then Next(pc + 1 + (if j32 then ins.imm else ins.off), s)
    else
      var operand := if SrcIsReg(ins.code) then s.r[ins.src] else Wrap(!j32, ins.imm);
      match Taken(op, j32, s.r[ins.dst], operand)
      case None => Fault(UNSUPPORTED, pc, ins)
      case Some(take) => Next(pc + 1 + (if take then ins.off else 0), s)
  }

  function Step(p: Program, pc: int, s: State): (o: Outcome)
    requires s.Valid() && 0 <= pc < |p|
    ensures o.Next? ==> o.s.Valid()
  {
    var ins := p[pc];
    var cls := Class(ins.code);
    if ins.dst > 10 || ins.src > 10 then Fault(UNSUPPORTED, pc, ins)
    else if cls == ALU || cls == ALU64 then StepAlu(ins, pc, s)
    else if cls == LD then StepLd(p, pc, s)
    else if cls == LDX then StepLdx(ins, pc, s)
    else if cls == STX && Mode(ins.code) == MODE_ATOMIC then StepAtomic(ins, pc, s)
    else if cls == ST || cls == STX then StepStore(ins, pc, s)
    else StepJump(ins, pc, s)
  }

  // ---- whole runs -----------------------------------------------------------------------

  /** The interpreter's loop from pc, with the given number of steps still in the budget. */
  function Exec(p: Program, pc: int, s: State, budget: nat): Result
    requires s.Valid()
    decreases budget
  {
    if pc < 0 || pc >= |p| then Result(BADPC, 0, pc, 0)
    else if budget == 0 then Result(LOOP, 0, pc, 0)
    else
      match Step(p, pc, s)
      case Halt(r) => r
      case Next(pc', s') => Exec(p, pc', s', budget - 1)
  }
}
