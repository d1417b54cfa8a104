/** Loads, stores and atomics said a second time: by address ranges, bytes and opcode bits. */
module MemSteps {
  import opened Isa
  import opened Bits
  import opened Domains
  import opened Interp
  import opened Machine
  import opened AluLaws
  import opened Steps

  // ---- memory by address ------------------------------------------------------------------------------

  function Start(g: Region): int {
    match g
    case Stack => 0x1_fe00
    case Map => 0x1_0000
    case Pkt => 0x3_0000
  }

  function Bytesize(g: Region): int {
    match g
    case Stack => 512
    case Map => 16
    case Pkt => 64
  }

  predicate Within(g: Region, addr: int, w: nat) {
    Start(g) <= addr && addr + w <= Start(g) + Bytesize(g)
  }

  /** The place of an address in its region. */
  function Index(g: Region, addr: int): nat
    requires Start(g) <= addr
  {
    addr - Start(g)
  }

  function Content(m: Memory, g: Region): Bytes {
    match g
    case Stack => m.stack
    case Map => m.mapv
    case Pkt => m.pkt
  }

  /** 1, 2, 4 or 8 bytes, by bits 3 and 4 of the opcode. */
  function AccessWidth(code: bv8): nat {
    if code & 0x18 == 0x10 then 1 else if code & 0x18 == 0x08 then 2 else if code & 0x18 == 0x00 then 4 else 8
  }

  function Byte(v: nat, k: nat): nat {
    if k == 0 then v % 256 else Byte(v / 256, k - 1)
  }

  /** The w bytes from i on are v's, lowest first. */
  ghost predicate Spells(b: Bytes, i: nat, w: nat, v: nat) {
    i + w <= |b| && v < Pow2(8 * w) && forall k :: 0 <= k < w ==> b[i + k] == Byte(v, k)
  }

  lemma {:induction false} PowersOf256(w: nat)
    ensures Pow256(w) == Pow2(8 * w)
  {
    if w > 0 {
      PowersOf256(w - 1);
      assert Pow2(8) == 256;
      Pow2Sum(8, 8 * w - 8);
    }
  }

  lemma {:induction false} LoadBytes(b: Bytes, i: nat, w: nat, k: nat)
    requires i + w <= |b| && k < w
    ensures Byte(LoadLE(b, i, w), k) == b[i + k]
    decreases w
  {
    if k > 0 {
      LoadBytes(b, i + 1, w - 1, k - 1);
    }
  }

  lemma LoadSpells(b: Bytes, i: nat, w: nat)
    requires i + w <= |b|
    ensures Spells(b, i, w, LoadLE(b, i, w))
  {
    PowersOf256(w);
    forall k | 0 <= k < w ensures b[i + k] == Byte(LoadLE(b, i, w), k) {
      LoadBytes(b, i, w, k);
    }
  }

  /** Bytes in place of the old ones, and nothing else touched. */
  ghost predicate Overwritten(b: Bytes, c: Bytes, i: nat, w: nat, v: int) {
    && |c| == |b| && Spells(c, i, w, v % Pow2(8 * w))
    && forall j :: 0 <= j < |b| && !(i <= j < i + w) ==> c[j] == b[j]
  }

  lemma StoreOverwrites(b: Bytes, i: nat, w: nat, v: nat)
    requires i + w <= |b|
    ensures Overwritten(b, StoreLE(b, i, w, v), i, w, v)
  {
    LoadAfterStore(b, i, w, v);
    PowersOf256(w);
    LoadSpells(StoreLE(b, i, w, v), i, w);
    forall j | 0 <= j < |b| && !(i <= j < i + w) ensures StoreLE(b, i, w, v)[j] == b[j] {
      StoreFrame(b, i, w, v, j);
    }
  }

  /** One region's bytes change, the other two regions do not. */
  ghost predicate Stored(m: Memory, n: Memory, g: Region, i: nat, w: nat, v: int) {
    && Overwritten(Content(m, g), Content(n, g), i, w, v)
    && forall h :: h != g ==> Content(n, h) == Content(m, h)
  }

  lemma SetStores(m: Memory, g: Region, i: nat, w: nat, v: nat)
    requires m.Valid() && i + w <= RegionSize(g)
    ensures m.Set(g, StoreLE(m.Get(g), i, w, v)).Valid()
    ensures Stored(m, m.Set(g, StoreLE(m.Get(g), i, w, v)), g, i, w, v)
  {
    StoreOverwrites(m.Get(g), i, w, v);
  }

  /** How an access resolves: inside a region, past the end of the address space, or nowhere. */
  lemma Resolves(addr: u64, w: nat)
    requires w <= 8
    ensures match Resolve(addr, w)
            case Hit(g, i) => Within(g, addr, w) && i == Index(g, addr)
            case Wild => addr + w >= 0x1_0000_0000_0000_0000 && forall g :: !Within(g, addr, w)
            case Miss => addr + w < 0x1_0000_0000_0000_0000 && forall g :: !Within(g, addr, w)
  {
    ResolveExactly(addr, w);
    forall g | Within(g, addr, w) ensures Resolve(addr, w) == Hit(g, addr - Start(g)) {
      assert Inside(g, addr, w);
    }
  }

  predicate Faults(o: Outcome, status: Status, pc: int, code: bv8) {
    o == Halt(Result(status, 0, pc, code))
  }

  /** An access that is in no region ends the run: as a bad address, or, where its end passes 2^64, undefined. */
  ghost predicate BadAddress(o: Outcome, addr: int, w: nat, pc: int, code: bv8) {
    Faults(o, if addr + w >= 0x1_0000_0000_0000_0000 then WILD else OOB, pc, code)
  }

  function Pointed(s: State, reg: nat, off: int): int
    requires s.Valid() && reg <= 10
  {
    Low(true, s.r[reg] + off)
  }

  // ---- loads ----------------------------------------------------------------------------------------------

  lemma ExtendedLoad(w: nat, raw: nat)
    requires (w == 1 || w == 2 || w == 4) && raw < Pow2(8 * w)
    ensures var v := Wrap(true, Signed(Pow256(w), raw)); Extends(64, 8 * w, raw, v)
  {
    PowersOf256(w);
    WordSizes();
    RemainderIs(raw, Pow2(8 * w), 0, raw);
    forall k: nat | k < 64
      ensures BitSet(Wrap(true, Signed(Pow256(w), raw)), k) <==> BitSet(raw, if k < 8 * w then k else 8 * w - 1)
    {
      ExtendedBits(raw, 8 * w, 64, k);
    }
  }

  lemma RawFits(w: nat, raw: nat)
    requires w <= 8 && raw < Pow2(8 * w)
    ensures Wrap(true, raw) == raw
  {
    WordSizes();
    Pow2Sum(8 * w, 64 - 8 * w);
    assert Pow2(64) >= Pow2(8 * w) by {
      TimesMonotone(Pow2(8 * w), 1, Pow2(64 - 8 * w));
    }
    RemainderIs(raw, TWO64, 0, raw);
  }

  /** v is what the w bytes from i on spell, filled up with zeros or with their top bit. */
  ghost predicate Loaded(extend: bool, b: Bytes, i: nat, w: nat, v: u64) {
    exists raw: nat :: Spells(b, i, w, raw) && if extend then w > 0 && Extends(64, 8 * w, raw, v) else v == raw
  }

  /** The instruction puts what it loads from index i of g into dst, and goes on. */
  ghost predicate LoadLeaves(p: Program, pc: int, s: State, g: Region, i: nat, v: u64)
    requires Encodable(p, pc, s)
  {
    && Loaded(p[pc].code & 0xe0 == 0x80, Content(s.mem, g), i, AccessWidth(p[pc].code), v)
    && Step(p, pc, s) == Next(pc + 1, State(s.r[p[pc].dst := v], s.mem))
  }

  /** A load leaves the bytes it finds in dst, lowest first: filled up with zeros in the plain mode and with
      the top bit in the sign-extending one, which has no 8-byte form. */
  lemma LoadsFetch(p: Program, pc: int, s: State)
    requires Encodable(p, pc, s) && p[pc].code & 0x07 == 0x01
    ensures var (ins, w) := (p[pc], AccessWidth(p[pc].code));
            var (addr, mode) := (Pointed(s, ins.src, ins.off), ins.code & 0xe0);
            && (forall g :: Within(g, addr, w) ==>
                  if mode == 0x60 || (mode == 0x80 && w != 8) then
                    exists v: u64 :: LoadLeaves(p, pc, s, g, Index(g, addr), v)
                  else Refuses(p, pc, s))
            && ((forall g :: !Within(g, addr, w)) ==> BadAddress(Step(p, pc, s), addr, w, pc, ins.code))
  {
    var ins, w := p[pc], AccessWidth(p[pc].code);
    var addr := Pointed(s, ins.src, ins.off);
    Resolves(addr, w);
    assert Width(ins.code) == w && Address(s, ins.src, ins.off) == addr;
    assert Step(p, pc, s) == StepLdx(ins, pc, s);
    if Resolve(addr, w).Hit? {
      var g, i := Resolve(addr, w).region, Resolve(addr, w).index;
      LoadValue(s.mem.Get(g), i, w);
      if Step(p, pc, s).Next? {
        assert LoadLeaves(p, pc, s, g, i, Step(p, pc, s).s.r[ins.dst]);
      }
      forall h | Within(h, addr, w) ensures h == g {}
    }
  }

  lemma LoadValue(b: Bytes, i: nat, w: nat)
    requires i + w <= |b| && w <= 8
    ensures Loaded(false, b, i, w, Wrap(true, LoadLE(b, i, w)))
    ensures w == 1 || w == 2 || w == 4 ==> Loaded(true, b, i, w, Wrap(true, Signed(Pow256(w), LoadLE(b, i, w))))
  {
    var raw := LoadLE(b, i, w);
    LoadSpells(b, i, w);
    RawFits(w, raw);
    if w == 1 || w == 2 || w == 4 {
      ExtendedLoad(w, raw);
    }
  }

  /** LD_IMM64 takes its value from its own immediate and the next slot's, and skips that slot. */
  lemma WideImmediate(p: Program, pc: int, s: State)
    requires Encodable(p, pc, s) && p[pc].code & 0x07 == 0x00
    ensures var ins := p[pc];
            if ins.code != 0x18 || ins.src != 0 then Refuses(p, pc, s)
            else if pc + 1 == |p| then Faults(Step(p, pc, s), BADPC, pc, ins.code)
            else
              exists v: u64 :: WideLeaves(p, pc, s, v)
  {
    var ins := p[pc];
    if ins.code == 0x18 && ins.src == 0 && pc + 1 < |p| {
      var v: u64 := Wrap(false, ins.imm) + TWO32 * Wrap(false, p[pc + 1].imm);
      RemainderIs(v, TWO32, Wrap(false, p[pc + 1].imm), Wrap(false, ins.imm));
      assert WideLeaves(p, pc, s, v);
    }
  }

  /** The halves of v are the two immediates' bit patterns, and dst takes it. */
  predicate WideLeaves(p: Program, pc: int, s: State, v: u64)
    requires Encodable(p, pc, s) && pc + 1 < |p|
  {
    && v % 0x1_0000_0000 == Low(false, p[pc].imm) && v / 0x1_0000_0000 == Low(false, p[pc + 1].imm)
    && Step(p, pc, s) == Next(pc + 2, State(s.r[p[pc].dst := v], s.mem))
  }

  // ---- stores -----------------------------------------------------------------------------------------------

  /** What a store writes: a register, or the immediate with its sign. */
  function StoreOperand(ins: Insn, s: State): int
    requires s.Valid() && ins.src <= 10
  {
    if ins.code & 0x07 == 0x03 then s.r[ins.src] else ins.imm
  }

  /** The instruction writes v's low w bytes to index i of g, and goes on with all registers as they were. */
  ghost predicate StoreLeaves(p: Program, pc: int, s: State, g: Region, i: nat, w: nat, v: int, m: Memory)
    requires Encodable(p, pc, s)
  {
    Stored(s.mem, m, g, i, w, v) && Step(p, pc, s) == Next(pc + 1, State(s.r, m))
  }

  lemma LowBytes(w: nat, y: int)
    requires w == 1 || w == 2 || w == 4 || w == 8
    ensures Wrap(w == 8, y) % Pow2(8 * w) == y % Pow2(8 * w)
  {
    WordSizes();
    Pow2Sum(8 * w, Bitwidth(w == 8) - 8 * w);
    var m, n := Pow2(8 * w), Pow2(Bitwidth(w == 8) - 8 * w);
    var k := Residues(Modulus(w == 8), y);
    assert y - Wrap(w == 8, y) == m * n * k == m * (n * k);
    SameResidueOf(y, Wrap(w == 8, y), m, n * k);
  }

  lemma SameResidueOf(x: int, y: int, m: int, t: int)
    requires m > 0 && x - y == m * t
    ensures x % m == y % m
  {
    RemainderIs(x, m, y / m + t, y % m);
  }

  /** A plain store writes its operand's low bytes where it points and touches nothing else. */
  lemma StoresWrite(p: Program, pc: int, s: State)
    requires Encodable(p, pc, s) && (p[pc].code & 0x07 == 0x02 || p[pc].code & 0x07 == 0x03)
    requires !(p[pc].code & 0x07 == 0x03 && p[pc].code & 0xe0 == 0xc0)
    ensures var (ins, w) := (p[pc], AccessWidth(p[pc].code));
            var addr := Pointed(s, ins.dst, ins.off);
            if ins.code & 0xe0 != 0x60 then Refuses(p, pc, s)
            else
              && (forall g :: Within(g, addr, w) ==>
                    exists m: Memory :: StoreLeaves(p, pc, s, g, Index(g, addr), w, StoreOperand(ins, s), m))
              && ((forall g :: !Within(g, addr, w)) ==> BadAddress(Step(p, pc, s), addr, w, pc, ins.code))
  {
    var ins, w := p[pc], AccessWidth(p[pc].code);
    var addr := Pointed(s, ins.dst, ins.off);
    assert Step(p, pc, s) == StepStore(ins, pc, s);
    assert Width(ins.code) == w && Address(s, ins.dst, ins.off) == addr;
    if ins.code & 0xe0 == 0x60 {
      Resolves(addr, w);
      if Resolve(addr, w).Hit? {
        var g, i := Resolve(addr, w).region, Resolve(addr, w).index;
        var val := if Class(ins.code) == STX then s.r[ins.src] else Wrap(w == 8, ins.imm);
        SetStores(s.mem, g, i, w, val);
        LowBytes(w, ins.imm);
        assert StoreLeaves(p, pc, s, g, i, w, StoreOperand(ins, s), Step(p, pc, s).s.mem);
        forall h | Within(h, addr, w) ensures h == g {}
      }
    }
  }

  // ---- atomics ------------------------------------------------------------------------------------------------

  /** The operation, fetch bit aside. */
  function Operation(imm: int): int { imm / 2 * 2 }

  predicate KnownOperation(op: int) { op == 0x00 || op == 0x40 || op == 0x50 || op == 0xa0 || op == 0xe0 || op == 0xf0 }

  /** v is what the operation leaves in a cell that held was. */
  ghost predicate Exchanges(op: int, wide: bool, was: nat, operand: nat, r0: nat, v: nat) {
    var (w, b) := (Bitwidth(wide), Low(wide, operand));
    v < Values(wide) &&
    if op == 0x00 then v == Low(wide, was + operand)
    else if op == 0x40 || op == 0x50 then Combined(if op == 0x40 then 0x40 else 0x50, w, was, b, v)
    else if op == 0xa0 then Combined(0xa0, w, was, b, v)
    else if op == 0xe0 then v == b
    else v == if was == Low(wide, r0) then b else was
  }

  /** The registers after: the old value goes to r0 with a compare-exchange, fetching or not, and to the
      source with any other fetch. */
  function After(ins: Insn, s: State, was: u64): seq<u64>
    requires s.Valid() && ins.src <= 10
  {
    if Operation(ins.imm) == 0xf0 then s.r[0 := was] else if ins.imm % 2 == 1 then s.r[ins.src := was] else s.r
  }

  ghost predicate AtomicLeaves(p: Program, pc: int, s: State, g: Region, i: nat, w: nat, was: u64, v: nat, m: Memory)
    requires Encodable(p, pc, s)
  {
    var ins := p[pc];
    && Spells(Content(s.mem, g), i, w, was)
    && Exchanges(Operation(ins.imm), w == 8, was, s.r[ins.src], s.r[0], v)
    && Stored(s.mem, m, g, i, w, v)
    && Step(p, pc, s) == Next(pc + 1, State(After(ins, s, was), m))
  }

  lemma OperandBits(op: bv8, wide: bool, a: nat, b: nat, v: nat)
    requires a < Values(wide) && b < Values(wide)
    requires v == Low(wide, if op == 0x40 then Or(a, b) else if op == 0x50 then And(a, b) else Xor(a, b))
    requires op == 0x40 || op == 0x50 || op == 0xa0
    ensures Combined(op, Bitwidth(wide), a, b, v)
  {
    WordSizes();
    var w, raw := Bitwidth(wide), if op == 0x40 then Or(a, b) else if op == 0x50 then And(a, b) else Xor(a, b);
    forall k: nat | k < w
      ensures BitSet(v, k) <==>
              if op == 0x40 then BitSet(a, k) || BitSet(b, k)
              else if op == 0x50 then BitSet(a, k) && BitSet(b, k)
              else BitSet(a, k) != BitSet(b, k)
    {
      BitwiseMeaning(a, b, k);
      LowBitsKept(raw, w, k);
    }
  }

  lemma OpExchanges(op: int, wide: bool, was: u64, operand: u64, r0: u64)
    requires was < Values(wide)
    ensures var res := AtomicOp(op, was, Wrap(wide, operand), r0, wide);
            if KnownOperation(op) then res.Some? && Exchanges(op, wide, was, operand, r0, res.value) else res == None
  {
    var b := Low(wide, operand);
    LowTwice(wide, operand);
    SumResidue(Values(wide), operand, was);
    RemainderIs(was, Values(wide), 0, was);
    RemainderIs(b, Values(wide), 0, b);
    if op == 0x40 {
      OperandBits(0x40, wide, was, b, Low(wide, Or(was, b)));
    } else if op == 0x50 {
      OperandBits(0x50, wide, was, b, Low(wide, And(was, b)));
    } else if op == 0xa0 {
      OperandBits(0xa0, wide, was, b, Low(wide, Xor(was, b)));
    }
  }

  /** The cell at index i of g, and what the instruction does to it. */
  ghost predicate CellLeaves(ins: Insn, pc: int, s: State, g: Region, i: nat, w: nat, was: u64, v: nat, m: Memory)
    requires s.Valid() && ins.dst <= 10 && ins.src <= 10 && i + w <= RegionSize(g)
  {
    && Exchanges(Operation(ins.imm), w == 8, was, s.r[ins.src], s.r[0], v)
    && Stored(s.mem, m, g, i, w, v)
    && AtomicAt(ins, pc, s, g, i, w) == Next(pc + 1, State(After(ins, s, was), m))
  }

  lemma CellSpells(s: State, g: Region, i: nat, w: nat) returns (was: u64)
    requires s.Valid() && i + w <= RegionSize(g) && (w == 4 || w == 8)
    ensures was == LoadLE(s.mem.Get(g), i, w) < Values(w == 8) && Spells(Content(s.mem, g), i, w, was)
  {
    LoadSpells(s.mem.Get(g), i, w);
    WordSizes();
    was := LoadLE(s.mem.Get(g), i, w);
  }

  lemma AtomicCell(ins: Insn, pc: int, s: State, g: Region, i: nat, w: nat, was: u64) returns (v: nat, m: Memory)
    requires s.Valid() && ins.dst <= 10 && ins.src <= 10 && i + w <= RegionSize(g) && (w == 4 || w == 8)
    requires was == LoadLE(s.mem.Get(g), i, w) < Values(w == 8)
    ensures if KnownOperation(Operation(ins.imm)) then CellLeaves(ins, pc, s, g, i, w, was, v, m)
            else AtomicAt(ins, pc, s, g, i, w) == Halt(Result(UNSUPPORTED, 0, pc, ins.code))
  {
    OpExchanges(Operation(ins.imm), w == 8, was, s.r[ins.src], s.r[0]);
    assert Operation(ins.imm) == ins.imm - ins.imm % 2 && Wrap(true, was) == was;
    var res := AtomicOp(Operation(ins.imm), was, Wrap(w == 8, s.r[ins.src]), s.r[0], w == 8);
    v, m := 0, s.mem;
    if res.Some? {
      v := res.value;
      SetStores(s.mem, g, i, w, v);
      m := s.mem.Set(g, StoreLE(s.mem.Get(g), i, w, v));
    }
  }

  /** An atomic is refused at widths but 4 and 8; then its address is tried; then an unknown operation is
      refused; and a known one replaces the cell and hands back what was there. */
  lemma AtomicsExchange(p: Program, pc: int, s: State)
    requires Encodable(p, pc, s) && p[pc].code & 0x07 == 0x03 && p[pc].code & 0xe0 == 0xc0
    ensures var (ins, w) := (p[pc], AccessWidth(p[pc].code));
            var addr := Pointed(s, ins.dst, ins.off);
            if w != 4 && w != 8 then Refuses(p, pc, s)
            else
              && (forall g :: Within(g, addr, w) ==>
                    if !KnownOperation(Operation(ins.imm)) then Refuses(p, pc, s)
                    else exists was: u64, v: nat, m: Memory :: AtomicLeaves(p, pc, s, g, Index(g, addr), w, was, v, m))
              && ((forall g :: !Within(g, addr, w)) ==> BadAddress(Step(p, pc, s), addr, w, pc, ins.code))
  {
    var ins, w := p[pc], AccessWidth(p[pc].code);
    var addr := Pointed(s, ins.dst, ins.off);
    assert Step(p, pc, s) == StepAtomic(ins, pc, s);
    assert Width(ins.code) == w && Address(s, ins.dst, ins.off) == addr;
    if w == 4 || w == 8 {
      Resolves(addr, w);
      if Resolve(addr, w).Hit? {
        var g, i := Resolve(addr, w).region, Resolve(addr, w).index;
        var was := CellSpells(s, g, i, w);
        var v, m := AtomicCell(ins, pc, s, g, i, w, was);
        if KnownOperation(Operation(ins.imm)) {
          assert AtomicLeaves(p, pc, s, g, i, w, was, v, m);
        }
        forall h | Within(h, addr, w) ensures h == g {}
      }
    }
  }

  // ---- whole runs ---------------------------------------------------------------------------------------------

  /** A register field that names no register is refused, whatever the opcode. */
  lemma BadFieldsAreRefused(p: Program, pc: int, s: State)
    requires s.Valid() && 0 <= pc < |p| && (p[pc].dst > 10 || p[pc].src > 10)
    ensures Step(p, pc, s) == Halt(Result(UNSUPPORTED, 0, pc, p[pc].code))
  {
  }

  /** n instructions lead from one place and state to another. */
  ghost predicate Goes(p: Program, pc: int, s: State, n: nat, pc': int, s': State)
    requires s.Valid()
    decreases n
  {
    if n == 0 then pc == pc' && s == s'
    else 0 <= pc < |p| && Step(p, pc, s).Next? && Goes(p, Step(p, pc, s).pc, Step(p, pc, s).s, n - 1, pc', s')
  }

  /** A run under a budget ends, after n instructions, where control has left the program, where the budget
      is used up inside it, or with the instruction that halts. */
  ghost predicate EndsAfter(p: Program, pc: int, s: State, budget: nat, r: Result, n: nat, pc': int, s': State)
    requires s.Valid()
  {
    && n <= budget && s'.Valid() && Goes(p, pc, s, n, pc', s')
    && if !(0 <= pc' < |p|) then r == Result(BADPC, 0, pc', 0)
       else if n == budget then r == Result(LOOP, 0, pc', 0)
       else Step(p, pc', s') == Halt(r)
  }

  lemma {:induction false} RunEnds(p: Program, pc: int, s: State, budget: nat)
    returns (n: nat, pc': int, s': State)
    requires s.Valid()
    ensures EndsAfter(p, pc, s, budget, Exec(p, pc, s, budget), n, pc', s')
    decreases budget
  {
    n, pc', s' := 0, pc, s;
    if 0 <= pc < |p| && budget > 0 && Step(p, pc, s).Next? {
      n, pc', s' := RunEnds(p, Step(p, pc, s).pc, Step(p, pc, s).s, budget - 1);
      n := n + 1;
    }
  }

  /** What a run starts from, register by register and byte by byte. */
  lemma StartsWith(ctx: u64, s6: u64, s7: u64, s9: u64, mapRegion: bool, pktRegion: bool)
    ensures var s := InitState(ctx, s6, s7, s9, mapRegion, pktRegion);
            && s.r[1] == ctx && s.r[6] == s6 && s.r[7] == s7 && s.r[9] == s9 && s.r[10] == 0x2_0000
            && s.r[0] == s.r[4] == s.r[5] == 0 && s.r[8] == (if mapRegion then 0x1_0000 else 0)
            && s.r[2] == (if pktRegion then 0x3_0000 else 0) && s.r[3] == (if pktRegion then 0x3_0040 else 0)
            && (forall i :: 0 <= i < |s.mem.stack| ==> s.mem.stack[i] == 0)
            && (forall i :: 0 <= i < |s.mem.mapv| ==> s.mem.mapv[i] == 0)
            && (forall i :: 0 <= i < |s.mem.pkt| ==> s.mem.pkt[i] == (7 * i + 13) % 256)
    ensures BUDGET == 0x40_0000
  {
  }
}
