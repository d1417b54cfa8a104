/** The pruning decision: one pair of register states walked through the kernel's comparison
    arms, as the in-VM C evaluator does it and as the Python reference does it. */
module Subsume {
  import opened Isa
  import opened Domains
  import opened IdMap

  /** A `PRUNEPAIR_PFX` line: the raw prefix bytes in hex, and where the short comparison ends. */
  datatype Pfx = Pfx(vo: nat, text: string)

  /** One `PRUNEPAIR` row of the cnum era. */
  datatype Reg = Reg(frame: nat, regno: nat, t: nat, delta: int, vv: u64, vm: u64,
                     b64: u64, sz64: u64, b32: u32, sz32: u32, id: u32, pid: u32,
                     fno: nat, prec: nat, pfx: Option<Pfx>)

  datatype Arm =
    | TypeArm | PtrMemcmp | PtrRangeWithin | PtrTnumIn | PtrCheckIds | PktRange | RegsExact
    | Frameno | AddConstFlag | Delta | CheckScalarIds | RangeWithinArm | TnumInArm

  datatype Verdict = Agree | Break(arm: Arm) | Unmodelled

  datatype Tally = Tally(scalarCmp: nat, ptrCmp: nat, shortcircuit: nat)

  const Nothing := Tally(0, 0, 0)

  const SCALAR := 1

  function RangeWithin(o: Reg, c: Reg): bool {
    ArcSubset(TWO64, o.b64, o.sz64, c.b64, c.sz64) && ArcSubset(TWO32, o.b32, o.sz32, c.b32, c.sz32)
  }

  function TnumWithin(o: Reg, c: Reg): bool {
    TnumIn(o.vv, o.vm, c.vv, c.vm)
  }

  function Prefix(s: string, n: nat): string {
    if n <= |s| then s[..n] else s
  }

  function Nibble(c: char): nat {
    if '0' <= c <= '9' then c as int - '0' as int else if 'a' <= c <= 'f' then c as int - 'a' as int + 10 else 0
  }

  /** Bytes 8 to 11 of the prefix, little-endian and signed. */
  function PfxRange(text: string): int {
    if |text| < 24 then 0
    else
      var b := seq(4, i requires 0 <= i < 4 => 16 * Nibble(text[16 + 2 * i]) + Nibble(text[17 + 2 * i]));
      var v := b[0] + TWO8 * b[1] + TWO16 * b[2] + TWO8 * TWO16 * b[3];
      if v < TWO32 / 2 then v else v - TWO32
  }

  /** Pointer types compared by prefix bytes, range, tnum and two ids. */
  predicate PfxFamily(base: nat) {
    base == 4 || base == 5 || base == 17 || base == 19 || base == 14
  }

  const ARENA := 18
  const INSN := 21
  const STACK_PTR := 6

  predicate IsPacket(base: nat) { base == 7 || base == 8 }

  function TwoIds(d: Dialect, ids: IdState, o: Reg, c: Reg): (bool, IdState) {
    var (ok, next) := IdsMatch(d, ids, o.id, c.id);
    if ok then IdsMatch(d, next, o.pid, c.pid) else (false, next)
  }

  function Gate(ok: bool, arm: Arm): Option<Arm> {
    if ok then None else Some(arm)
  }

  /** The pointer arms, for two registers of one pointer type that both carry a prefix. */
  function PointerStep(d: Dialect, o: Reg, c: Reg, ids: IdState): (Option<Arm>, IdState)
    requires o.pfx.Some? && c.pfx.Some?
  {
    var base, op, cp := o.t % 0x100, o.pfx.value, c.pfx.value;
    if base == ARENA then (None, ids)
    else if PfxFamily(base) || base == INSN then
      if Prefix(op.text, 2 * op.vo) != Prefix(cp.text, 2 * op.vo) then (Some(PtrMemcmp), ids)
      else if !RangeWithin(o, c) then (Some(PtrRangeWithin), ids)
      else if !TnumWithin(o, c) then (Some(PtrTnumIn), ids)
      else if base == INSN then (None, ids)
      else
        var (ok, next) := TwoIds(d, ids, o, c);
        (Gate(ok, PtrCheckIds), next)
    else if IsPacket(base) then
      var ro, rc := PfxRange(op.text), PfxRange(cp.text);
      if (if ro < 0 || rc < 0 then ro != rc else ro > rc) then (Some(PktRange), ids)
      else
        var (ok, next) := IdsMatch(d, ids, o.id, c.id);
        if !ok then (Some(PtrCheckIds), next)
        else (Gate(RangeWithin(o, c) && TnumWithin(o, c), PtrRangeWithin), next)
    else if op.text != cp.text then (Some(RegsExact), ids)
    else if base == STACK_PTR && o.fno != c.fno then (Some(Frameno), ids)
    else
      var (ok, next) := TwoIds(d, ids, o, c);
      (Gate(ok, PtrCheckIds), next)
  }

  predicate ShortCircuits(o: Reg, exact: nat) { o.prec == 0 && exact == 0 }

  function ScalarStep(d: Dialect, o: Reg, c: Reg, ids: IdState): (Option<Arm>, IdState, bool) {
    if o.id != 0 && Flags(o.id) != Flags(c.id) then (Some(AddConstFlag), ids, false)
    else if Flags(o.id) != 0 && o.delta != c.delta then (Some(Delta), ids, false)
    else
      var (ok, next) := ScalarIdsMatch(d, ids, o.id, c.id);
      if !ok then (Some(CheckScalarIds), next, false)
      else if !RangeWithin(o, c) then (Some(RangeWithinArm), next, true)
      else (Gate(TnumWithin(o, c), TnumInArm), next, true)
  }

  datatype Stepped = Stepped(arm: Option<Arm>, ids: IdState, tally: Tally)

  /** One old register against its counterpart; an arm in the result is the one that broke. */
  function RegStep(d: Dialect, o: Reg, c: Reg, exact: nat, ids: IdState, tally: Tally): Stepped {
    if o.t != c.t then Stepped(Some(TypeArm), ids, tally)
    else if o.t != SCALAR then
      if o.pfx.None? || c.pfx.None? then Stepped(None, ids, tally)
      else
        var (arm, next) := PointerStep(d, o, c, ids);
        Stepped(arm, next, tally.(ptrCmp := tally.ptrCmp + 1))
    else if ShortCircuits(o, exact) then Stepped(None, ids, tally.(shortcircuit := tally.shortcircuit + 1))
    else
      var (arm, next, ran) := ScalarStep(d, o, c, ids);
      Stepped(arm, next, if ran then tally.(scalarCmp := tally.scalarCmp + 1) else tally)
  }

  /** An old register and the current one under the same key, where there is one. */
  type Joined = (Reg, Option<Reg>)

  datatype Walked = Walked(verdict: Verdict, tally: Tally)

  /** Registers in order, the id relation threaded through: the order is part of the predicate. */
  function Walk(d: Dialect, rows: seq<Joined>, exact: nat, ids: IdState, tally: Tally): Walked
    decreases |rows|
  {
    if rows == [] then Walked(Agree, tally)
    else if rows[0].1.None? then Walked(Unmodelled, tally)
    else
      var step := RegStep(d, rows[0].0, rows[0].1.value, exact, ids, tally);
      if step.arm.Some? then Walked(Break(step.arm.value), step.tally)
      else Walk(d, rows[1..], exact, step.ids, step.tally)
  }

  // ---- the C side: rows in arrival order, keyed by one integer --------------------------------

  function KeyNo(r: Reg): nat { r.frame * 16 + r.regno }

  function Find(rows: seq<Reg>, key: nat): Option<Reg> {
    if rows == [] then None else if KeyNo(rows[0]) == key then Some(rows[0]) else Find(rows[1..], key)
  }

  /** Where a row with this key goes: from the end, past every row with a larger key. */
  function Place(s: seq<Reg>, key: nat): (p: nat)
    ensures p <= |s|
  {
    if s == [] || KeyNo(s[|s| - 1]) <= key then |s| else Place(s[..|s| - 1], key)
  }

  function Insert(s: seq<Reg>, x: Reg): seq<Reg> {
    var p := Place(s, KeyNo(x));
    s[..p] + [x] + s[p..]
  }

  function SortByKey(s: seq<Reg>): seq<Reg> {
    if s == [] then [] else Insert(SortByKey(s[..|s| - 1]), s[|s| - 1])
  }

  function CJoin(rows: seq<Reg>, cur: seq<Reg>): seq<Joined> {
    seq(|rows|, i requires 0 <= i < |rows| => (rows[i], Find(cur, KeyNo(rows[i]))))
  }

  function CEval(old_: seq<Reg>, cur: seq<Reg>, exact: nat, tally: Tally): Walked {
    if old_ == [] || cur == [] then Walked(Unmodelled, tally)
    else Walk(C, CJoin(SortByKey(old_), cur), exact, FreshIds, tally)
  }

  // ---- the Python side: dictionaries keyed by (frame, register) -------------------------------

  type Key = (nat, nat)

  function KeyOf(r: Reg): Key { (r.frame, r.regno) }

  predicate KeyLess(a: Key, b: Key) {
    a.0 < b.0 || (a.0 == b.0 && a.1 < b.1)
  }

  /** A dictionary filled row by row; a later row under the same key replaces an earlier one. */
  function DictOf(rows: seq<Reg>): map<Key, Reg> {
    if rows == [] then map[] else DictOf(rows[..|rows| - 1])[KeyOf(rows[|rows| - 1]) := rows[|rows| - 1]]
  }

  function KeySet(rows: seq<Reg>): set<Key> {
    set r | r in rows :: KeyOf(r)
  }

  lemma KeySetGrows(rows: seq<Reg>, x: Reg)
    ensures KeySet(rows + [x]) == KeySet(rows) + {KeyOf(x)}
  {
  }

  /** rows is `sorted(m.items())`. */
  ghost predicate Enumerates(rows: seq<Reg>, m: map<Key, Reg>) {
    && (forall i :: 0 <= i < |rows| ==> KeyOf(rows[i]) in m && m[KeyOf(rows[i])] == rows[i])
    && (forall i, j :: 0 <= i < j < |rows| ==> KeyLess(KeyOf(rows[i]), KeyOf(rows[j])))
    && KeySet(rows) == m.Keys
  }

  lemma EmptyEnumeration(rows: seq<Reg>, m: map<Key, Reg>)
    requires Enumerates(rows, m)
    ensures rows == [] <==> m == map[]
  {
    if rows != [] {
      assert KeyOf(rows[0]) in m;
    } else {
      assert m.Keys == {};
    }
  }

  function Lookup(m: map<Key, Reg>, k: Key): Option<Reg> {
    if k in m then Some(m[k]) else None
  }

  function PyJoin(rows: seq<Reg>, cur: map<Key, Reg>): seq<Joined> {
    seq(|rows|, i requires 0 <= i < |rows| => (rows[i], Lookup(cur, KeyOf(rows[i]))))
  }

  function PyEval(rows: seq<Reg>, cur: map<Key, Reg>, exact: nat, tally: Tally): Walked {
    if rows == [] || cur == map[] then Walked(Unmodelled, tally)
    else Walk(Python, PyJoin(rows, cur), exact, FreshIds, tally)
  }
}
