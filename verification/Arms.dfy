/** Which arm a register breaks at, which counter it moves and where a walk stops: each the first of a list
    of tests, with containment for what the tests compute. */
module Arms {
  import opened Isa
  import opened Domains
  import opened IdMap
  import opened Subsume
  import opened Refinement
  import opened Meaning

  type Test = (Arm, bool)

  /** The arm of the first test that fails. */
  function FirstFailing(tests: seq<Test>): Option<Arm> {
    if tests == [] then None else if !tests[0].1 then Some(tests[0].0) else FirstFailing(tests[1..])
  }

  /** Both ids of a pointer, the second only looked at once the first has passed. */
  ghost predicate BothIdsPass(d: Dialect, o: Reg, c: Reg, ids: IdState) {
    var (ok, next) := IdsMatch(d, ids, o.id, c.id);
    ok && IdsMatch(d, next, o.pid, c.pid).0
  }

  /** The tests of two pointers of one type that both carry a prefix, in the order they are tried. */
  ghost function PointerTests(d: Dialect, o: Reg, c: Reg, ids: IdState): seq<Test>
    requires o.pfx.Some? && c.pfx.Some?
  {
    var base, op, cp := o.t % 0x100, o.pfx.value, c.pfx.value;
    if base == 18 then []
    else if ByPrefix(base) then
      [(PtrMemcmp, SameStart(op.text, cp.text, 2 * op.vo)), (PtrRangeWithin, RangesCovered(o, c)),
       (PtrTnumIn, TnumCovered(o, c)), (PtrCheckIds, base == 21 || BothIdsPass(d, o, c, ids))]
    else if ByRange(base) then
      var ro, rc := PfxRange(op.text), PfxRange(cp.text);
      [(PktRange, if ro < 0 || rc < 0 then ro == rc else ro <= rc), (PtrCheckIds, IdsMatch(d, ids, o.id, c.id).0),
       (PtrRangeWithin, RangesCovered(o, c) && TnumCovered(o, c))]
    else
      [(RegsExact, op.text == cp.text), (Frameno, base != 6 || o.fno == c.fno),
       (PtrCheckIds, BothIdsPass(d, o, c, ids))]
  }

  /** The tests of two compared scalars ahead of the ranges, and the ranges. */
  ghost function LinkTests(d: Dialect, o: Reg, c: Reg, ids: IdState): seq<Test> {
    [(AddConstFlag, o.id == 0 || Flags(o.id) == Flags(c.id)), (Delta, Flags(o.id) == 0 || o.delta == c.delta),
     (CheckScalarIds, ScalarIdsMatch(d, ids, o.id, c.id).0)]
  }

  ghost function RangeTests(o: Reg, c: Reg): seq<Test> {
    [(RangeWithinArm, RangesCovered(o, c)), (TnumInArm, TnumCovered(o, c))]
  }

  ghost function TestsOf(d: Dialect, o: Reg, c: Reg, exact: nat, ids: IdState): seq<Test> {
    if o.t != c.t then [(TypeArm, false)]
    else if o.t != 1 then (if o.pfx.Some? && c.pfx.Some? then PointerTests(d, o, c, ids) else [])
    else if Compared(o, exact) then LinkTests(d, o, c, ids) + RangeTests(o, c)
    else []
  }

  lemma FirstOfThree(a: Test, b: Test, c: Test)
    ensures FirstFailing([a, b, c]) == if !a.1 then Some(a.0) else if !b.1 then Some(b.0) else if !c.1 then Some(c.0)
            else None
  {
    assert [a, b, c][1..] == [b, c] && [b, c][1..] == [c] && [c][1..] == [];
    assert FirstFailing([c]) == if !c.1 then Some(c.0) else None;
    assert FirstFailing([b, c]) == if !b.1 then Some(b.0) else FirstFailing([c]);
  }

  lemma FirstOfFour(a: Test, b: Test, c: Test, e: Test)
    ensures FirstFailing([a, b, c, e]) == if !a.1 then Some(a.0) else FirstFailing([b, c, e])
  {
    assert [a, b, c, e][1..] == [b, c, e];
  }

  lemma FirstOfFive(a: Test, b: Test, c: Test, e: Test, f: Test)
    ensures FirstFailing([a, b, c] + [e, f]) == if !a.1 then Some(a.0) else if !b.1 then Some(b.0)
            else FirstFailing([c, e, f])
  {
    assert ([a, b, c] + [e, f])[1..] == [b, c, e, f];
    FirstOfFour(b, c, e, f);
  }

  lemma PointerArm(d: Dialect, o: Reg, c: Reg, ids: IdState)
    requires o.pfx.Some? && c.pfx.Some?
    ensures PointerStep(d, o, c, ids).0 == FirstFailing(PointerTests(d, o, c, ids))
  {
    var base, op, cp := o.t % 0x100, o.pfx.value, c.pfx.value;
    ContainedMeans(o, c);
    SameStartMeans(op.text, cp.text, 2 * op.vo);
    var t := PointerTests(d, o, c, ids);
    if base == 18 {
    } else if ByPrefix(base) {
      FirstOfFour(t[0], t[1], t[2], t[3]);
      FirstOfThree(t[1], t[2], t[3]);
      assert t == [t[0], t[1], t[2], t[3]];
    } else {
      FirstOfThree(t[0], t[1], t[2]);
      assert t == [t[0], t[1], t[2]];
    }
  }

  lemma ScalarArm(d: Dialect, o: Reg, c: Reg, ids: IdState)
    ensures ScalarStep(d, o, c, ids).0 == FirstFailing(LinkTests(d, o, c, ids) + RangeTests(o, c))
    ensures ScalarStep(d, o, c, ids).2 <==> FirstFailing(LinkTests(d, o, c, ids)) == None
  {
    ContainedMeans(o, c);
    var l, r := LinkTests(d, o, c, ids), RangeTests(o, c);
    FirstOfThree(l[0], l[1], l[2]);
    FirstOfFive(l[0], l[1], l[2], r[0], r[1]);
    FirstOfThree(l[2], r[0], r[1]);
    assert l == [l[0], l[1], l[2]] && r == [r[0], r[1]];
  }

  /** A register breaks at the first of its tests that fails, and passes when none does. */
  lemma ArmIsFirstFailing(d: Dialect, o: Reg, c: Reg, exact: nat, ids: IdState, tally: Tally)
    ensures RegStep(d, o, c, exact, ids, tally).arm == FirstFailing(TestsOf(d, o, c, exact, ids))
  {
    if o.t == c.t {
      if o.t != 1 {
        if o.pfx.Some? && c.pfx.Some? {
          PointerArm(d, o, c, ids);
        }
      } else if Compared(o, exact) {
        ScalarArm(d, o, c, ids);
      }
    }
  }

  function One(b: bool): nat { if b then 1 else 0 }

  /** It moves at most one counter: the scalar one when the links pass and the ranges are tried, the pointer one
      when two prefixes are there, the third when an imprecise scalar is let through. */
  lemma CountersMove(d: Dialect, o: Reg, c: Reg, exact: nat, ids: IdState, tally: Tally)
    ensures var (now, same) := (RegStep(d, o, c, exact, ids, tally).tally, o.t == c.t);
            && now.scalarCmp == tally.scalarCmp +
                 One(same && o.t == 1 && Compared(o, exact) && FirstFailing(LinkTests(d, o, c, ids)) == None)
            && now.ptrCmp == tally.ptrCmp + One(same && o.t != 1 && o.pfx.Some? && c.pfx.Some?)
            && now.shortcircuit == tally.shortcircuit + One(same && o.t == 1 && o.prec == 0 && exact == 0)
  {
    ScalarArm(d, o, c, ids);
  }

  // ---- the walk -----------------------------------------------------------------------------------------

  /** The first n rows pass, and leave the table and the counters so. */
  ghost predicate Passes(d: Dialect, rows: seq<Joined>, exact: nat, ids: IdState, tally: Tally, n: nat, ids': IdState,
                         tally': Tally)
    decreases n
  {
    if n == 0 then ids == ids' && tally == tally'
    else
      rows != [] && rows[0].1.Some? &&
      var step := RegStep(d, rows[0].0, rows[0].1.value, exact, ids, tally);
      step.arm == None && Passes(d, rows[1..], exact, step.ids, step.tally, n - 1, ids', tally')
  }

  /** The walk stops after n rows: at the end in agreement, at a register without counterpart undecided, or at
      one that fails, with its arm. */
  ghost predicate StopsAfter(d: Dialect, rows: seq<Joined>, exact: nat, ids: IdState, tally: Tally, w: Walked,
                             n: nat, ids': IdState, tally': Tally)
  {
    && n <= |rows| && Passes(d, rows, exact, ids, tally, n, ids', tally')
    && if n == |rows| then w == Walked(Agree, tally')
       else if rows[n].1 == None then w == Walked(Unmodelled, tally')
       else
         var step := RegStep(d, rows[n].0, rows[n].1.value, exact, ids', tally');
         step.arm.Some? && w == Walked(Break(step.arm.value), step.tally)
  }

  lemma {:induction false} WalkStops(d: Dialect, rows: seq<Joined>, exact: nat, ids: IdState, tally: Tally)
    returns (n: nat, ids': IdState, tally': Tally)
    ensures StopsAfter(d, rows, exact, ids, tally, Walk(d, rows, exact, ids, tally), n, ids', tally')
    decreases |rows|
  {
    n, ids', tally' := 0, ids, tally;
    if rows != [] && rows[0].1.Some? {
      var step := RegStep(d, rows[0].0, rows[0].1.value, exact, ids, tally);
      if step.arm.None? {
        n, ids', tally' := WalkStops(d, rows[1..], exact, step.ids, step.tally);
        n := n + 1;
      }
    }
  }

  /** A pair with an empty side is undecided; any other is the walk over the old rows in key order, each with the
      current row of its key. */
  lemma SidesDecide(old_: seq<Reg>, cur: seq<Reg>, exact: nat, tally: Tally)
    ensures CEval(old_, cur, exact, tally) ==
            if |old_| == 0 || |cur| == 0 then Walked(Unmodelled, tally)
            else Walk(C, CJoin(SortByKey(old_), cur), exact, IdState([], 0x10_0000), tally)
  {
  }

  // ---- one scalar ------------------------------------------------------------------------------------------

  lemma OneRow(o: Reg, c: Reg)
    requires KeyNo(o) == KeyNo(c)
    ensures CJoin(SortByKey([o]), [c]) == [(o, Some(c))]
  {
    assert [o][..0] == [] && SortByKey([]) == [];
    assert SortByKey([o]) == [o];
  }

  /** Two scalars without ids under one key agree if and only if the old one is imprecise and the comparison not
      exact, or ranges and tnum are covered; otherwise they break at the first that is not. */
  lemma OneScalarPair(o: Reg, c: Reg, exact: nat)
    requires o.t == 1 == c.t && o.id == 0 == c.id && KeyNo(o) == KeyNo(c)
    ensures CEval([o], [c], exact, Nothing).verdict ==
            if (o.prec == 0 && exact == 0) || (RangesCovered(o, c) && TnumCovered(o, c)) then Agree
            else Break(if RangesCovered(o, c) then TnumInArm else RangeWithinArm)
  {
    OneRow(o, c);
    ContainedMeans(o, c);
    var rows := [(o, Some(c))];
    assert rows[1..] == [];
    var step := RegStep(C, o, c, exact, FreshIds, Nothing);
    assert Walk(C, rows, exact, FreshIds, Nothing).verdict == if step.arm.Some? then Break(step.arm.value) else Agree;
  }

  // ---- the packet range ----------------------------------------------------------------------------------------

  function HexDigit(d: nat): char
    requires d < 16
  {
    if d < 10 then '0' + d as char else 'a' + (d - 10) as char
  }

  function HexByte(b: nat): string
    requires b < 256
  {
    [HexDigit(b / 16), HexDigit(b % 16)]
  }

  /** Four bytes, lowest first, as the prefix prints them. */
  function HexWord(v: nat): string {
    HexByte(v % 256) + HexByte(v / 256 % 256) + HexByte(v / 0x1_0000 % 256) + HexByte(v / 0x100_0000 % 256)
  }

  lemma NibbleOfDigit(d: nat)
    requires d < 16
    ensures Nibble(HexDigit(d)) == d
  {
  }

  lemma WordOfBytes(v: nat)
    requires v < TWO32
    ensures v % 256 + 256 * (v / 256 % 256) + 0x1_0000 * (v / 0x1_0000 % 256) + 0x100_0000 * (v / 0x100_0000 % 256) == v
  {
    var a := v / 256;
    var b := a / 256;
    assert v / 0x1_0000 == b && v / 0x100_0000 == b / 256 && b / 256 < 256;
  }

  /** Text whose characters 16 to 23 print the bytes of u. */
  predicate PrintsAt16(text: string, u: nat) {
    |text| >= 24 && text[16..24] == HexWord(u)
  }

  lemma BytesRead(text: string, u: nat, i: nat)
    requires PrintsAt16(text, u) && i < 4
    ensures 16 * Nibble(text[16 + 2 * i]) + Nibble(text[17 + 2 * i]) ==
            [u % 256, u / 256 % 256, u / 0x1_0000 % 256, u / 0x100_0000 % 256][i]
  {
    var b := [u % 256, u / 256 % 256, u / 0x1_0000 % 256, u / 0x100_0000 % 256][i];
    assert text[16..24][2 * i] == HexWord(u)[2 * i] == HexByte(b)[0];
    assert text[16..24][2 * i + 1] == HexWord(u)[2 * i + 1] == HexByte(b)[1];
    NibbleOfDigit(b / 16);
    NibbleOfDigit(b % 16);
  }

  /** The range of a packet pointer is the signed 32-bit number in bytes 8 to 11 of its prefix. */
  lemma RangeReads(text: string, v: int)
    requires -0x8000_0000 <= v < 0x8000_0000
    requires PrintsAt16(text, if v < 0 then v + 0x1_0000_0000 else v)
    ensures PfxRange(text) == v
  {
    var u := if v < 0 then v + 0x1_0000_0000 else v;
    BytesRead(text, u, 0);
    BytesRead(text, u, 1);
    BytesRead(text, u, 2);
    BytesRead(text, u, 3);
    WordOfBytes(u);
  }

  // ---- ids
  // -----------------------------------------------------------------------------------------------------------

  /** The flags of an id are its two top bits, and the base is the rest. */
  lemma FlagsAreTopBits(id: u32)
    ensures id == Flags(id) + Base(id) && Base(id) < 0x4000_0000
    ensures Flags(id) in {0, 0x4000_0000, 0x8000_0000, 0xc000_0000}
  {
  }

  /** The C table is the unbounded one up to 64 pairs; full, it still answers for those and refuses new ones. */
  lemma FullTable(st: IdState, o: nat, c: nat)
    ensures |st.pairs| < 64 ==> IdsMatch(C, st, o, c) == IdsMatch(Python, st, o, c)
    ensures |st.pairs| >= 64 && o != 0 && c != 0 && OneToOne(PairSet(st.pairs)) ==>
              IdsMatch(C, st, o, c) == ((o, c) in st.pairs, st)
  {
    if OneToOne(PairSet(st.pairs)) {
      ScanMeans(st.pairs, o, c);
    }
  }
}
