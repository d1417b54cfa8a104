/** What agreement means: the order-sensitive walk accepts exactly when every register passes
    its own tests and the ids of the whole pair form a one-to-one relation. */
module Meaning {
  import opened Isa
  import opened Bits
  import opened Domains
  import opened IdMap
  import opened Subsume
  import opened Refinement

  /** The current side of an id pair: a real id, or the fresh one a register without id gets. */
  datatype Token = Real(id: nat) | FreshFor(key: Key)

  /** The scalars the walk actually compares: precise ones, and all of them in an exact comparison. */
  predicate Compared(o: Reg, exact: nat) {
    o.t == 1 && (o.prec != 0 || exact != 0)
  }

  predicate BothZero(x: nat, y: nat) { (x != 0) == (y != 0) }

  /** Every value of the current ranges is one of the old. */
  ghost predicate RangesCovered(o: Reg, c: Reg) {
    && (forall x :: 0 <= x < TWO64 && InArc(TWO64, c.b64, c.sz64, x) ==> InArc(TWO64, o.b64, o.sz64, x))
    && (forall x :: 0 <= x < TWO32 && InArc(TWO32, c.b32, c.sz32, x) ==> InArc(TWO32, o.b32, o.sz32, x))
  }

  /** Whatever agrees with the current value outside the current mask is a value of the old tnum. */
  ghost predicate TnumCovered(o: Reg, c: Reg) {
    forall x: nat :: AndNot(x, c.vm) == AndNot(c.vv, c.vm) ==> InTnum(o.vv, o.vm, x)
  }

  lemma ContainedMeans(o: Reg, c: Reg)
    ensures RangeWithin(o, c) <==> RangesCovered(o, c)
    ensures TnumWithin(o, c) <==> TnumCovered(o, c)
  {
    ArcSubsetExact(TWO64, o.b64, o.sz64, c.b64, c.sz64);
    ArcSubsetExact(TWO32, o.b32, o.sz32, c.b32, c.sz32);
    TnumInMeans(o.vv, o.vm, c.vv, c.vm);
  }

  /** The pointer types compared by prefix bytes, and the packet ones. */
  predicate ByPrefix(base: nat) { base == 4 || base == 5 || base == 14 || base == 17 || base == 19 || base == 21 }

  predicate ByRange(base: nat) { base == 7 || base == 8 }

  /** The first n characters agree, where there are as many. */
  predicate SameStart(a: string, b: string, n: nat) {
    if n <= |a| && n <= |b| then a[..n] == b[..n] else a == b || (n <= |a| && a[..n] == b) || (n <= |b| && b[..n] == a)
  }

  /** By type: arena pointers always pass; the prefix family needs the same prefix bytes, covered ranges and
      tnum, and both ids on both sides, instruction pointers no ids; packet pointers need no more range than the
      current one has, and a negative range only meets itself; all others the same prefix whole, stack pointers
      the same frame besides. */
  ghost predicate PointerOk(o: Reg, c: Reg)
    requires o.pfx.Some? && c.pfx.Some?
  {
    var base, op, cp := o.t % 0x100, o.pfx.value, c.pfx.value;
    if base == 18 then true
    else if ByPrefix(base) then
      && SameStart(op.text, cp.text, 2 * op.vo) && RangesCovered(o, c) && TnumCovered(o, c)
      && (base != 21 ==> BothZero(o.id, c.id) && BothZero(o.pid, c.pid))
    else if ByRange(base) then
      var ro, rc := PfxRange(op.text), PfxRange(cp.text);
      && (if ro < 0 || rc < 0 then ro == rc else ro <= rc) && BothZero(o.id, c.id)
      && RangesCovered(o, c) && TnumCovered(o, c)
    else
      op.text == cp.text && (base == 6 ==> o.fno == c.fno) && BothZero(o.id, c.id) && BothZero(o.pid, c.pid)
  }

  lemma SameStartMeans(a: string, b: string, n: nat)
    ensures Prefix(a, n) == Prefix(b, n) <==> SameStart(a, b, n)
  {
  }

  ghost predicate ScalarOk(o: Reg, c: Reg) {
    && (o.id != 0 ==> Flags(o.id) == Flags(c.id))
    && (Flags(o.id) != 0 ==> o.delta == c.delta && BothZero(Base(o.id), Base(c.id)))
    && RangesCovered(o, c) && TnumCovered(o, c)
  }

  /** Everything about one register that does not involve the id relation. */
  ghost predicate LocalOk(o: Reg, c: Reg, exact: nat) {
    && o.t == c.t
    && (o.t != 1 && o.pfx.Some? && c.pfx.Some? ==> PointerOk(o, c))
    && (Compared(o, exact) ==> ScalarOk(o, c))
  }

  function Pair(o: nat, t: Token): set<(nat, Token)> {
    if o == 0 then {} else {(o, t)}
  }

  /** The id pairs one register contributes, in no order. */
  function Tokens(o: Reg, c: Reg, exact: nat): set<(nat, Token)> {
    if o.t != 1 then
      var base := o.t % 0x100;
      if o.pfx.None? || c.pfx.None? || base == 18 || base == 21 then {}
      else if ByRange(base) then Pair(o.id, Real(c.id))
      else Pair(o.id, Real(c.id)) + Pair(o.pid, Real(c.pid))
    else if !Compared(o, exact) || o.id == 0 then {}
    else if c.id == 0 then {(o.id, FreshFor(KeyOf(o)))}
    else if Flags(o.id) == 0 then {(o.id, Real(c.id))}
    else {(o.id, Real(c.id))} + Pair(Base(o.id), Real(Base(c.id)))
  }

  predicate NeedsFresh(o: Reg, c: Reg, exact: nat) {
    Compared(o, exact) && o.id != 0 && c.id == 0
  }

  /** The number a token stands for when a register's fresh id is tmp + 1. */
  function Number(t: Token, tmp: nat): nat {
    match t
    case Real(id) => id
    case FreshFor(_) => tmp + 1
  }

  function Numbered(s: set<(nat, Token)>, tmp: nat): set<(nat, nat)> {
    set p | p in s :: (p.0, Number(p.1, tmp))
  }

  // ---- one register -------------------------------------------------------------------------------

  /** Two calls in a row. */
  lemma TwoCallsMean(d: Dialect, ids: IdState, o1: nat, c1: nat, o2: nat, c2: nat)
    requires d == Python && OneToOne(PairSet(ids.pairs)) && BothZero(o1, c1) && BothZero(o2, c2)
    ensures var pairs := (if o1 == 0 then {} else {(o1, c1)}) + (if o2 == 0 then {} else {(o2, c2)});
            var (ok1, mid) := IdsMatch(d, ids, o1, c1);
            var (ok2, next) := IdsMatch(d, mid, o2, c2);
            && ((ok1 && ok2) <==> OneToOne(PairSet(ids.pairs) + pairs))
            && (ok1 && ok2 ==> PairSet(next.pairs) == PairSet(ids.pairs) + pairs && next.tmp == ids.tmp)
  {
    var s := PairSet(ids.pairs);
    var p1: set<(nat, nat)> := if o1 == 0 then {} else {(o1, c1)};
    var p2: set<(nat, nat)> := if o2 == 0 then {} else {(o2, c2)};
    var (ok1, mid) := IdsMatch(d, ids, o1, c1);
    if o1 != 0 {
      IdsMatchMeans(d, ids, o1, c1);
    } else {
      assert s + p1 == s;
    }
    if ok1 {
      if o2 != 0 {
        IdsMatchMeans(d, mid, o2, c2);
      } else {
        assert s + p1 + p2 == s + p1;
      }
      assert s + (p1 + p2) == s + p1 + p2;
    } else if OneToOne(s + (p1 + p2)) {
      OneToOneShrinks(s + p1, s + (p1 + p2));
    }
  }

  lemma TwoIdsMean(ids: IdState, o: Reg, c: Reg)
    requires OneToOne(PairSet(ids.pairs))
    ensures var (ok, next) := TwoIds(Python, ids, o, c);
            var pairs := Numbered(Pair(o.id, Real(c.id)) + Pair(o.pid, Real(c.pid)), ids.tmp);
            && (ok <==> BothZero(o.id, c.id) && BothZero(o.pid, c.pid) && OneToOne(PairSet(ids.pairs) + pairs))
            && (ok ==> PairSet(next.pairs) == PairSet(ids.pairs) + pairs && next.tmp == ids.tmp)
  {
    if BothZero(o.id, c.id) && BothZero(o.pid, c.pid) {
      TwoCallsMean(Python, ids, o.id, c.id, o.pid, c.pid);
      assert Numbered(Pair(o.id, Real(c.id)) + Pair(o.pid, Real(c.pid)), ids.tmp) ==
             (if o.id == 0 then {} else {(o.id, c.id)}) + (if o.pid == 0 then {} else {(o.pid, c.pid)});
    }
  }

  lemma OneIdMeans(ids: IdState, o: nat, c: nat)
    requires OneToOne(PairSet(ids.pairs))
    ensures var (ok, next) := IdsMatch(Python, ids, o, c);
            var pairs := Numbered(Pair(o, Real(c)), ids.tmp);
            && (ok <==> BothZero(o, c) && OneToOne(PairSet(ids.pairs) + pairs))
            && (ok ==> PairSet(next.pairs) == PairSet(ids.pairs) + pairs && next.tmp == ids.tmp)
  {
    if BothZero(o, c) {
      TwoCallsMean(Python, ids, o, c, 0, 0);
      assert Numbered(Pair(o, Real(c)), ids.tmp) == if o == 0 then {} else {(o, c)};
      assert PairSet(ids.pairs) + ((if o == 0 then {} else {(o, c)}) + {}) ==
             PairSet(ids.pairs) + if o == 0 then {} else {(o, c)};
    }
  }

  lemma PointerMeans(o: Reg, c: Reg, exact: nat, ids: IdState)
    requires OneToOne(PairSet(ids.pairs)) && o.t != SCALAR && o.t == c.t && o.pfx.Some? && c.pfx.Some?
    ensures var (arm, next) := PointerStep(Python, o, c, ids);
            var pairs := Numbered(Tokens(o, c, exact), ids.tmp);
            && (arm.None? <==> PointerOk(o, c) && OneToOne(PairSet(ids.pairs) + pairs))
            && (arm.None? ==> PairSet(next.pairs) == PairSet(ids.pairs) + pairs && next.tmp == ids.tmp)
  {
    var base := o.t % 0x100;
    ContainedMeans(o, c);
    SameStartMeans(o.pfx.value.text, c.pfx.value.text, 2 * o.pfx.value.vo);
    if base == ARENA || base == INSN {
      assert PairSet(ids.pairs) + Numbered({}, ids.tmp) == PairSet(ids.pairs);
    } else if IsPacket(base) {
      OneIdMeans(ids, o.id, c.id);
    } else {
      TwoIdsMean(ids, o, c);
    }
  }

  lemma ScalarIdsMean(ids: IdState, o: nat, c: nat)
    requires OneToOne(PairSet(ids.pairs)) && o != 0 && Flags(o) == Flags(c)
    ensures var (ok, next) := ScalarIdsMatch(Python, ids, o, c);
            var c0 := if c == 0 then ids.tmp + 1 else c;
            var pairs := {(o, c0)} + if Flags(o) == 0 || Base(o) == 0 then {} else {(Base(o), Base(c0))};
            && (ok <==> (Flags(o) != 0 ==> BothZero(Base(o), Base(c))) && OneToOne(PairSet(ids.pairs) + pairs))
            && (ok ==> PairSet(next.pairs) == PairSet(ids.pairs) + pairs)
            && (ok ==> next.tmp == if c == 0 then ids.tmp + 1 else ids.tmp)
  {
    var st0 := if c == 0 then ids.(tmp := ids.tmp + 1) else ids;
    var c0 := if c == 0 then st0.tmp else c;
    if Flags(o) == 0 {
      TwoCallsMean(Python, st0, o, c0, 0, 0);
      assert {(o, c0)} + {} == {(o, c0)};
    } else if BothZero(Base(o), Base(c)) {
      TwoCallsMean(Python, st0, o, c0, Base(o), Base(c0));
    }
  }

  lemma NumberedScalar(o: Reg, c: Reg, exact: nat, tmp: nat)
    requires Compared(o, exact) && Flags(o.id) == Flags(c.id)
    ensures var c0 := if c.id == 0 then tmp + 1 else c.id;
            Numbered(Tokens(o, c, exact), tmp) ==
            if o.id == 0 then {}
            else {(o.id, c0)} + if Flags(o.id) == 0 || Base(o.id) == 0 then {} else {(Base(o.id), Base(c0))}
  {
  }

  lemma ScalarMeans(o: Reg, c: Reg, exact: nat, ids: IdState)
    requires OneToOne(PairSet(ids.pairs)) && Compared(o, exact)
    ensures var (arm, next, _) := ScalarStep(Python, o, c, ids);
            var pairs := Numbered(Tokens(o, c, exact), ids.tmp);
            && (arm.None? <==> ScalarOk(o, c) && OneToOne(PairSet(ids.pairs) + pairs))
            && (arm.None? ==> PairSet(next.pairs) == PairSet(ids.pairs) + pairs)
            && (arm.None? ==> next.tmp == if NeedsFresh(o, c, exact) then ids.tmp + 1 else ids.tmp)
  {
    var pairs := Numbered(Tokens(o, c, exact), ids.tmp);
    ContainedMeans(o, c);
    if o.id == 0 {
      assert Tokens(o, c, exact) == {};
      assert PairSet(ids.pairs) + pairs == PairSet(ids.pairs);
    } else if Flags(o.id) == Flags(c.id) {
      NumberedScalar(o, c, exact, ids.tmp);
      ScalarIdsMean(ids, o.id, c.id);
    }
  }

  lemma StepMeans(o: Reg, c: Reg, exact: nat, ids: IdState, tally: Tally)
    requires OneToOne(PairSet(ids.pairs))
    ensures var step := RegStep(Python, o, c, exact, ids, tally);
            var pairs := Numbered(Tokens(o, c, exact), ids.tmp);
            && (step.arm.None? <==> LocalOk(o, c, exact) && OneToOne(PairSet(ids.pairs) + pairs))
            && (step.arm.None? ==> PairSet(step.ids.pairs) == PairSet(ids.pairs) + pairs)
            && (step.arm.None? ==> step.ids.tmp == if NeedsFresh(o, c, exact) then ids.tmp + 1 else ids.tmp)
  {
    var s := PairSet(ids.pairs);
    assert s + Numbered({}, ids.tmp) == s;
    if o.t == c.t {
      if o.t != SCALAR {
        if o.pfx.Some? && c.pfx.Some? {
          PointerMeans(o, c, exact, ids);
        }
      } else if Compared(o, exact) {
        ScalarMeans(o, c, exact, ids);
      }
    }
  }

  // ---- the whole walk -----------------------------------------------------------------------------

  ghost predicate AllLocalOk(rows: seq<Joined>, exact: nat) {
    forall j :: j in rows ==> j.1.Some? && LocalOk(j.0, j.1.value, exact)
  }

  /** All concrete pairs, fresh ids numbered from tmp + 1 in walk order. */
  function AllPairs(rows: seq<Joined>, exact: nat, tmp: nat): set<(nat, nat)> {
    if rows == [] || rows[0].1.None? then {}
    else
      var (o, c) := (rows[0].0, rows[0].1.value);
      Numbered(Tokens(o, c, exact), tmp) + AllPairs(rows[1..], exact, if NeedsFresh(o, c, exact) then tmp + 1 else tmp)
  }

  lemma {:induction false} WalkMeans(rows: seq<Joined>, exact: nat, ids: IdState, tally: Tally)
    requires OneToOne(PairSet(ids.pairs))
    ensures Walk(Python, rows, exact, ids, tally).verdict == Agree <==>
            AllLocalOk(rows, exact) && OneToOne(PairSet(ids.pairs) + AllPairs(rows, exact, ids.tmp))
    decreases |rows|
  {
    var s := PairSet(ids.pairs);
    if rows == [] {
      assert s + {} == s;
    } else {
      assert rows == [rows[0]] + rows[1..];
      assert rows[0] in rows;
      if rows[0].1.Some? {
        var (o, c) := (rows[0].0, rows[0].1.value);
        StepMeans(o, c, exact, ids, tally);
        var step := RegStep(Python, o, c, exact, ids, tally);
        var here := Numbered(Tokens(o, c, exact), ids.tmp);
        var all := s + AllPairs(rows, exact, ids.tmp);
        if step.arm.None? {
          WalkMeans(rows[1..], exact, step.ids, step.tally);
          assert all == PairSet(step.ids.pairs) + AllPairs(rows[1..], exact, step.ids.tmp);
        } else if OneToOne(all) {
          OneToOneShrinks(s + here, all);
        }
      }
    }
  }

  // ---- fresh ids can be named by their register ------------------------------------------------------

  function AllTokens(rows: seq<Joined>, exact: nat): set<(nat, Token)> {
    set j, p | j in rows && j.1.Some? && p in Tokens(j.0, j.1.value, exact) :: p
  }

  /** The number the walk gives a token. */
  function Conc(rows: seq<Joined>, exact: nat, tmp: nat, t: Token): nat {
    if t.Real? then t.id
    else if rows == [] || rows[0].1.None? then 0
    else
      var (o, c) := (rows[0].0, rows[0].1.value);
      if NeedsFresh(o, c, exact) then
        if KeyOf(o) == t.key then tmp + 1 else Conc(rows[1..], exact, tmp + 1, t)
      else Conc(rows[1..], exact, tmp, t)
  }

  predicate JoinedUnique(rows: seq<Joined>) {
    forall i, j :: 0 <= i < j < |rows| ==> KeyOf(rows[i].0) != KeyOf(rows[j].0)
  }

  /** How many registers get a fresh id. */
  function FreshCount(rows: seq<Joined>, exact: nat): (n: nat)
    ensures n <= |rows|
  {
    if rows == [] || rows[0].1.None? then 0
    else FreshCount(rows[1..], exact) + if NeedsFresh(rows[0].0, rows[0].1.value, exact) then 1 else 0
  }

  /** No current register carries a number that is handed out as fresh. */
  predicate NoClash(rows: seq<Joined>, exact: nat, tmp: nat) {
    forall p :: p in AllTokens(rows, exact) && p.1.Real? ==> !(tmp < p.1.id <= tmp + FreshCount(rows, exact))
  }

  lemma TokenShapeOf(o: Reg, c: Reg, exact: nat, p: (nat, Token))
    requires p in Tokens(o, c, exact)
    ensures p.1.Real? || (p.1.key == KeyOf(o) && NeedsFresh(o, c, exact))
  {
  }

  ghost predicate IsFresh(rows: seq<Joined>, exact: nat, k: Key) {
    exists j :: j in rows && j.1.Some? && KeyOf(j.0) == k && NeedsFresh(j.0, j.1.value, exact)
  }

  /** Every token of the rows is a real id, or fresh for one of the rows' keys. */
  lemma TokenShape(rows: seq<Joined>, exact: nat, p: (nat, Token))
    requires p in AllTokens(rows, exact)
    ensures p.1.Real? || IsFresh(rows, exact, p.1.key)
  {
  }

  lemma {:induction false} FreshNumbersAreInRange(rows: seq<Joined>, exact: nat, tmp: nat, k: Key)
    requires IsFresh(rows, exact, k)
    requires forall j :: j in rows ==> j.1.Some?
    ensures tmp < Conc(rows, exact, tmp, FreshFor(k)) <= tmp + FreshCount(rows, exact)
    decreases |rows|
  {
    var (o, c) := (rows[0].0, rows[0].1.value);
    assert rows == [rows[0]] + rows[1..];
    if !(NeedsFresh(o, c, exact) && KeyOf(o) == k) {
      FreshNumbersAreInRange(rows[1..], exact, if NeedsFresh(o, c, exact) then tmp + 1 else tmp, k);
    }
  }

  lemma {:induction false} FreshNumbersAreDistinct(rows: seq<Joined>, exact: nat, tmp: nat, k: Key, m: Key)
    requires IsFresh(rows, exact, k) && IsFresh(rows, exact, m)
    requires (forall j :: j in rows ==> j.1.Some?) && k != m
    ensures Conc(rows, exact, tmp, FreshFor(k)) != Conc(rows, exact, tmp, FreshFor(m))
    decreases |rows|
  {
    var (o, c) := (rows[0].0, rows[0].1.value);
    assert rows == [rows[0]] + rows[1..];
    var tmp' := if NeedsFresh(o, c, exact) then tmp + 1 else tmp;
    if NeedsFresh(o, c, exact) && KeyOf(o) == k {
      FreshNumbersAreInRange(rows[1..], exact, tmp', m);
    } else if NeedsFresh(o, c, exact) && KeyOf(o) == m {
      FreshNumbersAreInRange(rows[1..], exact, tmp', k);
    } else {
      FreshNumbersAreDistinct(rows[1..], exact, tmp', k, m);
    }
  }

  lemma ConcIsInjective(rows: seq<Joined>, exact: nat, tmp: nat, p: (nat, Token), q: (nat, Token))
    requires AllLocalOk(rows, exact) && NoClash(rows, exact, tmp)
    requires p in AllTokens(rows, exact) && q in AllTokens(rows, exact)
    ensures Conc(rows, exact, tmp, p.1) == Conc(rows, exact, tmp, q.1) <==> p.1 == q.1
  {
    TokenShape(rows, exact, p);
    TokenShape(rows, exact, q);
    if p.1.FreshFor? {
      FreshNumbersAreInRange(rows, exact, tmp, p.1.key);
    }
    if q.1.FreshFor? {
      FreshNumbersAreInRange(rows, exact, tmp, q.1.key);
    }
    if p.1.FreshFor? && q.1.FreshFor? && p.1 != q.1 {
      FreshNumbersAreDistinct(rows, exact, tmp, p.1.key, q.1.key);
    }
  }

  function Image(s: set<(nat, Token)>, rows: seq<Joined>, exact: nat, tmp: nat): set<(nat, nat)> {
    set p | p in s :: (p.0, Conc(rows, exact, tmp, p.1))
  }

  lemma ConcStep(rows: seq<Joined>, exact: nat, tmp: nat)
    requires rows != [] && AllLocalOk(rows, exact) && JoinedUnique(rows)
    ensures var (o, c) := (rows[0].0, rows[0].1.value);
            var tmp' := if NeedsFresh(o, c, exact) then tmp + 1 else tmp;
            && Image(Tokens(o, c, exact), rows, exact, tmp) == Numbered(Tokens(o, c, exact), tmp)
            && Image(AllTokens(rows[1..], exact), rows, exact, tmp) ==
                Image(AllTokens(rows[1..], exact), rows[1..], exact, tmp')
  {
    assert rows[0] in rows;
    var (o, c) := (rows[0].0, rows[0].1.value);
    var rest, tmp' := rows[1..], if NeedsFresh(o, c, exact) then tmp + 1 else tmp;
    forall p | p in Tokens(o, c, exact) ensures Conc(rows, exact, tmp, p.1) == Number(p.1, tmp) {
      TokenShapeOf(o, c, exact, p);
    }
    forall p | p in AllTokens(rest, exact) ensures Conc(rows, exact, tmp, p.1) == Conc(rest, exact, tmp', p.1) {
      TokenShape(rest, exact, p);
      if p.1.FreshFor? {
        var j :| j in rest && j.1.Some? && KeyOf(j.0) == p.1.key;
        var i :| 0 <= i < |rest| && rest[i] == j;
        assert rows[i + 1] == j;
      }
    }
  }

  /** The walk's concrete pairs are the tokens, numbered. */
  lemma {:induction false} PairsAreNumberedTokens(rows: seq<Joined>, exact: nat, tmp: nat)
    requires AllLocalOk(rows, exact) && JoinedUnique(rows)
    ensures AllPairs(rows, exact, tmp) == Image(AllTokens(rows, exact), rows, exact, tmp)
    decreases |rows|
  {
    if rows != [] {
      var (first, rest) := (rows[0], rows[1..]);
      assert rows == [first] + rest && first in rows;
      var (o, c) := (first.0, first.1.value);
      PairsAreNumberedTokens(rest, exact, if NeedsFresh(o, c, exact) then tmp + 1 else tmp);
      ConcStep(rows, exact, tmp);
      TokensSplit(first, rest, exact);
      ImageUnion(Tokens(o, c, exact), AllTokens(rest, exact), rows, exact, tmp);
    }
  }

  lemma TokensSplit(first: Joined, rest: seq<Joined>, exact: nat)
    requires first.1.Some?
    ensures AllTokens([first] + rest, exact) == Tokens(first.0, first.1.value, exact) + AllTokens(rest, exact)
  {
  }

  lemma ImageUnion(a: set<(nat, Token)>, b: set<(nat, Token)>, rows: seq<Joined>, exact: nat, tmp: nat)
    ensures Image(a + b, rows, exact, tmp) == Image(a, rows, exact, tmp) + Image(b, rows, exact, tmp)
  {
  }

  lemma NumberingKeepsOneToOne(rows: seq<Joined>, exact: nat, tmp: nat)
    requires AllLocalOk(rows, exact) && JoinedUnique(rows) && NoClash(rows, exact, tmp)
    ensures OneToOne(AllPairs(rows, exact, tmp)) <==> OneToOne(AllTokens(rows, exact))
  {
    PairsAreNumberedTokens(rows, exact, tmp);
    var tokens, pairs := AllTokens(rows, exact), AllPairs(rows, exact, tmp);
    if OneToOne(pairs) {
      forall p, q | p in tokens && q in tokens ensures p.0 == q.0 <==> p.1 == q.1 {
        ConcIsInjective(rows, exact, tmp, p, q);
        assert (p.0, Conc(rows, exact, tmp, p.1)) in pairs && (q.0, Conc(rows, exact, tmp, q.1)) in pairs;
      }
    }
    if OneToOne(tokens) {
      forall x, y | x in pairs && y in pairs ensures x.0 == y.0 <==> x.1 == y.1 {
        var p :| p in tokens && x == (p.0, Conc(rows, exact, tmp, p.1));
        var q :| q in tokens && y == (q.0, Conc(rows, exact, tmp, q.1));
        ConcIsInjective(rows, exact, tmp, p, q);
      }
    }
  }

  /** What agreement asks of a pair, as properties of its set of rows. */
  ghost predicate Consistent(rows: seq<Joined>, exact: nat) {
    AllLocalOk(rows, exact) && OneToOne(AllTokens(rows, exact))
  }

  /** Agreement, for ids of any size, where no real id meets a fresh one. */
  lemma AgreementMeans(rows: seq<Joined>, exact: nat, tally: Tally)
    requires JoinedUnique(rows) && NoClash(rows, exact, MAX_ID)
    ensures Walk(Python, rows, exact, FreshIds, tally).verdict == Agree <==> Consistent(rows, exact)
  {
    assert PairSet([]) == {};
    WalkMeans(rows, exact, FreshIds, tally);
    assert {} + AllPairs(rows, exact, MAX_ID) == AllPairs(rows, exact, MAX_ID);
    if AllLocalOk(rows, exact) {
      NumberingKeepsOneToOne(rows, exact, MAX_ID);
    }
  }

  function FreshKeys(rows: seq<Joined>, exact: nat): set<Key> {
    set j | j in rows && j.1.Some? && NeedsFresh(j.0, j.1.value, exact) :: KeyOf(j.0)
  }

  lemma {:induction false} FreshKeysCount(rows: seq<Joined>, exact: nat)
    requires JoinedUnique(rows) && forall j :: j in rows ==> j.1.Some?
    ensures FreshCount(rows, exact) == |FreshKeys(rows, exact)|
  {
    if rows != [] {
      var first, rest := rows[0], rows[1..];
      assert rows == [first] + rest;
      FreshKeysCount(rest, exact);
      if NeedsFresh(first.0, first.1.value, exact) {
        assert FreshKeys(rows, exact) == FreshKeys(rest, exact) + {KeyOf(first.0)};
        assert KeyOf(first.0) !in FreshKeys(rest, exact);
      } else {
        assert FreshKeys(rows, exact) == FreshKeys(rest, exact);
      }
    }
  }

  /** A pair one of whose registers has no counterpart never agrees. */
  lemma {:induction false} UnpairedNeverAgrees(rows: seq<Joined>, exact: nat, ids: IdState, tally: Tally, j: Joined)
    requires j in rows && j.1.None?
    ensures Walk(Python, rows, exact, ids, tally).verdict != Agree
    decreases |rows|
  {
    if rows[0].1.Some? {
      var step := RegStep(Python, rows[0].0, rows[0].1.value, exact, ids, tally);
      if step.arm.None? {
        assert rows == [rows[0]] + rows[1..];
        UnpairedNeverAgrees(rows[1..], exact, step.ids, step.tally, j);
      }
    }
  }

  /** The id table is filled incrementally, yet whether a pair agrees does not depend on the order
      in which its registers are walked. */
  lemma AgreementIsOrderFree(rows: seq<Joined>, shuffled: seq<Joined>, exact: nat, tally: Tally)
    requires JoinedUnique(rows) && NoClash(rows, exact, MAX_ID)
    requires JoinedUnique(shuffled) && forall j :: j in rows <==> j in shuffled
    ensures Walk(Python, rows, exact, FreshIds, tally).verdict == Agree <==>
            Walk(Python, shuffled, exact, FreshIds, tally).verdict == Agree
  {
    assert AllTokens(rows, exact) == AllTokens(shuffled, exact);
    if j :| j in rows && j.1.None? {
      UnpairedNeverAgrees(rows, exact, FreshIds, tally, j);
      UnpairedNeverAgrees(shuffled, exact, FreshIds, tally, j);
    } else {
      FreshKeysCount(rows, exact);
      FreshKeysCount(shuffled, exact);
      assert FreshKeys(rows, exact) == FreshKeys(shuffled, exact);
      AgreementMeans(rows, exact, tally);
      AgreementMeans(shuffled, exact, tally);
    }
  }
}
