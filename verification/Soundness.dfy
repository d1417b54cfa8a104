/** Agreement is containment: every assignment of concrete values the current state admits, with
    its equalities and offsets between linked registers, the old state admits too. */
module Soundness {
  import opened Isa
  import opened Bits
  import opened Domains
  import opened IdMap
  import opened Subsume
  import opened Refinement
  import opened Meaning

  /** Concrete values, by register key. */
  type Valuation = Key -> u64

  /** x is in the register's 64-bit arc and tnum, and its low half in the 32-bit arc. */
  ghost predicate Holds(r: Reg, x: u64) {
    && InArc(TWO64, r.b64, r.sz64, x)
    && InArc(TWO32, r.b32, r.sz32, x % TWO32)
    && InTnum(r.vv, r.vm, x)
  }

  /** The value a linked register takes when the value behind its id is b: b itself, or b plus
      delta, cut to 32 bits when only the 32-bit flag is set. */
  function LinkValue(flags: nat, delta: int, b: u64): u64 {
    if flags == 0 then b
    else if flags == FLAG_UNIT then (b + delta) % TWO32
    else (b + delta) % TWO64
  }

  type Bases = map<nat, u64>

  predicate Linked(r: Reg, x: u64, bases: Bases) {
    r.id != 0 ==> Base(r.id) in bases && x == LinkValue(Flags(r.id), r.delta, bases[Base(r.id)])
  }

  ghost predicate OldAdmitsWith(rows: seq<Joined>, exact: nat, val: Valuation, bases: Bases) {
    forall j :: j in rows && Compared(j.0, exact) ==>
      Holds(j.0, val(KeyOf(j.0))) && Linked(j.0, val(KeyOf(j.0)), bases)
  }

  ghost predicate CurAdmitsWith(rows: seq<Joined>, exact: nat, val: Valuation, bases: Bases) {
    forall j :: j in rows && Compared(j.0, exact) ==>
      j.1.Some? && Holds(j.1.value, val(KeyOf(j.0))) && Linked(j.1.value, val(KeyOf(j.0)), bases)
  }

  lemma HoldsCarriesOver(o: Reg, c: Reg, x: u64)
    requires RangeWithin(o, c) && TnumWithin(o, c) && Holds(c, x)
    ensures Holds(o, x)
  {
    ArcSubsetExact(TWO64, o.b64, o.sz64, c.b64, c.sz64);
    ArcSubsetExact(TWO32, o.b32, o.sz32, c.b32, c.sz32);
    TnumInContains(o.vv, o.vm, c.vv, c.vm, x);
  }

  // ---- the old state's bases ------------------------------------------------------------------

  /** The token an old base id is tied to by this register. */
  function BaseToken(j: Joined): Token
    requires j.1.Some?
  {
    if j.1.value.id == 0 then FreshFor(KeyOf(j.0)) else Real(Base(j.1.value.id))
  }

  lemma BaseTokenIsAToken(rows: seq<Joined>, exact: nat, j: Joined)
    requires Consistent(rows, exact) && j in rows && Compared(j.0, exact) && Base(j.0.id) != 0
    ensures (Base(j.0.id), BaseToken(j)) in AllTokens(rows, exact)
  {
    var (o, c) := (j.0, j.1.value);
    assert Flags(o.id) == Flags(c.id);
    assert (Base(o.id), BaseToken(j)) in Tokens(o, c, exact);
  }

  /** What the value behind an old id is, read off one register carrying it. */
  function BaseValue(j: Joined, val: Valuation, bases: Bases): u64
    requires j.1.Some?
  {
    var c := j.1.value;
    if c.id != 0 && Base(c.id) in bases then bases[Base(c.id)] else val(KeyOf(j.0))
  }

  ghost predicate Carries(rows: seq<Joined>, exact: nat, j: Joined, a: nat) {
    j in rows && j.1.Some? && Compared(j.0, exact) && j.0.id != 0 && Base(j.0.id) == a
  }

  ghost function CarriedIds(rows: seq<Joined>, exact: nat): (ids: set<nat>)
    ensures forall a :: a in ids ==> exists j :: Carries(rows, exact, j, a)
  {
    set j | j in rows && Carries(rows, exact, j, Base(j.0.id)) :: Base(j.0.id)
  }

  ghost function OldBases(rows: seq<Joined>, exact: nat, val: Valuation, bases: Bases): Bases {
    map a | a in CarriedIds(rows, exact) :: var w :| Carries(rows, exact, w, a); BaseValue(w, val, bases)
  }

  lemma CarriersAgree(rows: seq<Joined>, exact: nat, val: Valuation, bases: Bases, j: Joined, w: Joined)
    requires Consistent(rows, exact) && JoinedUnique(rows)
    requires CurAdmitsWith(rows, exact, val, bases)
    requires Carries(rows, exact, j, Base(j.0.id)) && Carries(rows, exact, w, Base(j.0.id))
    ensures val(KeyOf(j.0)) == LinkValue(Flags(j.0.id), j.0.delta, BaseValue(w, val, bases))
  {
    if Base(j.0.id) != 0 {
      BaseTokenIsAToken(rows, exact, j);
      BaseTokenIsAToken(rows, exact, w);
    }
    var (o, c) := (j.0, j.1.value);
    assert ScalarOk(o, c) && ScalarOk(w.0, w.1.value);
    assert BaseToken(j) == BaseToken(w);
    if c.id == 0 {
      assert Flags(o.id) == 0 && KeyOf(w.0) == KeyOf(o);
    }
  }

  /** The old state admits whatever the current one does, once the pair is consistent. */
  lemma ConsistentIsSound(rows: seq<Joined>, exact: nat, val: Valuation, bases: Bases)
    requires Consistent(rows, exact) && JoinedUnique(rows)
    requires CurAdmitsWith(rows, exact, val, bases)
    ensures OldAdmitsWith(rows, exact, val, OldBases(rows, exact, val, bases))
  {
    var old_ := OldBases(rows, exact, val, bases);
    forall j | j in rows && Compared(j.0, exact)
      ensures Holds(j.0, val(KeyOf(j.0))) && Linked(j.0, val(KeyOf(j.0)), old_)
    {
      ContainedMeans(j.0, j.1.value);
      HoldsCarriesOver(j.0, j.1.value, val(KeyOf(j.0)));
      if j.0.id != 0 {
        var a := Base(j.0.id);
        assert Carries(rows, exact, j, a) && a in CarriedIds(rows, exact);
        var w :| Carries(rows, exact, w, a) && old_[a] == BaseValue(w, val, bases);
        CarriersAgree(rows, exact, val, bases, j, w);
      }
    }
  }

  /** The rows of a pair, each old register with its counterpart, in walk order. */
  function JoinedPair(old_: seq<Reg>, cur: seq<Reg>): seq<Joined> {
    CJoin(SortByKey(old_), cur)
  }

  lemma JoinedPairOk(old_: seq<Reg>, cur: seq<Reg>)
    requires SideOk(old_)
    ensures JoinedUnique(JoinedPair(old_, cur)) && |JoinedPair(old_, cur)| == |old_|
    ensures forall j :: j in JoinedPair(old_, cur) && j.1.Some? ==> j.0 in old_ && j.1.value in cur
  {
    var sorted, rows := SortByKey(old_), JoinedPair(old_, cur);
    SortKeepsRows(old_);
    SortIsStrict(old_);
    forall j | j in rows && j.1.Some? ensures j.0 in old_ && j.1.value in cur {
      var i :| 0 <= i < |rows| && rows[i] == j;
      assert sorted[i] in old_;
      FindMeans(cur, KeyNo(sorted[i]));
    }
  }

  lemma CWalkIsPyWalk(old_: seq<Reg>, cur: seq<Reg>, exact: nat, tally: Tally)
    requires SideOk(old_) && old_ != [] && cur != []
    ensures CEval(old_, cur, exact, tally) == Walk(Python, JoinedPair(old_, cur), exact, FreshIds, tally)
  {
    JoinedPairOk(old_, cur);
    WalkSameInBoth(JoinedPair(old_, cur), exact, FreshIds, tally);
  }

  /** If the evaluator agrees, every valuation the current side admits is admitted by the old. */
  lemma AgreementIsSound(old_: seq<Reg>, cur: seq<Reg>, exact: nat, tally: Tally, val: Valuation, bases: Bases)
    requires SideOk(old_) && CEval(old_, cur, exact, tally).verdict == Agree
    requires NoClash(JoinedPair(old_, cur), exact, MAX_ID)
    requires CurAdmitsWith(JoinedPair(old_, cur), exact, val, bases)
    ensures exists oldBases :: OldAdmitsWith(JoinedPair(old_, cur), exact, val, oldBases)
  {
    var rows := JoinedPair(old_, cur);
    JoinedPairOk(old_, cur);
    CWalkIsPyWalk(old_, cur, exact, tally);
    AgreementMeans(rows, exact, tally);
    ConsistentIsSound(rows, exact, val, bases);
    assert OldAdmitsWith(rows, exact, val, OldBases(rows, exact, val, bases));
  }

  // ---- without the base cross-check ---------------------------------------------------------------

  /** `check_scalar_ids` as it was before the base ids were compared as well. */
  function ScalarIdsMatchUnchecked(d: Dialect, st: IdState, o: nat, c: nat): (bool, IdState) {
    if o == 0 then (true, st)
    else
      var st0 := if c == 0 then st.(tmp := Bump(d, st.tmp)) else st;
      IdsMatch(d, st0, o, if c == 0 then st0.tmp else c)
  }

  const BOTH_FLAGS := 3 * FLAG_UNIT

  function UnknownScalar(regno: nat, id: u32): Reg {
    Reg(0, regno, SCALAR, 0, 0, TWO64 - 1, 0, TWO64 - 1, 0, TWO32 - 1, id, 0, 0, 1, None)
  }

  /** r2 and r3 share id 0xA in the old state, r3 with a constant added; in the current state they
      carry 0xB and 0xC. */
  const SplitLink: seq<Joined> :=
    [(UnknownScalar(2, 0xA), Some(UnknownScalar(2, 0xB))),
     (UnknownScalar(3, 0xA + BOTH_FLAGS), Some(UnknownScalar(3, 0xC + BOTH_FLAGS)))]

  lemma UnknownHoldsAnything(regno: nat, id: u32, x: u64)
    ensures Holds(UnknownScalar(regno, id), x)
  {
    WordSizes();
    FullMaskClears(x, 64);
  }

  /** Matching only the compound ids lets the pair through, although the current state admits
      values the old one does not; the cross-check refuses it. */
  lemma BaseCrossCheckIsNeeded(val: Valuation)
    requires val((0, 2)) == 0 && val((0, 3)) == 5
    ensures var first := ScalarIdsMatchUnchecked(C, FreshIds, 0xA, 0xB);
            first.0 && ScalarIdsMatchUnchecked(C, first.1, 0xA + BOTH_FLAGS, 0xC + BOTH_FLAGS).0
    ensures var first := ScalarIdsMatch(C, FreshIds, 0xA, 0xB);
            first.0 && !ScalarIdsMatch(C, first.1, 0xA + BOTH_FLAGS, 0xC + BOTH_FLAGS).0
    ensures CurAdmitsWith(SplitLink, 0, val, map[0xB := 0, 0xC := 5])
    ensures forall bases :: !OldAdmitsWith(SplitLink, 0, val, bases)
  {
    assert Base(0xA + BOTH_FLAGS) == 0xA && Base(0xC + BOTH_FLAGS) == 0xC;
    assert FreshIds.pairs + [(0xA, 0xB)] == [(0xA, 0xB)];
    assert ScalarIdsMatchUnchecked(C, FreshIds, 0xA, 0xB) == (true, IdState([(0xA, 0xB)], MAX_ID));
    assert Scan([(0xA, 0xB)], 0xA + BOTH_FLAGS, 0xC + BOTH_FLAGS) == None;
    var table := [(0xA, 0xB), (0xA + BOTH_FLAGS, 0xC + BOTH_FLAGS)];
    assert Scan(table, 0xA, 0xC) == Some(false);
    UnknownHoldsAnything(2, 0xB, 0);
    UnknownHoldsAnything(3, 0xC + BOTH_FLAGS, 5);
    forall bases ensures !OldAdmitsWith(SplitLink, 0, val, bases) {
      assert SplitLink[0] in SplitLink && SplitLink[1] in SplitLink;
    }
  }
}
