/** The Python model's `evaluate`: dictionaries keyed by frame and register, a growing id list,
    and one exit at which a pair is accounted for. */
module Reference {
  import opened Isa
  import opened Domains
  import opened IdMap
  import opened Subsume

  /** The counters of `class Stats` that the cnum era touches. */
  class Stats {
    var tally: Tally
    var agreeTrivial: nat
    var agreeNontrivial: nat
    var breaks: nat
    var unmodelled: nat
    var nontrivialLegacy: nat

    constructor ()
      ensures tally == Nothing && agreeTrivial == agreeNontrivial == breaks == unmodelled == nontrivialLegacy == 0
    {
      tally := Nothing;
      agreeTrivial, agreeNontrivial, breaks, unmodelled, nontrivialLegacy := 0, 0, 0, 0, 0;
    }

    /** The four terminal categories. */
    function Pairs(): nat
      reads this
    {
      agreeTrivial + agreeNontrivial + breaks + unmodelled
    }
  }

  lemma {:induction false} LeastKey(keys: set<Key>) returns (k: Key)
    requires keys != {}
    ensures k in keys && forall j :: j in keys ==> j == k || KeyLess(k, j)
  {
    var x :| x in keys;
    k := x;
    if keys != {x} {
      var y := LeastKey(keys - {x});
      assert keys == (keys - {x}) + {x};
      if KeyLess(y, x) {
        k := y;
      }
    }
  }

  ghost predicate Ascending(ks: seq<Key>) {
    forall i, j :: 0 <= i < j < |ks| ==> KeyLess(ks[i], ks[j])
  }

  method SortedKeys(keys: set<Key>) returns (ks: seq<Key>)
    ensures Ascending(ks) && forall k :: k in ks <==> k in keys
  {
    ks := [];
    var left := keys;
    while left != {}
      invariant left <= keys && Ascending(ks)
      invariant forall k :: k in ks <==> k in keys && k !in left
      invariant forall i, k :: 0 <= i < |ks| && k in left ==> KeyLess(ks[i], k)
      decreases left
    {
      ghost var least := LeastKey(left);
      var k :| k in left && forall j :: j in left ==> j == k || KeyLess(k, j);
      ks := ks + [k];
      left := left - {k};
    }
  }

  /** `sorted(m.items())`. */
  method SortedItems(m: map<Key, Reg>) returns (rows: seq<Reg>)
    requires forall k :: k in m ==> KeyOf(m[k]) == k
    ensures Enumerates(rows, m)
  {
    var ks := SortedKeys(m.Keys);
    rows := seq(|ks|, i requires 0 <= i < |ks| => m[ks[i]]);
    forall k ensures k in KeySet(rows) <==> k in m {
      if k in m {
        var i :| 0 <= i < |ks| && ks[i] == k;
        assert rows[i] in rows && KeyOf(rows[i]) == k;
      }
    }
  }

  method PyPointer(o: Reg, c: Reg, ids: PyIdMap) returns (arm: Option<Arm>)
    requires o.pfx.Some? && c.pfx.Some?
    modifies ids
    ensures (arm, ids.Abs()) == old(PointerStep(Python, o, c, ids.Abs()))
  {
    var base, op, cp := o.t % 0x100, o.pfx.value, c.pfx.value;
    if base == ARENA {
      return None;
    }
    var rw, ti := RangeWithin(o, c), TnumWithin(o, c);
    if PfxFamily(base) || base == INSN {
      if Prefix(op.text, 2 * op.vo) != Prefix(cp.text, 2 * op.vo) {
        return Some(PtrMemcmp);
      } else if !rw {
        return Some(PtrRangeWithin);
      } else if !ti {
        return Some(PtrTnumIn);
      } else if base != INSN {
        var ok := ids.CheckIds(o.id, c.id);
        if ok {
          ok := ids.CheckIds(o.pid, c.pid);
        }
        return Gate(ok, PtrCheckIds);
      }
      return None;
    }
    if IsPacket(base) {
      var ro, rc := PfxRange(op.text), PfxRange(cp.text);
      if ro < 0 || rc < 0 {
        if ro != rc {
          return Some(PktRange);
        }
      } else if ro > rc {
        return Some(PktRange);
      }
      var ok := ids.CheckIds(o.id, c.id);
      if !ok {
        return Some(PtrCheckIds);
      }
      return Gate(rw && ti, PtrRangeWithin);
    }
    if op.text != cp.text {
      return Some(RegsExact);
    }
    if base == STACK_PTR && o.fno != c.fno {
      return Some(Frameno);
    }
    var ok := ids.CheckIds(o.id, c.id);
    if ok {
      ok := ids.CheckIds(o.pid, c.pid);
    }
    return Gate(ok, PtrCheckIds);
  }

  method PyRegister(o: Reg, c: Reg, exact: nat, ids: PyIdMap, st: Stats) returns (arm: Option<Arm>)
    modifies ids, st`tally
    ensures Stepped(arm, ids.Abs(), st.tally) == old(RegStep(Python, o, c, exact, ids.Abs(), st.tally))
  {
    if o.t != c.t {
      return Some(TypeArm);
    }
    if o.t != SCALAR {
      if o.pfx.None? || c.pfx.None? {
        return None;
      }
      st.tally := st.tally.(ptrCmp := st.tally.ptrCmp + 1);
      arm := PyPointer(o, c, ids);
      return;
    }
    if o.prec == 0 && exact == 0 {
      st.tally := st.tally.(shortcircuit := st.tally.shortcircuit + 1);
      return None;
    }
    if o.id != 0 && Flags(o.id) != Flags(c.id) {
      return Some(AddConstFlag);
    }
    if Flags(o.id) != 0 && o.delta != c.delta {
      return Some(Delta);
    }
    var ok := ids.CheckScalarIds(o.id, c.id);
    if !ok {
      return Some(CheckScalarIds);
    }
    st.tally := st.tally.(scalarCmp := st.tally.scalarCmp + 1);
    if !RangeWithin(o, c) {
      return Some(RangeWithinArm);
    }
    return Gate(TnumWithin(o, c), TnumInArm);
  }

  function One(b: bool): nat { if b then 1 else 0 }

  /** The register loop; leaves it at a break, or with a missing counterpart. */
  method WalkItems(items: seq<Reg>, curSide: map<Key, Reg>, exact: nat, st: Stats) returns (v: Verdict)
    modifies st`tally
    ensures Walked(v, st.tally) == Walk(Python, PyJoin(items, curSide), exact, FreshIds, old(st.tally))
    ensures st.tally.scalarCmp >= old(st.tally.scalarCmp)
  {
    var ids := new PyIdMap();
    ghost var all := PyJoin(items, curSide);
    for i := 0 to |items|
      invariant fresh(ids) && st.tally.scalarCmp >= old(st.tally.scalarCmp)
      invariant Walk(Python, all, exact, FreshIds, old(st.tally)) == Walk(Python, all[i..], exact, ids.Abs(), st.tally)
    {
      var o := items[i];
      assert all[i..][0] == (o, Lookup(curSide, KeyOf(o))) && all[i..][1..] == all[i + 1..];
      if KeyOf(o) !in curSide {
        return Unmodelled;
      }
      var arm := PyRegister(o, curSide[KeyOf(o)], exact, ids, st);
      if arm.Some? {
        return Break(arm.value);
      }
    }
    return Agree;
  }

  /** `evaluate`, on a pair whose id map `run` has just reset. */
  method Evaluate(oldSide: map<Key, Reg>, curSide: map<Key, Reg>, exact: nat, st: Stats)
    returns (v: Verdict, ghost rows: seq<Reg>)
    requires forall k :: k in oldSide ==> KeyOf(oldSide[k]) == k
    modifies st
    ensures Enumerates(rows, oldSide)
    ensures Walked(v, st.tally) == PyEval(rows, curSide, exact, old(st.tally))
    ensures var ran := st.tally.scalarCmp > old(st.tally.scalarCmp);
            && st.agreeNontrivial == old(st.agreeNontrivial) + One(v == Agree && ran)
            && st.agreeTrivial == old(st.agreeTrivial) + One(v == Agree && !ran)
            && st.breaks == old(st.breaks) + One(v.Break?)
            && st.unmodelled == old(st.unmodelled) + One(v == Unmodelled)
            && st.nontrivialLegacy == old(st.nontrivialLegacy) + One(v != Unmodelled && ran)
  {
    var items := SortedItems(oldSide);
    rows := items;
    EmptyEnumeration(items, oldSide);
    if oldSide == map[] || curSide == map[] {
      st.unmodelled := st.unmodelled + 1;
      return Unmodelled, items;
    }
    var before := st.tally.scalarCmp;
    v := WalkItems(items, curSide, exact, st);
    if v == Unmodelled {
      st.unmodelled := st.unmodelled + 1;
      return;
    }
    var ran := st.tally.scalarCmp > before;
    if ran {
      st.nontrivialLegacy := st.nontrivialLegacy + 1;
    }
    if v.Break? {
      st.breaks := st.breaks + 1;
    } else if ran {
      st.agreeNontrivial := st.agreeNontrivial + 1;
    } else {
      st.agreeTrivial := st.agreeTrivial + 1;
    }
  }
}
