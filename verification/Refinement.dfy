/** The in-VM evaluator decides exactly as the Python reference does, and its 64-entry id table
    never fills. */
module Refinement {
  import opened Isa
  import opened IdMap
  import opened Subsume

  /** `SUBS_MAXREG`. */
  const MAX_ROWS := 24

  predicate UniqueKeys(rows: seq<Reg>) {
    forall i, j :: 0 <= i < j < |rows| ==> KeyOf(rows[i]) != KeyOf(rows[j])
  }

  /** What one side of a pair looks like: register numbers below 16, each key once, no more rows
      than the C arrays hold. */
  predicate SideOk(rows: seq<Reg>) {
    UniqueKeys(rows) && |rows| <= MAX_ROWS && forall r :: r in rows ==> r.regno < 16
  }

  // ---- limits are never reached -----------------------------------------------------------------

  /** Enough room for one more register, which adds at most two pairs and one fresh id. */
  predicate Room(ids: IdState, n: nat) {
    |ids.pairs| + 2 * n <= TABLE && ids.tmp + n < TWO32
  }

  lemma ScalarIdsSameInBoth(ids: IdState, o: nat, c: nat)
    requires Room(ids, 1)
    ensures ScalarIdsMatch(C, ids, o, c) == ScalarIdsMatch(Python, ids, o, c)
    ensures var next := ScalarIdsMatch(C, ids, o, c).1;
            |next.pairs| <= |ids.pairs| + 2 && next.tmp <= ids.tmp + 1
  {
  }

  lemma PointerSameInBoth(o: Reg, c: Reg, ids: IdState)
    requires Room(ids, 1) && o.pfx.Some? && c.pfx.Some?
    ensures PointerStep(C, o, c, ids) == PointerStep(Python, o, c, ids)
    ensures var next := PointerStep(C, o, c, ids).1;
            |next.pairs| <= |ids.pairs| + 2 && next.tmp == ids.tmp
  {
  }

  lemma StepSameInBoth(o: Reg, c: Reg, exact: nat, ids: IdState, tally: Tally)
    requires Room(ids, 1)
    ensures RegStep(C, o, c, exact, ids, tally) == RegStep(Python, o, c, exact, ids, tally)
    ensures var next := RegStep(C, o, c, exact, ids, tally).ids;
            |next.pairs| <= |ids.pairs| + 2 && next.tmp <= ids.tmp + 1
  {
    if o.t != SCALAR && o.pfx.Some? && c.pfx.Some? {
      PointerSameInBoth(o, c, ids);
    }
    ScalarIdsSameInBoth(ids, o.id, c.id);
  }

  lemma {:induction false} WalkSameInBoth(rows: seq<Joined>, exact: nat, ids: IdState, tally: Tally)
    requires Room(ids, |rows|)
    ensures Walk(C, rows, exact, ids, tally) == Walk(Python, rows, exact, ids, tally)
    decreases |rows|
  {
    if rows != [] && rows[0].1.Some? {
      StepSameInBoth(rows[0].0, rows[0].1.value, exact, ids, tally);
      var step := RegStep(C, rows[0].0, rows[0].1.value, exact, ids, tally);
      if step.arm.None? {
        WalkSameInBoth(rows[1..], exact, step.ids, step.tally);
      }
    }
  }

  // ---- one integer key orders and identifies like the pair ----------------------------------------

  lemma KeyNoIsLexicographic(a: Reg, b: Reg)
    requires a.regno < 16 && b.regno < 16
    ensures KeyNo(a) < KeyNo(b) <==> KeyLess(KeyOf(a), KeyOf(b))
    ensures KeyNo(a) == KeyNo(b) <==> KeyOf(a) == KeyOf(b)
  {
  }

  ghost predicate StrictlySorted(s: seq<Reg>) {
    forall i, j :: 0 <= i < j < |s| ==> KeyNo(s[i]) < KeyNo(s[j])
  }

  lemma {:induction false} PlaceSplits(s: seq<Reg>, key: nat)
    requires StrictlySorted(s)
    ensures forall i :: 0 <= i < Place(s, key) ==> KeyNo(s[i]) <= key
    ensures forall i :: Place(s, key) <= i < |s| ==> KeyNo(s[i]) > key
  {
    if s != [] && KeyNo(s[|s| - 1]) > key {
      PlaceSplits(s[..|s| - 1], key);
    }
  }

  lemma {:induction false} SortKeepsRows(s: seq<Reg>)
    ensures |SortByKey(s)| == |s|
    ensures forall r :: r in SortByKey(s) <==> r in s
  {
    if s != [] {
      var front, x := s[..|s| - 1], s[|s| - 1];
      SortKeepsRows(front);
      var sorted := SortByKey(front);
      var p := Place(sorted, KeyNo(x));
      assert sorted == sorted[..p] + sorted[p..];
      assert s == front + [x];
      forall r ensures r in SortByKey(s) <==> r in s {
        assert r in sorted <==> r in sorted[..p] || r in sorted[p..];
      }
    }
  }

  lemma {:induction false} SortIsStrict(s: seq<Reg>)
    requires UniqueKeys(s) && forall r :: r in s ==> r.regno < 16
    ensures StrictlySorted(SortByKey(s))
  {
    if s != [] {
      var front, x := s[..|s| - 1], s[|s| - 1];
      SortIsStrict(front);
      SortKeepsRows(front);
      var sorted := SortByKey(front);
      PlaceSplits(sorted, KeyNo(x));
      forall i | 0 <= i < |sorted| ensures KeyNo(sorted[i]) != KeyNo(x) {
        assert sorted[i] in front;
        KeyNoIsLexicographic(sorted[i], x);
      }
    }
  }

  lemma LastKeyIsNew(front: seq<Reg>, x: Reg)
    requires UniqueKeys(front + [x])
    ensures KeyOf(x) !in KeySet(front) && UniqueKeys(front)
  {
    var rows := front + [x];
    assert rows[|front|] == x;
    forall i | 0 <= i < |front| ensures rows[i] == front[i] && KeyOf(front[i]) != KeyOf(x) {}
  }

  lemma {:induction false} DictHolds(rows: seq<Reg>)
    requires UniqueKeys(rows)
    ensures DictOf(rows).Keys == KeySet(rows)
    ensures forall r :: r in rows ==> KeyOf(r) in DictOf(rows) && DictOf(rows)[KeyOf(r)] == r
  {
    if rows != [] {
      var front, x := rows[..|rows| - 1], rows[|rows| - 1];
      assert rows == front + [x];
      LastKeyIsNew(front, x);
      DictHolds(front);
      KeySetGrows(front, x);
      forall r | r in rows ensures KeyOf(r) in DictOf(rows) && DictOf(rows)[KeyOf(r)] == r {
        if r in front {
          assert KeyOf(r) in KeySet(front);
        }
      }
    }
  }

  lemma SortEnumerates(rows: seq<Reg>)
    requires SideOk(rows)
    ensures Enumerates(SortByKey(rows), DictOf(rows))
  {
    var sorted := SortByKey(rows);
    SortKeepsRows(rows);
    SortIsStrict(rows);
    DictHolds(rows);
    forall i | 0 <= i < |sorted| ensures sorted[i] in rows {}
    forall i, j | 0 <= i < j < |sorted| ensures KeyLess(KeyOf(sorted[i]), KeyOf(sorted[j])) {
      KeyNoIsLexicographic(sorted[i], sorted[j]);
    }
    assert KeySet(sorted) == KeySet(rows);
  }

  /** A dictionary has one sorted listing. */
  lemma {:induction false} EnumerationIsUnique(a: seq<Reg>, b: seq<Reg>, m: map<Key, Reg>)
    requires Enumerates(a, m) && Enumerates(b, m)
    ensures a == b
    decreases |a|
  {
    if a == [] || b == [] {
      EmptyEnumeration(a, m);
      EmptyEnumeration(b, m);
    } else {
      SameFirst(a, b, m);
      DropFirst(a, m);
      DropFirst(b, m);
      EnumerationIsUnique(a[1..], b[1..], m - {KeyOf(a[0])});
      assert a == [a[0]] + a[1..] && b == [b[0]] + b[1..];
    }
  }

  lemma SameFirst(a: seq<Reg>, b: seq<Reg>, m: map<Key, Reg>)
    requires Enumerates(a, m) && Enumerates(b, m) && a != [] && b != []
    ensures a[0] == b[0]
  {
    FirstIsLeast(a, b, m);
    FirstIsLeast(b, a, m);
  }

  lemma FirstIsLeast(a: seq<Reg>, b: seq<Reg>, m: map<Key, Reg>)
    requires Enumerates(a, m) && Enumerates(b, m) && a != [] && b != []
    ensures KeyOf(a[0]) == KeyOf(b[0]) || KeyLess(KeyOf(a[0]), KeyOf(b[0]))
  {
  }

  lemma DropFirst(a: seq<Reg>, m: map<Key, Reg>)
    requires Enumerates(a, m) && a != []
    ensures Enumerates(a[1..], m - {KeyOf(a[0])})
  {
  }

  lemma FindIsLookup(rows: seq<Reg>, r: Reg)
    requires SideOk(rows) && r.regno < 16
    ensures Find(rows, KeyNo(r)) == Lookup(DictOf(rows), KeyOf(r))
  {
    DictHolds(rows);
    FindMeans(rows, KeyNo(r));
    var found := Find(rows, KeyNo(r));
    if found.Some? {
      KeyNoIsLexicographic(found.value, r);
    } else if KeyOf(r) in KeySet(rows) {
      var q :| q in rows && KeyOf(q) == KeyOf(r);
      KeyNoIsLexicographic(q, r);
    }
  }

  lemma {:induction false} FindMeans(rows: seq<Reg>, key: nat)
    ensures match Find(rows, key)
            case Some(r) => r in rows && KeyNo(r) == key
            case None => forall r :: r in rows ==> KeyNo(r) != key
  {
    if rows != [] {
      FindMeans(rows[1..], key);
      assert rows == [rows[0]] + rows[1..];
    }
  }

  /** Same verdict, same breaking arm, same counters. */
  lemma InVmRefinesReference(old_: seq<Reg>, cur: seq<Reg>, items: seq<Reg>, exact: nat, tally: Tally)
    requires SideOk(old_) && SideOk(cur) && Enumerates(items, DictOf(old_))
    ensures CEval(old_, cur, exact, tally) == PyEval(items, DictOf(cur), exact, tally)
  {
    var sorted := SortByKey(old_);
    SortEnumerates(old_);
    EnumerationIsUnique(sorted, items, DictOf(old_));
    SortKeepsRows(old_);
    DictHolds(cur);
    assert (cur == []) == (DictOf(cur) == map[]) by {
      if cur != [] {
        assert cur[0] in cur;
      }
    }
    forall i | 0 <= i < |sorted|
      ensures Find(cur, KeyNo(sorted[i])) == Lookup(DictOf(cur), KeyOf(sorted[i]))
    {
      assert sorted[i] in old_;
      FindIsLookup(cur, sorted[i]);
    }
    assert CJoin(sorted, cur) == PyJoin(items, DictOf(cur));
    WalkSameInBoth(CJoin(sorted, cur), exact, FreshIds, tally);
  }
}
