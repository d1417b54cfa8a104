/** `check_ids` and `check_scalar_ids`: the incremental one-to-one relation between the ids of
    two states, in its two implementations, and what it amounts to declaratively. */
module IdMap {
  import opened Isa

  /** The C code's table has 64 entries and a 32-bit counter; the Python list has no limits. */
  datatype Dialect = C | Python

  const TABLE := 64

  /** Fresh ids are numbered on from here; nothing keeps a printed id below it. */
  const MAX_ID := 0x10_0000

  /** The two ADD_CONST bits, 31 and 30. */
  const FLAG_UNIT := 0x4000_0000

  function Flags(id: nat): nat { id / FLAG_UNIT % 4 * FLAG_UNIT }

  function Base(id: nat): nat { id - Flags(id) }

  datatype IdState = IdState(pairs: seq<(nat, nat)>, tmp: nat)

  const FreshIds := IdState([], MAX_ID)

  /** The first entry sharing either side decides; None when there is no such entry. */
  function Scan(pairs: seq<(nat, nat)>, o: nat, c: nat): Option<bool> {
    if pairs == [] then None
    else if pairs[0].0 == o then Some(pairs[0].1 == c)
    else if pairs[0].1 == c then Some(false)
    else Scan(pairs[1..], o, c)
  }

  function IdsMatch(d: Dialect, st: IdState, o: nat, c: nat): (bool, IdState) {
    if (o != 0) != (c != 0) then (false, st)
    else if o == 0 then (true, st)
    else
      match Scan(st.pairs, o, c)
      case Some(b) => (b, st)
      case None =>
        if d == C && |st.pairs| >= TABLE then (false, st)
        else (true, st.(pairs := st.pairs + [(o, c)]))
  }

  function Bump(d: Dialect, tmp: nat): nat {
    if d == C then (tmp + 1) % TWO32 else tmp + 1
  }

  function ScalarIdsMatch(d: Dialect, st: IdState, o: nat, c: nat): (bool, IdState) {
    if o == 0 then (true, st)
    else
      var st0 := if c == 0 then st.(tmp := Bump(d, st.tmp)) else st;
      var c0 := if c == 0 then st0.tmp else c;
      var (ok, st1) := IdsMatch(d, st0, o, c0);
      if !ok then (false, st1)
      else if Flags(o) != 0 then IdsMatch(d, st1, Base(o), Base(c0))
      else (true, st1)
  }

  // ---- the C table ------------------------------------------------------------------------

  /** `struct subs_idmap`. */
  class CIdMap {
    const o: array<nat>
    const c: array<nat>
    var n: nat
    var tmp: nat

    ghost predicate Valid()
      reads this
    {
      o.Length == TABLE && c.Length == TABLE && o != c && n <= TABLE
    }

    ghost function Abs(): IdState
      requires Valid()
      reads this, o, c
    {
      IdState(seq(n, i requires 0 <= i < n && i < o.Length && i < c.Length reads this, o, c => (o[i], c[i])), tmp)
    }

    constructor ()
      ensures Valid() && fresh(o) && fresh(c) && Abs() == FreshIds
    {
      o := new nat[TABLE](_ => 0);
      c := new nat[TABLE](_ => 0);
      n, tmp := 0, MAX_ID;
    }

    method CheckIds(x: nat, y: nat) returns (ok: bool)
      requires Valid()
      modifies this, o, c
      ensures Valid() && (ok, Abs()) == old(IdsMatch(C, Abs(), x, y))
    {
      if (x != 0) != (y != 0) {
        return false;
      }
      if x == 0 {
        return true;
      }
      ghost var all := Abs().pairs;
      for i := 0 to n
        invariant Scan(all, x, y) == Scan(all[i..], x, y)
      {
        assert all[i] == (o[i], c[i]);
        if o[i] == x {
          return c[i] == y;
        }
        if c[i] == y {
          return false;
        }
      }
      if n >= TABLE {
        return false;
      }
      o[n] := x;
      c[n] := y;
      n := n + 1;
      assert Abs().pairs == all + [(x, y)];
      return true;
    }

    method CheckScalarIds(x: nat, y: nat) returns (ok: bool)
      requires Valid()
      modifies this, o, c
      ensures Valid() && (ok, Abs()) == old(ScalarIdsMatch(C, Abs(), x, y))
    {
      if x == 0 {
        return true;
      }
      var y0 := y;
      if y0 == 0 {
        tmp := (tmp + 1) % TWO32;
        y0 := tmp;
        assert Abs().pairs == old(Abs()).pairs;
      }
      ok := CheckIds(x, y0);
      if ok && Flags(x) != 0 {
        ok := CheckIds(Base(x), Base(y0));
      }
    }
  }

  // ---- the Python list --------------------------------------------------------------------

  /** `class IdMap`. */
  class PyIdMap {
    var pairs: seq<(nat, nat)>
    var tmp: nat

    ghost function Abs(): IdState
      reads this
    {
      IdState(pairs, tmp)
    }

    constructor ()
      ensures Abs() == FreshIds
    {
      pairs, tmp := [], MAX_ID;
    }

    method CheckIds(oldId: nat, curId: nat) returns (ok: bool)
      modifies this
      ensures (ok, Abs()) == old(IdsMatch(Python, Abs(), oldId, curId))
    {
      if (oldId != 0) != (curId != 0) {
        return false;
      }
      if oldId == 0 {
        return true;
      }
      for i := 0 to |pairs|
        invariant Scan(pairs, oldId, curId) == Scan(pairs[i..], oldId, curId)
      {
        if pairs[i].0 == oldId {
          return pairs[i].1 == curId;
        }
        if pairs[i].1 == curId {
          return false;
        }
      }
      pairs := pairs + [(oldId, curId)];
      return true;
    }

    method CheckScalarIds(oldId: nat, curId: nat) returns (ok: bool)
      modifies this
      ensures (ok, Abs()) == old(ScalarIdsMatch(Python, Abs(), oldId, curId))
    {
      if oldId == 0 {
        return true;
      }
      var c := curId;
      if c == 0 {
        tmp := tmp + 1;
        c := tmp;
      }
      ok := CheckIds(oldId, c);
      if !ok {
        return false;
      }
      if Flags(oldId) != 0 {
        ok := CheckIds(Base(oldId), Base(c));
      }
    }
  }

  // ---- what a sequence of checks means ------------------------------------------------------

  /** Neither side of the relation is paired twice. */
  predicate OneToOne<A(==), B(==)>(s: set<(A, B)>) {
    forall p, q :: p in s && q in s ==> (p.0 == q.0 <==> p.1 == q.1)
  }

  function PairSet(pairs: seq<(nat, nat)>): set<(nat, nat)> {
    set p | p in pairs
  }

  /** The state after a sequence of calls, or None at the first refusal. */
  function CheckAll(d: Dialect, st: IdState, calls: seq<(nat, nat)>): Option<IdState>
    decreases |calls|
  {
    if calls == [] then Some(st)
    else
      var (ok, next) := IdsMatch(d, st, calls[0].0, calls[0].1);
      if ok then CheckAll(d, next, calls[1..]) else None
  }

  lemma {:induction false} ScanMeans(pairs: seq<(nat, nat)>, o: nat, c: nat)
    requires OneToOne(PairSet(pairs))
    ensures match Scan(pairs, o, c)
            case Some(b) => b == ((o, c) in pairs) && b == OneToOne(PairSet(pairs) + {(o, c)})
            case None => (o, c) !in pairs && OneToOne(PairSet(pairs) + {(o, c)})
  {
    if pairs != [] {
      var first, rest := pairs[0], pairs[1..];
      assert first in PairSet(pairs);
      forall p | p in PairSet(rest) ensures p in PairSet(pairs) {}
      ScanMeans(rest, o, c);
      if first.0 == o || first.1 == c {
        if first == (o, c) {
          assert PairSet(pairs) + {(o, c)} == PairSet(pairs);
        } else {
          assert first in PairSet(pairs) + {(o, c)} && (o, c) in PairSet(pairs) + {(o, c)};
        }
      } else {
        var grown := PairSet(rest) + {(o, c)};
        assert PairSet(pairs) + {(o, c)} == grown + {first};
      }
    }
  }

  /** One call with room left: refused exactly when the pair would break the relation. */
  lemma IdsMatchMeans(d: Dialect, st: IdState, o: nat, c: nat)
    requires OneToOne(PairSet(st.pairs)) && o != 0 && c != 0 && (d == C ==> |st.pairs| < TABLE)
    ensures var (ok, next) := IdsMatch(d, st, o, c);
            && ok == OneToOne(PairSet(st.pairs) + {(o, c)})
            && next.tmp == st.tmp && |next.pairs| <= |st.pairs| + 1
            && (ok ==> PairSet(next.pairs) == PairSet(st.pairs) + {(o, c)})
  {
    ScanMeans(st.pairs, o, c);
    if Scan(st.pairs, o, c) == None {
      assert PairSet(st.pairs + [(o, c)]) == PairSet(st.pairs) + {(o, c)};
    } else if (o, c) in st.pairs {
      assert PairSet(st.pairs) + {(o, c)} == PairSet(st.pairs);
    }
  }

  lemma OneToOneShrinks<A, B>(small: set<(A, B)>, big: set<(A, B)>)
    requires small <= big && OneToOne(big)
    ensures OneToOne(small)
  {
  }

  predicate ZerosMatch(calls: seq<(nat, nat)>) {
    forall i :: 0 <= i < |calls| ==> (calls[i].0 != 0) == (calls[i].1 != 0)
  }

  function Nonzero(calls: seq<(nat, nat)>): set<(nat, nat)> {
    set p | p in calls && p.0 != 0
  }

  /** A sequence of calls goes through exactly when zeros meet zeros and the other pairs form a
      one-to-one relation: the order of the calls does not matter. */
  lemma {:induction false} CheckAllMeans(d: Dialect, st: IdState, calls: seq<(nat, nat)>)
    requires OneToOne(PairSet(st.pairs)) && (d == C ==> |st.pairs| + |calls| <= TABLE)
    ensures CheckAll(d, st, calls).Some? <==> ZerosMatch(calls) && OneToOne(PairSet(st.pairs) + Nonzero(calls))
    decreases |calls|
  {
    if calls == [] {
      assert PairSet(st.pairs) + Nonzero(calls) == PairSet(st.pairs);
    } else {
      var (o, c) := calls[0];
      var (ok, next) := IdsMatch(d, st, o, c);
      assert calls == [calls[0]] + calls[1..];
      assert ZerosMatch(calls) <==> (o != 0) == (c != 0) && ZerosMatch(calls[1..]);
      if o != 0 && c != 0 {
        IdsMatchMeans(d, st, o, c);
        var all := PairSet(st.pairs) + Nonzero(calls);
        assert all == PairSet(st.pairs) + {(o, c)} + Nonzero(calls[1..]);
        if ok {
          CheckAllMeans(d, next, calls[1..]);
        } else if OneToOne(all) {
          OneToOneShrinks(PairSet(st.pairs) + {(o, c)}, all);
        }
      } else if o == 0 && c == 0 {
        CheckAllMeans(d, next, calls[1..]);
        assert Nonzero(calls) == Nonzero(calls[1..]);
      }
    }
  }
}
