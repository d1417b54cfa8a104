/** `subs_eval` as it runs inside the VM: row arrays, an insertion sort on a copy, a fixed id
    table, counters bumped in place. */
module InVm {
  import opened Isa
  import opened Domains
  import opened IdMap
  import opened Subsume
  import opened Refinement
  import opened Chars

  // ---- subs_eval ------------------------------------------------------------------------------

  /** `struct bpfsubs_cmp`. */
  class SubsCmp {
    var pairs: nat
    var agree: nat
    var disagree: nat
    var unmodelled: nat
    var nontrivial: nat
    var tally: Tally
    var unsupported: nat
    var rows: nat
    var first: Option<(nat, nat, Arm)>

    constructor ()
      ensures pairs == agree == disagree == unmodelled == nontrivial == unsupported == rows == 0
      ensures tally == Nothing && first == None
    {
      pairs, agree, disagree, unmodelled, nontrivial, unsupported, rows := 0, 0, 0, 0, 0, 0, 0;
      tally, first := Nothing, None;
    }
  }

  lemma PaddedDiffers(a: string, b: string, n: nat) returns (j: nat)
    requires '\0' !in b && |Prefix(a, n)| < |Prefix(b, n)|
    ensures j < n && CharAt(a, j) != CharAt(b, j)
  {
    j := |a|;
    assert b[j] in b;
  }

  /** Zero-padded buffers agree on n bytes exactly when the strings' first n characters do. */
  lemma PaddedIsPrefix(a: string, b: string, n: nat)
    requires '\0' !in a && '\0' !in b
    ensures Prefix(a, n) == Prefix(b, n) <==> forall j :: 0 <= j < n ==> CharAt(a, j) == CharAt(b, j)
  {
    var p, q := Prefix(a, n), Prefix(b, n);
    if p == q {
      forall j | 0 <= j < n ensures CharAt(a, j) == CharAt(b, j) {
        assert j < |p| ==> p[j] == a[j] && q[j] == b[j];
      }
    } else if |p| < |q| {
      var j := PaddedDiffers(a, b, n);
    } else if |q| < |p| {
      var j := PaddedDiffers(b, a, n);
    } else {
      var j :| 0 <= j < |p| && p[j] != q[j];
      assert CharAt(a, j) != CharAt(b, j);
    }
  }

  /** memcmp over two zero-padded prefix buffers. */
  method PrefixBytesEqual(a: string, b: string, n: nat) returns (same: bool)
    requires '\0' !in a && '\0' !in b
    ensures same <==> Prefix(a, n) == Prefix(b, n)
  {
    PaddedIsPrefix(a, b, n);
    for k := 0 to n
      invariant forall j :: 0 <= j < k ==> CharAt(a, j) == CharAt(b, j)
    {
      if CharAt(a, k) != CharAt(b, k) {
        return false;
      }
    }
    return true;
  }

  method FindRow(rows: seq<Reg>, key: nat) returns (r: Option<Reg>)
    ensures r == Find(rows, key)
  {
    for i := 0 to |rows|
      invariant Find(rows, key) == Find(rows[i..], key)
    {
      if KeyNo(rows[i]) == key {
        return Some(rows[i]);
      }
    }
    return None;
  }

  lemma ShiftedIsInserted(head: seq<Reg>, t: Reg, p: nat, result: seq<Reg>)
    requires p == Place(head, KeyNo(t)) && |result| == |head| + 1 && result[p] == t
    requires forall k :: 0 <= k < p ==> result[k] == head[k]
    requires forall k :: p < k < |result| ==> result[k] == head[k - 1]
    ensures result == Insert(head, t)
  {
  }

  /** One round of the insertion sort: row i moves back past the rows with larger keys. */
  method InsertRow(srt: array<Reg>, i: nat)
    requires i < srt.Length
    modifies srt
    ensures srt[..i + 1] == Insert(old(srt[..i]), old(srt[i]))
    ensures forall k :: i < k < srt.Length ==> srt[k] == old(srt[k])
  {
    var t := srt[i];
    ghost var head := srt[..i];
    ghost var ahead := head;
    var j := i - 1;
    while j >= 0 && KeyNo(srt[j]) > KeyNo(t)
      invariant -1 <= j < i && |ahead| == j + 1 && ahead <= head
      invariant forall k :: 0 <= k <= j ==> srt[k] == head[k]
      invariant forall k :: j + 2 <= k <= i ==> srt[k] == head[k - 1]
      invariant forall k :: i < k < srt.Length ==> srt[k] == old(srt[k])
      invariant Place(head, KeyNo(t)) == Place(ahead, KeyNo(t))
    {
      ahead := ahead[..j];
      srt[j + 1] := srt[j];
      j := j - 1;
    }
    srt[j + 1] := t;
    ShiftedIsInserted(head, t, j + 1, srt[..i + 1]);
  }

  /** The insertion sort of `subs_eval`, on its own copy of the rows. */
  method SortRows(srt: array<Reg>)
    modifies srt
    ensures srt[..] == SortByKey(old(srt[..]))
  {
    ghost var was := srt[..];
    for i := 0 to srt.Length
      invariant srt[..i] == SortByKey(was[..i])
      invariant forall k :: i <= k < srt.Length ==> srt[k] == was[k]
    {
      assert was[..i + 1][..i] == was[..i];
      InsertRow(srt, i);
    }
    assert was[..srt.Length] == was && srt[..srt.Length] == srt[..];
  }

  /** Prefix buffers are C strings. */
  predicate PrefixOk(r: Reg) {
    r.pfx.Some? ==> '\0' !in r.pfx.value.text
  }

  /** The body of the register loop for two pointers that both carry a prefix. */
  method CPointer(o: Reg, c: Reg, m: CIdMap) returns (arm: Option<Arm>)
    requires m.Valid() && o.pfx.Some? && c.pfx.Some? && PrefixOk(o) && PrefixOk(c)
    modifies m, m.o, m.c
    ensures m.Valid() && (arm, m.Abs()) == old(PointerStep(C, o, c, m.Abs()))
  {
    var base, op, cp := o.t % 0x100, o.pfx.value, c.pfx.value;
    if base == ARENA {
      return None;
    }
    if PfxFamily(base) || base == INSN {
      var same := PrefixBytesEqual(op.text, cp.text, 2 * op.vo);
      if !same {
        return Some(PtrMemcmp);
      }
      if !RangeWithin(o, c) {
        return Some(PtrRangeWithin);
      }
      if !TnumWithin(o, c) {
        return Some(PtrTnumIn);
      }
      if base != INSN {
        var ok := m.CheckIds(o.id, c.id);
        if ok {
          ok := m.CheckIds(o.pid, c.pid);
        }
        if !ok {
          return Some(PtrCheckIds);
        }
      }
      return None;
    }
    if IsPacket(base) {
      var ro, rc := PfxRange(op.text), PfxRange(cp.text);
      if ro < 0 || rc < 0 {
        if ro != rc {
          return Some(PktRange);
        }
      } else if ro > rc {
        return Some(PktRange);
      }
      var ok := m.CheckIds(o.id, c.id);
      if !ok {
        return Some(PtrCheckIds);
      }
      if !(RangeWithin(o, c) && TnumWithin(o, c)) {
        return Some(PtrRangeWithin);
      }
      return None;
    }
    if op.text != cp.text {
      return Some(RegsExact);
    }
    if base == STACK_PTR && o.fno != c.fno {
      return Some(Frameno);
    }
    var ok := m.CheckIds(o.id, c.id);
    if ok {
      ok := m.CheckIds(o.pid, c.pid);
    }
    return Gate(ok, PtrCheckIds);
  }

  /** One register of `subs_eval`. */
  method CRegister(o: Reg, c: Reg, exact: nat, m: CIdMap, st: SubsCmp) returns (arm: Option<Arm>)
    requires m.Valid() && PrefixOk(o) && PrefixOk(c)
    modifies m, m.o, m.c, st`tally
    ensures m.Valid() && Stepped(arm, m.Abs(), st.tally) == old(RegStep(C, o, c, exact, m.Abs(), st.tally))
  {
    if o.t != c.t {
      return Some(TypeArm);
    }
    if o.t != SCALAR {
      if o.pfx.None? || c.pfx.None? {
        return None;
      }
      st.tally := st.tally.(ptrCmp := st.tally.ptrCmp + 1);
      arm := CPointer(o, c, m);
      return;
    }
    if ShortCircuits(o, exact) {
      st.tally := st.tally.(shortcircuit := st.tally.shortcircuit + 1);
      return None;
    }
    if o.id != 0 && Flags(o.id) != Flags(c.id) {
      return Some(AddConstFlag);
    }
    if Flags(o.id) != 0 && o.delta != c.delta {
      return Some(Delta);
    }
    var ok := m.CheckScalarIds(o.id, c.id);
    if !ok {
      return Some(CheckScalarIds);
    }
    st.tally := st.tally.(scalarCmp := st.tally.scalarCmp + 1);
    if !RangeWithin(o, c) {
      return Some(RangeWithinArm);
    }
    return Gate(TnumWithin(o, c), TnumInArm);
  }

  lemma WalkStep(rows: seq<Joined>, i: nat, exact: nat, ids: IdState, tally: Tally)
    requires i < |rows|
    ensures Walk(C, rows[i..], exact, ids, tally) ==
            if rows[i].1.None? then Walked(Unmodelled, tally)
            else
              var step := RegStep(C, rows[i].0, rows[i].1.value, exact, ids, tally);
              if step.arm.Some? then Walked(Break(step.arm.value), step.tally)
              else Walk(C, rows[i + 1..], exact, step.ids, step.tally)
  {
    assert rows[i..][0] == rows[i] && rows[i..][1..] == rows[i + 1..];
  }

  /** The local copy the rows are sorted in. */
  method SortedCopy(rows: seq<Reg>) returns (srt: array<Reg>)
    ensures fresh(srt) && srt[..] == SortByKey(rows) && forall r :: r in srt[..] ==> r in rows
  {
    srt := new Reg[|rows|](i requires 0 <= i < |rows| => rows[i]);
    assert srt[..] == rows;
    SortRows(srt);
    SortKeepsRows(rows);
  }

  /** `subs_eval`. */
  method SubsEval(old_: seq<Reg>, cur: seq<Reg>, exact: nat, st: SubsCmp) returns (v: Verdict)
    requires forall r :: r in old_ || r in cur ==> PrefixOk(r)
    modifies st`tally, st`nontrivial
    ensures Walked(v, st.tally) == CEval(old_, cur, exact, old(st.tally))
    ensures st.nontrivial == old(st.nontrivial) +
            if v == Agree && st.tally.scalarCmp > old(st.tally.scalarCmp) then 1 else 0
  {
    if old_ == [] || cur == [] {
      return Unmodelled;
    }
    var m := new CIdMap();
    var srt := SortedCopy(old_);
    ghost var all := CJoin(srt[..], cur);
    var before := st.tally.scalarCmp;
    for i := 0 to srt.Length
      invariant m.Valid() && fresh(m) && fresh(m.o) && fresh(m.c) && fresh(srt)
      invariant srt[..] == SortByKey(old_) && st.nontrivial == old(st.nontrivial)
      invariant Walk(C, all, exact, FreshIds, old(st.tally)) == Walk(C, all[i..], exact, m.Abs(), st.tally)
    {
      assert srt[i] in srt[..];
      var o := srt[i];
      var c := FindRow(cur, KeyNo(o));
      assert all[i] == (o, c);
      WalkStep(all, i, exact, m.Abs(), st.tally);
      if c.None? {
        return Unmodelled;
      }
      FindMeans(cur, KeyNo(o));
      var arm := CRegister(o, c.value, exact, m, st);
      if arm.Some? {
        return Break(arm.value);
      }
    }
    if st.tally.scalarCmp > before {
      st.nontrivial := st.nontrivial + 1;
    }
    return Agree;
  }
}
