/** The union over printed r0 states is the least one: no bound of it but is some state's own. */
module Least {
  import opened Isa
  import opened Records
  import opened Runtime

  /** r0 was printed in this state, as a scalar. */
  ghost predicate Printed(evo: seq<Snapshot>, reg: RegState) {
    exists snap :: snap in evo && PrintedIn(snap.regs, reg)
  }

  predicate PrintedIn(regs: seq<RegState>, reg: RegState) {
    reg in regs && reg.reg == 0 && reg.regType == "scalar"
  }

  /** The 32-bit range of a state; one that is not printed in both its ends is the full one. */
  function Lower32(reg: RegState): int {
    if reg.u32Min.Some? && reg.u32Max.Some? then reg.u32Min.value else 0
  }

  function Upper32(reg: RegState): int {
    if reg.u32Min.Some? && reg.u32Max.Some? then reg.u32Max.value else 0xffff_ffff
  }

  // ---- what the union says of a 32-bit value ----------------------------------------------------------------

  /** x is under, or over, the bound of every state seen so far. */
  ghost predicate Bounds(u: Union, seen: iset<RegState>, x: u32) {
    && (u.any <==> exists reg :: reg in seen)
    && (x < u.umin <==> forall reg :: reg in seen ==> x < reg.umin)
    && (x > u.umax <==> x > 0 && forall reg :: reg in seen ==> x > reg.umax)
    && (x < u.u32lo <==> forall reg :: reg in seen ==> x < Lower32(reg))
    && (x > u.u32hi <==> x > 0 && forall reg :: reg in seen ==> x > Upper32(reg))
    && (u.umax <= 0xffff_ffff <==> forall reg :: reg in seen ==> reg.umax <= 0xffff_ffff)
  }

  ghost function Seen(evo: seq<Snapshot>): iset<RegState> { iset reg | Printed(evo, reg) }

  ghost function SeenIn(regs: seq<RegState>): iset<RegState> { iset reg | PrintedIn(regs, reg) }

  lemma AbsorbBounds(u: Union, seen: iset<RegState>, reg: RegState, x: u32)
    requires Bounds(u, seen, x)
    ensures Bounds(Absorb(u, reg), if reg.reg == 0 && reg.regType == "scalar" then seen + iset{reg} else seen, x)
  {
  }

  lemma {:induction false} RegsBound(u: Union, seen: iset<RegState>, regs: seq<RegState>, x: u32)
    requires Bounds(u, seen, x)
    ensures Bounds(AbsorbRegs(u, regs), seen + SeenIn(regs), x)
  {
    if regs == [] {
      assert seen + SeenIn(regs) == seen;
    } else {
      var front, last := regs[..|regs| - 1], regs[|regs| - 1];
      assert regs == front + [last];
      RegsBound(u, seen, front, x);
      AbsorbBounds(AbsorbRegs(u, front), seen + SeenIn(front), last, x);
      SeenInStep(seen, front, last);
    }
  }

  lemma SeenInStep(seen: iset<RegState>, front: seq<RegState>, last: RegState)
    ensures seen + SeenIn(front + [last]) ==
            if last.reg == 0 && last.regType == "scalar" then seen + SeenIn(front) + iset{last}
            else seen + SeenIn(front)
  {
  }

  lemma {:induction false} UnionBounds(evo: seq<Snapshot>, x: u32)
    ensures Bounds(AbsorbAll(NoClaim, evo), Seen(evo), x)
  {
    if evo == [] {
      assert Seen(evo) == iset{};
    } else {
      var front, last := evo[..|evo| - 1], evo[|evo| - 1];
      assert evo == front + [last];
      UnionBounds(front, x);
      RegsBound(AbsorbAll(NoClaim, front), Seen(front), last.regs, x);
      SeenStep(front, last);
    }
  }

  // ---- every bound is attained --------------------------------------------------------------------------------

  /** Each bound of u is some seen state's. */
  ghost predicate Attained(u: Union, seen: iset<RegState>) {
    && (exists a :: a in seen && u.umin == a.umin)
    && (exists b :: b in seen && u.umax == b.umax)
    && (exists c :: c in seen && u.u32lo == Lower32(c))
    && (exists d :: d in seen && u.u32hi == Upper32(d))
  }

  lemma AbsorbAttains(u: Union, seen: iset<RegState>, reg: RegState)
    requires u == NoClaim || Attained(u, seen)
    requires reg.reg == 0 && reg.regType == "scalar"
    ensures Attained(Absorb(u, reg), seen + iset{reg})
  {
    assert reg in seen + iset{reg};
  }

  lemma AttainedByMore(u: Union, some: iset<RegState>, more: iset<RegState>)
    requires Attained(u, some) && some <= more
    ensures Attained(u, more)
  {
  }

  lemma {:induction false} RegsAttain(u: Union, seen: iset<RegState>, regs: seq<RegState>)
    requires u == NoClaim || Attained(u, seen)
    ensures AbsorbRegs(u, regs) == NoClaim || Attained(AbsorbRegs(u, regs), seen + SeenIn(regs))
  {
    if regs == [] {
      assert seen + SeenIn(regs) == seen;
    } else {
      var front, last := regs[..|regs| - 1], regs[|regs| - 1];
      assert regs == front + [last];
      RegsAttain(u, seen, front);
      var all := seen + SeenIn(front);
      if last.reg == 0 && last.regType == "scalar" {
        AbsorbAttains(AbsorbRegs(u, front), all, last);
        AttainedByMore(AbsorbRegs(u, regs), all + iset{last}, seen + SeenIn(regs));
      } else if AbsorbRegs(u, regs) != NoClaim {
        AttainedByMore(AbsorbRegs(u, regs), all, seen + SeenIn(regs));
      }
    }
  }

  lemma SeenStep(front: seq<Snapshot>, last: Snapshot)
    ensures Seen(front + [last]) == Seen(front) + SeenIn(last.regs)
  {
    assert last in front + [last];
  }

  lemma {:induction false} AllAttain(evo: seq<Snapshot>)
    ensures AbsorbAll(NoClaim, evo) == NoClaim || Attained(AbsorbAll(NoClaim, evo), Seen(evo))
  {
    if evo != [] {
      var front, last := evo[..|evo| - 1], evo[|evo| - 1];
      assert evo == front + [last];
      AllAttain(front);
      RegsAttain(AbsorbAll(NoClaim, front), Seen(front), last.regs);
      SeenStep(front, last);
    }
  }

  /** There is a claim exactly when some r0 state was printed, and then each of the union's four bounds is the
      bound of one of them. */
  lemma UnionIsLeast(evo: seq<Snapshot>)
    ensures AbsorbAll(NoClaim, evo).any <==> exists reg :: Printed(evo, reg)
    ensures AbsorbAll(NoClaim, evo).any ==> Attained(AbsorbAll(NoClaim, evo), Seen(evo))
  {
    UnionBounds(evo, 0);
    AllAttain(evo);
    assert forall reg :: Printed(evo, reg) <==> reg in Seen(evo);
  }

  // ---- what escapes ---------------------------------------------------------------------------------------------

  /** The value lies on one side of every printed state: in 32 bits, or in 64 where all of them fit a word. */
  ghost predicate OneSided(evo: seq<Snapshot>, x: u32) {
    || (forall reg :: Printed(evo, reg) ==> x < Lower32(reg))
    || (forall reg :: Printed(evo, reg) ==> x > Upper32(reg))
    || ((forall reg :: Printed(evo, reg) ==> reg.umax <= 0xffff_ffff) &&
        ((forall reg :: Printed(evo, reg) ==> x < reg.umin) || (forall reg :: Printed(evo, reg) ==> x > reg.umax)))
  }

  lemma EscapesOneSided(evo: seq<Snapshot>, retval: u64)
    requires exists reg :: Printed(evo, reg)
    ensures Escapes(AbsorbAll(NoClaim, evo), retval) <==> OneSided(evo, retval % 0x1_0000_0000)
  {
    var x := retval % 0x1_0000_0000;
    UnionBounds(evo, x);
    var some :| Printed(evo, some);
    assert some in Seen(evo);
  }
}
