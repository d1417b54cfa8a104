/** Where an accepted store landed against every pointer state claimed at its instruction. */
module Store {
  import opened Isa
  import opened Bits
  import opened Domains
  import opened Records

  function FirstReg(regs: seq<RegState>, n: nat): Option<RegState> {
    if regs == [] then None else if regs[0].reg == n then Some(regs[0]) else FirstReg(regs[1..], n)
  }

  /** The pointer states claimed at the store's instruction, one a snapshot. */
  function Claims(evo: seq<Snapshot>, site: StoreSite): seq<RegState> {
    if evo == [] then []
    else
      var front, snap := Claims(evo[..|evo| - 1], site), evo[|evo| - 1];
      if snap.insnIdx != site.insnIdx then front
      else
        match FirstReg(snap.regs, site.baseReg)
        case Some(p) => if p.IsScalar() then front else front + [p]
        case None => front
  }

  /** A claim with a window to test against: open bits need a stated upper bound. */
  predicate Usable(p: RegState) {
    !(p.tnum.mask != 0 && p.umax == U64_MAX) && p.umin <= p.umax
  }

  function UsableOf(claims: seq<RegState>): seq<RegState> {
    if claims == [] then []
    else
      var front, p := UsableOf(claims[..|claims| - 1]), claims[|claims| - 1];
      if Usable(p) then front + [p] else front
  }

  function BaseOf(p: RegState, insnOff: i64): int {
    (if p.ptrOff.Some? then p.ptrOff.value else 0) + insnOff
  }

  /** `admits`: the variable part, when it is a non-negative `i64`, is in tnum and interval. */
  predicate AdmitsAt(p: RegState, insnOff: i64, off: i64) {
    var v := off - BaseOf(p, insnOff);
    0 <= v <= I64_MAX && AndNot(v, p.tnum.mask) == p.tnum.value && v >= p.umin && (p.umax == U64_MAX || v <= p.umax)
  }

  predicate Judged(smp: Sample) {
    smp.storeOff.Some? && !smp.error && smp.storeOff.value >= 0
  }

  predicate Admitted(claims: seq<RegState>, insnOff: i64, off: i64) {
    exists p :: p in claims && AdmitsAt(p, insnOff, off)
  }

  function JudgeStores(r: Report, claims: seq<RegState>, site: StoreSite, samples: seq<Sample>): Report {
    if samples == [] then r
    else
      var front, smp := JudgeStores(r, claims, site, samples[..|samples| - 1]), samples[|samples| - 1];
      if !Judged(smp) then front
      else Note(Tick(front, true, StoresChecked), !Admitted(claims, site.insnOff, smp.storeOff.value),
                Finding(StoreLocation, site.insnIdx, |samples| - 1))
  }

  function StoreOf(r: Report, rec: Record): Report {
    match rec.site
    case None => r
    case Some(site) =>
      var claims := UsableOf(Claims(rec.evolution, site));
      if claims == [] then r else JudgeStores(r, claims, site, rec.samples)
  }

  method FindReg(regs: seq<RegState>, n: nat) returns (r: Option<RegState>)
    ensures r == FirstReg(regs, n)
  {
    for i := 0 to |regs|
      invariant FirstReg(regs, n) == FirstReg(regs[i..], n)
    {
      if regs[i].reg == n {
        return Some(regs[i]);
      }
    }
    return None;
  }

  method CollectUsable(evo: seq<Snapshot>, site: StoreSite) returns (claims: seq<RegState>)
    ensures claims == UsableOf(Claims(evo, site))
  {
    claims := [];
    for i := 0 to |evo|
      invariant claims == UsableOf(Claims(evo[..i], site))
    {
      assert evo[..i + 1][..i] == evo[..i];
      if evo[i].insnIdx == site.insnIdx {
        var p := FindReg(evo[i].regs, site.baseReg);
        if p.Some? && !p.value.IsScalar() {
          ghost var front := Claims(evo[..i], site);
          assert (front + [p.value])[..|front|] == front;
          if Usable(p.value) {
            claims := claims + [p.value];
          }
        }
      }
    }
    assert evo[..|evo|] == evo;
  }

  method CheckStoreLocation(rec: Record, out: Sink)
    modifies out
    ensures out.Abs() == StoreOf(old(out.Abs()), rec)
  {
    if rec.site.None? {
      return;
    }
    var site := rec.site.value;
    var claims := CollectUsable(rec.evolution, site);
    if claims == [] {
      return;
    }
    ghost var start := out.Abs();
    for i := 0 to |rec.samples|
      invariant out.Abs() == JudgeStores(start, claims, site, rec.samples[..i])
    {
      assert rec.samples[..i + 1][..i] == rec.samples[..i];
      var smp := rec.samples[i];
      if Judged(smp) {
        out.Count(true, StoresChecked);
        out.Push(!Admitted(claims, site.insnOff, smp.storeOff.value), Finding(StoreLocation, site.insnIdx, i));
      }
    }
    assert rec.samples[..|rec.samples|] == rec.samples;
  }

  // ---- what admitting means --------------------------------------------------------------------------

  /** The claim lets a store land at off: some variable part in its interval and tnum gets there. */
  ghost predicate Reaches(p: RegState, insnOff: i64, off: i64) {
    exists v: u64 :: off == BaseOf(p, insnOff) + v && InTnum(p.tnum.value, p.tnum.mask, v) && p.umin <= v <= p.umax
  }

  lemma AdmitsIsReaching(p: RegState, insnOff: i64, off: i64)
    ensures AdmitsAt(p, insnOff, off) <==> Reaches(p, insnOff, off) && off - BaseOf(p, insnOff) < TWO63
  {
    if AdmitsAt(p, insnOff, off) {
      var v: u64 := off - BaseOf(p, insnOff);
      assert InTnum(p.tnum.value, p.tnum.mask, v);
    }
  }

  lemma {:induction false} UsableMeans(claims: seq<RegState>, p: RegState)
    ensures p in UsableOf(claims) <==> p in claims && Usable(p)
  {
    if claims != [] {
      UsableMeans(claims[..|claims| - 1], p);
      assert claims == claims[..|claims| - 1] + [claims[|claims| - 1]];
    }
  }

  // ---- the claims in the record ---------------------------------------------------------------------

  /** p is the first state of the base register in this snapshot, and a pointer. */
  ghost predicate FirstPointer(regs: seq<RegState>, n: nat, p: RegState) {
    p.regType != "scalar" && exists j :: 0 <= j < |regs| && regs[j] == p && IsFirst(regs, n, j)
  }

  predicate IsFirst(regs: seq<RegState>, n: nat, j: nat)
    requires j < |regs|
  {
    regs[j].reg == n && forall i :: 0 <= i < j ==> regs[i].reg != n
  }

  /** A pointer claimed for the base register at the store's instruction. */
  ghost predicate Claimed(evo: seq<Snapshot>, site: StoreSite, p: RegState) {
    exists snap :: snap in evo && snap.insnIdx == site.insnIdx && FirstPointer(snap.regs, site.baseReg, p)
  }

  /** A claim with a window: where bits are open the upper bound is stated, and the range is not empty. */
  predicate Windowed(p: RegState) {
    (p.tnum.mask == 0 || p.umax != 0xffff_ffff_ffff_ffff) && p.umin <= p.umax
  }

  /** The offset the claim puts the variable part on top of. */
  function Fixed(p: RegState, site: StoreSite): int {
    site.insnOff + match p.ptrOff case Some(off) => off case None => 0
  }

  /** A variable part below 2^63 in the claim's range and tnum takes the store to off. */
  ghost predicate Lands(p: RegState, site: StoreSite, off: int) {
    exists v: nat :: v < 0x8000_0000_0000_0000 && p.umin <= v <= p.umax && InTnum(p.tnum.value, p.tnum.mask, v)
                     && off == Fixed(p, site) + v
  }

  lemma {:induction false} FirstRegIs(regs: seq<RegState>, n: nat)
    ensures match FirstReg(regs, n)
            case Some(p) => exists j :: 0 <= j < |regs| && regs[j] == p && IsFirst(regs, n, j)
            case None => forall j :: 0 <= j < |regs| ==> regs[j].reg != n
  {
    if regs != [] {
      FirstRegIs(regs[1..], n);
      if regs[0].reg == n {
        assert IsFirst(regs, n, 0);
      } else if FirstReg(regs[1..], n).Some? {
        var j :| 0 <= j < |regs| - 1 && regs[1..][j] == FirstReg(regs[1..], n).value && IsFirst(regs[1..], n, j);
        forall i | 0 <= i < j + 1 ensures regs[i].reg != n {
          if i > 0 {
            assert regs[i] == regs[1..][i - 1];
          }
        }
        assert IsFirst(regs, n, j + 1) && regs[j + 1] == regs[1..][j];
      } else {
        forall j | 0 <= j < |regs| ensures regs[j].reg != n {
          if j > 0 {
            assert regs[j] == regs[1..][j - 1];
          }
        }
      }
    }
  }

  lemma FirstPointerIs(regs: seq<RegState>, n: nat, p: RegState)
    ensures FirstPointer(regs, n, p) <==> FirstReg(regs, n) == Some(p) && !p.IsScalar()
  {
    FirstRegIs(regs, n);
    if FirstPointer(regs, n, p) {
      var j :| 0 <= j < |regs| && regs[j] == p && IsFirst(regs, n, j);
      var q := FirstReg(regs, n).value;
      var k :| 0 <= k < |regs| && regs[k] == q && IsFirst(regs, n, k);
      assert j == k;
    }
  }

  lemma {:induction false} ClaimsAre(evo: seq<Snapshot>, site: StoreSite, p: RegState)
    ensures p in Claims(evo, site) <==> Claimed(evo, site, p)
  {
    if evo != [] {
      var front, last := evo[..|evo| - 1], evo[|evo| - 1];
      assert evo == front + [last];
      ClaimsAre(front, site, p);
      FirstPointerIs(last.regs, site.baseReg, p);
      assert Claimed(evo, site, p) <==>
             Claimed(front, site, p) || (last.insnIdx == site.insnIdx && FirstPointer(last.regs, site.baseReg, p));
    }
  }

  lemma LandsIsAdmitted(p: RegState, site: StoreSite, off: i64)
    ensures Lands(p, site, off) <==> AdmitsAt(p, site.insnOff, off)
  {
    AdmitsIsReaching(p, site.insnOff, off);
    if AdmitsAt(p, site.insnOff, off) {
      var v: nat := off - BaseOf(p, site.insnOff);
      assert InTnum(p.tnum.value, p.tnum.mask, v) && off == Fixed(p, site) + v;
    }
  }

  // ---- what is reported -----------------------------------------------------------------------------

  /** The finding for sample i. */
  predicate Reported(r: Report, site: StoreSite, i: nat) {
    Finding(StoreLocation, site.insnIdx, i) in r.findings
  }

  lemma {:induction false} ReportedByJudging(claims: seq<RegState>, site: StoreSite, samples: seq<Sample>, i: nat)
    ensures Reported(JudgeStores(Empty, claims, site, samples), site, i) <==>
            i < |samples| && Judged(samples[i]) && !Admitted(claims, site.insnOff, samples[i].storeOff.value)
    ensures JudgeStores(Empty, claims, site, samples).checked[StoresChecked] == |Landings(samples)|
  {
    if samples != [] {
      var front, last := samples[..|samples| - 1], samples[|samples| - 1];
      ReportedByJudging(claims, site, front, i);
      assert Landings(samples) == Landings(front) + if Judged(last) then {|front|} else {};
    } else {
      assert Landings(samples) == {};
    }
  }

  /** The samples whose store landed inside the value or past it. */
  function Landings(samples: seq<Sample>): set<int> {
    set k | 0 <= k < |samples| && samples[k].storeOff.Some? && !samples[k].error && samples[k].storeOff.value >= 0
  }

  ghost predicate AnyWindow(evo: seq<Snapshot>, site: StoreSite) {
    exists p :: Claimed(evo, site, p) && Windowed(p)
  }

  lemma UsableClaims(evo: seq<Snapshot>, site: StoreSite)
    ensures forall p :: p in UsableOf(Claims(evo, site)) <==> Claimed(evo, site, p) && Windowed(p)
    ensures UsableOf(Claims(evo, site)) != [] <==> AnyWindow(evo, site)
  {
    var usable := UsableOf(Claims(evo, site));
    forall p ensures p in usable <==> Claimed(evo, site, p) && Windowed(p) {
      UsableMeans(Claims(evo, site), p);
      ClaimsAre(evo, site, p);
    }
    if usable != [] {
      assert usable[0] in usable;
    }
  }

  /** Sample i is reported exactly when its store landed at a non-negative offset, some pointer with a window is
      claimed for the base register at the instruction, and no such claim can land there with a variable part
      below 2^63; where such a claim exists, every landing is counted. */
  lemma ReportedExactly(rec: Record, site: StoreSite, i: nat)
    requires rec.site == Some(site)
    ensures Reported(StoreOf(Empty, rec), site, i) <==>
            && i < |rec.samples| && rec.samples[i].storeOff.Some? && !rec.samples[i].error
            && rec.samples[i].storeOff.value >= 0 && AnyWindow(rec.evolution, site)
            && forall p :: Claimed(rec.evolution, site, p) && Windowed(p) ==>
                !Lands(p, site, rec.samples[i].storeOff.value)
    ensures StoreOf(Empty, rec).checked[StoresChecked] ==
            if AnyWindow(rec.evolution, site) then |Landings(rec.samples)| else 0
  {
    var usable := UsableOf(Claims(rec.evolution, site));
    UsableClaims(rec.evolution, site);
    ReportedByJudging(usable, site, rec.samples, i);
    if usable != [] && i < |rec.samples| && Judged(rec.samples[i]) {
      var off := rec.samples[i].storeOff.value;
      forall p ensures Lands(p, site, off) <==> AdmitsAt(p, site.insnOff, off) {
        LandsIsAdmitted(p, site, off);
      }
    }
  }

  /** With no claim filtered out and no variable part past 2^63, that is: exactly when no claim at
      the instruction reaches the landing. */
  lemma ReportedIffNoClaimReaches(rec: Record, site: StoreSite, i: nat)
    requires rec.site == Some(site) && i < |rec.samples| && Judged(rec.samples[i])
    requires (exists p :: Claimed(rec.evolution, site, p)) && forall p :: Claimed(rec.evolution, site, p) ==>
             Windowed(p)
    requires forall p :: Claimed(rec.evolution, site, p) ==>
             rec.samples[i].storeOff.value - Fixed(p, site) < 0x8000_0000_0000_0000
    ensures Reported(StoreOf(Empty, rec), site, i) <==>
            forall p :: Claimed(rec.evolution, site, p) ==> !Reaches(p, site.insnOff, rec.samples[i].storeOff.value)
  {
    ReportedExactly(rec, site, i);
    var off := rec.samples[i].storeOff.value;
    forall p | Claimed(rec.evolution, site, p) ensures Lands(p, site, off) <==> Reaches(p, site.insnOff, off) {
      AdmitsIsReaching(p, site.insnOff, off);
      LandsIsAdmitted(p, site, off);
    }
  }

  /** A claim pinning the variable part to 0, and one allowing 0 or 4 without stating an upper bound. */
  function Narrow(): RegState {
    RegState(7, "map_value", Tnum(0, 0), 0, 0, 0, 0, None, None, None, None, None, true)
  }
  function Open(): RegState {
    RegState(7, "map_value", Tnum(0, 4), 0, U64_MAX, 0, I64_MAX, None, None, None, None, None, true)
  }

  lemma OnlyTheFilteredClaimReaches()
    ensures Usable(Narrow()) && !Usable(Open()) && !Reaches(Narrow(), 0, 4) && Reaches(Open(), 0, 4)
  {
    assert AndNot(4, 4) == 0 && InTnum(0, 4, 4);
  }

  const Site: StoreSite := StoreSite(3, 7, 0)

  /** Two paths to one store, the second with a claim that is filtered. */
  function TwoPaths(smp: Sample): Record {
    Record(true, [Snapshot(3, [Narrow()]), Snapshot(3, [Open()])], None, [smp], None, None, Some(Site), None, None)
  }

  lemma TwoClaims(smp: Sample)
    ensures Claims(TwoPaths(smp).evolution, Site) == [Narrow(), Open()]
  {
    var first := [Snapshot(3, [Narrow()])];
    assert TwoPaths(smp).evolution[..1] == first && first[..0] == [];
    assert Claims(first, Site) == [Narrow()];
  }

  /** Filtering a claim narrows the union: here the claim left out reaches the landing that the one
      kept does not, and the store is reported. */
  lemma FilteringCanFabricate(smp: Sample)
    requires smp.storeOff == Some(4) && !smp.error
    ensures var rec := TwoPaths(smp);
            Claimed(rec.evolution, Site, Open()) && Reaches(Open(), 0, 4) && Reported(StoreOf(Empty, rec), Site, 0)
  {
    var rec := TwoPaths(smp);
    TwoClaims(smp);
    OnlyTheFilteredClaimReaches();
    ReportedExactly(rec, Site, 0);
    forall p ensures Claimed(rec.evolution, Site, p) <==> p == Narrow() || p == Open() {
      ClaimsAre(rec.evolution, Site, p);
    }
    LandsIsAdmitted(Narrow(), Site, 4);
    AdmitsIsReaching(Narrow(), 0, 4);
    assert Claimed(rec.evolution, Site, Narrow()) && Windowed(Narrow()) && !Windowed(Open());
    assert AnyWindow(rec.evolution, Site) && !Lands(Narrow(), Site, 4);
  }
}
