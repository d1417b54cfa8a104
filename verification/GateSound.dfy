/** What the liveness gate is for: a kernel table in which it finds nothing is as good as the masks
    of the analysis. */
module GateSound {
  import opened Isa
  import opened Dataflow
  import opened Liveness
  import opened Interp
  import opened NonInterference
  import opened Gate

  lemma LiveIsTracked(kf: Kfuncs, p: Program, live: seq<Mask>, i: nat)
    requires Accepts(kf, p) && FixedPoint(CfgOf(kf, p), live) && i < |p|
    ensures live[i] <= TRACKED
  {
    var g := CfgOf(kf, p);
    assert live[i] == if g[i].skip then {} else Transfer(g, live, i);
  }

  /** Where the gate finds nothing, agreement on the kernel's mask for a slot already makes runs from it
      equal: a prune that compared only those registers compared enough. */
  lemma SilentGateIsSound(kf: Kfuncs, p: Program, live: seq<Mask>, keep: Mask, rows: seq<TableRow>,
                          kernel: Mask, pc: nat, a: State, b: State, budget: nat)
    requires Accepts(kf, p) && FixedPoint(CfgOf(kf, p), live) && Trustworthy(kf, p, live, keep)
    requires pc < |p| && AllOverreach(live, rows) == [] && (pc, kernel) in rows
    requires a.Valid() && b.Valid() && AgreeOn(kernel + keep, a, b) && !Harmful(kf, p, live, keep, pc)
    ensures Exec(p, pc, a, budget) == Exec(p, pc, b, budget)
  {
    LiveIsTracked(kf, p, live, pc);
    SilentRowCovers(live, rows, pc, kernel);
    DeadRegistersAreInvisible(kf, p, live, keep, pc, a, b, budget);
  }
}
