/** Backward may-liveness over an explicit control-flow graph: the second half of
    `bpflive_run`, with the path-based meaning it is proved against. */
module Dataflow {

  /** A `uint16_t` register mask, as the set of its bit positions. */
  type Mask = set<int>

  /** r0..r9; r10 is the frame pointer and is never compared. */
  const TRACKED: Mask := {0, 1, 2, 3, 4, 5, 6, 7, 8, 9}

  /** What the first loop of `bpflive_run` leaves behind for instruction i. */
  datatype Node = Node(skip: bool, use: Mask, def: Mask, succ: seq<nat>)

  type Cfg = seq<Node>

  predicate WellFormed(g: Cfg) {
    && (forall i :: 0 <= i < |g| ==> forall k :: 0 <= k < |g[i].succ| ==> g[i].succ[k] < |g|)
    && (forall i :: 0 <= i < |g| && g[i].skip ==> g[i].use == {} && g[i].def == {} && g[i].succ == [])
  }

  // ---- the meaning: paths ---------------------------------------------------------------

  /** A walk along CFG edges that ends in a use of r and meets no definition of r before. */
  ghost predicate UsePath(g: Cfg, path: seq<nat>, r: int)
    requires WellFormed(g)
  {
    && |path| > 0
    && (forall k :: 0 <= k < |path| ==> path[k] < |g|)
    && (forall k :: 0 <= k < |path| - 1 ==> path[k + 1] in g[path[k]].succ && r !in g[path[k]].def)
    && r in g[path[|path| - 1]].use
  }

  /** r may be read, before being overwritten, on some path starting at i. */
  ghost predicate Live(g: Cfg, i: nat, r: int)
    requires WellFormed(g)
  {
    exists path :: UsePath(g, path, r) && path[0] == i
  }

  /** Some such path has at most k edges. */
  ghost predicate LiveWithin(g: Cfg, i: nat, r: int, k: nat)
    requires WellFormed(g) && i < |g|
    decreases k
  {
    || r in g[i].use
    || (k > 0 && r !in g[i].def && exists s: nat :: s in g[i].succ && s < |g| && LiveWithin(g, s, r, k - 1))
  }

  lemma {:induction false} PathBoundsLiveWithin(g: Cfg, path: seq<nat>, r: int, k: nat)
    requires WellFormed(g)
    requires UsePath(g, path, r) && |path| <= k + 1
    ensures LiveWithin(g, path[0], r, k)
    decreases |path|
  {
    if |path| > 1 {
      assert path[0 + 1] in g[path[0]].succ;
      var rest := path[1..];
      forall j | 0 <= j < |rest| - 1 ensures rest[j + 1] in g[rest[j]].succ && r !in g[rest[j]].def {
        assert rest[j] == path[j + 1];
      }
      PathBoundsLiveWithin(g, rest, r, k - 1);
    }
  }

  lemma {:induction false} LiveWithinHasPath(g: Cfg, i: nat, r: int, k: nat) returns (path: seq<nat>)
    requires WellFormed(g) && i < |g|
    requires LiveWithin(g, i, r, k)
    ensures UsePath(g, path, r) && path[0] == i && |path| <= k + 1
    decreases k
  {
    if r in g[i].use {
      path := [i];
    } else {
      var s: nat :| s in g[i].succ && s < |g| && LiveWithin(g, s, r, k - 1);
      var rest := LiveWithinHasPath(g, s, r, k - 1);
      path := [i] + rest;
    }
  }

  // ---- a path never needs n edges -------------------------------------------------------

  ghost function Level(g: Cfg, r: int, k: nat): (s: set<nat>)
    requires WellFormed(g)
    ensures forall i: nat :: i in s <==> i < |g| && LiveWithin(g, i, r, k)
  {
    set i: nat | i < |g| && LiveWithin(g, i, r, k)
  }

  lemma {:induction false} LevelMonotone(g: Cfg, i: nat, r: int, k: nat)
    requires WellFormed(g) && i < |g|
    requires LiveWithin(g, i, r, k)
    ensures LiveWithin(g, i, r, k + 1)
    decreases k
  {
    if r !in g[i].use {
      var s: nat :| s in g[i].succ && s < |g| && LiveWithin(g, s, r, k - 1);
      LevelMonotone(g, s, r, k - 1);
    }
  }

  lemma {:induction false} LevelUpTo(g: Cfg, i: nat, r: int, k: nat, m: nat)
    requires WellFormed(g) && i < |g|
    requires k <= m && LiveWithin(g, i, r, k)
    ensures LiveWithin(g, i, r, m)
    decreases m - k
  {
    if k < m {
      LevelMonotone(g, i, r, k);
      LevelUpTo(g, i, r, k + 1, m);
    }
  }

  ghost predicate Repeats(g: Cfg, r: int, k: nat)
    requires WellFormed(g)
  {
    Level(g, r, k) == Level(g, r, k + 1)
  }

  /** Once a level repeats, every later level is the same. */
  lemma {:induction false} LevelStable(g: Cfg, i: nat, r: int, k: nat, m: nat)
    requires WellFormed(g) && i < |g|
    requires Repeats(g, r, k)
    requires LiveWithin(g, i, r, m)
    ensures LiveWithin(g, i, r, k)
    decreases m
  {
    if m <= k {
      LevelUpTo(g, i, r, m, k);
    } else if r !in g[i].use {
      var s: nat :| s in g[i].succ && s < |g| && LiveWithin(g, s, r, m - 1);
      LevelStable(g, s, r, k, m - 1);
      assert i in Level(g, r, k + 1);
    }
  }

  lemma LevelZeroInhabited(g: Cfg, i: nat, r: int)
    requires WellFormed(g) && i < |g|
    requires LiveWithin(g, i, r, 1)
    ensures Level(g, r, 0) != {}
  {
    if r in g[i].use {
      assert i in Level(g, r, 0);
    } else {
      var s: nat :| s in g[i].succ && s < |g| && LiveWithin(g, s, r, 0);
      assert s in Level(g, r, 0);
    }
  }

  /** Until it repeats, each level holds at least one instruction more than the last. */
  lemma {:induction false} LevelGrows(g: Cfg, r: int, k: nat)
    requires WellFormed(g)
    ensures |Level(g, r, k)| > k || exists j: nat :: j <= k && Repeats(g, r, j)
  {
    if k == 0 {
      if Level(g, r, 0) == {} {
        if i: nat :| i in Level(g, r, 1) {
          LevelZeroInhabited(g, i, r);
        }
        assert Repeats(g, r, 0);
      }
    } else {
      LevelGrows(g, r, k - 1);
      if !Repeats(g, r, k - 1) && |Level(g, r, k - 1)| > k - 1 {
        forall i: nat | i in Level(g, r, k - 1) ensures i in Level(g, r, k) { LevelMonotone(g, i, r, k - 1); }
        var x :| x in Level(g, r, k) && x !in Level(g, r, k - 1);
        SubsetSize(Level(g, r, k - 1) + {x}, Level(g, r, k));
      }
    }
  }

  lemma {:induction false} SubsetSize<T>(a: set<T>, b: set<T>)
    requires a <= b
    ensures |a| <= |b|
  {
    if a != {} {
      var x :| x in a;
      SubsetSize(a - {x}, b - {x});
    }
  }

  lemma {:induction false} RangeSize(n: nat, s: set<nat>)
    requires forall i :: i in s ==> i < n
    ensures |s| <= n
  {
    if n == 0 {
      assert s == {};
    } else {
      RangeSize(n - 1, s - {n - 1});
      if n - 1 in s {
        assert s == (s - {n - 1}) + {n - 1};
      }
    }
  }

  lemma FullLevelRepeats(g: Cfg, r: int, k: nat)
    requires WellFormed(g)
    requires |Level(g, r, k)| >= |g|
    ensures Repeats(g, r, k)
  {
    var here, next := Level(g, r, k), Level(g, r, k + 1);
    forall i: nat | i in here ensures i in next { LevelMonotone(g, i, r, k); }
    if here != next {
      var x :| x in next && x !in here;
      RangeSize(|g|, here + {x});
    }
  }

  /** Path length, not bit count: n - 1 edges reach everything any number of edges reaches. */
  lemma ShortPathsSuffice(g: Cfg, i: nat, r: int, m: nat)
    requires WellFormed(g) && i < |g|
    requires LiveWithin(g, i, r, m)
    ensures LiveWithin(g, i, r, |g| - 1)
  {
    var last := |g| - 1;
    LevelGrows(g, r, last);
    if |Level(g, r, last)| > last {
      FullLevelRepeats(g, r, last);
    }
    var j: nat :| j <= last && Repeats(g, r, j);
    LevelStable(g, i, r, j, m);
    LevelUpTo(g, i, r, j, last);
  }

  lemma LiveIffShort(g: Cfg, i: nat, r: int)
    requires WellFormed(g) && i < |g|
    ensures Live(g, i, r) <==> LiveWithin(g, i, r, |g| - 1)
  {
    if Live(g, i, r) {
      var path :| UsePath(g, path, r) && path[0] == i;
      PathBoundsLiveWithin(g, path, r, |path| - 1);
      ShortPathsSuffice(g, i, r, |path| - 1);
    }
    if LiveWithin(g, i, r, |g| - 1) {
      var path := LiveWithinHasPath(g, i, r, |g| - 1);
    }
  }

  // ---- the dataflow equation ------------------------------------------------------------

  /** The union of the masks at the given successors. */
  function After(live: seq<Mask>, succ: seq<nat>): Mask
    requires forall k :: 0 <= k < |succ| ==> succ[k] < |live|
  {
    if succ == [] then {} else After(live, succ[..|succ| - 1]) + live[succ[|succ| - 1]]
  }

  function Transfer(g: Cfg, live: seq<Mask>, i: nat): Mask
    requires WellFormed(g) && |live| == |g| && i < |g|
  {
    (g[i].use + (After(live, g[i].succ) - g[i].def)) * TRACKED
  }

  ghost predicate FixedPoint(g: Cfg, live: seq<Mask>)
    requires WellFormed(g)
  {
    |live| == |g| && forall i: nat :: i < |g| ==> live[i] == if g[i].skip then {} else Transfer(g, live, i)
  }

  /** Every bit present is justified by a path. */
  ghost predicate Justified(g: Cfg, live: seq<Mask>)
    requires WellFormed(g)
  {
    |live| == |g| && forall i: nat, r :: i < |g| && r in live[i] ==> r in TRACKED && Live(g, i, r)
  }

  /** Every path of fewer than k edges has been accounted for at the instructions from i on. */
  ghost predicate Settled(g: Cfg, live: seq<Mask>, from: nat, k: nat)
    requires WellFormed(g)
  {
    && |live| == |g|
    && forall i: nat, r, j: nat :: from <= i < |g| && r in TRACKED && j < k && LiveWithin(g, i, r, j) ==> r in live[i]
  }

  /** Bit r of live[i] is set exactly when r is tracked and live before i. */
  ghost predicate Exact(g: Cfg, live: seq<Mask>)
    requires WellFormed(g)
  {
    |live| == |g| && forall i: nat, r :: i < |g| ==> (r in live[i] <==> r in TRACKED && Live(g, i, r))
  }

  lemma {:induction false} AfterHas(live: seq<Mask>, succ: seq<nat>, r: int)
    requires forall k :: 0 <= k < |succ| ==> succ[k] < |live|
    ensures r in After(live, succ) <==> exists s: nat :: s in succ && s < |live| && r in live[s]
  {
    if succ != [] {
      var front, last := succ[..|succ| - 1], succ[|succ| - 1];
      AfterHas(live, front, r);
      assert succ == front + [last];
    }
  }

  lemma LiveStep(g: Cfg, i: nat, r: int)
    requires WellFormed(g) && i < |g|
    ensures Live(g, i, r) <==>
            r in g[i].use || (r !in g[i].def && exists s: nat :: s in g[i].succ && s < |g| && Live(g, s, r))
  {
    if Live(g, i, r) && r !in g[i].use {
      var path :| UsePath(g, path, r) && path[0] == i;
      PathBoundsLiveWithin(g, path, r, |path| - 1);
      var s: nat :| s in g[i].succ && s < |g| && LiveWithin(g, s, r, |path| - 2);
      var rest := LiveWithinHasPath(g, s, r, |path| - 2);
    } else if r in g[i].use {
      assert UsePath(g, [i], r);
    } else if r !in g[i].def && exists s: nat :: s in g[i].succ && s < |g| && Live(g, s, r) {
      var s: nat :| s in g[i].succ && s < |g| && Live(g, s, r);
      var rest :| UsePath(g, rest, r) && rest[0] == s;
      assert UsePath(g, [i] + rest, r);
    }
  }

  lemma TransferJustified(g: Cfg, live: seq<Mask>, i: nat)
    requires WellFormed(g) && i < |g| && Justified(g, live)
    ensures forall r :: r in Transfer(g, live, i) ==> r in TRACKED && Live(g, i, r)
  {
    forall r | r in Transfer(g, live, i) ensures Live(g, i, r) {
      AfterHas(live, g[i].succ, r);
      LiveStep(g, i, r);
    }
  }

  lemma TransferSettles(g: Cfg, live: seq<Mask>, i: nat, k: nat)
    requires WellFormed(g) && i < |g| && Settled(g, live, 0, k)
    ensures forall r, j: nat :: r in TRACKED && j <= k && LiveWithin(g, i, r, j) ==> r in Transfer(g, live, i)
  {
    forall r, j: nat | r in TRACKED && j <= k && LiveWithin(g, i, r, j) ensures r in Transfer(g, live, i) {
      AfterHas(live, g[i].succ, r);
      if r !in g[i].use {
        var s: nat :| s in g[i].succ && s < |g| && LiveWithin(g, s, r, j - 1);
        assert r in live[s];
      }
    }
  }

  /** After n passes nothing is missing, so the equation already holds: pass n + 1 is idle. */
  lemma SettledIsExact(g: Cfg, live: seq<Mask>)
    requires WellFormed(g) && Justified(g, live) && Settled(g, live, 0, |g|)
    ensures Exact(g, live) && FixedPoint(g, live)
  {
    forall i: nat, r | i < |g| ensures r in live[i] <==> r in TRACKED && Live(g, i, r) {
      LiveIffShort(g, i, r);
    }
    forall i: nat | i < |g| ensures live[i] == if g[i].skip then {} else Transfer(g, live, i) {
      forall r ensures r in live[i] <==> r in Transfer(g, live, i) {
        LiveStep(g, i, r);
        AfterHas(live, g[i].succ, r);
      }
      if g[i].skip {
        assert Transfer(g, live, i) == {};
      }
    }
  }

  /** Exactness and minimality are the same thing: every solution contains the exact one. */
  lemma LeastSolution(g: Cfg, live: seq<Mask>, other: seq<Mask>, i: nat, r: int)
    requires WellFormed(g) && Exact(g, live) && FixedPoint(g, other)
    requires i < |g| && r in live[i]
    ensures r in other[i]
  {
    LiveIffShort(g, i, r);
    SolutionContains(g, other, i, r, |g| - 1);
  }

  lemma {:induction false} SolutionContains(g: Cfg, other: seq<Mask>, i: nat, r: int, k: nat)
    requires WellFormed(g) && FixedPoint(g, other)
    requires i < |g| && r in TRACKED && LiveWithin(g, i, r, k)
    ensures r in other[i]
    decreases k
  {
    AfterHas(other, g[i].succ, r);
    if r !in g[i].use {
      var s: nat :| s in g[i].succ && s < |g| && LiveWithin(g, s, r, k - 1);
      SolutionContains(g, other, s, r, k - 1);
    }
  }

  // ---- the loop -------------------------------------------------------------------------

  /** One backward sweep, in place: a later instruction's new mask is read by an earlier one. */
  method Pass(g: Cfg, live: array<Mask>, ghost k: nat) returns (changed: bool)
    requires WellFormed(g) && live.Length >= |g|
    requires Justified(g, live[..|g|]) && Settled(g, live[..|g|], 0, k)
    modifies live
    ensures Justified(g, live[..|g|]) && Settled(g, live[..|g|], 0, k + 1)
    ensures !changed ==> FixedPoint(g, live[..|g|])
    ensures k >= |g| ==> !changed
    ensures live[|g|..] == old(live[|g|..])
  {
    var n := |g|;
    changed := false;
    var i := n - 1;
    while i >= 0
      invariant -1 <= i < n
      invariant live[n..] == old(live[n..])
      invariant Justified(g, live[..n]) && Settled(g, live[..n], 0, k) && Settled(g, live[..n], i + 1, k + 1)
      invariant k >= n ==> !changed
      invariant !changed ==> forall j: nat :: i < j < n ==>
                live[j] == if g[j].skip then {} else Transfer(g, live[..n], j)
    {
      if !g[i].skip {
        ghost var before := live[..n];
        var after: Mask := {};
        for m := 0 to |g[i].succ|
          invariant live[..n] == before && after == After(live[..n], g[i].succ[..m])
        {
          assert g[i].succ[..m + 1][..m] == g[i].succ[..m];
          after := after + live[g[i].succ[m]];
        }
        assert g[i].succ[..|g[i].succ|] == g[i].succ;
        var v := (g[i].use + (after - g[i].def)) * TRACKED;
        TransferJustified(g, before, i);
        TransferSettles(g, before, i, k);
        if k >= n {
          SettledIsExact(g, before);
        }
        if v != live[i] {
          live[i] := v;
          changed := true;
          assert live[..n] == before[i := v];
        }
      }
      if g[i].skip {
        forall r | r in live[i] ensures false { LiveStep(g, i, r); }
        assert live[i] == {};
      }
      i := i - 1;
    }
  }
}
