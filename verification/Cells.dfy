/** The numbers the liveness comparators give, as numbers of cells: rows by registers. */
module Cells {
  import opened Isa
  import opened Dataflow
  import opened Gate

  /** Row k is within the claim, and the claim has register r live at its instruction. */
  predicate IsChecked(claim: seq<Mask>, rows: seq<TableRow>, k: nat, r: int) {
    k < |rows| && rows[k].0 < |claim| && 0 <= r < 10 && r in claim[rows[k].0]
  }

  /** And the row has it dead. */
  predicate IsOver(claim: seq<Mask>, rows: seq<TableRow>, k: nat, r: int) {
    IsChecked(claim, rows, k, r) && r !in rows[k].1
  }

  function CheckedCells(claim: seq<Mask>, rows: seq<TableRow>): set<(nat, int)> {
    set k: nat, r | 0 <= k < |rows| && 0 <= r < 10 && IsChecked(claim, rows, k, r) :: (k, r)
  }

  function OverCells(claim: seq<Mask>, rows: seq<TableRow>): set<(nat, int)> {
    set k: nat, r | 0 <= k < |rows| && 0 <= r < 10 && IsOver(claim, rows, k, r) :: (k, r)
  }

  /** The registers below n that satisfy one mask and not the other. */
  function Regs(ours: Mask, kernel: Mask, n: nat): set<int> { set r | 0 <= r < n && r in ours && r !in kernel }

  lemma RegsStep(ours: Mask, kernel: Mask, n: nat)
    requires n > 0
    ensures |Regs(ours, kernel, n)| ==
            |Regs(ours, kernel, n - 1)| + if n - 1 in ours && n - 1 !in kernel then 1 else 0
    ensures Regs(ours, kernel, n) ==
            Regs(ours, kernel, n - 1) + if n - 1 in ours && n - 1 !in kernel then {n - 1} else {}
  {
    if n - 1 in ours && n - 1 !in kernel {
      assert Regs(ours, kernel, n) == Regs(ours, kernel, n - 1) + {n - 1};
    } else {
      assert Regs(ours, kernel, n) == Regs(ours, kernel, n - 1);
    }
  }

  lemma {:induction false} RowCounts(insn: nat, ours: Mask, kernel: Mask, n: nat)
    ensures LiveBelow(ours, n) == |Regs(ours, {}, n)| && |Overreach(insn, ours, kernel, n)| == |Regs(ours, kernel, n)|
  {
    if n == 0 {
      assert Regs(ours, {}, 0) == {} && Regs(ours, kernel, 0) == {};
    } else {
      RowCounts(insn, ours, kernel, n - 1);
      RegsStep(ours, {}, n);
      RegsStep(ours, kernel, n);
    }
  }
  function Tagged(k: nat, rs: set<int>): set<(nat, int)> { set r | r in rs :: (k, r) }

  lemma {:induction false} TaggedSize(k: nat, ours: Mask, kernel: Mask, n: nat)
    ensures |Tagged(k, Regs(ours, kernel, n))| == |Regs(ours, kernel, n)|
  {
    if n == 0 {
      assert Regs(ours, kernel, 0) == {} && Tagged(k, {}) == {};
    } else {
      TaggedSize(k, ours, kernel, n - 1);
      var rest := Regs(ours, kernel, n - 1);
      RegsStep(ours, kernel, n);
      if n - 1 in ours && n - 1 !in kernel {
        TaggedStep(k, rest, n - 1);
      } else {
        assert Regs(ours, kernel, n) == rest;
      }
    }
  }

  lemma TaggedStep(k: nat, rs: set<int>, r: int)
    requires r !in rs
    ensures |Tagged(k, rs + {r})| == |Tagged(k, rs)| + 1
  {
    assert Tagged(k, rs + {r}) == Tagged(k, rs) + {(k, r)};
  }

  lemma CellsStep(claim: seq<Mask>, front: seq<TableRow>, last: TableRow)
    ensures var (rows, k) := (front + [last], |front|);
            && CheckedCells(claim, rows) == CheckedCells(claim, front) +
                 Tagged(k, if last.0 < |claim| then Regs(claim[last.0], {}, 10) else {})
            && OverCells(claim, rows) == OverCells(claim, front) +
                 Tagged(k, if last.0 < |claim| then Regs(claim[last.0], last.1, 10) else {})
  {
    var rows := front + [last];
    forall k: nat, r ensures IsChecked(claim, rows, k, r) <==>
        IsChecked(claim, front, k, r) || (k == |front| && last.0 < |claim| && r in Regs(claim[last.0], {}, 10)) {}
  }

  function PairedRows(n: nat, rows: seq<TableRow>): set<int> { set k | 0 <= k < |rows| && rows[k].0 < n }

  /** As many rows are paired as lie within the claim. */
  lemma {:induction false} PairedCounts(n: nat, rows: seq<TableRow>)
    ensures Paired(n, rows) == |PairedRows(n, rows)|
  {
    if rows != [] {
      var front, last := rows[..|rows| - 1], rows[|rows| - 1];
      PairedCounts(n, front);
      assert PairedRows(n, rows) == PairedRows(n, front) + if last.0 < n then {|front|} else {};
    }
  }

  /** As many cells are checked as the claim has live registers in the rows, and as many are reported as are dead
      there. */
  lemma {:induction false} CellsCount(claim: seq<Mask>, rows: seq<TableRow>)
    ensures AllChecked(claim, rows) == |CheckedCells(claim, rows)|
    ensures |AllOverreach(claim, rows)| == |OverCells(claim, rows)|
  {
    if rows == [] {
      assert CheckedCells(claim, rows) == {} && OverCells(claim, rows) == {};
    } else {
      var front, last := rows[..|rows| - 1], rows[|rows| - 1];
      assert rows == front + [last];
      CellsCount(claim, front);
      RowAdds(claim, front, last);
    }
  }

  lemma RowAdds(claim: seq<Mask>, front: seq<TableRow>, last: TableRow)
    ensures |CheckedCells(claim, front + [last])| ==
            |CheckedCells(claim, front)| + if last.0 < |claim| then LiveBelow(claim[last.0], 10) else 0
    ensures |OverCells(claim, front + [last])| ==
            |OverCells(claim, front)| + if last.0 < |claim| then |Overreach(last.0, claim[last.0], last.1, 10)| else 0
  {
    CellsStep(claim, front, last);
    var c := if last.0 < |claim| then Regs(claim[last.0], {}, 10) else {};
    var o := if last.0 < |claim| then Regs(claim[last.0], last.1, 10) else {};
    assert Tagged(|front|, {}) == {};
    if last.0 < |claim| {
      TaggedSize(|front|, claim[last.0], {}, 10);
      TaggedSize(|front|, claim[last.0], last.1, 10);
    }
    assert CheckedCells(claim, front) !! Tagged(|front|, c) && OverCells(claim, front) !! Tagged(|front|, o);
    if last.0 < |claim| {
      RowCounts(last.0, claim[last.0], last.1, 10);
    }
  }

  /** (k, r) comes before every other overreaching cell: the first row with one, and its lowest register. */
  ghost predicate FirstOver(claim: seq<Mask>, rows: seq<TableRow>, k: nat, r: int) {
    && IsOver(claim, rows, k, r) && (forall j: nat, q :: j < k ==> !IsOver(claim, rows, j, q))
    && forall q :: q < r ==> !IsOver(claim, rows, k, q)
  }

  lemma {:induction false} LowestFirst(insn: nat, ours: Mask, kernel: Mask, n: nat)
    requires Overreach(insn, ours, kernel, n) != []
    ensures var c := Overreach(insn, ours, kernel, n)[0];
            c.insn == insn && c.reg in Regs(ours, kernel, n) && forall q :: q in Regs(ours, kernel, n) ==> c.reg <= q
  {
    if Overreach(insn, ours, kernel, n - 1) != [] {
      LowestFirst(insn, ours, kernel, n - 1);
      assert Regs(ours, kernel, n) <= Regs(ours, kernel, n - 1) + {n - 1};
    } else {
      RowCounts(insn, ours, kernel, n - 1);
      assert Regs(ours, kernel, n - 1) == {} && Regs(ours, kernel, n) <= {n - 1};
    }
  }

  /** The cell kept for triage is the first overreaching one. */
  lemma {:induction false} FirstIsFirst(claim: seq<Mask>, rows: seq<TableRow>) returns (k: nat, r: int)
    requires AllOverreach(claim, rows) != []
    ensures FirstOver(claim, rows, k, r) && AllOverreach(claim, rows)[0] == Cell(rows[k].0, r)
    ensures FirstMasks(claim, rows) == (rows[k].1, claim[rows[k].0])
  {
    var front, last := rows[..|rows| - 1], rows[|rows| - 1];
    assert rows == front + [last];
    if AllOverreach(claim, front) != [] {
      k, r := FirstIsFirst(claim, front);
      assert forall j: nat, q :: j < |front| ==> (IsOver(claim, rows, j, q) <==> IsOver(claim, front, j, q));
    } else {
      k, r := |front|, AllOverreach(claim, rows)[0].reg;
      LowestFirst(last.0, claim[last.0], last.1, 10);
      assert forall q :: IsOver(claim, rows, k, q) ==> q in Regs(claim[last.0], last.1, 10);
      assert forall j: nat, q :: IsOver(claim, front, j, q) <==> (j, q) in OverCells(claim, front);
      assert forall j: nat, q :: j < k ==> (IsOver(claim, rows, j, q) <==> IsOver(claim, front, j, q));
      CellsCount(claim, front);
    }
  }
}
