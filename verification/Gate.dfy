/** The liveness gate judged twice: in the VM against a log, and in the pipeline against the
    claim.  Only a register the model calls live and the kernel dead is a finding. */
module Gate {
  import opened Isa
  import opened Dataflow

  /** One table row that was read: instruction index and the kernel's mask. */
  type TableRow = (nat, Mask)

  datatype Cell = Cell(insn: nat, reg: int)

  /** The cells of one row, in register order: checked where we say live, overreaching where the
      kernel says dead as well. */
  function Overreach(insn: nat, ours: Mask, kernel: Mask, upTo: nat): seq<Cell> {
    if upTo == 0 then []
    else
      Overreach(insn, ours, kernel, upTo - 1)
      + if upTo - 1 in ours && upTo - 1 !in kernel then [Cell(insn, upTo - 1)] else []
  }

  function LiveBelow(ours: Mask, upTo: nat): nat {
    if upTo == 0 then 0 else LiveBelow(ours, upTo - 1) + if upTo - 1 in ours then 1 else 0
  }

  /** Rows past the claim are a truncated claim, not a disagreement. */
  function AllOverreach(claim: seq<Mask>, rows: seq<TableRow>): seq<Cell> {
    if rows == [] then []
    else
      var (insn, kernel) := rows[|rows| - 1];
      AllOverreach(claim, rows[..|rows| - 1]) + if insn < |claim| then Overreach(insn, claim[insn], kernel, 10) else []
  }

  function AllChecked(claim: seq<Mask>, rows: seq<TableRow>): nat {
    if rows == [] then 0
    else
      var insn := rows[|rows| - 1].0;
      AllChecked(claim, rows[..|rows| - 1]) + if insn < |claim| then LiveBelow(claim[insn], 10) else 0
  }

  function Paired(n: nat, rows: seq<TableRow>): nat {
    if rows == [] then 0 else Paired(n, rows[..|rows| - 1]) + if rows[|rows| - 1].0 < n then 1 else 0
  }

  // ---- bpflive_compare_log ----------------------------------------------------------------------------

  /** `struct bpflive_cmp`. */
  class LiveCmp {
    var rows: nat
    var checked: nat
    var overreach: nat
    var first: Option<Cell>
    var kmask: Mask
    var omask: Mask

    constructor ()
      ensures rows == checked == overreach == 0 && first == None && kmask == omask == {}
    {
      rows, checked, overreach, first, kmask, omask := 0, 0, 0, None, {}, {};
    }
  }

  function First(cells: seq<Cell>): Option<Cell> {
    if cells == [] then None else Some(cells[0])
  }

  /** The kernel's mask and ours in the first row with an overreaching cell. */
  function FirstMasks(claim: seq<Mask>, rows: seq<TableRow>): (Mask, Mask) {
    if rows == [] then ({}, {})
    else
      var front := rows[..|rows| - 1];
      var (insn, kernel) := rows[|rows| - 1];
      if AllOverreach(claim, front) == [] && insn < |claim| && Overreach(insn, claim[insn], kernel, 10) != [] then
        (kernel, claim[insn])
      else FirstMasks(claim, front)
  }

  method CompareRow(idx: nat, ours: Mask, kmask: Mask, out: LiveCmp, ghost soFar: seq<Cell>)
    requires out.overreach == |soFar| && out.first == First(soFar)
    modifies out
    ensures out.rows == old(out.rows) + 1 && out.checked == old(out.checked) + LiveBelow(ours, 10)
    ensures var all := soFar + Overreach(idx, ours, kmask, 10);
            out.overreach == |all| && out.first == First(all)
    ensures (out.kmask, out.omask) ==
            if soFar == [] && Overreach(idx, ours, kmask, 10) != [] then (kmask, ours) else old((out.kmask, out.omask))
  {
    out.rows := out.rows + 1;
    for reg := 0 to 10
      invariant out.rows == old(out.rows) + 1 && out.checked == old(out.checked) + LiveBelow(ours, reg)
      invariant out.overreach == |soFar + Overreach(idx, ours, kmask, reg)|
      invariant out.first == First(soFar + Overreach(idx, ours, kmask, reg))
      invariant (out.kmask, out.omask) ==
                if soFar == [] && Overreach(idx, ours, kmask, reg) != [] then (kmask, ours)
                else old((out.kmask, out.omask))
    {
      if reg in ours {
        out.checked := out.checked + 1;
        if reg !in kmask {
          out.overreach := out.overreach + 1;
          if out.first.None? {
            out.first, out.kmask, out.omask := Some(Cell(idx, reg)), kmask, ours;
          }
        }
      }
    }
  }

  /** The comparison loop of `bpflive_compare_log`, over the rows of one table. */
  method CompareTable(live: seq<Mask>, rows: seq<TableRow>, out: LiveCmp)
    requires out.rows == out.checked == out.overreach == 0 && out.first == None && out.kmask == out.omask == {}
    modifies out
    ensures out.rows == Paired(|live|, rows) && out.checked == AllChecked(live, rows)
    ensures out.overreach == |AllOverreach(live, rows)| && out.first == First(AllOverreach(live, rows))
    ensures (out.kmask, out.omask) == FirstMasks(live, rows)
  {
    for i := 0 to |rows|
      invariant out.rows == Paired(|live|, rows[..i]) && out.checked == AllChecked(live, rows[..i])
      invariant out.overreach == |AllOverreach(live, rows[..i])| && out.first == First(AllOverreach(live, rows[..i]))
      invariant (out.kmask, out.omask) == FirstMasks(live, rows[..i])
    {
      assert rows[..i + 1][..i] == rows[..i];
      var (idx, kmask) := rows[i];
      if idx < |live| {
        CompareRow(idx, live[idx], kmask, out, AllOverreach(live, rows[..i]));
      }
    }
    assert rows[..|rows|] == rows;
  }

  // ---- check_liveness_gate ------------------------------------------------------------------------------

  method CheckLivenessGate(claim: seq<Mask>, kernel: seq<TableRow>) returns (findings: seq<Cell>, checked: nat)
    ensures findings == AllOverreach(claim, kernel) && checked == AllChecked(claim, kernel)
  {
    findings, checked := [], 0;
    for i := 0 to |kernel|
      invariant findings == AllOverreach(claim, kernel[..i]) && checked == AllChecked(claim, kernel[..i])
    {
      assert kernel[..i + 1][..i] == kernel[..i];
      var (insn, kmask) := kernel[i];
      if insn < |claim| {
        var ours := claim[insn];
        ghost var f0, c0 := findings, checked;
        for reg := 0 to 10
          invariant findings == f0 + Overreach(insn, ours, kmask, reg) && checked == c0 + LiveBelow(ours, reg)
        {
          if reg in ours {
            checked := checked + 1;
            if reg !in kmask {
              findings := findings + [Cell(insn, reg)];
            }
          }
        }
      }
    }
    assert kernel[..|kernel|] == kernel;
  }

  // ---- what is reported ---------------------------------------------------------------------------------

  lemma {:induction false} OverreachCells(insn: nat, ours: Mask, kernel: Mask, upTo: nat, c: Cell)
    ensures c in Overreach(insn, ours, kernel, upTo) <==>
            c.insn == insn && 0 <= c.reg < upTo && c.reg in ours && c.reg !in kernel
  {
    if upTo > 0 {
      OverreachCells(insn, ours, kernel, upTo - 1, c);
    }
  }

  /** Some row of c's instruction has c's register dead. */
  ghost predicate SaidDead(rows: seq<TableRow>, c: Cell) {
    exists k :: 0 <= k < |rows| && rows[k].0 == c.insn && c.reg !in rows[k].1
  }

  lemma SaidDeadStep(front: seq<TableRow>, last: TableRow, c: Cell)
    ensures SaidDead(front + [last], c) <==> SaidDead(front, c) || (last.0 == c.insn && c.reg !in last.1)
  {
    var rows := front + [last];
    if SaidDead(front, c) {
      var k :| 0 <= k < |front| && front[k].0 == c.insn && c.reg !in front[k].1;
      assert rows[k] == front[k];
    }
    assert rows[|front|] == last;
  }

  /** A cell is reported exactly when some row within the claim says dead where the claim says live. */
  lemma {:induction false} ReportedExactly(claim: seq<Mask>, rows: seq<TableRow>, c: Cell)
    ensures c in AllOverreach(claim, rows) <==>
            c.insn < |claim| && 0 <= c.reg < 10 && c.reg in claim[c.insn]
            && SaidDead(rows, c)
  {
    if rows != [] {
      var front, last := rows[..|rows| - 1], rows[|rows| - 1];
      ReportedExactly(claim, front, c);
      assert rows == front + [last];
      SaidDeadStep(front, last, c);
      if last.0 < |claim| {
        OverreachCells(last.0, claim[last.0], last.1, 10, c);
      }
    }
  }

  /** A table without a finding leaves out of a row nothing the claim has live there. */
  lemma SilentRowCovers(claim: seq<Mask>, rows: seq<TableRow>, i: nat, kernel: Mask)
    requires AllOverreach(claim, rows) == [] && i < |claim| && claim[i] <= TRACKED && (i, kernel) in rows
    ensures claim[i] <= kernel
  {
    var k :| 0 <= k < |rows| && rows[k] == (i, kernel);
    forall r | r in claim[i] ensures r in kernel {
      ReportedExactly(claim, rows, Cell(i, r));
      assert rows[k].0 == i && (r in kernel || SaidDead(rows, Cell(i, r)));
    }
  }

  /** The masks kept for triage are those of the first cell's own row. */
  lemma {:induction false} FirstMasksMean(claim: seq<Mask>, rows: seq<TableRow>)
    requires AllOverreach(claim, rows) != []
    ensures var (c, (kernel, ours)) := (AllOverreach(claim, rows)[0], FirstMasks(claim, rows));
            && c.insn < |claim| && ours == claim[c.insn] && c.reg in ours && c.reg !in kernel
            && (c.insn, kernel) in rows
  {
    var front := rows[..|rows| - 1];
    var (insn, kernel) := rows[|rows| - 1];
    if AllOverreach(claim, front) != [] {
      FirstMasksMean(claim, front);
    } else {
      OverreachCells(insn, claim[insn], kernel, 10, AllOverreach(claim, rows)[0]);
    }
  }

  /** No finding without a checked cell behind it. */
  lemma {:induction false} OverreachIsChecked(claim: seq<Mask>, rows: seq<TableRow>)
    ensures |AllOverreach(claim, rows)| <= AllChecked(claim, rows)
  {
    if rows != [] {
      OverreachIsChecked(claim, rows[..|rows| - 1]);
      var (insn, kernel) := rows[|rows| - 1];
      if insn < |claim| {
        RowOverreachIsChecked(insn, claim[insn], kernel, 10);
      }
    }
  }

  lemma {:induction false} RowOverreachIsChecked(insn: nat, ours: Mask, kernel: Mask, upTo: nat)
    ensures |Overreach(insn, ours, kernel, upTo)| <= LiveBelow(ours, upTo)
  {
    if upTo > 0 {
      RowOverreachIsChecked(insn, ours, kernel, upTo - 1);
    }
  }

  /** One table and one claim through both comparators: same denominator, same number of findings,
      same first cell. */
  method BothComparators(masks: seq<Mask>, rows: seq<TableRow>) returns (out: LiveCmp, findings: seq<Cell>,
                                                                         checked: nat)
    ensures out.checked == checked && out.overreach == |findings| && out.first == First(findings)
  {
    out := new LiveCmp();
    CompareTable(masks, rows, out);
    findings, checked := CheckLivenessGate(masks, rows);
  }
}
