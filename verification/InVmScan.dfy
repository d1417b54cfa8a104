/** `bpfsubs_compare_log`: one pass over a verifier log, leaving only counters behind. */
module InVmScan {
  import opened Isa
  import opened IdMap
  import opened Subsume
  import opened Refinement
  import opened Scanner
  import opened InVm

  /** What one pair amounts to: its verdict, and how often each kind of comparison ran. */
  datatype Judged = Judged(verdict: Verdict, tally: Tally)

  function Cut(rows: seq<Reg>): seq<Reg> {
    if |rows| <= MAX_ROWS then rows else rows[..MAX_ROWS]
  }

  function JudgeRows(olds: seq<Reg>, curs: seq<Reg>, exact: nat): Judged {
    var w := CEval(olds, curs, exact, Nothing);
    Judged(w.verdict, w.tally)
  }

  /** Rows past the array limit are dropped. */
  function JudgeC(g: Group): Judged { JudgeRows(Cut(g.olds), Cut(g.curs), g.exact) }

  function JudgeAll(groups: seq<Group>): seq<Judged> {
    seq(|groups|, i requires 0 <= i < |groups| => JudgeC(groups[i]))
  }

  function AddTally(a: Tally, b: Tally): Tally {
    Tally(a.scalarCmp + b.scalarCmp, a.ptrCmp + b.ptrCmp, a.shortcircuit + b.shortcircuit)
  }

  datatype Totals = Totals(agree: nat, disagree: nat, unmodelled: nat, nontrivial: nat, tally: Tally)

  function AddJudged(before: Totals, j: Judged): Totals {
    var t := before.(tally := AddTally(before.tally, j.tally));
    match j.verdict
    case Agree => t.(agree := t.agree + 1, nontrivial := t.nontrivial + if j.tally.scalarCmp > 0 then 1 else 0)
    case Break(_) => t.(disagree := t.disagree + 1)
    case Unmodelled => t.(unmodelled := t.unmodelled + 1)
  }

  function Tot(js: seq<Judged>): Totals {
    if js == [] then Totals(0, 0, 0, 0, Nothing) else AddJudged(Tot(js[..|js| - 1]), js[|js| - 1])
  }

  /** Every pair is in exactly one of the three categories. */
  lemma {:induction false} TotalsPartition(js: seq<Judged>)
    ensures var t := Tot(js); t.agree + t.disagree + t.unmodelled == |js| && t.nontrivial <= t.agree
  {
    if js != [] {
      TotalsPartition(js[..|js| - 1]);
    }
  }

  /** The counters start from wherever the tally stands; verdicts do not depend on it. */
  lemma {:induction false} WalkIgnoresTally(d: Dialect, rows: seq<Joined>, exact: nat, ids: IdState, tally: Tally)
    ensures var w, z := Walk(d, rows, exact, ids, tally), Walk(d, rows, exact, ids, Nothing);
            w.verdict == z.verdict && w.tally == AddTally(tally, z.tally)
    decreases |rows|
  {
    if rows != [] && rows[0].1.Some? {
      var s := RegStep(d, rows[0].0, rows[0].1.value, exact, ids, tally);
      var z := RegStep(d, rows[0].0, rows[0].1.value, exact, ids, Nothing);
      if s.arm.None? {
        WalkIgnoresTally(d, rows[1..], exact, s.ids, s.tally);
        WalkIgnoresTally(d, rows[1..], exact, s.ids, z.tally);
      }
    }
  }

  /** The pair counter, the first disagreement and the totals. */
  datatype Scanned = Scanned(pairs: nat, first: Option<(nat, nat, Arm)>, totals: Totals)

  function AddPair(s: Scanned, insn: nat, exact: nat, j: Judged): Scanned {
    Scanned(s.pairs + 1, if s.first.None? && j.verdict.Break? then Some((insn, exact, j.verdict.arm)) else s.first,
            AddJudged(s.totals, j))
  }

  function FirstBreak(groups: seq<Group>): Option<(nat, nat, Arm)> {
    if groups == [] then None
    else
      var front, g := FirstBreak(groups[..|groups| - 1]), groups[|groups| - 1];
      if front.None? && JudgeC(g).verdict.Break? then Some((g.insn, g.exact, JudgeC(g).verdict.arm)) else front
  }

  function ScannedOf(groups: seq<Group>): Scanned {
    Scanned(|groups|, FirstBreak(groups), Tot(JudgeAll(groups)))
  }

  ghost function View(out: SubsCmp): Scanned
    reads out`pairs, out`agree, out`disagree, out`unmodelled, out`nontrivial, out`tally, out`first
  {
    Scanned(out.pairs, out.first, Totals(out.agree, out.disagree, out.unmodelled, out.nontrivial, out.tally))
  }

  /** The counters say exactly what judging these groups amounts to. */
  ghost predicate Reflects(out: SubsCmp, groups: seq<Group>)
    reads out`pairs, out`agree, out`disagree, out`unmodelled, out`nontrivial, out`tally, out`first
  {
    View(out) == ScannedOf(groups)
  }

  predicate LineOk(l: Line) {
    match l
    case PfxLine(p) => '\0' !in p.text
    case RowLine(r) => r.reg.pfx == None
    case _ => true
  }

  function RowLines(lines: seq<Line>): nat {
    if lines == [] then 0 else RowLines(lines[..|lines| - 1]) + if lines[|lines| - 1].RowLine? then 1 else 0
  }

  function BadLines(lines: seq<Line>): nat {
    if lines == [] then 0 else BadLines(lines[..|lines| - 1]) + if lines[|lines| - 1].BadRow? then 1 else 0
  }

  lemma CountsStep(lines: seq<Line>, i: nat)
    requires i < |lines|
    ensures RowLines(lines[..i + 1]) == RowLines(lines[..i]) + if lines[i].RowLine? then 1 else 0
    ensures BadLines(lines[..i + 1]) == BadLines(lines[..i]) + if lines[i].BadRow? then 1 else 0
  {
    assert lines[..i + 1][..i] == lines[..i];
  }

  lemma ScannedStep(groups: seq<Group>, g: Group)
    ensures ScannedOf(groups + [g]) == AddPair(ScannedOf(groups), g.insn, g.exact, JudgeC(g))
  {
    var js := JudgeAll(groups);
    assert JudgeAll(groups + [g]) == js + [JudgeC(g)];
    assert (js + [JudgeC(g)])[..|js|] == js && (groups + [g])[..|groups|] == groups;
  }

  /** The verdict entered into the counters; tally and nontrivial have been moved already. */
  method Account(v: Verdict, insn: nat, exact: nat, out: SubsCmp)
    modifies out`pairs, out`agree, out`disagree, out`unmodelled, out`first
    ensures out.pairs == old(out.pairs) + 1
    ensures out.agree == old(out.agree) + if v == Agree then 1 else 0
    ensures out.disagree == old(out.disagree) + if v.Break? then 1 else 0
    ensures out.unmodelled == old(out.unmodelled) + if v == Unmodelled then 1 else 0
    ensures out.first == if old(out.first).None? && v.Break? then Some((insn, exact, v.arm)) else old(out.first)
  {
    out.pairs := out.pairs + 1;
    match v {
      case Break(arm) =>
        out.disagree := out.disagree + 1;
        if out.first.None? {
          out.first := Some((insn, exact, arm));
        }
      case Unmodelled => out.unmodelled := out.unmodelled + 1;
      case Agree => out.agree := out.agree + 1;
    }
  }

  method Judge(olds: seq<Reg>, curs: seq<Reg>, insn: nat, exact: nat, out: SubsCmp)
    requires forall r :: r in olds || r in curs ==> PrefixOk(r)
    modifies out`pairs, out`agree, out`disagree, out`unmodelled, out`nontrivial, out`tally, out`first
    ensures View(out) == AddPair(old(View(out)), insn, exact, JudgeRows(olds, curs, exact))
  {
    var v := SubsEval(olds, curs, exact, out);
    CEvalIgnoresTally(olds, curs, exact, old(out.tally));
    Account(v, insn, exact, out);
  }

  method ClosePair(olds: seq<Reg>, curs: seq<Reg>, insn: nat, exact: nat, out: SubsCmp,
                   ghost groups: seq<Group>, ghost g: Group)
    requires Reflects(out, groups) && g.insn == insn && g.exact == exact && olds == Cut(g.olds) && curs == Cut(g.curs)
    requires forall r :: r in olds || r in curs ==> PrefixOk(r)
    modifies out`pairs, out`agree, out`disagree, out`unmodelled, out`nontrivial, out`tally, out`first
    ensures Reflects(out, groups + [g])
  {
    ScannedStep(groups, g);
    Judge(olds, curs, insn, exact, out);
  }

  lemma CEvalIgnoresTally(olds: seq<Reg>, curs: seq<Reg>, exact: nat, tally: Tally)
    ensures var w, z := CEval(olds, curs, exact, tally), CEval(olds, curs, exact, Nothing);
            w.verdict == z.verdict && w.tally == AddTally(tally, z.tally)
  {
    if olds != [] && curs != [] {
      WalkIgnoresTally(C, CJoin(SortByKey(olds), curs), exact, FreshIds, tally);
    }
  }

  /** What reading one line does to the groups found so far and to the pending prefix. */
  function ReadLine(groups: seq<Group>, pend: Option<Pfx>, line: Line): (seq<Group>, Option<Pfx>) {
    match line
    case PfxLine(p) => (groups, Some(p))
    case RowLine(r) => (AddRow(groups, Attach(r, pend)), None)
    case _ => (groups, pend)
  }

  lemma ReadingOn(lines: seq<Line>, i: nat, groups: seq<Group>, pend: Option<Pfx>)
    requires i < |lines|
    ensures var (g, p) := ReadLine(groups, pend, lines[i]);
            AddRows(groups, CRows(lines[i..], pend)) == AddRows(g, CRows(lines[i + 1..], p))
  {
  }

  function Append(rows: seq<Reg>, r: Reg): seq<Reg> {
    if |rows| < MAX_ROWS then rows + [r] else rows
  }

  /** The scanner's own view of the group it is filling. */
  ghost predicate Filling(gs: seq<Group>, open: bool, prevOld: bool, insn: nat, exact: nat, olds: seq<Reg>,
                          curs: seq<Reg>) {
    if !open then gs == [] && !prevOld
    else
      && gs != []
      && var last := gs[|gs| - 1];
         last.insn == insn && last.exact == exact && olds == Cut(last.olds) && curs == Cut(last.curs) &&
             (prevOld <==> last.curs == [])
  }

  lemma FillingStep(gs: seq<Group>, open: bool, prevOld: bool, insn: nat, exact: nat, olds: seq<Reg>, curs: seq<Reg>,
                    row: Row)
    requires Filling(gs, open, prevOld, insn, exact, olds, curs)
    ensures if row.isOld && (!open || !prevOld) then
              && AddRow(gs, row) == gs + [Group(row.insn, row.exact, [row.reg], [])]
              && Filling(AddRow(gs, row), true, true, row.insn, row.exact, Append([], row.reg), [])
            else if !open then AddRow(gs, row) == []
            else
              && AddRow(gs, row)[..|gs| - 1] == gs[..|gs| - 1] && |AddRow(gs, row)| == |gs|
              && Filling(AddRow(gs, row), true, row.isOld, insn, exact,
                         if row.isOld then Append(olds, row.reg) else olds,
                             if row.isOld then curs else Append(curs, row.reg))
  {
  }

  /** The scanner's locals, and the groups its rows so far amount to. */
  class Scan {
    const out: SubsCmp
    var olds: seq<Reg>
    var curs: seq<Reg>
    var insn: nat
    var exact: nat
    var prevOld: bool
    var open: bool
    var pend: Option<Pfx>
    ghost var groups: seq<Group>

    /** Every group but the one being filled has been judged. */
    ghost predicate Valid()
      reads this, out
    {
      && Filling(groups, open, prevOld, insn, exact, olds, curs)
      && Reflects(out, if open && groups != [] then groups[..|groups| - 1] else [])
      && (forall r :: r in olds || r in curs ==> PrefixOk(r))
      && (pend.Some? ==> '\0' !in pend.value.text)
    }

    constructor (out: SubsCmp)
      requires Reflects(out, [])
      ensures Valid() && this.out == out && groups == [] && pend == None
    {
      this.out := out;
      olds, curs, insn, exact, prevOld, open, pend, groups := [], [], 0, 0, false, false, None, [];
    }

    method CloseOpenPair()
      requires Valid()
      modifies out`pairs, out`agree, out`disagree, out`unmodelled, out`nontrivial, out`tally, out`first
      ensures Reflects(out, groups)
    {
      if open {
        ghost var front, last := groups[..|groups| - 1], groups[|groups| - 1];
        assert groups == front + [last];
        ClosePair(olds, curs, insn, exact, out, front, last);
      }
    }

    /** An old row where no old run is being read: the open pair is judged and a new one opened. */
    method OpenPair(row: Row)
      requires Valid() && PrefixOk(row.reg) && row.isOld && (!open || !prevOld)
      modifies this, out`pairs, out`agree, out`disagree, out`unmodelled, out`nontrivial, out`tally, out`first
      ensures Valid() && groups == AddRow(old(groups), row) && pend == old(pend)
    {
      FillingStep(groups, open, prevOld, insn, exact, olds, curs, row);
      CloseOpenPair();
      olds, curs, open, insn, exact, prevOld := Append([], row.reg), [], true, row.insn, row.exact, true;
      assert (groups + [Group(row.insn, row.exact, [row.reg], [])])[..|groups|] == groups;
      groups := AddRow(groups, row);
    }

    /** Any other row joins its side of the pair being filled. */
    method JoinPair(row: Row)
      requires Valid() && PrefixOk(row.reg) && !(row.isOld && (!open || !prevOld))
      modifies this
      ensures Valid() && groups == AddRow(old(groups), row) && pend == old(pend)
    {
      FillingStep(groups, open, prevOld, insn, exact, olds, curs, row);
      if row.isOld {
        olds := Append(olds, row.reg);
      } else {
        curs := Append(curs, row.reg);
      }
      prevOld := row.isOld;
      groups := AddRow(groups, row);
    }

    method TakeRow(row: Row)
      requires Valid() && PrefixOk(row.reg)
      modifies this, out`pairs, out`agree, out`disagree, out`unmodelled, out`nontrivial, out`tally, out`first
      ensures Valid() && groups == AddRow(old(groups), row) && pend == old(pend)
    {
      if row.isOld && (!open || !prevOld) {
        OpenPair(row);
      } else {
        JoinPair(row);
      }
    }

    /** A line that starts like a row is seen, and perhaps refused. */
    method CountLine(refused: bool)
      requires Valid()
      modifies out`rows, out`unsupported
      ensures Valid() && out.rows == old(out.rows) + 1 &&
              out.unsupported == old(out.unsupported) + if refused then 1 else 0
    {
      out.rows := out.rows + 1;
      if refused {
        out.unsupported := out.unsupported + 1;
      }
    }

    method SetPending(p: Option<Pfx>)
      requires Valid() && (p.Some? ==> '\0' !in p.value.text)
      modifies `pend
      ensures Valid() && pend == p
    {
      pend := p;
    }

    method TakeLine(line: Line)
      requires Valid() && LineOk(line)
      modifies this, out
      ensures Valid() && (groups, pend) == ReadLine(old(groups), old(pend), line)
      ensures out.rows == old(out.rows) + if line.RowLine? || line.BadRow? then 1 else 0
      ensures out.unsupported == old(out.unsupported) + if line.BadRow? then 1 else 0
    {
      match line {
        case PfxLine(p) => SetPending(Some(p));
        case OtherLine =>
        case BadRow => CountLine(true);
        case RowLine(r) =>
          CountLine(false);
          var row := Attach(r, pend);
          SetPending(None);
          TakeRow(row);
      }
    }
  }

  /** `bpfsubs_compare_log`. */
  method CompareLog(lines: seq<Line>, out: SubsCmp)
    requires forall l :: l in lines ==> LineOk(l)
    modifies out
    ensures Reflects(out, CGroups(lines))
    ensures out.rows == RowLines(lines) + out.unsupported && out.unsupported == BadLines(lines)
  {
    out.pairs, out.agree, out.disagree, out.unmodelled, out.nontrivial := 0, 0, 0, 0, 0;
    out.unsupported, out.rows, out.tally, out.first := 0, 0, Nothing, None;
    var scan := new Scan(out);
    assert lines[0..] == lines;
    for i := 0 to |lines|
      invariant scan.Valid() && scan.out == out && fresh(scan)
      invariant out.rows == RowLines(lines[..i]) + out.unsupported && out.unsupported == BadLines(lines[..i])
      invariant CGroups(lines) == AddRows(scan.groups, CRows(lines[i..], scan.pend))
    {
      CountsStep(lines, i);
      ReadingOn(lines, i, scan.groups, scan.pend);
      scan.TakeLine(lines[i]);
    }
    assert lines[..|lines|] == lines;
    scan.CloseOpenPair();
  }
}
