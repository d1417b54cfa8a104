/** What the grouping of rows is, from the rows alone: which prefix a row carries, which rows open a pair, what
    the pairs hold, and what the totals over them count. */
module Grouping {
  import opened Isa
  import opened Subsume
  import opened Scanner
  import opened Refinement
  import opened InVmScan

  // ---- prefixes -----------------------------------------------------------------------------------------

  /** The prefix line after the last row line, or none. */
  function LastPrefix(lines: seq<Line>): Option<Pfx> {
    if lines == [] then None
    else
      match lines[|lines| - 1]
      case PfxLine(p) => Some(p)
      case RowLine(_) => None
      case _ => LastPrefix(lines[..|lines| - 1])
  }

  /** The rows of a log, each with the prefix that stands between it and the row before. */
  function RowsOf(lines: seq<Line>): seq<Row> {
    if lines == [] then []
    else
      var front, last := lines[..|lines| - 1], lines[|lines| - 1];
      RowsOf(front) +
      if last.RowLine? then [Row(last.row.insn, last.row.exact, last.row.isOld,
                                 last.row.reg.(pfx := LastPrefix(front)))]
      else []
  }

  lemma {:induction false} ReadingEnds(lines: seq<Line>, pend: Option<Pfx>, l: Line)
    ensures CRows(lines + [l], pend) ==
            CRows(lines, pend) + if l.RowLine? then [Attach(l.row, PendingAfter(lines, pend))] else []
    decreases |lines|
  {
    if lines == [] {
      assert [l][1..] == [];
      assert CRows([l][1..], None) == [] && CRows([], pend) == [];
    } else {
      assert (lines + [l])[1..] == lines[1..] + [l];
      match lines[0]
      case PfxLine(p) => ReadingEnds(lines[1..], Some(p), l);
      case RowLine(r) => ReadingEnds(lines[1..], None, l);
      case _ => ReadingEnds(lines[1..], pend, l);
    }
  }

  /** The prefix still pending once the lines have been read. */
  function PendingAfter(lines: seq<Line>, pend: Option<Pfx>): Option<Pfx>
    decreases |lines|
  {
    if lines == [] then pend
    else
      match lines[0]
      case PfxLine(p) => PendingAfter(lines[1..], Some(p))
      case RowLine(_) => PendingAfter(lines[1..], None)
      case _ => PendingAfter(lines[1..], pend)
  }

  lemma {:induction false} PendingEnds(lines: seq<Line>, pend: Option<Pfx>, l: Line)
    ensures PendingAfter(lines + [l], pend) ==
            match l case PfxLine(p) => Some(p) case RowLine(_) => None case _ => PendingAfter(lines, pend)
    decreases |lines|
  {
    if lines == [] {
      assert [l][1..] == [];
    } else {
      assert (lines + [l])[1..] == lines[1..] + [l];
      match lines[0]
      case PfxLine(p) => PendingEnds(lines[1..], Some(p), l);
      case RowLine(_) => PendingEnds(lines[1..], None, l);
      case _ => PendingEnds(lines[1..], pend, l);
    }
  }

  lemma {:induction false} PendingIsLast(lines: seq<Line>)
    ensures PendingAfter(lines, None) == LastPrefix(lines)
  {
    if lines != [] {
      var front, last := lines[..|lines| - 1], lines[|lines| - 1];
      assert lines == front + [last];
      PendingIsLast(front);
      PendingEnds(front, None, last);
    }
  }

  /** The scanner gives a row the last prefix line since the row before it, and no other. */
  lemma {:induction false} PrefixesAttach(lines: seq<Line>)
    ensures CRows(lines, None) == RowsOf(lines)
  {
    if lines != [] {
      var front, last := lines[..|lines| - 1], lines[|lines| - 1];
      assert lines == front + [last];
      PrefixesAttach(front);
      PendingIsLast(front);
      ReadingEnds(front, None, last);
    }
  }

  // ---- pairs ----------------------------------------------------------------------------------------------

  /** One side's registers, marked. */
  function Marked(isOld: bool, regs: seq<Reg>): seq<(bool, Reg)> {
    seq(|regs|, i requires 0 <= i < |regs| => (isOld, regs[i]))
  }

  /** All registers of the pairs, in order, the old side of each ahead of the current. */
  function Spread(gs: seq<Group>): seq<(bool, Reg)> {
    if gs == [] then []
    else Spread(gs[..|gs| - 1]) + (Marked(true, gs[|gs| - 1].olds) + Marked(false, gs[|gs| - 1].curs))
  }

  /** The rows from the first old one on. */
  function Kept(rows: seq<Row>): seq<(bool, Reg)> {
    if rows == [] then []
    else
      var front, last := Kept(rows[..|rows| - 1]), rows[|rows| - 1];
      if front == [] && !last.isOld then [] else front + [(last.isOld, last.reg)]
  }

  /** The instruction and exactness of the rows that start a run of old ones. */
  function Openers(rows: seq<Row>): seq<(nat, nat)> {
    if rows == [] then []
    else
      var front, last := rows[..|rows| - 1], rows[|rows| - 1];
      Openers(front) + if last.isOld && (front == [] || !front[|front| - 1].isOld) then [(last.insn, last.exact)]
          else []
  }

  function Heads(gs: seq<Group>): seq<(nat, nat)> {
    seq(|gs|, i requires 0 <= i < |gs| => (gs[i].insn, gs[i].exact))
  }

  /** No side is empty, but for the current one of the last pair. */
  predicate Alternates(gs: seq<Group>) {
    forall i :: 0 <= i < |gs| ==> gs[i].olds != [] && (i < |gs| - 1 ==> gs[i].curs != [])
  }

  lemma {:induction false} AddingEnds(groups: seq<Group>, rows: seq<Row>, r: Row)
    ensures AddRows(groups, rows + [r]) == AddRow(AddRows(groups, rows), r)
    decreases |rows|
  {
    if rows == [] {
      assert [r][1..] == [] && rows + [r] == [r];
    } else {
      assert (rows + [r])[1..] == rows[1..] + [r];
      AddingEnds(AddRow(groups, rows[0]), rows[1..], r);
    }
  }

  lemma MarkedStep(isOld: bool, regs: seq<Reg>, r: Reg)
    ensures Marked(isOld, regs + [r]) == Marked(isOld, regs) + [(isOld, r)]
  {
  }

  lemma SpreadOpens(gs: seq<Group>, g: Group)
    ensures Spread(gs + [g]) == Spread(gs) + (Marked(true, g.olds) + Marked(false, g.curs))
  {
    assert (gs + [g])[..|gs|] == gs;
  }

  lemma SpreadJoins(gs: seq<Group>, g: Group)
    requires gs != []
    ensures Spread(gs[|gs| - 1 := g]) == Spread(gs[..|gs| - 1]) + (Marked(true, g.olds) + Marked(false, g.curs))
  {
    assert gs[|gs| - 1 := g] == gs[..|gs| - 1] + [g];
    SpreadOpens(gs[..|gs| - 1], g);
  }

  /** One more row. */
  lemma GroupsGrow(gs: seq<Group>, r: Row)
    requires Alternates(gs)
    ensures var now := AddRow(gs, r);
            && Alternates(now)
            && Spread(now) == (if gs == [] && !r.isOld then [] else Spread(gs) + [(r.isOld, r.reg)])
            && Heads(now) ==
               Heads(gs) + (if r.isOld && (gs == [] || gs[|gs| - 1].curs != []) then [(r.insn, r.exact)] else [])
            && (now != [] ==> (now[|now| - 1].curs == [] <==> r.isOld))
  {
    if r.isOld && (gs == [] || gs[|gs| - 1].curs != []) {
      SpreadOpens(gs, Group(r.insn, r.exact, [r.reg], []));
      assert Marked(true, [r.reg]) + Marked(false, []) == [(true, r.reg)];
    } else if gs != [] {
      var last := gs[|gs| - 1];
      assert gs == gs[..|gs| - 1] + [last];
      SpreadOpens(gs[..|gs| - 1], last);
      if r.isOld {
        MarkedStep(true, last.olds, r.reg);
        SpreadJoins(gs, last.(olds := last.olds + [r.reg]));
        assert Marked(false, []) == [];
      } else {
        MarkedStep(false, last.curs, r.reg);
        SpreadJoins(gs, last.(curs := last.curs + [r.reg]));
      }
      assert Heads(AddRow(gs, r)) == Heads(gs);
    }
  }

  /** The pairs are the rows from the first old one on, cut wherever an old row follows a current one, each under
      the instruction and exactness of the row that opens it. */
  lemma {:induction false} GroupsAre(rows: seq<Row>)
    ensures var gs := AddRows([], rows);
            Spread(gs) == Kept(rows) && Heads(gs) == Openers(rows) && Alternates(gs)
            && (gs == [] <==> Kept(rows) == [])
            && (rows != [] && gs != [] ==> (gs[|gs| - 1].curs == [] <==> rows[|rows| - 1].isOld))
  {
    if rows != [] {
      var front, last := rows[..|rows| - 1], rows[|rows| - 1];
      assert rows == front + [last];
      GroupsAre(front);
      AddingEnds([], front, last);
      GroupsGrow(AddRows([], front), last);
      if AddRows([], front) == [] && front != [] {
        NothingKept(front);
      }
    }
  }

  lemma {:induction false} NothingKept(rows: seq<Row>)
    requires Kept(rows) == []
    ensures forall r :: r in rows ==> !r.isOld
  {
    if rows != [] {
      NothingKept(rows[..|rows| - 1]);
      assert rows == rows[..|rows| - 1] + [rows[|rows| - 1]];
    }
  }

  // ---- totals ----------------------------------------------------------------------------------------------

  /** The positions at which a condition holds. */
  function Where<T>(xs: seq<T>, p: T -> bool): set<int> { set i | 0 <= i < |xs| && p(xs[i]) }

  lemma OneMore<T>(front: seq<T>, x: T, p: T -> bool)
    ensures |Where(front + [x], p)| == |Where(front, p)| + if p(x) then 1 else 0
  {
    assert Where(front + [x], p) == Where(front, p) + if p(x) then {|front|} else {};
  }

  predicate Agrees(j: Judged) { j.verdict == Agree }

  predicate Breaks(j: Judged) { j.verdict.Break? }

  predicate Undecided(j: Judged) { j.verdict == Unmodelled }

  /** An agreement in which a scalar's ranges were compared. */
  predicate Telling(j: Judged) { j.verdict == Agree && j.tally.scalarCmp > 0 }

  /** Each counter is the number of pairs it is named for. */
  lemma {:induction false} TotalsCount(js: seq<Judged>)
    ensures Tot(js).agree == |Where(js, Agrees)| && Tot(js).disagree == |Where(js, Breaks)|
    ensures Tot(js).unmodelled == |Where(js, Undecided)| && Tot(js).nontrivial == |Where(js, Telling)|
  {
    if js != [] {
      var front, last := js[..|js| - 1], js[|js| - 1];
      assert js == front + [last];
      TotalsCount(front);
      OneMore(front, last, Agrees);
      OneMore(front, last, Breaks);
      OneMore(front, last, Undecided);
      OneMore(front, last, Telling);
    }
  }

  predicate Broke(g: Group) { JudgeC(g).verdict.Break? }

  /** The i-th pair is the first to break. */
  predicate FirstBroken(gs: seq<Group>, i: nat) {
    i < |gs| && Broke(gs[i]) && forall j :: 0 <= j < i ==> !Broke(gs[j])
  }

  function Place(g: Group): (nat, nat, Arm)
    requires Broke(g)
  {
    (g.insn, g.exact, JudgeC(g).verdict.arm)
  }

  /** The first of these that is there. */
  function FirstSome<T>(marks: seq<Option<T>>): Option<T> {
    if marks == [] then None
    else
      var front := FirstSome(marks[..|marks| - 1]);
      if front.Some? then front else marks[|marks| - 1]
  }

  lemma {:induction false} FirstSomeIs<T>(marks: seq<Option<T>>, i: nat)
    requires i < |marks| && marks[i].Some? && forall j :: 0 <= j < i ==> marks[j] == None
    ensures FirstSome(marks) == marks[i]
  {
    var front := marks[..|marks| - 1];
    if i < |front| {
      FirstSomeIs(front, i);
    } else {
      NoneIsFirst(front);
    }
  }

  lemma {:induction false} NoneIsFirst<T>(marks: seq<Option<T>>)
    requires forall j :: 0 <= j < |marks| ==> marks[j] == None
    ensures FirstSome(marks) == None
  {
    if marks != [] {
      NoneIsFirst(marks[..|marks| - 1]);
    }
  }

  function Mark(g: Group): Option<(nat, nat, Arm)> { if Broke(g) then Some(Place(g)) else None }

  function Marks(gs: seq<Group>): seq<Option<(nat, nat, Arm)>> {
    seq(|gs|, i requires 0 <= i < |gs| => Mark(gs[i]))
  }

  lemma {:induction false} BreaksAreMarks(gs: seq<Group>)
    ensures FirstBreak(gs) == FirstSome(Marks(gs))
  {
    if gs != [] {
      BreaksAreMarks(gs[..|gs| - 1]);
      assert Marks(gs)[..|gs| - 1] == Marks(gs[..|gs| - 1]);
      assert Marks(gs)[|gs| - 1] == Mark(gs[|gs| - 1]);
    }
  }

  /** The first disagreement is the place and arm of the first pair that breaks, and there is none when none does. */
  lemma FirstIsFirst(gs: seq<Group>)
    ensures (forall i :: 0 <= i < |gs| ==> !Broke(gs[i])) ==> FirstBreak(gs) == None
    ensures forall i: nat :: FirstBroken(gs, i) ==> FirstBreak(gs) == Some(Place(gs[i]))
  {
    BreaksAreMarks(gs);
    if forall i :: 0 <= i < |gs| ==> !Broke(gs[i]) {
      NoneIsFirst(Marks(gs));
    }
    forall i: nat | FirstBroken(gs, i) ensures FirstBreak(gs) == Some(Place(gs[i])) {
      FirstSomeIs(Marks(gs), i);
    }
  }

  /** A pair is judged on the first 24 rows of each side. */
  lemma JudgedOnFirst(g: Group)
    ensures JudgeC(g) == JudgeRows(if |g.olds| > 24 then g.olds[..24] else g.olds,
                                   if |g.curs| > 24 then g.curs[..24] else g.curs, g.exact)
  {
  }

  predicate IsRow(l: Line) { l.RowLine? }

  predicate IsBad(l: Line) { l.BadRow? }

  /** Line counters: every row line and every unreadable one. */
  lemma {:induction false} LinesCount(lines: seq<Line>)
    ensures RowLines(lines) == |Where(lines, IsRow)| && BadLines(lines) == |Where(lines, IsBad)|
  {
    if lines != [] {
      var front, last := lines[..|lines| - 1], lines[|lines| - 1];
      assert lines == front + [last];
      LinesCount(front);
      OneMore(front, last, IsRow);
      OneMore(front, last, IsBad);
    }
  }
}
