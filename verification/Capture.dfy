/** `parse_lines` and `run`: the same stream read offline, and the counters both tools print. */
module Capture {
  import opened Isa
  import opened IdMap
  import opened Subsume
  import opened Refinement
  import opened Reference
  import opened Scanner
  import opened InVmScan

  datatype PyPair = PyPair(insn: nat, exact: nat, olds: map<Key, Reg>, curs: map<Key, Reg>)

  function DictPair(g: Group): PyPair {
    PyPair(g.insn, g.exact, DictOf(g.olds), DictOf(g.curs))
  }

  function DictPairs(groups: seq<Group>): seq<PyPair> {
    seq(|groups|, i requires 0 <= i < |groups| => DictPair(groups[i]))
  }

  /** What reading one line does, the Python way. */
  function PyReadLine(groups: seq<Group>, pend: Option<Pfx>, line: Line): (seq<Group>, Option<Pfx>) {
    match line
    case PfxLine(p) => (groups, Some(p))
    case RowLine(r) => if groups == [] && !r.isOld then (groups, pend) else (AddRow(groups, Attach(r, pend)), None)
    case _ => (groups, pend)
  }

  lemma PyReadingOn(lines: seq<Line>, i: nat, groups: seq<Group>, pend: Option<Pfx>)
    requires i < |lines|
    ensures var (g, p) := PyReadLine(groups, pend, lines[i]);
            AddRows(groups, PyRows(lines[i..], pend, groups != [])) == AddRows(g, PyRows(lines[i + 1..], p, g != []))
  {
  }

  function Put(p: PyPair, row: Row): PyPair {
    if row.isOld then p.(olds := p.olds[KeyOf(row.reg) := row.reg]) else p.(curs := p.curs[KeyOf(row.reg) := row.reg])
  }

  lemma PutExtends(g: Group, row: Row)
    ensures DictPair(if row.isOld then g.(olds := g.olds + [row.reg]) else g.(curs := g.curs + [row.reg])) ==
            Put(DictPair(g), row)
  {
  }

  lemma PutOpens(row: Row)
    requires row.isOld
    ensures DictPair(Group(row.insn, row.exact, [row.reg], [])) == Put(PyPair(row.insn, row.exact, map[], map[]), row)
  {
  }

  lemma DictPairsAppend(groups: seq<Group>, g: Group)
    ensures DictPairs(groups + [g]) == DictPairs(groups) + [DictPair(g)]
  {
  }

  lemma DictPairsUpdate(groups: seq<Group>, i: nat, g: Group)
    requires i < |groups|
    ensures DictPairs(groups[i := g]) == DictPairs(groups)[i := DictPair(g)]
  {
  }

  /** A row that opens a pair. */
  lemma OpeningPairs(groups: seq<Group>, row: Row)
    requires row.isOld && (groups == [] || groups[|groups| - 1].curs != [])
    ensures DictPairs(AddRow(groups, row)) == DictPairs(groups) + [Put(PyPair(row.insn, row.exact, map[], map[]), row)]
  {
    PutOpens(row);
    DictPairsAppend(groups, Group(row.insn, row.exact, [row.reg], []));
  }

  /** A row that joins the last one. */
  lemma JoiningPairs(groups: seq<Group>, row: Row)
    requires groups != [] && !(row.isOld && groups[|groups| - 1].curs != [])
    ensures var pairs := DictPairs(groups);
            DictPairs(AddRow(groups, row)) == pairs[|pairs| - 1 := Put(pairs[|pairs| - 1], row)]
  {
    var last := groups[|groups| - 1];
    PutExtends(last, row);
    DictPairsUpdate(groups, |groups| - 1,
                    if row.isOld then last.(olds := last.olds + [row.reg]) else last.(curs := last.curs + [row.reg]));
  }

  /** One row into the list of pairs; done says the last pair has a current row already. */
  method PutRow(pairs: seq<PyPair>, done: bool, row: Row, ghost groups: seq<Group>) returns (r: seq<PyPair>)
    requires pairs == DictPairs(groups) && (groups == [] ==> row.isOld)
    requires groups != [] ==> (done <==> groups[|groups| - 1].curs != [])
    ensures r == DictPairs(AddRow(groups, row))
  {
    if row.isOld && (pairs == [] || done) {
      OpeningPairs(groups, row);
      r := pairs + [Put(PyPair(row.insn, row.exact, map[], map[]), row)];
    } else {
      JoiningPairs(groups, row);
      r := pairs[|pairs| - 1 := Put(pairs[|pairs| - 1], row)];
    }
  }

  /** `parse_lines`. */
  method ParseLines(lines: seq<Line>) returns (pairs: seq<PyPair>)
    ensures pairs == DictPairs(PyGroups(lines))
  {
    pairs := [];
    var done, pend: Option<Pfx> := false, None;
    ghost var groups: seq<Group> := [];
    assert lines[0..] == lines;
    for i := 0 to |lines|
      invariant pairs == DictPairs(groups)
      invariant groups != [] ==> (done <==> groups[|groups| - 1].curs != [])
      invariant PyGroups(lines) == AddRows(groups, PyRows(lines[i..], pend, groups != []))
    {
      PyReadingOn(lines, i, groups, pend);
      ghost var (g, p) := PyReadLine(groups, pend, lines[i]);
      match lines[i] {
        case PfxLine(p) => pend := Some(p);
        case RowLine(r) =>
          if pairs != [] || r.isOld {
            pairs := PutRow(pairs, done, Attach(r, pend), groups);
            pend := None;
            done := !r.isOld;
          }
        case _ =>
      }
      groups := g;
    }
  }

  // ---- the counters -------------------------------------------------------------------------------

  /** A pair judged by the reference, its old side listed as rows. */
  function JudgePy(rows: seq<Reg>, p: PyPair): Judged {
    var w := PyEval(rows, p.curs, p.exact, Nothing);
    Judged(w.verdict, w.tally)
  }

  ghost predicate JudgedAs(p: PyPair, j: Judged) {
    exists rows :: Enumerates(rows, p.olds) && j == JudgePy(rows, p)
  }

  ghost predicate JudgesOf(js: seq<Judged>, pairs: seq<PyPair>) {
    |js| == |pairs| && forall i :: 0 <= i < |js| ==> JudgedAs(pairs[i], js[i])
  }

  ghost predicate StatsReflect(st: Stats, js: seq<Judged>)
    reads st
  {
    && Totals(st.agreeTrivial + st.agreeNontrivial, st.breaks, st.unmodelled, st.agreeNontrivial, st.tally) == Tot(js)
    && st.Pairs() == |js|
  }

  lemma PyEvalIgnoresTally(rows: seq<Reg>, cur: map<Key, Reg>, exact: nat, tally: Tally)
    ensures var w, z := PyEval(rows, cur, exact, tally), PyEval(rows, cur, exact, Nothing);
            w.verdict == z.verdict && w.tally == AddTally(tally, z.tally)
  {
    if rows != [] && cur != map[] {
      WalkIgnoresTally(Python, PyJoin(rows, cur), exact, FreshIds, tally);
    }
  }

  method RunPair(p: PyPair, st: Stats, ghost js: seq<Judged>) returns (v: Verdict, ghost j: Judged)
    requires forall k :: k in p.olds ==> KeyOf(p.olds[k]) == k
    requires StatsReflect(st, js)
    modifies st
    ensures JudgedAs(p, j) && v == j.verdict && StatsReflect(st, js + [j])
  {
    ghost var before := st.tally;
    ghost var rows;
    v, rows := Evaluate(p.olds, p.curs, p.exact, st);
    PyEvalIgnoresTally(rows, p.curs, p.exact, before);
    j := JudgePy(rows, p);
    assert (js + [j])[..|js|] == js;
  }

  /** The pairs that broke, in order. */
  function Broken(pairs: seq<PyPair>, js: seq<Judged>): seq<PyPair>
    requires |pairs| == |js|
  {
    if pairs == [] then []
    else
      var n := |pairs| - 1;
      Broken(pairs[..n], js[..n]) + if js[n].verdict.Break? then [pairs[n]] else []
  }

  lemma JudgesStep(pairs: seq<PyPair>, i: nat, js: seq<Judged>, j: Judged)
    requires i < |pairs| && JudgesOf(js, pairs[..i]) && JudgedAs(pairs[i], j)
    ensures JudgesOf(js + [j], pairs[..i + 1])
  {
  }

  lemma BrokenStep(pairs: seq<PyPair>, i: nat, js: seq<Judged>, j: Judged)
    requires i < |pairs| && |js| == i
    ensures Broken(pairs[..i + 1], js + [j]) == Broken(pairs[..i], js) + if j.verdict.Break? then [pairs[i]] else []
  {
    assert pairs[..i + 1][..i] == pairs[..i] && (js + [j])[..i] == js;
  }

  /** There are as many candidates as disagreements. */
  lemma {:induction false} BrokenAreDisagreements(pairs: seq<PyPair>, js: seq<Judged>)
    requires |pairs| == |js|
    ensures |Broken(pairs, js)| == Tot(js).disagree
  {
    if pairs != [] {
      BrokenAreDisagreements(pairs[..|pairs| - 1], js[..|pairs| - 1]);
    }
  }

  /** `run`. */
  method RunPairs(pairs: seq<PyPair>, st: Stats) returns (candidates: seq<PyPair>, ghost js: seq<Judged>)
    requires forall p :: p in pairs ==> forall k :: k in p.olds ==> KeyOf(p.olds[k]) == k
    requires StatsReflect(st, [])
    modifies st
    ensures JudgesOf(js, pairs) && StatsReflect(st, js) && candidates == Broken(pairs, js)
  {
    candidates, js := [], [];
    for i := 0 to |pairs|
      invariant JudgesOf(js, pairs[..i]) && StatsReflect(st, js)
      invariant candidates == Broken(pairs[..i], js)
    {
      var v, j := RunPair(pairs[i], st, js);
      JudgesStep(pairs, i, js, j);
      BrokenStep(pairs, i, js, j);
      if v.Break? {
        candidates := candidates + [pairs[i]];
      }
      js := js + [j];
    }
    assert pairs[..|pairs|] == pairs;
  }

  lemma {:induction false} DictKeysMatch(rows: seq<Reg>)
    ensures forall k :: k in DictOf(rows) ==> KeyOf(DictOf(rows)[k]) == k
  {
    if rows != [] {
      DictKeysMatch(rows[..|rows| - 1]);
    }
  }

  /** A whole capture through the Python model. */
  method Check(lines: seq<Line>, st: Stats) returns (candidates: seq<PyPair>, ghost js: seq<Judged>)
    requires StatsReflect(st, [])
    modifies st
    ensures JudgesOf(js, DictPairs(PyGroups(lines))) && StatsReflect(st, js)
    ensures candidates == Broken(DictPairs(PyGroups(lines)), js)
  {
    var pairs := ParseLines(lines);
    forall p | p in pairs ensures forall k :: k in p.olds ==> KeyOf(p.olds[k]) == k {
      var i :| 0 <= i < |pairs| && pairs[i] == p;
      DictKeysMatch(PyGroups(lines)[i].olds);
    }
    candidates, js := RunPairs(pairs, st);
  }

  lemma JudgedAlike(g: Group, j: Judged)
    requires SideOk(g.olds) && SideOk(g.curs) && JudgedAs(DictPair(g), j)
    ensures j == JudgeC(g)
  {
    var rows :| Enumerates(rows, DictOf(g.olds)) && j == JudgePy(rows, DictPair(g));
    InVmRefinesReference(g.olds, g.curs, rows, g.exact, Nothing);
  }

  /** The in-VM tool and the offline one judge every pair of one log alike, so their totals match. */
  lemma ToolsAgree(lines: seq<Line>, js: seq<Judged>)
    requires !StalePrefix(lines, false, false)
    requires forall g :: g in CGroups(lines) ==> SideOk(g.olds) && SideOk(g.curs)
    requires JudgesOf(js, DictPairs(PyGroups(lines)))
    ensures js == JudgeAll(CGroups(lines))
  {
    ScannersAgreeIff(lines);
    var groups := CGroups(lines);
    forall i | 0 <= i < |js| ensures js[i] == JudgeC(groups[i]) {
      assert groups[i] in groups;
      JudgedAlike(groups[i], js[i]);
    }
  }
}
