/** Grouping a row stream into pairs: what `parse_lines` builds from a whole capture and
    `bpfsubs_compare_log` finds in one pass over a log. */
module Scanner {
  import opened Isa
  import opened Subsume

  /** A parsed row, its register still without the prefix that may precede it. */
  datatype Row = Row(insn: nat, exact: nat, isOld: bool, reg: Reg)

  /** One line of the log.  BadRow starts like a row and cannot be read as one. */
  datatype Line = PfxLine(pfx: Pfx) | RowLine(row: Row) | BadRow | OtherLine

  datatype Group = Group(insn: nat, exact: nat, olds: seq<Reg>, curs: seq<Reg>)

  function Attach(row: Row, pend: Option<Pfx>): Row {
    row.(reg := row.reg.(pfx := pend))
  }

  /** A pair is a run of old rows and the run of current rows after it; current rows ahead of the
      first old one belong to no pair. */
  function AddRow(groups: seq<Group>, row: Row): seq<Group> {
    if row.isOld && (groups == [] || groups[|groups| - 1].curs != []) then
      groups + [Group(row.insn, row.exact, [row.reg], [])]
    else if groups == [] then []
    else
      var last := groups[|groups| - 1];
      groups[|groups| - 1 := if row.isOld then last.(olds := last.olds + [row.reg])
                            else last.(curs := last.curs + [row.reg])]
  }

  function AddRows(groups: seq<Group>, rows: seq<Row>): seq<Group>
    decreases |rows|
  {
    if rows == [] then groups else AddRows(AddRow(groups, rows[0]), rows[1..])
  }

  /** The C scanner hands a pending prefix to the next row, whatever that row is. */
  function CRows(lines: seq<Line>, pend: Option<Pfx>): seq<Row>
    decreases |lines|
  {
    if lines == [] then []
    else
      match lines[0]
      case PfxLine(p) => CRows(lines[1..], Some(p))
      case RowLine(r) => [Attach(r, pend)] + CRows(lines[1..], None)
      case _ => CRows(lines[1..], pend)
  }

  /** The Python one skips current rows ahead of the first pair before looking at the prefix. */
  function PyRows(lines: seq<Line>, pend: Option<Pfx>, started: bool): seq<Row>
    decreases |lines|
  {
    if lines == [] then []
    else
      match lines[0]
      case PfxLine(p) => PyRows(lines[1..], Some(p), started)
      case RowLine(r) =>
        if !started && !r.isOld then PyRows(lines[1..], pend, false)
        else [Attach(r, pend)] + PyRows(lines[1..], None, true)
      case _ => PyRows(lines[1..], pend, started)
  }

  function CGroups(lines: seq<Line>): seq<Group> { AddRows([], CRows(lines, None)) }
  function PyGroups(lines: seq<Line>): seq<Group> { AddRows([], PyRows(lines, None, false)) }

  /** Ahead of the first old row, a current row has used up a prefix and no new one has come. */
  predicate StalePrefix(lines: seq<Line>, pending: bool, lost: bool)
    decreases |lines|
  {
    if lines == [] then false
    else
      match lines[0]
      case PfxLine(_) => StalePrefix(lines[1..], true, false)
      case RowLine(r) =>
        if r.isOld then lost else StalePrefix(lines[1..], false, lost || pending)
      case _ => StalePrefix(lines[1..], pending, lost)
  }

  /** From the first pair on the two scanners read the same rows. */
  lemma {:induction false} SameRowsOnceStarted(lines: seq<Line>, pend: Option<Pfx>)
    ensures CRows(lines, pend) == PyRows(lines, pend, true)
    decreases |lines|
  {
    if lines != [] {
      match lines[0]
      case PfxLine(p) => SameRowsOnceStarted(lines[1..], Some(p));
      case RowLine(r) => SameRowsOnceStarted(lines[1..], None);
      case _ => SameRowsOnceStarted(lines[1..], pend);
    }
  }

  lemma {:induction false} FirstRowStays(groups: seq<Group>, rows: seq<Row>)
    requires groups != [] && groups[0].olds != []
    ensures var g := AddRows(groups, rows); g != [] && g[0].olds != [] && g[0].olds[0] == groups[0].olds[0]
    decreases |rows|
  {
    if rows != [] {
      FirstRowStays(AddRow(groups, rows[0]), rows[1..]);
    }
  }

  /** The two groupings, ahead of the first pair and with the prefixes each scanner still holds. */
  lemma {:induction false} GroupingsFrom(lines: seq<Line>, cPend: Option<Pfx>, pyPend: Option<Pfx>)
    requires cPend == pyPend || (cPend == None && pyPend.Some?)
    ensures AddRows([], CRows(lines, cPend)) == AddRows([], PyRows(lines, pyPend, false)) <==>
            !StalePrefix(lines, cPend.Some?, cPend != pyPend)
    decreases |lines|
  {
    if lines != [] {
      match lines[0]
      case PfxLine(p) => GroupingsFrom(lines[1..], Some(p), Some(p));
      case RowLine(r) =>
        if r.isOld {
          SameRowsOnceStarted(lines[1..], None);
          var c, py := Attach(r, cPend), Attach(r, pyPend);
          var rest := CRows(lines[1..], None);
          assert ([c] + rest)[1..] == rest && ([py] + rest)[1..] == rest;
          FirstRowStays([Group(r.insn, r.exact, [c.reg], [])], rest);
          FirstRowStays([Group(r.insn, r.exact, [py.reg], [])], rest);
          assert AddRow([], c) == [Group(r.insn, r.exact, [c.reg], [])];
          assert AddRow([], py) == [Group(r.insn, r.exact, [py.reg], [])];
        } else {
          var rest := CRows(lines[1..], None);
          assert ([Attach(r, cPend)] + rest)[1..] == rest;
          GroupingsFrom(lines[1..], None, pyPend);
        }
      case _ => GroupingsFrom(lines[1..], cPend, pyPend);
    }
  }

  /** The one-pass scanner finds the pairs the capture parser builds, except exactly where a
      current row ahead of the first pair swallowed a prefix that Python keeps for an old one. */
  lemma ScannersAgreeIff(lines: seq<Line>)
    ensures CGroups(lines) == PyGroups(lines) <==> !StalePrefix(lines, false, false)
  {
    GroupingsFrom(lines, None, None);
  }
}
