/** One row of the kernel's liveness table, and the C and Rust readers of it. */
module Table {
  import opened Isa
  import opened Dataflow
  import opened Chars

  /** `char::is_whitespace`: the Unicode property White_Space. */
  predicate IsSpace(c: char) {
    || c == ' ' || '\t' <= c <= '\r' || c == '\U{85}' || c == '\U{A0}' || c == '\U{1680}'
    || '\U{2000}' <= c <= '\U{200A}' || c == '\U{2028}' || c == '\U{2029}' || c == '\U{202F}'
    || c == '\U{205F}' || c == '\U{3000}'
  }

  function Dec(n: nat): string {
    var last := '0' + (n % 10) as char;
    if n < 10 then [last] else Dec(n / 10) + [last]
  }

  function DecValue(s: string): nat
    requires AllDigits(s)
  {
    if s == "" then 0 else 10 * DecValue(s[..|s| - 1]) + (s[|s| - 1] as int - '0' as int)
  }

  // ---- columns --------------------------------------------------------------------------------------

  predicate ColumnOk(c: char) { c == '.' || IsDigit(c) }

  function ColumnAt(s: string, k: nat, j: int): char {
    if 0 <= k + j then CharAt(s, k + j) else '\0'
  }

  /** Ten columns from k on: position is the register, and anything but a dot means live. */
  function Columns(s: string, k: nat): Option<Mask> {
    if forall j :: j in TRACKED ==> ColumnOk(ColumnAt(s, k, j)) then
      Some(set j | j in TRACKED && ColumnAt(s, k, j) != '.')
    else None
  }

  method ReadColumns(s: string, k: nat) returns (r: Option<Mask>)
    ensures r == Columns(s, k)
  {
    var mask: Mask := {};
    for j := 0 to 10
      invariant forall i :: i in TRACKED && i < j ==> ColumnOk(ColumnAt(s, k, i))
      invariant mask == set i | i in TRACKED && i < j && ColumnAt(s, k, i) != '.'
    {
      assert j in TRACKED;
      if !ColumnOk(ColumnAt(s, k, j)) {
        return None;
      }
      if ColumnAt(s, k, j) != '.' {
        mask := mask + {j};
      }
    }
    assert mask == set j | j in TRACKED && ColumnAt(s, k, j) != '.';
    return Some(mask);
  }

  // ---- the C reader ---------------------------------------------------------------------------------

  /** The first colon at or after k, or the end of the line. */
  function ColonFrom(s: string, k: nat): (c: nat)
    requires k <= |s|
    ensures k <= c <= |s| && (c < |s| ==> s[c] == ':') && forall j :: k <= j < c ==> s[j] != ':'
    decreases |s| - k
  {
    if k == |s| || s[k] == ':' then k else ColonFrom(s, k + 1)
  }

  /** Where the run of digits ending at k starts. */
  function DigitsBack(s: string, k: nat): (q: nat)
    requires k <= |s|
    ensures q <= k && AllDigits(s[q..k]) && (q > 0 ==> !IsDigit(s[q - 1]))
  {
    if k > 0 && IsDigit(s[k - 1]) then
      var q := DigitsBack(s, k - 1);
      assert s[q..k] == s[q..k - 1] + [s[k - 1]];
      q
    else k
  }

  /** `bpflive_parse_row`, on one line: digits directly before the colon, then ` `, ten columns, ` `. */
  function CRow(line: string): Option<(nat, Mask)> {
    var colon := ColonFrom(line, 0);
    if CharAt(line, 0) != ' ' || colon == |line| then None
    else
      var q := DigitsBack(line, colon);
      if q == colon || CharAt(line, colon + 1) != ' ' then None
      else
        match Columns(line, colon + 2)
        case None => None
        case Some(m) => if CharAt(line, colon + 12) != ' ' then None else Some((DecValue(line[q..colon]), m))
  }

  method ReadDigits(s: string) returns (v: nat)
    requires AllDigits(s)
    ensures v == DecValue(s)
  {
    v := 0;
    for d := 0 to |s|
      invariant v == DecValue(s[..d])
    {
      assert s[..d + 1][..d] == s[..d];
      v := v * 10 + (s[d] as int - '0' as int);
    }
    assert s[..|s|] == s;
  }

  method ParseRowC(line: string) returns (r: Option<(nat, Mask)>)
    ensures r == CRow(line)
  {
    if CharAt(line, 0) != ' ' {
      return None;
    }
    var colon := 0;
    while colon < |line| && line[colon] != ':'
      invariant colon <= |line| && ColonFrom(line, 0) == ColonFrom(line, colon)
    {
      colon := colon + 1;
    }
    if colon == |line| {
      return None;
    }
    var q := colon;
    while q > 0 && IsDigit(line[q - 1])
      invariant 0 <= q <= colon && DigitsBack(line, colon) == DigitsBack(line, q)
    {
      q := q - 1;
    }
    if q == colon {
      return None;
    }
    var v := ReadDigits(line[q..colon]);
    if CharAt(line, colon + 1) != ' ' {
      return None;
    }
    var m := ReadColumns(line, colon + 2);
    if m.None? || CharAt(line, colon + 12) != ' ' {
      return None;
    }
    return Some((v, m.value));
  }

  // ---- the Rust reader ------------------------------------------------------------------------------

  /** `split_whitespace().last()`. */
  function LastToken(s: string): string {
    if s == "" then ""
    else if IsSpace(s[|s| - 1]) then LastToken(s[..|s| - 1])
    else Trailing(s)
  }

  /** The run of non-space characters at the end. */
  function Trailing(s: string): string {
    if s == "" || IsSpace(s[|s| - 1]) then "" else Trailing(s[..|s| - 1]) + [s[|s| - 1]]
  }

  /** `parse::<u32>()`. */
  function ParseU32(s: string): Option<nat> {
    var digits := if s != "" && s[0] == '+' then s[1..] else s;
    if digits == "" || !AllDigits(digits) || DecValue(digits) >= TWO32 then None else Some(DecValue(digits))
  }

  /** `parse_liveness_row`: the last token before the colon, then ` ` and ten columns. */
  function RustRow(line: string): Option<(nat, Mask)> {
    var colon := ColonFrom(line, 0);
    if CharAt(line, 0) != ' ' || colon == |line| then None
    else
      match ParseU32(LastToken(line[..colon]))
      case None => None
      case Some(idx) =>
        if CharAt(line, colon + 1) != ' ' then None
        else
          match Columns(line, colon + 2)
          case None => None
          case Some(m) => Some((idx, m))
  }

  method LastTokenOf(s: string) returns (token: string)
    ensures token == LastToken(s)
  {
    var end := |s|;
    assert s[..end] == s;
    while end > 0 && IsSpace(s[end - 1])
      invariant 0 <= end <= |s| && LastToken(s) == LastToken(s[..end])
    {
      assert s[..end][..end - 1] == s[..end - 1];
      end := end - 1;
    }
    if end == 0 {
      return "";
    }
    var start := end;
    assert s[end..end] == "";
    while start > 0 && !IsSpace(s[start - 1])
      invariant 0 <= start <= end && Trailing(s[..end]) == Trailing(s[..start]) + s[start..end]
    {
      assert s[..start][..start - 1] == s[..start - 1];
      assert [s[start - 1]] + s[start..end] == s[start - 1..end];
      start := start - 1;
    }
    token := s[start..end];
  }

  method ParseRowRust(line: string) returns (r: Option<(nat, Mask)>)
    ensures r == RustRow(line)
  {
    var colon := ColonFrom(line, 0);
    if CharAt(line, 0) != ' ' || colon == |line| {
      return None;
    }
    var token := LastTokenOf(line[..colon]);
    var idx := ParseU32(token);
    if idx.None? || CharAt(line, colon + 1) != ' ' {
      return None;
    }
    var m := ReadColumns(line, colon + 2);
    return if m.Some? then Some((idx.value, m.value)) else None;
  }

  // ---- reading back a rendered row ------------------------------------------------------------------

  function Column(m: Mask, j: nat): char
    requires j < 10
  {
    if j in m then '0' + j as char else '.'
  }

  function Rendered(m: Mask): string {
    seq(10, j requires 0 <= j < 10 => Column(m, j))
  }

  /** Lead, index, colon, ten columns, disassembly. */
  function Row(lead: string, idx: nat, m: Mask, disasm: string): string {
    lead + Dec(idx) + ": " + Rendered(m) + " " + disasm
  }

  function Spaces(n: nat): string {
    seq(n, i => ' ')
  }

  /** The padding of `%3d`. */
  function Padding(n: nat): string {
    Spaces(if |Dec(n)| < 3 then 3 - |Dec(n)| else 0)
  }

  /** What stands before the index: the SCC number as `%3d `, or four spaces, and the index's own padding. */
  function Lead(scc: Option<nat>, idx: nat): string {
    (if scc.Some? then Padding(scc.value) + Dec(scc.value) + " " else Spaces(4)) + Padding(idx)
  }

  /** One row as the kernel prints it. */
  datatype PrintedRow = PrintedRow(scc: Option<nat>, idx: nat, mask: Mask, disasm: string)
  {
    function Text(): string { Row(Lead(scc, idx), idx, mask, disasm) }
    /** The SCC number leaves room for a space in front of it. */
    predicate Narrow() { scc.None? || scc.value < 100 }
  }

  /** Enough of a lead for the index behind it to be found: it ends with a space and holds no colon. */
  predicate LeadOk(lead: string) {
    |lead| > 0 && lead[|lead| - 1] == ' ' && ':' !in lead
  }

  lemma {:induction false} DecReadsBack(n: nat)
    ensures Dec(n) != "" && AllDigits(Dec(n)) && DecValue(Dec(n)) == n
  {
    if n >= 10 {
      DecReadsBack(n / 10);
      assert Dec(n)[..|Dec(n)| - 1] == Dec(n / 10);
    } else {
      assert Dec(n)[..0] == "";
    }
  }

  lemma {:induction false} TrailingAppends(front: string, digits: string)
    requires AllDigits(digits)
    ensures Trailing(front + digits) == Trailing(front) + digits
  {
    var s := front + digits;
    if digits == "" {
      assert s == front && Trailing(front) + "" == Trailing(front);
    } else {
      var fewer, d := digits[..|digits| - 1], digits[|digits| - 1];
      TrailingAppends(front, fewer);
      assert s[..|s| - 1] == front + fewer && s[|s| - 1] == d;
      assert Trailing(front) + fewer + [d] == Trailing(front) + digits;
    }
  }

  lemma {:induction false} DigitsBackOfDigits(lead: string, digits: string, rest: string, n: nat)
    requires lead != "" && lead[|lead| - 1] == ' ' && AllDigits(digits) && n <= |digits|
    ensures DigitsBack(lead + digits + rest, |lead| + n) == |lead|
  {
    if n > 0 {
      assert (lead + digits + rest)[|lead| + n - 1] == digits[n - 1];
      DigitsBackOfDigits(lead, digits, rest, n - 1);
    }
  }

  lemma ColumnsReadBack(before: string, m: Mask, after: string)
    requires m <= TRACKED
    ensures Columns(before + Rendered(m) + after, |before|) == Some(m)
  {
    var s := before + Rendered(m) + after;
    forall j | j in TRACKED ensures ColumnAt(s, |before|, j) == Column(m, j) {
      assert s[|before| + j] == Rendered(m)[j];
    }
    forall j | j in TRACKED ensures ColumnOk(Column(m, j)) && (Column(m, j) != '.' <==> j in m) {}
    assert (set j | j in TRACKED && ColumnAt(s, |before|, j) != '.') == m;
  }

  /** Where the index of a rendered row ends. */
  lemma ColonOfRow(lead: string, idx: nat, rest: string)
    requires LeadOk(lead)
    ensures ColonFrom(lead + Dec(idx) + (": " + rest), 0) == |lead| + |Dec(idx)|
  {
    DecReadsBack(idx);
    var line, colon := lead + Dec(idx) + (": " + rest), |lead| + |Dec(idx)|;
    assert line[colon] == ':';
    forall i | 0 <= i < colon ensures line[i] != ':' {
      if i < |lead| {
        assert line[i] == lead[i];
      } else {
        assert line[i] == Dec(idx)[i - |lead|];
      }
    }
  }

  /** What both readers look at past the first character: the index before the first colon, the ten
      columns and the spaces around them. */
  predicate RowShape(line: string, lead: string, idx: nat, m: Mask) {
    var colon := |lead| + |Dec(idx)|;
    && ColonFrom(line, 0) == colon < |line| && line[..colon] == lead + Dec(idx)
    && CharAt(line, colon + 1) == ' ' && CharAt(line, colon + 12) == ' ' && Columns(line, colon + 2) == Some(m)
  }

  lemma ColumnsOfRow(head: string, m: Mask, tail: string)
    requires m <= TRACKED && tail != "" && tail[0] == ' '
    ensures var line := head + ": " + Rendered(m) + tail;
            && Columns(line, |head| + 2) == Some(m)
            && CharAt(line, |head| + 1) == ' ' && CharAt(line, |head| + 12) == ' '
  {
    ColumnsReadBack(head + ": ", m, tail);
  }

  lemma RenderedShape(lead: string, idx: nat, m: Mask, disasm: string)
    requires LeadOk(lead) && m <= TRACKED
    ensures RowShape(Row(lead, idx, m, disasm), lead, idx, m) && CharAt(Row(lead, idx, m, disasm), 0) == lead[0]
  {
    var line, head := Row(lead, idx, m, disasm), lead + Dec(idx);
    assert line == head + (": " + (Rendered(m) + " " + disasm));
    ColonOfRow(lead, idx, Rendered(m) + " " + disasm);
    assert line == head + ": " + Rendered(m) + (" " + disasm);
    ColumnsOfRow(head, m, " " + disasm);
    assert line[0] == lead[0];
  }

  lemma IndexDigits(line: string, lead: string, digits: string)
    requires LeadOk(lead) && digits != "" && AllDigits(digits) && |lead| + |digits| <= |line|
    requires line[..|lead| + |digits|] == lead + digits
    ensures var colon := |lead| + |digits|; DigitsBack(line, colon) == |lead| && line[|lead|..colon] == digits
  {
  }

  lemma CReads(line: string, lead: string, idx: nat, m: Mask)
    requires LeadOk(lead) && RowShape(line, lead, idx, m)
    ensures CRow(line) == if CharAt(line, 0) == ' ' then Some((idx, m)) else None
  {
    DecReadsBack(idx);
    IndexDigits(line, lead, Dec(idx));
  }

  lemma IndexIsLastToken(lead: string, idx: nat)
    requires LeadOk(lead)
    ensures ParseU32(LastToken(lead + Dec(idx))) == if idx < TWO32 then Some(idx) else None
  {
    var head, digits := lead + Dec(idx), Dec(idx);
    DecReadsBack(idx);
    TrailingAppends(lead, digits);
    assert Trailing(lead) == "" && "" + digits == digits;
    assert head[|head| - 1] == digits[|digits| - 1];
    assert IsDigit(digits[0]);
  }

  lemma RustReads(line: string, lead: string, idx: nat, m: Mask)
    requires LeadOk(lead) && RowShape(line, lead, idx, m)
    ensures RustRow(line) == if CharAt(line, 0) == ' ' && idx < TWO32 then Some((idx, m)) else None
  {
    IndexIsLastToken(lead, idx);
    RustRowFrom(line, |lead| + |Dec(idx)|, lead + Dec(idx), m);
  }

  lemma RustRowFrom(line: string, colon: nat, head: string, m: Mask)
    requires colon < |line| && ColonFrom(line, 0) == colon && line[..colon] == head
    requires CharAt(line, colon + 1) == ' ' && Columns(line, colon + 2) == Some(m)
    ensures RustRow(line) ==
            if CharAt(line, 0) == ' ' && ParseU32(LastToken(head)).Some? then
              Some((ParseU32(LastToken(head)).value, m))
            else None
  {
  }

  // ---- the lead --------------------------------------------------------------------------------------

  lemma DecWidth(n: nat)
    ensures |Dec(n)| >= 3 <==> n >= 100
  {
    if n >= 100 {
      assert |Dec(n)| == |Dec(n / 10)| + 1 && |Dec(n / 10)| == |Dec(n / 100)| + 1;
    } else if n >= 10 {
      assert |Dec(n)| == |Dec(n / 10)| + 1;
    }
  }

  /** The row starts with a space exactly when its SCC number has at most two digits. */
  lemma LeadStarts(scc: Option<nat>, idx: nat)
    ensures LeadOk(Lead(scc, idx))
    ensures Lead(scc, idx)[0] == ' ' <==> scc.None? || scc.value < 100
  {
    var lead := Lead(scc, idx);
    if scc.Some? {
      DecReadsBack(scc.value);
      DecWidth(scc.value);
      var field := Padding(scc.value) + Dec(scc.value);
      assert lead == field + " " + Padding(idx);
      assert field[|Padding(scc.value)|] == Dec(scc.value)[0];
      assert lead[0] == field[0];
    }
  }

  /** Both readers recover index and mask from a printed row if and only if its SCC number is below 100;
      from 100 on the row starts with a digit and both refuse it.  The Rust index is a `u32` besides. */
  lemma RowReadsBackIff(r: PrintedRow)
    requires r.mask <= TRACKED
    ensures CRow(r.Text()) == if r.Narrow() then Some((r.idx, r.mask)) else None
    ensures RustRow(r.Text()) == if r.Narrow() && r.idx < TWO32 then Some((r.idx, r.mask)) else None
  {
    var lead := Lead(r.scc, r.idx);
    LeadStarts(r.scc, r.idx);
    RenderedShape(lead, r.idx, r.mask, r.disasm);
    CReads(r.Text(), lead, r.idx, r.mask);
    RustReads(r.Text(), lead, r.idx, r.mask);
  }

  /** The first SCC number whose rows are lost. */
  lemma SccHundredIsLost(idx: nat, m: Mask, disasm: string)
    requires m <= TRACKED
    ensures var r := PrintedRow(Some(100), idx, m, disasm);
            CRow(r.Text()) == None == RustRow(r.Text()) && CharAt(r.Text(), 0) == '1'
  {
    var r := PrintedRow(Some(100), idx, m, disasm);
    RowReadsBackIff(r);
    assert Dec(1) == "1" && Dec(10) == "10" && Dec(100) == "100";
    assert Padding(100) == "";
    assert Lead(r.scc, idx)[0] == '1';
    assert r.Text()[0] == Lead(r.scc, idx)[0];
  }

  // ---- the two readers on any line ---------------------------------------------------------------------

  /** All that both readers ask for: a leading space, a colon, a space and ten columns behind it. */
  predicate RowOpens(line: string) {
    var colon := ColonFrom(line, 0);
    CharAt(line, 0) == ' ' && colon < |line| && CharAt(line, colon + 1) == ' ' && Columns(line, colon + 2).Some?
  }

  /** The digits directly before the first colon, and the rest of their token ahead of them. */
  function IndexOf(line: string): (r: (string, string))
    ensures AllDigits(r.1)
  {
    var colon := ColonFrom(line, 0);
    var q := DigitsBack(line, colon);
    (Trailing(line[..q]), line[q..colon])
  }

  lemma TrailingLast(s: string)
    ensures Trailing(s) != "" ==> s != "" && Trailing(s)[|Trailing(s)| - 1] == s[|s| - 1]
  {
  }

  lemma PrefixedParses(pre: string, digits: string)
    requires digits != "" && AllDigits(digits) && (pre == "" || !IsDigit(pre[|pre| - 1]))
    ensures ParseU32(pre + digits) ==
            if (pre == "" || pre == "+") && DecValue(digits) < TWO32 then Some(DecValue(digits)) else None
  {
    var s := pre + digits;
    if pre == "" {
      assert s == digits && IsDigit(digits[0]);
    } else if pre == "+" {
      assert s[1..] == digits;
    } else {
      assert s[|pre| - 1] == pre[|pre| - 1];
      if s[0] == '+' && |pre| > 1 {
        assert s[1..][|pre| - 2] == pre[|pre| - 1];
      }
    }
  }

  lemma RustTokenIs(line: string)
    requires RowOpens(line) && IndexOf(line).1 != ""
    ensures var (pre, digits) := IndexOf(line);
            ParseU32(LastToken(line[..ColonFrom(line, 0)])) ==
            if (pre == "" || pre == "+") && DecValue(digits) < TWO32 then Some(DecValue(digits)) else None
  {
    var colon := ColonFrom(line, 0);
    var q := DigitsBack(line, colon);
    var (pre, digits) := IndexOf(line);
    var head := line[..colon];
    assert head == line[..q] + digits && head[|head| - 1] == digits[|digits| - 1];
    TrailingAppends(line[..q], digits);
    TrailingLast(line[..q]);
    PrefixedParses(pre, digits);
  }

  /** On any line at all the two readers say the same if and only if: they both stop at the frame; or the
      index is bare or has one plus sign, fits a `u32`, and an eleventh space ends the columns; or the C
      reader refuses for want of digits or of that space, and the last token is no `u32` either. */
  lemma ReadersAgreeIff(line: string)
    ensures var ((pre, digits), colon) := (IndexOf(line), ColonFrom(line, 0));
            CRow(line) == RustRow(line) <==>
            || !RowOpens(line)
            || (digits != "" && CharAt(line, colon + 12) == ' ' && (pre == "" || pre == "+") &&
                DecValue(digits) < TWO32)
            || ((digits == "" || CharAt(line, colon + 12) != ' ') && ParseU32(LastToken(line[..colon])) == None)
  {
    if RowOpens(line) && IndexOf(line).1 != "" {
      RustTokenIs(line);
    }
  }

  // ---- tables ----------------------------------------------------------------------------------------

  function ReadRow(line: string, rust: bool): Option<(nat, Mask)> {
    if rust then RustRow(line) else CRow(line)
  }

  /** The rows up to the first line that is none. */
  function UpToNone<T>(got: seq<Option<T>>): seq<T> {
    if got == [] || got[0].None? then [] else [got[0].value] + UpToNone(got[1..])
  }

  /** The table is one contiguous block: the first line that is no row ends it. */
  function TakeRows(lines: seq<string>, rust: bool): seq<(nat, Mask)> {
    UpToNone(ReadAll(lines, rust))
  }

  function ReadAll(lines: seq<string>, rust: bool): seq<Option<(nat, Mask)>> {
    seq(|lines|, i requires 0 <= i < |lines| => ReadRow(lines[i], rust))
  }

  lemma ReadAllConcat(a: seq<string>, b: seq<string>, rust: bool)
    ensures ReadAll(a + b, rust) == ReadAll(a, rust) + ReadAll(b, rust)
  {
  }

  function PrintTable(rows: seq<PrintedRow>): seq<string> {
    seq(|rows|, i requires 0 <= i < |rows| => rows[i].Text())
  }

  function Entries(rows: seq<PrintedRow>): seq<(nat, Mask)> {
    seq(|rows|, i requires 0 <= i < |rows| => (rows[i].idx, rows[i].mask))
  }

  predicate Reads(r: PrintedRow, rust: bool) {
    r.Narrow() && (rust ==> r.idx < TWO32)
  }

  /** How many rows stand before the first that is not read. */
  function ReadRows(rows: seq<PrintedRow>, rust: bool): (n: nat)
    ensures n <= |rows| && (forall i :: 0 <= i < n ==> Reads(rows[i], rust)) && (n < |rows| ==> !Reads(rows[n], rust))
  {
    if rows == [] || !Reads(rows[0], rust) then 0 else 1 + ReadRows(rows[1..], rust)
  }

  lemma PrintedRowReads(r: PrintedRow, rust: bool)
    requires r.mask <= TRACKED
    ensures ReadRow(r.Text(), rust) == if Reads(r, rust) then Some((r.idx, r.mask)) else None
  {
    RowReadsBackIff(r);
  }

  function Found<T>(xs: seq<T>): seq<Option<T>> {
    seq(|xs|, i requires 0 <= i < |xs| => Some(xs[i]))
  }

  lemma {:induction false} UpToNoneSkips<T>(xs: seq<T>, rest: seq<Option<T>>)
    ensures UpToNone(Found(xs) + rest) == xs + UpToNone(rest)
  {
    var all := Found(xs) + rest;
    if xs == [] {
      assert all == rest;
    } else {
      UpToNoneSkips(xs[1..], rest);
      assert all[0] == Some(xs[0]) && all[1..] == Found(xs[1..]) + rest;
      assert [xs[0]] + (xs[1..] + UpToNone(rest)) == xs + UpToNone(rest);
    }
  }

  lemma UpToNoneSplits<T>(found: seq<T>, got: seq<Option<T>>, more: seq<Option<T>>)
    requires |found| <= |got| && forall i :: 0 <= i < |found| ==> got[i] == Some(found[i])
    requires |found| < |got| ==> got[|found|] == None
    ensures UpToNone(got + more) == found + if |found| == |got| then UpToNone(more) else []
  {
    var rest := got[|found|..] + more;
    UpToNoneSkips(found, rest);
    assert got + more == Found(found) + rest;
    if |found| == |got| {
      assert rest == more;
    } else {
      assert rest[0] == None;
    }
  }

  lemma PrintedRowsRead(rows: seq<PrintedRow>, rust: bool, i: nat)
    requires (forall r :: r in rows ==> r.mask <= TRACKED) && i < |rows|
    ensures ReadAll(PrintTable(rows), rust)[i] ==
            if Reads(rows[i], rust) then Some((rows[i].idx, rows[i].mask)) else None
  {
    assert rows[i] in rows;
    PrintedRowReads(rows[i], rust);
  }

  /** Each reader takes the printed table off a log, entry for entry, up to its first row with a wide
      SCC number; there it stops, and past the last row it goes on with whatever the log holds. */
  lemma TableReads(rows: seq<PrintedRow>, tail: seq<string>, rust: bool)
    requires forall r :: r in rows ==> r.mask <= TRACKED
    ensures var n := ReadRows(rows, rust);
            TakeRows(PrintTable(rows) + tail, rust) ==
            Entries(rows[..n]) + if n == |rows| then TakeRows(tail, rust) else []
  {
    var n, got := ReadRows(rows, rust), ReadAll(PrintTable(rows), rust);
    forall i | 0 <= i < n ensures got[i] == Some(Entries(rows[..n])[i]) {
      PrintedRowsRead(rows, rust, i);
    }
    if n < |rows| {
      PrintedRowsRead(rows, rust, n);
    }
    ReadAllConcat(PrintTable(rows), tail, rust);
    UpToNoneSplits(Entries(rows[..n]), got, ReadAll(tail, rust));
  }

  /** The whole table is read if and only if every SCC number in it is below 100. */
  lemma TableReadsBackIff(rows: seq<PrintedRow>, tail: seq<string>, rust: bool)
    requires forall r :: r in rows ==> r.mask <= TRACKED && r.idx < TWO32
    requires tail != [] ==> ReadRow(tail[0], rust) == None
    ensures TakeRows(PrintTable(rows) + tail, rust) == Entries(rows) <==> forall r :: r in rows ==> r.Narrow()
  {
    TableReads(rows, tail, rust);
    var n := ReadRows(rows, rust);
    if n == |rows| {
      assert rows[..n] == rows;
    } else {
      assert |Entries(rows[..n])| == n && !rows[n].Narrow();
    }
  }
}
