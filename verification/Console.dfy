/** Undoing console interleaving: kernel messages written over a serial console that also carries
    the verifier log. */
module Console {
  import opened Isa
  import opened Chars

  /** The end of the run of spaces, or of digits, from j on. */
  function SkipSpaces(s: string, j: nat): (k: nat)
    requires j <= |s|
    ensures j <= k <= |s| && (forall m :: j <= m < k ==> s[m] == ' ') && (k < |s| ==> s[k] != ' ')
    decreases |s| - j
  {
    if j < |s| && s[j] == ' ' then SkipSpaces(s, j + 1) else j
  }

  function SkipDigits(s: string, j: nat): (k: nat)
    requires j <= |s|
    ensures j <= k <= |s| && (forall m :: j <= m < k ==> IsDigit(s[m])) && (k < |s| ==> !IsDigit(s[k]))
    decreases |s| - j
  {
    if j < |s| && IsDigit(s[j]) then SkipDigits(s, j + 1) else j
  }

  /** A printk timestamp starts at i: `[`, spaces, seconds, `.`, exactly six digits, `]`. */
  predicate Timestamp(s: string, i: nat) {
    && i < |s| && s[i] == '['
    && var secs := SkipSpaces(s, i + 1);
       var dot := SkipDigits(s, secs);
       && secs < dot < |s| && s[dot] == '.'
       && var close := SkipDigits(s, dot + 1);
          close == dot + 7 && close < |s| && s[close] == ']'
  }

  predicate Clean(s: string) {
    forall i :: 0 <= i < |s| ==> !Timestamp(s, i)
  }

  /** The first timestamp at or after i. */
  function FirstFrom(s: string, i: nat): (r: Option<nat>)
    requires i <= |s|
    ensures match r
            case Some(k) => i <= k < |s| && Timestamp(s, k) && forall m :: i <= m < k ==> !Timestamp(s, m)
            case None => forall m :: i <= m < |s| ==> !Timestamp(s, m)
    decreases |s| - i
  {
    if i == |s| then None else if Timestamp(s, i) then Some(i) else FirstFrom(s, i + 1)
  }

  function TimestampAt(s: string): Option<nat> { FirstFrom(s, 0) }

  method SpacesFrom(s: string, i: nat) returns (j: nat)
    requires i <= |s|
    ensures j == SkipSpaces(s, i)
  {
    j := i;
    while j < |s| && s[j] == ' '
      invariant i <= j <= |s| && SkipSpaces(s, i) == SkipSpaces(s, j)
    {
      j := j + 1;
    }
  }

  method DigitsFrom(s: string, i: nat) returns (j: nat)
    requires i <= |s|
    ensures j == SkipDigits(s, i)
  {
    j := i;
    while j < |s| && IsDigit(s[j])
      invariant i <= j <= |s| && SkipDigits(s, i) == SkipDigits(s, j)
    {
      j := j + 1;
    }
  }

  /** `console_timestamp_at`. */
  method ConsoleTimestampAt(line: string) returns (r: Option<nat>)
    ensures r == TimestampAt(line)
  {
    for i := 0 to |line|
      invariant TimestampAt(line) == FirstFrom(line, i)
    {
      if line[i] == '[' {
        var secs := SpacesFrom(line, i + 1);
        var j := DigitsFrom(line, secs);
        if j != secs && j < |line| && line[j] == '.' {
          var frac := j + 1;
          j := DigitsFrom(line, frac);
          if j - frac == 6 && j < |line| && line[j] == ']' {
            return Some(i);
          }
        }
      }
    }
    return None;
  }

  // ---- the repair ---------------------------------------------------------------------------------

  type Lines = seq<string>

  predicate WholeConsole(line: string) { TimestampAt(line) == Some(0) }

  function DropConsole(lines: Lines): (rest: Lines)
    ensures |rest| <= |lines|
  {
    if lines != [] && WholeConsole(lines[0]) then DropConsole(lines[1..]) else lines
  }

  /** The continuation of a split line, and the lines after it. */
  function Continue(lines: Lines): (r: (string, Lines))
    ensures |r.1| <= |lines|
    decreases |lines|
  {
    var here := DropConsole(lines);
    if here == [] then ("", [])
    else
      match TimestampAt(here[0])
      case Some(c) => var (text, rest) := Continue(here[1..]); (here[0][..c] + text, rest)
      case None => (here[0], here[1..])
  }

  /** The repaired lines, and how many of them were put back together. */
  function Repair(lines: Lines): (Lines, nat)
    decreases |lines|
  {
    if lines == [] then ([], 0)
    else
      match TimestampAt(lines[0])
      case None => var (out, n) := Repair(lines[1..]); ([lines[0]] + out, n)
      case Some(cut) =>
        if cut == 0 then Repair(lines[1..])
        else
          var (text, rest) := Continue(lines[1..]);
          var (out, n) := Repair(rest);
          ([lines[0][..cut] + text] + out, n + 1)
  }

  lemma {:induction false} RepairLeavesClean(lines: Lines)
    requires forall l :: l in lines ==> TimestampAt(l) == None
    ensures Repair(lines) == (lines, 0)
  {
    if lines != [] {
      assert lines[0] in lines;
      RepairLeavesClean(lines[1..]);
      assert lines == [lines[0]] + lines[1..];
    }
  }

  method SkipConsole(lines: Lines, start: nat) returns (j: nat)
    requires start <= |lines|
    ensures start <= j <= |lines| && DropConsole(lines[start..]) == lines[j..]
  {
    j := start;
    while j < |lines| && WholeConsole(lines[j])
      invariant start <= j <= |lines| && DropConsole(lines[start..]) == DropConsole(lines[j..])
    {
      assert lines[j..][1..] == lines[j + 1..];
      j := j + 1;
    }
  }

  /** What is read before a continuation stays in front of it. */
  function Prepended(text: string, more: (string, Lines)): (string, Lines) {
    (text + more.0, more.1)
  }

  lemma ContinueStep(lines: Lines, start: nat, j: nat, text: string)
    requires start <= j < |lines| && DropConsole(lines[start..]) == lines[j..]
    ensures match TimestampAt(lines[j])
            case Some(c) => Prepended(text, Continue(lines[start..])) ==
                Prepended(text + lines[j][..c], Continue(lines[j + 1..]))
            case None => Prepended(text, Continue(lines[start..])) == (text + lines[j], lines[j + 1..])
  {
    assert lines[j..][1..] == lines[j + 1..];
    match TimestampAt(lines[j])
    case Some(c) =>
      var more := Continue(lines[j + 1..]).0;
      assert text + (lines[j][..c] + more) == (text + lines[j][..c]) + more;
    case None =>
  }

  /** The inner loop: everything up to the end of the split line, from line start on. */
  method JoinContinuation(lines: Lines, start: nat) returns (text: string, j: nat)
    requires start <= |lines|
    ensures start <= j <= |lines| && (text, lines[j..]) == Continue(lines[start..])
  {
    text, j := "", start;
    assert "" + Continue(lines[start..]).0 == Continue(lines[start..]).0;
    while true
      invariant start <= j <= |lines|
      invariant Continue(lines[start..]) == Prepended(text, Continue(lines[j..]))
      decreases |lines| - j
    {
      var k := SkipConsole(lines, j);
      if k >= |lines| {
        assert text + "" == text;
        j := k;
        return;
      }
      ContinueStep(lines, j, k, text);
      var next := lines[k];
      j := k + 1;
      var at := ConsoleTimestampAt(next);
      match at {
        case Some(c) => text := text + next[..c];
        case None =>
          text := text + next;
          return;
      }
    }
  }

  function Extend(out: Lines, repairs: nat, more: (Lines, nat)): (Lines, nat) {
    (out + more.0, repairs + more.1)
  }

  lemma ExtendTwice(out: Lines, line: string, repairs: nat, one: nat, more: (Lines, nat))
    ensures Extend(out, repairs, Extend([line], one, more)) == Extend(out + [line], repairs + one, more)
  {
    assert out + ([line] + more.0) == (out + [line]) + more.0;
  }

  lemma ExtendEnds(out: Lines, repairs: nat, more: (Lines, nat))
    ensures Extend([], 0, more) == more && Extend(out, repairs, Repair([])) == (out, repairs)
  {
    assert [] + more.0 == more.0 && out + [] == out;
  }

  lemma RepairKeeps(lines: Lines, i: nat)
    requires i < |lines| && TimestampAt(lines[i]) == None
    ensures Repair(lines[i..]) == Extend([lines[i]], 0, Repair(lines[i + 1..]))
  {
  }

  lemma RepairDrops(lines: Lines, i: nat)
    requires i < |lines| && TimestampAt(lines[i]) == Some(0)
    ensures Repair(lines[i..]) == Repair(lines[i + 1..])
  {
  }

  lemma RepairJoins(lines: Lines, i: nat, cut: nat, text: string, j: nat)
    requires i < |lines| && TimestampAt(lines[i]) == Some(cut) && cut > 0
    requires j <= |lines| && Continue(lines[i + 1..]) == (text, lines[j..])
    ensures Repair(lines[i..]) == Extend([lines[i][..cut] + text], 1, Repair(lines[j..]))
  {
  }

  /** `repair_console_interleaving`. */
  method RepairConsoleInterleaving(lines: Lines) returns (out: Lines, repairs: nat)
    ensures (out, repairs) == Repair(lines)
  {
    if forall l :: l in lines ==> TimestampAt(l) == None {
      RepairLeavesClean(lines);
      return lines, 0;
    }
    out, repairs := RepairLines(lines);
  }

  /** Its outer loop. */
  method RepairLines(lines: Lines) returns (out: Lines, repairs: nat)
    ensures (out, repairs) == Repair(lines)
  {
    out, repairs := [], 0;
    var i := 0;
    assert lines[0..] == lines;
    ExtendEnds(out, repairs, Repair(lines));
    while i < |lines|
      invariant 0 <= i <= |lines|
      invariant Repair(lines) == Extend(out, repairs, Repair(lines[i..]))
    {
      var at := ConsoleTimestampAt(lines[i]);
      match at {
        case None =>
          RepairKeeps(lines, i);
          ExtendTwice(out, lines[i], repairs, 0, Repair(lines[i + 1..]));
          out := out + [lines[i]];
          i := i + 1;
        case Some(cut) =>
          if cut == 0 {
            RepairDrops(lines, i);
            i := i + 1;
          } else {
            var text, j := JoinContinuation(lines, i + 1);
            RepairJoins(lines, i, cut, text, j);
            ExtendTwice(out, lines[i][..cut] + text, repairs, 1, Repair(lines[j..]));
            out := out + [lines[i][..cut] + text];
            repairs := repairs + 1;
            i := j;
          }
      }
    }
    assert lines[i..] == [];
    ExtendEnds(out, repairs, ([], 0));
  }
}
