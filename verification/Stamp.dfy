/** What a console timestamp is, as the kernel prints it, and the repair in those terms. */
module Stamp {
  import opened Isa
  import opened Chars
  import opened Console
  import opened Splicing

  predicate AllSpaces(s: string) {
    forall i :: 0 <= i < |s| ==> s[i] == ' '
  }

  function Bracketed(blanks: string, secs: string, frac: string, rest: string): string {
    "[" + blanks + secs + "." + frac + "]" + rest
  }

  /** `[`, any number of spaces, the seconds in one digit or more, a point, digits, `]`, and anything after. */
  predicate StampParts(blanks: string, secs: string, frac: string) {
    AllSpaces(blanks) && secs != "" && AllDigits(secs) && AllDigits(frac)
  }

  /** A timestamp in front, in microseconds: six digits after the point. */
  ghost predicate Printed(s: string) {
    exists blanks, secs, frac, rest :: StampParts(blanks, secs, frac) && |frac| == 6 &&
        s == Bracketed(blanks, secs, frac, rest)
  }

  lemma SpacesEnd(s: string, j: nat, k: nat)
    requires j <= k <= |s| && (forall m :: j <= m < k ==> s[m] == ' ') && (k < |s| ==> s[k] != ' ')
    ensures SkipSpaces(s, j) == k
  {
  }

  lemma DigitsEnd(s: string, j: nat, k: nat)
    requires j <= k <= |s| && (forall m :: j <= m < k ==> IsDigit(s[m])) && (k < |s| ==> !IsDigit(s[k]))
    ensures SkipDigits(s, j) == k
  {
  }

  /** Where the parts of a bracketed line stand. */
  lemma PartsStand(blanks: string, secs: string, frac: string, rest: string)
    requires StampParts(blanks, secs, frac)
    ensures var s := Bracketed(blanks, secs, frac, rest);
            var (a, b, c) := (1 + |blanks|, 1 + |blanks| + |secs|, 2 + |blanks| + |secs| + |frac|);
            && c < |s| && s[0] == '[' && s[b] == '.' && s[c] == ']'
            && (forall m :: 1 <= m < a ==> s[m] == ' ') && (forall m :: a <= m < b ==> IsDigit(s[m]))
            && (forall m :: b + 1 <= m < c ==> IsDigit(s[m]))
  {
    var s := Bracketed(blanks, secs, frac, rest);
    var a, b, c := 1 + |blanks|, 1 + |blanks| + |secs|, 2 + |blanks| + |secs| + |frac|;
    assert forall m :: 1 <= m < a ==> s[m] == blanks[m - 1];
    assert forall m :: a <= m < b ==> s[m] == secs[m - a];
    assert forall m :: b + 1 <= m < c ==> s[m] == frac[m - b - 1];
  }

  /** Of such a line the scan finds a timestamp at its start if and only if it has six digits after the point. */
  lemma SixDigits(blanks: string, secs: string, frac: string, rest: string)
    requires StampParts(blanks, secs, frac)
    ensures Timestamp(Bracketed(blanks, secs, frac, rest), 0) <==> |frac| == 6
    ensures TimestampAt(Bracketed(blanks, secs, frac, rest)) == Some(0) <==> |frac| == 6
  {
    var s := Bracketed(blanks, secs, frac, rest);
    var a, b, c := 1 + |blanks|, 1 + |blanks| + |secs|, 2 + |blanks| + |secs| + |frac|;
    PartsStand(blanks, secs, frac, rest);
    assert IsDigit(s[a]);
    SpacesEnd(s, 1, a);
    DigitsEnd(s, a, b);
    DigitsEnd(s, b + 1, c);
  }

  /** A timestamp at i is a printed one. */
  lemma TimestampIsPrinted(s: string, i: nat)
    requires Timestamp(s, i)
    ensures Printed(s[i..])
  {
    var secs := SkipSpaces(s, i + 1);
    var dot := SkipDigits(s, secs);
    var close := SkipDigits(s, dot + 1);
    var blanks, whole, frac, rest := s[i + 1..secs], s[secs..dot], s[dot + 1..close], s[close + 1..];
    Reassembled(s, i, secs, dot, close);
    assert StampParts(blanks, whole, frac) && |frac| == 6;
  }

  lemma Reassembled(s: string, i: nat, secs: nat, dot: nat, close: nat)
    requires i < secs <= dot < close < |s| && s[i] == '[' && s[dot] == '.' && s[close] == ']'
    ensures s[i..] == Bracketed(s[i + 1..secs], s[secs..dot], s[dot + 1..close], s[close + 1..])
  {
  }

  lemma PrintedIsTimestamp(s: string, i: nat)
    requires i <= |s| && Printed(s[i..])
    ensures Timestamp(s, i)
  {
    var blanks, secs, frac, rest :| StampParts(blanks, secs, frac) && |frac| == 6 &&
        s[i..] == Bracketed(blanks, secs, frac, rest);
    SixDigits(blanks, secs, frac, rest);
    TimestampShift(s, i, s[i..], 0);
  }

  /** The scan's answer is the first place where a printed timestamp stands, and none when there is none. */
  lemma ScanFinds(line: string)
    ensures match TimestampAt(line)
            case Some(k) => k < |line| && Printed(line[k..]) && forall m :: 0 <= m < k ==> !Printed(line[m..])
            case None => forall m :: 0 <= m <= |line| ==> !Printed(line[m..])
  {
    forall m | 0 <= m <= |line| ensures Printed(line[m..]) <==> m < |line| && Timestamp(line, m) {
      if Printed(line[m..]) {
        PrintedIsTimestamp(line, m);
      }
      if m < |line| && Timestamp(line, m) {
        TimestampIsPrinted(line, m);
      }
    }
  }

  // ---- the repair ---------------------------------------------------------------------------------------

  /** No timestamp anywhere in the line. */
  ghost predicate Unstamped(s: string) {
    forall m :: 0 <= m <= |s| ==> !Printed(s[m..])
  }

  ghost predicate AllPrinted(lines: Lines) {
    forall l :: l in lines ==> Printed(l)
  }

  /** One log line written over: it holds no timestamp itself, and what was written into it and around it are
      console lines as printed. */
  ghost predicate WrittenOver(sp: Spliced) {
    && Unstamped(Original(sp)) && AllPrinted(sp.noise)
    && forall p :: p in sp.pieces ==> Printed(p.console) && AllPrinted(p.noise)
  }

  lemma PrintedIsConsole(l: string)
    requires Printed(l)
    ensures WholeConsole(l)
  {
    assert l[0..] == l;
    PrintedIsTimestamp(l, 0);
  }

  lemma UnstampedIsClean(s: string)
    requires Unstamped(s)
    ensures Clean(s)
  {
    forall i | 0 <= i < |s| ensures !Timestamp(s, i) {
      if Timestamp(s, i) {
        TimestampIsPrinted(s, i);
      }
    }
  }

  lemma WrittenIsSpliced(sp: Spliced)
    requires WrittenOver(sp)
    ensures SplicedOk(sp)
  {
    UnstampedIsClean(Original(sp));
    forall l | Printed(l) ensures WholeConsole(l) { PrintedIsConsole(l); }
  }

  /** A log whose lines were written over by printed console lines, any number of times and anywhere, comes back
      line for line, with the number of lines that had been split. */
  lemma RepairRestores(log: seq<Spliced>, trailing: Lines)
    requires (forall sp :: sp in log ==> WrittenOver(sp)) && AllPrinted(trailing)
    ensures Repair(CapturedLog(log, trailing)) == (Originals(log), SplitLines(log))
  {
    forall sp | sp in log ensures SplicedOk(sp) { WrittenIsSpliced(sp); }
    forall l | l in trailing ensures WholeConsole(l) { PrintedIsConsole(l); }
    RepairUndoesSplicing(log, trailing);
  }

  lemma NothingContinues(noise: Lines)
    requires AllConsole(noise)
    ensures Continue(noise) == ("", [])
  {
    DropNoise(noise, []);
    assert noise + [] == noise;
  }

  lemma CutShortClean(front: string, console: string, noise: Lines)
    requires front != "" && Clean(front) && WholeConsole(console) && AllConsole(noise)
    ensures Repair([front + console] + noise) == ([front], 1)
  {
    SeamIsFirst(front, console);
    NothingContinues(noise);
    SplitEnds(front + console, |front|, noise);
    assert (front + console)[..|front|] == front;
  }

  lemma SplitEnds(line: string, cut: nat, noise: Lines)
    requires TimestampAt(line) == Some(cut) && cut > 0 && Continue(noise) == ("", [])
    ensures Repair([line] + noise) == ([line[..cut]], 1)
  {
    RepairSplit(line, cut, noise, "", []);
    assert line[..cut] + "" == line[..cut] && [line[..cut]] + [] == [line[..cut]];
  }

  /** A split line whose rest never comes keeps what stood in front, and counts. */
  lemma CutShort(front: string, console: string, noise: Lines)
    requires front != "" && Unstamped(front) && Printed(console) && AllPrinted(noise)
    ensures Repair([front + console] + noise) == ([front], 1)
  {
    UnstampedIsClean(front);
    PrintedIsConsole(console);
    forall l | l in noise ensures WholeConsole(l) { PrintedIsConsole(l); }
    CutShortClean(front, console, noise);
  }
}
