/** What a shared serial console does to a log, and that the repair undoes it. */
module Splicing {
  import opened Isa
  import opened Chars
  import opened Console

  /** Part of a line, the console line written right behind it, and whole console lines after. */
  datatype Fragment = Fragment(text: string, console: string, noise: Lines)

  /** One log line as captured: whole console lines ahead of it, the fragments it was split into,
      and what is left of it after the last split. */
  datatype Spliced = Spliced(noise: Lines, pieces: seq<Fragment>, last: string)

  function Text(pieces: seq<Fragment>, last: string): string {
    if pieces == [] then last else pieces[0].text + Text(pieces[1..], last)
  }

  function Original(sp: Spliced): string { Text(sp.pieces, sp.last) }

  function Captured(pieces: seq<Fragment>, last: string): Lines {
    if pieces == [] then [last]
    else [pieces[0].text + pieces[0].console] + pieces[0].noise + Captured(pieces[1..], last)
  }

  predicate AllConsole(lines: Lines) {
    forall l :: l in lines ==> WholeConsole(l)
  }

  predicate PiecesOk(pieces: seq<Fragment>) {
    forall p :: p in pieces ==> WholeConsole(p.console) && AllConsole(p.noise)
  }

  /** The line itself carries no timestamp. */
  predicate SplicedOk(sp: Spliced) {
    Clean(Original(sp)) && AllConsole(sp.noise) && PiecesOk(sp.pieces)
  }

  /** Something of the line stood in front of a console line; else nothing was really split. */
  predicate IsSplit(pieces: seq<Fragment>) {
    exists p :: p in pieces && p.text != ""
  }

  function CapturedLog(log: seq<Spliced>, trailing: Lines): Lines {
    if log == [] then trailing
    else log[0].noise + (Captured(log[0].pieces, log[0].last) + CapturedLog(log[1..], trailing))
  }

  function Originals(log: seq<Spliced>): Lines {
    seq(|log|, i requires 0 <= i < |log| => Original(log[i]))
  }

  function SplitLines(log: seq<Spliced>): nat {
    if log == [] then 0 else (if IsSplit(log[0].pieces) then 1 else 0) + SplitLines(log[1..])
  }

  // ---- timestamps are local -----------------------------------------------------------------------

  /** whole holds s from index at on. */
  predicate HoldsAt(whole: string, at: nat, s: string) {
    at + |s| <= |whole| && forall j :: 0 <= j < |s| ==> s[j] == whole[at + j]
  }

  lemma {:induction false} SpacesShift(whole: string, at: nat, s: string, j: nat)
    requires HoldsAt(whole, at, s) && j <= |s| && SkipSpaces(s, j) < |s|
    ensures SkipSpaces(whole, at + j) == at + SkipSpaces(s, j)
    decreases |s| - j
  {
    if s[j] == ' ' {
      SpacesShift(whole, at, s, j + 1);
    }
  }

  lemma {:induction false} DigitsShift(whole: string, at: nat, s: string, j: nat)
    requires HoldsAt(whole, at, s) && j <= |s| && SkipDigits(s, j) < |s|
    ensures SkipDigits(whole, at + j) == at + SkipDigits(s, j)
    decreases |s| - j
  {
    if IsDigit(s[j]) {
      DigitsShift(whole, at, s, j + 1);
    }
  }

  /** A timestamp stays one wherever its line is embedded. */
  lemma TimestampShift(whole: string, at: nat, s: string, i: nat)
    requires HoldsAt(whole, at, s) && Timestamp(s, i)
    ensures Timestamp(whole, at + i)
  {
    var secs := SkipSpaces(s, i + 1);
    var dot := SkipDigits(s, secs);
    SpacesShift(whole, at, s, i + 1);
    DigitsShift(whole, at, s, secs);
    DigitsShift(whole, at, s, dot + 1);
  }

  lemma PartsAreClean(a: string, s: string, b: string)
    requires Clean(a + s + b)
    ensures Clean(s)
  {
    forall i | 0 <= i < |s| ensures !Timestamp(s, i) {
      if Timestamp(s, i) {
        TimestampShift(a + s + b, |a|, s, i);
      }
    }
  }

  lemma {:induction false} SpacesStopAt(p: string, c: string, j: nat)
    requires j <= |p| && c != "" && c[0] == '['
    ensures SkipSpaces(p + c, j) == SkipSpaces(p, j)
    decreases |p| - j
  {
    if j < |p| && p[j] == ' ' {
      SpacesStopAt(p, c, j + 1);
    }
  }

  lemma {:induction false} DigitsStopAt(p: string, c: string, j: nat)
    requires j <= |p| && c != "" && c[0] == '['
    ensures SkipDigits(p + c, j) == SkipDigits(p, j)
    decreases |p| - j
  {
    if j < |p| && IsDigit(p[j]) {
      DigitsStopAt(p, c, j + 1);
    }
  }

  /** No timestamp straddles the seam: the bracket that starts the console line ends any attempt. */
  lemma NoStraddling(p: string, c: string, i: nat)
    requires c != "" && c[0] == '[' && i < |p| && Timestamp(p + c, i)
    ensures Timestamp(p, i)
  {
    var s := p + c;
    assert s[|p|] == '[';
    SpacesStopAt(p, c, i + 1);
    var secs := SkipSpaces(s, i + 1);
    DigitsStopAt(p, c, secs);
    var dot := SkipDigits(s, secs);
    assert dot != |p|;
    DigitsStopAt(p, c, dot + 1);
  }

  lemma SeamIsFirst(p: string, c: string)
    requires Clean(p) && WholeConsole(c)
    ensures TimestampAt(p + c) == Some(|p|)
  {
    TimestampShift(p + c, |p|, c, 0);
    var first := TimestampAt(p + c).value;
    if first < |p| {
      NoStraddling(p, c, first);
    }
  }

  // ---- the repair, piece by piece -----------------------------------------------------------------

  lemma {:induction false} DropNoise(noise: Lines, rest: Lines)
    requires AllConsole(noise)
    ensures DropConsole(noise + rest) == DropConsole(rest)
  {
    if noise != [] {
      assert (noise + rest)[1..] == noise[1..] + rest;
      assert noise[0] in noise;
      DropNoise(noise[1..], rest);
    } else {
      assert noise + rest == rest;
    }
  }

  lemma {:induction false} RepairSkipsNoise(noise: Lines, rest: Lines)
    requires AllConsole(noise)
    ensures Repair(noise + rest) == Repair(rest)
  {
    if noise != [] {
      assert (noise + rest)[1..] == noise[1..] + rest;
      assert noise[0] in noise;
      RepairSkipsNoise(noise[1..], rest);
    } else {
      assert noise + rest == rest;
    }
  }

  lemma TextParts(pieces: seq<Fragment>, last: string)
    requires pieces != [] && Clean(Text(pieces, last))
    ensures Clean(pieces[0].text) && Clean(Text(pieces[1..], last))
  {
    var rest := Text(pieces[1..], last);
    assert "" + pieces[0].text + rest == Text(pieces, last);
    PartsAreClean("", pieces[0].text, rest);
    assert pieces[0].text + rest + "" == Text(pieces, last);
    PartsAreClean(pieces[0].text, rest, "");
  }

  lemma CleanHasNoTimestamp(s: string)
    requires Clean(s)
    ensures TimestampAt(s) == None
  {
  }

  lemma ContinueDrops(noise: Lines, rest: Lines)
    requires AllConsole(noise)
    ensures Continue(noise + rest) == Continue(rest)
  {
    DropNoise(noise, rest);
  }

  lemma ContinueEnds(last: string, tail: Lines)
    requires TimestampAt(last) == None
    ensures Continue([last] + tail) == (last, tail)
  {
  }

  lemma ContinueSplit(line: string, cut: nat, more: Lines)
    requires TimestampAt(line) == Some(cut) && cut > 0
    ensures Continue([line] + more) == Prepended(line[..cut], Continue(more))
  {
  }

  lemma FirstFragment(p: Fragment, rest: seq<Fragment>, last: string, tail: Lines)
    ensures Captured([p] + rest, last) + tail == [p.text + p.console] + (p.noise + (Captured(rest, last) + tail))
    ensures Text([p] + rest, last) == p.text + Text(rest, last)
    ensures (p.text + p.console)[..|p.text|] == p.text
  {
  }

  /** A split with nothing in front of it is just another console line. */
  lemma EmptyFront(p: Fragment, rest: seq<Fragment>, last: string, tail: Lines)
    requires p.text == "" && WholeConsole(p.console) && AllConsole(p.noise)
    ensures Captured([p] + rest, last) + tail == ([p.console] + p.noise) + (Captured(rest, last) + tail)
    ensures AllConsole([p.console] + p.noise) && Text([p] + rest, last) == Text(rest, last)
  {
    FirstFragment(p, rest, last, tail);
    assert p.text + p.console == p.console && p.text + Text(rest, last) == Text(rest, last);
  }

  lemma PiecesSplit(p: Fragment, rest: seq<Fragment>)
    requires PiecesOk([p] + rest)
    ensures WholeConsole(p.console) && AllConsole(p.noise) && PiecesOk(rest)
    ensures IsSplit([p] + rest) <==> p.text != "" || IsSplit(rest)
  {
  }

  /** The continuation of a split line is the rest of its text, console lines left out. */
  lemma {:induction false} ContinueCollects(pieces: seq<Fragment>, last: string, tail: Lines)
    requires PiecesOk(pieces) && Clean(Text(pieces, last))
    ensures Continue(Captured(pieces, last) + tail) == (Text(pieces, last), tail)
    decreases |pieces|
  {
    if pieces == [] {
      CleanHasNoTimestamp(last);
      ContinueEnds(last, tail);
    } else {
      var p, rest := pieces[0], pieces[1..];
      assert pieces == [p] + rest;
      PiecesSplit(p, rest);
      TextParts(pieces, last);
      ContinueCollects(rest, last, tail);
      var more := Captured(rest, last) + tail;
      if p.text == "" {
        EmptyFront(p, rest, last, tail);
        ContinueDrops([p.console] + p.noise, more);
      } else {
        FirstFragment(p, rest, last, tail);
        SeamIsFirst(p.text, p.console);
        ContinueDrops(p.noise, more);
        ContinueSplit(p.text + p.console, |p.text|, p.noise + more);
      }
    }
  }

  lemma RepairSplit(line: string, cut: nat, more: Lines, text: string, rest: Lines)
    requires TimestampAt(line) == Some(cut) && cut > 0 && Continue(more) == (text, rest)
    ensures Repair([line] + more) == ([line[..cut] + text] + Repair(rest).0, Repair(rest).1 + 1)
  {
  }

  lemma RepairWholeLine(line: string, tail: Lines)
    requires Clean(line)
    ensures Repair([line] + tail) == ([line] + Repair(tail).0, Repair(tail).1)
  {
  }

  lemma RepairFragments(p: Fragment, rest: seq<Fragment>, last: string, tail: Lines)
    requires Clean(p.text) && Clean(Text(rest, last)) && p.text != ""
    requires WholeConsole(p.console) && AllConsole(p.noise) && PiecesOk(rest)
    ensures Repair(Captured([p] + rest, last) + tail) == ([Text([p] + rest, last)] + Repair(tail).0, Repair(tail).1 + 1)
  {
    var line, more := p.text + p.console, p.noise + (Captured(rest, last) + tail);
    SeamIsFirst(p.text, p.console);
    ContinueDrops(p.noise, Captured(rest, last) + tail);
    ContinueCollects(rest, last, tail);
    RepairSplit(line, |p.text|, more, Text(rest, last), tail);
    FirstFragment(p, rest, last, tail);
  }

  lemma {:induction false} RepairOneLine(pieces: seq<Fragment>, last: string, tail: Lines)
    requires Clean(Text(pieces, last)) && PiecesOk(pieces)
    ensures Repair(Captured(pieces, last) + tail) ==
            ([Text(pieces, last)] + Repair(tail).0, Repair(tail).1 + if IsSplit(pieces) then 1 else 0)
    decreases |pieces|
  {
    if pieces == [] {
      RepairWholeLine(last, tail);
    } else {
      var p, rest := pieces[0], pieces[1..];
      assert pieces == [p] + rest;
      PiecesSplit(p, rest);
      TextParts(pieces, last);
      if p.text == "" {
        EmptyFront(p, rest, last, tail);
        RepairSkipsNoise([p.console] + p.noise, Captured(rest, last) + tail);
        RepairOneLine(rest, last, tail);
      } else {
        RepairFragments(p, rest, last, tail);
      }
    }
  }

  lemma RepairSpliced(sp: Spliced, tail: Lines)
    requires SplicedOk(sp)
    ensures Repair(sp.noise + (Captured(sp.pieces, sp.last) + tail)) ==
            ([Original(sp)] + Repair(tail).0, Repair(tail).1 + if IsSplit(sp.pieces) then 1 else 0)
  {
    RepairSkipsNoise(sp.noise, Captured(sp.pieces, sp.last) + tail);
    RepairOneLine(sp.pieces, sp.last, tail);
  }

  lemma OriginalsStep(log: seq<Spliced>)
    requires log != []
    ensures Originals(log) == [Original(log[0])] + Originals(log[1..])
  {
  }

  /** Splitting lines any number of times and inserting console lines anywhere is undone, and the
      count is the number of lines that had been split. */
  lemma {:induction false} RepairUndoesSplicing(log: seq<Spliced>, trailing: Lines)
    requires (forall sp :: sp in log ==> SplicedOk(sp)) && AllConsole(trailing)
    ensures Repair(CapturedLog(log, trailing)) == (Originals(log), SplitLines(log))
    decreases |log|
  {
    if log == [] {
      RepairSkipsNoise(trailing, []);
      assert trailing + [] == trailing && Originals(log) == [];
    } else {
      assert log[0] in log && forall sp :: sp in log[1..] ==> sp in log;
      RepairUndoesSplicing(log[1..], trailing);
      RepairSpliced(log[0], CapturedLog(log[1..], trailing));
      OriginalsStep(log);
    }
  }
}
