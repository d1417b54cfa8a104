/** The lines the two readers of the liveness table take, and what they make of them: exactly. */
module Rows {
  import opened Isa
  import opened Dataflow
  import opened Chars
  import opened Table

  /** Ten columns, each a dot or a digit; a dot says dead. */
  predicate ShowsMask(cols: string, m: Mask) {
    && |cols| == 10 && (forall j :: 0 <= j < 10 ==> cols[j] == '.' || '0' <= cols[j] <= '9')
    && m == set j | 0 <= j < 10 && cols[j] != '.'
  }

  lemma ColumnsAre(line: string, k: nat, m: Mask)
    ensures Columns(line, k) == Some(m) <==> k + 10 <= |line| && ShowsMask(line[k..k + 10], m)
  {
    if k + 10 <= |line| {
      var cols := line[k..k + 10];
      assert forall j :: 0 <= j < 10 ==> ColumnAt(line, k, j) == cols[j];
      assert (set j | j in TRACKED && ColumnAt(line, k, j) != '.') == set j | 0 <= j < 10 && cols[j] != '.';
    } else {
      assert 9 in TRACKED && ColumnAt(line, k, 9) == '\0';
    }
  }

  lemma ColonAt(line: string, k: nat)
    requires k < |line| && line[k] == ':' && forall j :: 0 <= j < k ==> line[j] != ':'
    ensures ColonFrom(line, 0) == k
  {
  }

  // ---- the C reader -----------------------------------------------------------------------------------------

  /** Something that starts with a space, holds no colon and ends in no digit; digits; a colon and a space; ten
      columns; and a space. */
  predicate CParts(lead: string, digits: string, cols: string, m: Mask) {
    && lead != "" && lead[0] == ' ' && ':' !in lead && !('0' <= lead[|lead| - 1] <= '9')
    && digits != "" && AllDigits(digits) && ShowsMask(cols, m)
  }

  function CLine(lead: string, digits: string, cols: string, rest: string): string {
    lead + digits + ": " + cols + " " + rest
  }

  ghost predicate CTakes(line: string, idx: nat, m: Mask) {
    exists lead, digits, cols, rest ::
      CParts(lead, digits, cols, m) && line == CLine(lead, digits, cols, rest) && DecValue(digits) == idx
  }

  lemma CLineStands(lead: string, digits: string, cols: string, rest: string, m: Mask)
    requires CParts(lead, digits, cols, m)
    ensures var (line, q, colon) := (CLine(lead, digits, cols, rest), |lead|, |lead| + |digits|);
            && colon + 12 < |line| && line[0] == ' ' && line[..q] == lead && line[q..colon] == digits
            && line[colon] == ':' && line[colon + 1] == ' ' && line[colon + 12] == ' '
            && line[colon + 2..colon + 12] == cols && forall j :: 0 <= j < colon ==> line[j] != ':'
  {
    var line, q, colon := CLine(lead, digits, cols, rest), |lead|, |lead| + |digits|;
    assert line == lead + (digits + (": " + (cols + (" " + rest))));
    assert forall j :: 0 <= j < q ==> line[j] == lead[j];
    assert forall j :: q <= j < colon ==> line[j] == digits[j - q];
  }

  lemma {:induction false} DigitsStandAt(line: string, q: nat, k: nat)
    requires 0 < q <= k <= |line| && !IsDigit(line[q - 1]) && forall j :: q <= j < k ==> IsDigit(line[j])
    ensures DigitsBack(line, k) == q
  {
    if q < k {
      DigitsStandAt(line, q, k - 1);
    }
  }

  lemma CRowFrom(line: string, q: nat, colon: nat, m: Mask)
    requires colon < |line| && ColonFrom(line, 0) == colon && DigitsBack(line, colon) == q < colon
    requires CharAt(line, 0) == CharAt(line, colon + 1) == CharAt(line, colon + 12) == ' '
    requires Columns(line, colon + 2) == Some(m)
    ensures CRow(line) == Some((DecValue(line[q..colon]), m))
  {
  }

  lemma CLineReads(lead: string, digits: string, cols: string, rest: string, m: Mask)
    requires CParts(lead, digits, cols, m)
    ensures CRow(CLine(lead, digits, cols, rest)) == Some((DecValue(digits), m))
  {
    var line, q, colon := CLine(lead, digits, cols, rest), |lead|, |lead| + |digits|;
    CLineStands(lead, digits, cols, rest, m);
    ColonAt(line, colon);
    assert line[q - 1] == line[..q][q - 1];
    assert forall j :: q <= j < colon ==> line[j] == line[q..colon][j - q];
    DigitsStandAt(line, q, colon);
    ColumnsAre(line, colon + 2, m);
    CRowFrom(line, q, colon, m);
  }

  lemma CLineSplits(line: string, idx: nat, m: Mask)
    requires CRow(line) == Some((idx, m))
    ensures CTakes(line, idx, m)
  {
    var colon := ColonFrom(line, 0);
    var q := DigitsBack(line, colon);
    ColumnsAre(line, colon + 2, m);
    var lead, digits, cols, rest := line[..q], line[q..colon], line[colon + 2..colon + 12], line[colon + 13..];
    assert AllDigits(digits) && digits[0] == line[q];
    Reassembled(line, q, colon);
    assert CParts(lead, digits, cols, m);
  }

  /** The C reader takes exactly these lines, with the number before the colon and the mask of the columns. */
  lemma CTakesExactly(line: string, idx: nat, m: Mask)
    ensures CRow(line) == Some((idx, m)) <==> CTakes(line, idx, m)
  {
    if CTakes(line, idx, m) {
      var lead, digits, cols, rest :|
        CParts(lead, digits, cols, m) && line == CLine(lead, digits, cols, rest) && DecValue(digits) == idx;
      CLineReads(lead, digits, cols, rest, m);
    }
    if CRow(line) == Some((idx, m)) {
      CLineSplits(line, idx, m);
    }
  }

  lemma Reassembled(line: string, q: nat, colon: nat)
    requires q <= colon && colon + 13 <= |line| && line[colon] == ':' && line[colon + 1] == ' ' &&
             line[colon + 12] == ' '
    ensures line == CLine(line[..q], line[q..colon], line[colon + 2..colon + 12], line[colon + 13..])
  {
    assert line[q..colon] + line[colon..] == line[q..];
    assert line[colon..] == ": " + line[colon + 2..colon + 12] + " " + line[colon + 13..];
  }

  // ---- the Rust reader ----------------------------------------------------------------------------------------

  /** White space, character by character. */
  predicate White(c: char) {
    || c in {' ', '\t', '\n', '\r', '\U{0B}', '\U{0C}', '\U{85}', '\U{A0}', '\U{1680}'}
    || c in {'\U{2028}', '\U{2029}', '\U{202F}', '\U{205F}', '\U{3000}'} || 0x2000 <= c as int <= 0x200A
  }

  lemma WhiteIsSpace(c: char)
    ensures IsSpace(c) <==> White(c)
  {
  }

  /** A token is what stands between white space, at the end but for white space after it. */
  ghost predicate EndsInToken(s: string, token: string) {
    exists before, blanks :: TokenParts(before, token, blanks) && s == before + token + blanks
  }

  predicate TokenParts(before: string, token: string, blanks: string) {
    && (before == "" || White(before[|before| - 1])) && token != "" &&
        (forall i :: 0 <= i < |token| ==> !White(token[i]))
    && forall i :: 0 <= i < |blanks| ==> White(blanks[i])
  }

  lemma {:induction false} TrailingIs(before: string, token: string)
    requires (before == "" || IsSpace(before[|before| - 1])) && forall i :: 0 <= i < |token| ==> !IsSpace(token[i])
    ensures Trailing(before + token) == token
  {
    var s := before + token;
    if token == "" {
      assert s == before;
    } else {
      var front := token[..|token| - 1];
      TrailingIs(before, front);
      assert s[..|s| - 1] == before + front && s[|s| - 1] == token[|token| - 1];
    }
  }

  lemma {:induction false} TokenIs(before: string, token: string, blanks: string)
    requires TokenParts(before, token, blanks)
    ensures LastToken(before + token + blanks) == token
  {
    var s := before + token + blanks;
    forall c ensures IsSpace(c) <==> White(c) { WhiteIsSpace(c); }
    if blanks == "" {
      assert s == before + token && s[|s| - 1] == token[|token| - 1];
      TrailingIs(before, token);
    } else {
      var fewer := blanks[..|blanks| - 1];
      TokenIs(before, token, fewer);
      assert s[..|s| - 1] == before + token + fewer && s[|s| - 1] == blanks[|blanks| - 1];
    }
  }

  lemma NoBlanks(before: string, token: string, blanks: string)
    requires TokenParts(before, token, blanks) && !White((before + token + blanks)[|before + token + blanks| - 1])
    ensures blanks == ""
  {
    if blanks != "" {
      LastOfBlanks(before + token, blanks);
    }
  }

  lemma LastOfBlanks(front: string, blanks: string)
    requires blanks != ""
    ensures (front + blanks)[|front + blanks| - 1] == blanks[|blanks| - 1]
  {
  }

  lemma WhiteEverywhere()
    ensures forall c :: IsSpace(c) <==> White(c)
  {
    forall c ensures IsSpace(c) <==> White(c) { WhiteIsSpace(c); }
  }

  lemma TokenStarts(front: string, last: char)
    requires (front == "" || White(front[|front| - 1])) && !White(last)
    ensures EndsInToken(front + [last], [last])
  {
    assert TokenParts(front, [last], "") && front + [last] == front + [last] + "";
  }

  lemma TokenGrows(front: string, token: string, last: char)
    requires EndsInToken(front, token) && front != "" && !White(front[|front| - 1]) && !White(last)
    ensures EndsInToken(front + [last], token + [last])
  {
    var before, blanks :| TokenParts(before, token, blanks) && front == before + token + blanks;
    NoBlanks(before, token, blanks);
    assert front + [last] == before + (token + [last]) + "";
    assert TokenParts(before, token + [last], "");
  }

  lemma {:induction false} TrailingSplits(s: string)
    requires s != "" && !IsSpace(s[|s| - 1])
    ensures Trailing(s) != "" && EndsInToken(s, Trailing(s))
  {
    WhiteEverywhere();
    var front, last := s[..|s| - 1], s[|s| - 1];
    assert s == front + [last];
    if front == "" || IsSpace(front[|front| - 1]) {
      TokenStarts(front, last);
      assert Trailing(s) == [last];
    } else {
      TrailingSplits(front);
      TokenGrows(front, Trailing(front), last);
    }
  }

  lemma {:induction false} TokenSplits(s: string)
    ensures LastToken(s) != "" ==> EndsInToken(s, LastToken(s))
  {
    if s != "" {
      var front, last := s[..|s| - 1], s[|s| - 1];
      WhiteIsSpace(last);
      if IsSpace(last) {
        TokenSplits(front);
        if LastToken(s) != "" {
          var before, blanks :| TokenParts(before, LastToken(front), blanks) &&
              front == before + LastToken(front) + blanks;
          assert s == before + LastToken(front) + (blanks + [last]);
          assert TokenParts(before, LastToken(s), blanks + [last]);
        }
      } else {
        TrailingSplits(s);
      }
    }
  }

  /** `split_whitespace().last()` is the token the string ends in. */
  lemma LastTokenExactly(s: string, token: string)
    ensures LastToken(s) == token && token != "" <==> EndsInToken(s, token)
  {
    if EndsInToken(s, token) {
      var before, blanks :| TokenParts(before, token, blanks) && s == before + token + blanks;
      TokenIs(before, token, blanks);
    }
    TokenSplits(s);
  }

  /** A `u32` as written: digits, with one plus sign or none in front, below 2^32. */
  predicate WrittenU32(token: string, sign: string, digits: string, v: nat) {
    && token == sign + digits && (sign == "" || sign == "+") && digits != "" && AllDigits(digits)
    && DecValue(digits) == v && v < 0x1_0000_0000
  }

  lemma U32Exactly(token: string, v: nat)
    ensures ParseU32(token) == Some(v) <==> exists sign, digits :: WrittenU32(token, sign, digits, v)
  {
    if ParseU32(token) == Some(v) {
      if token[0] == '+' {
        assert WrittenU32(token, "+", token[1..], v);
      } else {
        assert WrittenU32(token, "", token, v);
      }
    }
    if sign, digits :| WrittenU32(token, sign, digits, v) {
      if sign == "" {
        assert token == digits && IsDigit(token[0]);
      } else {
        assert token[1..] == digits;
      }
    }
  }

  /** A space in front, a head without colon that ends in a `u32`, a colon and a space, ten columns, and anything. */
  ghost predicate RustTakes(line: string, idx: nat, m: Mask) {
    exists head, cols, rest :: RustParts(head, cols, idx, m) && line == RustLine(head, cols, rest)
  }

  ghost predicate RustParts(head: string, cols: string, idx: nat, m: Mask) {
    head != "" && head[0] == ' ' && ':' !in head && ShowsMask(cols, m) && EndsInU32(head, idx)
  }

  function RustLine(head: string, cols: string, rest: string): string { head + ": " + cols + rest }

  ghost predicate EndsInU32(head: string, idx: nat) {
    exists token, sign, digits :: EndsInToken(head, token) && WrittenU32(token, sign, digits, idx)
  }

  lemma HeadReads(head: string, idx: nat)
    ensures ParseU32(LastToken(head)) == Some(idx) <==> EndsInU32(head, idx)
  {
    var token := LastToken(head);
    U32Exactly(token, idx);
    LastTokenExactly(head, token);
    if EndsInU32(head, idx) {
      var t, sign, digits :| EndsInToken(head, t) && WrittenU32(t, sign, digits, idx);
      LastTokenExactly(head, t);
    }
  }

  lemma RustLineStands(head: string, cols: string, rest: string)
    requires head != "" && ':' !in head && |cols| == 10
    ensures var (line, colon) := (RustLine(head, cols, rest), |head|);
            && colon + 12 <= |line| && line[0] == head[0] && line[..colon] == head && line[colon] == ':'
            && line[colon + 1] == ' ' && line[colon + 2..colon + 12] == cols && forall j :: 0 <= j < colon ==>
                line[j] != ':'
  {
    var line, colon := RustLine(head, cols, rest), |head|;
    assert line == head + (": " + (cols + rest));
    assert forall j :: 0 <= j < colon ==> line[j] == head[j];
  }

  lemma RustLineReads(head: string, cols: string, rest: string, idx: nat, m: Mask)
    requires RustParts(head, cols, idx, m)
    ensures RustRow(RustLine(head, cols, rest)) == Some((idx, m))
  {
    var line, colon := RustLine(head, cols, rest), |head|;
    RustLineStands(head, cols, rest);
    ColonAt(line, colon);
    ColumnsAre(line, colon + 2, m);
    HeadReads(head, idx);
    RustRowFrom(line, colon, head, m);
  }

  lemma RustLineSplits(line: string, idx: nat, m: Mask)
    requires RustRow(line) == Some((idx, m))
    ensures RustTakes(line, idx, m)
  {
    var colon := ColonFrom(line, 0);
    ColumnsAre(line, colon + 2, m);
    var head, cols, rest := line[..colon], line[colon + 2..colon + 12], line[colon + 12..];
    HeadReads(head, idx);
    RustReassembled(line, colon);
    assert RustParts(head, cols, idx, m);
  }

  lemma RustReassembled(line: string, colon: nat)
    requires colon + 12 <= |line| && line[colon] == ':' && line[colon + 1] == ' '
    ensures line == RustLine(line[..colon], line[colon + 2..colon + 12], line[colon + 12..])
  {
    assert line[colon..] == ": " + line[colon + 2..colon + 12] + line[colon + 12..];
    assert line == line[..colon] + line[colon..];
  }

  /** The Rust reader takes exactly these lines. */
  lemma RustTakesExactly(line: string, idx: nat, m: Mask)
    ensures RustRow(line) == Some((idx, m)) <==> RustTakes(line, idx, m)
  {
    if RustTakes(line, idx, m) {
      var head, cols, rest :| RustParts(head, cols, idx, m) && line == RustLine(head, cols, rest);
      RustLineReads(head, cols, rest, idx, m);
    }
    if RustRow(line) == Some((idx, m)) {
      RustLineSplits(line, idx, m);
    }
  }
}
