/** The liveness claim and the kernel's liveness table as text: what the harness prints and what
    three readers make of it. */
module Claim {
  import opened Isa
  import opened Bits
  import opened Dataflow

  // ---- the claim: three hex digits an instruction ---------------------------------------------------

  /** The bits of m from r upwards, as a number with bit r lowest. */
  function BitsFrom(m: Mask, r: nat): (v: nat)
    requires r <= 10
    ensures v < Pow2(10 - r)
    decreases 10 - r
  {
    if r == 10 then 0 else (if r in m then 1 else 0) + 2 * BitsFrom(m, r + 1)
  }

  /** A tracked mask as a number. */
  function MaskValue(m: Mask): (v: nat)
    ensures v < 1024
  {
    assert Pow2(10) == 1024;
    BitsFrom(m, 0)
  }

  /** The tracked bits of a number: `m & 0x03ff`. */
  function BitsOf(v: nat): Mask {
    set r | r in TRACKED && BitSet(v, r)
  }

  function HexChar(d: nat): char
    requires d < 16
  {
    if d < 10 then '0' + d as char else 'a' + (d - 10) as char
  }

  function HexDigit(c: char): Option<nat> {
    if '0' <= c <= '9' then Some(c as int - '0' as int)
    else if 'a' <= c <= 'f' then Some(c as int - 'a' as int + 10)
    else if 'A' <= c <= 'F' then Some(c as int - 'A' as int + 10)
    else None
  }

  /** `%03x`. */
  function Hex3Of(v: nat): string
    requires v < 1024
  {
    [HexChar(v / 256), HexChar(v / 16 % 16), HexChar(v % 16)]
  }

  function Hex3(m: Mask): string { Hex3Of(MaskValue(m)) }

  function ClaimText(masks: seq<Mask>): string {
    if masks == [] then "" else ClaimText(masks[..|masks| - 1]) + Hex3(masks[|masks| - 1])
  }

  /** The mask field of `bpflive_print_claim`. */
  method PrintClaim(masks: seq<Mask>) returns (text: string)
    ensures text == ClaimText(masks)
  {
    text := "";
    for i := 0 to |masks|
      invariant text == ClaimText(masks[..i])
    {
      assert masks[..i + 1][..i] == masks[..i];
      text := text + Hex3(masks[i]);
    }
    assert masks[..|masks|] == masks;
  }

  /** Hex digits as a number, most significant first. */
  function HexValue(s: string): Option<nat> {
    if s == "" then Some(0)
    else
      match (HexValue(s[..|s| - 1]), HexDigit(s[|s| - 1]))
      case (Some(v), Some(d)) => Some(16 * v + d)
      case _ => None
  }

  /** `u16::from_str_radix(_, 16)` on a short string: one leading `+` is allowed, no digits are not. */
  function FromStrRadix16(s: string): Option<nat> {
    var digits := if s != "" && s[0] == '+' then s[1..] else s;
    if digits == "" then None else HexValue(digits)
  }

  function Chunk(hex: string, i: nat): string
    requires 3 * i + 3 <= |hex|
  {
    hex[3 * i..3 * i + 3]
  }

  /** The claim of an `ok` line, refused when short, ragged or not hex. */
  function ReadClaim(hex: string, n: nat): Option<seq<Mask>> {
    if n > 0 && |hex| == 3 * n && forall i :: 0 <= i < n ==> FromStrRadix16(Chunk(hex, i)).Some? then
      Some(seq(n, i requires 0 <= i < n => BitsOf(FromStrRadix16(Chunk(hex, i)).value)))
    else None
  }

  /** The claim half of `parse_liveness_gate`. */
  method ParseClaim(hex: string, n: nat) returns (claim: Option<seq<Mask>>)
    ensures claim == ReadClaim(hex, n)
  {
    if !(n > 0 && |hex| == 3 * n) {
      return None;
    }
    var v: seq<Mask> := [];
    for i := 0 to n
      invariant |v| == i
      invariant forall j :: 0 <= j < i ==> FromStrRadix16(Chunk(hex, j)).Some?
      invariant forall j :: 0 <= j < i ==> v[j] == BitsOf(FromStrRadix16(Chunk(hex, j)).value)
    {
      var m := FromStrRadix16(hex[3 * i..3 * i + 3]);
      assert hex[3 * i..3 * i + 3] == Chunk(hex, i);
      if m.None? {
        return None;
      }
      v := v + [BitsOf(m.value)];
    }
    assert v == ReadClaim(hex, n).value;
    return Some(v);
  }

  datatype Reading = NoClaim | Bit(live: bool) | Raises

  /** A Python slice stops at the end of the string. */
  function Slice(s: string, lo: nat, hi: nat): string {
    if lo >= |s| || lo >= hi then "" else if hi > |s| then s[lo..] else s[lo..hi]
  }

  /** `live_bit`: no answer outside frame 0, outside r0..r9, or past the stated count.  It trusts that
      count: where the digits give out, `int` raises. */
  function LiveBit(hex: string, n: nat, insn: nat, frame: nat, reg: nat): Reading {
    if frame != 0 || reg >= 10 || insn >= n then NoClaim
    else
      var digits := Slice(hex, 3 * insn, 3 * insn + 3);
      match HexValue(digits)
      case Some(v) => if digits == "" then Raises else Bit(BitSet(v, reg))
      case None => Raises
  }

  lemma {:induction false} BitsFromReadsBack(m: Mask, r: nat, k: nat)
    requires r + k < 10
    ensures BitSet(BitsFrom(m, r), k) <==> r + k in m
    decreases k
  {
    if k > 0 {
      BitsFromReadsBack(m, r + 1, k - 1);
      assert BitsFrom(m, r) / 2 == BitsFrom(m, r + 1);
    }
  }

  lemma MaskBits(m: Mask)
    requires m <= TRACKED
    ensures BitsOf(MaskValue(m)) == m
  {
    forall r | r in TRACKED ensures BitSet(MaskValue(m), r) <==> r in m {
      BitsFromReadsBack(m, 0, r);
    }
  }

  lemma HexDigitOfChar(d: nat)
    requires d < 16
    ensures HexDigit(HexChar(d)) == Some(d) && HexChar(d) != '+'
  {
  }

  lemma ThreeDigits(a: nat, b: nat, c: nat)
    requires a < 16 && b < 16 && c < 16
    ensures HexValue([HexChar(a), HexChar(b), HexChar(c)]) == Some(256 * a + 16 * b + c)
  {
    HexDigitOfChar(a);
    HexDigitOfChar(b);
    HexDigitOfChar(c);
    var s := [HexChar(a), HexChar(b), HexChar(c)];
    assert s[..2] == [HexChar(a), HexChar(b)] && [HexChar(a), HexChar(b)][..1] == [HexChar(a)] &&
           [HexChar(a)][..0] == "";
    assert HexValue([HexChar(a)]) == Some(a);
    assert HexValue([HexChar(a), HexChar(b)]) == Some(16 * a + b);
  }

  lemma Hex3ReadsBack(v: nat)
    requires v < 1024
    ensures HexValue(Hex3Of(v)) == Some(v) && FromStrRadix16(Hex3Of(v)) == Some(v)
  {
    HexSplit(v);
    ThreeDigits(v / 256, v / 16 % 16, v % 16);
    HexDigitOfChar(v / 256);
    assert Hex3Of(v)[0] != '+';
  }

  lemma HexSplit(v: nat)
    ensures 256 * (v / 256) + 16 * (v / 16 % 16) + v % 16 == v
  {
  }

  lemma ChunkOfAppend(a: string, b: string, i: nat)
    requires |b| == 3 && |a| % 3 == 0 && 3 * i <= |a|
    ensures Chunk(a + b, i) == if 3 * i == |a| then b else Chunk(a, i)
  {
  }

  lemma {:induction false} ClaimLength(masks: seq<Mask>)
    ensures |ClaimText(masks)| == 3 * |masks|
  {
    if masks != [] {
      ClaimLength(masks[..|masks| - 1]);
    }
  }

  lemma {:induction false} ClaimChunkAt(masks: seq<Mask>, i: nat)
    requires i < |masks|
    ensures 3 * i + 3 <= |ClaimText(masks)| && Chunk(ClaimText(masks), i) == Hex3(masks[i])
  {
    var n := |masks| - 1;
    ClaimLength(masks);
    ClaimLength(masks[..n]);
    ChunkOfAppend(ClaimText(masks[..n]), Hex3(masks[n]), i);
    if i < n {
      ClaimChunkAt(masks[..n], i);
    }
  }

  lemma ClaimChunks(masks: seq<Mask>)
    ensures |ClaimText(masks)| == 3 * |masks|
    ensures forall i :: 0 <= i < |masks| ==> Chunk(ClaimText(masks), i) == Hex3(masks[i])
  {
    ClaimLength(masks);
    forall i | 0 <= i < |masks| ensures Chunk(ClaimText(masks), i) == Hex3(masks[i]) {
      ClaimChunkAt(masks, i);
    }
  }

  /** Reading the printed claim gives the analysis masks back. */
  lemma ClaimRoundTrip(masks: seq<Mask>)
    requires masks != [] && forall i :: 0 <= i < |masks| ==> masks[i] <= TRACKED
    ensures ReadClaim(ClaimText(masks), |masks|) == Some(masks)
  {
    var text := ClaimText(masks);
    ClaimChunks(masks);
    forall i | 0 <= i < |masks|
      ensures FromStrRadix16(Chunk(text, i)).Some? && BitsOf(FromStrRadix16(Chunk(text, i)).value) == masks[i]
    {
      Hex3ReadsBack(MaskValue(masks[i]));
      MaskBits(masks[i]);
    }
    assert ReadClaim(text, |masks|).Some?;
    assert ReadClaim(text, |masks|).value == masks;
  }

  /** The Python reader finds the same bits in it. */
  lemma LiveBitReadsTheClaim(masks: seq<Mask>, insn: nat, reg: nat)
    requires (forall i :: 0 <= i < |masks| ==> masks[i] <= TRACKED) && insn < |masks| && reg < 10
    ensures LiveBit(ClaimText(masks), |masks|, insn, 0, reg) == Bit(reg in masks[insn])
  {
    ClaimChunks(masks);
    assert Slice(ClaimText(masks), 3 * insn, 3 * insn + 3) == Chunk(ClaimText(masks), insn);
    Hex3ReadsBack(MaskValue(masks[insn]));
    BitsFromReadsBack(masks[insn], 0, reg);
  }

  predicate AllHex(s: string) {
    forall i :: 0 <= i < |s| ==> HexDigit(s[i]).Some?
  }

  lemma {:induction false} HexReads(s: string)
    requires AllHex(s)
    ensures HexValue(s).Some?
  {
    if s != "" {
      HexReads(s[..|s| - 1]);
    }
  }

  /** A claim shorter than its count is not noticed until a digitless instruction is asked for. */
  lemma LiveBitRaisesIff(hex: string, n: nat, insn: nat, reg: nat)
    requires AllHex(hex) && insn < n && reg < 10
    ensures LiveBit(hex, n, insn, 0, reg) == Raises <==> |hex| <= 3 * insn
  {
    HexReads(Slice(hex, 3 * insn, 3 * insn + 3));
  }

  // ---- what a claim may look like ---------------------------------------------------------------------

  /** A hex digit, either case. */
  predicate IsHex(c: char) { '0' <= c <= '9' || 'a' <= c <= 'f' || 'A' <= c <= 'F' }

  function DigitOf(c: char): nat
    requires IsHex(c)
  {
    if c <= '9' then c as int - 48 else if c <= 'F' then c as int - 55 else c as int - 87
  }

  /** Three digits, or a plus sign and two, and the number they spell. */
  predicate Spells(chunk: string, v: nat) {
    && |chunk| == 3 && IsHex(chunk[1]) && IsHex(chunk[2])
    && (IsHex(chunk[0]) || chunk[0] == '+')
    && v == 16 * DigitOf(chunk[1]) + DigitOf(chunk[2]) + if chunk[0] == '+' then 0 else 256 * DigitOf(chunk[0])
  }

  lemma HexDigitIs(c: char)
    ensures HexDigit(c) == if IsHex(c) then Some(DigitOf(c)) else None
  {
  }

  lemma HexTwo(s: string)
    requires |s| == 2
    ensures HexValue(s) == if IsHex(s[0]) && IsHex(s[1]) then Some(16 * DigitOf(s[0]) + DigitOf(s[1])) else None
  {
    HexDigitIs(s[0]);
    HexDigitIs(s[1]);
    assert s[..1] == [s[0]] && [s[0]][..0] == "";
    assert HexValue([s[0]]) == if IsHex(s[0]) then Some(DigitOf(s[0])) else None;
  }

  lemma HexThree(s: string)
    requires |s| == 3
    ensures HexValue(s) ==
            if IsHex(s[0]) && IsHex(s[1]) && IsHex(s[2]) then
              Some(256 * DigitOf(s[0]) + 16 * DigitOf(s[1]) + DigitOf(s[2]))
            else None
  {
    HexTwo(s[..2]);
    HexDigitIs(s[2]);
    assert s[..2][0] == s[0] && s[..2][1] == s[1];
  }

  lemma ChunkReads(chunk: string, v: nat)
    requires |chunk| == 3
    ensures FromStrRadix16(chunk) == Some(v) <==> Spells(chunk, v)
  {
    HexTwo(chunk[1..]);
    HexThree(chunk);
    assert !IsHex('+');
  }

  /** The mask's registers are the bits of v below ten. */
  predicate IsMaskOf(v: nat, m: Mask) { m == set r | 0 <= r < 10 && BitSet(v, r) }

  ghost predicate ReadsChunk(chunk: string, m: Mask) {
    exists v :: Spells(chunk, v) && IsMaskOf(v, m)
  }

  lemma ChunkMask(chunk: string, m: Mask)
    requires |chunk| == 3
    ensures FromStrRadix16(chunk).Some? && BitsOf(FromStrRadix16(chunk).value) == m <==> ReadsChunk(chunk, m)
  {
    if FromStrRadix16(chunk).Some? {
      ChunkReads(chunk, FromStrRadix16(chunk).value);
    }
    if v :| Spells(chunk, v) && IsMaskOf(v, m) {
      ChunkReads(chunk, v);
    }
  }

  /** A claim of n instructions is read exactly when its text is n times three such characters, and then register
      r is live before instruction i exactly when bit r of the i-th number is set, for r below ten. */
  lemma ClaimReadsIff(hex: string, n: nat, masks: seq<Mask>)
    ensures ReadClaim(hex, n) == Some(masks) <==>
            && n > 0 && |hex| == 3 * n && |masks| == n
            && forall i :: 0 <= i < n ==> ReadsChunk(hex[3 * i..3 * i + 3], masks[i])
  {
    if n > 0 && |hex| == 3 * n && |masks| == n {
      forall i | 0 <= i < n
        ensures ReadsChunk(hex[3 * i..3 * i + 3], masks[i]) <==>
                FromStrRadix16(Chunk(hex, i)).Some? && BitsOf(FromStrRadix16(Chunk(hex, i)).value) == masks[i]
      {
        ChunkMask(Chunk(hex, i), masks[i]);
      }
      if forall i :: 0 <= i < n ==> ReadsChunk(hex[3 * i..3 * i + 3], masks[i]) {
        assert forall i :: 0 <= i < n ==> FromStrRadix16(Chunk(hex, i)).Some?;
        assert ReadClaim(hex, n).value == masks;
      }
    }
  }

  /** The claim is printed in lower-case digits. */
  lemma {:induction false} ClaimIsLowerHex(masks: seq<Mask>)
    ensures forall i :: 0 <= i < |ClaimText(masks)| ==>
              '0' <= ClaimText(masks)[i] <= '9' || 'a' <= ClaimText(masks)[i] <= 'f'
  {
    if masks != [] {
      ClaimIsLowerHex(masks[..|masks| - 1]);
    }
  }

  /** The Python reader on hex text: no answer for another frame, another register, or an instruction past the
      count; an error where no digit is left; else the bit of the number the digits spell. */
  lemma LiveBitExactly(hex: string, n: nat, insn: nat, frame: nat, reg: nat)
    requires AllHex(hex)
    ensures var got := LiveBit(hex, n, insn, frame, reg);
            if frame != 0 || reg > 9 || insn >= n then got == NoClaim
            else if |hex| <= 3 * insn then got == Raises
            else
              var v := HexValue(hex[3 * insn..if |hex| < 3 * insn + 3 then |hex| else 3 * insn + 3]);
              v.Some? && got == Bit(BitSet(v.value, reg))
  {
    HexReads(Slice(hex, 3 * insn, 3 * insn + 3));
  }
}
