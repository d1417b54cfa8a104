/** Fresh ids are numbers from 2^20 + 1 on, and nothing keeps a printed id off them.  Which ids that
    makes unsafe, exactly. */
module Clash {
  import opened Isa
  import opened Bits
  import opened Domains
  import opened IdMap
  import opened Subsume
  import opened Refinement
  import opened Meaning
  import opened Soundness

  /** A number that can be handed out while another register still carries it: of 24 registers at
      most 23 are then fresh. */
  predicate HandedOut(n: nat) { MAX_ID < n < MAX_ID + MAX_ROWS }

  /** Apart from n the current side carries no such number, flags cleared. */
  predicate ClearBut(cur: seq<Reg>, n: nat) {
    forall c :: c in cur ==>
      (HandedOut(Base(c.id)) ==> Base(c.id) == n) && (HandedOut(Base(c.pid)) ==> Base(c.pid) == n)
  }

  /** The evaluator agrees although the current side admits values the old one does not. */
  ghost predicate Unsound(old_: seq<Reg>, cur: seq<Reg>, exact: nat) {
    && CEval(old_, cur, exact, Nothing).verdict == Agree
    && exists val, bases :: CurAdmitsWith(JoinedPair(old_, cur), exact, val, bases) && !OldAdmits(old_, cur, exact, val)
  }

  ghost predicate OldAdmits(old_: seq<Reg>, cur: seq<Reg>, exact: nat, val: Valuation) {
    exists bases :: OldAdmitsWith(JoinedPair(old_, cur), exact, val, bases)
  }

  // ---- clear of the numbers -----------------------------------------------------------------------

  lemma BaseOfNumber(id: u32)
    requires id < FLAG_UNIT
    ensures Base(id) == id
  {
  }

  /** A real id leaves at least one register that is not fresh. */
  lemma {:induction false} RealLeavesOneOut(rows: seq<Joined>, exact: nat, p: (nat, Token))
    requires p in AllTokens(rows, exact) && p.1.Real?
    ensures FreshCount(rows, exact) < |rows|
  {
    var j :| j in rows && j.1.Some? && p in Tokens(j.0, j.1.value, exact);
    assert rows == [rows[0]] + rows[1..];
    if j != rows[0] {
      assert p in AllTokens(rows[1..], exact);
      RealLeavesOneOut(rows[1..], exact, p);
    }
  }

  /** The id behind a real token. */
  lemma RealIsCarried(o: Reg, c: Reg, exact: nat, p: (nat, Token))
    requires p in Tokens(o, c, exact) && p.1.Real? && p.1.id < FLAG_UNIT
    ensures p.1.id == Base(c.id) || p.1.id == Base(c.pid)
  {
  }

  lemma ClearHasNoClash(old_: seq<Reg>, cur: seq<Reg>, exact: nat, n: nat)
    requires SideOk(old_) && ClearBut(cur, n) && !HandedOut(n)
    ensures NoClash(JoinedPair(old_, cur), exact, MAX_ID)
  {
    var rows := JoinedPair(old_, cur);
    JoinedPairOk(old_, cur);
    forall p | p in AllTokens(rows, exact) && p.1.Real?
      ensures !(MAX_ID < p.1.id <= MAX_ID + FreshCount(rows, exact))
    {
      RealLeavesOneOut(rows, exact, p);
      var j :| j in rows && j.1.Some? && p in Tokens(j.0, j.1.value, exact);
      if HandedOut(p.1.id) {
        RealIsCarried(j.0, j.1.value, exact, p);
      }
    }
  }

  // ---- every such number misleads ------------------------------------------------------------------

  /** Register i of a side, eight to a frame, with nothing known of its value. */
  function Scalar(i: nat, id: u32): (r: Reg)
    ensures r.frame == i / 8 && r.regno == i % 8 && r.id == id
  {
    UnknownScalar(i % 8, id).(frame := i / 8)
  }

  /** Old ids 1 to k, the last one twice. */
  function OldAt(k: nat, i: nat): Reg
    requires k < MAX_ROWS
  {
    Scalar(i, if i < k then i + 1 else k)
  }

  /** No current ids, but for the k-th fresh one on the last register. */
  function CurAt(k: nat, i: nat): Reg
    requires k < MAX_ROWS
  {
    Scalar(i, if i < k then 0 else MAX_ID + k)
  }

  lemma KeysAscend(i: nat, j: nat)
    requires i < j
    ensures 16 * (i / 8) + i % 8 < 16 * (j / 8) + j % 8
  {
    assert i == 8 * (i / 8) + i % 8 && j == 8 * (j / 8) + j % 8;
  }

  lemma AscendingIsOk(s: seq<Reg>)
    requires |s| <= MAX_ROWS && forall i :: 0 <= i < |s| ==> s[i].frame == i / 8 && s[i].regno == i % 8
    ensures StrictlySorted(s) && SideOk(s)
  {
    forall i, j | 0 <= i < j < |s| ensures KeyNo(s[i]) < KeyNo(s[j]) {
      KeysAscend(i, j);
    }
    forall i, j | 0 <= i < j < |s| ensures KeyOf(s[i]) != KeyOf(s[j]) {
      assert KeyNo(s[i]) < KeyNo(s[j]);
    }
  }

  lemma {:induction false} SortedStays(s: seq<Reg>)
    requires StrictlySorted(s)
    ensures SortByKey(s) == s
  {
    if s != [] {
      var front, x := s[..|s| - 1], s[|s| - 1];
      SortedStays(front);
      assert s == front + [x];
      assert front == [] || KeyNo(front[|front| - 1]) < KeyNo(x);
    }
  }

  lemma FindsItself(s: seq<Reg>, i: nat)
    requires StrictlySorted(s) && i < |s|
    ensures Find(s, KeyNo(s[i])) == Some(s[i])
  {
    FindMeans(s, KeyNo(s[i]));
    assert s[i] in s;
    var r := Find(s, KeyNo(s[i])).value;
    var j :| 0 <= j < |s| && s[j] == r;
  }

  lemma SortedJoin(old_: seq<Reg>, cur: seq<Reg>)
    requires StrictlySorted(old_) && StrictlySorted(cur) && |old_| == |cur|
    requires forall i :: 0 <= i < |cur| ==> KeyNo(old_[i]) == KeyNo(cur[i])
    ensures |JoinedPair(old_, cur)| == |cur|
    ensures forall i :: 0 <= i < |cur| ==> JoinedPair(old_, cur)[i] == (old_[i], Some(cur[i]))
  {
    SortedStays(old_);
    forall i | 0 <= i < |cur| ensures Find(cur, KeyNo(old_[i])) == Some(cur[i]) {
      FindsItself(cur, i);
    }
  }

  predicate Matched(rows: seq<Joined>, k: nat)
    requires k < MAX_ROWS
  {
    |rows| == k + 1 && forall i :: 0 <= i <= k ==> rows[i] == (OldAt(k, i), Some(CurAt(k, i)))
  }

  /** The two sides of the witness. */
  predicate Sides(old_: seq<Reg>, cur: seq<Reg>, k: nat) {
    && 1 <= k < MAX_ROWS && |old_| == |cur| == k + 1
    && forall i :: 0 <= i <= k ==> old_[i] == OldAt(k, i) && cur[i] == CurAt(k, i)
  }

  /** The pair's rows in walk order. */
  lemma WitnessRows(old_: seq<Reg>, cur: seq<Reg>, k: nat)
    requires Sides(old_, cur, k)
    ensures SideOk(old_) && SideOk(cur) && Matched(JoinedPair(old_, cur), k)
  {
    AscendingIsOk(old_);
    AscendingIsOk(cur);
    SortedJoin(old_, cur);
  }

  /** The n-th old id is paired with the n-th fresh number, the real one included. */
  lemma {:induction false} NumbersFollow(k: nat, i: nat, rows: seq<Joined>)
    requires 1 <= k < MAX_ROWS && i <= k + 1 && Matched(rows, k)
    ensures forall p :: p in AllPairs(rows[i..], 1, MAX_ID + if i <= k then i else k) ==> p.1 == MAX_ID + p.0
    decreases k + 1 - i
  {
    if i <= k {
      assert rows[i..][1..] == rows[i + 1..] && rows[i..][0] == rows[i];
      NumbersFollow(k, i + 1, rows);
      PairFollows(k, i);
    }
  }

  lemma PairFollows(k: nat, i: nat)
    requires 1 <= k < MAX_ROWS && i <= k
    ensures NeedsFresh(OldAt(k, i), CurAt(k, i), 1) <==> i < k
    ensures forall p :: p in Numbered(Tokens(OldAt(k, i), CurAt(k, i), 1), MAX_ID + i) ==> p.1 == MAX_ID + p.0
  {
    assert Flags(OldAt(k, i).id) == 0;
  }

  lemma ScalarsMatch(i: nat, o: u32, c: u32)
    requires o < FLAG_UNIT && c < FLAG_UNIT
    ensures LocalOk(Scalar(i, o), Scalar(i, c), 1)
  {
    ArcSubsetExact(TWO64, 0, TWO64 - 1, 0, TWO64 - 1);
    ArcSubsetExact(TWO32, 0, TWO32 - 1, 0, TWO32 - 1);
    WordSizes();
    FullMaskClears(0, 64);
    FullMaskClears(TWO64 - 1, 64);
  }

  lemma RowsAreLocal(rows: seq<Joined>, k: nat)
    requires 1 <= k < MAX_ROWS && Matched(rows, k)
    ensures AllLocalOk(rows, 1)
  {
    forall j | j in rows ensures j.1.Some? && LocalOk(j.0, j.1.value, 1) {
      var i :| 0 <= i <= k && rows[i] == j;
      ScalarsMatch(i, if i < k then i + 1 else k, if i < k then 0 else MAX_ID + k);
    }
  }

  lemma FollowingAgrees(rows: seq<Joined>, exact: nat, ids: IdState, n: nat)
    requires AllLocalOk(rows, exact) && ids.pairs == []
    requires forall p :: p in AllPairs(rows, exact, ids.tmp) ==> p.1 == n + p.0
    ensures Walk(Python, rows, exact, ids, Nothing).verdict == Agree
  {
    var all := AllPairs(rows, exact, ids.tmp);
    ShiftIsOneToOne(PairSet(ids.pairs), all, n);
    WalkMeans(rows, exact, ids, Nothing);
  }

  lemma ShiftIsOneToOne(none: set<(nat, nat)>, s: set<(nat, nat)>, n: nat)
    requires none == {} && forall p :: p in s ==> p.1 == n + p.0
    ensures OneToOne(none + s)
  {
    forall p | p in none + s ensures p.1 == n + p.0 {}
  }

  lemma RowsAgree(rows: seq<Joined>, k: nat)
    requires 1 <= k < MAX_ROWS && Matched(rows, k)
    ensures Walk(Python, rows, 1, FreshIds, Nothing).verdict == Agree
  {
    RowsAreLocal(rows, k);
    NumbersFollow(k, 0, rows);
    assert rows[0..] == rows;
    FollowingAgrees(rows, 1, FreshIds, MAX_ID);
  }

  /** The registers the shared old id links hold 0 and 5. */
  function Apart(k: nat): Valuation {
    key => if key == (k / 8, k % 8) then 5 else 0
  }

  lemma RowAdmits(k: nat, i: nat)
    requires 1 <= k < MAX_ROWS && i <= k
    ensures var x := Apart(k)(KeyOf(OldAt(k, i)));
            Holds(CurAt(k, i), x) && Linked(CurAt(k, i), x, map[MAX_ID + k := 5])
  {
    var x := Apart(k)(KeyOf(OldAt(k, i)));
    UnknownHoldsAnything(i % 8, CurAt(k, i).id, x);
    BaseOfNumber(MAX_ID + k);
  }

  lemma OldRefuses(rows: seq<Joined>, k: nat, bases: Bases)
    requires 1 <= k < MAX_ROWS && Matched(rows, k)
    ensures !OldAdmitsWith(rows, 1, Apart(k), bases)
  {
    assert rows[k - 1] in rows && rows[k] in rows;
    KeysAscend(k - 1, k);
    BaseOfNumber(k);
  }

  lemma CurAdmits(rows: seq<Joined>, k: nat)
    requires 1 <= k < MAX_ROWS && Matched(rows, k)
    ensures CurAdmitsWith(rows, 1, Apart(k), map[MAX_ID + k := 5])
  {
    forall j | j in rows && Compared(j.0, 1)
      ensures j.1.Some? && Holds(j.1.value, Apart(k)(KeyOf(j.0)))
      ensures Linked(j.1.value, Apart(k)(KeyOf(j.0)), map[MAX_ID + k := 5])
    {
      var i :| 0 <= i <= k && rows[i] == j;
      RowAdmits(k, i);
    }
  }

  lemma WitnessIsUnsound(old_: seq<Reg>, cur: seq<Reg>, k: nat)
    requires Sides(old_, cur, k)
    ensures Unsound(old_, cur, 1)
  {
    var rows := JoinedPair(old_, cur);
    WitnessRows(old_, cur, k);
    RowsAgree(rows, k);
    CWalkIsPyWalk(old_, cur, 1, Nothing);
    CurAdmits(rows, k);
    forall bases ensures !OldAdmitsWith(rows, 1, Apart(k), bases) {
      OldRefuses(rows, k, bases);
    }
    assert !OldAdmits(old_, cur, 1, Apart(k));
  }

  /** Some pair in which the number is the only one of its kind is taken for subsumed and is not. */
  ghost predicate Misleads(n: nat) {
    exists old_, cur, exact :: SideOk(old_) && SideOk(cur) && ClearBut(cur, n) && Unsound(old_, cur, exact)
  }

  lemma HandedOutMisleads(k: nat)
    requires 1 <= k < MAX_ROWS
    ensures Misleads(MAX_ID + k)
  {
    var old_ := seq(k + 1, i requires 0 <= i <= k => OldAt(k, i));
    var cur := seq(k + 1, i requires 0 <= i <= k => CurAt(k, i));
    assert Sides(old_, cur, k);
    WitnessRows(old_, cur, k);
    WitnessIsUnsound(old_, cur, k);
    WitnessIsClear(old_, cur, k);
  }

  /** A number is safe on the current side, in every pair clear of the others, if and only if it is not
      one that can be handed out. */
  lemma ClashExactly(n: nat)
    ensures Misleads(n) <==> HandedOut(n)
  {
    if HandedOut(n) {
      HandedOutMisleads(n - MAX_ID);
    } else {
      forall old_, cur, exact | SideOk(old_) && SideOk(cur) && ClearBut(cur, n) ensures !Unsound(old_, cur, exact) {
        ClearIsSound(old_, cur, exact, n);
      }
    }
  }

  lemma WitnessIsClear(old_: seq<Reg>, cur: seq<Reg>, k: nat)
    requires Sides(old_, cur, k)
    ensures ClearBut(cur, MAX_ID + k)
  {
    BaseOfNumber(MAX_ID + k);
    forall c | c in cur ensures (c.id == 0 || c.id == MAX_ID + k) && c.pid == 0 {
      var i :| 0 <= i <= k && cur[i] == c;
    }
  }

  lemma ClearIsSound(old_: seq<Reg>, cur: seq<Reg>, exact: nat, n: nat)
    requires SideOk(old_) && ClearBut(cur, n) && !HandedOut(n)
    ensures !Unsound(old_, cur, exact)
  {
    if Unsound(old_, cur, exact) {
      var val, bases :| CurAdmitsWith(JoinedPair(old_, cur), exact, val, bases) && !OldAdmits(old_, cur, exact, val);
      ClearHasNoClash(old_, cur, exact, n);
      AgreementIsSound(old_, cur, exact, Nothing, val, bases);
    }
  }
}
