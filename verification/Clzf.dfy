/** CLZF.cs: a second encoder and decoder of the same format. The encoder copies a literal run
    only when the run ends. */
module Clzf {
  import opened Sequences
  import opened LzfFormat
  import opened LzfEmit
  import opened LzfRepeat
  import opened LzfWorstCase
  import opened LzfParse
  import LzfCompress

  const TABLE_SIZE := 16384

  function Slot(hash: nat -> nat, hval: nat): (r: nat)
    ensures r < TABLE_SIZE
  {
    hash(hval) % TABLE_SIZE
  }

  /** FRST: both octets must be there, or the array access throws. */
  function First(input: seq<Octet>, iidx: nat): nat
    requires iidx + 1 < |input|
  {
    var high: nat := input[iidx];
    high * 256 + input[iidx + 1]
  }

  /** Writes the pending run of lit octets that ends at iidx. */
  method FlushRun(input: seq<Octet>, output: array<Octet>, oidx: nat, iidx: nat, lit: nat, ghost toks: seq<Token>)
    returns (oidx': nat, ghost toks': seq<Token>)
    requires 1 <= lit <= MAX_LIT && lit <= iidx <= |input| && oidx + lit + 1 <= output.Length
    requires Covers(toks, output[..][..oidx], input, iidx - lit)
    modifies output
    ensures oidx' == oidx + lit + 1
    ensures Stopped(toks', output[..][..oidx'], input, iidx)
    ensures lit == MAX_LIT ==> Covers(toks', output[..][..oidx'], input, iidx)
    ensures toks' == WithRun(toks, lit, input, iidx)
  {
    hide Encode, Expand;
    ghost var before := output[..][..oidx];
    oidx' := oidx;
    output[oidx'] := lit - 1;
    oidx' := oidx' + 1;
    var rest := -(lit as int);
    while rest != 0
      invariant 0 <= lit + rest && rest <= 0 && oidx' == oidx + 1 + lit + rest
      invariant output[..][..oidx'] == before + [lit - 1] + input[iidx - lit..iidx + rest]
    {
      ghost var done := output[..][..oidx'];
      output[oidx'] := input[iidx + rest];
      assert output[..][..oidx' + 1] == done + [input[iidx + rest]];
      oidx', rest := oidx' + 1, rest + 1;
    }
    RunStops(toks, before, lit, input, iidx);
    toks' := toks + [Literals(input[iidx - lit..iidx])];
  }

  /** The match extension: maxlen leaves the last two octets out. */
  method MatchLength(input: seq<Octet>, reference: nat, iidx: nat) returns (len: nat)
    requires iidx + 4 < |input| && LzfCompress.IsMatch(input, reference, iidx)
    ensures 3 <= len <= MAX_REF && iidx + len + 2 <= |input| && Repeats(input, reference, iidx, len)
    ensures Maximal(input, iidx, iidx - reference, len)
  {
    len := 2;
    var maxlen := |input| - iidx - len;
    maxlen := if maxlen > MAX_REF then MAX_REF else maxlen;
    RepeatsThree(input, reference, iidx);
    len := len + 1;
    while len < maxlen && input[reference + len] == input[iidx + len]
      invariant 3 <= len <= maxlen && Repeats(input, reference, iidx, len)
    {
      RepeatsOneMore(input, reference, iidx, len);
      len := len + 1;
    }
  }

  /** The table holds positions before iidx, or the zeros it starts with. */
  ghost predicate Positions(htab: seq<int>, iidx: int) {
    |htab| == TABLE_SIZE && forall i :: 0 <= i < |htab| ==> 0 <= htab[i] && (htab[i] < iidx || htab[i] == 0)
  }

  /** Reads the table at the hash of the next three octets and stores the position there. */
  method Probe(input: seq<Octet>, htab: array<int>, hash: nat -> nat, hval: nat, iidx: nat)
    returns (hval': nat, reference: nat)
    requires iidx + 2 < |input| && Positions(htab[..], iidx)
    modifies htab
    ensures hval' == LzfCompress.Next(hval, input[iidx + 2]) && htab.Length == TABLE_SIZE
    ensures reference == old(htab[..])[Slot(hash, hval')] && (reference < iidx || reference == 0)
    ensures htab[..] == old(htab[..])[Slot(hash, hval') := iidx] && Positions(htab[..], iidx + 1)
  {
    reference := htab[Slot(hash, LzfCompress.Next(hval, input[iidx + 2]))];
    hval' := Enter(input, htab, hash, hval, iidx);
  }

  /** Stores a position at the hash of its three octets. */
  method Enter(input: seq<Octet>, htab: array<int>, hash: nat -> nat, hval: nat, iidx: nat) returns (hval': nat)
    requires iidx + 2 < |input| && htab.Length == TABLE_SIZE
    modifies htab
    ensures hval' == LzfCompress.Next(hval, input[iidx + 2])
    ensures htab[..] == old(htab[..])[Slot(hash, hval') := iidx]
  {
    hval' := LzfCompress.Next(hval, input[iidx + 2]);
    htab[Slot(hash, hval')] := iidx;
  }

  lemma FreshTable(htab: seq<int>)
    requires |htab| == TABLE_SIZE && forall i :: 0 <= i < |htab| ==> htab[i] == 0
    ensures Positions(htab, 0)
  {
  }

  lemma PositionsLater(htab: seq<int>, iidx: int, later: int)
    requires Positions(htab, iidx) && iidx <= later
    ensures Positions(htab, later)
  {
  }

  /** The slot depends on the last three octets in hval alone. */
  ghost predicate ThreeOctets(hash: nat -> nat) {
    forall g: nat, h: nat :: g % 0x100_0000 == h % 0x100_0000 ==> Slot(hash, g) == Slot(hash, h)
  }

  /** The slot of the three octets at a position. */
  function SlotAt(input: seq<Octet>, hash: nat -> nat, iidx: nat): (r: nat)
    requires iidx + 2 < |input|
    ensures r < TABLE_SIZE
  {
    Slot(hash, LzfCompress.Two(LzfCompress.Two(input[iidx], input[iidx + 1]), input[iidx + 2]))
  }

  lemma NextRolls(input: seq<Octet>, hash: nat -> nat, hval: nat, iidx: nat)
    requires LzfCompress.Rolling(input, hval, iidx) && iidx + 2 < |input|
    ensures LzfCompress.Rolling(input, LzfCompress.Next(hval, input[iidx + 2]), iidx + 1)
    ensures ThreeOctets(hash) ==> Slot(hash, LzfCompress.Next(hval, input[iidx + 2])) == SlotAt(input, hash, iidx)
  {
    hide Slot;
    LzfCompress.NextBits(hval, input[iidx], input[iidx + 1], input[iidx + 2]);
  }

  /** What the end of a match does to the table. */
  ghost predicate Rehashed(input: seq<Octet>, hash: nat -> nat, htab: seq<int>, htab': seq<int>, hval: nat, end: nat) {
    && LzfCompress.Rolling(input, hval, end)
    && (ThreeOctets(hash) && |htab| == TABLE_SIZE && 2 <= end && end + 1 < |input| ==>
          htab' == htab[SlotAt(input, hash, end - 2) := end - 2][SlotAt(input, hash, end - 1) := end - 1])
  }

  /** The two table entries added at the end of a match. */
  method Rehash(input: seq<Octet>, htab: array<int>, hash: nat -> nat, end: nat) returns (hval: nat)
    requires 2 <= end && end + 2 <= |input| && Positions(htab[..], end)
    modifies htab
    ensures Positions(htab[..], end)
    ensures Rehashed(input, hash, old(htab[..]), htab[..], hval, end)
  {
    hide Slot, LzfCompress.Next, ThreeOctets;
    var iidx := end - 2;
    hval := First(input, iidx);
    NextRolls(input, hash, hval, iidx);
    hval := Enter(input, htab, hash, hval, iidx);
    iidx := iidx + 1;
    NextRolls(input, hash, hval, iidx);
    hval := Enter(input, htab, hash, hval, iidx);
  }

  /** A match: the pending run first, then the back reference. */
  method PutMatch(input: seq<Octet>, output: array<Octet>, oidx: nat, iidx: nat, lit: nat, reference: nat,
                  ghost toks: seq<Token>)
    returns (iidx': nat, oidx': nat, ghost toks': seq<Token>)
    requires lit < MAX_LIT && lit <= iidx && iidx + 4 < |input| && LzfCompress.IsMatch(input, reference, iidx)
    requires oidx + lit + 1 + 3 < output.Length && Covers(toks, output[..][..oidx], input, iidx - lit)
    modifies output
    ensures iidx + 3 <= iidx' && iidx' + 2 <= |input|
    ensures 0 < oidx' < output.Length && Covers(toks', output[..][..oidx'], input, iidx')
    ensures iidx' - iidx <= MAX_REF && Maximal(input, iidx, iidx - reference, iidx' - iidx)
    ensures toks' == WithRun(toks, lit, input, iidx) + [BackRef(iidx - reference, iidx' - iidx)]
  {
    hide Encode, Expand, Apply, CopyBack, EncodeToken, Open, FullRuns, Covers, Stopped, Unpatched, Pending, Repeats, Maximal,
      WithRun, Saved, LzfCompress.IsMatch, Decode;
    MatchBounds(input, reference, iidx);
    oidx', toks' := oidx, toks;
    var len := MatchLength(input, reference, iidx);
    if lit != 0 {
      oidx', toks' := FlushRun(input, output, oidx', iidx, lit, toks');
    } else {
      NoRunLeft(toks, input, iidx);
      CoversAreStopped(toks, output[..][..oidx], input, iidx);
    }
    oidx', toks' := PutBackRef(output, oidx', iidx - reference - 1, len, toks', input, iidx);
    NothingPending(output[..], oidx', toks', input, iidx + len);
    oidx' := oidx' - 1;
    iidx' := iidx + len;
  }

  lemma MatchBounds(input: seq<Octet>, reference: nat, iidx: nat)
    requires iidx + 2 < |input| && LzfCompress.IsMatch(input, reference, iidx)
    ensures 0 < reference < iidx && iidx - reference - 1 < MAX_OFF
  {
  }

  lemma NothingPending(output: seq<Octet>, op: int, toks: seq<Token>, input: seq<Octet>, ip: int)
    requires Pending(output, op, 0, toks, input, ip)
    ensures 1 <= op <= |output| + 1 && Covers(toks, output[..op - 1], input, ip)
  {
  }

  /** The output size from which on no input of n octets is given up: all of it as literals, and
      the one octet to spare that the tests ask for. */
  function Needed(n: nat): (size: nat)
    ensures size > n
  {
    n + (n + 31) / 32 + 1
  }

  /** An input in which no candidate is ever accepted. */
  ghost predicate Costly(input: seq<Octet>) {
    NoRepeat(input, 1, |input| - 5)
  }

  /** On such an input everything is a literal: full runs of 32 are written, the rest is pending. */
  ghost predicate AllLiterals(input: seq<Octet>, iidx: nat, oidx: nat, lit: nat) {
    Costly(input) ==> oidx == 33 * (iidx / MAX_LIT) && lit == iidx % MAX_LIT
  }

  lemma LiteralsAtStart(input: seq<Octet>)
    ensures AllLiterals(input, 0, 0, 0)
  {
  }

  lemma OneLiteralMore(input: seq<Octet>, iidx: nat, oidx: nat, lit: nat)
    requires AllLiterals(input, iidx, oidx, lit) && lit < MAX_LIT
    ensures if lit + 1 < MAX_LIT then AllLiterals(input, iidx + 1, oidx, lit + 1) else AllLiterals(input, iidx + 1, oidx + 33, 0)
  {
    hide Costly;
  }

  lemma CoversFacts(toks: seq<Token>, written: seq<Octet>, input: seq<Octet>, upTo: int)
    requires Covers(toks, written, input, upTo)
    ensures 0 <= upTo <= |input| && 32 * |written| <= 33 * upTo
  {
  }

  lemma NoRunLeft(toks: seq<Token>, input: seq<Octet>, ip: nat)
    requires ip <= |input|
    ensures WithRun(toks, 0, input, ip) == toks
  {
  }

  lemma PositionsFacts(htab: seq<int>, iidx: int)
    requires Positions(htab, iidx)
    ensures |htab| == TABLE_SIZE
  {
  }

  lemma CoversAreStopped(toks: seq<Token>, written: seq<Octet>, input: seq<Octet>, upTo: int)
    requires Covers(toks, written, input, upTo)
    ensures Stopped(toks, written, input, upTo)
  {
  }

  /** Where the encoder gives up, the output was smaller than needed. */
  lemma RoomInside(n: nat, iidx: nat, oidx: nat, lit: nat)
    requires lit <= MAX_LIT && lit <= iidx <= n && 32 * oidx <= 33 * (iidx - lit)
    ensures lit > 0 ==> oidx + lit + 1 < Needed(n)
    ensures iidx + 4 < n ==> oidx + lit + 1 + 3 < Needed(n)
  {
  }

  /** When everything was a literal the encoder needs one octet more than it has written. */
  lemma LiteralsNeed(input: seq<Octet>, oidx: nat, lit: nat)
    requires AllLiterals(input, |input|, oidx, lit)
    ensures Costly(input) ==> oidx + (if lit > 0 then lit + 1 else 0) + 1 == Needed(|input|)
  {
    hide Costly;
  }

  /** Where a candidate is accepted the input is not costly, whatever the table holds. */
  lemma NotCostly(input: seq<Octet>, reference: nat, iidx: nat)
    requires iidx + 4 < |input| && LzfCompress.IsMatch(input, reference, iidx)
    ensures !Costly(input)
    ensures forall i: nat, o: nat, l: nat :: AllLiterals(input, i, o, l)
  {
    assert SameThree(input, reference, iidx);
  }

  // ---------- the parse is greedy ----------

  /** The slots of the three octets at every place where three stand. */
  ghost function Keys(input: seq<Octet>, hash: nat -> nat): (keys: seq<nat>)
    ensures |keys| == if |input| < 2 then 0 else |input| - 2
    ensures forall p :: 0 <= p < |keys| ==> keys[p] == SlotAt(input, hash, p) < TABLE_SIZE
  {
    hide SlotAt;
    seq(if |input| < 2 then 0 else |input| - 2, p requires 0 <= p && p + 2 < |input| => SlotAt(input, hash, p))
  }

  lemma KeysAreOfThree(input: seq<Octet>, hash: nat -> nat)
    ensures KeysOfThree(input, Keys(input, hash))
  {
    hide Slot;
  }

  /** At the head of the loop: the parse so far is greedy up to the last four octets, and the table
      holds what it entered. */
  ghost predicate Choosing(input: seq<Octet>, hash: nat -> nat, htab: seq<int>, hval: nat, marks: seq<Mark>) {
    ThreeOctets(hash) ==>
      && Greedy(input, Keys(input, hash), marks, true, 4)
      && (|marks| + 2 < |input| ==>
            LzfCompress.Rolling(input, hval, |marks|) && Tabled(htab, Keys(input, hash), marks, true))
  }

  lemma ChoosingAtStart(input: seq<Octet>, hash: nat -> nat, htab: seq<int>)
    requires |input| >= 2 && forall i :: 0 <= i < |htab| ==> htab[i] == 0
    ensures Choosing(input, hash, htab, First(input, 0), [])
  {
    hide ThreeOctets, Tabled;
    TabledAtStart(htab, Keys(input, hash), true);
  }

  lemma LiteralChosen(input: seq<Octet>, hash: nat -> nat, htab: seq<int>, hval: nat, hval': nat, marks: seq<Mark>)
    requires Choosing(input, hash, htab, hval, marks) && |marks| + 2 < |input| && |htab| == TABLE_SIZE
    requires hval' == LzfCompress.Next(hval, input[|marks| + 2])
    requires |marks| + 4 < |input| ==> Unusable(input, htab[Slot(hash, hval')], |marks|)
    ensures Choosing(input, hash, htab[Slot(hash, hval') := |marks|], hval', marks + [Single])
  {
    hide Slot, LzfCompress.Next, ThreeOctets, LzfCompress.Rolling, Tabled, Greedy, Unusable;
    if ThreeOctets(hash) {
      var keys := Keys(input, hash);
      NextRolls(input, hash, hval, |marks|);
      assert keys[|marks|] == Slot(hash, hval');
      TabledEnters(htab, keys, marks, Single, true);
      LiteralIsGreedy(input, htab, keys, marks, true, 4);
    }
  }

  lemma LastLiteralsChosen(input: seq<Octet>, hash: nat -> nat, htab: seq<int>, hval: nat, marks: seq<Mark>)
    requires Choosing(input, hash, htab, hval, marks) && |marks| + 2 >= |input|
    ensures Choosing(input, hash, htab, hval, marks + [Single])
  {
    hide ThreeOctets, LzfCompress.Rolling, Tabled, Greedy;
    if ThreeOctets(hash) {
      GreedyEnds(input, Keys(input, hash), marks, [Single], true, 4);
    }
  }

  lemma MatchChosen(input: seq<Octet>, hash: nat -> nat, htab: seq<int>, hval: nat, hval': nat, marks: seq<Mark>, ref: nat,
                    len: nat, htab': seq<int>, hval'': nat)
    requires Choosing(input, hash, htab, hval, marks) && |marks| + 4 < |input| && |htab| == TABLE_SIZE
    requires hval' == LzfCompress.Next(hval, input[|marks| + 2]) && ref == htab[Slot(hash, hval')]
    requires LzfCompress.IsMatch(input, ref, |marks|) && 3 <= len <= MAX_REF && |marks| + len + 2 <= |input|
    requires Maximal(input, |marks|, |marks| - ref, len)
    requires Rehashed(input, hash, htab[Slot(hash, hval') := |marks|], htab', hval'', |marks| + len)
    ensures Choosing(input, hash, htab', hval'', marks + MarksOf(BackRef(|marks| - ref, len)))
  {
    hide Slot, LzfCompress.Next, ThreeOctets, LzfCompress.Rolling, Tabled, Greedy, MarksOf, Maximal;
    if ThreeOctets(hash) {
      var keys, dist := Keys(input, hash), |marks| - ref;
      NextRolls(input, hash, hval, |marks|);
      assert keys[|marks|] == Slot(hash, hval');
      MatchLong(dist, len);
      MatchIsGreedy(input, htab, keys, marks, true, 4, dist, len);
      TabledByMatch(htab, keys, marks, dist, len, true);
    }
  }

  /** What the tokens so far say when the encoder stops. */
  ghost predicate Chosen(input: seq<Octet>, hash: nat -> nat, toks: seq<Token>) {
    && AllWellFormed(toks) && FullRuns(toks)
    && (ThreeOctets(hash) ==> Greedy(input, Keys(input, hash), Marks(toks), true, 4))
  }

  /** The tokens and the pending run, as the head of the loop has them. */
  ghost predicate Steady(input: seq<Octet>, hash: nat -> nat, htab: seq<int>, hval: nat, toks: seq<Token>, lit: nat, iidx: nat) {
    AllWellFormed(toks) && |PendingMarks(toks, lit)| == iidx && Choosing(input, hash, htab, hval, PendingMarks(toks, lit))
  }

  lemma SteadyAtStart(input: seq<Octet>, hash: nat -> nat, htab: seq<int>)
    requires |input| >= 2 && forall i :: 0 <= i < |htab| ==> htab[i] == 0
    ensures Steady(input, hash, htab, First(input, 0), [], 0, 0)
  {
    hide Choosing;
    ChoosingAtStart(input, hash, htab);
    assert Marks([]) + Singles(0) == [];
  }

  /** Closing a full run leaves the marks alone. */
  lemma SteadyFlush(input: seq<Octet>, hash: nat -> nat, htab: seq<int>, hval: nat, toks: seq<Token>, lit: nat, iidx: nat)
    requires Steady(input, hash, htab, hval, toks, lit, iidx) && lit <= iidx <= |input| && lit <= MAX_LIT
    ensures Steady(input, hash, htab, hval, WithRun(toks, lit, input, iidx), 0, iidx)
  {
    hide Choosing, Marks;
    WithRunFacts(toks, lit, input, iidx, 0);
    assert PendingMarks(toks, lit) + Singles(0) == PendingMarks(toks, lit);
  }

  lemma SteadyByLiteral(input: seq<Octet>, hash: nat -> nat, htab: seq<int>, hval: nat, hval': nat, toks: seq<Token>, lit: nat,
                        iidx: nat)
    requires Steady(input, hash, htab, hval, toks, lit, iidx) && iidx + 2 < |input| && |htab| == TABLE_SIZE
    requires hval' == LzfCompress.Next(hval, input[iidx + 2])
    requires iidx + 4 < |input| ==> Unusable(input, htab[Slot(hash, hval')], iidx)
    ensures Steady(input, hash, htab[Slot(hash, hval') := iidx], hval', toks, lit + 1, iidx + 1)
  {
    hide Choosing, Marks, Slot, LzfCompress.Next, Unusable;
    OneSingleMore(Marks(toks), lit);
    LiteralChosen(input, hash, htab, hval, hval', PendingMarks(toks, lit));
  }

  lemma SteadyByLastLiteral(input: seq<Octet>, hash: nat -> nat, htab: seq<int>, hval: nat, toks: seq<Token>, lit: nat, iidx: nat)
    requires Steady(input, hash, htab, hval, toks, lit, iidx) && iidx + 2 >= |input|
    ensures Steady(input, hash, htab, hval, toks, lit + 1, iidx + 1)
  {
    hide Choosing, Marks;
    OneSingleMore(Marks(toks), lit);
    LastLiteralsChosen(input, hash, htab, hval, PendingMarks(toks, lit));
  }

  lemma SteadyByMatch(input: seq<Octet>, hash: nat -> nat, htab: seq<int>, hval: nat, hval': nat, toks: seq<Token>, lit: nat,
                      iidx: nat, ref: nat, iidx': nat, toks': seq<Token>, htab': seq<int>, hval'': nat)
    requires Steady(input, hash, htab, hval, toks, lit, iidx) && iidx + 4 < |input| && |htab| == TABLE_SIZE
    requires lit <= iidx && lit <= MAX_LIT && iidx + 3 <= iidx' && iidx' + 2 <= |input| && iidx' - iidx <= MAX_REF
    requires hval' == LzfCompress.Next(hval, input[iidx + 2]) && ref == htab[Slot(hash, hval')]
    requires LzfCompress.IsMatch(input, ref, iidx) && Maximal(input, iidx, iidx - ref, iidx' - iidx)
    requires toks' == WithRun(toks, lit, input, iidx) + [BackRef(iidx - ref, iidx' - iidx)]
    requires Rehashed(input, hash, htab[Slot(hash, hval') := iidx], htab', hval'', iidx')
    ensures Steady(input, hash, htab', hval'', toks', 0, iidx')
  {
    hide Choosing, Marks, Slot, LzfCompress.Next, Maximal, Rehashed, MarksOf, WithRun;
    var t, all := BackRef(iidx - ref, iidx' - iidx), WithRun(toks, lit, input, iidx);
    LzfCompress.MatchInWindow(input, ref, iidx, iidx' - iidx);
    WithRunFacts(toks, lit, input, iidx, 0);
    AppendMarks(all, t);
    MatchLong(t.dist, t.len);
    MatchChosen(input, hash, htab, hval, hval', PendingMarks(toks, lit), ref, iidx' - iidx, htab', hval'');
    assert Marks(toks') + Singles(0) == Marks(toks');
  }

  /** The encoder stops, and the room left is no more than four octets. */
  lemma StopsAt(written: seq<Octet>, input: seq<Octet>, hash: nat -> nat, htab: seq<int>, hval: nat, toks: seq<Token>, lit: nat,
                iidx: nat, outLen: nat)
    requires Covers(toks, written, input, iidx - lit) && lit <= MAX_LIT && lit <= iidx <= |input|
    requires Steady(input, hash, htab, hval, toks, lit, iidx)
    ensures var all := WithRun(toks, lit, input, iidx);
            && Chosen(input, hash, all)
            && (|written| + (if lit > 0 then lit + 1 else 0) + 4 >= outLen ==> GaveUp(input, all, outLen))
  {
    hide Encode, Expand, Marks, ThreeOctets, Greedy, Tabled, LzfCompress.Rolling;
    WithRunFacts(toks, lit, input, iidx, 0);
    if lit > 0 {
      RunStops(toks, written, lit, input, iidx);
    }
  }

  method Compress(input: seq<Octet>, output: array<Octet>, hash: nat -> nat)
    returns (r: nat, ghost toks: seq<Token>)
    requires |input| >= 2
    modifies output
    ensures r != 0 ==> r < output.Length
                       && AllWellFormed(toks) && output[..r] == Encode(toks) && Expand(toks) == Some(input)
    ensures r <= MaxCompressedSize(|input|)
    ensures output.Length >= Needed(|input|) ==> r != 0
    ensures output.Length < Needed(|input|) && Costly(input) ==> r == 0
    ensures Chosen(input, hash, toks) && (r == 0 ==> GaveUp(input, toks, output.Length))
  {
    hide Encode, Expand, Repeats, Needed, Covers, Stopped, Costly, AllLiterals, First, Saved, Steady, Chosen, GaveUp,
      LzfCompress.Next, MaxCompressedSize, WellFormed, EncodeToken, Positions, Slot, Rehashed, Maximal, WithRun;
    r, toks := 0, [];
    var outLen := output.Length;
    var htab := new int[TABLE_SIZE](_ => 0);
    var iidx, oidx, lit := 0, 0, 0;
    CoversNothing(input);
    LiteralsAtStart(input);
    FreshTable(htab[..]);
    SteadyAtStart(input, hash, htab[..]);
    assert output[..][..0] == [];
    var hval := First(input, iidx);
    while true
      invariant 0 <= lit < MAX_LIT && lit <= iidx <= |input| && (oidx == 0 || oidx < outLen)
      invariant Covers(toks, output[..][..oidx], input, iidx - lit)
      invariant Positions(htab[..], iidx) && Steady(input, hash, htab[..], hval, toks, lit, iidx)
      invariant AllLiterals(input, iidx, oidx, lit)
      decreases |input| - iidx
    {
      CoversFacts(toks, output[..][..oidx], input, iidx - lit);
      ghost var toks0, htab0, hval0 := toks, htab[..], hval;
      StopsAt(output[..][..oidx], input, hash, htab[..], hval, toks, lit, iidx, outLen);
      if iidx < |input| - 2 {
        PositionsFacts(htab[..], iidx);
        var reference;
        hval, reference := Probe(input, htab, hash, hval, iidx);
        var off := iidx - reference - 1;
        if off < MAX_OFF && iidx + 4 < |input| && reference > 0
           && input[reference] == input[iidx]
           && input[reference + 1] == input[iidx + 1]
           && input[reference + 2] == input[iidx + 2] {
          NotCostly(input, reference, iidx);
          RoomInside(|input|, iidx, oidx, lit);
          if oidx + lit + 1 + 3 >= outLen {
            return 0, WithRun(toks, lit, input, iidx);
          }
          ghost var start, lit0, hval1 := iidx, lit, hval;
          iidx, oidx, toks := PutMatch(input, output, oidx, iidx, lit, reference, toks);
          lit := 0;
          PositionsLater(htab[..], start + 1, iidx);
          hval := Rehash(input, htab, hash, iidx);
          SteadyByMatch(input, hash, htab0, hval0, hval1, toks0, lit0, start, reference, iidx, toks, htab[..], hval);
          continue;
        }
        SteadyByLiteral(input, hash, htab0, hval0, hval, toks, lit, iidx);
      } else if iidx == |input| {
        break;
      }
      OneLiteralMore(input, iidx, oidx, lit);
      if iidx >= |input| - 2 {
        PositionsLater(htab[..], iidx, iidx + 1);
        SteadyByLastLiteral(input, hash, htab[..], hval, toks, lit, iidx);
      }
      lit, iidx := lit + 1, iidx + 1;
      RoomInside(|input|, iidx, oidx, lit);
      if lit == MAX_LIT {
        StopsAt(output[..][..oidx], input, hash, htab[..], hval, toks, lit, iidx, outLen);
        if oidx + 1 + MAX_LIT >= outLen {
          return 0, WithRun(toks, lit, input, iidx);
        }
        SteadyFlush(input, hash, htab[..], hval, toks, lit, iidx);
        oidx, toks := FlushRun(input, output, oidx, iidx, lit, toks);
        lit := 0;
      }
    }
    CoversFacts(toks, output[..][..oidx], input, iidx - lit);
    RoomInside(|input|, iidx, oidx, lit);
    LiteralsNeed(input, oidx, lit);
    StopsAt(output[..][..oidx], input, hash, htab[..], hval, toks, lit, iidx, outLen);
    if lit != 0 {
      if oidx + lit + 1 >= outLen {
        return 0, WithRun(toks, lit, input, iidx);
      }
      oidx, toks := FlushRun(input, output, oidx, iidx, lit, toks);
    } else {
      NoRunLeft(toks, input, |input|);
      CoversAreStopped(toks, output[..][..oidx], input, |input|);
    }
    SomethingWritten(toks, output[..][..oidx], input);
    assert output[..][..oidx] == output[..oidx];
    r := oidx;
  }

  // ---------- the decoder ----------

  /** What a call of lzf_decompress does: returns a number, or throws when it reads past the
      input. */
  datatype Outcome = Returned(n: nat) | Threw

  ghost predicate Matches(outcome: Outcome, d: Decoded, output: seq<Octet>) {
    match d
    case Ok(data) => |data| <= |output| && outcome == Returned(|data|) && output[..|data|] == data
    case Err(InputTruncated) => outcome == Threw
    case Err(_) => outcome == Returned(0)
  }

  /** One octet of a reference; both indices move on. */
  method CopyOne(output: array<Octet>, oidx: nat, reference: nat, ghost out: seq<Octet>, ghost n: nat)
    returns (oidx': nat, reference': nat)
    requires reference < oidx < output.Length && 1 <= oidx - reference <= |out|
    requires output[..oidx] == CopyBack(out, oidx - reference, n)
    modifies output
    ensures oidx' == oidx + 1 && reference' == reference + 1
    ensures output[..oidx'] == CopyBack(out, oidx - reference, n + 1)
  {
    ghost var done := output[..oidx];
    output[oidx] := output[reference];
    oidx', reference' := oidx + 1, reference + 1;
    assert output[..oidx'] == done + [done[|done| - (oidx - reference)]];
  }

  /** What one pass over the loop body must do; stop is set when the call ends there. */
  ghost predicate PassDone(step: Step, iidx: nat, iidx': nat, out': seq<Octet>, stop: bool, outcome: Outcome) {
    match step
    case Reject(InputTruncated) => stop && outcome == Threw
    case Reject(_) => stop && outcome == Returned(0)
    case Next(out, used) => !stop && iidx' == iidx + used && out' == out
  }

  method LiteralRun(input: seq<Octet>, iidx: nat, output: array<Octet>, oidx: nat, outLen: nat)
    returns (iidx': nat, oidx': nat, stop: bool, outcome: Outcome)
    requires iidx < |input| && input[iidx] < 32 && oidx <= outLen <= output.Length
    modifies output
    ensures oidx' <= outLen && iidx' <= |input|
    ensures PassDone(DecodeToken(input[iidx..], old(output[..oidx]), outLen), iidx, iidx', output[..oidx'], stop, outcome)
  {
    iidx', oidx', stop, outcome := iidx + 1, oidx, true, Returned(0);
    ghost var s, out := input[iidx..], output[..oidx];
    var n: nat := input[iidx] + 1;
    var ctrl := n;
    if oidx + ctrl > outLen {
      return;
    }
    while ctrl != 0
      invariant 0 <= ctrl <= n
      invariant iidx' == iidx + 1 + n - ctrl <= |input| && oidx' == oidx + n - ctrl
      invariant output[..oidx'] == out + s[1..iidx' - iidx]
    {
      if iidx' >= |input| {
        outcome := Threw;
        return;
      }
      ghost var done := output[..oidx'];
      output[oidx'] := input[iidx'];
      assert output[..oidx' + 1] == done + [s[iidx' - iidx]];
      iidx', oidx', ctrl := iidx' + 1, oidx' + 1, ctrl - 1;
    }
    stop := false;
  }

  method BackReference(input: seq<Octet>, iidx: nat, output: array<Octet>, oidx: nat, outLen: nat)
    returns (iidx': nat, oidx': nat, stop: bool, outcome: Outcome)
    requires iidx < |input| && input[iidx] >= 32 && oidx <= outLen <= output.Length
    modifies output
    ensures oidx' <= outLen && iidx' <= |input|
    ensures PassDone(DecodeToken(input[iidx..], old(output[..oidx]), outLen), iidx, iidx', output[..oidx'], stop, outcome)
  {
    iidx', oidx', stop, outcome := iidx + 1, oidx, true, Returned(0);
    hide CopyBack;
    var ctrl: nat := input[iidx];
    var len := ctrl / 32;
    var reference := oidx - ctrl % 32 * 256 - 1;
    if len == 7 {
      if iidx' >= |input| {
        outcome := Threw;
        return;
      }
      len := len + input[iidx'];
      iidx' := iidx' + 1;
    }
    if iidx' >= |input| {
      outcome := Threw;
      return;
    }
    reference := reference - input[iidx'];
    iidx' := iidx' + 1;
    if oidx + len + 2 > outLen {
      return;
    }
    if reference < 0 {
      return;
    }
    oidx' := CopyReference(output, oidx, reference, len);
    stop := false;
  }

  method CopyReference(output: array<Octet>, oidx: nat, reference: nat, len: nat) returns (oidx': nat)
    requires reference < oidx && oidx + len + 2 <= output.Length
    modifies output
    ensures oidx' == oidx + len + 2
    ensures output[..oidx'] == CopyBack(old(output[..oidx]), oidx - reference, len + 2)
  {
    hide CopyBack;
    ghost var out, dist := output[..oidx], oidx - reference;
    CopyBackNone(out, dist);
    var ref, left := reference, len;
    oidx', ref := CopyOne(output, oidx, ref, out, 0);
    oidx', ref := CopyOne(output, oidx', ref, out, 1);
    while left != 0
      invariant 0 <= left <= len && oidx' == oidx + 2 + len - left && oidx' - ref == dist
      invariant output[..oidx'] == CopyBack(out, dist, oidx' - oidx)
    {
      oidx', ref := CopyOne(output, oidx', ref, out, oidx' - oidx);
      left := left - 1;
    }
  }

  method Decompress(input: seq<Octet>, output: array<Octet>, outLen: nat) returns (outcome: Outcome)
    requires outLen <= output.Length
    modifies output
    ensures input == [] ==> outcome == Threw
    ensures input != [] ==> Matches(outcome, Decode(input, outLen), output[..])
    ensures outcome == Threw <==>
            input == [] || (Decode(input, outLen).Err? && exists more :: Decode(input + more, outLen) != Decode(input, outLen))
  {
    hide DecodeToken, DecodeFrom, PassDone, Matches;
    if input == [] {
      return Threw;
    }
    var iidx, oidx := 0, 0;
    while iidx < |input|
      invariant 0 <= iidx <= |input| && 0 <= oidx <= outLen
      invariant Decode(input, outLen) == DecodeFrom(input[iidx..], output[..oidx], outLen)
    {
      ghost var start, out := iidx, output[..oidx];
      var stop;
      if input[iidx] < 32 {
        iidx, oidx, stop, outcome := LiteralRun(input, iidx, output, oidx, outLen);
      } else {
        iidx, oidx, stop, outcome := BackReference(input, iidx, output, oidx, outLen);
      }
      PassDecodes(input[start..], out, outLen, start, iidx, output[..oidx], stop, outcome, output[..]);
      if stop {
        OnlyTruncatedThrows(outcome, input, outLen, output[..]);
        return;
      }
      assert input[start..][iidx - start..] == input[iidx..];
    }
    assert input[iidx..] == [] && output[..][..oidx] == output[..oidx];
    NothingDecoded(output[..oidx], outLen);
    outcome := Returned(oidx);
    AllDecoded(output[..], oidx, outLen);
    OnlyTruncatedThrows(outcome, input, outLen, output[..]);
  }

  lemma OnlyTruncatedThrows(outcome: Outcome, input: seq<Octet>, outLen: nat, output: seq<Octet>)
    requires Matches(outcome, Decode(input, outLen), output)
    ensures outcome == Threw <==>
            Decode(input, outLen).Err? && exists more :: Decode(input + more, outLen) != Decode(input, outLen)
  {
    hide DecodeFrom;
    TruncatedMeansCutOff(input, outLen);
  }

  /** One pass done, the fold goes on from the new state or has failed in the same way. */
  lemma PassDecodes(s: seq<Octet>, out: seq<Octet>, cap: nat, iidx: nat, iidx': nat, out': seq<Octet>, stop: bool,
                    outcome: Outcome, output: seq<Octet>)
    requires s != [] && |out| <= cap && PassDone(DecodeToken(s, out, cap), iidx, iidx', out', stop, outcome)
    ensures !stop ==>
              && iidx < iidx' <= iidx + |s| && |out'| <= cap
              && DecodeFrom(s, out, cap) == DecodeFrom(s[iidx' - iidx..], out', cap)
    ensures stop ==> Matches(outcome, DecodeFrom(s, out, cap), output)
  {
    hide DecodeToken;
  }

  lemma AllDecoded(output: seq<Octet>, n: nat, cap: nat)
    requires n <= cap <= |output|
    ensures Matches(Returned(n), Ok(output[..n]), output)
  {
  }
}
