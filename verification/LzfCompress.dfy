/** lzf_compress in its default build (VERY_FAST), for every hash function and for every
    initial content of the hash table. */
module LzfCompress {
  import opened Sequences
  import opened LzfFormat
  import opened LzfEmit
  import opened LzfRepeat
  import opened LzfWorstCase
  import opened LzfParse

  const HSIZE := 65536

  /** NEXT: the last three octets, in a 32-bit word that is never masked. */
  function Next(hval: nat, c: Octet): nat {
    (hval * 256 + c) % 0x1_0000_0000
  }

  /** FRST reads two octets; when only one is left the second is whatever memory holds. */
  function First(input: seq<Octet>, beyond: Octet, ip: nat): nat
    requires ip < |input|
  {
    input[ip] * 256 + if ip + 1 < |input| then input[ip + 1] else beyond
  }

  /** IDX masks any hash into the table. */
  function Slot(hash: nat -> nat, hval: nat): (r: nat)
    ensures r < HSIZE
  {
    hash(hval) % HSIZE
  }

  /** The candidate found in the table lies in the window and starts with the same three octets. */
  predicate IsMatch(input: seq<Octet>, ref: nat, ip: nat)
    requires ip + 2 < |input|
  {
    0 < ref < ip && ip - ref - 1 < MAX_OFF
    && input[ref + 2] == input[ip + 2] && input[ref] == input[ip] && input[ref + 1] == input[ip + 1]
  }

  /** The match extension: sixteen unrolled steps when maxlen allows them, then a loop. The
      result is the first mismatch, or the limit. */
  method MatchLength(input: seq<Octet>, ref: nat, ip: nat) returns (len: nat)
    requires ip + 2 < |input| && IsMatch(input, ref, ip)
    ensures 3 <= len <= MAX_REF && ip + len <= |input| && Repeats(input, ref, ip, len)
    ensures Maximal(input, ip, ip - ref, len)
  {
    len := 2;
    var maxlen := |input| - ip - len;
    maxlen := if maxlen > MAX_REF then MAX_REF else maxlen;
    RepeatsThree(input, ref, ip);
    if maxlen > 16 {
      for step := 0 to 16
        invariant len == 2 + step && Repeats(input, ref, ip, len + 1)
      {
        len := len + 1;
        if input[ref + len] != input[ip + len] {
          return;
        }
        RepeatsOneMore(input, ref, ip, len);
      }
    }
    len := len + 1;
    while len < maxlen && input[ref + len] == input[ip + len]
      invariant 3 <= len <= MAX_REF && Repeats(input, ref, ip, len)
    {
      RepeatsOneMore(input, ref, ip, len);
      len := len + 1;
    }
  }

  /** Reads the table at the hash of the next three octets and stores the position there. */
  method Probe(input: seq<Octet>, htab: array<nat>, hash: nat -> nat, hval: nat, ip: nat)
    returns (hval': nat, ref: nat)
    requires htab.Length == HSIZE && ip + 2 < |input|
    modifies htab
    ensures hval' == Next(hval, input[ip + 2])
    ensures ref == old(htab[Slot(hash, hval')]) && htab[..] == old(htab[..])[Slot(hash, hval') := ip]
  {
    hval' := Next(hval, input[ip + 2]);
    ref := htab[Slot(hash, hval')];
    htab[Slot(hash, hval')] := ip;
  }

  // ---------- how much room the encoder asks for ----------

  /** The output size from which on no input of n octets is given up, whatever the hash. */
  function Needed(n: nat): (size: nat)
    requires n > 0
    ensures size >= 4
  {
    if n <= 2 then 4 else if n <= 4 then n + 2 else n + 4 + (n - 4) / 32
  }

  /** LZF_MAX_COMPRESSED_SIZE never is enough, and misses by at most three octets. */
  lemma MacroFallsShort(n: nat)
    requires n > 0
    ensures MaxCompressedSize(n) < Needed(n) <= MaxCompressedSize(n) + 3
  {
  }

  /** IDX of the default build: a 32-bit product and a shift. */
  function Idx(h: nat): nat {
    h * 0x1e35a7bd % 0x1_0000_0000 / 256
  }

  /** The slot depends on the last three octets in hval alone. */
  ghost predicate ThreeOctets(hash: nat -> nat) {
    forall g: nat, h: nat :: g % 0x100_0000 == h % 0x100_0000 ==> Slot(hash, g) == Slot(hash, h)
  }

  /** The masked and shifted word is made of its low 24 bits. */
  lemma LowBits(x: nat)
    ensures x % 0x1_0000_0000 / 256 % HSIZE == x % 0x100_0000 / 256
  {
    var k, m := x / 0x100_0000, x % 0x100_0000;
    var q, s := k / 256, k % 256;
    assert x == 0x1_0000_0000 * q + (0x100_0000 * s + m);
    LastWord(0x100_0000 * s + m, q);
    ShiftedByte(s, m);
    LastTwo(m / 256, s);
  }

  lemma LastWord(t: nat, q: nat)
    requires t < 0x1_0000_0000
    ensures (0x1_0000_0000 * q + t) % 0x1_0000_0000 == t
  {
  }

  lemma ShiftedByte(s: nat, m: nat)
    requires m < 0x100_0000
    ensures (0x100_0000 * s + m) / 256 == 65536 * s + m / 256
    ensures m / 256 < 65536
  {
  }

  lemma IdxUsesThreeOctets()
    ensures ThreeOctets(Idx)
  {
    forall g: nat, h: nat | g % 0x100_0000 == h % 0x100_0000
      ensures Slot(Idx, g) == Slot(Idx, h)
    {
      ProductKeepsLowBits(g, h);
      LowBits(g * 0x1e35a7bd);
      LowBits(h * 0x1e35a7bd);
    }
  }

  lemma ProductKeepsLowBits(g: nat, h: nat)
    requires g % 0x100_0000 == h % 0x100_0000
    ensures g * 0x1e35a7bd % 0x100_0000 == h * 0x1e35a7bd % 0x100_0000
  {
    var low := g % 0x100_0000;
    var x: nat := low * 0x1e35a7bd;
    SameRemainder(x, g / 0x100_0000 * 0x1e35a7bd, g * 0x1e35a7bd);
    SameRemainder(x, h / 0x100_0000 * 0x1e35a7bd, h * 0x1e35a7bd);
  }

  lemma SameRemainder(x: nat, k: int, y: int)
    requires y == x + 0x100_0000 * k
    ensures y % 0x100_0000 == x % 0x100_0000
  {
    var t := x % 0x100_0000;
    LastOctets(t, x / 0x100_0000 + k);
    assert y == 0x100_0000 * (x / 0x100_0000 + k) + t;
  }

  /** Inputs that cost the most, for a hash of three octets: one match, at the very end. */
  ghost predicate Worst(input: seq<Octet>, hash: nat -> nat) {
    |input| <= 4 || (ThreeOctets(hash) && Costly(input, 1))
  }

  function Two(a: nat, b: nat): nat {
    a * 256 + b
  }

  /** The slot of the three octets at a position. */
  function SlotAt(input: seq<Octet>, hash: nat -> nat, ip: nat): (r: nat)
    requires ip + 2 < |input|
    ensures r < HSIZE
  {
    Slot(hash, Two(Two(input[ip], input[ip + 1]), input[ip + 2]))
  }

  /** hval holds the two octets at ip. */
  ghost predicate Rolling(input: seq<Octet>, hval: nat, ip: nat) {
    ip + 1 < |input| ==> hval % 65536 == Two(input[ip], input[ip + 1])
  }

  lemma NextBits(hval: nat, a: Octet, b: Octet, c: Octet)
    requires hval % 65536 == Two(a, b)
    ensures Next(hval, c) % 65536 == Two(b, c)
    ensures Next(hval, c) % 0x100_0000 == Two(Two(a, b), c) % 0x100_0000
  {
    hide Next;
    var k := NextIs(hval, c);
    LastOctets(Two(Two(a, b), c), k);
    TwoOfThree(a, b, c);
    LastTwo(Two(b, c), 256 * k + a);
  }

  lemma NextIs(hval: nat, c: Octet) returns (k: int)
    ensures Next(hval, c) == 0x100_0000 * k + (256 * (hval % 65536) + c)
  {
    var w: nat := hval * 256 + c;
    k := hval / 65536 - 256 * (w / 0x1_0000_0000);
  }

  lemma TwoOfThree(a: Octet, b: Octet, c: Octet)
    ensures Two(Two(a, b), c) == 65536 * a + Two(b, c) < 0x100_0000 && Two(b, c) < 65536
  {
  }

  lemma LastOctets(t: nat, k: int)
    requires t < 0x100_0000
    ensures (0x100_0000 * k + t) % 0x100_0000 == t == t % 0x100_0000
  {
  }

  lemma LastTwo(t: nat, k: int)
    requires t < 65536
    ensures (65536 * k + t) % 65536 == t
  {
  }

  lemma NextRolls(input: seq<Octet>, hash: nat -> nat, hval: nat, ip: nat)
    requires Rolling(input, hval, ip) && ip + 2 < |input|
    ensures Rolling(input, Next(hval, input[ip + 2]), ip + 1)
    ensures ThreeOctets(hash) ==> Slot(hash, Next(hval, input[ip + 2])) == SlotAt(input, hash, ip)
  {
    hide Slot;
    NextBits(hval, input[ip], input[ip + 1], input[ip + 2]);
  }

  /** What the end of a match does to the table. */
  ghost predicate Rehashed(input: seq<Octet>, hash: nat -> nat, htab: seq<nat>, htab': seq<nat>, hval: nat, end: nat) {
    && Rolling(input, hval, end)
    && (ThreeOctets(hash) && |htab| == HSIZE && 2 <= end && end + 1 < |input| ==>
          htab' == htab[SlotAt(input, hash, end - 2) := end - 2][SlotAt(input, hash, end - 1) := end - 1])
  }

  /** The two table entries VERY_FAST adds at the end of a match. */
  method Rehash(input: seq<Octet>, beyond: Octet, htab: array<nat>, hash: nat -> nat, end: nat) returns (hval: nat)
    requires htab.Length == HSIZE && 2 <= end < |input| - 2
    modifies htab
    ensures Rehashed(input, hash, old(htab[..]), htab[..], hval, end)
  {
    hide Slot, Next, ThreeOctets;
    var ip, old1, old2 := end - 2, 0, 0;
    hval := First(input, beyond, ip);
    NextRolls(input, hash, hval, ip);
    hval, old1 := Probe(input, htab, hash, hval, ip);
    NextRolls(input, hash, hval, ip + 1);
    hval, old2 := Probe(input, htab, hash, hval, ip + 1);
  }

  /** On such an input everything before the last match is a literal, and the position before
      ip is in the table. */
  ghost predicate AllLiterals(input: seq<Octet>, hash: nat -> nat, htab: seq<nat>, hval: nat, ip: nat, op: int, lit: int) {
    && op == 1 + ip + ip / MAX_LIT && lit == ip % MAX_LIT
    && (if |input| >= 5 then ip <= |input| - 3 else ip == 0 || ip <= |input| - 2)
    && Rolling(input, hval, ip)
    && (|input| >= 5 && ip > 0 ==> |htab| == HSIZE && htab[SlotAt(input, hash, ip - 1)] == ip - 1)
  }

  lemma MatchesOnlyAtTheEnd(input: seq<Octet>, hash: nat -> nat, htab: seq<nat>, hval: nat, ip: nat, op: int, lit: int)
    requires Worst(input, hash) && AllLiterals(input, hash, htab, hval, ip, op, lit)
    requires ip + 2 < |input| && |htab| == HSIZE
    ensures IsMatch(input, htab[Slot(hash, Next(hval, input[ip + 2]))], ip) <==> |input| >= 5 && ip == |input| - 3
  {
    hide Slot, Next, Rolling, ThreeOctets;
    if |input| >= 5 {
      NextRolls(input, hash, hval, ip);
      var ref := htab[SlotAt(input, hash, ip)];
      assert IsMatch(input, ref, ip) ==> SameThree(input, ref, ip);
      if ip == |input| - 3 {
        assert SlotAt(input, hash, ip) == SlotAt(input, hash, ip - 1);
      }
    }
  }

  /** The room used so far, at the head of the loop. */
  ghost predicate Paced(input: seq<Octet>, hash: nat -> nat, htab: seq<nat>, hval: nat, ip: nat, op: int, lit: int,
                        toks: seq<Token>)
  {
    && (if Saved(toks) == 4 then |input| >= 5 else Saved(toks) == 0 && (ip == 0 || ip <= |input| - 2))
    && (Worst(input, hash) ==>
          || AllLiterals(input, hash, htab, hval, ip, op, lit)
          || (input != [] && ip == |input| && op + 3 == Needed(|input|)))
  }

  lemma PacedAtStart(input: seq<Octet>, beyond: Octet, hash: nat -> nat, htab: seq<nat>)
    requires input != [] && Saved([]) == 0
    ensures Paced(input, hash, htab, First(input, beyond, 0), 0, 1, 0, [])
  {
  }

  lemma PacedByLiteral(input: seq<Octet>, hash: nat -> nat, htab: seq<nat>, hval: nat, hval': nat,
                       ip: nat, op: int, lit: int, toks: seq<Token>,
                       op': int, lit': int, toks': seq<Token>)
    requires Paced(input, hash, htab, hval, ip, op, lit, toks) && ip + 2 < |input| && |htab| == HSIZE
    requires hval' == Next(hval, input[ip + 2]) && !IsMatch(input, htab[Slot(hash, hval')], ip)
    requires Saved(toks') == Saved(toks)
    requires if lit + 1 < MAX_LIT then lit' == lit + 1 && op' == op + 1 else lit' == 0 && op' == op + 2
    ensures Paced(input, hash, htab[Slot(hash, hval') := ip], hval', ip + 1, op', lit', toks')
  {
    hide Saved, Slot, Next, ThreeOctets, Rolling, Costly;
    if Worst(input, hash) {
      NextRolls(input, hash, hval, ip);
      MatchesOnlyAtTheEnd(input, hash, htab, hval, ip, op, lit);
    }
  }

  lemma PacedByMatch(input: seq<Octet>, hash: nat -> nat, htab: seq<nat>, hval: nat, hval': nat,
                     ip: nat, op: int, lit: int, toks: seq<Token>,
                     htab'': seq<nat>, hval'': nat, ip': nat, op': int, toks': seq<Token>)
    requires Paced(input, hash, htab, hval, ip, op, lit, toks) && ip + 2 < |input| && |htab| == HSIZE
    requires hval' == Next(hval, input[ip + 2]) && IsMatch(input, htab[Slot(hash, hval')], ip)
    requires Saved(toks') == 4 && ip + 3 <= ip' <= |input|
    requires ip' == ip + 3 ==> op' == op - (if lit == 0 then 1 else 0) + 3
    ensures Paced(input, hash, htab'', hval'', ip', op', 0, toks')
  {
    hide Saved, Slot, Next, ThreeOctets, Rolling, Costly;
    if Worst(input, hash) {
      MatchesOnlyAtTheEnd(input, hash, htab, hval, ip, op, lit);
    }
  }

  /** Where the encoder gives up inside the loop, the output was smaller than needed. */
  lemma RoomInside(input: seq<Octet>, ref: nat, ip: nat, op: int, lit: int)
    requires lit <= ip && ip + 2 < |input| && 0 <= lit && 32 * (op - lit - 1) <= 33 * (ip - lit)
    ensures op < Needed(|input|)
    ensures IsMatch(input, ref, ip) ==> op + 4 < Needed(|input|)
  {
  }

  lemma RoomAtTheEnd(input: seq<Octet>, hash: nat -> nat, htab: seq<nat>, hval: nat, ip: nat, op: int, lit: int,
                     toks: seq<Token>)
    requires Paced(input, hash, htab, hval, ip, op, lit, toks) && input != []
    requires 0 <= lit <= ip <= |input| <= ip + 2 && 32 * (op - lit - 1) + Saved(toks) <= 33 * (ip - lit)
    ensures op + 3 <= Needed(|input|)
    ensures Worst(input, hash) ==> op + 3 == Needed(|input|)
  {
    hide Saved, Slot, Rolling;
  }

  // ---------- the parse is greedy ----------

  /** The slots of the three octets at every place where three stand. */
  ghost function Keys(input: seq<Octet>, hash: nat -> nat): (keys: seq<nat>)
    ensures |keys| == if |input| < 2 then 0 else |input| - 2
    ensures forall p :: 0 <= p < |keys| ==> keys[p] == SlotAt(input, hash, p) < HSIZE
  {
    hide SlotAt;
    seq(if |input| < 2 then 0 else |input| - 2, p requires 0 <= p && p + 2 < |input| => SlotAt(input, hash, p))
  }

  lemma KeysAreOfThree(input: seq<Octet>, hash: nat -> nat)
    ensures KeysOfThree(input, Keys(input, hash))
  {
    hide Slot;
  }

  /** At the head of the loop: the parse so far is greedy, and the table holds what it entered. */
  ghost predicate Choosing(input: seq<Octet>, hash: nat -> nat, blank: bool, htab: seq<nat>, hval: nat, marks: seq<Mark>) {
    ThreeOctets(hash) ==>
      && Greedy(input, Keys(input, hash), marks, blank, 2)
      && (|marks| + 2 < |input| ==>
            Rolling(input, hval, |marks|) && Tabled(htab, Keys(input, hash), marks, blank))
  }

  lemma ChoosingAtStart(input: seq<Octet>, beyond: Octet, hash: nat -> nat, blank: bool, htab: seq<nat>)
    requires input != [] && (blank ==> forall key :: 0 <= key < |htab| ==> htab[key] == 0)
    ensures Choosing(input, hash, blank, htab, First(input, beyond, 0), [])
  {
    hide ThreeOctets, Tabled;
    TabledAtStart(htab, Keys(input, hash), blank);
  }

  lemma LiteralChosen(input: seq<Octet>, hash: nat -> nat, blank: bool, htab: seq<nat>, hval: nat, hval': nat, marks: seq<Mark>)
    requires Choosing(input, hash, blank, htab, hval, marks) && |marks| + 2 < |input| && |htab| == HSIZE
    requires hval' == Next(hval, input[|marks| + 2]) && !IsMatch(input, htab[Slot(hash, hval')], |marks|)
    ensures Choosing(input, hash, blank, htab[Slot(hash, hval') := |marks|], hval', marks + [Single])
  {
    hide Slot, Next, ThreeOctets, Rolling, Tabled, Greedy;
    if ThreeOctets(hash) {
      var keys := Keys(input, hash);
      NextRolls(input, hash, hval, |marks|);
      assert keys[|marks|] == Slot(hash, hval');
      TabledEnters(htab, keys, marks, Single, blank);
      LiteralIsGreedy(input, htab, keys, marks, blank, 2);
    }
  }

  lemma MatchChosen(input: seq<Octet>, hash: nat -> nat, blank: bool, htab: seq<nat>, hval: nat, hval': nat,
                    marks: seq<Mark>, len: nat, htab': seq<nat>, hval'': nat)
    requires Choosing(input, hash, blank, htab, hval, marks) && |marks| + 2 < |input| && |htab| == HSIZE
    requires hval' == Next(hval, input[|marks| + 2])
    requires var ref := htab[Slot(hash, hval')];
             IsMatch(input, ref, |marks|) && 3 <= len <= MAX_REF && Maximal(input, |marks|, |marks| - ref, len)
    requires |marks| + len + 2 < |input| ==>
               Rehashed(input, hash, htab[Slot(hash, hval') := |marks|], htab', hval'', |marks| + len)
    ensures var ref := htab[Slot(hash, hval')];
            Choosing(input, hash, blank, htab', hval'', marks + MarksOf(BackRef(|marks| - ref, len)))
  {
    hide Slot, Next, ThreeOctets, Rolling, Tabled, Greedy, MarksOf, Maximal;
    if ThreeOctets(hash) {
      var keys, end := Keys(input, hash), |marks| + len;
      var dist := |marks| - htab[Slot(hash, hval')];
      NextRolls(input, hash, hval, |marks|);
      assert keys[|marks|] == Slot(hash, hval');
      MatchLong(dist, len);
      MatchIsGreedy(input, htab, keys, marks, blank, 2, dist, len);
      if end + 2 < |input| {
        TabledByMatch(htab, keys, marks, dist, len, blank);
      }
    }
  }

  /** What the tokens so far say when the encoder stops. */
  ghost predicate Chosen(input: seq<Octet>, hash: nat -> nat, blank: bool, toks: seq<Token>, outLen: nat) {
    && AllWellFormed(toks) && FullRuns(toks) && Tested(toks, outLen)
    && (ThreeOctets(hash) ==> Greedy(input, Keys(input, hash), Marks(toks), blank, 2))
  }

  /** All that the head of the loop keeps. */
  ghost predicate Steady(input: seq<Octet>, hash: nat -> nat, blank: bool, htab: seq<nat>, hval: nat, ip: nat, op: int,
                         lit: int, toks: seq<Token>, outLen: nat)
  {
    && 0 <= lit < op && |htab| == HSIZE && AllWellFormed(toks) && Tested(toks, outLen)
    && |PendingMarks(toks, lit)| == ip
    && Paced(input, hash, htab, hval, ip, op, lit, toks)
    && Choosing(input, hash, blank, htab, hval, PendingMarks(toks, lit))
  }

  lemma SteadyAtStart(input: seq<Octet>, beyond: Octet, hash: nat -> nat, blank: bool, htab: seq<nat>, outLen: nat)
    requires input != [] && Saved([]) == 0 && PendingMarks([], 0) == [] && |htab| == HSIZE
    requires blank ==> forall key :: 0 <= key < |htab| ==> htab[key] == 0
    ensures Steady(input, hash, blank, htab, First(input, beyond, 0), 0, 1, 0, [], outLen)
  {
    hide Paced, Choosing, Saved, PendingMarks;
    PacedAtStart(input, beyond, hash, htab);
    ChoosingAtStart(input, beyond, hash, blank, htab);
  }

  lemma SteadyByLiteral(output: seq<Octet>, input: seq<Octet>, hash: nat -> nat, blank: bool, htab: seq<nat>, hval: nat,
                        hval': nat, ip: nat, op: int, lit: nat, toks: seq<Token>, outLen: nat, toks': seq<Token>)
    requires Pending(output, op, lit, toks, input, ip) && lit <= ip < |input| && ip + 2 < |input|
    requires Steady(input, hash, blank, htab, hval, ip, op, lit, toks, outLen)
    requires hval' == Next(hval, input[ip + 2]) && !IsMatch(input, htab[Slot(hash, hval')], ip)
    requires toks' == (if lit + 1 < MAX_LIT then toks else WithRun(toks, lit + 1, input, ip + 1)) && Saved(toks') == Saved(toks)
    ensures var full := lit + 1 == MAX_LIT;
            Steady(input, hash, blank, htab[Slot(hash, hval') := ip], hval', ip + 1, op + (if full then 2 else 1),
                   if full then 0 else lit + 1, toks', outLen)
  {
    hide Paced, Choosing, Saved, PendingMarks, Pending, Tested, IsMatch, WithRun, Slot, Next;
    var full, marks := lit + 1 == MAX_LIT, PendingMarks(toks, lit);
    PendingFacts(output, op, lit, toks, input, ip);
    MarksOfLiteral(output, op, lit, toks, input, ip, outLen);
    PacedByLiteral(input, hash, htab, hval, hval', ip, op, lit, toks,
                   op + (if full then 2 else 1), if full then 0 else lit + 1, toks');
    LiteralChosen(input, hash, blank, htab, hval, hval', marks);
    assert |marks + [Single]| == |marks| + 1;
  }

  lemma SteadyByMatch(output: seq<Octet>, input: seq<Octet>, hash: nat -> nat, blank: bool, htab: seq<nat>, hval: nat,
                      hval': nat, ip: nat, op: int, lit: nat, toks: seq<Token>, outLen: nat, ip': nat, op': int,
                      toks': seq<Token>, htab': seq<nat>, hval'': nat)
    requires Pending(output, op, lit, toks, input, ip) && lit <= ip && ip + 2 < |input|
    requires Steady(input, hash, blank, htab, hval, ip, op, lit, toks, outLen)
    requires op - (if lit == 0 then 1 else 0) + 4 < outLen
    requires hval' == Next(hval, input[ip + 2]) && Slot(hash, hval') < HSIZE
    requires var ref := htab[Slot(hash, hval')];
             && IsMatch(input, ref, ip) && ip + 3 <= ip' <= |input| && ip' - ip <= MAX_REF
             && Maximal(input, ip, ip - ref, ip' - ip)
             && toks' == WithRun(toks, lit, input, ip) + [BackRef(ip - ref, ip' - ip)]
    requires Saved(toks') == 4 && 0 < op' && (ip' == ip + 3 ==> op' == op - (if lit == 0 then 1 else 0) + 3)
    requires |htab'| == HSIZE
    requires ip' + 2 < |input| ==> Rehashed(input, hash, htab[Slot(hash, hval') := ip], htab', hval'', ip')
    ensures Steady(input, hash, blank, htab', hval'', ip', op', 0, toks', outLen)
  {
    hide Paced, Choosing, Saved, PendingMarks, Pending, Tested, IsMatch, WithRun, Maximal, Rehashed, MarksOf, Slot, Next;
    var ref, len, marks := htab[Slot(hash, hval')], ip' - ip, PendingMarks(toks, lit);
    PendingFacts(output, op, lit, toks, input, ip);
    MatchInWindow(input, ref, ip, len);
    MarksOfMatch(output, op, lit, toks, input, ip, outLen, ip - ref, len);
    MatchLong(ip - ref, len);
    PacedByMatch(input, hash, htab, hval, hval', ip, op, lit, toks, htab', hval'', ip', op', toks');
    MatchChosen(input, hash, blank, htab, hval, hval', marks, len, htab', hval'');
  }

  lemma StopsAt(output: seq<Octet>, op: int, lit: nat, toks: seq<Token>, input: seq<Octet>, ip: nat, outLen: nat,
                hash: nat -> nat, blank: bool, htab: seq<nat>, hval: nat)
    requires Pending(output, op, lit, toks, input, ip) && Steady(input, hash, blank, htab, hval, ip, op, lit, toks, outLen)
    requires op - (if lit == 0 then 1 else 0) + 4 >= outLen
    ensures lit <= ip <= |input|
    ensures var all := WithRun(toks, lit, input, ip);
            Chosen(input, hash, blank, all, outLen) && GaveUp(input, all, outLen)
  {
    hide Pending, Tested, Encode, Expand, Marks, FullRuns, ThreeOctets, Greedy, Rolling, Tabled, Paced;
    WrittenSoFar(output, op, lit, toks, input, ip, outLen);
  }

  lemma FinishChosen(input: seq<Octet>, hash: nat -> nat, blank: bool, htab: seq<nat>, hval: nat, marks: seq<Mark>,
                     more: seq<Mark>, toks: seq<Token>, outLen: nat)
    requires Choosing(input, hash, blank, htab, hval, marks) && |marks| + 2 >= |input|
    requires AllWellFormed(toks) && FullRuns(toks) && Tested(toks, outLen) && Marks(toks) == marks + more
    ensures Chosen(input, hash, blank, toks, outLen)
  {
    hide Tested, Encode, Marks, FullRuns, ThreeOctets, Greedy, Rolling, Tabled;
    if ThreeOctets(hash) {
      GreedyEnds(input, Keys(input, hash), marks, more, blank, 2);
    }
  }

  /** The match at ref is extended and written. */
  method EmitMatch(input: seq<Octet>, ref: nat, ip: nat, output: array<Octet>, op: nat, lit: nat, ghost toks: seq<Token>)
    returns (ip': nat, op': nat, ghost toks': seq<Token>)
    requires ip + 2 < |input| && IsMatch(input, ref, ip)
    requires Pending(output[..], op, lit, toks, input, ip)
    requires op - (if lit == 0 then 1 else 0) + 3 + 1 < output.Length
    modifies output
    ensures ip + 3 <= ip' <= |input| && Pending(output[..], op', 0, toks', input, ip') && 0 < op' < output.Length
    ensures ip' == ip + 3 ==> op' == op - (if lit == 0 then 1 else 0) + 3
    ensures Saved(toks') == 4 && ip' - ip <= MAX_REF && Maximal(input, ip, ip - ref, ip' - ip)
    ensures lit <= ip && toks' == WithRun(toks, lit, input, ip) + [BackRef(ip - ref, ip' - ip)]
  {
    hide Encode, Expand, Pending, Unpatched, Covers, Repeats, Saved, WithRun;
    var off := ip - ref - 1;
    var len := MatchLength(input, ref, ip);
    op', toks' := PutMatch(output, op, lit, off, len, toks, input, ip);
    ip' := ip + len;
    PendingFacts(output[..], op', 0, toks', input, ip');
  }

  /** Needed octets of output suffice for every input, every hash function and every table; fewer
      do not suffice for the worst inputs. No usable candidate is passed over. */
  method Compress(input: seq<Octet>, beyond: Octet, output: array<Octet>, outLen: nat,
                  initHtab: bool, hash: nat -> nat)
    returns (r: nat, ghost toks: seq<Token>)
    requires outLen == output.Length
    modifies output
    ensures input == [] || outLen == 0 ==> r == 0
    ensures r != 0 ==> r <= outLen && AllWellFormed(toks) && output[..r] == Encode(toks) && Expand(toks) == Some(input)
    ensures r <= MaxCompressedSize(|input|)
    ensures outLen < 4 ==> r == 0
    ensures input != [] && outLen >= Needed(|input|) ==> r != 0
    ensures input != [] && outLen < Needed(|input|) && Worst(input, hash) ==> r == 0
    ensures Chosen(input, hash, initHtab, toks, outLen)
    ensures r == 0 && input != [] ==> GaveUp(input, toks, outLen)
  {
    hide Encode, Expand, Pending, Unpatched, Covers, Repeats, Saved, Worst, Needed, Steady, IsMatch, Slot, Next, Chosen,
      GaveUp, Marks, Tested, WithRun, Maximal, MarksOf, FullRuns, PendingMarks, Rehashed;
    r, toks := 0, [];
    NothingChosen(input, hash, initHtab, outLen);
    if |input| == 0 || outLen == 0 {
      return;
    }
    var htab := new nat[HSIZE];
    if initHtab {
      forall i | 0 <= i < HSIZE {
        htab[i] := 0;
      }
    }
    var ip, op, lit := 0, 1, 0;
    StartUp(output[..], input);
    SteadyAtStart(input, beyond, hash, initHtab, htab[..], outLen);
    var hval := First(input, beyond, ip);
    while ip < |input| - 2
      invariant ip <= |input| && 0 <= lit < op && Pending(output[..], op, lit, toks, input, ip)
      invariant Steady(input, hash, initHtab, htab[..], hval, ip, op, lit, toks, outLen)
    {
      PendingFacts(output[..], op, lit, toks, input, ip);
      ghost var output0, op0, lit0, toks0, htab0, hval0 := output[..], op, lit, toks, htab[..], hval;
      var ref;
      hval, ref := Probe(input, htab, hash, hval, ip);
      RoomInside(input, ref, ip, op, lit);
      if IsMatch(input, ref, ip) {
        if op + 3 + 1 >= outLen && op - (if lit == 0 then 1 else 0) + 3 + 1 >= outLen {
          StopsAt(output[..], op, lit, toks, input, ip, outLen, hash, initHtab, htab0, hval0);
          toks := WithRun(toks, lit, input, ip);
          return;
        }
        ghost var ip0, hval1 := ip, hval;
        ip, op, toks := EmitMatch(input, ref, ip, output, op, lit, toks);
        lit := 0;
        if ip >= |input| - 2 {
          SteadyByMatch(output0, input, hash, initHtab, htab0, hval0, hval1, ip0, op0, lit0, toks0, outLen,
                        ip, op, toks, htab[..], hval);
          break;
        }
        hval := Rehash(input, beyond, htab, hash, ip);
        SteadyByMatch(output0, input, hash, initHtab, htab0, hval0, hval1, ip0, op0, lit0, toks0, outLen,
                      ip, op, toks, htab[..], hval);
      } else {
        if op >= outLen {
          StopsAt(output[..], op, lit, toks, input, ip, outLen, hash, initHtab, htab0, hval0);
          toks := WithRun(toks, lit, input, ip);
          return;
        }
        op, lit, toks := PutLiteral(output, op, lit, input[ip], toks, input, ip);
        SteadyByLiteral(output0, input, hash, initHtab, htab0, hval0, hval, ip, op0, lit0, toks0, outLen, toks);
        ip := ip + 1;
      }
    }
    PendingFacts(output[..], op, lit, toks, input, ip);
    SteadyAtTheEnd(input, hash, initHtab, htab[..], hval, ip, op, lit, toks, outLen);
    if op + 3 > outLen {
      StopsAt(output[..], op, lit, toks, input, ip, outLen, hash, initHtab, htab[..], hval);
      toks := WithRun(toks, lit, input, ip);
      return;
    }
    ghost var marks := PendingMarks(toks, lit);
    r, toks := Finish(input, output, outLen, ip, op, lit, toks);
    FinishChosen(input, hash, initHtab, htab[..], hval, marks, Singles(|input| - ip), toks, outLen);
  }

  lemma SteadyAtTheEnd(input: seq<Octet>, hash: nat -> nat, blank: bool, htab: seq<nat>, hval: nat, ip: nat, op: int,
                       lit: int, toks: seq<Token>, outLen: nat)
    requires Steady(input, hash, blank, htab, hval, ip, op, lit, toks, outLen) && input != []
    requires 0 <= lit <= ip <= |input| <= ip + 2 && 32 * (op - lit - 1) + Saved(toks) <= 33 * (ip - lit)
    ensures AllWellFormed(toks) && Tested(toks, outLen)
    ensures Choosing(input, hash, blank, htab, hval, PendingMarks(toks, lit)) && |PendingMarks(toks, lit)| == ip
    ensures op + 3 <= Needed(|input|)
    ensures Worst(input, hash) ==> op + 3 == Needed(|input|)
  {
    hide Paced, Choosing, Saved, PendingMarks, Tested, Needed, Worst;
    RoomAtTheEnd(input, hash, htab, hval, ip, op, lit, toks);
  }

  lemma NothingChosen(input: seq<Octet>, hash: nat -> nat, blank: bool, outLen: nat)
    ensures Chosen(input, hash, blank, [], outLen)
    ensures outLen == 0 ==> GaveUp(input, [], outLen)
  {
  }

  lemma MatchInWindow(input: seq<Octet>, ref: nat, ip: nat, len: nat)
    requires ip + 2 < |input| && IsMatch(input, ref, ip) && 3 <= len <= MAX_REF
    ensures ref < ip && WellFormed(BackRef(ip - ref, len))
  {
  }
}
