/** lzf_compress_best: chains of earlier occurrences through `first` and `prev`, longest match
    wins. Neither table is ever initialised, so both start with arbitrary contents. Pointers
    are addresses; base is the address of the input, beyond the first 64 KB, so that no
    difference of 16 bits leads below zero. */
module LzfCompressBest {
  import opened Sequences
  import opened LzfFormat
  import opened LzfEmit
  import opened LzfRepeat
  import opened LzfWorstCase
  import opened LzfParse

  const FIRST_SIZE := 16384
  const U16 := 65536

  /** HASH of three octets, for an arbitrary hash, as an index of `first`. */
  function FirstSlot(hash: (Octet, Octet, Octet) -> nat, a: Octet, b: Octet, c: Octet): (r: nat)
    ensures r < FIRST_SIZE
  {
    hash(a, b, c) % FIRST_SIZE
  }

  function PrevSlot(address: int): (r: nat)
    ensures r < MAX_OFF
  {
    address % MAX_OFF
  }

  /** An octet at or one past the end of the input. */
  function Peek(input: seq<Octet>, beyond: Octet, i: nat): Octet
    requires i <= |input|
  {
    if i < |input| then input[i] else beyond
  }

  class State {
    const first: array<int>
    const prev: array<nat>

    ghost predicate Valid()
      reads this
    {
      first.Length == FIRST_SIZE && prev.Length == MAX_OFF
    }

    /** Uninitialised memory: nothing is known of the contents. */
    constructor ()
      ensures Valid() && fresh(first) && fresh(prev)
    {
      first := new int[FIRST_SIZE];
      prev := new nat[MAX_OFF];
    }
  }

  /** Puts the position at address ip at the head of its chain; returns the old head. */
  method Link(state: State, slot: nat, ip: int) returns (p: int)
    requires state.Valid() && slot < FIRST_SIZE
    modifies state.first, state.prev
    ensures p == old(state.first[slot]) && state.first[..] == old(state.first[..])[slot := ip]
    ensures state.prev[..] == old(state.prev[..])[PrevSlot(ip) := (ip - p) % U16]
  {
    p := state.first[slot];
    state.prev[PrevSlot(ip)] := (ip - p) % U16;
    state.first[slot] := ip;
  }

  /** How far the candidate at p matches; e stops it one short of the longest match. */
  method Extend(input: seq<Octet>, beyond: Octet, p: nat, ip: nat, e: int) returns (l: nat)
    requires Repeats(input, p, ip, 3) && e < |input| - ip && e < MAX_REF
    ensures 3 <= l <= MAX_REF && (l <= e || l == 3) && Repeats(input, p, ip, l)
    ensures l < e ==> input[p + l] != input[ip + l]
  {
    l := 3;
    while Peek(input, beyond, p + l) == Peek(input, beyond, ip + l) && l < e
      invariant 3 <= l && (l <= e || l == 3) && Repeats(input, p, ip, l)
    {
      RepeatsOneMore(input, p, ip, l);
      l := l + 1;
    }
  }

  /** The next address on a chain: a zero difference leads to the null address. */
  function Older(prev: seq<nat>, p: int): (r: int)
    requires |prev| == MAX_OFF
    ensures p > 0 ==> r < p
    ensures p >= U16 ==> r >= 0
  {
    var diff := prev[PrevSlot(p)] % U16;
    if diff != 0 then p - diff else 0
  }

  /** The candidates a walk from p visits before it drops below b. */
  ghost function Chain(prev: seq<nat>, base: nat, p: int, b: int): set<int>
    requires |prev| == MAX_OFF && U16 <= b
    decreases p
  {
    if p < b then {} else {p - base} + Chain(prev, base, Older(prev, p), b)
  }

  /** No candidate of a chain matches longer than bestL, up to the limit e; the first three octets
      are compared whatever the limit. */
  ghost predicate Longest(input: seq<Octet>, visited: set<int>, ip: int, e: int, bestL: int) {
    forall q, n :: q in visited && 3 <= n && (n <= e || n == 3) && Repeats(input, q, ip, n) ==> n <= bestL
  }

  function Window(base: nat, ip: nat): int {
    if ip < MAX_OFF then base else base + ip - MAX_OFF
  }

  /** A candidate that differs at j does not match longer than j, nor at all when j < 3. */
  lemma MismatchBounds(input: seq<Octet>, q: nat, ip: nat, j: nat, e: int, bestL: int)
    requires q < ip && ip + j < |input| && input[q + j] != input[ip + j] && (j < 3 || j <= bestL)
    ensures Longest(input, {q}, ip, e, bestL)
  {
    forall n | 3 <= n && (n <= e || n == 3) && Repeats(input, q, ip, n)
      ensures n <= bestL
    {
      if j < n {
        RepeatsAt(input, q, ip, n, j);
      }
    }
  }

  /** One candidate: it qualifies only if it also agrees where the best one stopped. */
  method Consider(input: seq<Octet>, beyond: Octet, q: nat, ip: nat, l0: nat, p0: int)
    returns (bestL: nat, bestP: int)
    requires ip + 2 < |input| && ip - MAX_OFF <= q < ip
    requires l0 == 0 || l0 <= Limit(input, ip) || l0 == 3
    requires l0 != 0 ==> 3 <= l0 <= MAX_REF && ip - MAX_OFF <= p0 && Repeats(input, p0, ip, l0)
    ensures bestL == 0 || bestL <= Limit(input, ip) || bestL == 3
    ensures bestL != 0 ==> 3 <= bestL <= MAX_REF && ip - MAX_OFF <= bestP && Repeats(input, bestP, ip, bestL)
    ensures l0 <= bestL && Longest(input, {q}, ip, Limit(input, ip), bestL)
    ensures bestP == q || (bestL == l0 && bestP == p0)
  {
    bestL, bestP := l0, p0;
    var e := Limit(input, ip);
    if input[q + 2] == input[ip + 2] {
      if Peek(input, beyond, q + l0) == Peek(input, beyond, ip + l0) {
        if input[q + 1] == input[ip + 1] && input[q] == input[ip] {
          RepeatsThree(input, q, ip);
          var l := Extend(input, beyond, q, ip, e);
          if l >= bestL {
            bestP := q;
            bestL := l;
          }
          if l < e {
            MismatchBounds(input, q, ip, l, e, bestL);
          }
        } else {
          MismatchBounds(input, q, ip, if input[q] == input[ip] then 1 else 0, e, bestL);
        }
      } else if ip + l0 < |input| {
        MismatchBounds(input, q, ip, l0, e, bestL);
      }
    } else {
      MismatchBounds(input, q, ip, 2, e, bestL);
    }
  }

  /** Walks the chain and keeps the longest match. Each non-zero difference strictly lowers p
      and a zero one ends the walk, so it ends whatever the tables hold. */
  method Search(input: seq<Octet>, beyond: Octet, base: nat, ip: nat, prev: array<nat>, head: int)
    returns (bestL: nat, bestP: int)
    requires base >= U16 && ip + 2 < |input| && prev.Length == MAX_OFF
    ensures bestL != 0 ==> 3 <= bestL <= MAX_REF && ip - MAX_OFF <= bestP && Repeats(input, bestP, ip, bestL)
    ensures head >= base + ip ==> bestL == 0
    ensures head < base + ip ==>
              && (bestL != 0 ==> bestP in Chain(prev[..], base, head, Window(base, ip)))
              && Longest(input, Chain(prev[..], base, head, Window(base, ip)), ip, Limit(input, ip), bestL)
  {
    bestL, bestP := 0, -1;
    var b := Window(base, ip);
    var p := head;
    if p < base + ip {
      ghost var all, seen := Chain(prev[..], base, head, b), {};
      while p >= b
        invariant p < base + ip
        invariant bestL == 0 || bestL <= Limit(input, ip) || bestL == 3
        invariant bestL != 0 ==> 3 <= bestL <= MAX_REF && ip - MAX_OFF <= bestP && Repeats(input, bestP, ip, bestL)
        invariant all == seen + Chain(prev[..], base, p, b)
        invariant Longest(input, seen, ip, Limit(input, ip), bestL) && (bestL != 0 ==> bestP in seen)
        decreases p
      {
        bestL, bestP := Consider(input, beyond, p - base, ip, bestL, bestP);
        seen := seen + {p - base};
        p := Older(prev[..], p);
      }
      assert all == seen;
    }
  }

  // ---------- the chains hold every position of the window ----------

  /** The slots of the three octets at every place where three stand. */
  ghost function Keys(input: seq<Octet>, hash: (Octet, Octet, Octet) -> nat): (keys: seq<nat>)
    ensures |keys| == if |input| < 2 then 0 else |input| - 2
    ensures forall p :: 0 <= p < |keys| ==> keys[p] == SlotAt(input, hash, p) < FIRST_SIZE
  {
    seq(if |input| < 2 then 0 else |input| - 2, p requires 0 <= p && p + 2 < |input| => SlotAt(input, hash, p))
  }

  lemma KeysAreOfThree(input: seq<Octet>, hash: (Octet, Octet, Octet) -> nat)
    ensures KeysOfThree(input, Keys(input, hash))
  {
    hide FirstSlot;
  }

  /** q is the last of the positions 1..p-1 with a key. */
  ghost predicate LastBefore(keys: seq<nat>, key: int, q: int, p: int) {
    1 <= q < p <= |keys| && keys[q] == key && forall x :: q < x < p ==> keys[x] != key
  }

  lemma {:induction false} FindLast(keys: seq<nat>, q: nat, p: nat) returns (g: nat)
    requires 1 <= q < p <= |keys|
    ensures q <= g && LastBefore(keys, keys[q], g, p)
    decreases p - q
  {
    g := p - 1;
    if keys[g] != keys[q] {
      g := FindLast(keys, q, p - 1);
    }
  }

  /** Each chain starts at the last position with its key, and each position of the window leads to
      the one before. */
  ghost predicate Chained(keys: seq<nat>, base: nat, first: seq<int>, prev: seq<nat>, ip: nat) {
    && |first| == FIRST_SIZE && |prev| == MAX_OFF
    && (forall key, q :: LastBefore(keys, key, q, ip) ==> 0 <= key < FIRST_SIZE && first[key] == base + q)
    && (forall q, h :: 0 <= h < ip && h < |keys| && h + MAX_OFF >= ip && LastBefore(keys, keys[h], q, h) ==>
          prev[PrevSlot(base + h)] == (h - q) % U16)
  }

  lemma ChainedAtStart(keys: seq<nat>, base: nat, first: seq<int>, prev: seq<nat>)
    requires |first| == FIRST_SIZE && |prev| == MAX_OFF
    ensures Chained(keys, base, first, prev, 1)
  {
  }

  lemma OtherSlot(base: nat, h: nat, ip: nat)
    requires h < ip < h + MAX_OFF
    ensures PrevSlot(base + h) != PrevSlot(base + ip)
  {
  }

  lemma LinkKeeps(keys: seq<nat>, base: nat, first: seq<int>, prev: seq<nat>, ip: nat)
    requires Chained(keys, base, first, prev, ip) && 1 <= ip < |keys| && keys[ip] < FIRST_SIZE
    ensures Chained(keys, base, first[keys[ip] := base + ip],
                    prev[PrevSlot(base + ip) := (base + ip - first[keys[ip]]) % U16], ip + 1)
  {
    hide PrevSlot;
    var first', prev' := first[keys[ip] := base + ip], prev[PrevSlot(base + ip) := (base + ip - first[keys[ip]]) % U16];
    var end := ip + 1;
    forall key, q | LastBefore(keys, key, q, end)
      ensures 0 <= key < FIRST_SIZE && first'[key] == base + q
    {
      if q < ip {
        assert keys[ip] != key && LastBefore(keys, key, q, ip);
      }
    }
    forall q, h | 0 <= h < ip + 1 && h + MAX_OFF >= ip + 1 && LastBefore(keys, keys[h], q, h)
      ensures prev'[PrevSlot(base + h)] == (h - q) % U16
    {
      if h < ip {
        OtherSlot(base, h, ip);
      }
    }
  }

  /** From h the chain reaches every earlier position of the window with the same key. */
  lemma {:induction false} ChainReaches(keys: seq<nat>, base: nat, first: seq<int>, prev: seq<nat>, ip: nat, h: nat, q: nat)
    requires Chained(keys, base, first, prev, ip + 1) && base >= U16
    requires 1 <= q <= h < ip < |keys| && ip - MAX_OFF <= q && keys[q] == keys[h]
    ensures q in Chain(prev, base, base + h, Window(base, ip))
    decreases h
  {
    hide PrevSlot;
    if q < h {
      var g := FindLast(keys, q, h);
      assert h - g < U16 && Older(prev, base + h) == base + g;
      ChainReaches(keys, base, first, prev, ip, g, q);
    }
  }

  /** The search sees every position of the window that starts with the same three octets. */
  lemma WindowIsSearched(input: seq<Octet>, keys: seq<nat>, base: nat, first: seq<int>, prev: seq<nat>, ip: nat, q: nat)
    requires KeysOfThree(input, keys) && Chained(keys, base, first, prev, ip) && base >= U16
    requires 1 <= ip < |keys| && keys[ip] < FIRST_SIZE && InWindow(q, ip) && SameThree(input, q, ip)
    ensures var prev' := prev[PrevSlot(base + ip) := (base + ip - first[keys[ip]]) % U16];
            first[keys[ip]] < base + ip && q in Chain(prev', base, first[keys[ip]], Window(base, ip))
  {
    hide PrevSlot, Chain, SameThree;
    LinkKeeps(keys, base, first, prev, ip);
    var prev' := prev[PrevSlot(base + ip) := (base + ip - first[keys[ip]]) % U16];
    var g := FindLast(keys, q, ip);
    ChainReaches(keys, base, first[keys[ip] := base + ip], prev', ip, g, q);
  }

  /** What a search must find to be the longest. */
  ghost predicate Searched(input: seq<Octet>, base: nat, prev: seq<nat>, head: int, ip: nat, bestL: nat, bestP: int)
    requires |prev| == MAX_OFF && base >= U16
  {
    && (head >= base + ip ==> bestL == 0)
    && (head < base + ip ==>
          && (bestL != 0 ==> bestP in Chain(prev, base, head, Window(base, ip)))
          && Longest(input, Chain(prev, base, head, Window(base, ip)), ip, Limit(input, ip), bestL))
  }

  lemma LiteralIsLongest(input: seq<Octet>, keys: seq<nat>, base: nat, first: seq<int>, prev: seq<nat>, marks: seq<Mark>,
                         bestP: int)
    requires LongestMatches(input, marks) && 1 <= |marks| < |keys| && base >= U16
    requires KeysOfThree(input, keys) && Chained(keys, base, first, prev, |marks|) && keys[|marks|] < FIRST_SIZE
    requires var ip := |marks|;
             var prev' := prev[PrevSlot(base + ip) := (base + ip - first[keys[ip]]) % U16];
             Searched(input, base, prev', first[keys[ip]], ip, 0, bestP)
    ensures LongestMatches(input, marks + [Single])
  {
    hide Chained, Chain, PrevSlot;
    var ip := |marks|;
    forall q | InWindow(q, ip)
      ensures !SameThree(input, q, ip)
    {
      if SameThree(input, q, ip) {
        WindowIsSearched(input, keys, base, first, prev, ip, q);
        RepeatsThree(input, q, ip);
      }
    }
    LongestGrows(input, marks, [Single]);
  }

  lemma MatchIsLongest(input: seq<Octet>, keys: seq<nat>, base: nat, first: seq<int>, prev: seq<nat>, marks: seq<Mark>,
                       bestL: nat, bestP: nat)
    requires LongestMatches(input, marks) && 1 <= |marks| < |keys| && base >= U16
    requires KeysOfThree(input, keys) && Chained(keys, base, first, prev, |marks|) && keys[|marks|] < FIRST_SIZE
    requires bestP < |marks| && WellFormed(BackRef(|marks| - bestP, bestL))
    requires var ip := |marks|;
             var prev' := prev[PrevSlot(base + ip) := (base + ip - first[keys[ip]]) % U16];
             Searched(input, base, prev', first[keys[ip]], ip, bestL, bestP)
    ensures LongestMatches(input, marks + MarksOf(BackRef(|marks| - bestP, bestL)))
  {
    hide Chained, Chain, PrevSlot, SameThree, Repeats;
    var ip, more := |marks|, MarksOf(BackRef(|marks| - bestP, bestL));
    forall q, n | (InWindow(q, ip) || q == bestP) && Comparable(input, ip, n) && Repeats(input, q, ip, n)
      ensures n <= bestL
    {
      if q != bestP {
        RepeatsAreSame(input, q, ip, n);
        WindowIsSearched(input, keys, base, first, prev, ip, q);
      }
    }
    assert (marks + more)[ip] == Start(ip - bestP, bestL);
    LongestGrows(input, marks, more);
  }

  /** Adds every position of a match to its chain. */
  method Fill(input: seq<Octet>, state: State, base: nat, hash: (Octet, Octet, Octet) -> nat, from: nat, to: nat)
    requires state.Valid() && 1 <= from <= to < |input| - 2
    requires Chained(Keys(input, hash), base, state.first[..], state.prev[..], from)
    modifies state.first, state.prev
    ensures Chained(Keys(input, hash), base, state.first[..], state.prev[..], to)
  {
    hide Chained, PrevSlot, FirstSlot;
    var ip := from;
    while ip < to
      invariant from <= ip <= to
      invariant Chained(Keys(input, hash), base, state.first[..], state.prev[..], ip)
    {
      LinkKeeps(Keys(input, hash), base, state.first[..], state.prev[..], ip);
      var _ := Link(state, FirstSlot(hash, input[ip], input[ip + 1], input[ip + 2]), base + ip);
      ip := ip + 1;
    }
  }

  // ---------- how much room the encoder asks for ----------

  /** The output size from which on no input of n octets is given up, whatever the hash and
      whatever the tables hold. */
  function Needed(n: nat): (size: nat)
    requires n > 0
    ensures size >= 5
  {
    if n <= 3 then 5 else n + 4 + (n - 4) / 32
  }

  function SlotAt(input: seq<Octet>, hash: (Octet, Octet, Octet) -> nat, ip: nat): (r: nat)
    requires ip + 2 < |input|
    ensures r < FIRST_SIZE
  {
    FirstSlot(hash, input[ip], input[ip + 1], input[ip + 2])
  }

  /** The first position never enters the tables: the only match four octets allow needs tables
      that happen to hold its address. */
  ghost predicate Worst(input: seq<Octet>, hash: (Octet, Octet, Octet) -> nat, base: nat, first: seq<int>) {
    || |input| <= 3
    || (Costly(input, 0) && (|input| == 4 ==> |first| == FIRST_SIZE && first[SlotAt(input, hash, 0)] == base))
  }

  /** Everything before the last match is a literal, and the position before ip heads its chain. */
  ghost predicate AllLiterals(input: seq<Octet>, hash: (Octet, Octet, Octet) -> nat, base: nat, first: seq<int>,
                              ip: nat, op: int, lit: int)
  {
    && 1 <= ip && op == 1 + ip + ip / MAX_LIT && lit == ip % MAX_LIT
    && (if |input| >= 4 then ip <= |input| - 3 else ip == 1)
    && (|input| >= 4 && (ip > 1 || |input| == 4) ==>
          |first| == FIRST_SIZE && first[SlotAt(input, hash, ip - 1)] == base + ip - 1)
  }

  /** The room used so far, at the head of the loop. */
  ghost predicate Paced(input: seq<Octet>, hash: (Octet, Octet, Octet) -> nat, base: nat, worst: bool, first: seq<int>,
                        ip: nat, op: int, lit: int, toks: seq<Token>)
  {
    && (if Saved(toks) == 4 then |input| >= 4 else Saved(toks) == 0 && (ip == 1 || ip <= |input| - 2))
    && (worst && (|input| > 3 ==> Costly(input, 0)) ==>
          || AllLiterals(input, hash, base, first, ip, op, lit)
          || (input != [] && ip == |input| && op + 3 == Needed(|input|)))
  }

  lemma PacedAtStart(input: seq<Octet>, hash: (Octet, Octet, Octet) -> nat, base: nat, first: seq<int>, toks: seq<Token>)
    requires input != [] && Saved(toks) == 0
    ensures Paced(input, hash, base, Worst(input, hash, base, first), first, 1, 2, 1, toks)
  {
  }

  /** What one pass finds: nothing but literals before the last three octets of the costliest
      inputs, and there a match. */
  ghost predicate Found(input: seq<Octet>, ip: nat, bestL: nat, bestP: int) {
    bestL != 0 ==> 3 <= bestL && ip - MAX_OFF <= bestP && Repeats(input, bestP, ip, bestL)
  }

  lemma NothingBefore(input: seq<Octet>, ip: nat, bestL: nat, bestP: int)
    requires Costly(input, 0) && ip <= |input| - 4 && Found(input, ip, bestL, bestP)
    ensures bestL == 0
  {
    if bestL != 0 {
      RepeatsAt(input, bestP, ip, bestL, 0);
      RepeatsAt(input, bestP, ip, bestL, 1);
      RepeatsAt(input, bestP, ip, bestL, 2);
      assert SameThree(input, bestP, ip);
    }
  }

  lemma HeadIsVisited(prev: seq<nat>, base: nat, q: nat, ip: nat)
    requires |prev| == MAX_OFF && base >= U16 && ip - MAX_OFF <= q < ip
    ensures q in Chain(prev, base, base + q, Window(base, ip))
  {
  }

  lemma MatchAtTheEnd(input: seq<Octet>, prev: seq<nat>, base: nat, ip: nat, bestL: nat)
    requires Costly(input, 0) && ip == |input| - 3 && |prev| == MAX_OFF && base >= U16
    requires Longest(input, Chain(prev, base, base + ip - 1, Window(base, ip)), ip, Limit(input, ip), bestL)
    ensures bestL >= 3
  {
    HeadIsVisited(prev, base, ip - 1, ip);
    RepeatsThree(input, ip - 1, ip);
  }

  lemma PacedByLiteral(input: seq<Octet>, hash: (Octet, Octet, Octet) -> nat, base: nat, worst: bool, first: seq<int>,
                       prev: seq<nat>, ip: nat, op: int, lit: int, toks: seq<Token>,
                       op': int, lit': int, toks': seq<Token>)
    requires Paced(input, hash, base, worst, first, ip, op, lit, toks) && ip + 2 < |input| && ip > 0
    requires |first| == FIRST_SIZE && |prev| == MAX_OFF && base >= U16 && Saved(toks') == Saved(toks)
    requires var head := first[SlotAt(input, hash, ip)];
             head < base + ip ==> Longest(input, Chain(prev, base, head, Window(base, ip)), ip, Limit(input, ip), 0)
    requires if lit + 1 < MAX_LIT then lit' == lit + 1 && op' == op + 1 else lit' == 0 && op' == op + 2
    ensures Paced(input, hash, base, worst, first[SlotAt(input, hash, ip) := base + ip], ip + 1, op', lit', toks')
  {
    hide Saved, FirstSlot, Longest, Chain, NoRepeat;
    if worst && Costly(input, 0) && ip == |input| - 3 {
      assert SlotAt(input, hash, ip) == SlotAt(input, hash, ip - 1);
      MatchAtTheEnd(input, prev, base, ip, 0);
    }
  }

  lemma PacedByMatch(input: seq<Octet>, hash: (Octet, Octet, Octet) -> nat, base: nat, worst: bool, first: seq<int>,
                     ip: nat, op: int, lit: int, toks: seq<Token>, bestL: nat, bestP: int,
                     first': seq<int>, op': int, toks': seq<Token>)
    requires Paced(input, hash, base, worst, first, ip, op, lit, toks) && ip + 2 < |input| && ip > 0
    requires bestL != 0 && Found(input, ip, bestL, bestP) && Saved(toks') == 4
    requires op' == op - (if lit == 0 then 1 else 0) + if bestL < 9 then 3 else 4
    ensures Paced(input, hash, base, worst, first', ip + bestL, op', 0, toks')
  {
    hide Saved, FirstSlot, NoRepeat;
    if Costly(input, 0) && ip <= |input| - 4 {
      NothingBefore(input, ip, bestL, bestP);
    }
  }

  /** Where the encoder gives up inside the loop, the output was smaller than needed. */
  lemma RoomInside(n: nat, ip: nat, op: int, lit: int)
    requires lit <= ip && 0 < ip && ip + 2 < n && 0 <= lit && 32 * (op - lit - 1) <= 33 * (ip - lit)
    ensures op + 4 < Needed(n)
  {
  }

  lemma RoomAtTheEnd(input: seq<Octet>, hash: (Octet, Octet, Octet) -> nat, base: nat, worst: bool, first: seq<int>,
                     ip: nat, op: int, lit: int, toks: seq<Token>)
    requires Paced(input, hash, base, worst, first, ip, op, lit, toks) && input != [] && ip > 0
    requires 0 <= lit <= ip <= |input| <= ip + 2 && 32 * (op - lit - 1) + Saved(toks) <= 33 * (ip - lit)
    ensures op + 3 <= Needed(|input|)
    ensures worst && (|input| > 3 ==> Costly(input, 0)) ==> op + 3 == Needed(|input|)
  {
    hide Saved, FirstSlot, Costly;
  }

  lemma WorstIsCostly(input: seq<Octet>, hash: (Octet, Octet, Octet) -> nat, base: nat, first: seq<int>)
    requires Worst(input, hash, base, first)
    ensures |input| > 3 ==> Costly(input, 0)
  {
  }

  // ---------- what the loop keeps ----------

  /** All that the head of the loop keeps. */
  ghost predicate Steady(input: seq<Octet>, hash: (Octet, Octet, Octet) -> nat, base: nat, worst: bool, first: seq<int>,
                         prev: seq<nat>, ip: nat, op: int, lit: int, toks: seq<Token>, outLen: nat)
  {
    && 1 <= ip && 0 <= lit < op && AllWellFormed(toks) && Tested(toks, outLen)
    && |first| == FIRST_SIZE && |prev| == MAX_OFF
    && |PendingMarks(toks, lit)| == ip && LongestMatches(input, PendingMarks(toks, lit))
    && Paced(input, hash, base, worst, first, ip, op, lit, toks)
    && (ip + 2 < |input| ==> Chained(Keys(input, hash), base, first, prev, ip))
  }

  lemma SteadyAtStart(output: seq<Octet>, input: seq<Octet>, hash: (Octet, Octet, Octet) -> nat, base: nat, first: seq<int>,
                      prev: seq<nat>, outLen: nat)
    requires Pending(output, 1, 0, [], input, 0) && input != [] && Saved([]) == 0
    requires |first| == FIRST_SIZE && |prev| == MAX_OFF
    ensures Steady(input, hash, base, Worst(input, hash, base, first), first, prev, 1, 2, 1, [], outLen)
  {
    hide Pending, Paced, Chained, Worst;
    MarksOfLiteral(output, 1, 0, [], input, 0, outLen);
    PacedAtStart(input, hash, base, first, []);
    ChainedAtStart(Keys(input, hash), base, first, prev);
    assert PendingMarks([], 1) == [Single];
  }

  lemma SteadyByLiteral(output: seq<Octet>, input: seq<Octet>, hash: (Octet, Octet, Octet) -> nat, base: nat, worst: bool,
                        first: seq<int>, prev: seq<nat>, ip: nat, op: int, lit: nat, toks: seq<Token>, outLen: nat,
                        toks': seq<Token>, first': seq<int>, prev': seq<nat>, bestP: int)
    requires Pending(output, op, lit, toks, input, ip) && lit <= ip && ip + 2 < |input| && base >= U16
    requires Steady(input, hash, base, worst, first, prev, ip, op, lit, toks, outLen)
    requires Linked(input, hash, base, first, prev, first', prev', ip, 0, bestP)
    requires toks' == (if lit + 1 < MAX_LIT then toks else WithRun(toks, lit + 1, input, ip + 1)) && Saved(toks') == Saved(toks)
    ensures var full := lit + 1 == MAX_LIT;
            Steady(input, hash, base, worst, first', prev', ip + 1, op + (if full then 2 else 1), if full then 0 else lit + 1, toks', outLen)
  {
    hide Pending, Paced, Chained, Saved, PendingMarks, Tested, WithRun, Chain, Longest, PrevSlot, FirstSlot, LongestMatches;
    var keys, full := Keys(input, hash), lit + 1 == MAX_LIT;
    PendingFacts(output, op, lit, toks, input, ip);
    MarksOfLiteral(output, op, lit, toks, input, ip, outLen);
    KeysAreOfThree(input, hash);
    PacedByLiteral(input, hash, base, worst, first, prev', ip, op, lit, toks,
                   op + (if full then 2 else 1), if full then 0 else lit + 1, toks');
    LiteralIsLongest(input, keys, base, first, prev, PendingMarks(toks, lit), bestP);
    LinkKeeps(keys, base, first, prev, ip);
    assert |PendingMarks(toks, lit) + [Single]| == ip + 1;
  }

  lemma SteadyByMatch(output: seq<Octet>, input: seq<Octet>, hash: (Octet, Octet, Octet) -> nat, base: nat, worst: bool,
                      first: seq<int>, prev: seq<nat>, ip: nat, op: int, lit: nat, toks: seq<Token>, outLen: nat,
                      bestL: nat, bestP: nat, op': int, toks': seq<Token>, first1: seq<int>, prev1: seq<nat>,
                      first': seq<int>, prev': seq<nat>)
    requires Pending(output, op, lit, toks, input, ip) && lit <= ip && ip + 2 < |input| && base >= U16
    requires Steady(input, hash, base, worst, first, prev, ip, op, lit, toks, outLen)
    requires op - (if lit == 0 then 1 else 0) + 4 < outLen
    requires bestP < ip && WellFormed(BackRef(ip - bestP, bestL)) && Repeats(input, bestP, ip, bestL)
    requires Linked(input, hash, base, first, prev, first1, prev1, ip, bestL, bestP)
    requires toks' == WithRun(toks, lit, input, ip) + [BackRef(ip - bestP, bestL)] && Saved(toks') == 4
    requires 0 < op' == op - (if lit == 0 then 1 else 0) + if bestL < 9 then 3 else 4
    requires |first'| == FIRST_SIZE && |prev'| == MAX_OFF
    requires ip + bestL + 2 < |input| ==> Chained(Keys(input, hash), base, first', prev', ip + bestL)
    ensures Steady(input, hash, base, worst, first', prev', ip + bestL, op', 0, toks', outLen)
  {
    hide Pending, Paced, Chained, Saved, PendingMarks, Tested, WithRun, Chain, Longest, PrevSlot, FirstSlot,
      LongestMatches, MarksOf, Repeats;
    PendingFacts(output, op, lit, toks, input, ip);
    MarksOfMatch(output, op, lit, toks, input, ip, outLen, ip - bestP, bestL);
    MatchLong(ip - bestP, bestL);
    KeysAreOfThree(input, hash);
    PacedByMatch(input, hash, base, worst, first, ip, op, lit, toks, bestL, bestP, first', op', toks');
    MatchIsLongest(input, Keys(input, hash), base, first, prev, PendingMarks(toks, lit), bestL, bestP);
  }

  /** What the tokens so far say when the encoder stops. */
  ghost predicate Chosen(input: seq<Octet>, toks: seq<Token>, outLen: nat) {
    AllWellFormed(toks) && FullRuns(toks) && Tested(toks, outLen) && LongestMatches(input, Marks(toks))
  }

  lemma StopsAt(output: seq<Octet>, op: int, lit: nat, toks: seq<Token>, input: seq<Octet>, ip: nat, outLen: nat,
                hash: (Octet, Octet, Octet) -> nat, base: nat, worst: bool, first: seq<int>, prev: seq<nat>)
    requires Pending(output, op, lit, toks, input, ip)
    requires Steady(input, hash, base, worst, first, prev, ip, op, lit, toks, outLen)
    requires op - (if lit == 0 then 1 else 0) + 4 >= outLen
    ensures lit <= ip <= |input|
    ensures var all := WithRun(toks, lit, input, ip); Chosen(input, all, outLen) && GaveUp(input, all, outLen)
  {
    hide Pending, Tested, Encode, Expand, Marks, FullRuns, Paced, Chained, LongestMatches;
    WrittenSoFar(output, op, lit, toks, input, ip, outLen);
  }

  lemma SteadyAtTheEnd(input: seq<Octet>, hash: (Octet, Octet, Octet) -> nat, base: nat, worst: bool, first: seq<int>,
                       prev: seq<nat>, ip: nat, op: int, lit: int, toks: seq<Token>, outLen: nat)
    requires Steady(input, hash, base, worst, first, prev, ip, op, lit, toks, outLen) && input != []
    requires 0 <= lit <= ip <= |input| <= ip + 2 && 32 * (op - lit - 1) + Saved(toks) <= 33 * (ip - lit)
    ensures AllWellFormed(toks) && Tested(toks, outLen)
    ensures LongestMatches(input, PendingMarks(toks, lit)) && |PendingMarks(toks, lit)| == ip
    ensures op + 3 <= Needed(|input|)
    ensures worst && (|input| > 3 ==> Costly(input, 0)) ==> op + 3 == Needed(|input|)
  {
    hide Paced, Chained, Saved, PendingMarks, Tested, Needed, LongestMatches, Costly;
    RoomAtTheEnd(input, hash, base, worst, first, ip, op, lit, toks);
  }

  /** What linking and searching at ip did to the tables. */
  ghost predicate Linked(input: seq<Octet>, hash: (Octet, Octet, Octet) -> nat, base: nat, first: seq<int>, prev: seq<nat>,
                         first': seq<int>, prev': seq<nat>, ip: nat, bestL: nat, bestP: int)
  {
    && ip + 2 < |input| && |first| == FIRST_SIZE && |prev| == MAX_OFF && base >= U16
    && first' == first[SlotAt(input, hash, ip) := base + ip]
    && prev' == prev[PrevSlot(base + ip) := (base + ip - first[SlotAt(input, hash, ip)]) % U16]
    && Searched(input, base, prev', first[SlotAt(input, hash, ip)], ip, bestL, bestP)
  }

  /** One position: it is linked into its chain, and the chain is searched. */
  method Find(input: seq<Octet>, beyond: Octet, base: nat, ip: nat, hash: (Octet, Octet, Octet) -> nat, state: State)
    returns (bestL: nat, bestP: int)
    requires base >= U16 && 1 <= ip && ip + 2 < |input| && state.Valid()
    requires Chained(Keys(input, hash), base, state.first[..], state.prev[..], ip)
    modifies state.first, state.prev
    ensures Chained(Keys(input, hash), base, state.first[..], state.prev[..], ip + 1)
    ensures Linked(input, hash, base, old(state.first[..]), old(state.prev[..]), state.first[..], state.prev[..], ip, bestL, bestP)
    ensures bestL != 0 ==>
              && 0 <= bestP < ip && ip + bestL <= |input| && Repeats(input, bestP, ip, bestL)
              && WellFormed(BackRef(ip - bestP, bestL))
  {
    hide Chained, Chain, Longest, FirstSlot, PrevSlot;
    LinkKeeps(Keys(input, hash), base, state.first[..], state.prev[..], ip);
    var p := Link(state, FirstSlot(hash, input[ip], input[ip + 1], input[ip + 2]), base + ip);
    bestL, bestP := Search(input, beyond, base, ip, state.prev, p);
  }

  /** The match found is written, and the positions inside it join their chains unless the end is
      near. */
  method TakeMatch(input: seq<Octet>, hash: (Octet, Octet, Octet) -> nat, base: nat, state: State, output: array<Octet>,
                   outLen: nat, ip: nat, op: nat, lit: nat, bestL: nat, bestP: int, ghost toks: seq<Token>,
                   ghost worst: bool, ghost first: seq<int>, ghost prev: seq<nat>)
    returns (ip': nat, op': nat, ghost toks': seq<Token>)
    requires Pending(output[..], op, lit, toks, input, ip) && ip + 2 < |input| && base >= U16 && state.Valid()
    requires Steady(input, hash, base, worst, first, prev, ip, op, lit, toks, outLen) && outLen <= output.Length
    requires op - (if lit == 0 then 1 else 0) + 4 < outLen
    requires bestL != 0 && 0 <= bestP < ip && ip + bestL <= |input| && Repeats(input, bestP, ip, bestL)
    requires WellFormed(BackRef(ip - bestP, bestL))
    requires Linked(input, hash, base, first, prev, state.first[..], state.prev[..], ip, bestL, bestP)
    requires Chained(Keys(input, hash), base, state.first[..], state.prev[..], ip + 1)
    modifies output, state.first, state.prev
    ensures 2 <= op' && ip < ip' <= |input| && Pending(output[..], op', 0, toks', input, ip')
    ensures Steady(input, hash, base, worst, state.first[..], state.prev[..], ip', op', 0, toks', outLen)
  {
    hide Encode, Expand, Pending, Unpatched, Covers, Repeats, Saved, Steady, FirstSlot, PrevSlot, Chained, Marks, Tested,
      WithRun, PendingMarks, LongestMatches, Linked, Keys;
    var off := ip - bestP - 1;
    ghost var output0, first1, prev1 := output[..], state.first[..], state.prev[..];
    PendingFacts(output[..], op, lit, toks, input, ip);
    op', toks' := PutMatch(output, op, lit, off, bestL, toks, input, ip);
    ip' := ip + bestL;
    if ip' < |input| - 2 {
      Fill(input, state, base, hash, ip + 1, ip');
    }
    SteadyByMatch(output0, input, hash, base, worst, first, prev, ip, op, lit, toks, outLen, bestL, bestP,
                  op', toks', first1, prev1, state.first[..], state.prev[..]);
  }

  /** The first literal is stored before any capacity test, so the buffer must hold two octets
      whatever out_len says. Needed octets of output suffice for every input, every hash function
      and all tables; fewer do not suffice for the worst inputs. Whatever the hash and the tables,
      no octets that stand in the window are left as literals and every match is the longest. */
  method CompressBest(input: seq<Octet>, beyond: Octet, base: nat, output: array<Octet>, outLen: nat,
                      hash: (Octet, Octet, Octet) -> nat, state: State)
    returns (r: nat, ghost toks: seq<Token>)
    requires base >= U16 && state.Valid()
    requires output.Length == if outLen < 2 then 2 else outLen
    modifies output, state.first, state.prev
    ensures input == [] || outLen == 0 ==> r == 0
    ensures r != 0 ==> r <= outLen && AllWellFormed(toks) && output[..r] == Encode(toks) && Expand(toks) == Some(input)
    ensures r <= MaxCompressedSize(|input|)
    ensures outLen < 5 ==> r == 0
    ensures input != [] && outLen >= Needed(|input|) ==> r != 0
    ensures input != [] && outLen < Needed(|input|) && old(Worst(input, hash, base, state.first[..])) ==> r == 0
    ensures Chosen(input, toks, outLen)
    ensures r == 0 && input != [] ==> GaveUp(input, toks, outLen)
  {
    hide Encode, Expand, Pending, Unpatched, Covers, Repeats, Chain, Longest, Saved, Worst, Needed, Steady, Costly,
      FirstSlot, PrevSlot, Chained, Chosen, GaveUp, Marks, Tested, WithRun, FullRuns, PendingMarks, LongestMatches, Linked,
      Keys;
    r, toks := 0, [];
    NothingChosen(input, outLen);
    if |input| == 0 || outLen == 0 {
      return;
    }
    ghost var worst := Worst(input, hash, base, state.first[..]);
    if worst {
      WorstIsCostly(input, hash, base, state.first[..]);
    }
    var ip, op, lit := 0, 1, 0;
    StartUp(output[..], input);
    SteadyAtStart(output[..], input, hash, base, state.first[..], state.prev[..], outLen);
    op, lit, toks := PutLiteral(output, op, lit, input[ip], toks, input, ip);
    ip := ip + 1;
    while ip < |input| - 2
      invariant 0 < ip <= |input| && 0 <= lit < op && 2 <= op && Pending(output[..], op, lit, toks, input, ip)
      invariant Steady(input, hash, base, worst, state.first[..], state.prev[..], ip, op, lit, toks, outLen)
    {
      PendingFacts(output[..], op, lit, toks, input, ip);
      RoomInside(|input|, ip, op, lit);
      ghost var output0, first, prev, op0, lit0, toks0 := output[..], state.first[..], state.prev[..], op, lit, toks;
      SteadyIsChained(input, hash, base, worst, first, prev, ip, op, lit, toks, outLen);
      var bestL, bestP := Find(input, beyond, base, ip, hash, state);
      ghost var first1, prev1 := state.first[..], state.prev[..];
      if bestL != 0 {
        if op + 3 + 1 >= outLen && op - (if lit == 0 then 1 else 0) + 3 + 1 >= outLen {
          StopsAt(output[..], op, lit, toks, input, ip, outLen, hash, base, worst, first, prev);
          toks := WithRun(toks, lit, input, ip);
          return;
        }
        ip, op, toks := TakeMatch(input, hash, base, state, output, outLen, ip, op, lit, bestL, bestP, toks,
                                  worst, first, prev);
        lit := 0;
      } else {
        if op >= outLen {
          StopsAt(output[..], op, lit, toks, input, ip, outLen, hash, base, worst, first, prev);
          toks := WithRun(toks, lit, input, ip);
          return;
        }
        op, lit, toks := PutLiteral(output, op, lit, input[ip], toks, input, ip);
        SteadyByLiteral(output0, input, hash, base, worst, first, prev, ip, op0, lit0, toks0, outLen, toks, first1, prev1, bestP);
        ip := ip + 1;
      }
    }
    PendingFacts(output[..], op, lit, toks, input, ip);
    SteadyAtTheEnd(input, hash, base, worst, state.first[..], state.prev[..], ip, op, lit, toks, outLen);
    if op + 3 > outLen {
      StopsAt(output[..], op, lit, toks, input, ip, outLen, hash, base, worst, state.first[..], state.prev[..]);
      toks := WithRun(toks, lit, input, ip);
      return;
    }
    ghost var marks := PendingMarks(toks, lit);
    r, toks := Finish(input, output, outLen, ip, op, lit, toks);
    FinishChosen(input, marks, Singles(|input| - ip), toks, outLen);
  }

  lemma NothingChosen(input: seq<Octet>, outLen: nat)
    ensures Chosen(input, [], outLen)
    ensures outLen == 0 ==> GaveUp(input, [], outLen)
  {
  }

  lemma SteadyIsChained(input: seq<Octet>, hash: (Octet, Octet, Octet) -> nat, base: nat, worst: bool, first: seq<int>,
                        prev: seq<nat>, ip: nat, op: int, lit: int, toks: seq<Token>, outLen: nat)
    requires Steady(input, hash, base, worst, first, prev, ip, op, lit, toks, outLen) && ip + 2 < |input|
    ensures Chained(Keys(input, hash), base, first, prev, ip)
  {
  }

  lemma FinishChosen(input: seq<Octet>, marks: seq<Mark>, more: seq<Mark>, toks: seq<Token>, outLen: nat)
    requires LongestMatches(input, marks) && |marks| + 2 >= |input|
    requires AllWellFormed(toks) && FullRuns(toks) && Tested(toks, outLen) && Marks(toks) == marks + more
    ensures Chosen(input, toks, outLen)
  {
    hide LongestMatches, Tested, Marks, FullRuns;
    LongestEnds(input, marks, more);
  }
}
