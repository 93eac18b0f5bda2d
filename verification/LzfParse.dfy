/** How an encoder cut its input into literals and matches, and what it means to have left no
    match unused. Nothing here depends on how candidates are looked up. */
module LzfParse {
  import opened Sequences
  import opened LzfFormat
  import opened LzfRepeat

  /** What became of one octet of the input: a literal, the first octet of a match, or an inner
      octet with left more octets of its match behind it. */
  datatype Mark = Single | Start(dist: nat, len: nat) | Inner(left: nat)

  ghost function Inners(n: nat): (marks: seq<Mark>)
    ensures |marks| == n && forall i :: 0 <= i < n ==> marks[i] == Inner(n - 1 - i)
  {
    seq(n, i requires 0 <= i < n => Inner(n - 1 - i))
  }

  ghost function Singles(n: nat): (marks: seq<Mark>)
    ensures |marks| == n && forall i :: 0 <= i < n ==> marks[i] == Single
  {
    seq(n, _ => Single)
  }

  ghost function MarksOf(t: Token): (marks: seq<Mark>)
    requires WellFormed(t)
    ensures marks != []
  {
    match t
    case Literals(run) => Singles(|run|)
    case BackRef(dist, len) => [Start(dist, len)] + Inners(len - 1)
  }

  /** One mark for each octet that the tokens stand for. */
  ghost function Marks(toks: seq<Token>): seq<Mark>
    requires AllWellFormed(toks)
  {
    if toks == [] then [] else Marks(toks[..|toks| - 1]) + MarksOf(toks[|toks| - 1])
  }

  lemma AppendMarks(toks: seq<Token>, t: Token)
    requires AllWellFormed(toks) && WellFormed(t)
    ensures AllWellFormed(toks + [t]) && Marks(toks + [t]) == Marks(toks) + MarksOf(t)
  {
    assert (toks + [t])[..|toks|] == toks;
  }

  lemma {:induction false} OneMarkPerOctet(toks: seq<Token>)
    requires AllWellFormed(toks) && Expand(toks).Some?
    ensures |Marks(toks)| == |Expand(toks).value|
  {
    if toks != [] {
      OneMarkPerOctet(toks[..|toks| - 1]);
    }
  }

  lemma MatchLong(dist: nat, len: nat)
    requires WellFormed(BackRef(dist, len))
    ensures |MarksOf(BackRef(dist, len))| == len
  {
  }

  // ---------- runs ----------

  ghost predicate IsRun(t: Token) {
    t.Literals?
  }

  /** A run that another run follows is full. */
  ghost predicate FullRuns(toks: seq<Token>) {
    forall i :: 0 < i < |toks| && IsRun(toks[i - 1]) && IsRun(toks[i]) ==> |toks[i - 1].run| == MAX_LIT
  }

  /** A run may follow. */
  ghost predicate Open(toks: seq<Token>) {
    FullRuns(toks) && (toks != [] && IsRun(toks[|toks| - 1]) ==> |toks[|toks| - 1].run| == MAX_LIT)
  }

  lemma RunsStayFull(toks: seq<Token>, t: Token)
    requires FullRuns(toks) && (Open(toks) || !IsRun(t))
    ensures FullRuns(toks + [t]) && (!IsRun(t) || |t.run| == MAX_LIT ==> Open(toks + [t]))
  {
    var all := toks + [t];
    forall i | 0 < i < |all| && IsRun(all[i - 1]) && IsRun(all[i])
      ensures |all[i - 1].run| == MAX_LIT
    {
      if i < |toks| {
        assert toks[i - 1] == all[i - 1] && toks[i] == all[i];
      }
    }
  }

  // ---------- no match left unused ----------

  /** Positions an encoder enters into its table: literals, and the first and the last two octets
      of a match. */
  ghost predicate Entered(mark: Mark) {
    mark.Inner? ==> mark.left <= 1
  }

  /** q is the last position entered before p under the key of p. */
  ghost predicate Latest(keys: seq<nat>, marks: seq<Mark>, q: int, p: int) {
    && 0 <= q < p < |keys| && p <= |marks|
    && Entered(marks[q]) && keys[q] == keys[p]
    && forall x :: q < x < p && Entered(marks[x]) ==> keys[x] != keys[p]
  }

  /** A match of len octets at distance dist cannot be made longer: it is as long as a reference
      can be, or reaches the last two octets, or the next octets differ. */
  ghost predicate Maximal(input: seq<Octet>, p: nat, dist: nat, len: nat) {
    len < MAX_REF && p + len + 2 < |input| ==> dist <= p && input[p - dist + len] != input[p + len]
  }

  /** One position of a greedy parse: it looks at the latest entry under its key and nowhere else;
      if that lies in the window, is not the first octet, and shares three octets, a match with it
      starts here and is maximal; otherwise the octet is a literal. blank says that nothing else
      was in the table. */
  ghost predicate GreedyAt(input: seq<Octet>, keys: seq<nat>, marks: seq<Mark>, blank: bool, p: nat)
    requires p < |marks|
  {
    && (marks[p].Single? ==> forall q :: 1 <= q && p - q <= MAX_OFF && Latest(keys, marks, q, p) ==> !SameThree(input, q, p))
    && (marks[p].Start? ==>
          && Maximal(input, p, marks[p].dist, marks[p].len)
          && (forall q :: Latest(keys, marks, q, p) ==> q == p - marks[p].dist)
          && (blank ==> Latest(keys, marks, p - marks[p].dist, p)))
  }

  /** The whole parse is greedy, up to the last margin octets. */
  ghost predicate Greedy(input: seq<Octet>, keys: seq<nat>, marks: seq<Mark>, blank: bool, margin: nat) {
    forall p :: 0 <= p < |marks| && p + margin < |input| ==> GreedyAt(input, keys, marks, blank, p)
  }

  lemma LatestKeeps(keys: seq<nat>, marks: seq<Mark>, more: seq<Mark>, q: int, p: int)
    requires p <= |marks|
    ensures Latest(keys, marks + more, q, p) <==> Latest(keys, marks, q, p)
  {
    assert forall x :: 0 <= x < p ==> (marks + more)[x] == marks[x];
  }

  lemma GreedyAtKeeps(input: seq<Octet>, keys: seq<nat>, marks: seq<Mark>, more: seq<Mark>, blank: bool, p: nat)
    requires p < |marks|
    ensures GreedyAt(input, keys, marks + more, blank, p) <==> GreedyAt(input, keys, marks, blank, p)
  {
    hide Latest, SameThree;
    forall q {
      LatestKeeps(keys, marks, more, q, p);
    }
    assert (marks + more)[p] == marks[p];
  }

  lemma GreedyGrows(input: seq<Octet>, keys: seq<nat>, marks: seq<Mark>, more: seq<Mark>, blank: bool, margin: nat)
    requires Greedy(input, keys, marks, blank, margin)
    requires forall i :: 0 < i < |more| ==> more[i].Inner?
    requires more != [] && |marks| + margin < |input| ==> GreedyAt(input, keys, marks + more, blank, |marks|)
    ensures Greedy(input, keys, marks + more, blank, margin)
  {
    hide Latest, SameThree, Maximal;
    forall p | 0 <= p < |marks + more| && p + margin < |input|
      ensures GreedyAt(input, keys, marks + more, blank, p)
    {
      if p < |marks| {
        GreedyAtKeeps(input, keys, marks, more, blank, p);
      } else if p > |marks| {
        assert (marks + more)[p] == more[p - |marks|];
      }
    }
  }

  /** The last margin octets are free. */
  lemma GreedyEnds(input: seq<Octet>, keys: seq<nat>, marks: seq<Mark>, more: seq<Mark>, blank: bool, margin: nat)
    requires Greedy(input, keys, marks, blank, margin) && |marks| + margin >= |input|
    ensures Greedy(input, keys, marks + more, blank, margin)
  {
    hide GreedyAt;
    forall p | 0 <= p < |marks + more| && p + margin < |input|
      ensures GreedyAt(input, keys, marks + more, blank, p)
    {
      GreedyAtKeeps(input, keys, marks, more, blank, p);
    }
  }

  // ---------- a table of the latest entries ----------

  /** q is the last position entered under a key. */
  ghost predicate LastUnder(keys: seq<nat>, marks: seq<Mark>, key: int, q: int) {
    && 0 <= q < |keys| && q < |marks| && Entered(marks[q]) && keys[q] == key
    && forall x :: q < x < |marks| && x < |keys| && Entered(marks[x]) ==> keys[x] != key
  }

  /** The table answers with the last position entered under each key; when it was blank it holds
      nothing else. */
  ghost predicate Tabled(htab: seq<int>, keys: seq<nat>, marks: seq<Mark>, blank: bool) {
    && (forall key, q :: LastUnder(keys, marks, key, q) ==> key < |htab| && htab[key] == q)
    && (blank ==> forall key :: 0 <= key < |htab| ==> htab[key] == 0 || LastUnder(keys, marks, key, htab[key]))
  }

  lemma TabledAtStart(htab: seq<int>, keys: seq<nat>, blank: bool)
    requires blank ==> forall key :: 0 <= key < |htab| ==> htab[key] == 0
    ensures Tabled(htab, keys, [], blank)
  {
  }

  lemma TabledEnters(htab: seq<int>, keys: seq<nat>, marks: seq<Mark>, mark: Mark, blank: bool)
    requires Tabled(htab, keys, marks, blank) && Entered(mark)
    requires |marks| < |keys| && keys[|marks|] < |htab|
    ensures Tabled(htab[keys[|marks|] := |marks|], keys, marks + [mark], blank)
  {
    var p, after := |marks|, marks + [mark];
    var htab' := htab[keys[p] := p];
    hide Entered;
    forall key, q | LastUnder(keys, after, key, q)
      ensures key < |htab'| && htab'[key] == q
    {
      if q < p {
        assert after[p] == mark && keys[p] != key;
        assert LastUnder(keys, marks, key, q) by {
          assert forall x :: 0 <= x < p ==> after[x] == marks[x];
        }
      } else {
        assert key == keys[p];
      }
    }
    if blank {
      forall key | 0 <= key < |htab'|
        ensures htab'[key] == 0 || LastUnder(keys, after, key, htab'[key])
      {
        if key != keys[p] && htab[key] != 0 {
          assert LastUnder(keys, marks, key, htab[key]);
          assert forall x :: 0 <= x < p ==> after[x] == marks[x];
        }
      }
    }
  }

  lemma TabledSkips(htab: seq<int>, keys: seq<nat>, marks: seq<Mark>, mark: Mark, blank: bool)
    requires Tabled(htab, keys, marks, blank) && !Entered(mark)
    ensures Tabled(htab, keys, marks + [mark], blank)
  {
    hide Entered;
    var p, after := |marks|, marks + [mark];
    assert forall x :: 0 <= x < p ==> after[x] == marks[x];
    assert after[p] == mark;
    forall key, q
      ensures LastUnder(keys, after, key, q) <==> LastUnder(keys, marks, key, q)
    {
    }
  }

  lemma {:induction false} TabledSkipsAll(htab: seq<int>, keys: seq<nat>, marks: seq<Mark>, more: seq<Mark>, blank: bool)
    requires Tabled(htab, keys, marks, blank) && forall i :: 0 <= i < |more| ==> !Entered(more[i])
    ensures Tabled(htab, keys, marks + more, blank)
    decreases |more|
  {
    hide Tabled, Entered;
    if more == [] {
      assert marks + more == marks;
    } else {
      var front, last := more[..|more| - 1], more[|more| - 1];
      TabledSkipsAll(htab, keys, marks, front, blank);
      TabledSkips(htab, keys, marks + front, last, blank);
      assert marks + more == (marks + front) + [last];
    }
  }

  /** A match enters its first octet and its last two. */
  lemma TabledByMatch(htab: seq<int>, keys: seq<nat>, marks: seq<Mark>, dist: nat, len: nat, blank: bool)
    requires Tabled(htab, keys, marks, blank) && WellFormed(BackRef(dist, len)) && |marks| + len <= |keys|
    requires forall i :: 0 <= i < |keys| ==> keys[i] < |htab|
    ensures var p, end := |marks|, |marks| + len;
            var htab' := htab[keys[p] := p][keys[end - 2] := end - 2][keys[end - 1] := end - 1];
            Tabled(htab', keys, marks + MarksOf(BackRef(dist, len)), blank)
  {
    hide Tabled, MarksOf, Inners, Entered;
    var p, end := |marks|, |marks| + len;
    var skipped := Inners(len - 1)[..len - 3];
    MatchMarks(marks, dist, len);
    TabledEnters(htab, keys, marks, Start(dist, len), blank);
    var htab1, m1 := htab[keys[p] := p], marks + [Start(dist, len)] + skipped;
    TabledSkipsAll(htab1, keys, marks + [Start(dist, len)], skipped, blank);
    TabledEnters(htab1, keys, m1, Inner(1), blank);
    var htab2, m2 := htab1[keys[end - 2] := end - 2], m1 + [Inner(1)];
    TabledEnters(htab2, keys, m2, Inner(0), blank);
  }

  lemma MatchMarks(marks: seq<Mark>, dist: nat, len: nat)
    requires WellFormed(BackRef(dist, len))
    ensures var skipped := Inners(len - 1)[..len - 3];
            && |Inners(len - 1)| == len - 1
            && marks + [Start(dist, len)] + skipped + [Inner(1)] + [Inner(0)] == marks + MarksOf(BackRef(dist, len))
            && forall i :: 0 <= i < |skipped| ==> !Entered(skipped[i])
    ensures Entered(Start(dist, len)) && Entered(Inner(1)) && Entered(Inner(0))
  {
    var inner := Inners(len - 1);
    assert inner == inner[..len - 3] + [Inner(1)] + [Inner(0)];
  }

  // ---------- one step of an encoder that uses such a table ----------

  /** The candidate is not one to take. */
  ghost predicate Unusable(input: seq<Octet>, ref: int, p: nat) {
    !(1 <= ref < p && p - ref <= MAX_OFF && SameThree(input, ref, p))
  }

  lemma LiteralIsGreedy(input: seq<Octet>, htab: seq<int>, keys: seq<nat>, marks: seq<Mark>, blank: bool, margin: nat)
    requires Tabled(htab, keys, marks, blank) && Greedy(input, keys, marks, blank, margin)
    requires |marks| + margin < |input| ==>
               |marks| < |keys| && keys[|marks|] < |htab| && Unusable(input, htab[keys[|marks|]], |marks|)
    ensures Greedy(input, keys, marks + [Single], blank, margin)
  {
    var p := |marks|;
    var after := marks + [Single];
    hide SameThree, Entered;
    forall q | Latest(keys, after, q, p)
      ensures LastUnder(keys, marks, keys[p], q)
    {
      assert forall x :: 0 <= x < p ==> after[x] == marks[x];
    }
    GreedyGrows(input, keys, marks, [Single], blank, margin);
  }

  lemma MatchIsGreedy(input: seq<Octet>, htab: seq<int>, keys: seq<nat>, marks: seq<Mark>, blank: bool, margin: nat,
                      dist: nat, len: nat)
    requires Tabled(htab, keys, marks, blank) && Greedy(input, keys, marks, blank, margin)
    requires WellFormed(BackRef(dist, len)) && |marks| < |keys| && keys[|marks|] < |htab|
    requires htab[keys[|marks|]] == |marks| - dist > 0 && Maximal(input, |marks|, dist, len)
    ensures Greedy(input, keys, marks + MarksOf(BackRef(dist, len)), blank, margin)
  {
    var p := |marks|;
    var after := marks + MarksOf(BackRef(dist, len));
    hide SameThree, Entered, Maximal;
    assert after[p] == Start(dist, len) && forall x :: 0 <= x < p ==> after[x] == marks[x];
    forall q
      ensures Latest(keys, after, q, p) <==> LastUnder(keys, marks, keys[p], q)
    {
    }
    GreedyGrows(input, keys, marks, MarksOf(BackRef(dist, len)), blank, margin);
  }

  // ---------- the longest match wins ----------

  /** How far a match at p may be extended by comparing octets. */
  function Limit(input: seq<Octet>, p: nat): int {
    (if |input| - p < MAX_REF then |input| - p else MAX_REF) - 1
  }

  /** Lengths that the comparison can find at p. */
  ghost predicate Comparable(input: seq<Octet>, p: nat, n: int) {
    3 <= n && (n <= Limit(input, p) || n == 3)
  }

  /** A position a match may start at before p. */
  ghost predicate InWindow(q: int, p: int) {
    1 <= q < p && p - q <= MAX_OFF
  }

  /** One position of a parse that searches the whole window: an octet is a literal only if its
      three octets stand nowhere in it, and no match in it is longer than the one taken. */
  ghost predicate LongestAt(input: seq<Octet>, marks: seq<Mark>, p: nat)
    requires p < |marks|
  {
    && (marks[p].Single? ==> forall q :: InWindow(q, p) ==> !SameThree(input, q, p))
    && (marks[p].Start? ==>
          forall q, n :: (InWindow(q, p) || q == p - marks[p].dist) && Comparable(input, p, n) && Repeats(input, q, p, n) ==>
                           n <= marks[p].len)
  }

  ghost predicate LongestMatches(input: seq<Octet>, marks: seq<Mark>) {
    forall p :: 0 <= p < |marks| && p + 2 < |input| ==> LongestAt(input, marks, p)
  }

  lemma LongestGrows(input: seq<Octet>, marks: seq<Mark>, more: seq<Mark>)
    requires LongestMatches(input, marks)
    requires forall i :: 0 < i < |more| ==> more[i].Inner?
    requires more != [] && |marks| + 2 < |input| ==> LongestAt(input, marks + more, |marks|)
    ensures LongestMatches(input, marks + more)
  {
    hide SameThree, Repeats, InWindow;
    forall p | 0 <= p < |marks + more| && p + 2 < |input|
      ensures LongestAt(input, marks + more, p)
    {
      if p < |marks| {
        assert (marks + more)[p] == marks[p] && LongestAt(input, marks, p);
      } else if p > |marks| {
        assert (marks + more)[p] == more[p - |marks|];
      }
    }
  }

  lemma LongestEnds(input: seq<Octet>, marks: seq<Mark>, more: seq<Mark>)
    requires LongestMatches(input, marks) && |marks| + 2 >= |input|
    ensures LongestMatches(input, marks + more)
  {
    hide SameThree, Repeats, InWindow;
    forall p | 0 <= p < |marks + more| && p + 2 < |input|
      ensures LongestAt(input, marks + more, p)
    {
      assert (marks + more)[p] == marks[p] && LongestAt(input, marks, p);
    }
  }

  // ---------- what both laws say about runs of equal octets ----------

  /** Behind every literal and every match stands a position that was entered. */
  ghost predicate Shaped(marks: seq<Mark>) {
    forall p :: 0 < p < |marks| && !marks[p].Inner? ==> Entered(marks[p - 1])
  }

  lemma {:induction false} MarksAreShaped(toks: seq<Token>)
    requires AllWellFormed(toks)
    ensures Shaped(Marks(toks)) && (Marks(toks) != [] ==> Entered(Marks(toks)[|Marks(toks)| - 1]))
  {
    if toks != [] {
      var front, t := Marks(toks[..|toks| - 1]), toks[|toks| - 1];
      MarksAreShaped(toks[..|toks| - 1]);
      var last := MarksOf(t);
      assert Entered(last[|last| - 1]) && Shaped(last);
      forall p | 0 < p < |front + last| && !(front + last)[p].Inner?
        ensures Entered((front + last)[p - 1])
      {
        if p >= |front| {
          assert (front + last)[p] == last[p - |front|];
        }
      }
    }
  }

  /** Keys that depend on three octets alone, one for every place where three stand. */
  ghost predicate KeysOfThree(input: seq<Octet>, keys: seq<nat>) {
    && |keys| == (if |input| < 2 then 0 else |input| - 2)
    && forall q, p :: SameThree(input, q, p) ==> keys[q] == keys[p]
  }

  /** Three octets that repeat their predecessors are never literals of a greedy parse. */
  lemma RepetitionIsMatched(input: seq<Octet>, keys: seq<nat>, marks: seq<Mark>, blank: bool, margin: nat, p: nat)
    requires Greedy(input, keys, marks, blank, margin) && KeysOfThree(input, keys) && Shaped(marks)
    requires 2 <= p < |marks| && p + margin < |input| && SameThree(input, p - 1, p)
    ensures !marks[p].Single?
  {
    assert GreedyAt(input, keys, marks, blank, p);
    assert marks[p].Single? ==> Latest(keys, marks, p - 1, p);
  }

  /** A match reaches back inside the input and has at least three octets. */
  ghost predicate SoundStarts(marks: seq<Mark>) {
    forall p :: 0 <= p < |marks| && marks[p].Start? ==> 1 <= marks[p].dist <= p && marks[p].len >= 3
  }

  lemma {:induction false} StartsAreSound(toks: seq<Token>)
    requires AllWellFormed(toks) && Expand(toks).Some?
    ensures SoundStarts(Marks(toks))
  {
    if toks != [] {
      var front, t := toks[..|toks| - 1], toks[|toks| - 1];
      StartsAreSound(front);
      OneMarkPerOctet(front);
      var m, more := Marks(front), MarksOf(t);
      var all: seq<Mark> := m + more;
      forall p | 0 <= p < |all| && all[p].Start?
        ensures 1 <= all[p].dist <= p && all[p].len >= 3
      {
        if p >= |m| {
          assert all[p] == more[p - |m|];
        }
      }
    }
  }

  /** A repetition of a position that was entered is passed over only when a later entry with other
      octets has taken its key. */
  lemma OnlyCollisionsHide(input: seq<Octet>, keys: seq<nat>, marks: seq<Mark>, blank: bool, margin: nat, q: nat, p: nat)
    requires Greedy(input, keys, marks, blank, margin) && KeysOfThree(input, keys)
    requires p < |marks| && p + margin < |input| && marks[p].Single?
    requires 1 <= q < p && p - q <= MAX_OFF && Entered(marks[q]) && SameThree(input, q, p)
    ensures exists x :: q < x < p && Entered(marks[x]) && keys[x] == keys[p] && !SameThree(input, x, p)
  {
    hide Entered;
    var x := LatestFrom(keys, marks, q, p);
    assert GreedyAt(input, keys, marks, blank, p);
    assert !SameThree(input, x, p);
  }

  lemma {:induction false} LatestFrom(keys: seq<nat>, marks: seq<Mark>, q: nat, p: nat) returns (x: nat)
    requires q < p < |keys| && p <= |marks| && Entered(marks[q]) && keys[q] == keys[p]
    ensures q <= x && Latest(keys, marks, x, p)
  {
    hide Entered;
    x := p - 1;
    while !(Entered(marks[x]) && keys[x] == keys[p])
      invariant q <= x < p
      invariant forall y :: x < y < p && Entered(marks[y]) ==> keys[y] != keys[p]
      decreases x
    {
      x := x - 1;
    }
  }

  /** What is left as literals, and how short a match may be, when all octets are equal. */
  ghost predicate Packs(n: nat, marks: seq<Mark>, margin: nat) {
    && (forall p :: 0 <= p < |marks| && marks[p].Single? ==> p < 2 || p + margin >= n)
    && (forall p :: 0 <= p < |marks| && marks[p].Start? ==> marks[p].len >= MAX_REF - 1 || p + marks[p].len + 2 >= n)
  }

  ghost predicate AllEqual(input: seq<Octet>) {
    forall i :: 0 <= i < |input| ==> input[i] == input[0]
  }

  lemma GreedyPacks(input: seq<Octet>, keys: seq<nat>, marks: seq<Mark>, blank: bool, margin: nat)
    requires Greedy(input, keys, marks, blank, margin) && KeysOfThree(input, keys) && Shaped(marks)
    requires AllEqual(input) && 2 <= margin <= 4 && SoundStarts(marks)
    ensures Packs(|input|, marks, margin)
  {
    hide Shaped, KeysOfThree;
    forall p | 0 <= p < |marks| && marks[p].Single?
      ensures p < 2 || p + margin >= |input|
    {
      if p >= 2 && p + margin < |input| {
        RepetitionIsMatched(input, keys, marks, blank, margin, p);
      }
    }
    forall p | 0 <= p < |marks| && marks[p].Start?
      ensures marks[p].len >= MAX_REF - 1 || p + marks[p].len + 2 >= |input|
    {
      if p + margin < |input| {
        assert GreedyAt(input, keys, marks, blank, p);
        var len, q := marks[p].len, p - marks[p].dist;
        assert p + len < |input| ==> input[q + len] == input[p + len];
      }
    }
  }

  lemma LongestPacks(input: seq<Octet>, marks: seq<Mark>)
    requires LongestMatches(input, marks) && AllEqual(input) && |marks| <= |input|
    requires SoundStarts(marks)
    ensures Packs(|input|, marks, 2)
  {
    forall p | 0 <= p < |marks| && marks[p].Single?
      ensures p < 2 || p + 2 >= |input|
    {
      if p >= 2 && p + 2 < |input| {
        assert LongestAt(input, marks, p);
        assert InWindow(p - 1, p) && SameThree(input, p - 1, p);
      }
    }
    forall p | 0 <= p < |marks| && marks[p].Start?
      ensures marks[p].len >= MAX_REF - 1 || p + marks[p].len + 2 >= |input|
    {
      if p + 3 < |input| {
        assert LongestAt(input, marks, p);
        var q, n := p - marks[p].dist, Limit(input, p);
        if n >= 3 {
          assert input[p..p + n] == input[q..q + n];
          assert Repeats(input, q, p, n);
        }
      }
    }
  }

  // ---------- how few octets such a parse takes ----------

  ghost function SinglesIn(marks: seq<Mark>): nat {
    if marks == [] then 0 else SinglesIn(marks[..|marks| - 1]) + if marks[|marks| - 1].Single? then 1 else 0
  }

  lemma {:induction false} FewSingles(n: nat, marks: seq<Mark>, margin: nat)
    requires Packs(n, marks, margin) && |marks| <= n
    ensures SinglesIn(marks) <= (if |marks| < 2 then |marks| else 2) + (if |marks| + margin < n then 0 else |marks| + margin - n)
    decreases |marks|
  {
    if marks != [] {
      var front := marks[..|marks| - 1];
      assert forall p :: 0 <= p < |front| ==> front[p] == marks[p];
      FewSingles(n, front, margin);
    }
  }

  lemma {:induction false} SinglesAddUp(a: seq<Mark>, b: seq<Mark>)
    ensures SinglesIn(a + b) == SinglesIn(a) + SinglesIn(b)
    decreases |b|
  {
    if b == [] {
      assert a + b == a;
    } else {
      assert (a + b)[..|a + b| - 1] == a + b[..|b| - 1];
      SinglesAddUp(a, b[..|b| - 1]);
    }
  }

  lemma {:induction false} SinglesOfRun(n: nat)
    ensures SinglesIn(Singles(n)) == n
  {
    if n > 0 {
      assert Singles(n)[..n - 1] == Singles(n - 1);
      SinglesOfRun(n - 1);
    }
  }

  /** Written in full matches, three octets stand for 263 or more; literals cost two at most, and
      there is one short match. */
  lemma {:induction false} PackedSize(n: nat, toks: seq<Token>, margin: nat)
    requires AllWellFormed(toks) && Packs(n, Marks(toks), margin) && |Marks(toks)| <= n
    ensures 263 * |Encode(toks)| <=
            3 * |Marks(toks)| + 526 * SinglesIn(Marks(toks)) + if |Marks(toks)| + 2 >= n then 789 else 0
    decreases |toks|
  {
    hide Packs, EncodeToken, MarksOf;
    if toks != [] {
      var front, t := toks[..|toks| - 1], toks[|toks| - 1];
      var m, more := Marks(front), MarksOf(t);
      PacksSplits(n, m, more, margin);
      PackedSize(n, front, margin);
      SinglesAddUp(m, more);
      PackedToken(n, m, t, margin);
    }
  }

  lemma PacksSplits(n: nat, m: seq<Mark>, more: seq<Mark>, margin: nat)
    requires Packs(n, m + more, margin)
    ensures Packs(n, m, margin)
  {
    assert forall p :: 0 <= p < |m| ==> m[p] == (m + more)[p];
  }

  lemma PackedToken(n: nat, m: seq<Mark>, t: Token, margin: nat)
    requires WellFormed(t) && Packs(n, m + MarksOf(t), margin) && |m + MarksOf(t)| <= n
    ensures var more := MarksOf(t);
            263 * |EncodeToken(t)| <= 3 * |more| + 526 * SinglesIn(more)
            || (263 * |EncodeToken(t)| <= 789 && |m| + 2 < n <= |m + more| + 2)
  {
    match t {
      case Literals(run) =>
        SinglesOfRun(|run|);
      case BackRef(dist, len) =>
        assert (m + MarksOf(t))[|m|] == Start(dist, len);
    }
  }

  /** Equal octets take little room: 3 octets for 263, and 7 + 2 * margin more. */
  lemma EqualOctetsAreSmall(input: seq<Octet>, toks: seq<Token>, margin: nat)
    requires AllWellFormed(toks) && Packs(|input|, Marks(toks), margin) && |Marks(toks)| <= |input|
    ensures |Encode(toks)| <= 3 * |input| / 263 + 7 + 2 * margin
  {
    hide Encode, Marks, Packs;
    PackedSize(|input|, toks, margin);
    FewSingles(|input|, Marks(toks), margin);
  }
}
