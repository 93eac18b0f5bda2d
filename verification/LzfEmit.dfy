/** The output side that lzf_compress and lzf_compress_best share: a pending literal run with
    a reserved control octet in front of it, patched when the run stops. */
module LzfEmit {
  import opened Sequences
  import opened LzfFormat
  import opened LzfRepeat
  import opened LzfParse

  /** LZF_MAX_COMPRESSED_SIZE of lzf.h. */
  function MaxCompressedSize(n: nat): nat {
    n * 33 / 32 + 1
  }

  lemma MaxIs(n: nat)
    ensures MaxCompressedSize(n) == n + n / 32 + 1
  {
  }

  ghost predicate Matched(toks: seq<Token>) {
    exists t :: t in toks && t.BackRef?
  }

  /** What a back reference is sure to have saved, in units of a 32nd of an octet. */
  ghost function Saved(toks: seq<Token>): nat {
    if Matched(toks) then 4 else 0
  }

  lemma SavedGrows(toks: seq<Token>, t: Token)
    ensures Saved(toks + [t]) == if t.BackRef? then 4 else Saved(toks)
  {
    assert t in toks + [t];
    assert forall u :: u in toks ==> u in toks + [t];
  }

  /** The tokens written so far stand for exactly the first upTo octets of the input, and
      growth is paid for: 32 octets in for every 33 out. */
  ghost predicate Covers(toks: seq<Token>, written: seq<Octet>, input: seq<Octet>, upTo: int) {
    && 0 <= upTo <= |input|
    && AllWellFormed(toks)
    && written == Encode(toks)
    && Open(toks)
    && Expand(toks) == Some(input[..upTo])
    && 32 * |written| + Saved(toks) <= 33 * upTo
  }

  lemma SomethingWritten(toks: seq<Token>, written: seq<Octet>, input: seq<Octet>)
    requires Stopped(toks, written, input, |input|) && input != []
    ensures 0 < |written| <= MaxCompressedSize(|input|)
    ensures AllWellFormed(toks) && FullRuns(toks) && written == Encode(toks) && Expand(toks) == Some(input)
  {
    assert input[..|input|] == input;
    assert toks != [];
  }

  /** A run of lit octets is pending; its control octet is reserved at op - lit - 1. op may
      stand one past the limit when the run is still empty. */
  ghost predicate Pending(output: seq<Octet>, op: int, lit: int, toks: seq<Token>, input: seq<Octet>, ip: int) {
    lit < MAX_LIT && Unpatched(output, op, lit, toks, input, ip)
  }

  lemma PendingFacts(output: seq<Octet>, op: int, lit: int, toks: seq<Token>, input: seq<Octet>, ip: int)
    requires Pending(output, op, lit, toks, input, ip)
    ensures 0 <= lit < MAX_LIT && lit <= ip <= |input| && lit + 1 <= op <= |output| + 1
    ensures 32 * (op - lit - 1) + Saved(toks) <= 33 * (ip - lit) && AllWellFormed(toks)
  {
  }

  /** As Covers, but a run shorter than LZF_MAX_LIT may just have been closed: its control
      octet is not yet paid for. */
  ghost predicate Stopped(toks: seq<Token>, written: seq<Octet>, input: seq<Octet>, upTo: int) {
    && 0 <= upTo <= |input|
    && AllWellFormed(toks)
    && written == Encode(toks)
    && FullRuns(toks)
    && Expand(toks) == Some(input[..upTo])
    && 32 * |written| + Saved(toks) <= 33 * upTo + 31
  }

  lemma RunStops(toks: seq<Token>, before: seq<Octet>, lit: nat, input: seq<Octet>, ip: nat)
    requires 1 <= lit <= MAX_LIT && lit <= ip <= |input| && Covers(toks, before, input, ip - lit)
    ensures var run := input[ip - lit..ip];
            var toks', written := toks + [Literals(run)], before + [lit - 1] + run;
            Stopped(toks', written, input, ip) && (lit == MAX_LIT ==> Covers(toks', written, input, ip))
  {
    hide Encode, Expand, FullRuns;
    var run := input[ip - lit..ip];
    RunsStayFull(toks, Literals(run));
    AppendToken(toks, Literals(run));
    SavedGrows(toks, Literals(run));
    assert before + [lit - 1] + run == before + ([lit - 1] + run);
    assert input[..ip - lit] + run == input[..ip];
  }

  lemma ReferenceCovers(toks: seq<Token>, before: seq<Octet>, off: nat, len: nat, input: seq<Octet>, ip: nat)
    requires Stopped(toks, before, input, ip)
    requires off < MAX_OFF && 3 <= len <= MAX_REF && Repeats(input, ip - off - 1, ip, len)
    ensures var t := BackRef(off + 1, len);
            Covers(toks + [t], before + EncodeToken(t), input, ip + len)
  {
    hide Encode, Expand, FullRuns;
    RunsStayFull(toks, BackRef(off + 1, len));
    AppendToken(toks, BackRef(off + 1, len));
    SavedGrows(toks, BackRef(off + 1, len));
    forall k | ip <= k < ip + len
      ensures input[k] == input[k - (off + 1)]
    {
      assert input[ip..ip + len][k - ip] == input[ip - off - 1..ip - off - 1 + len][k - ip];
    }
    CopyBackUnique(input, ip, off + 1, len);
  }

  /** A run of lit octets, at most LZF_MAX_LIT, stands before op and its control octet is
      still to be patched. */
  ghost predicate Unpatched(output: seq<Octet>, op: int, lit: int, toks: seq<Token>, input: seq<Octet>, ip: int) {
    && 0 <= lit <= MAX_LIT && lit <= ip <= |input|
    && lit + 1 <= op <= |output| + 1 && (lit > 0 ==> op <= |output|)
    && Covers(toks, output[..op - lit - 1], input, ip - lit)
    && (lit > 0 ==> output[op - lit..op] == input[ip - lit..ip])
  }

  /** The tokens once the run has stopped. */
  ghost function WithRun(toks: seq<Token>, lit: nat, input: seq<Octet>, ip: nat): seq<Token>
    requires lit <= ip <= |input|
  {
    if lit == 0 then toks else toks + [Literals(input[ip - lit..ip])]
  }

  /** The marks of the tokens and of the pending run. */
  ghost function PendingMarks(toks: seq<Token>, lit: nat): seq<Mark>
    requires AllWellFormed(toks)
  {
    Marks(toks) + Singles(lit)
  }

  /** The room test in front of every match was passed: four octets and one to spare. */
  ghost predicate Tested(toks: seq<Token>, outLen: nat)
    requires AllWellFormed(toks)
  {
    if toks == [] then true
    else
      var front := toks[..|toks| - 1];
      Tested(front, outLen) && (toks[|toks| - 1].BackRef? ==> |Encode(front)| + 4 < outLen)
  }

  lemma TestedGrows(toks: seq<Token>, t: Token, outLen: nat)
    requires AllWellFormed(toks) && WellFormed(t)
    ensures AllWellFormed(toks + [t])
    ensures Tested(toks + [t], outLen) <==> Tested(toks, outLen) && (t.BackRef? ==> |Encode(toks)| + 4 < outLen)
  {
    assert (toks + [t])[..|toks|] == toks;
  }

  lemma WithRunFacts(toks: seq<Token>, lit: nat, input: seq<Octet>, ip: nat, outLen: nat)
    requires AllWellFormed(toks) && lit <= ip <= |input| && lit <= MAX_LIT
    ensures AllWellFormed(WithRun(toks, lit, input, ip))
    ensures Marks(WithRun(toks, lit, input, ip)) == PendingMarks(toks, lit)
    ensures Tested(toks, outLen) ==> Tested(WithRun(toks, lit, input, ip), outLen)
  {
    hide Marks, Encode, Tested;
    if lit == 0 {
      assert Marks(toks) + Singles(0) == Marks(toks);
    } else {
      var run := input[ip - lit..ip];
      AppendMarks(toks, Literals(run));
      TestedGrows(toks, Literals(run), outLen);
    }
  }

  /** What stands in the output once the pending run is counted in. */
  lemma WrittenSoFar(output: seq<Octet>, op: int, lit: nat, toks: seq<Token>, input: seq<Octet>, ip: nat, outLen: nat)
    requires Pending(output, op, lit, toks, input, ip)
    ensures lit <= ip <= |input| && AllWellFormed(toks)
    ensures var all := WithRun(toks, lit, input, ip);
            && AllWellFormed(all) && FullRuns(all) && Expand(all) == Some(input[..ip])
            && |Encode(all)| == op - (if lit == 0 then 1 else 0)
            && Marks(all) == PendingMarks(toks, lit) && |Marks(all)| == ip
            && (Tested(toks, outLen) ==> Tested(all, outLen))
  {
    hide Encode, Expand, Marks, Tested, FullRuns;
    WithRunFacts(toks, lit, input, ip, outLen);
    if lit > 0 {
      RunStops(toks, output[..op - lit - 1], lit, input, ip);
    }
    OneMarkPerOctet(WithRun(toks, lit, input, ip));
  }

  lemma StoreInside(s: seq<Octet>, at: nat, v: Octet, end: nat)
    requires at < end <= |s|
    ensures s[at := v][..end] == s[..at] + [v] + s[at + 1..end]
  {
  }

  lemma PatchStopsRun(output: seq<Octet>, op: nat, lit: nat, toks: seq<Token>, input: seq<Octet>, ip: nat)
    requires Unpatched(output, op, lit, toks, input, ip) && op - lit - 1 < |output|
    ensures var toks', op' := WithRun(toks, lit, input, ip), op - if lit == 0 then 1 else 0;
            var written := output[op - lit - 1 := (lit - 1) % 256][..op'];
            && Stopped(toks', written, input, ip)
            && (lit == 0 || lit == MAX_LIT ==> Covers(toks', written, input, ip))
  {
    hide Encode, Expand;
    var at := op - lit - 1;
    var after := output[at := (lit - 1) % 256];
    if lit == 0 {
      assert after[..at] == output[..at];
    } else {
      StoreInside(output, at, lit - 1, op);
      RunStops(toks, output[..at], lit, input, ip);
    }
  }

  /** Stores the run's length in the octet reserved for it; an empty run gives that octet back. */
  method StopRun(output: array<Octet>, op: nat, lit: nat,
                 ghost toks: seq<Token>, ghost input: seq<Octet>, ghost ip: nat)
    returns (op': nat, ghost toks': seq<Token>)
    requires Unpatched(output[..], op, lit, toks, input, ip) && op - lit - 1 < output.Length
    modifies output
    ensures op' == op - if lit == 0 then 1 else 0
    ensures toks' == WithRun(toks, lit, input, ip)
    ensures Stopped(toks', output[..][..op'], input, ip)
    ensures lit == 0 || lit == MAX_LIT ==> Covers(toks', output[..][..op'], input, ip)
  {
    hide Encode, Expand;
    PatchStopsRun(output[..], op, lit, toks, input, ip);
    ghost var before: seq<Octet> := output[..];
    var ctrl: Octet := (lit - 1) % 256;
    output[op - lit - 1] := ctrl;
    assert output[..] == before[op - lit - 1 := ctrl];
    op', toks' := op - if lit == 0 then 1 else 0, WithRun(toks, lit, input, ip);
  }

  /** One more literal joins the run, which stops and restarts at LZF_MAX_LIT. */
  method PutLiteral(output: array<Octet>, op: nat, lit: nat, c: Octet,
                    ghost toks: seq<Token>, ghost input: seq<Octet>, ghost ip: nat)
    returns (op': nat, lit': nat, ghost toks': seq<Token>)
    requires Pending(output[..], op, lit, toks, input, ip)
    requires op < output.Length && ip < |input| && c == input[ip]
    modifies output
    ensures Pending(output[..], op', lit', toks', input, ip + 1)
    ensures lit + 1 < MAX_LIT ==> lit' == lit + 1 && op' == op + 1
    ensures lit + 1 == MAX_LIT ==> lit' == 0 && op' == op + 2
    ensures Saved(toks') == Saved(toks)
    ensures lit <= ip && toks' == if lit + 1 < MAX_LIT then toks else WithRun(toks, lit + 1, input, ip + 1)
  {
    hide Encode, Expand, Open, FullRuns;
    ghost var before := output[..];
    output[op] := c;
    op', lit', toks' := op + 1, lit + 1, toks;
    assert output[..] == before[op := c];
    assert output[..][..op - lit - 1] == before[..op - lit - 1];
    assert output[..][op - lit..op + 1] == input[ip - lit..ip + 1];
    if lit' == MAX_LIT {
      SavedGrows(toks, Literals(input[ip + 1 - lit'..ip + 1]));
      op', toks' := StopRun(output, op', lit', toks, input, ip + 1);
      lit', op' := 0, op' + 1;
    }
  }

  /** One octet of output. */
  method PutOctet(output: array<Octet>, op: nat, c: Octet) returns (op': nat)
    requires op < output.Length
    modifies output
    ensures op' == op + 1 && output[..][..op'] == old(output[..][..op]) + [c]
  {
    ghost var before := output[..][..op];
    output[op] := c;
    op' := op + 1;
    assert output[..][..op] == before;
  }

  /** The two or three octets of a back reference. len is the number of octets matched; the
      code stores it less two. */
  method StoreBackRef(output: array<Octet>, op: nat, off: nat, len: nat) returns (op': nat)
    requires off < MAX_OFF && 3 <= len <= MAX_REF && op + 3 <= output.Length
    modifies output
    ensures op' == op + if len < 9 then 2 else 3
    ensures output[..][..op'] == old(output[..][..op]) + EncodeToken(BackRef(off + 1, len))
  {
    hide EncodeToken;
    ghost var before := output[..][..op];
    ReferenceOctets(off, len, before);
    var l := len - 2;
    if l < 7 {
      op' := PutOctet(output, op, (off / 256 + l * 32) % 256);
    } else {
      op' := PutOctet(output, op, (off / 256 + 7 * 32) % 256);
      op' := PutOctet(output, op', (l - 7) % 256);
    }
    op' := PutOctet(output, op', off % 256);
  }

  lemma ReferenceOctets(off: nat, len: nat, before: seq<Octet>)
    requires off < MAX_OFF && 3 <= len <= MAX_REF
    ensures before + EncodeToken(BackRef(off + 1, len)) ==
            if len < 9 then before + [(off / 256 + (len - 2) * 32) % 256] + [off % 256]
            else before + [(off / 256 + 7 * 32) % 256] + [(len - 9) % 256] + [off % 256]
  {
  }

  /** A back reference after the run has stopped, and the start of the next run. */
  method PutBackRef(output: array<Octet>, op: nat, off: nat, len: nat,
                    ghost toks: seq<Token>, ghost input: seq<Octet>, ghost ip: nat)
    returns (op': nat, ghost toks': seq<Token>)
    requires off < MAX_OFF && 3 <= len <= MAX_REF && Repeats(input, ip - off - 1, ip, len)
    requires op + 3 <= output.Length && Stopped(toks, output[..][..op], input, ip)
    modifies output
    ensures Pending(output[..], op', 0, toks', input, ip + len)
    ensures op' == op + if len < 9 then 3 else 4
    ensures Saved(toks') == 4
    ensures toks' == toks + [BackRef(off + 1, len)]
  {
    hide Encode, Expand, Open, FullRuns;
    ReferenceCovers(toks, output[..][..op], off, len, input, ip);
    op' := StoreBackRef(output, op, off, len);
    toks' := toks + [BackRef(off + 1, len)];
    assert BackRef(off + 1, len) in toks';
    op' := op' + 1;
  }

  /** The run stops and a back reference of len octets follows; the capacity test has been
      passed. */
  method PutMatch(output: array<Octet>, op: nat, lit: nat, off: nat, len: nat,
                  ghost toks: seq<Token>, ghost input: seq<Octet>, ghost ip: nat)
    returns (op': nat, ghost toks': seq<Token>)
    requires Pending(output[..], op, lit, toks, input, ip)
    requires op - (if lit == 0 then 1 else 0) + 3 + 1 < output.Length
    requires off < MAX_OFF && 3 <= len <= MAX_REF && Repeats(input, ip - off - 1, ip, len)
    modifies output
    ensures Pending(output[..], op', 0, toks', input, ip + len) && op' < output.Length
    ensures op' == op - (if lit == 0 then 1 else 0) + if len < 9 then 3 else 4
    ensures Saved(toks') == 4
    ensures lit <= ip && toks' == WithRun(toks, lit, input, ip) + [BackRef(off + 1, len)]
  {
    hide Encode, Expand, Apply, CopyBack, EncodeToken, Open, FullRuns;
    op', toks' := StopRun(output, op, lit, toks, input, ip);
    op', toks' := PutBackRef(output, op', off, len, toks', input, ip);
  }

  lemma MarksOfLiteral(output: seq<Octet>, op: int, lit: nat, toks: seq<Token>, input: seq<Octet>, ip: nat, outLen: nat)
    requires Pending(output, op, lit, toks, input, ip) && ip < |input|
    ensures AllWellFormed(toks) && lit <= ip
    ensures var full := lit + 1 == MAX_LIT;
            var toks' := if full then WithRun(toks, lit + 1, input, ip + 1) else toks;
            && AllWellFormed(toks')
            && PendingMarks(toks', if full then 0 else lit + 1) == PendingMarks(toks, lit) + [Single]
            && (Tested(toks, outLen) ==> Tested(toks', outLen))
  {
    hide Marks, Tested, Encode, Expand;
    WithRunFacts(toks, lit + 1, input, ip + 1, outLen);
    assert Singles(lit + 1) == Singles(lit) + [Single];
    assert Marks(toks) + Singles(lit + 1) == PendingMarks(toks, lit) + [Single];
    assert PendingMarks(toks, lit + 1) + Singles(0) == PendingMarks(toks, lit + 1);
  }

  lemma MarksOfMatch(output: seq<Octet>, op: int, lit: nat, toks: seq<Token>, input: seq<Octet>, ip: nat, outLen: nat,
                     dist: nat, len: nat)
    requires Pending(output, op, lit, toks, input, ip) && WellFormed(BackRef(dist, len))
    requires op - (if lit == 0 then 1 else 0) + 4 < outLen
    ensures AllWellFormed(toks) && lit <= ip
    ensures var toks' := WithRun(toks, lit, input, ip) + [BackRef(dist, len)];
            && AllWellFormed(toks')
            && PendingMarks(toks', 0) == PendingMarks(toks, lit) + MarksOf(BackRef(dist, len))
            && (Tested(toks, outLen) ==> Tested(toks', outLen))
  {
    hide Marks, Tested, Encode, Expand, Pending, MarksOf;
    WrittenSoFar(output, op, lit, toks, input, ip, outLen);
    var all, t := WithRun(toks, lit, input, ip), BackRef(dist, len);
    AppendMarks(all, t);
    TestedGrows(all, t, outLen);
    assert Marks(all + [t]) + Singles(0) == Marks(all + [t]);
  }

  /** The encoder gave up on the rest of the input, with no more than four octets to spare. */
  ghost predicate GaveUp(input: seq<Octet>, toks: seq<Token>, outLen: nat)
    requires AllWellFormed(toks)
  {
    && |Marks(toks)| <= |input| && Expand(toks) == Some(input[..|Marks(toks)|])
    && |Encode(toks)| + 4 >= outLen
  }

  lemma CoversNothing(input: seq<Octet>)
    ensures Covers([], [], input, 0)
  {
  }

  lemma StartUp(output: seq<Octet>, input: seq<Octet>)
    requires output != []
    ensures Pending(output, 1, 0, [], input, 0) && Saved([]) == 0 && PendingMarks([], 0) == []
  {
  }

  lemma OneSingleMore(marks: seq<Mark>, n: nat)
    ensures marks + Singles(n + 1) == marks + Singles(n) + [Single]
  {
    assert Singles(n + 1) == Singles(n) + [Single];
  }

  lemma PendingIsUnpatched(output: seq<Octet>, op: int, lit: int, toks: seq<Token>, input: seq<Octet>, ip: int)
    requires Pending(output, op, lit, toks, input, ip)
    ensures Unpatched(output, op, lit, toks, input, ip)
  {
  }

  /** The last octets as literals, and the end of the last run. */
  method Finish(input: seq<Octet>, output: array<Octet>, outLen: nat, ip0: nat, op0: nat, lit0: nat, ghost toks0: seq<Token>)
    returns (r: nat, ghost toks: seq<Token>)
    requires input != [] && ip0 + 2 >= |input|
    requires op0 + 3 <= outLen <= output.Length && Pending(output[..], op0, lit0, toks0, input, ip0)
    modifies output
    ensures 0 < r <= outLen && r <= MaxCompressedSize(|input|)
    ensures AllWellFormed(toks) && FullRuns(toks) && output[..r] == Encode(toks) && Expand(toks) == Some(input)
    ensures AllWellFormed(toks0) && Marks(toks) == PendingMarks(toks0, lit0) + Singles(|input| - ip0)
    ensures Tested(toks0, outLen) ==> Tested(toks, outLen)
  {
    hide Encode, Expand, Covers, Stopped, Marks, Tested, FullRuns, Open, Pending, Unpatched, PendingMarks, WithRun;
    var ip, op, lit := ip0, op0, lit0;
    toks := toks0;
    PendingFacts(output[..], op, lit, toks, input, ip);
    assert PendingMarks(toks, lit) == PendingMarks(toks0, lit0) + Singles(0);
    ghost var marks0 := PendingMarks(toks0, lit0);
    while ip < |input|
      invariant ip0 <= ip <= |input| && Pending(output[..], op, lit, toks, input, ip) && AllWellFormed(toks)
      invariant 0 <= lit < MAX_LIT && lit < op && PendingMarks(toks, lit) == marks0 + Singles(ip - ip0)
      invariant Tested(toks0, outLen) ==> Tested(toks, outLen)
      invariant op + (|input| - ip) + (if lit + (|input| - ip) >= MAX_LIT then 1 else 0) <= outLen
    {
      MarksOfLiteral(output[..], op, lit, toks, input, ip, outLen);
      op, lit, toks := PutLiteral(output, op, lit, input[ip], toks, input, ip);
      OneSingleMore(marks0, ip - ip0);
      ip := ip + 1;
      PendingFacts(output[..], op, lit, toks, input, ip);
    }
    PendingIsUnpatched(output[..], op, lit, toks, input, ip);
    WithRunFacts(toks, lit, input, ip, outLen);
    r, toks := StopRun(output, op, lit, toks, input, ip);
    SomethingWritten(toks, output[..][..r], input);
    assert output[..][..r] == output[..r];
  }
}
