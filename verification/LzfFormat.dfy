/** The LZF compressed format: tokens, the octets that stand for them, and the
    reference decoder, a fold that copies octet by octet. */
module LzfFormat {
  import opened Sequences

  type Octet = x: int | 0 <= x < 256

  const MAX_LIT := 32
  const MAX_OFF := 8192
  const MAX_REF := 264

  datatype Token =
    | Literals(run: seq<Octet>)
    | BackRef(dist: nat, len: nat)

  ghost predicate WellFormed(t: Token) {
    match t
    case Literals(run) => 1 <= |run| <= MAX_LIT
    case BackRef(dist, len) => 1 <= dist <= MAX_OFF && 3 <= len <= MAX_REF
  }

  ghost predicate AllWellFormed(toks: seq<Token>) {
    forall t :: t in toks ==> WellFormed(t)
  }

  // ---------- what tokens mean ----------

  /** Appends n octets, each a copy of the one dist places back in the output so far. */
  ghost function CopyBack(out: seq<Octet>, dist: nat, n: nat): (r: seq<Octet>)
    requires 1 <= dist <= |out|
    ensures |r| == |out| + n
    ensures r[..|out|] == out
  {
    if n == 0 then out
    else
      var r := CopyBack(out, dist, n - 1);
      r + [r[|r| - dist]]
  }

  lemma CopyBackNone(out: seq<Octet>, dist: nat)
    requires 1 <= dist <= |out|
    ensures CopyBack(out, dist, 0) == out
  {
  }

  /** The octet-by-octet copy is the periodic extension of its source. */
  lemma {:induction false} CopyBackPeriodic(out: seq<Octet>, dist: nat, n: nat, i: nat)
    requires 1 <= dist <= |out| && i < n
    ensures var r := CopyBack(out, dist, n); r[|out| + i] == r[|out| + i - dist]
  {
    var r := CopyBack(out, dist, n - 1);
    if i < n - 1 {
      CopyBackPeriodic(out, dist, n - 1, i);
    }
  }

  /** Anything that continues out periodically is what the copy produces. */
  lemma {:induction false} CopyBackUnique(s: seq<Octet>, start: nat, dist: nat, n: nat)
    requires 1 <= dist <= start && start + n <= |s|
    requires forall k :: start <= k < start + n ==> s[k] == s[k - dist]
    ensures CopyBack(s[..start], dist, n) == s[..start + n]
  {
    if n > 0 {
      CopyBackUnique(s, start, dist, n - 1);
      assert s[..start + n] == s[..start + n - 1] + [s[start + (n - 1)]];
    }
  }

  /** When source and destination do not overlap, the copy is one block move. */
  lemma CopyBackDisjoint(out: seq<Octet>, dist: nat, n: nat)
    requires 1 <= dist <= |out| && n <= dist
    ensures CopyBack(out, dist, n) == out + out[|out| - dist..|out| - dist + n]
  {
    var s := out + out[|out| - dist..|out| - dist + n];
    assert s[..|out|] == out;
    assert forall k :: |out| <= k < |s| ==> s[k] == s[k - dist];
    CopyBackUnique(s, |out|, dist, n);
    assert s[..|out| + n] == s;
  }

  ghost function Apply(out: seq<Octet>, t: Token): Option<seq<Octet>>
    requires WellFormed(t)
  {
    match t
    case Literals(run) => Some(out + run)
    case BackRef(dist, len) => if dist <= |out| then Some(CopyBack(out, dist, len)) else None
  }

  /** The data a token sequence stands for; None when a reference reaches before the start. */
  ghost function Expand(toks: seq<Token>): Option<seq<Octet>>
    requires AllWellFormed(toks)
  {
    if toks == [] then Some([])
    else match Expand(toks[..|toks| - 1])
      case None => None
      case Some(out) => Apply(out, toks[|toks| - 1])
  }

  // ---------- how tokens are written ----------

  ghost function EncodeToken(t: Token): seq<Octet>
    requires WellFormed(t)
  {
    match t
    case Literals(run) => [|run| - 1] + run
    case BackRef(dist, len) =>
      var off := dist - 1;
      if len - 2 < 7 then [off / 256 + (len - 2) * 32, off % 256]
      else [off / 256 + 7 * 32, len - 2 - 7, off % 256]
  }

  ghost function Encode(toks: seq<Token>): seq<Octet>
    requires AllWellFormed(toks)
  {
    if toks == [] then []
    else Encode(toks[..|toks| - 1]) + EncodeToken(toks[|toks| - 1])
  }

  lemma AppendToken(toks: seq<Token>, t: Token)
    requires AllWellFormed(toks) && WellFormed(t)
    ensures AllWellFormed(toks + [t])
    ensures Encode(toks + [t]) == Encode(toks) + EncodeToken(t)
    ensures Expand(toks).Some? ==> Expand(toks + [t]) == Apply(Expand(toks).value, t)
  {
    assert (toks + [t])[..|toks|] == toks;
  }

  // ---------- the reference decoder ----------

  datatype DecodeError = OutputFull | InputTruncated | BadReference

  datatype Step = Next(out: seq<Octet>, used: nat) | Reject(why: DecodeError)

  datatype Decoded = Ok(data: seq<Octet>) | Err(error: DecodeError)

  /** Reads one token from the front of s and applies it to the output so far. */
  ghost function DecodeToken(s: seq<Octet>, out: seq<Octet>, cap: nat): (r: Step)
    requires s != []
    ensures r.Next? ==> 1 <= r.used <= |s| && |out| < |r.out| <= cap
  {
    var ctrl := s[0];
    if ctrl < 32 then
      if |out| + ctrl + 1 > cap then Reject(OutputFull)
      else if ctrl + 2 > |s| then Reject(InputTruncated)
      else Next(out + s[1..ctrl + 2], ctrl + 2)
    else
      var size := if ctrl / 32 == 7 then 3 else 2;
      if |s| < size then Reject(InputTruncated)
      else
        var len := 2 + if size == 3 then 7 + s[1] else ctrl / 32;
        var dist := ctrl % 32 * 256 + s[size - 1] + 1;
        if |out| + len > cap then Reject(OutputFull)
        else if dist > |out| then Reject(BadReference)
        else Next(CopyBack(out, dist, len), size)
  }

  ghost function DecodeFrom(s: seq<Octet>, out: seq<Octet>, cap: nat): (r: Decoded)
    requires |out| <= cap
    ensures r.Ok? ==> |out| <= |r.data| <= cap && (s != [] ==> |out| < |r.data|)
    decreases |s|
  {
    if s == [] then Ok(out)
    else match DecodeToken(s, out, cap)
      case Reject(why) => Err(why)
      case Next(out', used) => DecodeFrom(s[used..], out', cap)
  }

  ghost function Decode(s: seq<Octet>, cap: nat): Decoded {
    DecodeFrom(s, [], cap)
  }

  lemma NothingDecoded(out: seq<Octet>, cap: nat)
    requires |out| <= cap
    ensures DecodeFrom([], out, cap) == Ok(out)
  {
  }

  // ---------- the decoder inverts the encoding, and accepts nothing else ----------

  lemma DecodeOneToken(t: Token, rest: seq<Octet>, out: seq<Octet>, cap: nat)
    requires WellFormed(t) && Apply(out, t).Some? && |Apply(out, t).value| <= cap
    ensures DecodeToken(EncodeToken(t) + rest, out, cap) == Next(Apply(out, t).value, |EncodeToken(t)|)
  {
    var s := EncodeToken(t) + rest;
    match t {
      case Literals(run) =>
        assert s[1..|run| + 1] == run;
      case BackRef(dist, len) =>
        var off := dist - 1;
        assert off / 256 < 32 && off == off / 256 * 256 + off % 256;
        if len - 2 < 7 {
          assert s[0] / 32 == len - 2 && s[0] % 32 == off / 256;
        } else {
          assert s[0] / 32 == 7 && s[0] % 32 == off / 256;
        }
    }
  }

  lemma {:induction false} DecodeEncodedPrefix(toks: seq<Token>, rest: seq<Octet>, cap: nat)
    requires AllWellFormed(toks) && Expand(toks).Some? && |Expand(toks).value| <= cap
    ensures DecodeFrom(Encode(toks) + rest, [], cap) == DecodeFrom(rest, Expand(toks).value, cap)
  {
    if toks == [] {
      assert Encode(toks) + rest == rest;
    } else {
      var front, t := toks[..|toks| - 1], toks[|toks| - 1];
      var tail := EncodeToken(t) + rest;
      assert Encode(toks) + rest == Encode(front) + tail;
      DecodeEncodedPrefix(front, tail, cap);
      DecodeOneToken(t, rest, Expand(front).value, cap);
      assert tail[|EncodeToken(t)|..] == rest;
    }
  }

  /** Decoding what an encoder wrote gives the data its tokens stand for, whenever it fits. */
  lemma DecodeInvertsEncode(toks: seq<Token>, cap: nat)
    requires AllWellFormed(toks) && Expand(toks).Some? && |Expand(toks).value| <= cap
    ensures Decode(Encode(toks), cap) == Ok(Expand(toks).value)
  {
    DecodeEncodedPrefix(toks, [], cap);
    assert Encode(toks) + [] == Encode(toks);
  }

  /** The token at the front of a string that the decoder accepts. */
  lemma TokenOfStep(s: seq<Octet>, out: seq<Octet>, cap: nat) returns (t: Token)
    requires s != [] && DecodeToken(s, out, cap).Next?
    ensures WellFormed(t)
    ensures var step := DecodeToken(s, out, cap);
            EncodeToken(t) == s[..step.used] && Apply(out, t) == Some(step.out)
  {
    var ctrl: nat := s[0];
    if ctrl < 32 {
      t := Literals(s[1..ctrl + 2]);
      assert EncodeToken(t) == s[..ctrl + 2];
    } else {
      var size := if ctrl / 32 == 7 then 3 else 2;
      var len: nat := 2 + if size == 3 then 7 + s[1] else ctrl / 32;
      var off: nat := ctrl % 32 * 256 + s[size - 1];
      assert off / 256 == ctrl % 32 && off % 256 == s[size - 1];
      assert ctrl == ctrl / 32 * 32 + ctrl % 32;
      t := BackRef(off + 1, len);
      assert EncodeToken(t) == s[..size];
    }
  }

  lemma SplitTail(a: seq<Octet>, s: seq<Octet>, k: nat)
    requires k <= |s|
    ensures a + s == a + s[..k] + s[k..]
  {
  }

  lemma {:induction false} TokensOfAccepted(done: seq<Token>, s: seq<Octet>, cap: nat) returns (toks: seq<Token>)
    requires AllWellFormed(done) && Expand(done).Some? && |Expand(done).value| <= cap
    requires DecodeFrom(s, Expand(done).value, cap).Ok?
    ensures AllWellFormed(toks) && Encode(toks) == Encode(done) + s
    ensures Expand(toks) == Some(DecodeFrom(s, Expand(done).value, cap).data)
    decreases |s|
  {
    hide Encode, Expand;
    if s == [] {
      toks := done;
      assert Encode(done) + s == Encode(done);
    } else {
      var out := Expand(done).value;
      var t := TokenOfStep(s, out, cap);
      var used := DecodeToken(s, out, cap).used;
      AppendToken(done, t);
      toks := TokensOfAccepted(done + [t], s[used..], cap);
      SplitTail(Encode(done), s, used);
    }
  }

  /** The decoder accepts a string exactly when it is the encoding of well-formed tokens whose
      references stay inside the output and whose data fits. */
  lemma DecodeAcceptsExactlyEncodings(s: seq<Octet>, cap: nat, x: seq<Octet>)
    ensures Decode(s, cap) == Ok(x) <==>
            |x| <= cap && exists toks :: AllWellFormed(toks) && Encode(toks) == s && Expand(toks) == Some(x)
  {
    if Decode(s, cap) == Ok(x) {
      var toks := TokensOfAccepted([], s, cap);
      assert Encode(toks) == s;
    }
    if |x| <= cap && exists toks :: AllWellFormed(toks) && Encode(toks) == s && Expand(toks) == Some(x) {
      var toks :| AllWellFormed(toks) && Encode(toks) == s && Expand(toks) == Some(x);
      DecodeInvertsEncode(toks, cap);
    }
  }

  // ---------- what the three errors mean ----------

  lemma {:induction false} LargerOutput(s: seq<Octet>, out: seq<Octet>, cap: nat, cap': nat)
    requires |out| <= cap <= cap' && DecodeFrom(s, out, cap) != Err(OutputFull)
    ensures DecodeFrom(s, out, cap') == DecodeFrom(s, out, cap)
    decreases |s|
  {
    hide CopyBack;
    if s != [] && DecodeToken(s, out, cap).Next? {
      var step := DecodeToken(s, out, cap);
      LargerOutput(s[step.used..], step.out, cap, cap');
    }
  }

  lemma TokenGrowth(s: seq<Octet>, out: seq<Octet>, cap: nat)
    requires s != []
    ensures DecodeToken(s, out, cap) == Reject(OutputFull) ==> cap < |out| + MAX_REF
    ensures DecodeToken(s, out, cap).Next? ==> |DecodeToken(s, out, cap).out| <= |out| + MAX_REF
  {
  }

  lemma {:induction false} EnoughOutput(s: seq<Octet>, out: seq<Octet>, cap: nat)
    requires |out| + MAX_REF * |s| <= cap
    ensures DecodeFrom(s, out, cap) != Err(OutputFull)
    decreases |s|
  {
    hide DecodeToken;
    if s != [] {
      TokenGrowth(s, out, cap);
      if DecodeToken(s, out, cap).Next? {
        var step := DecodeToken(s, out, cap);
        EnoughOutput(s[step.used..], step.out, cap);
      }
    }
  }

  /** The output was too small exactly when a larger one would change the result. */
  lemma FullMeansTooSmall(s: seq<Octet>, cap: nat)
    ensures Decode(s, cap) == Err(OutputFull) <==> exists cap' :: cap' > cap && Decode(s, cap') != Decode(s, cap)
  {
    if Decode(s, cap) == Err(OutputFull) {
      var cap' := cap + 1 + MAX_REF * |s|;
      EnoughOutput(s, [], cap');
      assert Decode(s, cap') != Decode(s, cap);
    } else {
      forall cap' | cap' > cap
        ensures Decode(s, cap') == Decode(s, cap)
      {
        LargerOutput(s, [], cap, cap');
      }
    }
  }

  lemma TokenIsLocal(s: seq<Octet>, more: seq<Octet>, out: seq<Octet>, cap: nat)
    requires s != [] && DecodeToken(s, out, cap) != Reject(InputTruncated)
    ensures DecodeToken(s + more, out, cap) == DecodeToken(s, out, cap)
  {
    hide CopyBack;
    var ctrl := s[0];
    if ctrl < 32 && ctrl + 2 <= |s| {
      assert (s + more)[1..ctrl + 2] == s[1..ctrl + 2];
    }
  }

  lemma {:induction false} MoreInput(s: seq<Octet>, more: seq<Octet>, out: seq<Octet>, cap: nat)
    requires |out| <= cap && DecodeFrom(s, out, cap).Err? && DecodeFrom(s, out, cap) != Err(InputTruncated)
    ensures DecodeFrom(s + more, out, cap) == DecodeFrom(s, out, cap)
    decreases |s|
  {
    hide DecodeToken;
    if s != [] {
      TokenIsLocal(s, more, out, cap);
      var step := DecodeToken(s, out, cap);
      if step.Next? {
        assert (s + more)[step.used..] == s[step.used..] + more;
        MoreInput(s[step.used..], more, step.out, cap);
      }
    }
  }

  /** The octets that complete a token that was cut off. */
  lemma TokenCompletes(s: seq<Octet>, out: seq<Octet>, cap: nat) returns (more: seq<Octet>)
    requires s != [] && DecodeToken(s, out, cap) == Reject(InputTruncated)
    ensures var step := DecodeToken(s + more, out, cap);
            step != Reject(InputTruncated) && (step.Next? ==> step.used == |s + more|)
  {
    hide CopyBack;
    var ctrl := s[0];
    var size := if ctrl < 32 then ctrl + 2 else if ctrl / 32 == 7 then 3 else 2;
    more := seq(size - |s|, _ => 0);
  }

  lemma {:induction false} InputCompletes(s: seq<Octet>, out: seq<Octet>, cap: nat) returns (more: seq<Octet>)
    requires |out| <= cap && DecodeFrom(s, out, cap) == Err(InputTruncated)
    ensures DecodeFrom(s + more, out, cap) != Err(InputTruncated)
    decreases |s|
  {
    hide DecodeToken;
    var step := DecodeToken(s, out, cap);
    if step.Next? {
      more := InputCompletes(s[step.used..], step.out, cap);
      TokenIsLocal(s, more, out, cap);
      assert (s + more)[step.used..] == s[step.used..] + more;
    } else {
      more := TokenCompletes(s, out, cap);
      var step' := DecodeToken(s + more, out, cap);
      if step'.Next? {
        assert (s + more)[step'.used..] == [];
      }
    }
  }

  /** The input was cut off exactly when more of it could change the error. */
  lemma TruncatedMeansCutOff(s: seq<Octet>, cap: nat)
    ensures Decode(s, cap) == Err(InputTruncated) <==>
            Decode(s, cap).Err? && exists more :: Decode(s + more, cap) != Decode(s, cap)
  {
    if Decode(s, cap) == Err(InputTruncated) {
      var more := InputCompletes(s, [], cap);
      assert Decode(s + more, cap) != Decode(s, cap);
    } else if Decode(s, cap).Err? {
      forall more
        ensures Decode(s + more, cap) == Decode(s, cap)
      {
        MoreInput(s, more, [], cap);
      }
    }
  }

  // ---------- the octets of a token ----------

  /** The layout: 000LLLLL for a run of L + 1, then the run; LLLooooo oooooooo for a reference of
      L + 2 octets at o + 1, with L in an octet of its own, less 7, when the three bits are full. */
  lemma TokenLayout(t: Token)
    requires WellFormed(t)
    ensures var e := EncodeToken(t);
            match t
            case Literals(run) => |e| == |run| + 1 && e[0] == |run| - 1 < 32 && e[1..] == run
            case BackRef(dist, len) =>
              && (len <= 8 ==> |e| == 2 && e[0] / 32 == len - 2)
              && (len > 8 ==> |e| == 3 && e[0] / 32 == 7 && e[1] == len - 9)
              && (var high: nat, low: nat := e[0] % 32, e[|e| - 1]; dist == 256 * high + low + 1)
  {
  }
}
