/** lzf_decompress in its default build (CHECK_INPUT on), proved to be the
    reference decoder of LzfFormat on every input. */
module LzfDecompress {
  import opened Sequences
  import opened LzfFormat

  datatype Errno = Unchanged | E2BIG | EINVAL

  function ErrnoOf(e: DecodeError): Errno {
    if e == OutputFull then E2BIG else EINVAL
  }

  /** The fall-through switch over ctrl: entering at label ctrl runs every later label. */
  method CopyLiterals(input: seq<Octet>, ip: nat, output: array<Octet>, op: nat, ctrl: nat)
    requires ip + ctrl <= |input| && op + ctrl <= output.Length
    modifies output
    ensures output[..op + ctrl] == old(output[..op]) + input[ip..ip + ctrl]
  {
    var left := ctrl;
    while left >= 1
      invariant 0 <= left <= ctrl
      invariant output[..op + ctrl - left] == old(output[..op]) + input[ip..ip + ctrl - left]
    {
      output[op + ctrl - left] := input[ip + ctrl - left];
      assert output[..op + ctrl - left + 1] == output[..op + ctrl - left] + [input[ip + ctrl - left]];
      left := left - 1;
    }
  }

  /** n octets, one after the other. */
  method CopyOctets(output: array<Octet>, op: nat, ref: nat, n: nat)
    requires ref < op && op + n <= output.Length
    modifies output
    ensures output[..op + n] == CopyBack(old(output[..op]), op - ref, n)
  {
    var k := 0;
    while k < n
      invariant 0 <= k <= n
      invariant output[..op + k] == CopyBack(old(output[..op]), op - ref, k)
    {
      ghost var before := output[..op + k];
      output[op + k] := output[ref + k];
      assert output[..op + k + 1] == before + [before[ref + k]];
      k := k + 1;
    }
  }

  /** Octets read earlier are stored behind what is there. */
  method Place(output: array<Octet>, op: nat, src: seq<Octet>)
    requires op + |src| <= output.Length
    modifies output
    ensures output[..op + |src|] == old(output[..op]) + src
  {
    ghost var before := output[..op];
    forall i | 0 <= i < |src| {
      output[op + i] := src[i];
    }
    assert output[..op] == before && output[op..op + |src|] == src;
    assert output[..op + |src|] == output[..op] + output[op..op + |src|];
  }

  /** memcpy: all of the source is read as it was before the call. */
  method CopyBlock(output: array<Octet>, op: nat, ref: nat, n: nat)
    requires ref + n <= op && op + n <= output.Length && n > 0
    modifies output
    ensures output[..op + n] == CopyBack(old(output[..op]), op - ref, n)
  {
    hide CopyBack;
    ghost var before := output[..op];
    CopyBackDisjoint(before, op - ref, n);
    assert before[ref..ref + n] == output[ref..ref + n];
    Place(output, op, output[ref..ref + n]);
  }

  /** The switch over the length field: labels 9..1 copy one octet each and fall through to
      label 0, which copies two; every other length takes the default branch. */
  method CopyReference(output: array<Octet>, op: nat, ref: nat, len: nat)
    requires ref < op && op + len + 2 <= output.Length
    modifies output
    ensures output[..op + len + 2] == CopyBack(old(output[..op]), op - ref, len + 2)
  {
    if len <= 9 {
      CopyOctets(output, op, ref, len + 2);
    } else if op >= ref + len + 2 {
      CopyBlock(output, op, ref, len + 2);
    } else {
      CopyOctets(output, op, ref, len + 2);
    }
  }

  /** What one pass of the do-while loop must do, given the state it starts from. */
  ghost predicate TokenDone(step: Step, ip: nat, ip': nat, out': seq<Octet>, errno: Errno) {
    match step
    case Reject(why) => errno == ErrnoOf(why)
    case Next(o, used) => errno == Unchanged && ip' == ip + used && out' == o
  }

  /** The literal branch, entered after the control octet was read. */
  method LiteralRun(input: seq<Octet>, ip: nat, ctrl: nat, output: array<Octet>, op: nat, outLen: nat)
    returns (ip': nat, op': nat, errno: Errno)
    requires op <= outLen <= output.Length && ctrl < 32
    modifies output
    ensures op' <= output.Length
    ensures errno == Unchanged ==> ip' <= |input| && op' <= outLen
    ensures ip > |input| ==> errno != Unchanged
    ensures 0 < ip <= |input| && input[ip - 1] == ctrl ==>
              TokenDone(DecodeToken(input[ip - 1..], old(output[..op]), outLen), ip - 1, ip', output[..op'], errno)
  {
    ip', op' := ip, op;
    var n := ctrl + 1;
    if op + n > outLen {
      errno := E2BIG;
    } else if ip + n > |input| {
      errno := EINVAL;
    } else {
      CopyLiterals(input, ip, output, op, n);
      ip', op', errno := ip + n, op + n, Unchanged;
      if ip > 0 {
        assert input[ip - 1..][1..n + 1] == input[ip..ip + n];
      }
    }
  }

  /** The back-reference branch, entered after the control octet was read. */
  method BackReference(input: seq<Octet>, ip: nat, ctrl: nat, output: array<Octet>, op: nat, outLen: nat)
    returns (ip': nat, op': nat, errno: Errno)
    requires op <= outLen <= output.Length && 32 <= ctrl < 256
    modifies output
    ensures op' <= output.Length
    ensures errno == Unchanged ==> ip' <= |input| && op' <= outLen
    ensures ip > |input| ==> errno != Unchanged
    ensures 0 < ip <= |input| && input[ip - 1] == ctrl ==>
              TokenDone(DecodeToken(input[ip - 1..], old(output[..op]), outLen), ip - 1, ip', output[..op'], errno)
  {
    ip', op', errno := ip, op, EINVAL;
    if ip >= |input| {
      return;
    }
    var len := ctrl / 32;
    var ref := op - ctrl % 32 * 256 - 1;
    if len == 7 {
      len := len + input[ip'];
      ip' := ip' + 1;
      if ip' >= |input| {
        return;
      }
    }
    ref := ref - input[ip'];
    ip' := ip' + 1;
    if op + len + 2 > outLen {
      errno := E2BIG;
      return;
    }
    if ref < 0 {
      return;
    }
    CopyReference(output, op, ref, len);
    op', errno := op + len + 2, Unchanged;
  }

  /** One pass done, the fold goes on from the new state or has failed for the same reason. */
  lemma PassDecodes(s: seq<Octet>, out: seq<Octet>, cap: nat, ip: nat, ip': nat, out': seq<Octet>, errno: Errno)
    requires s != [] && |out| <= cap && TokenDone(DecodeToken(s, out, cap), ip, ip', out', errno)
    ensures errno == Unchanged ==>
              && ip < ip' <= ip + |s| && |out| < |out'| <= cap
              && DecodeFrom(s, out, cap) == DecodeFrom(s[ip' - ip..], out', cap)
    ensures errno != Unchanged ==>
              DecodeFrom(s, out, cap).Err? && errno == ErrnoOf(DecodeFrom(s, out, cap).error)
  {
    hide DecodeToken;
  }

  /** beyond is whatever octet memory holds after the input: the first control octet is read
      before any length test. */
  method Decompress(input: seq<Octet>, beyond: Octet, output: array<Octet>, outLen: nat)
    returns (r: nat, errno: Errno)
    requires outLen <= output.Length
    modifies output
    ensures input == [] ==> r == 0
    ensures input != [] ==> (r == 0 <==> Decode(input, outLen).Err?)
    ensures input != [] && Decode(input, outLen).Err? ==> errno == ErrnoOf(Decode(input, outLen).error)
    ensures r != 0 ==> r <= outLen && Decode(input, outLen) == Ok(output[..r]) && errno == Unchanged
    ensures input != [] && r == 0 ==>
              && (errno == E2BIG <==> exists cap' :: cap' > outLen && Decode(input, cap') != Decode(input, outLen))
              && (errno == E2BIG || errno == EINVAL)
  {
    hide DecodeToken, DecodeFrom, TokenDone;
    var ip, op := 0, 0;
    NothingDecoded(output[..0], outLen);
    var more := true;
    while more
      invariant 0 <= ip <= |input| && 0 <= op <= outLen
      invariant more <==> ip < |input| || input == []
      invariant op == 0 <==> ip == 0
      invariant input != [] ==> Decode(input, outLen) == DecodeFrom(input[ip..], output[..op], outLen)
      decreases |input| - ip, more
    {
      ghost var s, out, start := input[ip..], output[..op], ip;
      var ctrl: Octet := if ip < |input| then input[ip] else beyond;
      ip := ip + 1;
      if ctrl < 32 {
        ip, op, errno := LiteralRun(input, ip, ctrl, output, op, outLen);
      } else {
        ip, op, errno := BackReference(input, ip, ctrl, output, op, outLen);
      }
      if s != [] {
        PassDecodes(s, out, outLen, start, ip, output[..op], errno);
      }
      if errno != Unchanged {
        FullMeansTooSmall(input, outLen);
        return 0, errno;
      }
      assert s[ip - start..] == input[ip..];
      more := ip < |input|;
    }
    NothingDecoded(output[..op], outLen);
    r, errno := op, Unchanged;
  }

  // ---------- the size of the output buffer matters only as a limit ----------

  /** A larger buffer never changes a successful result, and a buffer as large as the data is
      enough. */
  lemma CapacityOnlyLimits(s: seq<Octet>, cap: nat, cap': nat, x: seq<Octet>)
    requires Decode(s, cap) == Ok(x) && |x| <= cap'
    ensures Decode(s, cap') == Ok(x)
  {
    DecodeAcceptsExactlyEncodings(s, cap, x);
    DecodeAcceptsExactlyEncodings(s, cap', x);
  }
}
