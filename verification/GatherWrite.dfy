/** ACE gather writes: message-block chains pushed through an OS call that may take any part of
    what it is offered. */
module GatherWrite {
  import opened Sequences

  const SSIZE_MAX := 0x7FFF_FFFF_FFFF_FFFF

  /** truncate_cast<ssize_t>. */
  function Truncated(n: nat): int {
    if n > SSIZE_MAX then SSIZE_MAX else n
  }

  // ---------- the OS ----------

  /** One answer of the OS: some bytes taken (at least one, if any are offered), nothing, an error, or the report that
      the call would block, with the outcome of waiting for the handle. */
  datatype Reply = Accept(n: nat) | Eof | Fail | WouldBlock(ready: bool)

  /** An open handle: what has gone out, and how the OS will answer. Answers after the script
      are errors. */
  class Handle {
    var sent: seq<bv8>
    var script: seq<Reply>

    constructor (script: seq<Reply>)
      ensures sent == [] && this.script == script
    {
      this.sent, this.script := [], script;
    }

    /** writev or sendv: n is -1, 0, or the number of bytes taken from the front of what is
        offered. */
    method Writev(iov: array<seq<bv8>>, s: nat, count: nat) returns (n: int, blocked: bool, ready: bool)
      requires s + count <= iov.Length
      modifies this
      ensures n <= 0 ==> n >= -1 && sent == old(sent)
      ensures n > 0 ==> n <= |Join(iov[s..s + count])| && sent == old(sent) + Join(iov[s..s + count])[..n]
      ensures blocked ==> n == -1 && |script| < |old(script)|
      ensures |script| <= |old(script)|
    {
      n, blocked, ready := -1, false, false;
      if script == [] {
        return;
      }
      var reply := script[0];
      script := script[1..];
      match reply {
        case Accept(k) =>
          var offered := Join(iov[s..s + count]);
          n := if k > |offered| then |offered| else if k == 0 && offered != [] then 1 else k;
          sent := sent + offered[..n];
        case Eof =>
          n := 0;
        case Fail =>
        case WouldBlock(r) =>
          blocked, ready := true, r;
      }
    }
  }

  ghost predicate NonEmpty(parts: seq<seq<bv8>>) {
    forall i :: 0 <= i < |parts| ==> parts[i] != []
  }

  // ---------- after a partial write ----------

  /** What is left of an iovec when its first n bytes are gone. */
  lemma JoinDrop(part: seq<bv8>, rest: seq<seq<bv8>>, n: nat)
    requires n <= |part|
    ensures Join([part] + rest)[n..] == Join([part[n..]] + rest)
  {
    assert ([part] + rest)[1..] == rest && ([part[n..]] + rest)[1..] == rest;
  }

  /** Skips the parts that were sent whole and trims the one sent in part. */
  method Advance(iov: array<seq<bv8>>, s0: nat, iovcnt: nat, n0: nat) returns (s: nat)
    requires s0 <= iovcnt <= iov.Length && n0 <= |Join(iov[s0..iovcnt])|
    modifies iov
    ensures s0 <= s <= iovcnt && (s < iovcnt ==> iov[s] != [])
    ensures Join(iov[s..iovcnt]) == old(Join(iov[s0..iovcnt]))[n0..]
    ensures iov[iovcnt..] == old(iov[iovcnt..])
  {
    s := s0;
    var n := n0;
    ghost var whole := Join(iov[s0..iovcnt]);
    while s < iovcnt && n >= |iov[s]|
      invariant s0 <= s <= iovcnt && 0 <= n <= |Join(iov[s..iovcnt])|
      invariant iov[..] == old(iov[..])
      invariant Join(iov[s..iovcnt])[n..] == whole[n0..]
    {
      ghost var tail := iov[s + 1..iovcnt];
      assert iov[s..iovcnt] == [iov[s]] + tail;
      assert iov[s..iovcnt][1..] == tail;
      n := n - |iov[s]|;
      s := s + 1;
    }
    if n != 0 {
      ghost var tail := iov[s + 1..iovcnt];
      assert iov[s..iovcnt] == [iov[s]] + tail;
      JoinDrop(iov[s], tail, n);
      iov[s] := iov[s][n..];
      assert iov[s..iovcnt] == [iov[s]] + tail;
    }
  }

  datatype Mode = Write | Send | SendWithin

  /** writev_n, and sendv_n_i without and with a timeout: the loops differ only in what they do
      when the call would block. A write gives up; a send waits for the handle and tries again
      if it becomes ready. Parts may be empty; when all are, there is nothing to send and the
      result is 0 or -1. */
  method VecN(mode: Mode, handle: Handle, iov: array<seq<bv8>>, iovcnt: nat)
    returns (result: int, bytesTransferred: nat)
    requires iovcnt <= iov.Length
    modifies handle, iov
    ensures var all := old(Join(iov[..iovcnt]));
            && bytesTransferred <= |all|
            && handle.sent == old(handle.sent) + all[..bytesTransferred]
            && (bytesTransferred < |all| ==> result == -1 || result == 0)
            && (bytesTransferred == |all| > 0 ==>
                  result == if |all| <= 0x7FFF_FFFF_FFFF_FFFF then |all| else 0x7FFF_FFFF_FFFF_FFFF)
            && (all == [] ==> result == -1 || result == 0)
    ensures iov[iovcnt..] == old(iov[iovcnt..])
  {
    ghost var all := Join(iov[..iovcnt]);
    bytesTransferred := 0;
    var s := 0;
    assert all[..0] == [] && iov[0..iovcnt] == iov[..iovcnt];
    while s < iovcnt
      invariant s <= iovcnt && bytesTransferred <= |all| && (s < iovcnt && bytesTransferred == |all| ==> all == [])
      invariant Join(iov[s..iovcnt]) == all[bytesTransferred..]
      invariant handle.sent == old(handle.sent) + all[..bytesTransferred]
      invariant iov[iovcnt..] == old(iov[iovcnt..])
      decreases |all| - bytesTransferred, |handle.script|
    {
      ghost var rest := Join(iov[s..iovcnt]);
      var n, blocked, ready := handle.Writev(iov, s, iovcnt - s);
      if n == 0 {
        return 0, bytesTransferred;
      }
      if n == -1 {
        if mode != Write && blocked && ready {
          continue;
        }
        return -1, bytesTransferred;
      }
      assert all[..bytesTransferred + n] == all[..bytesTransferred] + rest[..n];
      bytesTransferred := bytesTransferred + n;
      s := Advance(iov, s, iovcnt, n);
      assert s < iovcnt ==> iov[s..iovcnt][0] != [];
    }
    result := Truncated(bytesTransferred);
  }

  // ---------- message blocks ----------

  /** A block's unread bytes, the next block of the same message, and the next message. */
  datatype MessageBlock = Null | MessageBlock(data: seq<bv8>, cont: MessageBlock, next: MessageBlock)

  /** The bytes of one message: the block and its continuations. */
  function Message(mb: MessageBlock): seq<bv8> {
    if mb == Null then [] else mb.data + Message(mb.cont)
  }

  /** The bytes of a chain of messages, in order. */
  function Payload(mb: MessageBlock): seq<bv8> {
    if mb == Null then [] else Message(mb) + Payload(mb.next)
  }

  /** What the gather buffer holds joins on to what was sent: total is everything collected
      since the start, and all but the buffer's bytes have gone out. */
  ghost predicate Gathered(start: seq<bv8>, total: seq<bv8>, bytes: nat, sent: seq<bv8>, pending: seq<seq<bv8>>) {
    && NonEmpty(pending)
    && bytes <= |total| && sent == start + total[..bytes] && total[bytes..] == Join(pending)
  }

  /** The write stopped early: what went out is a proper prefix of what was collected. */
  ghost predicate Stopped(start: seq<bv8>, total: seq<bv8>, bytes: nat, sent: seq<bv8>, result: int) {
    bytes < |total| && sent == start + total[..bytes] && (result == -1 || result == 0)
  }

  /** Writes the buffer out. */
  method Flush(mode: Mode, handle: Handle, iov: array<seq<bv8>>, iovcnt: nat, bytes: nat,
               ghost start: seq<bv8>, ghost total: seq<bv8>)
    returns (bytes': nat, failed: bool, result: int)
    requires iovcnt <= iov.Length && NonEmpty(iov[..iovcnt]) && iovcnt > 0
    requires bytes <= |total| && handle.sent == start + total[..bytes] && total[bytes..] == Join(iov[..iovcnt])
    modifies handle, iov
    ensures failed ==> Stopped(start, total, bytes', handle.sent, result)
    ensures !failed ==> Gathered(start, total, bytes', handle.sent, []) && bytes' == |total|
  {
    assert iov[..iovcnt][0] != [];
    var current;
    result, current := VecN(mode, handle, iov, iovcnt);
    bytes' := bytes + current;
    assert total[..bytes'] == total[..bytes] + total[bytes..][..current];
    failed := result == -1 || result == 0;
  }

  /** Adds one chunk to the buffer and writes the buffer out when it is full. */
  method Collect(mode: Mode, handle: Handle, iov: array<seq<bv8>>, iovcnt: nat, chunk: seq<bv8>, bytes: nat,
                 ghost start: seq<bv8>, ghost total: seq<bv8>)
    returns (iovcnt': nat, bytes': nat, failed: bool, result: int)
    requires iovcnt < iov.Length && chunk != []
    requires Gathered(start, total, bytes, handle.sent, iov[..iovcnt])
    modifies handle, iov
    ensures iovcnt' < iov.Length
    ensures failed ==> Stopped(start, total + chunk, bytes', handle.sent, result)
    ensures !failed ==> Gathered(start, total + chunk, bytes', handle.sent, iov[..iovcnt'])
  {
    ghost var pending := iov[..iovcnt];
    iov[iovcnt] := chunk;
    iovcnt', bytes', failed, result := iovcnt + 1, bytes, false, 0;
    assert iov[..iovcnt'] == pending + [chunk];
    JoinSplit(pending, [chunk]);
    assert [chunk][1..] == [] && Join([chunk]) == chunk;
    assert (total + chunk)[..bytes] == total[..bytes];
    assert (total + chunk)[bytes..] == total[bytes..] + chunk;
    if iovcnt' == iov.Length {
      bytes', failed, result := Flush(mode, handle, iov, iovcnt', bytes, start, total + chunk);
      iovcnt' := 0;
      assert iov[..0] == [];
    }
  }

  /** The bytes of one block, cut into chunks a u_long can count. */
  method CollectBlock(mode: Mode, handle: Handle, iov: array<seq<bv8>>, iovcnt: nat, data: seq<bv8>, maxChunk: nat,
                      bytes: nat, ghost start: seq<bv8>, ghost total: seq<bv8>)
    returns (iovcnt': nat, bytes': nat, failed: bool, result: int)
    requires iovcnt < iov.Length && maxChunk > 0
    requires Gathered(start, total, bytes, handle.sent, iov[..iovcnt])
    modifies handle, iov
    ensures iovcnt' < iov.Length
    ensures failed ==> exists k :: 0 <= k <= |data| && Stopped(start, total + data[..k], bytes', handle.sent, result)
    ensures !failed ==> Gathered(start, total + data, bytes', handle.sent, iov[..iovcnt'])
  {
    iovcnt', bytes', failed, result := iovcnt, bytes, false, 0;
    var p := 0;
    assert total + data[..0] == total;
    while p < |data|
      invariant 0 <= p <= |data| && iovcnt' < iov.Length && !failed
      invariant Gathered(start, total + data[..p], bytes', handle.sent, iov[..iovcnt'])
    {
      hide Gathered, Stopped;
      var chunk := if |data| - p > maxChunk then data[p..p + maxChunk] else data[p..];
      iovcnt', bytes', failed, result :=
        Collect(mode, handle, iov, iovcnt', chunk, bytes', start, total + data[..p]);
      assert total + data[..p] + chunk == total + data[..p + |chunk|];
      p := p + |chunk|;
      if failed {
        return;
      }
    }
    assert data[..p] == data;
  }

  /** write_n and send_n over a chain of messages: every byte of every block goes out once, in
      order, or the call fails and what went out is a proper prefix, counted exactly. */
  method WriteN(mode: Mode, handle: Handle, chain: MessageBlock, maxChunk: nat, iovMax: nat)
    returns (result: int, bytesTransferred: nat)
    requires maxChunk > 0 && iovMax > 0
    modifies handle
    ensures bytesTransferred <= |Payload(chain)|
    ensures handle.sent == old(handle.sent) + Payload(chain)[..bytesTransferred]
    ensures bytesTransferred < |Payload(chain)| ==> result == -1 || result == 0
    ensures bytesTransferred == |Payload(chain)| ==>
              result == if bytesTransferred <= 0x7FFF_FFFF_FFFF_FFFF then bytesTransferred else 0x7FFF_FFFF_FFFF_FFFF
  {
    hide Gathered, Stopped, NonEmpty, Left, Message, Payload, Join;
    var iov := new seq<bv8>[iovMax](_ => []);
    var iovcnt: nat := 0;
    bytesTransferred := 0;
    ghost var start, total, whole := handle.sent, [], Payload(chain);
    GatheredNothing(start);
    LeftAtFirst(chain);
    assert iov[..0] == [];
    var message := chain;
    while message != Null
      invariant iovcnt < iov.Length && Left(total, Payload(message), whole)
      invariant Gathered(start, total, bytesTransferred, handle.sent, iov[..iovcnt])
      decreases message
    {
      PayloadStep(message);
      var failed;
      iovcnt, bytesTransferred, failed, result :=
        CollectMessage(mode, handle, iov, iovcnt, message, maxChunk, bytesTransferred, start, total, whole);
      if failed {
        StoppedMeans(start, whole, bytesTransferred, handle.sent, result);
        return;
      }
      LeftStep(total, Message(message), Payload(message.next), whole);
      total := total + Message(message);
      message := message.next;
    }
    LeftAtLast(total, whole);
    GatheredMeans(start, total, bytesTransferred, handle.sent, iov[..iovcnt]);
    if iovcnt != 0 {
      var failed;
      bytesTransferred, failed, result := Flush(mode, handle, iov, iovcnt, bytesTransferred, start, total);
      if failed {
        StoppedMeans(start, total, bytesTransferred, handle.sent, result);
        return;
      }
      GatheredMeans(start, total, bytesTransferred, handle.sent, []);
    }
    result := Truncated(bytesTransferred);
  }

  /** The blocks of one message; whole is everything the call is to send. */
  method CollectMessage(mode: Mode, handle: Handle, iov: array<seq<bv8>>, iovcnt0: nat, message: MessageBlock,
                        maxChunk: nat, bytes: nat, ghost start: seq<bv8>, ghost total0: seq<bv8>, ghost whole: seq<bv8>)
    returns (iovcnt: nat, bytesTransferred: nat, failed: bool, result: int)
    requires message != Null && iovcnt0 < iov.Length && maxChunk > 0
    requires Left(total0, Message(message) + Payload(message.next), whole)
    requires Gathered(start, total0, bytes, handle.sent, iov[..iovcnt0])
    modifies handle, iov
    ensures iovcnt < iov.Length
    ensures failed ==> Stopped(start, whole, bytesTransferred, handle.sent, result)
    ensures !failed ==> Gathered(start, total0 + Message(message), bytesTransferred, handle.sent, iov[..iovcnt])
  {
    hide Gathered, Stopped, Left, Message, Payload;
    iovcnt, bytesTransferred, failed, result := iovcnt0, bytes, false, 0;
    ghost var total, all := total0, total0 + Message(message);
    LeftItself(total, Message(message));
    var current := message;
    while current != Null
      invariant iovcnt < iov.Length && !failed && Left(total, Message(current), all)
      invariant Gathered(start, total, bytesTransferred, handle.sent, iov[..iovcnt])
      decreases current
    {
      MessageStep(current);
      iovcnt, bytesTransferred, failed, result :=
        CollectBlock(mode, handle, iov, iovcnt, current.data, maxChunk, bytesTransferred, start, total);
      if failed {
        StoppedEarly(start, total, current.data, Message(current.cont), all, bytesTransferred, handle.sent, result);
        StoppedBefore(start, total0, Message(message), Payload(message.next), whole, bytesTransferred, handle.sent, result);
        return;
      }
      LeftStep(total, current.data, Message(current.cont), all);
      total := total + current.data;
      current := current.cont;
    }
    LeftAtLast(total, all);
  }

  /** What is still to be collected. */
  ghost predicate Left(total: seq<bv8>, rest: seq<bv8>, whole: seq<bv8>) {
    whole == total + rest
  }

  lemma LeftAtFirst(chain: MessageBlock)
    ensures Left([], Payload(chain), Payload(chain))
  {
  }

  lemma LeftItself(total: seq<bv8>, rest: seq<bv8>)
    ensures Left(total, rest, total + rest)
  {
  }

  lemma LeftStep(total: seq<bv8>, data: seq<bv8>, rest: seq<bv8>, whole: seq<bv8>)
    requires Left(total, data + rest, whole)
    ensures Left(total + data, rest, whole)
  {
    assert total + (data + rest) == (total + data) + rest;
  }

  lemma LeftAtLast(total: seq<bv8>, whole: seq<bv8>)
    requires Left(total, Message(Null), whole) || Left(total, Payload(Null), whole)
    ensures total == whole
  {
    assert total + [] == total;
  }

  lemma PayloadStep(message: MessageBlock)
    requires message != Null
    ensures Payload(message) == Message(message) + Payload(message.next)
  {
  }

  lemma MessageStep(block: MessageBlock)
    requires block != Null
    ensures Message(block) == block.data + Message(block.cont)
  {
  }

  lemma GatheredNothing(start: seq<bv8>)
    ensures Gathered(start, [], 0, start, [])
  {
  }

  lemma GatheredMeans(start: seq<bv8>, total: seq<bv8>, bytes: nat, sent: seq<bv8>, pending: seq<seq<bv8>>)
    requires Gathered(start, total, bytes, sent, pending)
    ensures NonEmpty(pending) && bytes <= |total| && sent == start + total[..bytes] && total[bytes..] == Join(pending)
    ensures pending == [] ==> bytes == |total|
  {
  }

  lemma StoppedMeans(start: seq<bv8>, total: seq<bv8>, bytes: nat, sent: seq<bv8>, result: int)
    requires Stopped(start, total, bytes, sent, result)
    ensures bytes < |total| && sent == start + total[..bytes] && (result == -1 || result == 0)
  {
  }

  /** A write that stopped inside one block stopped inside the whole. */
  lemma StoppedEarly(start: seq<bv8>, total: seq<bv8>, data: seq<bv8>, rest: seq<bv8>, whole: seq<bv8>,
                     bytes: nat, sent: seq<bv8>, result: int)
    requires exists k :: 0 <= k <= |data| && Stopped(start, total + data[..k], bytes, sent, result)
    requires Left(total, data + rest, whole)
    ensures Stopped(start, whole, bytes, sent, result)
  {
    var k :| 0 <= k <= |data| && Stopped(start, total + data[..k], bytes, sent, result);
    assert whole == (total + data[..k]) + (data[k..] + rest);
  }

  lemma StoppedBefore(start: seq<bv8>, total: seq<bv8>, data: seq<bv8>, rest: seq<bv8>, whole: seq<bv8>,
                      bytes: nat, sent: seq<bv8>, result: int)
    requires Stopped(start, total + data, bytes, sent, result) && Left(total, data + rest, whole)
    ensures Stopped(start, whole, bytes, sent, result)
  {
    assert whole == (total + data) + rest;
  }
}
