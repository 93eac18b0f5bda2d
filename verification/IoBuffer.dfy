/** SFIOBuffer: a ring buffer over a fixed byte array. */
module IoBuffer {
  const MAX_IO_SIZE := 16384

  /** The bytes from head to tail, across the wrap when head is past tail. */
  ghost function RingView(ring: seq<bv8>, head: int, tail: int): seq<bv8>
    requires 0 <= head < |ring| && 0 <= tail < |ring|
  {
    if head > tail then ring[head..] + ring[..tail] else ring[head..tail]
  }

  /** One byte of the ring always stays free, so that a full queue is not taken for an empty
      one. */
  lemma ViewIsBounded(ring: seq<bv8>, head: int, tail: int)
    requires 0 <= head < |ring| && 0 <= tail < |ring|
    ensures |RingView(ring, head, tail)| <= |ring| - 1
    ensures RingView(ring, head, tail) == [] <==> head == tail
  {
  }

  ghost function Wrap(i: int, size: int): int {
    if i >= size then i - size else i
  }

  /** Storing one stretch of bytes at tail extends the view by them, when there is room left
      for at least one byte more. */
  lemma StoreExtends(ring: seq<bv8>, ring': seq<bv8>, head: int, tail: int, part: seq<bv8>)
    requires 0 <= head < |ring| && 0 <= tail < |ring| == |ring'| && tail + |part| <= |ring|
    requires |RingView(ring, head, tail)| + |part| < |ring|
    requires ring'[tail..tail + |part|] == part
    requires forall i :: 0 <= i < |ring| && !(tail <= i < tail + |part|) ==> ring'[i] == ring[i]
    ensures RingView(ring', head, Wrap(tail + |part|, |ring|)) == RingView(ring, head, tail) + part
  {
    var tail' := Wrap(tail + |part|, |ring|);
    if head > tail {
      assert ring'[head..] == ring[head..];
      assert ring'[..tail'] == ring[..tail] + part;
    } else if tail' == tail + |part| {
      assert ring'[head..tail'] == ring[head..tail] + part;
    } else {
      assert ring'[head..] + ring'[..0] == ring[head..tail] + part;
    }
  }

  /** Moving head over n bytes drops them from the view. */
  lemma AdvanceDrops(ring: seq<bv8>, head: int, tail: int, n: int)
    requires 0 <= head < |ring| && 0 <= tail < |ring| && 0 <= n <= |RingView(ring, head, tail)|
    ensures RingView(ring, Wrap(head + n, |ring|), tail) == RingView(ring, head, tail)[n..]
  {
  }

  /** The oldest n bytes, as the one or two stretches of the ring they lie in. */
  lemma OldestBytes(ring: seq<bv8>, head: int, tail: int, n: int)
    requires 0 <= head < |ring| && 0 <= tail < |ring| && 0 <= n <= |RingView(ring, head, tail)|
    ensures n < |ring|
    ensures RingView(ring, head, tail)[..n] ==
            if head + n > |ring| then ring[head..] + ring[..n - (|ring| - head)] else ring[head..head + n]
  {
  }

  method MemCpy(dest: array<bv8>, at: nat, src: seq<bv8>)
    requires at + |src| <= dest.Length
    modifies dest
    ensures dest[at..at + |src|] == src
    ensures forall i :: 0 <= i < dest.Length && !(at <= i < at + |src|) ==> dest[i] == old(dest[i])
  {
    forall i | 0 <= i < |src| {
      dest[at + i] := src[i];
    }
  }

  class SFIOBuffer {
    var iHead: int
    var iTail: int
    var iBufSize: int
    var pBuffer: array?<bv8>
    var iUsedBufferSize: int

    /** A buffer that AllocIOBuf has made ready. */
    ghost predicate Valid()
      reads this, pBuffer
    {
      && pBuffer != null && pBuffer.Length == iBufSize && 0 < iBufSize <= MAX_IO_SIZE
      && 0 <= iHead < iBufSize && 0 <= iTail < iBufSize
      && iUsedBufferSize == |RingView(pBuffer[..], iHead, iTail)|
    }

    /** The queued bytes, oldest first. */
    ghost function Contents(): seq<bv8>
      requires Valid()
      reads this, pBuffer
    {
      RingView(pBuffer[..], iHead, iTail)
    }

    /** head and tail keep whatever value memory holds until AllocIOBuf is called. */
    constructor (head: int, tail: int)
      ensures iBufSize == 0 && pBuffer == null && iUsedBufferSize == 0
    {
      iHead, iTail := head, tail;
      iBufSize, pBuffer, iUsedBufferSize := 0, null, 0;
    }

    method InitIOBuf()
      requires pBuffer != null ==> pBuffer.Length == iBufSize
      modifies this`iTail, this`iHead, this`iUsedBufferSize, pBuffer
      ensures iTail == iHead == iUsedBufferSize == 0
      ensures 0 < iBufSize <= MAX_IO_SIZE && pBuffer != null ==> Valid() && Contents() == []
    {
      iTail, iHead, iUsedBufferSize := 0, 0, 0;
      if pBuffer != null {
        forall i | 0 <= i < iBufSize {
          pBuffer[i] := 0;
        }
      }
    }

    method AllocIOBuf(size: int) returns (ok: bool)
      modifies this
      ensures ok <==> size <= 16384
      ensures ok ==> Valid() && Contents() == [] && fresh(pBuffer)
                     && iBufSize == if size <= 0 then MAX_IO_SIZE else size
      ensures !ok ==> unchanged(this)
    {
      var n := if size <= 0 then MAX_IO_SIZE else size;
      if n > MAX_IO_SIZE {
        return false;
      }
      pBuffer := new bv8[n];
      iBufSize := n;
      InitIOBuf();
      ok := true;
    }

    method FreeIOBuf()
      modifies this
      ensures pBuffer == null && iBufSize == iHead == iTail == iUsedBufferSize == 0
    {
      pBuffer := null;
      iBufSize, iHead, iTail, iUsedBufferSize := 0, 0, 0, 0;
    }

    /** The used count follows from head and tail alone. */
    method CalcUsedBufferSize()
      requires pBuffer != null && pBuffer.Length == iBufSize
      requires 0 <= iHead < iBufSize <= MAX_IO_SIZE && 0 <= iTail < iBufSize
      modifies this`iUsedBufferSize
      ensures Valid()
    {
      if iHead > iTail {
        iUsedBufferSize := iBufSize - iHead + iTail;
      } else {
        iUsedBufferSize := iTail - iHead;
      }
    }

    /** One memcpy of AppendData and the advance of tail; the used count is brought up to date
        only after the last one. */
    method Store(part: seq<bv8>)
      requires pBuffer != null && pBuffer.Length == iBufSize && 0 <= iHead < iBufSize && 0 <= iTail < iBufSize
      requires iTail + |part| <= iBufSize
      requires |RingView(pBuffer[..], iHead, iTail)| + |part| < iBufSize
      modifies this`iTail, pBuffer
      ensures 0 <= iTail < iBufSize
      ensures RingView(pBuffer[..], iHead, iTail) == old(RingView(pBuffer[..], iHead, iTail)) + part
    {
      ghost var before := pBuffer[..];
      MemCpy(pBuffer, iTail, part);
      StoreExtends(before, pBuffer[..], iHead, iTail, part);
      iTail := iTail + |part|;
      if iTail >= iBufSize {
        iTail := iTail - iBufSize;
      }
    }

    /** All or nothing: either the first size bytes of src join the queue, or, when that would
        leave no byte of the ring free, nothing changes. A negative size is taken as empty. */
    method AppendData(src: seq<bv8>, size: int) returns (added: int)
      requires Valid() && size <= |src|
      modifies this`iTail, this`iUsedBufferSize, pBuffer
      ensures Valid()
      ensures old(|Contents()|) + size >= iBufSize ==> added == -1 && Contents() == old(Contents())
      ensures old(|Contents()|) + size < iBufSize ==>
                var n := if size < 0 then 0 else size;
                added == n && Contents() == old(Contents()) + src[..n]
    {
      if iUsedBufferSize + size >= iBufSize {
        return -1;
      }
      if size <= 0 {
        added := 0;
      } else {
        added := CopyIn(src[..size]);
      }
      CalcUsedBufferSize();
    }

    /** The copy loop: one pass up to the end of the ring, another from its start. */
    method CopyIn(src: seq<bv8>) returns (added: int)
      requires Valid() && |Contents()| + |src| < iBufSize
      modifies this`iTail, pBuffer
      ensures added == |src| && 0 <= iTail < iBufSize
      ensures RingView(pBuffer[..], iHead, iTail) == old(Contents()) + src
    {
      hide RingView;
      added := 0;
      var left := |src|;
      while left > 0
        invariant 0 <= iTail < iBufSize
        invariant 0 <= left <= |src| && added == |src| - left
        invariant RingView(pBuffer[..], iHead, iTail) == old(Contents()) + src[..added]
        decreases left
      {
        var part := if left > iBufSize - iTail then iBufSize - iTail else left;
        if part != 0 {
          Store(src[added..added + part]);
          assert src[..added + part] == src[..added] + src[added..added + part];
          added := added + part;
          left := left - part;
        }
      }
      assert src[..added] == src;
    }

    /** Takes the oldest bytes, at most size and at most what is there, into dest. */
    method GetData(dest: array<bv8>, size: int) returns (n: int)
      requires Valid() && dest != pBuffer
      requires size <= dest.Length || |Contents()| <= dest.Length
      modifies this`iHead, this`iUsedBufferSize, dest
      ensures Valid() && pBuffer[..] == old(pBuffer[..])
      ensures n == if size <= 0 then 0 else if size < old(|Contents()|) then size else old(|Contents()|)
      ensures dest[..n] == old(Contents())[..n] && Contents() == old(Contents())[n..]
      ensures dest[n..] == old(dest[n..])
    {
      n := size;
      if iUsedBufferSize < n {
        n := iUsedBufferSize;
      }
      if n <= 0 {
        return 0;
      }
      CopyOut(dest, n);
      Advance(n);
    }

    /** The one or two memcpy calls of GetData. */
    method CopyOut(dest: array<bv8>, n: nat)
      requires Valid() && dest != pBuffer && n <= |Contents()| && n <= dest.Length
      modifies dest
      ensures dest[..n] == Contents()[..n] && dest[n..] == old(dest[n..])
    {
      hide RingView;
      OldestBytes(pBuffer[..], iHead, iTail, n);
      if iHead + n > iBufSize {
        var diff := iBufSize - iHead;
        MemCpy(dest, 0, pBuffer[iHead..]);
        MemCpy(dest, diff, pBuffer[..n - diff]);
        assert dest[..n] == dest[..diff] + dest[diff..n];
      } else {
        MemCpy(dest, 0, pBuffer[iHead..iHead + n]);
      }
    }

    /** head moves over n bytes. */
    method Advance(n: nat)
      requires Valid() && n <= |Contents()|
      modifies this`iHead, this`iUsedBufferSize
      ensures Valid() && Contents() == old(Contents())[n..]
    {
      AdvanceDrops(pBuffer[..], iHead, iTail, n);
      iHead := iHead + n;
      if iHead >= iBufSize {
        iHead := iHead - iBufSize;
      }
      CalcUsedBufferSize();
    }

    method RemoveData(size: int) returns (n: int)
      requires Valid()
      modifies this`iHead, this`iUsedBufferSize
      ensures Valid()
      ensures n == if size <= 0 then 0 else if size < old(|Contents()|) then size else old(|Contents()|)
      ensures Contents() == old(Contents())[n..]
    {
      n := size;
      if iUsedBufferSize < n {
        n := iUsedBufferSize;
      }
      if n <= 0 {
        return 0;
      }
      Advance(n);
    }

    /** Puts head back where it was: the queue is what the ring holds from there. */
    method SetHead(head: int)
      requires Valid() && 0 <= head < iBufSize
      modifies this`iHead, this`iUsedBufferSize
      ensures Valid() && iHead == head && Contents() == RingView(pBuffer[..], head, iTail)
    {
      iHead := head;
      CalcUsedBufferSize();
    }
  }

  /** SetHead undoes any number of gets: afterwards the queue is exactly what it was. */
  method GetsThenRestore(b: SFIOBuffer, dest: array<bv8>, sizes: seq<int>) returns (total: int)
    requires b.Valid() && dest != b.pBuffer && |b.Contents()| <= dest.Length
    modifies b, dest
    ensures b.Valid() && b.Contents() == old(b.Contents()) && b.iHead == old(b.iHead)
    ensures 0 <= total <= |b.Contents()|
  {
    var oldHead := b.iHead;
    total := 0;
    for i := 0 to |sizes|
      invariant b.Valid() && b.pBuffer == old(b.pBuffer) && b.pBuffer[..] == old(b.pBuffer[..]) && b.iTail == old(b.iTail)
      invariant b.iBufSize == old(b.iBufSize)
      invariant 0 <= total <= |old(b.Contents())| && b.Contents() == old(b.Contents())[total..]
    {
      var n := b.GetData(dest, sizes[i]);
      total := total + n;
    }
    b.SetHead(oldHead);
  }
}
