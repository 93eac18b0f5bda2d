/** The lzf file format: compress_fd and uncompress_fd over byte streams. */
module LzfFile {
  import opened Sequences
  import opened LzfFormat
  import LzfDecompress
  import LzfEmit
  import opened LzfParse
  import LzfRoundTrip

  const MAX_BLOCKSIZE := 65535
  const MAX_HDR_SIZE := 7
  const TYPE0_HDR_SIZE := 5
  const TYPE1_HDR_SIZE := 7
  const MIN_HDR_SIZE := 5
  const BUF_SIZE := MAX_BLOCKSIZE + MAX_HDR_SIZE + 16

  // ---------- file descriptors ----------

  /** A file being read: what is left of it, and whether a read has failed. */
  class InFile {
    var rest: seq<Octet>
    var failed: bool

    constructor (content: seq<Octet>)
      ensures rest == content && !failed
    {
      rest, failed := content, false;
    }

    /** read(): any non-empty part of what was asked for, nothing at the end, or an error. */
    method Read(len: nat) returns (rc: int, chunk: seq<Octet>)
      requires len > 0
      modifies this
      ensures rc == -1 ==> failed && rest == old(rest) && chunk == []
      ensures rc != -1 ==> rc == |chunk| <= len && old(rest) == chunk + rest && failed == old(failed)
      ensures rc == 0 ==> rest == []
    {
      var fails: bool := *;
      if fails {
        failed := true;
        return -1, [];
      }
      rc, chunk := 0, [];
      if rest != [] {
        var most := if len < |rest| then len else |rest|;
        rc :| 1 <= rc <= most;
        chunk, rest := rest[..rc], rest[rc..];
      }
    }
  }

  /** A file being written. */
  class OutFile {
    var written: seq<Octet>
    var failed: bool

    constructor ()
      ensures written == [] && !failed
    {
      written, failed := [], false;
    }

    /** write(): any non-empty part of what was offered, or an error. */
    method Write(data: seq<Octet>) returns (rc: int)
      requires data != []
      modifies this
      ensures rc == -1 ==> failed && written == old(written)
      ensures rc != -1 ==> 1 <= rc <= |data| && written == old(written) + data[..rc] && failed == old(failed)
    {
      var fails: bool := *;
      if fails {
        failed := true;
        return -1;
      }
      rc :| 1 <= rc <= |data|;
      written := written + data[..rc];
    }
  }

  function Min(a: int, b: int): int {
    if a < b then a else b
  }

  /** The octets read land in the buffer. */
  method Place(buf: array<Octet>, at: nat, chunk: seq<Octet>)
    requires at + |chunk| <= buf.Length
    modifies buf
    ensures buf[at..at + |chunk|] == chunk
    ensures forall i :: 0 <= i < at || at + |chunk| <= i < buf.Length ==> buf[i] == old(buf[i])
  {
    forall i | 0 <= i < |chunk| {
      buf[at + i] := chunk[i];
    }
  }

  lemma TakeMore(whole: seq<Octet>, offset: nat, chunk: seq<Octet>, rest: seq<Octet>)
    requires offset <= |whole| && whole[offset..] == chunk + rest
    ensures offset + |chunk| <= |whole| && rest == whole[offset + |chunk|..]
    ensures whole[..offset + |chunk|] == whole[..offset] + chunk
  {
    assert whole == whole[..offset] + (chunk + rest);
  }

  /** rread: keeps reading until len octets are in the buffer or the file ends. */
  method RRead(file: InFile, buf: array<Octet>, at: nat, len: nat) returns (rc: int)
    requires at + len <= buf.Length
    modifies file, buf
    ensures rc >= -1 && (file.failed <==> old(file.failed) || rc == -1)
    ensures forall i :: 0 <= i < at || at + len <= i < buf.Length ==> buf[i] == old(buf[i])
    ensures rc >= 0 ==> rc == Min(len, |old(file.rest)|) && file.rest == old(file.rest)[rc..]
                        && buf[at..at + rc] == old(file.rest)[..rc]
    ensures rc == -1 ==> var taken := |old(file.rest)| - |file.rest|;
                         0 <= taken < len && file.rest == old(file.rest)[taken..]
  {
    var offset := 0;
    while offset < len
      invariant 0 <= offset <= len && offset <= |old(file.rest)|
      invariant file.rest == old(file.rest)[offset..] && file.failed == old(file.failed)
      invariant buf[..][at..at + offset] == old(file.rest)[..offset]
      invariant forall i :: 0 <= i < at || at + len <= i < buf.Length ==> buf[i] == old(buf[i])
    {
      var n, chunk := file.Read(len - offset);
      if n == -1 {
        return -1;
      }
      if n == 0 {
        return offset;
      }
      ghost var filled := buf[..][at..at + offset];
      TakeMore(old(file.rest), offset, chunk, file.rest);
      Place(buf, at + offset, chunk);
      assert buf[..][at..at + offset] == filled;
      SlicesJoin(buf[..], at, at + offset, at + offset + n);
      offset := offset + n;
    }
    return offset;
  }

  /** wwrite: 0 if all was written, else -1. */
  method WWrite(file: OutFile, data: seq<Octet>) returns (rc: int)
    modifies file
    ensures rc == 0 || rc == -1
    ensures file.failed <==> old(file.failed) || rc == -1
    ensures rc == 0 ==> file.written == old(file.written) + data
    ensures old(file.written) <= file.written <= old(file.written) + data
  {
    var b := 0;
    while b < |data|
      invariant 0 <= b <= |data|
      invariant file.written == old(file.written) + data[..b] && file.failed == old(file.failed)
    {
      rc := file.Write(data[b..]);
      if rc == -1 {
        return;
      }
      assert data[..b + rc] == data[..b] + data[b..][..rc];
      b := b + rc;
    }
    rc := 0;
  }

  // ---------- the format ----------

  datatype Block = Raw(data: seq<Octet>) | Packed(data: seq<Octet>, packed: seq<Octet>)

  predicate Storable(b: Block) {
    |b.data| <= MAX_BLOCKSIZE && (b.Packed? ==> |b.packed| <= MAX_BLOCKSIZE)
  }

  /** A block that reads back: stored data, or a string that decodes to it. No data at all may be
      stated with any string, as a failing decoder returns 0 too. */
  ghost predicate ValidBlock(b: Block) {
    Storable(b) && (b.Packed? && b.data != [] ==> b.packed != [] && Decode(b.packed, |b.data|) == Ok(b.data))
  }

  function BlockBytes(b: Block): seq<Octet>
    requires Storable(b)
  {
    match b
    case Raw(data) => [90, 86, 0, |data| / 256, |data| % 256] + data
    case Packed(data, packed) =>
      [90, 86, 1, |packed| / 256, |packed| % 256, |data| / 256, |data| % 256] + packed
  }

  ghost predicate AllValid(blocks: seq<Block>) {
    forall b :: b in blocks ==> ValidBlock(b)
  }

  ghost function FileBytes(blocks: seq<Block>): seq<Octet>
    requires AllValid(blocks)
  {
    if blocks == [] then []
    else
      assert ValidBlock(blocks[|blocks| - 1]);
      FileBytes(blocks[..|blocks| - 1]) + BlockBytes(blocks[|blocks| - 1])
  }

  ghost function Content(blocks: seq<Block>): seq<Octet> {
    if blocks == [] then [] else Content(blocks[..|blocks| - 1]) + blocks[|blocks| - 1].data
  }

  // ---------- what uncompress_fd makes of a stream ----------

  /** The data written, and whether the stream was read to a proper end. */
  datatype Unpacked = Unpacked(data: seq<Octet>, ok: bool)

  function Word(hi: Octet, lo: Octet): nat {
    var h: nat := hi;
    h * 256 + lo
  }

  /** Octets the first block's header takes, or 0 when there is no acceptable header. */
  ghost function HeaderSize(s: seq<Octet>): nat {
    if |s| < MIN_HDR_SIZE || s[0] != 90 || s[1] != 86 then 0
    else if s[2] == 0 then TYPE0_HDR_SIZE
    else if s[2] == 1 && |s| >= TYPE1_HDR_SIZE then TYPE1_HDR_SIZE
    else 0
  }

  /** The data of one block whose payload is p; None when it does not decode to the size the
      header states. A stated size of zero is met by any failing decode. */
  ghost function BlockData(kind: Octet, p: seq<Octet>, us: nat): Option<seq<Octet>> {
    if kind == 0 then Some(p)
    else if us == 0 then Some([])
    else if p != [] && Decode(p, us).Ok? && |Decode(p, us).data| == us then Some(Decode(p, us).data)
    else None
  }

  /** The size of the first block's data, as its header states it. */
  ghost function StatedSize(s: seq<Octet>): nat
    requires HeaderSize(s) != 0
  {
    if HeaderSize(s) == TYPE1_HDR_SIZE then Word(s[5], s[6]) else Word(s[3], s[4])
  }

  ghost function Unframe(s: seq<Octet>): Unpacked
    decreases |s|
  {
    if s == [] || s[0] == 0 then Unpacked([], true)
    else
      var hdr := HeaderSize(s);
      if hdr == 0 then Unpacked([], false)
      else
        var size := Word(s[3], s[4]);
        if |s| < hdr + size then Unpacked([], false)
        else
          match BlockData(s[2], s[hdr..hdr + size], StatedSize(s))
          case None => Unpacked([], false)
          case Some(x) =>
            var more := Unframe(s[hdr + size..]);
            Unpacked(x + more.data, more.ok)
  }

  // ---------- a written file reads back ----------

  lemma UnframeBlock(b: Block, rest: seq<Octet>)
    requires ValidBlock(b)
    ensures Unframe(BlockBytes(b) + rest) == Unpacked(b.data + Unframe(rest).data, Unframe(rest).ok)
  {
    hide Unframe, BlockBytes, Word, Decode;
    var s := BlockBytes(b) + rest;
    BlockStarts(b, rest);
    UnframeFirst(s);
  }

  /** A block in front of any stream shows its header and its payload. */
  lemma BlockStarts(b: Block, rest: seq<Octet>)
    requires Storable(b)
    ensures var s, hdr, payload := BlockBytes(b) + rest, if b.Raw? then 5 else 7, if b.Raw? then b.data else b.packed;
            && s != [] && s[0] != 0 && HeaderSize(s) == hdr && s[2] == (if b.Raw? then 0 else 1)
            && hdr + |payload| <= |s| && Word(s[3], s[4]) == |payload| && s[hdr..hdr + |payload|] == payload
            && StatedSize(s) == |b.data| && s[hdr + |payload|..] == rest
  {
    var s, n := BlockBytes(b) + rest, if b.Raw? then |b.data| else |b.packed|;
    HighLow(n);
    HighLow(|b.data|);
    if b.Raw? {
      assert s[5..5 + n] == b.data;
    } else {
      assert s[7..7 + n] == b.packed;
    }
  }

  lemma HighLow(n: nat)
    requires n <= MAX_BLOCKSIZE
    ensures 0 <= n / 256 < 256 && Word(n / 256, n % 256) == n
  {
  }

  /** One step of the reading. */
  lemma UnframeFirst(s: seq<Octet>)
    requires s != [] && s[0] != 0 && HeaderSize(s) != 0 && HeaderSize(s) + Word(s[3], s[4]) <= |s|
    ensures var hdr, size := HeaderSize(s), Word(s[3], s[4]);
            match BlockData(s[2], s[hdr..hdr + size], StatedSize(s))
            case None => Unframe(s) == Unpacked([], false)
            case Some(x) => Unframe(s) == Unpacked(x + Unframe(s[hdr + size..]).data, Unframe(s[hdr + size..]).ok)
  {
    hide BlockData, Word, StatedSize, HeaderSize;
  }

  lemma {:induction false} UnframePrefix(blocks: seq<Block>, rest: seq<Octet>)
    requires AllValid(blocks)
    ensures Unframe(FileBytes(blocks) + rest) == Unpacked(Content(blocks) + Unframe(rest).data, Unframe(rest).ok)
  {
    if blocks == [] {
      assert FileBytes(blocks) + rest == rest;
      assert Content(blocks) + Unframe(rest).data == Unframe(rest).data;
    } else {
      var front, b := blocks[..|blocks| - 1], blocks[|blocks| - 1];
      hide Unframe;
      assert ValidBlock(b);
      Assoc(FileBytes(front), BlockBytes(b), rest);
      UnframePrefix(front, BlockBytes(b) + rest);
      UnframeBlock(b, rest);
      Assoc(Content(front), b.data, Unframe(rest).data);
    }
  }

  /** Reading a file of valid blocks gives back their data, with or without the optional end
      mark and whatever follows it. */
  lemma UnframeInvertsFile(blocks: seq<Block>, tail: seq<Octet>)
    requires AllValid(blocks) && (tail == [] || tail[0] == 0)
    ensures Unframe(FileBytes(blocks) + tail) == Unpacked(Content(blocks), true)
  {
    UnframePrefix(blocks, tail);
    assert Content(blocks) + [] == Content(blocks);
  }

  lemma AppendBlock(blocks: seq<Block>, b: Block)
    requires AllValid(blocks) && ValidBlock(b)
    ensures AllValid(blocks + [b])
    ensures FileBytes(blocks + [b]) == FileBytes(blocks) + BlockBytes(b) && Content(blocks + [b]) == Content(blocks) + b.data
  {
    assert (blocks + [b])[..|blocks|] == blocks;
  }

  lemma WordBytes(hi: Octet, lo: Octet)
    ensures Word(hi, lo) / 256 == hi && Word(hi, lo) % 256 == lo && Word(hi, lo) <= MAX_BLOCKSIZE
  {
  }

  /** The block at the front of a stream that is read on. */
  lemma FirstBlock(s: seq<Octet>) returns (b: Block)
    requires s != [] && s[0] != 0 && HeaderSize(s) != 0
    requires var end := HeaderSize(s) + Word(s[3], s[4]);
             end <= |s| && BlockData(s[2], s[HeaderSize(s)..end], StatedSize(s)).Some?
    ensures var hdr, end := HeaderSize(s), HeaderSize(s) + Word(s[3], s[4]);
            ValidBlock(b) && BlockBytes(b) == s[..end] && BlockData(s[2], s[hdr..end], StatedSize(s)) == Some(b.data)
  {
    hide Word, Decode;
    var hdr, end := HeaderSize(s), HeaderSize(s) + Word(s[3], s[4]);
    var payload := s[hdr..end];
    var data := BlockData(s[2], payload, StatedSize(s)).value;
    WordBytes(s[3], s[4]);
    if s[2] == 0 {
      b := Raw(data);
      assert s[..end] == s[..5] + payload;
    } else {
      WordBytes(s[5], s[6]);
      b := Packed(data, payload);
      assert s[..end] == s[..7] + payload;
    }
  }

  lemma {:induction false} BlocksOfAccepted(done: seq<Block>, s: seq<Octet>) returns (blocks: seq<Block>, tail: seq<Octet>)
    requires AllValid(done) && Unframe(s).ok
    ensures AllValid(blocks) && (tail == [] || tail[0] == 0)
    ensures FileBytes(blocks) + tail == FileBytes(done) + s && Content(blocks) == Content(done) + Unframe(s).data
    decreases |s|
  {
    hide FileBytes, Content, BlockBytes, BlockData, Word, StatedSize, ValidBlock;
    if s == [] || s[0] == 0 {
      blocks, tail := done, s;
      assert Content(done) + [] == Content(done);
    } else {
      var b := FirstBlock(s);
      ValidMeansStorable(b);
      var end := HeaderSize(s) + Word(s[3], s[4]);
      AppendBlock(done, b);
      blocks, tail := BlocksOfAccepted(done + [b], s[end..]);
      Assoc(FileBytes(done), BlockBytes(b), s[end..]);
      assert s == s[..end] + s[end..];
      Assoc(Content(done), b.data, Unframe(s[end..]).data);
    }
  }

  /** A stream that is a file of valid blocks holding x, ended by the end of the stream or by an end
      mark. */
  ghost predicate IsFile(s: seq<Octet>, x: seq<Octet>, blocks: seq<Block>, tail: seq<Octet>) {
    AllValid(blocks) && (tail == [] || tail[0] == 0) && FileBytes(blocks) + tail == s && Content(blocks) == x
  }

  /** A stream is read to its end, giving x, if and only if it is such a file. */
  lemma UnframeAcceptsExactlyFiles(s: seq<Octet>, x: seq<Octet>)
    ensures Unframe(s) == Unpacked(x, true) <==> exists blocks, tail :: IsFile(s, x, blocks, tail)
  {
    hide Unframe, FileBytes, Content;
    if Unframe(s) == Unpacked(x, true) {
      var blocks, tail := BlocksOfAccepted([], s);
      NothingFiled(0);
      FiledMeans([], 0, [], []);
      assert [] + s == s && [] + x == x;
      assert IsFile(s, x, blocks, tail);
    }
    if exists blocks, tail :: IsFile(s, x, blocks, tail) {
      var blocks, tail :| IsFile(s, x, blocks, tail);
      UnframeInvertsFile(blocks, tail);
    }
  }

  /** The layout of a block: Z, V, the type, two sizes or one, high octet first, and the payload. */
  lemma BlockLayout(b: Block)
    requires Storable(b)
    ensures var s := BlockBytes(b);
            match b
            case Raw(data) =>
              |s| == 5 + |data| && s[..3] == ['Z' as int, 'V' as int, 0] && Word(s[3], s[4]) == |data| && s[5..] == data
            case Packed(data, packed) =>
              && |s| == 7 + |packed| && s[..3] == ['Z' as int, 'V' as int, 1]
              && Word(s[3], s[4]) == |packed| && Word(s[5], s[6]) == |data| && s[7..] == packed
  {
  }

  lemma WordIsBigEndian(hi: Octet, lo: Octet)
    ensures var h: nat, l: nat := hi, lo; Word(hi, lo) == 256 * h + l
  {
  }

  /** The file so far: valid blocks, none longer than blocksize, holding content. */
  ghost predicate Filed(blocks: seq<Block>, blocksize: nat, bytes: seq<Octet>, content: seq<Octet>) {
    && AllValid(blocks) && bytes == FileBytes(blocks) && content == Content(blocks)
    && forall b :: b in blocks ==> |b.data| <= blocksize
  }

  lemma NothingFiled(blocksize: nat)
    ensures Filed([], blocksize, [], [])
  {
  }

  lemma FiledOneMore(blocks: seq<Block>, blocksize: nat, bytes: seq<Octet>, content: seq<Octet>, b: Block)
    requires Filed(blocks, blocksize, bytes, content) && ValidBlock(b) && |b.data| <= blocksize
    ensures Filed(blocks + [b], blocksize, bytes + BlockBytes(b), content + b.data)
  {
    assert (blocks + [b])[..|blocks|] == blocks;
  }

  lemma FiledMeans(blocks: seq<Block>, blocksize: nat, bytes: seq<Octet>, content: seq<Octet>)
    requires Filed(blocks, blocksize, bytes, content)
    ensures AllValid(blocks) && bytes == FileBytes(blocks) && content == Content(blocks)
    ensures forall b :: b in blocks ==> |b.data| <= blocksize
  {
  }

  // ---------- compress_fd ----------

  lemma ValidMeansStorable(b: Block)
    requires ValidBlock(b)
    ensures Storable(b)
  {
  }

  /** One block: packed when that saves at least four octets, stored otherwise; and it is stored
      only when the compressor, missing no match, could not save that. Twenty equal octets are
      always packed. */
  method PackBlock(e: LzfRoundTrip.Encoder, data: seq<Octet>, beyond: Octet) returns (b: Block, ghost toks: seq<Token>)
    requires !e.CSharp? && (e.Best? ==> e.base >= LzfRoundTrip.LOWEST_ADDRESS)
    requires 1 <= |data| <= MAX_BLOCKSIZE
    ensures ValidBlock(b) && b.data == data
    ensures b.Packed? && |data| > 4 ==> |b.packed| + 4 <= |data|
    ensures AllWellFormed(toks) && LzfRoundTrip.NoMatchMissed(e, data, toks, if |data| > 4 then |data| - 4 else |data|)
    ensures b.Packed? ==> b.packed == Encode(toks)
    ensures b.Raw? ==> LzfEmit.GaveUp(data, toks, if |data| > 4 then |data| - 4 else |data|)
    ensures LzfRoundTrip.HashesThree(e) && AllEqual(data) && |data| >= 20 ==> b.Packed?
  {
    hide LzfRoundTrip.NoMatchMissed, LzfRoundTrip.HashesThree, AllEqual, Encode, Expand, Marks;
    var us := |data|;
    var packed;
    packed, toks := LzfRoundTrip.Encode(e, data, beyond, if us > 4 then us - 4 else us);
    b := if packed != [] then Packed(data, packed) else Raw(data);
    if b.Raw? && LzfRoundTrip.HashesThree(e) && AllEqual(data) && us >= 20 {
      LzfRoundTrip.EqualOctetsPacked(e, data, toks, us - 4);
    }
  }

  /** What a failed write leaves: all the blocks before it, a prefix of the next one, and all of
      them stand for a prefix of the input. */
  ghost predicate Torn(start: seq<Octet>, blocks: seq<Block>, blocksize: nat, written: seq<Octet>, input: seq<Octet>) {
    && AllValid(blocks)
    && exists b :: ValidBlock(b) && |b.data| <= blocksize
                   && start + FileBytes(blocks) <= written <= start + (FileBytes(blocks) + BlockBytes(b))
                   && Content(blocks) + b.data <= input
  }

  lemma TornBlock(start: seq<Octet>, blocks: seq<Block>, blocksize: nat, b: Block, bytes: seq<Octet>,
                  content: seq<Octet>, written: seq<Octet>, input: seq<Octet>, rest: seq<Octet>)
    requires Filed(blocks, blocksize, bytes, content) && ValidBlock(b) && |b.data| <= blocksize
    requires start + bytes <= written <= start + bytes + BlockBytes(b) && Parts(input, content, b.data, rest)
    ensures Torn(start, blocks, blocksize, written, input)
  {
    Assoc(start, bytes, BlockBytes(b));
    Assoc(content, b.data, rest);
  }

  /** On success the output is a file of valid blocks, none longer than blocksize, whose
      content is all of the input, or what was read before a read failed: compress_fd takes a
      failed read for the end of the file. Then lost is what that read had taken already; it is
      lost with everything behind it, although 0 is returned. */
  method CompressFd(e: LzfRoundTrip.Encoder, blocksize: nat, from: InFile, to: OutFile)
    returns (rc: int, ghost blocks: seq<Block>, ghost lost: seq<Octet>)
    requires !e.CSharp? && (e.Best? ==> e.base >= LzfRoundTrip.LOWEST_ADDRESS)
    requires 1 <= blocksize <= MAX_BLOCKSIZE
    modifies from, to
    ensures rc == 0 || rc == -1
    ensures rc == -1 ==> to.failed && Torn(old(to.written), blocks, blocksize, to.written, old(from.rest))
    ensures rc == 0 ==> AllValid(blocks) && to.written == old(to.written) + FileBytes(blocks)
    ensures rc == 0 ==> old(from.rest) == Content(blocks) + (lost + from.rest) && |lost| < blocksize
    ensures rc == 0 && !from.failed ==> lost == [] && from.rest == [] && Content(blocks) == old(from.rest)
    ensures rc == 0 ==> forall b :: b in blocks ==> |b.data| <= blocksize
  {
    hide Filed, BlockBytes, Torn, ValidBlock, FileBytes, Content, AllValid, Storable, Parts;
    var buf1 := new Octet[BUF_SIZE];
    ghost var bytes, content, whole := [], [], from.rest;
    blocks, lost := [], [];
    NothingFiled(blocksize);
    PartsAtFirst(whole);
    var us;
    us, lost := ReadBlock(from, buf1, blocksize);
    PartsNext(whole, [], [], whole, if us < 0 then lost else buf1[MAX_HDR_SIZE..MAX_HDR_SIZE + us], from.rest);
    while us > 0
      invariant -1 <= us <= blocksize && |lost| < blocksize && (us >= 0 ==> lost == [])
      invariant Filed(blocks, blocksize, bytes, content) && to.written == old(to.written) + bytes
      invariant Parts(whole, content, if us < 0 then lost else buf1[MAX_HDR_SIZE..MAX_HDR_SIZE + us], from.rest)
      invariant (us == 0 ==> from.rest == []) && (us == -1 ==> from.failed)
      decreases if us > 0 then us + |from.rest| else 0
    {
      ghost var data, before := buf1[MAX_HDR_SIZE..MAX_HDR_SIZE + us], from.rest;
      var b, toks := PackBlock(e, buf1[MAX_HDR_SIZE..MAX_HDR_SIZE + us], buf1[MAX_HDR_SIZE + us]);
      ValidMeansStorable(b);
      rc := WWrite(to, BlockBytes(b));
      if rc == -1 {
        TornBlock(old(to.written), blocks, blocksize, b, bytes, content, to.written, whole, before);
        return;
      }
      FiledOneMore(blocks, blocksize, bytes, content, b);
      Assoc(old(to.written), bytes, BlockBytes(b));
      blocks, bytes := blocks + [b], bytes + BlockBytes(b);
      us, lost := ReadBlock(from, buf1, blocksize);
      PartsNext(whole, content, data, before, if us < 0 then lost else buf1[MAX_HDR_SIZE..MAX_HDR_SIZE + us], from.rest);
      content := content + data;
    }
    rc := 0;
    FiledMeans(blocks, blocksize, bytes, content);
    assert us == 0 ==> buf1[MAX_HDR_SIZE..MAX_HDR_SIZE + us] == lost;
    PartsMean(whole, content, lost, from.rest);
  }

  /** One block's worth of input behind the header space; after a failure, what it had taken. */
  method ReadBlock(from: InFile, buf1: array<Octet>, blocksize: nat) returns (us: int, ghost lost: seq<Octet>)
    requires 1 <= blocksize <= MAX_BLOCKSIZE && buf1.Length == BUF_SIZE
    modifies from, buf1
    ensures -1 <= us <= blocksize && |lost| < blocksize && (us >= 0 ==> lost == [])
    ensures from.failed <==> old(from.failed) || us == -1
    ensures old(from.rest) == (if us < 0 then lost else buf1[MAX_HDR_SIZE..MAX_HDR_SIZE + us]) + from.rest
    ensures us == 0 ==> from.rest == []
  {
    ghost var before := from.rest;
    us := RRead(from, buf1, MAX_HDR_SIZE, blocksize);
    lost := if us < 0 then before[..|before| - |from.rest|] else [];
  }

  /** The input: packed, in hand, and still to be read. */
  ghost predicate Parts(whole: seq<Octet>, content: seq<Octet>, hand: seq<Octet>, rest: seq<Octet>) {
    whole == content + (hand + rest)
  }

  lemma PartsAtFirst(whole: seq<Octet>)
    ensures Parts(whole, [], [], whole)
  {
  }

  lemma PartsNext(whole: seq<Octet>, content: seq<Octet>, data: seq<Octet>, before: seq<Octet>, hand: seq<Octet>,
                  rest: seq<Octet>)
    requires Parts(whole, content, data, before) && before == hand + rest
    ensures Parts(whole, content + data, hand, rest)
    ensures data == [] ==> Parts(whole, content, hand, rest)
  {
    Assoc(content, data, before);
  }

  lemma PartsMean(whole: seq<Octet>, content: seq<Octet>, hand: seq<Octet>, rest: seq<Octet>)
    requires Parts(whole, content, hand, rest)
    ensures whole == content + (hand + rest) && (hand == [] && rest == [] ==> whole == content)
  {
  }

  // ---------- uncompress_fd ----------

  /** What is still to come of the whole, once done has been written. */
  ghost predicate Remains(whole: seq<Octet>, done: seq<Octet>, s: seq<Octet>) {
    Unframe(whole) == Unpacked(done + Unframe(s).data, Unframe(s).ok)
  }

  lemma RemainsAll(whole: seq<Octet>)
    ensures Remains(whole, [], whole)
  {
    assert [] + Unframe(whole).data == Unframe(whole).data;
  }

  lemma DoneIsPrefix(whole: seq<Octet>, done: seq<Octet>, s: seq<Octet>)
    requires Remains(whole, done, s)
    ensures done <= Unframe(whole).data
  {
  }

  lemma RemainsStep(whole: seq<Octet>, done: seq<Octet>, s: seq<Octet>)
    requires Remains(whole, done, s)
    ensures s == [] || s[0] == 0 ==> Unframe(whole) == Unpacked(done, true)
    ensures s != [] && s[0] != 0 && HeaderSize(s) == 0 ==> Unframe(whole) == Unpacked(done, false)
    ensures HeaderSize(s) != 0 ==>
              var hdr, size := HeaderSize(s), Word(s[3], s[4]);
              if |s| < hdr + size then Unframe(whole) == Unpacked(done, false)
              else match BlockData(s[2], s[hdr..hdr + size], StatedSize(s))
                case None => Unframe(whole) == Unpacked(done, false)
                case Some(x) => Remains(whole, done + x, s[hdr + size..])
  {
    assert done + [] == done;
    if HeaderSize(s) != 0 && |s| >= HeaderSize(s) + Word(s[3], s[4]) {
      var hdr, size := HeaderSize(s), Word(s[3], s[4]);
      match BlockData(s[2], s[hdr..hdr + size], StatedSize(s)) {
        case None =>
        case Some(x) => Assoc(done, x, Unframe(s[hdr + size..]).data);
      }
    }
  }

  /** Fills the header buffer behind the over octets already there. */
  method ReadHeader(from: InFile, header: array<Octet>, over: nat) returns (rc: int)
    requires header.Length == MAX_HDR_SIZE && over <= 2
    modifies from, header
    ensures -1 <= rc <= MAX_HDR_SIZE && (from.failed <==> old(from.failed) || rc == -1)
    ensures rc >= 0 ==> old(header[..over] + from.rest) == header[..rc] + from.rest
                        && (rc < MAX_HDR_SIZE ==> from.rest == [])
  {
    ghost var carried := header[..over];
    rc := RRead(from, header, over, MAX_HDR_SIZE - over);
    if rc >= 0 {
      rc := rc + over;
      assert header[..over] == carried;
      assert header[..rc] == carried + header[over..rc];
    }
  }

  /** The payload of a block: what the header read brought along, then the file. over octets of
      the next block may have been read too; they move to the front of the header. */
  method ReadPayload(from: InFile, header: array<Octet>, rc: nat, hdr: nat, buf1: array<Octet>, bytes: nat)
    returns (short: bool, over: nat)
    requires header.Length == MAX_HDR_SIZE && buf1.Length == BUF_SIZE && header != buf1
    requires 5 <= hdr <= rc <= MAX_HDR_SIZE && bytes <= MAX_BLOCKSIZE
    requires rc < MAX_HDR_SIZE ==> from.rest == []
    modifies from, header, buf1
    ensures over <= 2
    ensures !from.failed ==> !old(from.failed) && (short <==> |old(header[..rc] + from.rest)| < hdr + bytes)
    ensures !short ==> var stream := old(header[..rc] + from.rest);
                       |stream| >= hdr + bytes && buf1[..bytes] == stream[hdr..hdr + bytes]
                       && stream[hdr + bytes..] == header[..over] + from.rest
                       && from.failed == old(from.failed)
  {
    ghost var head, rest := header[..rc], from.rest;
    over, short := 0, false;
    var l := rc - hdr;
    CopyPrefix(buf1, header, hdr, rc);
    if l > bytes {
      over := l - bytes;
      OverRead(head, rest, hdr, bytes);
      PrefixOfPrefix(buf1[..], bytes, l);
      CopyPrefix(header, header, hdr + bytes, rc);
    } else {
      short := ReadRest(from, buf1, l, bytes - l, head[hdr..]);
      if !short {
        PayloadSplits(head, hdr, rest, bytes - l);
      }
    }
  }

  /** Copies part of one buffer to the front of another, or of the same. */
  method CopyPrefix(to: array<Octet>, from: array<Octet>, i: nat, j: nat)
    requires i <= j <= from.Length && j - i <= to.Length
    modifies to
    ensures to[..j - i] == old(from[..j][i..])
  {
    ghost var source := from[..j][i..];
    forall k | 0 <= k < j - i {
      to[k] := from[i + k];
    }
    assert to[..j - i] == source;
  }

  lemma OverRead(head: seq<Octet>, rest: seq<Octet>, hdr: nat, bytes: nat)
    requires hdr + bytes <= |head|
    ensures (head + rest)[hdr..hdr + bytes] == head[hdr..][..bytes]
    ensures (head + rest)[hdr + bytes..] == head[hdr + bytes..] + rest
  {
  }

  /** The part of the payload that did not come with the header. */
  method ReadRest(from: InFile, buf1: array<Octet>, l: nat, rd: nat, ghost got: seq<Octet>) returns (short: bool)
    requires l + rd <= buf1.Length && |got| == l && buf1[..l] == got
    modifies from, buf1
    ensures !from.failed ==> !old(from.failed) && (short <==> |old(from.rest)| < rd)
    ensures !short ==> rd <= |old(from.rest)| && buf1[..l + rd] == got + old(from.rest)[..rd]
                       && from.rest == old(from.rest)[rd..] && from.failed == old(from.failed)
  {
    short := false;
    if rd > 0 {
      var n := RRead(from, buf1, l, rd);
      short := n != rd;
      assert buf1[..l] == got;
      SlicesJoin(buf1[..], 0, l, l + rd);
      assert buf1[..][0..l] == got && buf1[..][l..l + rd] == buf1[l..l + rd];
      assert buf1[..][0..l + rd] == buf1[..l + rd];
    }
    assert rd == 0 ==> old(from.rest)[..rd] == [] && got + [] == got;
  }

  lemma PayloadSplits(header: seq<Octet>, hdr: nat, rest: seq<Octet>, rd: nat)
    requires hdr <= |header| && rd <= |rest|
    ensures var end := |header| + rd;
            (header + rest)[hdr..end] == header[hdr..] + rest[..rd] && (header + rest)[end..] == [] + rest[rd..]
  {
  }

  lemma PrefixOfPrefix(a: seq<Octet>, i: nat, j: nat)
    requires i <= j <= |a|
    ensures a[..j][..i] == a[..i]
  {
  }

  /** Writes the block's data; false when it does not decode to the stated size. */
  method WriteBlock(kind: Octet, payload: seq<Octet>, beyond: Octet, us: nat, to: OutFile) returns (good: bool)
    requires us <= MAX_BLOCKSIZE && (kind == 0 ==> us == |payload|)
    modifies to
    ensures good ==> BlockData(kind, payload, us).Some?
                     && to.written == old(to.written) + BlockData(kind, payload, us).value && to.failed == old(to.failed)
    ensures !good && !to.failed ==> BlockData(kind, payload, us).None? && to.written == old(to.written)
    ensures !to.failed ==> !old(to.failed)
    ensures match BlockData(kind, payload, us)
            case None => to.written == old(to.written)
            case Some(x) => old(to.written) <= to.written <= old(to.written) + x
  {
    var rc;
    if kind == 0 {
      rc := WWrite(to, payload);
    } else {
      var buf2 := new Octet[BUF_SIZE];
      var n, errno := LzfDecompress.Decompress(payload, beyond, buf2, us);
      if n != us {
        return false;
      }
      assert buf2[..us] == BlockData(kind, payload, us).value;
      rc := WWrite(to, buf2[..us]);
    }
    good := rc == 0;
  }

  /** The tests on a header: magic, length, block type; and the sizes it states. */
  method ParseHeader(header: array<Octet>, rc: nat, ghost rest: seq<Octet>)
    returns (good: bool, kind: Octet, hdr: nat, bytes: nat, us: nat)
    requires header.Length == MAX_HDR_SIZE && 0 < rc <= MAX_HDR_SIZE && header[0] != 0
    requires rc < MAX_HDR_SIZE ==> rest == []
    ensures var stream := header[..rc] + rest;
            && (good <==> HeaderSize(stream) != 0)
            && (good ==> hdr == HeaderSize(stream) && 5 <= hdr <= rc && kind == stream[2]
                         && bytes == Word(stream[3], stream[4]) && us == StatedSize(stream)
                         && (kind == 0 ==> us == bytes))
    ensures bytes <= MAX_BLOCKSIZE && us <= MAX_BLOCKSIZE
  {
    good, kind, hdr, bytes, us := false, 0, 0, 0, 0;
    if rc < MIN_HDR_SIZE || header[0] != 90 || header[1] != 86 {
      return;
    }
    kind := header[2];
    if kind > 1 || (kind == 1 && rc < TYPE1_HDR_SIZE) {
      return;
    }
    good := true;
    hdr := if kind == 0 then TYPE0_HDR_SIZE else TYPE1_HDR_SIZE;
    bytes := Word(header[3], header[4]);
    us := if kind == 0 then bytes else Word(header[5], header[6]);
  }

  /** uncompress_fd does exactly what Unframe says, whatever the stream, unless a read or a
      write fails; then it has written a prefix of that. */
  method UncompressFd(from: InFile, to: OutFile) returns (rc: int)
    modifies from, to
    ensures rc == 0 || rc == -1
    ensures !from.failed && !to.failed ==>
              (rc == 0 <==> Unframe(old(from.rest)).ok) && to.written == old(to.written) + Unframe(old(from.rest)).data
    ensures old(to.written) <= to.written <= old(to.written) + Unframe(old(from.rest)).data
    ensures rc == 0 ==> from.failed == old(from.failed) && to.failed == old(to.failed)
  {
    hide Unframe, BlockData, Remains, HeaderSize, StatedSize, Word;
    var header, buf1 := new Octet[MAX_HDR_SIZE], new Octet[BUF_SIZE];
    var over: nat := 0;
    ghost var stream, done := from.rest, [];
    RemainsAll(stream);
    assert header[..0] + from.rest == stream;
    while true
      invariant over <= 2 && stream == header[..over] + from.rest
      invariant from.failed == old(from.failed) && to.failed == old(to.failed)
      invariant to.written == old(to.written) + done && Remains(old(from.rest), done, stream)
      decreases |stream|
    {
      RemainsStep(old(from.rest), done, stream);
      DoneIsPrefix(old(from.rest), done, stream);
      rc := ReadHeader(from, header, over);
      if rc < 0 {
        return -1;
      }
      if rc == 0 || header[0] == 0 {
        return 0;
      }
      var good, kind, hdr, bytes, us := ParseHeader(header, rc, from.rest);
      if !good {
        return -1;
      }
      var short;
      short, over := ReadPayload(from, header, rc, hdr, buf1, bytes);
      if short {
        return -1;
      }
      good := WriteBlock(kind, buf1[..bytes], buf1[bytes], us, to);
      ghost var block := BlockData(kind, buf1[..bytes], us);
      if block.Some? {
        DoneIsPrefix(old(from.rest), done + block.value, stream[hdr + bytes..]);
        Assoc(old(to.written), done, block.value);
      }
      if !good {
        return -1;
      }
      ghost var x := block.value;
      stream, done := stream[hdr + bytes..], done + x;
    }
  }

  /** The framed round trip: for every stream, every block size and either compressor, reading
      the compressed file gives back the stream. */
  method FramedRoundTrip(e: LzfRoundTrip.Encoder, blocksize: nat, data: seq<Octet>)
    returns (ioFailed: bool, result: seq<Octet>)
    requires !e.CSharp? && (e.Best? ==> e.base >= LzfRoundTrip.LOWEST_ADDRESS)
    requires 1 <= blocksize <= MAX_BLOCKSIZE
    ensures !ioFailed ==> result == data
  {
    var original := new InFile(data);
    var packed := new OutFile();
    var rc, blocks, lost := CompressFd(e, blocksize, original, packed);
    if rc != 0 || original.failed {
      return true, [];
    }
    UnframeInvertsFile(blocks, []);
    assert FileBytes(blocks) + [] == packed.written;
    var copy := new InFile(packed.written);
    var restored := new OutFile();
    rc := UncompressFd(copy, restored);
    ioFailed, result := copy.failed || restored.failed, restored.written;
  }
}
