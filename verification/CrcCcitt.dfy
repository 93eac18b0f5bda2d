/** ACE::crc_ccitt, the 16-bit relative of ACE::crc32 (RFC 1662, appendix C.2): the three
    overloads agree and continue each other, whatever the 256 table entries are. */
module CrcCcitt {
  import opened Sequences
  import opened CrcFold
  import R = Reflected16

  type Table = t: seq<bv16> | |t| == 256 witness seq(256, _ => 0)

  /** A char is signed: it widens with copies of its sign bit. */
  function Char(ch: bv8): bv16 {
    if ch & 0x80 != 0 then (ch as bv16) | 0xFF00 else ch as bv16
  }

  function Masked(crc: bv16, ch: bv8): bv16 {
    (crc ^ Char(ch)) & 0xFF
  }

  /** The index of COMPUTE, for a char that is taken as signed. */
  function Index(crc: bv16, ch: bv8): (i: int)
    ensures 0 <= i < 256
  {
    IndexInRange(Masked(crc, ch));
    Masked(crc, ch) as int
  }

  lemma IndexInRange(v: bv16)
    requires v & 0xFF00 == 0
    ensures v as int < 256
  {
    assert v < 256;
  }

  function Combine(entry: bv16, crc: bv16): bv16 {
    entry ^ (crc >> 8)
  }

  /** COMPUTE. */
  function Compute(table: Table, crc: bv16, ch: bv8): bv16 {
    Combine(table[Index(crc, ch)], crc)
  }

  function Feeder(table: Table): (bv16, bv8) -> bv16 {
    (crc, ch) => Compute(table, crc, ch)
  }

  function Complement(crc: bv16): bv16 {
    crc ^ 0xFFFF
  }

  lemma ComplementTwice(crc: bv16)
    ensures Complement(Complement(crc)) == crc
  {
  }

  /** The CRC of a message, continuing from seed. */
  function Crc(table: Table, m: seq<bv8>, seed: bv16): bv16 {
    Complement(Fold(Feeder(table), Complement(seed), m))
  }

  lemma CrcIs(table: Table, m: seq<bv8>, seed: bv16)
    ensures Crc(table, m, seed) == Fold(Feeder(table), seed ^ 0xFFFF, m) ^ 0xFFFF
  {
    hide Compute, Fold;
  }

  lemma CrcFromZero(table: Table, m: seq<bv8>)
    ensures Crc(table, m, 0) == Fold(Feeder(table), 0xFFFF, m) ^ 0xFFFF
  {
    hide Compute, Fold;
    assert (0 as bv16) ^ 0xFFFF == 0xFFFF;
  }

  // ---------- the table of RFC 1662 ----------

  /** Entry i is what eight division steps make of i. */
  ghost predicate RfcTable(table: Table) {
    forall i :: 0 <= i < 256 ==> R.Reg(table[i]) == R.Entry(i as bv8)
  }

  /** The byte that indexes the table. */
  function Mix(crc: bv16, ch: bv8): bv8 {
    ch ^ R.LowByte(R.Reg(crc))
  }

  /** The sign of a char does not reach the index. */
  lemma SignIsMasked(crc: bv16, ch: bv8)
    ensures Masked(crc, ch) == Mix(crc, ch) as bv16
  {
  }

  lemma ByteIndex(d: bv8)
    ensures (d as bv16) as int == d as int && (d as int) as bv8 == d
  {
  }

  lemma IndexIsByte(crc: bv16, ch: bv8)
    ensures Index(crc, ch) == Mix(crc, ch) as int
  {
    hide Masked, Mix;
    SignIsMasked(crc, ch);
    ByteIndex(Mix(crc, ch));
  }

  lemma EntryAt(table: Table, d: bv8)
    requires RfcTable(table)
    ensures d as int < 256 && R.Reg(table[d as int]) == R.Entry(d)
  {
    hide R.Entry;
    ByteIndex(d);
  }

  lemma CombineIsXor(entry: bv16, crc: bv16)
    ensures R.Reg(Combine(entry, crc)) == R.Xor(R.Reg(entry), R.Down8(R.Reg(crc)))
  {
  }

  lemma FeedIsMixed(crc: bv16, ch: bv8)
    ensures R.Feed(R.Reg(crc), ch) == R.Xor(R.Entry(Mix(crc, ch)), R.Down8(R.Reg(crc)))
  {
    hide R.Feed, R.Entry, R.Xor, R.Down8, R.LowByte;
    R.FeedIsLookup(R.Reg(crc), ch);
  }

  /** With that table, COMPUTE is eight reflected division steps, whatever the sign of the char. */
  lemma ComputeIsFeed(table: Table, crc: bv16, ch: bv8)
    requires RfcTable(table)
    ensures R.Reg(Compute(table, crc, ch)) == R.Feed(R.Reg(crc), ch)
  {
    hide R.Feed, R.Entry, R.Xor, R.Down8, R.LowByte, Index, Combine, RfcTable, Mix;
    IndexIsByte(crc, ch);
    EntryAt(table, Mix(crc, ch));
    CombineIsXor(table[Index(crc, ch)], crc);
    FeedIsMixed(crc, ch);
  }

  lemma {:induction false} FoldIsRegister(table: Table, crc: bv16, m: seq<bv8>)
    requires RfcTable(table)
    ensures R.Reg(Fold(Feeder(table), crc, m)) == R.Register(R.Reg(crc), m)
    decreases |m|
  {
    hide Compute, R.Feed, RfcTable;
    if m != [] {
      ComputeIsFeed(table, crc, m[0]);
      FoldIsRegister(table, Compute(table, crc, m[0]), m[1..]);
    }
  }

  /** With that table the CRC is the one of RFC 1662. */
  lemma CrcIsRfc(table: Table, m: seq<bv8>, seed: bv16)
    requires RfcTable(table)
    ensures Crc(table, m, seed) == R.Register(R.Reg(seed ^ 0xFFFF), m).v ^ 0xFFFF
  {
    hide Fold, RfcTable, R.Register, Feeder, Crc, Complement, R.Feed;
    CrcIs(table, m, seed);
    FoldComplement(table, seed ^ 0xFFFF, m);
  }

  /** And so are its residue and its check value. */
  lemma ResidueAndCheckValue(table: Table, m: seq<bv8>)
    requires RfcTable(table)
    ensures R.Register(R.Reg(0xFFFF), m + R.WireBytes(Crc(table, m, 0))) == R.Reg(0xF0B8)
    ensures Crc(table, [0x31, 0x32, 0x33, 0x34, 0x35, 0x36, 0x37, 0x38, 0x39], 0) == 0x906E
  {
    hide Fold, RfcTable, R.Register, Crc, R.WireBytes, Feeder;
    FromZero(table, m);
    FromZero(table, [0x31, 0x32, 0x33, 0x34, 0x35, 0x36, 0x37, 0x38, 0x39]);
    R.Residue(m);
    R.CheckValue();
    TwiceComplemented();
  }

  lemma TwiceComplemented()
    ensures ((0x906E as bv16) ^ 0xFFFF) ^ 0xFFFF == 0x906E
  {
  }

  lemma FromZero(table: Table, m: seq<bv8>)
    requires RfcTable(table)
    ensures Crc(table, m, 0) == R.Register(R.Reg(0xFFFF), m).v ^ 0xFFFF
  {
    hide Fold, RfcTable, R.Register, Feeder, Crc, Complement, R.Feed;
    CrcIsRfc(table, m, 0);
    assert (0 as bv16) ^ 0xFFFF == 0xFFFF;
  }

  lemma FoldComplement(table: Table, start: bv16, m: seq<bv8>)
    requires RfcTable(table)
    ensures Fold(Feeder(table), start, m) ^ 0xFFFF == R.Register(R.Reg(start), m).v ^ 0xFFFF
  {
    hide Fold, RfcTable, R.Register, Feeder;
    FoldIsRegister(table, start, m);
    SameComplement(Fold(Feeder(table), start, m), R.Register(R.Reg(start), m));
  }

  lemma SameComplement(x: bv16, r: R.Reg)
    requires R.Reg(x) == r
    ensures x ^ 0xFFFF == r.v ^ 0xFFFF
  {
  }

  method CcittBuffer(table: Table, buffer: seq<bv8>, seed: bv16) returns (crc: bv16)
    ensures crc == Crc(table, buffer, seed)
    ensures crc == Fold(Feeder(table), seed ^ 0xFFFF, buffer) ^ 0xFFFF
    ensures RfcTable(table) ==> crc == R.Register(R.Reg(seed ^ 0xFFFF), buffer).v ^ 0xFFFF
  {
    hide Compute, Complement, RfcTable, R.Register;
    CrcIs(table, buffer, seed);
    if RfcTable(table) {
      CrcIsRfc(table, buffer, seed);
    }
    crc := Complement(seed);
    for p := 0 to |buffer|
      invariant crc == Fold(Feeder(table), Complement(seed), buffer[..p])
    {
      FoldOneMore(Feeder(table), Complement(seed), buffer, p);
      crc := Compute(table, crc, buffer[p]);
    }
    assert buffer[..|buffer|] == buffer;
    crc := Complement(crc);
  }

  method CcittIovec(table: Table, iov: seq<seq<bv8>>, seed: bv16) returns (crc: bv16)
    ensures crc == Crc(table, Join(iov), seed)
    ensures crc == Fold(Feeder(table), seed ^ 0xFFFF, Join(iov)) ^ 0xFFFF
  {
    hide Compute, Complement;
    CrcIs(table, Join(iov), seed);
    var feed := Feeder(table);
    crc := Complement(seed);
    for i := 0 to |iov|
      invariant crc == Fold(feed, Complement(seed), Join(iov[..i]))
    {
      ghost var before := crc;
      var part := iov[i];
      for p := 0 to |part|
        invariant crc == Fold(feed, before, part[..p])
      {
        FoldOneMore(feed, before, part, p);
        crc := Compute(table, crc, part[p]);
      }
      assert part[..|part|] == part;
      JoinOneMore(iov, i);
      FoldSplit(feed, Complement(seed), Join(iov[..i]), part);
    }
    assert iov[..|iov|] == iov;
    crc := Complement(crc);
  }

  /** The string overload stops at the first NUL. */
  method CcittString(table: Table, memory: seq<bv8>) returns (crc: bv16)
    requires 0 in memory
    ensures crc == Crc(table, memory[..StrLen(memory, 0)], 0)
    ensures crc == Fold(Feeder(table), 0xFFFF, memory[..StrLen(memory, 0)]) ^ 0xFFFF
  {
    hide Compute, Complement, StrLen;
    CrcFromZero(table, memory[..StrLen(memory, 0)]);
    var start := Complement(0);
    crc := start;
    var p := 0;
    while memory[p] != 0
      invariant 0 <= p < |memory| && NulFree(memory[..p])
      invariant crc == Fold(Feeder(table), start, memory[..p])
      decreases |memory| - p
    {
      FoldOneMore(Feeder(table), start, memory, p);
      crc := Compute(table, crc, memory[p]);
      assert memory[..p + 1] == memory[..p] + [memory[p]];
      p := p + 1;
    }
    StrLenIs(memory, 0, p);
    crc := Complement(crc);
  }

  /** A CRC continues: the CRC of a seeds the CRC of b to give the CRC of both. */
  lemma CrcContinues(table: Table, a: seq<bv8>, b: seq<bv8>, seed: bv16)
    ensures Crc(table, b, Crc(table, a, seed)) == Crc(table, a + b, seed)
  {
    hide Complement, Fold, Feeder;
    FoldSplit(Feeder(table), Complement(seed), a, b);
    ComplementTwice(Fold(Feeder(table), Complement(seed), a));
  }
}
