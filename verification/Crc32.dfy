/** The reflected CRC-32 of RFC 1662, appendix C.3, as SFFastCRC.cpp, ACE_crc32.cpp and 7zcrc.cpp
    compute it: one register, three loops and a set of slicing tables. */
module Crc32 {
  import opened Sequences
  import opened CrcFold

  const POLYNOMIAL: bv32 := 0xEDB88320

  // ---------- the register and its operations ----------

  /** The 32-bit register. The operations below are used through their laws only. */
  datatype Reg = Reg(v: bv32)

  const ZERO := Reg(0)

  function Xor(a: Reg, b: Reg): Reg {
    Reg(a.v ^ b.v)
  }

  function Down(a: Reg): Reg {
    Reg(a.v >> 1)
  }

  function Down8(a: Reg): Reg {
    Reg(a.v >> 8)
  }

  function LowByte(a: Reg): bv8 {
    (a.v & 0xFF) as bv8
  }

  /** A byte in the low end. */
  function Low(b: bv8): Reg {
    Reg(b as bv32)
  }

  /** The byte that indexes the table: a message byte XORed into the low byte. */
  function Mix(b: bv8, r: Reg): bv8 {
    b ^ LowByte(r)
  }

  /** Everything but the low byte. */
  function AboveLow(a: Reg): Reg {
    Reg(a.v & 0xFFFFFF00)
  }

  /** The polynomial, masked by the low bit. */
  function MaskOf(r: Reg): Reg {
    Reg(POLYNOMIAL & !((r.v & 1) - 1))
  }

  /** One step of the reflected division, without a branch. */
  function Step(r: Reg): Reg {
    Xor(Down(r), MaskOf(r))
  }

  // ---------- their laws ----------

  lemma MaskOfClear(r: Reg)
    requires r.v & 1 == 0
    ensures MaskOf(r) == ZERO
  {
    assert (r.v & 1) - 1 == 0xFFFFFFFF;
  }

  lemma MaskOfSet(r: Reg)
    requires r.v & 1 != 0
    ensures MaskOf(r) == Reg(POLYNOMIAL)
  {
    assert r.v & 1 == 1;
    assert (r.v & 1) - 1 == 0;
  }

  lemma DownLinear(a: Reg, b: Reg)
    ensures Down(Xor(a, b)) == Xor(Down(a), Down(b))
  {
  }

  lemma MaskLinear(a: Reg, b: Reg)
    ensures MaskOf(Xor(a, b)) == Xor(MaskOf(a), MaskOf(b))
  {
  }

  lemma XorSwap(a: Reg, b: Reg, c: Reg, d: Reg)
    ensures Xor(Xor(a, b), Xor(c, d)) == Xor(Xor(a, c), Xor(b, d))
  {
  }

  lemma XorZero(a: Reg)
    ensures Xor(a, ZERO) == a
  {
  }

  lemma XorComm(a: Reg, b: Reg)
    ensures Xor(a, b) == Xor(b, a)
  {
  }

  lemma XorAssoc(a: Reg, b: Reg, c: Reg)
    ensures Xor(a, Xor(b, c)) == Xor(Xor(a, b), c)
  {
  }

  /** A step is division by the polynomial: a bit that falls out brings it in. */
  lemma StepIsDivision(r: Reg)
    ensures Step(r) == if r.v & 1 != 0 then Xor(Down(r), Reg(0xEDB88320)) else Down(r)
  {
    hide Xor, Down, MaskOf;
    if r.v & 1 != 0 {
      MaskOfSet(r);
    } else {
      MaskOfClear(r);
      XorZero(Down(r));
    }
  }

  lemma StepLinear(a: Reg, b: Reg)
    ensures Step(Xor(a, b)) == Xor(Step(a), Step(b))
  {
    hide Xor, Down, MaskOf;
    DownLinear(a, b);
    MaskLinear(a, b);
    XorSwap(Down(a), Down(b), MaskOf(a), MaskOf(b));
  }

  // ---------- one byte ----------

  function Steps(r: Reg, n: nat): Reg
    decreases n
  {
    if n == 0 then r else Steps(Step(r), n - 1)
  }

  /** What one byte does to the register. */
  function Feed(r: Reg, b: bv8): Reg {
    Steps(Xor(r, Low(b)), 8)
  }

  /** An entry of the lookup table. */
  function Entry(b: bv8): Reg {
    Steps(Low(b), 8)
  }

  /** The register after a message. */
  function Register(r: Reg, m: seq<bv8>): Reg {
    Fold(Feed, r, m)
  }

  lemma {:induction false} StepsLinear(a: Reg, b: Reg, n: nat)
    ensures Steps(Xor(a, b), n) == Xor(Steps(a, n), Steps(b, n))
    decreases n
  {
    hide Step, Xor;
    if n > 0 {
      StepLinear(a, b);
      StepsLinear(Step(a), Step(b), n - 1);
    }
  }

  predicate LowBit(r: Reg) {
    r.v & 1 != 0
  }

  /** The n lowest bits are clear. */
  predicate Clear(r: Reg, n: nat)
    decreases n
  {
    n == 0 || (!LowBit(r) && Clear(Down(r), n - 1))
  }

  function Downs(r: Reg, n: nat): Reg
    decreases n
  {
    if n == 0 then r else Downs(Down(r), n - 1)
  }

  lemma ClearBitMovesDown(r: Reg)
    requires !LowBit(r)
    ensures Step(r) == Down(r)
  {
    hide Xor, MaskOf, Down;
    MaskOfClear(r);
    XorZero(Down(r));
  }

  lemma {:induction false} ClearBitsMoveDown(r: Reg, n: nat)
    requires Clear(r, n)
    ensures Steps(r, n) == Downs(r, n)
    decreases n
  {
    hide LowBit, Step, Down;
    if n > 0 {
      ClearBitMovesDown(r);
      ClearBitsMoveDown(Down(r), n - 1);
    }
  }

  lemma EightDowns(r: Reg)
    ensures Down(Down(Down(Down(Down(Down(Down(Down(r)))))))) == Down8(r)
  {
  }

  lemma AboveLowShift(r: Reg)
    ensures Down8(AboveLow(r)) == Down8(r)
  {
  }

  lemma AboveLowClear(r: Reg)
    ensures var x := AboveLow(r); var x4 := Down(Down(Down(Down(x))));
            && !LowBit(x) && !LowBit(Down(x)) && !LowBit(Down(Down(x))) && !LowBit(Down(Down(Down(x))))
            && !LowBit(x4) && !LowBit(Down(x4)) && !LowBit(Down(Down(x4))) && !LowBit(Down(Down(Down(x4))))
  {
  }

  lemma AboveLowMovesDown(r: Reg)
    ensures Steps(AboveLow(r), 8) == Down8(r)
  {
    hide Steps, AboveLow, Down, Down8, LowBit;
    var x := AboveLow(r);
    var x4 := Down(Down(Down(Down(x))));
    AboveLowClear(r);
    AboveLowShift(r);
    EightDowns(x);
    assert Clear(Down(Down(x4)), 2) && Clear(x4, 4) && Clear(Down(Down(x)), 6) && Clear(x, 8);
    assert Downs(Down(Down(x4)), 2) == Down8(x) && Downs(x4, 4) == Down8(x);
    assert Downs(Down(Down(x)), 6) == Down8(x) && Downs(x, 8) == Down8(x);
    ClearBitsMoveDown(x, 8);
  }

  /** The low byte alone. */
  function LowPart(a: Reg): Reg {
    Reg(a.v & 0xFF)
  }

  lemma LowOfXor(r: Reg, b: bv8)
    ensures Low(Mix(b, r)) == Xor(Low(b), LowPart(r))
  {
  }

  lemma PartsOf(r: Reg)
    ensures r == Xor(LowPart(r), AboveLow(r))
  {
  }

  lemma SplitLow(r: Reg, b: bv8)
    ensures Xor(r, Low(b)) == Xor(Low(Mix(b, r)), AboveLow(r))
  {
    hide Xor, Low, LowPart, LowByte, Mix, AboveLow;
    PartsOf(r);
    LowOfXor(r, b);
    XorComm(r, Low(b));
    XorAssoc(Low(b), LowPart(r), AboveLow(r));
  }

  /** Eight bit steps are one table entry, for the low byte, and a shift, for the others. */
  lemma FeedIsLookup(r: Reg, b: bv8)
    ensures Feed(r, b) == Xor(Entry(Mix(b, r)), Down8(r))
  {
    hide Step, Steps, Xor, Low, LowByte, Mix, AboveLow, Down8;
    SplitLow(r, b);
    StepsLinear(Low(Mix(b, r)), AboveLow(r), 8);
    AboveLowMovesDown(r);
  }

  // ---------- the lookup table and the loops over it ----------

  ghost predicate BaseTable(table: seq<bv32>) {
    |table| >= 256 && forall i :: 0 <= i < 256 ==> Reg(table[i]) == Entry(i as bv8)
  }

  /** A char is signed: it widens with copies of its sign bit. */
  function Char(b: bv8): bv32 {
    if b & 0x80 != 0 then (b as bv32) | 0xFFFFFF00 else b as bv32
  }

  function Index(crc: bv32, b: bv8): int {
    ((crc ^ (b as bv32)) & 0xFF) as int
  }

  function CharIndex(crc: bv32, ch: bv8): int {
    ((crc ^ Char(ch)) & 0xFF) as int
  }

  function Combine(entry: bv32, crc: bv32): bv32 {
    entry ^ (crc >> 8)
  }

  lemma MaskedXor(r: bv32, c: bv32)
    ensures (r ^ c) & 0xFF == (r & 0xFF) ^ (c & 0xFF)
  {
  }

  lemma CharLow(b: bv8)
    ensures Char(b) & 0xFF == (b as bv32) & 0xFF
  {
  }

  lemma SignDoesNotMatter(crc: bv32, b: bv8)
    ensures CharIndex(crc, b) == Index(crc, b)
  {
    hide Char;
    CharLow(b);
    MaskedXor(crc, Char(b));
    MaskedXor(crc, b as bv32);
  }

  lemma IndexWidened(r: bv32, b: bv8)
    ensures (r ^ (b as bv32)) & 0xFF == (b ^ ((r & 0xFF) as bv8)) as bv32
  {
  }

  lemma ByteIndex(d: bv8)
    ensures (d as bv32) as int == d as int && (d as int) as bv8 == d
  {
  }

  lemma IndexIsByte(crc: bv32, b: bv8)
    ensures Index(crc, b) == Mix(b, Reg(crc)) as int
  {
    IndexWidened(crc, b);
    ByteIndex(b ^ ((crc & 0xFF) as bv8));
  }

  lemma CombineIsXor(entry: bv32, crc: bv32)
    ensures Reg(Combine(entry, crc)) == Xor(Reg(entry), Down8(Reg(crc)))
  {
  }

  lemma EntryAt(table: seq<bv32>, d: bv8)
    requires BaseTable(table)
    ensures d as int < |table| && Reg(table[d as int]) == Entry(d)
  {
    hide Entry;
    ByteIndex(d);
  }

  /** DO1, and COMPUTE on an unsigned byte. */
  method Do1(crc: bv32, b: bv8, table: seq<bv32>) returns (crc': bv32)
    requires BaseTable(table)
    ensures Reg(crc') == Feed(Reg(crc), b)
  {
    hide Feed, Entry, Xor, Down8, LowByte, Mix, BaseTable, Index, Combine;
    IndexIsByte(crc, b);
    EntryAt(table, Mix(b, Reg(crc)));
    crc' := Combine(table[Index(crc, b)], crc);
    CombineIsXor(table[Index(crc, b)], crc);
    FeedIsLookup(Reg(crc), b);
  }

  /** COMPUTE on a signed char. */
  method Compute(crc: bv32, ch: bv8, table: seq<bv32>) returns (crc': bv32)
    requires BaseTable(table)
    ensures Reg(crc') == Feed(Reg(crc), ch)
  {
    hide Feed, Entry, Xor, Down8, LowByte, Mix, BaseTable, Index, CharIndex, Combine;
    SignDoesNotMatter(crc, ch);
    IndexIsByte(crc, ch);
    EntryAt(table, Mix(ch, Reg(crc)));
    crc' := Combine(table[CharIndex(crc, ch)], crc);
    CombineIsXor(table[CharIndex(crc, ch)], crc);
    FeedIsLookup(Reg(crc), ch);
  }

  function Complement(crc: bv32): bv32 {
    crc ^ 0xFFFFFFFF
  }

  lemma ComplementTwice(crc: bv32)
    ensures Complement(Complement(crc)) == crc
  {
  }

  /** The CRC of a message, continuing from seed: complemented on the way in and out. */
  ghost function Crc(m: seq<bv8>, seed: bv32): bv32 {
    Complement(Register(Reg(Complement(seed)), m).v)
  }

  /** In plain words: the register starts as the complement of the seed and is complemented at the
      end. */
  lemma CrcIs(m: seq<bv8>, seed: bv32)
    ensures Crc(m, seed) == Register(Reg(seed ^ 0xFFFF_FFFF), m).v ^ 0xFFFF_FFFF
  {
    hide Register;
  }

  lemma CrcFromZero(m: seq<bv8>)
    ensures Crc(m, 0) == Register(Reg(0xFFFF_FFFF), m).v ^ 0xFFFF_FFFF
  {
    hide Register;
    assert (0 as bv32) ^ 0xFFFF_FFFF == 0xFFFF_FFFF;
  }

  /** GetSimpleCRC: eight bytes at a time, then the rest. */
  method GetSimpleCRC(pBuffer: array?<bv8>, bufferSize: nat, table: seq<bv32>) returns (ok: bool, crc: bv32)
    requires BaseTable(table) && (pBuffer != null ==> bufferSize <= pBuffer.Length)
    ensures ok <==> pBuffer != null
    ensures ok ==> crc == Crc(pBuffer[..bufferSize], 0)
    ensures ok ==> crc == Register(Reg(0xFFFF_FFFF), pBuffer[..bufferSize]).v ^ 0xFFFF_FFFF
  {
    hide BaseTable, Feed, Complement;
    if pBuffer == null {
      return false, 0;
    }
    ghost var m := pBuffer[..bufferSize];
    var start := Complement(0);
    crc := start;
    var left, p := bufferSize, 0;
    while left >= 8
      invariant 0 <= left && p == bufferSize - left
      invariant Reg(crc) == Register(Reg(start), m[..p])
    {
      for k := 0 to 8
        invariant Reg(crc) == Register(Reg(start), m[..p + k])
      {
        FoldOneMore(Feed, Reg(start), m, p + k);
        crc := Do1(crc, pBuffer[p + k], table);
      }
      p := p + 8;
      left := left - 8;
    }
    while left != 0
      invariant 0 <= left && p == bufferSize - left
      invariant Reg(crc) == Register(Reg(start), m[..p])
    {
      FoldOneMore(Feed, Reg(start), m, p);
      crc := Do1(crc, pBuffer[p], table);
      p := p + 1;
      left := left - 1;
    }
    assert m[..p] == m;
    CrcFromZero(m);
    crc := Complement(crc);
    ok := true;
  }

  /** ACE::crc32 of a buffer with a seed. */
  method Crc32Buffer(buffer: seq<bv8>, seed: bv32, table: seq<bv32>) returns (crc: bv32)
    requires BaseTable(table)
    ensures crc == Crc(buffer, seed)
    ensures crc == Register(Reg(seed ^ 0xFFFF_FFFF), buffer).v ^ 0xFFFF_FFFF
  {
    hide BaseTable, Feed, Complement;
    CrcIs(buffer, seed);
    crc := Complement(seed);
    for p := 0 to |buffer|
      invariant Reg(crc) == Register(Reg(Complement(seed)), buffer[..p])
    {
      FoldOneMore(Feed, Reg(Complement(seed)), buffer, p);
      crc := Compute(crc, buffer[p], table);
    }
    assert buffer[..|buffer|] == buffer;
    crc := Complement(crc);
  }

  /** ACE::crc32 of an iovec with a seed. */
  method Crc32Iovec(iov: seq<seq<bv8>>, seed: bv32, table: seq<bv32>) returns (crc: bv32)
    requires BaseTable(table)
    ensures crc == Crc(Join(iov), seed)
    ensures crc == Register(Reg(seed ^ 0xFFFF_FFFF), Join(iov)).v ^ 0xFFFF_FFFF
  {
    hide BaseTable, Feed, Complement;
    CrcIs(Join(iov), seed);
    crc := Complement(seed);
    for i := 0 to |iov|
      invariant Reg(crc) == Register(Reg(Complement(seed)), Join(iov[..i]))
    {
      ghost var before := Reg(crc);
      var part := iov[i];
      for p := 0 to |part|
        invariant Reg(crc) == Register(before, part[..p])
      {
        FoldOneMore(Feed, before, part, p);
        crc := Compute(crc, part[p], table);
      }
      assert part[..|part|] == part;
      JoinOneMore(iov, i);
      FoldSplit(Feed, Reg(Complement(seed)), Join(iov[..i]), part);
    }
    assert iov[..|iov|] == iov;
    crc := Complement(crc);
  }

  /** ACE::crc32 of a NUL-terminated string. */
  method Crc32String(memory: seq<bv8>, table: seq<bv32>) returns (crc: bv32)
    requires BaseTable(table) && 0 in memory
    ensures crc == Crc(memory[..StrLen(memory, 0)], 0)
    ensures crc == Register(Reg(0xFFFF_FFFF), memory[..StrLen(memory, 0)]).v ^ 0xFFFF_FFFF
  {
    hide BaseTable, Feed, Complement, StrLen;
    CrcFromZero(memory[..StrLen(memory, 0)]);
    var start := Complement(0);
    crc := start;
    var p := 0;
    while memory[p] != 0
      invariant 0 <= p < |memory| && NulFree(memory[..p])
      invariant Reg(crc) == Register(Reg(start), memory[..p])
      decreases |memory| - p
    {
      FoldOneMore(Feed, Reg(start), memory, p);
      crc := Compute(crc, memory[p], table);
      assert memory[..p + 1] == memory[..p] + [memory[p]];
      p := p + 1;
    }
    StrLenIs(memory, 0, p);
    crc := Complement(crc);
  }

  /** A CRC continues: the CRC of a seeds the CRC of b to give the CRC of both. */
  lemma CrcContinues(a: seq<bv8>, b: seq<bv8>, seed: bv32)
    ensures Crc(b, Crc(a, seed)) == Crc(a + b, seed)
  {
    hide Feed, Complement, Fold;
    var start := Reg(Complement(seed));
    FoldSplit(Feed, start, a, b);
    ComplementTwice(Register(start, a).v);
  }

  // ---------- the slicing tables of 7zcrc.cpp ----------

  /** The register after n zero bytes. */
  function Zeros(r: Reg, n: nat): Reg
    decreases n
  {
    if n == 0 then r else Feed(Zeros(r, n - 1), 0)
  }

  /** Entry i belongs to table i / 256 and byte i % 256: the register that byte and i / 256 zero
      bytes leave. */
  function SliceOf(i: nat): Reg {
    Zeros(Entry((i % 256) as bv8), i / 256)
  }

  ghost predicate TablesFilled(table: seq<bv32>, upTo: int) {
    upTo <= |table| && forall i :: 0 <= i < upTo ==> Reg(table[i]) == SliceOf(i)
  }

  lemma FirstSlice(i: nat)
    requires i < 256
    ensures SliceOf(i) == Entry(i as bv8)
  {
    assert i % 256 == i && i / 256 == 0;
  }

  lemma NextSlice(i: nat)
    requires i >= 256
    ensures SliceOf(i) == Feed(SliceOf(i - 256), 0)
  {
    hide Feed, Entry;
    assert (i - 256) % 256 == i % 256 && (i - 256) / 256 == i / 256 - 1;
  }

  lemma FeedZero(r: Reg)
    ensures Feed(r, 0) == Xor(Entry(LowByte(r)), Down8(r))
  {
    hide Feed, Entry, Xor, Down8, LowByte, Mix;
    FeedIsLookup(r, 0);
    ZeroIsNeutral(r);
  }

  lemma ZeroIsNeutral(r: Reg)
    ensures Mix(0, r) == LowByte(r)
  {
  }

  method DivideByte(i: nat) returns (r: bv32)
    requires i < 256
    ensures Reg(r) == Entry(i as bv8)
  {
    hide Step;
    WordOfByte(i);
    r := i as bv32;
    for j := 0 to 8
      invariant Steps(Reg(r), 8 - j) == Entry(i as bv8)
    {
      r := DivideBit(r);
    }
  }

  lemma WordOfByte(i: nat)
    requires i < 256
    ensures Reg(i as bv32) == Low(i as bv8)
  {
  }

  method DivideBit(r: bv32) returns (r': bv32)
    ensures Reg(r') == Step(Reg(r))
  {
    r' := (r >> 1) ^ (POLYNOMIAL & !((r & 1) - 1));
  }

  function LowIndex(r: bv32): int {
    (r & 0xFF) as int
  }

  lemma LowIndexIsByte(r: bv32)
    ensures LowIndex(r) == LowByte(Reg(r)) as int
  {
  }

  /** One entry beyond the first table: the entry 256 places back, fed one zero byte. */
  method SliceEntry(r: bv32, table: array<bv32>) returns (entry: bv32)
    requires table.Length >= 256 && BaseTable(table[..])
    ensures Reg(entry) == Feed(Reg(r), 0)
  {
    hide Feed, Entry, Xor, Down8, LowByte, Mix, Combine, LowIndex, BaseTable;
    LowIndexIsByte(r);
    EntryAt(table[..], LowByte(Reg(r)));
    entry := Combine(table[LowIndex(r)], r);
    CombineIsXor(table[LowIndex(r)], r);
    FeedZero(Reg(r));
  }

  lemma FilledIsBase(table: seq<bv32>, upTo: int)
    requires 256 <= upTo && TablesFilled(table, upTo)
    ensures BaseTable(table)
  {
    hide SliceOf, Entry;
    forall i | 0 <= i < 256
      ensures Reg(table[i]) == Entry(i as bv8)
    {
      FirstSlice(i);
    }
  }

  /** CrcGenerateTable, for any number of tables. */
  method CrcGenerateTable(table: array<bv32>, numTables: nat)
    requires numTables >= 1 && table.Length == 256 * numTables
    modifies table
    ensures TablesFilled(table[..], table.Length) && BaseTable(table[..])
  {
    hide Entry, Feed, SliceOf, BaseTable;
    var i := 0;
    while i < 256
      invariant 0 <= i <= 256 && TablesFilled(table[..], i)
    {
      FirstSlice(i);
      table[i] := DivideByte(i);
      i := i + 1;
    }
    while i < table.Length
      invariant 256 <= i <= table.Length && TablesFilled(table[..], i)
    {
      NextSlice(i);
      FilledIsBase(table[..], i);
      var r := table[i - 256];
      table[i] := SliceEntry(r, table);
      i := i + 1;
    }
    FilledIsBase(table[..], i);
  }

  // ---------- what the slicing tables are for ----------

  /** One lookup per table: byte j of the message goes to table |m| - 1 - j. */
  function Lookups(m: seq<bv8>): Reg
    decreases |m|
  {
    if m == [] then ZERO else Xor(Zeros(Entry(m[0]), |m| - 1), Lookups(m[1..]))
  }

  lemma FeedLinear(a: Reg, b: Reg, c: bv8)
    ensures Feed(Xor(a, b), c) == Xor(Feed(a, c), Feed(b, 0))
  {
    hide Steps, Xor, Low;
    LowZero();
    XorZero(b);
    XorSwap(a, b, Low(c), ZERO);
    XorZero(Low(c));
    StepsLinear(Xor(a, Low(c)), Xor(b, ZERO), 8);
  }

  lemma LowZero()
    ensures Low(0) == ZERO
  {
  }

  lemma EntryIsFeed(b: bv8)
    ensures Feed(ZERO, b) == Entry(b)
  {
    hide Steps, Xor, Low;
    XorComm(ZERO, Low(b));
    XorZero(Low(b));
  }

  lemma {:induction false} ZerosFirst(r: Reg, n: nat)
    ensures Zeros(Feed(r, 0), n) == Zeros(r, n + 1)
    decreases n
  {
    hide Feed;
    if n > 0 {
      ZerosFirst(r, n - 1);
    }
  }

  /** A register and a message contribute separately. */
  lemma {:induction false} RegisterSuperposes(a: Reg, b: Reg, m: seq<bv8>)
    ensures Register(Xor(a, b), m) == Xor(Register(a, m), Zeros(b, |m|))
    decreases |m|
  {
    hide Feed, Xor;
    if m != [] {
      FeedLinear(a, b, m[0]);
      RegisterSuperposes(Feed(a, m[0]), Feed(b, 0), m[1..]);
      ZerosFirst(b, |m| - 1);
    }
  }

  /** From the zero register, a message is the XOR of one lookup per byte, each in its own
      table. */
  lemma {:induction false} RegisterIsLookups(m: seq<bv8>)
    ensures Register(ZERO, m) == Lookups(m)
    decreases |m|
  {
    hide Feed, Xor, Entry;
    if m != [] {
      EntryIsFeed(m[0]);
      XorComm(ZERO, Entry(m[0]));
      XorZero(Entry(m[0]));
      RegisterSuperposes(ZERO, Entry(m[0]), m[1..]);
      RegisterIsLookups(m[1..]);
      XorComm(Lookups(m[1..]), Zeros(Entry(m[0]), |m| - 1));
    }
  }

  /** Any number of byte steps from any register: one lookup per byte, and the register pushed
      through as many zero bytes. */
  lemma Slicing(r: Reg, m: seq<bv8>)
    ensures Register(r, m) == Xor(Lookups(m), Zeros(r, |m|))
  {
    hide Xor, Register, Lookups;
    XorComm(ZERO, r);
    XorZero(r);
    RegisterSuperposes(ZERO, r, m);
    RegisterIsLookups(m);
  }

  /** The first n bytes of m, XORed with the low n bytes of r. */
  function Mixed(r: Reg, m: seq<bv8>, n: nat): (mixed: seq<bv8>)
    requires n <= |m|
    ensures |mixed| == |m|
    decreases n
  {
    if n == 0 then m else [Mix(m[0], r)] + Mixed(Down8(r), m[1..], n - 1)
  }

  function Downs8(r: Reg, n: nat): Reg
    decreases n
  {
    if n == 0 then r else Downs8(Down8(r), n - 1)
  }

  lemma ConsTail(b: bv8, rest: seq<bv8>)
    ensures ([b] + rest)[1..] == rest
  {
  }

  lemma {:induction false} RegisterMixes(a: Reg, r: Reg, m: seq<bv8>, n: nat)
    requires n <= |m| && Downs8(r, n) == ZERO
    ensures Register(Xor(a, r), m) == Register(a, Mixed(r, m, n))
    decreases n
  {
    hide Feed, Xor, LowByte, Mix, Down8;
    if n == 0 {
      XorZero(a);
    } else {
      FeedMoves(a, r, m[0]);
      RegisterMixes(Feed(a, Mix(m[0], r)), Down8(r), m[1..], n - 1);
      ConsTail(Mix(m[0], r), Mixed(Down8(r), m[1..], n - 1));
    }
  }

  lemma LowXor(a: Reg, b: Reg)
    ensures LowByte(Xor(a, b)) == LowByte(a) ^ LowByte(b)
  {
  }

  lemma Down8Linear(a: Reg, b: Reg)
    ensures Down8(Xor(a, b)) == Xor(Down8(a), Down8(b))
  {
  }

  lemma BytesXor(c: bv8, a: bv8, b: bv8)
    ensures c ^ (a ^ b) == (c ^ b) ^ a
  {
  }

  lemma MixXor(c: bv8, a: Reg, r: Reg)
    ensures Mix(c, Xor(a, r)) == Mix(Mix(c, r), a)
  {
    hide Xor, LowByte;
    LowXor(a, r);
    BytesXor(c, LowByte(a), LowByte(r));
  }

  /** The low byte of r acts as if it had been XORed into the message, the rest waits. */
  lemma FeedMoves(a: Reg, r: Reg, c: bv8)
    ensures Feed(Xor(a, r), c) == Xor(Feed(a, Mix(c, r)), Down8(r))
  {
    hide Feed, Entry, Xor, Mix, Down8;
    FeedIsLookup(Xor(a, r), c);
    FeedIsLookup(a, Mix(c, r));
    MixXor(c, a, r);
    Down8Linear(a, r);
    XorAssoc(Entry(Mix(Mix(c, r), a)), Down8(a), Down8(r));
  }

  lemma FourBytesEmpty(r: Reg)
    ensures Down8(Down8(Down8(Down8(r)))) == ZERO
  {
  }

  /** Slicing by N, for every N of at least four: from any register, N byte steps are one lookup
      per table, the first four at the message bytes XORed with the register's bytes. */
  lemma SlicingByN(r: Reg, m: seq<bv8>)
    requires |m| >= 4
    ensures Register(r, m) == Lookups(Mixed(r, m, 4))
  {
    hide Xor, Register, Lookups, Down8, LowByte, Mix, Mixed;
    FourBytesEmpty(r);
    assert Downs8(Down8(Down8(r)), 2) == ZERO && Downs8(r, 4) == ZERO;
    XorComm(ZERO, r);
    XorZero(r);
    RegisterMixes(ZERO, r, m, 4);
    RegisterIsLookups(Mixed(r, m, 4));
  }

  /** The word that byte b finds in table k. */
  function TableEntry(table: seq<bv32>, k: nat, b: bv8): Reg
    requires 256 * (k + 1) <= |table|
  {
    ByteIndex(b);
    Reg(table[256 * k + b as int])
  }

  /** The XOR of one word per byte, byte j in table |m| - 1 - j. */
  function TableLookups(table: seq<bv32>, m: seq<bv8>): Reg
    requires 256 * |m| <= |table|
    decreases |m|
  {
    if m == [] then ZERO else Xor(TableEntry(table, |m| - 1, m[0]), TableLookups(table, m[1..]))
  }

  lemma EntryOfSlice(table: seq<bv32>, upTo: int, k: nat, b: bv8)
    requires TablesFilled(table, upTo) && 256 * (k + 1) <= upTo
    ensures TableEntry(table, k, b) == Zeros(Entry(b), k)
  {
    hide Zeros, Entry, TablesFilled;
    FilledIsLong(table, upTo);
    ByteIndex(b);
    SliceAt(table, upTo, k, b as int);
  }

  lemma SliceAt(table: seq<bv32>, upTo: int, k: nat, d: nat)
    requires TablesFilled(table, upTo) && 256 * (k + 1) <= upTo && d < 256
    ensures Reg(table[256 * k + d]) == Zeros(Entry(d as bv8), k)
  {
    hide Zeros, Entry;
    IndexSplits(k, d);
    assert Reg(table[256 * k + d]) == SliceOf(256 * k + d);
  }

  lemma IndexSplits(k: nat, d: nat)
    requires d < 256
    ensures (256 * k + d) / 256 == k && (256 * k + d) % 256 == d
  {
  }

  lemma {:induction false} TableLookupsAre(table: seq<bv32>, upTo: int, m: seq<bv8>)
    requires TablesFilled(table, upTo) && 256 * |m| <= upTo
    ensures TableLookups(table, m) == Lookups(m)
    decreases |m|
  {
    hide Zeros, Entry, Xor, TableEntry, TablesFilled;
    FilledIsLong(table, upTo);
    if m != [] {
      EntryOfSlice(table, upTo, |m| - 1, m[0]);
      TableLookupsAre(table, upTo, m[1..]);
    }
  }

  lemma FilledIsLong(table: seq<bv32>, upTo: int)
    requires TablesFilled(table, upTo)
    ensures upTo <= |table|
  {
  }

  /** Slicing on the tables that CrcGenerateTable fills: N byte steps from any register are N
      words of the table array, one from each of N tables. */
  lemma SlicingByTable(table: seq<bv32>, upTo: int, r: Reg, m: seq<bv8>)
    requires TablesFilled(table, upTo) && 4 <= |m| && 256 * |m| <= upTo
    ensures upTo <= |table| && Register(r, m) == TableLookups(table, Mixed(r, m, 4))
  {
    hide Mixed, Lookups, TableLookups, Register, TablesFilled;
    FilledIsLong(table, upTo);
    SlicingByN(r, m);
    TableLookupsAre(table, upTo, Mixed(r, m, 4));
  }

  // ---------- the residue and the check value ----------

  /** The four bytes of a word, the lowest first. */
  function WireBytes(w: bv32): (bytes: seq<bv8>)
    ensures |bytes| == 4
  {
    var r := Reg(w);
    [LowByte(r), LowByte(Down8(r)), LowByte(Down8(Down8(r))), LowByte(Down8(Down8(Down8(r))))]
  }

  lemma ComplementedByte0(r: Reg)
    ensures Mix(LowByte(Reg(r.v ^ 0xFFFF_FFFF)), r) == 0xFF
  {
  }

  lemma ComplementedByte1(r: Reg)
    ensures Mix(LowByte(Down8(Reg(r.v ^ 0xFFFF_FFFF))), Down8(r)) == 0xFF
  {
  }

  lemma ComplementedByte2(r: Reg)
    ensures Mix(LowByte(Down8(Down8(Reg(r.v ^ 0xFFFF_FFFF)))), Down8(Down8(r))) == 0xFF
  {
  }

  lemma ComplementedByte3(r: Reg)
    ensures Mix(LowByte(Down8(Down8(Down8(Reg(r.v ^ 0xFFFF_FFFF))))), Down8(Down8(Down8(r)))) == 0xFF
  {
  }

  /** The complement of a register, mixed into that register, is all ones. */
  lemma MixedComplement(r: Reg)
    ensures Mixed(r, WireBytes(r.v ^ 0xFFFF_FFFF), 4) == [0xFF, 0xFF, 0xFF, 0xFF]
  {
    hide Mix, LowByte, Down8;
    ComplementedByte0(r);
    ComplementedByte1(r);
    ComplementedByte2(r);
    ComplementedByte3(r);
    var m := WireBytes(r.v ^ 0xFFFF_FFFF);
    assert m[1..][1..] == m[2..] && m[2..][1..] == m[3..] && m[3..][1..] == [];
    assert Mixed(Down8(Down8(Down8(Down8(r)))), [], 0) == [];
    assert Mixed(Down8(Down8(Down8(r))), m[3..], 1) == [0xFF];
    assert Mixed(Down8(Down8(r)), m[2..], 2) == [0xFF, 0xFF];
    assert Mixed(Down8(r), m[1..], 3) == [0xFF, 0xFF, 0xFF];
  }

  lemma AllOnes()
    ensures Register(ZERO, [0xFF, 0xFF, 0xFF, 0xFF]) == Reg(0xDEBB_20E3)
  {
    assert Feed(Reg(0), 0xFF) == Reg(0x2D02_EF8D);
    assert Feed(Reg(0x2D02_EF8D), 0xFF) == Reg(0xBE26_12FF);
    assert Feed(Reg(0xBE26_12FF), 0xFF) == Reg(0x00BE_2612);
    assert Feed(Reg(0x00BE_2612), 0xFF) == Reg(0xDEBB_20E3);
    FourFeeds(Reg(0), [0xFF, 0xFF, 0xFF, 0xFF]);
  }

  lemma RegisterStep(r: Reg, m: seq<bv8>, r': Reg)
    requires m != [] && Feed(r, m[0]) == r'
    ensures Register(r, m) == Register(r', m[1..])
  {
    hide Feed;
  }

  lemma FourFeeds(r: Reg, m: seq<bv8>)
    requires |m| == 4
    ensures Register(r, m) == Feed(Feed(Feed(Feed(r, m[0]), m[1]), m[2]), m[3])
  {
    hide Feed, Register;
    var r1, r2, r3 := Feed(r, m[0]), Feed(Feed(r, m[0]), m[1]), Feed(Feed(Feed(r, m[0]), m[1]), m[2]);
    RegisterStep(r, m, r1);
    RegisterStep(r1, m[1..], r2);
    RegisterStep(r2, m[1..][1..], r3);
    RegisterStep(r3, m[1..][1..][1..], Feed(r3, m[3]));
    NothingFed(Feed(r3, m[3]), m[1..][1..][1..][1..]);
  }

  lemma NothingFed(r: Reg, m: seq<bv8>)
    requires m == []
    ensures Register(r, m) == r
  {
  }

  /** The check value of CRC-32: the CRC of the digits 1 to 9. */
  lemma CheckValue()
    ensures Crc([0x31, 0x32, 0x33, 0x34, 0x35, 0x36, 0x37, 0x38, 0x39], 0) == 0xCBF4_3926
  {
    hide Register;
    var m: seq<bv8> := [0x31, 0x32, 0x33, 0x34, 0x35, 0x36, 0x37, 0x38, 0x39];
    CrcFromZero(m);
    assert m[0..] == m;
    StepAt(m, 0, Reg(0xFFFF_FFFF), Reg(0x7C23_1048));
    StepAt(m, 1, Reg(0x7C23_1048), Reg(0xB0AC_BB32));
    StepAt(m, 2, Reg(0xB0AC_BB32), Reg(0x77B7_9C2D));
    StepAt(m, 3, Reg(0x77B7_9C2D), Reg(0x641C_1F5C));
    StepAt(m, 4, Reg(0x641C_1F5C), Reg(0x340A_C5E3));
    StepAt(m, 5, Reg(0x340A_C5E3), Reg(0xF68D_2C9E));
    StepAt(m, 6, Reg(0xF68D_2C9E), Reg(0xAFFC_9660));
    StepAt(m, 7, Reg(0xAFFC_9660), Reg(0x651F_2550));
    StepAt(m, 8, Reg(0x651F_2550), Reg(0x340B_C6D9));
    NothingFed(Reg(0x340B_C6D9), m[9..]);
  }

  lemma StepAt(m: seq<bv8>, i: nat, r: Reg, r': Reg)
    requires i < |m| && Feed(r, m[i]) == r'
    ensures Register(r, m[i..]) == Register(r', m[i + 1..])
  {
    hide Feed, Register;
    RegisterStep(r, m[i..], r');
    assert m[i..][1..] == m[i + 1..];
  }

  /** The residue of RFC 1662, appendix C.3: whatever the message, the register after it and its own
      CRC, lowest byte first, is 0xDEBB20E3. */
  lemma Residue(m: seq<bv8>)
    ensures Register(Reg(0xFFFF_FFFF), m + WireBytes(Crc(m, 0))) == Reg(0xDEBB_20E3)
  {
    hide Crc, Mixed, WireBytes, Feed, Xor, Register;
    var r := Register(Reg(0xFFFF_FFFF), m);
    CrcFromZero(m);
    RegisterSplits(Reg(0xFFFF_FFFF), m, WireBytes(Crc(m, 0)));
    FourBytesEmpty(r);
    FourDowns(r);
    XorComm(ZERO, r);
    XorZero(r);
    RegisterMixes(ZERO, r, WireBytes(r.v ^ 0xFFFF_FFFF), 4);
    MixedComplement(r);
    AllOnes();
  }

  lemma RegisterSplits(r: Reg, a: seq<bv8>, b: seq<bv8>)
    ensures Register(r, a + b) == Register(Register(r, a), b)
  {
    hide Feed;
    FoldSplit(Feed, r, a, b);
  }

  lemma FourDowns(r: Reg)
    ensures Downs8(r, 4) == Down8(Down8(Down8(Down8(r))))
  {
    hide Down8;
    assert Downs8(Down8(Down8(r)), 2) == Down8(Down8(Down8(Down8(r))));
  }
}
