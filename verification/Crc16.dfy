/** crc.cpp: the 16-bit CRC-CCITT, bit by bit and by table, and what it detects. */
module Crc16 {
  const POLYNOMIAL: bv16 := 0x1021
  const INITIAL_REMAINDER: bv16 := 0xFFFF
  const FINAL_XOR_VALUE: bv16 := 0x0000
  const TOPBIT: bv16 := 0x8000

  // ---------- the register and its operations ----------

  /** The 16-bit register. The operations below are used through their laws only. */
  datatype Reg = Reg(v: bv16)

  const ZERO := Reg(0)
  const INITIAL := Reg(INITIAL_REMAINDER)

  function Xor(a: Reg, b: Reg): Reg {
    Reg(a.v ^ b.v)
  }

  function Up(a: Reg): Reg {
    Reg(a.v << 1)
  }

  function Top(a: Reg): bool {
    a.v & 0x8000 != 0
  }

  function TopIf(bit: bool): Reg {
    if bit then Reg(0x8000) else Reg(0)
  }

  /** A byte in the high half. */
  function High(b: bv8): Reg {
    Reg((b as bv16) << 8)
  }

  /** The low half alone, and the low half moved up. */
  function LowHalf(a: Reg): Reg {
    Reg(a.v & 0xFF)
  }

  function Up8(a: Reg): Reg {
    Reg(a.v << 8)
  }

  function HighByte(a: Reg): bv8 {
    (a.v >> 8) as bv8
  }

  /** One step of the modulo-2 division. */
  function Step(r: Reg): Reg {
    if r.v & TOPBIT != 0 then Reg((r.v << 1) ^ POLYNOMIAL) else Reg(r.v << 1)
  }

  // ---------- their laws ----------

  /** A step without a branch: the polynomial is masked by the top bit. */
  function Masked(r: Reg): Reg {
    Reg((r.v << 1) ^ (0x1021 & (0 - (r.v >> 15))))
  }

  lemma StepIsMasked(r: Reg)
    ensures Step(r) == Masked(r)
  {
    if r.v & 0x8000 != 0 {
      assert r.v >> 15 == 1;
    } else {
      assert r.v >> 15 == 0;
    }
  }

  lemma MaskedLinear(a: Reg, b: Reg)
    ensures Masked(Xor(a, b)) == Xor(Masked(a), Masked(b))
  {
  }

  lemma StepLinear(a: Reg, b: Reg)
    ensures Step(Xor(a, b)) == Xor(Step(a), Step(b))
  {
    hide Step, Masked, Xor;
    MaskedLinear(a, b);
    StepIsMasked(a);
    StepIsMasked(b);
    StepIsMasked(Xor(a, b));
  }

  lemma MaskedInjective(a: Reg, b: Reg)
    requires Masked(a) == Masked(b)
    ensures a == b
  {
  }

  lemma StepInjective(a: Reg, b: Reg)
    requires Step(a) == Step(b)
    ensures a == b
  {
    hide Step, Masked;
    StepIsMasked(a);
    StepIsMasked(b);
    MaskedInjective(a, b);
  }

  lemma XorZero(a: Reg)
    ensures Xor(a, ZERO) == a
  {
  }

  lemma XorCancel(a: Reg, b: Reg)
    ensures Xor(Xor(a, b), b) == a
  {
  }

  lemma XorEqual(a: Reg, b: Reg)
    requires Xor(a, b) == ZERO
    ensures a == b
  {
  }

  lemma XorAssoc(a: Reg, b: Reg, c: Reg)
    ensures Xor(a, Xor(b, c)) == Xor(Xor(a, b), c)
  {
  }

  lemma UpLinear(a: Reg, b: Reg)
    ensures Up(Xor(a, b)) == Xor(Up(a), Up(b))
  {
  }

  lemma TopLinear(a: Reg, b: Reg)
    ensures Top(Xor(a, b)) == (Top(a) != Top(b))
  {
    if a.v & 0x8000 != 0 {
      if b.v & 0x8000 != 0 {
        assert (a.v ^ b.v) & 0x8000 == 0;
      } else {
        assert (a.v ^ b.v) & 0x8000 != 0;
      }
    } else {
      if b.v & 0x8000 != 0 {
        assert (a.v ^ b.v) & 0x8000 != 0;
      } else {
        assert (a.v ^ b.v) & 0x8000 == 0;
      }
    }
  }

  /** The top bit goes through the polynomial, the others move up. */
  lemma StepTakesTopBit(w: Reg)
    ensures Step(w) == Xor(Step(TopIf(Top(w))), Up(w))
  {
  }

  lemma TopAndUpDecide(a: Reg, b: Reg)
    requires Top(a) == Top(b) && Up(a) == Up(b)
    ensures a == b
  {
  }

  // ---------- the CRC ----------

  function Steps(r: Reg, n: nat): Reg
    decreases n
  {
    if n == 0 then r else Steps(Step(r), n - 1)
  }

  /** What one message byte does to the register. */
  function Feed(r: Reg, b: bv8): Reg {
    Steps(Xor(r, High(b)), 8)
  }

  /** The register after a message. */
  function Remainder(m: seq<bv8>): Reg {
    if m == [] then INITIAL else Feed(Remainder(m[..|m| - 1]), m[|m| - 1])
  }

  lemma {:induction false} StepsLinear(a: Reg, b: Reg, n: nat)
    ensures Steps(Xor(a, b), n) == Xor(Steps(a, n), Steps(b, n))
    decreases n
  {
    hide Step, Xor;
    if n > 0 {
      StepLinear(a, b);
      StepsLinear(Step(a), Step(b), n - 1);
    }
  }

  /** One pass of the inner loop. */
  method DivideBit(r: bv16) returns (remainder: bv16)
    ensures Reg(remainder) == Step(Reg(r))
  {
    remainder := r;
    if remainder & TOPBIT != 0 {
      remainder := (remainder << 1) ^ POLYNOMIAL;
    } else {
      remainder := remainder << 1;
    }
  }

  /** The inner loop: eight bits, the top one first. */
  method Divide(r: bv16) returns (remainder: bv16)
    ensures Reg(remainder) == Steps(Reg(r), 8)
  {
    hide Step;
    remainder := r;
    var bit := 8;
    while bit > 0
      invariant 0 <= bit <= 8 && Steps(Reg(remainder), bit) == Steps(Reg(r), 8)
    {
      remainder := DivideBit(remainder);
      bit := bit - 1;
    }
  }

  /** Both loops of the bitwise division. */
  method CrcSlow(message: seq<bv8>) returns (crc: bv16)
    ensures crc == Remainder(message).v == FeedBits(Reg(0xFFFF), Bits(message)).v
  {
    hide Step, Steps;
    RemainderIsBits(message);
    var remainder := INITIAL_REMAINDER;
    for i := 0 to |message|
      invariant Reg(remainder) == Remainder(message[..i])
    {
      assert message[..i + 1][..i] == message[..i];
      remainder := remainder ^ ((message[i] as bv16) << 8);
      remainder := Divide(remainder);
    }
    assert message[..|message|] == message;
    FinalXor(remainder);
    crc := remainder ^ FINAL_XOR_VALUE;
  }

  lemma FinalXor(x: bv16)
    ensures x ^ FINAL_XOR_VALUE == x
  {
  }

  // ---------- the table ----------

  ghost predicate TableReady(table: seq<bv16>) {
    |table| == 256 && forall i :: 0 <= i < 256 ==> Reg(table[i]) == Steps(High(i as bv8), 8)
  }

  method CrcInit(crcTable: array<bv16>)
    requires crcTable.Length == 256
    modifies crcTable
    ensures TableReady(crcTable[..])
  {
    hide Steps;
    for dividend := 0 to 256
      invariant forall i :: 0 <= i < dividend ==> Reg(crcTable[i]) == Steps(High(i as bv8), 8)
    {
      DividendIsHigh(dividend);
      crcTable[dividend] := Divide((dividend as bv16) << 8);
    }
  }

  lemma DividendIsHigh(i: int)
    requires 0 <= i < 256
    ensures Reg((i as bv16) << 8) == High(i as bv8)
  {
  }

  lemma UpFromLowHalf(x: bv16)
    requires x & 0xFF00 == 0
    ensures Step(Reg(x)) == Reg(x << 1) && Step(Reg(x << 1)) == Reg(x << 2)
    ensures Step(Reg(x << 2)) == Reg(x << 3) && Step(Reg(x << 3)) == Reg(x << 4)
    ensures Step(Reg(x << 4)) == Reg(x << 5) && Step(Reg(x << 5)) == Reg(x << 6)
    ensures Step(Reg(x << 6)) == Reg(x << 7) && Step(Reg(x << 7)) == Reg(x << 8)
  {
  }

  /** Bits that start in the low half only move up: eight steps shift them into the high half. */
  lemma LowHalfMovesUp(r: Reg)
    ensures Steps(LowHalf(r), 8) == Up8(r)
  {
    hide Step;
    var x := r.v & 0xFF;
    UpFromLowHalf(x);
    assert Steps(Reg(x), 8) == Steps(Reg(x << 2), 6);
    assert Steps(Reg(x << 2), 6) == Steps(Reg(x << 4), 4);
    assert Steps(Reg(x << 4), 4) == Steps(Reg(x << 6), 2);
    assert Steps(Reg(x << 6), 2) == Steps(Reg(x << 8), 0);
  }

  lemma SplitWord(r: bv16, c: bv16)
    ensures r ^ (c << 8) == ((c ^ (r >> 8)) << 8) ^ (r & 0xFF)
  {
  }

  lemma WidenXor(b: bv8, r: bv16)
    ensures (b ^ ((r >> 8) as bv8)) as bv16 == (b as bv16) ^ (r >> 8)
  {
  }

  lemma SplitHalves(r: Reg, b: bv8)
    ensures Xor(r, High(b)) == Xor(High(b ^ HighByte(r)), LowHalf(r))
  {
    WidenXor(b, r.v);
    SplitWord(r.v, b as bv16);
  }

  /** Eight bit steps are one table entry, for the high byte, and a shift, for the low one. */
  lemma FeedIsLookup(r: Reg, b: bv8)
    ensures Feed(r, b) == Xor(Steps(High(b ^ HighByte(r)), 8), Up8(r))
  {
    hide Step, Steps, Xor, High, LowHalf, Up8;
    SplitHalves(r, b);
    StepsLinear(High(b ^ HighByte(r)), LowHalf(r), 8);
    LowHalfMovesUp(r);
  }

  lemma LookUpValue(entry: bv16, r: bv16)
    ensures Reg(entry ^ (r << 8)) == Xor(Reg(entry), Up8(Reg(r)))
  {
  }

  lemma LookUpIndex(r: bv16, byte: bv8)
    ensures byte ^ ((r >> 8) as bv8) == byte ^ HighByte(Reg(r))
  {
  }

  method LookUp(remainder: bv16, byte: bv8, crcTable: array<bv16>) returns (next: bv16)
    requires TableReady(crcTable[..])
    ensures Reg(next) == Feed(Reg(remainder), byte)
  {
    hide Feed, Steps, Xor, Up8, High, HighByte;
    var data: bv8 := byte ^ ((remainder >> 8) as bv8);
    ByteIndex(data);
    var entry := crcTable[data as int];
    assert crcTable[..][data as int] == entry;
    next := entry ^ (remainder << 8);
    LookUpValue(entry, remainder);
    LookUpIndex(remainder, byte);
    FeedIsLookup(Reg(remainder), byte);
  }

  lemma ByteIndex(d: bv8)
    ensures (d as int) as bv8 == d
  {
  }

  /** crcFast computes what crcSlow computes, once crcInit has filled the table. */
  method CrcFast(message: seq<bv8>, crcTable: array<bv16>) returns (crc: bv16)
    requires TableReady(crcTable[..])
    ensures crc == Remainder(message).v == FeedBits(Reg(0xFFFF), Bits(message)).v
  {
    hide TableReady, Feed;
    RemainderIsBits(message);
    var remainder := INITIAL_REMAINDER;
    for i := 0 to |message|
      invariant Reg(remainder) == Remainder(message[..i])
    {
      assert message[..i + 1][..i] == message[..i];
      remainder := LookUp(remainder, message[i], crcTable);
    }
    assert message[..|message|] == message;
    FinalXor(remainder);
    crc := remainder ^ FINAL_XOR_VALUE;
  }

  // ---------- messages as bits ----------

  function FeedBit(r: Reg, bit: bool): Reg {
    Step(Xor(r, TopIf(bit)))
  }

  function FeedBits(r: Reg, bits: seq<bool>): Reg
    decreases |bits|
  {
    if bits == [] then r else FeedBits(FeedBit(r, bits[0]), bits[1..])
  }

  /** The top n bits of w, the highest first. */
  function TopBits(w: Reg, n: nat): (bits: seq<bool>)
    ensures |bits| == n
    decreases n
  {
    if n == 0 then [] else [Top(w)] + TopBits(Up(w), n - 1)
  }

  function ByteBits(b: bv8): (bits: seq<bool>)
    ensures |bits| == 8
  {
    TopBits(High(b), 8)
  }

  function Bits(m: seq<bv8>): (bits: seq<bool>)
    ensures |bits| == 8 * |m|
  {
    if m == [] then [] else Bits(m[..|m| - 1]) + ByteBits(m[|m| - 1])
  }

  function Ups(w: Reg, n: nat): Reg
    decreases n
  {
    if n == 0 then w else Ups(Up(w), n - 1)
  }

  lemma FeedTakesTopBit(r: Reg, w: Reg)
    ensures Step(Xor(r, w)) == Xor(FeedBit(r, Top(w)), Up(w))
  {
    hide Step, Xor, Up, Top, TopIf;
    StepLinear(r, w);
    StepTakesTopBit(w);
    StepLinear(r, TopIf(Top(w)));
    XorAssoc(Step(r), Step(TopIf(Top(w))), Up(w));
  }

  /** Feeding a word all at once or bit by bit differs only by the bits not yet fed. */
  lemma {:induction false} StepsAreBits(r: Reg, w: Reg, n: nat)
    ensures Steps(Xor(r, w), n) == Xor(FeedBits(r, TopBits(w, n)), Ups(w, n))
    decreases n
  {
    hide Step, Xor, Up, Top, FeedBit;
    if n > 0 {
      FeedTakesTopBit(r, w);
      StepsAreBits(FeedBit(r, Top(w)), Up(w), n - 1);
      assert TopBits(w, n)[1..] == TopBits(Up(w), n - 1);
    }
  }

  lemma UpsChain(x: bv16)
    ensures Up(Reg(x)) == Reg(x << 1) && Up(Reg(x << 1)) == Reg(x << 2)
    ensures Up(Reg(x << 2)) == Reg(x << 3) && Up(Reg(x << 3)) == Reg(x << 4)
  {
  }

  lemma UpsChainMiddle(x: bv16)
    ensures Up(Reg(x << 4)) == Reg(x << 5) && Up(Reg(x << 5)) == Reg(x << 6)
    ensures Up(Reg(x << 6)) == Reg(x << 7) && Up(Reg(x << 7)) == Reg(x << 8)
  {
  }

  lemma UpsChainHigh(x: bv16)
    ensures Up(Reg(x << 8)) == Reg(x << 9) && Up(Reg(x << 9)) == Reg(x << 10)
    ensures Up(Reg(x << 10)) == Reg(x << 11) && Up(Reg(x << 11)) == Reg(x << 12)
    ensures Up(Reg(x << 12)) == Reg(x << 13) && Up(Reg(x << 13)) == Reg(x << 14)
    ensures Up(Reg(x << 14)) == Reg(x << 15) && Up(Reg(x << 15)) == ZERO
  {
  }

  lemma UpsOfEight(w: Reg)
    ensures Ups(w, 8) == Up8(w)
  {
    hide Up;
    var x := w.v;
    UpsChain(x);
    UpsChainMiddle(x);
    assert Ups(Reg(x), 8) == Ups(Reg(x << 2), 6);
    assert Ups(Reg(x << 2), 6) == Ups(Reg(x << 4), 4);
    assert Ups(Reg(x << 4), 4) == Ups(Reg(x << 6), 2);
    assert Ups(Reg(x << 6), 2) == Ups(Reg(x << 8), 0);
  }

  lemma HighLeaves(b: bv8, c: bv8)
    ensures Up8(High(b)) == ZERO && Up8(Xor(High(b), High(c))) == ZERO
    ensures High(b) == High(c) ==> b == c
  {
  }

  lemma FeedIsBits(r: Reg, b: bv8)
    ensures Feed(r, b) == FeedBits(r, ByteBits(b))
  {
    hide Step, Steps, Xor, High, FeedBits, TopBits, Ups, Up8;
    StepsAreBits(r, High(b), 8);
    UpsOfEight(High(b));
    HighLeaves(b, b);
    XorZero(FeedBits(r, ByteBits(b)));
  }

  lemma {:induction false} FeedBitsSplit(r: Reg, a: seq<bool>, b: seq<bool>)
    ensures FeedBits(r, a + b) == FeedBits(FeedBits(r, a), b)
    decreases |a|
  {
    hide FeedBit;
    if a == [] {
      assert a + b == b;
    } else {
      assert (a + b)[1..] == a[1..] + b;
      FeedBitsSplit(FeedBit(r, a[0]), a[1..], b);
    }
  }

  /** The CRC of a message is the register after its bits, the highest of each byte first. */
  lemma {:induction false} RemainderIsBits(m: seq<bv8>)
    ensures Remainder(m) == FeedBits(Reg(0xFFFF), Bits(m))
  {
    hide Feed, ByteBits;
    if m != [] {
      var front := m[..|m| - 1];
      RemainderIsBits(front);
      FeedIsBits(Remainder(front), m[|m| - 1]);
      FeedBitsSplit(INITIAL, Bits(front), ByteBits(m[|m| - 1]));
    }
  }

  /** Words with the same top n bits differ at most below them. */
  lemma {:induction false} SameTopBits(w: Reg, v: Reg, n: nat)
    requires TopBits(w, n) == TopBits(v, n) && Ups(Xor(w, v), n) == ZERO
    ensures w == v
    decreases n
  {
    hide Top, Up, Xor;
    if n == 0 {
      XorEqual(w, v);
    } else {
      assert TopBits(w, n)[0] == TopBits(v, n)[0];
      assert TopBits(Up(w), n - 1) == TopBits(w, n)[1..];
      assert TopBits(Up(v), n - 1) == TopBits(v, n)[1..];
      UpLinear(w, v);
      TopLinear(w, v);
      SameTopBits(Up(w), Up(v), n - 1);
      TopAndUpDecide(w, v);
    }
  }

  lemma ByteBitsInjective(b: bv8, c: bv8)
    requires ByteBits(b) == ByteBits(c)
    ensures b == c
  {
    hide TopBits, Ups, High, Xor, Up8;
    UpsOfEight(Xor(High(b), High(c)));
    HighLeaves(b, c);
    SameTopBits(High(b), High(c), 8);
  }

  lemma {:induction false} BitsOfByte(m: seq<bv8>, k: nat)
    requires k < |m|
    ensures Bits(m)[8 * k..8 * k + 8] == ByteBits(m[k])
  {
    hide ByteBits;
    if k < |m| - 1 {
      BitsOfByte(m[..|m| - 1], k);
    }
  }

  // ---------- burst errors ----------

  /** A set of low places that can still move up left times without losing one. */
  predicate Room(mask: bv16, left: nat)
    decreases left
  {
    left == 0 || (mask & 0x8000 == 0 && Room((mask << 1) | 1, left - 1))
  }

  lemma RoomForFifteen()
    ensures Room(1, 15)
  {
    assert Room(0x7FFF, 1) && Room(0x3FFF, 2) && Room(0x1FFF, 3) && Room(0x0FFF, 4);
    assert Room(0x07FF, 5) && Room(0x03FF, 6) && Room(0x01FF, 7) && Room(0x00FF, 8);
    assert Room(0x007F, 9) && Room(0x003F, 10) && Room(0x001F, 11) && Room(0x000F, 12);
    assert Room(0x0007, 13) && Room(0x0003, 14);
  }

  /** The register has a bit in one of the places of mask. */
  predicate Has(x: Reg, mask: bv16) {
    x.v & mask != 0
  }

  /** The registers differ in one of the places of mask. */
  predicate DifferIn(r1: Reg, r2: Reg, mask: bv16) {
    Has(Xor(r1, r2), mask)
  }

  lemma MaskedMovesBit(x: Reg, mask: bv16)
    requires Has(x, mask) && mask & 0x8000 == 0
    ensures Has(Masked(Xor(x, TopIf(true))), (mask << 1) | 1)
    ensures Has(Masked(Xor(x, TopIf(false))), (mask << 1) | 1)
  {
  }

  lemma StepMovesBit(x: Reg, bit: bool, mask: bv16)
    requires Has(x, mask) && mask & 0x8000 == 0
    ensures Has(Step(Xor(x, TopIf(bit))), (mask << 1) | 1)
  {
    hide Step, Masked, Has, Xor, TopIf;
    MaskedMovesBit(x, mask);
    StepIsMasked(Xor(x, TopIf(bit)));
  }

  lemma XorTopsLeft(r1: Reg, r2: Reg)
    ensures Xor(Xor(r1, TopIf(true)), Xor(r2, TopIf(false))) == Xor(Xor(r1, r2), TopIf(true))
  {
  }

  lemma XorTopsRight(r1: Reg, r2: Reg)
    ensures Xor(Xor(r1, TopIf(false)), Xor(r2, TopIf(true))) == Xor(Xor(r1, r2), TopIf(true))
  {
  }

  lemma XorTopsBoth(r1: Reg, r2: Reg)
    ensures Xor(Xor(r1, TopIf(true)), Xor(r2, TopIf(true))) == Xor(Xor(r1, r2), TopIf(false))
  {
  }

  lemma XorTops(r1: Reg, r2: Reg, b1: bool, b2: bool)
    ensures Xor(Xor(r1, TopIf(b1)), Xor(r2, TopIf(b2))) == Xor(Xor(r1, r2), TopIf(b1 != b2))
  {
    hide Xor;
    if b1 || b2 {
      hide TopIf;
      XorTopsLeft(r1, r2);
      XorTopsRight(r1, r2);
      XorTopsBoth(r1, r2);
    } else {
      XorZero(r1);
      XorZero(r2);
      XorZero(Xor(r1, r2));
    }
  }

  /** Whatever bits come next, the difference reappears one place higher or at the bottom. */
  lemma DifferenceMoves(r1: Reg, r2: Reg, b1: bool, b2: bool, mask: bv16)
    requires DifferIn(r1, r2, mask) && mask & 0x8000 == 0
    ensures DifferIn(FeedBit(r1, b1), FeedBit(r2, b2), (mask << 1) | 1)
  {
    hide Step, Xor, TopIf, Has;
    StepMovesBit(Xor(r1, r2), b1 != b2, mask);
    XorTops(r1, r2, b1, b2);
    StepLinear(Xor(r1, TopIf(b1)), Xor(r2, TopIf(b2)));
  }

  lemma DifferInSome(r1: Reg, r2: Reg, mask: bv16)
    requires DifferIn(r1, r2, mask)
    ensures r1 != r2
  {
  }

  lemma FeedBitInjective(r1: Reg, r2: Reg, bit: bool)
    requires r1 != r2
    ensures FeedBit(r1, bit) != FeedBit(r2, bit)
  {
    hide Step, Xor, TopIf;
    XorCancel(r1, TopIf(bit));
    XorCancel(r2, TopIf(bit));
    if FeedBit(r1, bit) == FeedBit(r2, bit) {
      StepInjective(Xor(r1, TopIf(bit)), Xor(r2, TopIf(bit)));
    }
  }

  lemma {:induction false} SameBitsKeepDifference(r1: Reg, r2: Reg, s: seq<bool>)
    requires r1 != r2
    ensures FeedBits(r1, s) != FeedBits(r2, s)
    decreases |s|
  {
    hide FeedBit;
    if s != [] {
      FeedBitInjective(r1, r2, s[0]);
      SameBitsKeepDifference(FeedBit(r1, s[0]), FeedBit(r2, s[0]), s[1..]);
    }
  }

  /** After the first differing bit: left more bits may differ, the rest agree. */
  lemma {:induction false} StaysDifferent(r1: Reg, r2: Reg, s1: seq<bool>, s2: seq<bool>, mask: bv16, left: nat)
    requires |s1| == |s2| && DifferIn(r1, r2, mask) && Room(mask, left)
    requires forall i :: left <= i < |s1| ==> s1[i] == s2[i]
    ensures FeedBits(r1, s1) != FeedBits(r2, s2)
    decreases |s1|
  {
    hide FeedBit, DifferIn;
    DifferInSome(r1, r2, mask);
    if left == 0 {
      assert s1 == s2;
      SameBitsKeepDifference(r1, r2, s1);
    } else if s1 != [] {
      DifferenceMoves(r1, r2, s1[0], s2[0], mask);
      StaysDifferent(FeedBit(r1, s1[0]), FeedBit(r2, s2[0]), s1[1..], s2[1..], (mask << 1) | 1, left - 1);
    }
  }

  lemma StepOfTop()
    ensures Step(TopIf(true)) == Reg(0x1021)
  {
  }

  lemma LowestBitSet(r: Reg)
    ensures DifferIn(Xor(r, Reg(POLYNOMIAL)), r, 1)
  {
  }

  lemma LowestBitSetToo(r: Reg)
    ensures DifferIn(r, Xor(r, Reg(POLYNOMIAL)), 1)
  {
  }

  /** The first differing bit shows in the lowest place, where the polynomial has a term. */
  lemma FirstDifference(r: Reg, b: bool)
    ensures DifferIn(FeedBit(r, b), FeedBit(r, !b), 1)
  {
    hide Step, Xor, DifferIn;
    XorZero(r);
    StepLinear(r, TopIf(true));
    StepOfTop();
    LowestBitSet(Step(r));
    LowestBitSetToo(Step(r));
  }

  /** Two different bit strings of equal length whose differences lie in sixteen consecutive
      places lead to different registers. */
  lemma {:induction false} BurstChangesRegister(r: Reg, s1: seq<bool>, s2: seq<bool>, from: nat)
    requires |s1| == |s2| && s1 != s2
    requires forall i :: 0 <= i < |s1| && !(from <= i < from + 16) ==> s1[i] == s2[i]
    ensures FeedBits(r, s1) != FeedBits(r, s2)
    decreases |s1|
  {
    hide FeedBit, DifferIn, Room;
    if s1[0] == s2[0] {
      assert s1 == [s1[0]] + s1[1..] && s2 == [s2[0]] + s2[1..];
      BurstChangesRegister(FeedBit(r, s1[0]), s1[1..], s2[1..], if from > 0 then from - 1 else 0);
    } else {
      FirstDifference(r, s1[0]);
      RoomForFifteen();
      StaysDifferent(FeedBit(r, s1[0]), FeedBit(r, s2[0]), s1[1..], s2[1..], 1, 15);
    }
  }

  lemma BitsDiffer(m1: seq<bv8>, m2: seq<bv8>)
    requires |m1| == |m2| && m1 != m2
    ensures Bits(m1) != Bits(m2)
  {
    hide Bits, ByteBits;
    var k :| 0 <= k < |m1| && m1[k] != m2[k];
    BitsOfByte(m1, k);
    BitsOfByte(m2, k);
    if ByteBits(m1[k]) == ByteBits(m2[k]) {
      ByteBitsInjective(m1[k], m2[k]);
    }
  }

  /** Burst detection: two different messages of equal length, whose bits differ only within
      some sixteen consecutive places, have different CRCs. */
  lemma BurstDetected(m1: seq<bv8>, m2: seq<bv8>, from: nat)
    requires |m1| == |m2| && m1 != m2
    requires forall i :: 0 <= i < 8 * |m1| && !(from <= i < from + 16) ==> Bits(m1)[i] == Bits(m2)[i]
    ensures Remainder(m1) != Remainder(m2)
  {
    hide Bits, Remainder, FeedBits;
    BitsDiffer(m1, m2);
    BurstChangesRegister(INITIAL, Bits(m1), Bits(m2), from);
    RemainderIsBits(m1);
    RemainderIsBits(m2);
  }

  /** In particular any change confined to two adjacent bytes. */
  lemma TwoByteBurstDetected(m1: seq<bv8>, m2: seq<bv8>, k: nat)
    requires |m1| == |m2| && m1 != m2
    requires forall i :: 0 <= i < |m1| && i != k && i != k + 1 ==> m1[i] == m2[i]
    ensures Remainder(m1) != Remainder(m2)
  {
    hide Bits, Remainder, ByteBits;
    forall i | 0 <= i < 8 * |m1| && !(8 * k <= i < 8 * k + 16)
      ensures Bits(m1)[i] == Bits(m2)[i]
    {
      var q := i / 8;
      BitsOfByte(m1, q);
      BitsOfByte(m2, q);
      assert Bits(m1)[8 * q..8 * q + 8][i - 8 * q] == Bits(m2)[8 * q..8 * q + 8][i - 8 * q];
    }
    BurstDetected(m1, m2, 8 * k);
  }

  // ---------- parity ----------

  /** The parity of the top n bits. */
  function Parity(r: Reg, n: nat): bool
    decreases n
  {
    if n == 0 then false else Top(r) != Parity(Up(r), n - 1)
  }

  lemma {:induction false} ParityLinear(a: Reg, b: Reg, n: nat)
    ensures Parity(Xor(a, b), n) == (Parity(a, n) != Parity(b, n))
    decreases n
  {
    hide Top, Up, Xor;
    if n > 0 {
      UpLinear(a, b);
      TopLinear(a, b);
      ParityLinear(Up(a), Up(b), n - 1);
    }
  }

  lemma {:induction false} ParityLastBit(r: Reg, n: nat)
    ensures Parity(r, n + 1) == (Parity(r, n) != Top(Ups(r, n)))
    decreases n
  {
    hide Top, Up;
    if n > 0 {
      ParityLastBit(Up(r), n - 1);
    }
  }

  lemma {:induction false} ZeroIsEven(n: nat)
    ensures !Parity(ZERO, n)
  {
    if n > 0 {
      ZeroIsEven(n - 1);
    }
  }

  lemma ParityOfTop()
    ensures Parity(TopIf(true), 16) && !Parity(TopIf(false), 16)
  {
    ZeroIsEven(15);
    ZeroIsEven(16);
  }

  /** Three terms below the leading one. */
  lemma ParityOfPolynomial()
    ensures Parity(Reg(POLYNOMIAL), 16)
  {
    ZeroIsEven(0);
    assert Parity(Reg(0x8000), 1);
    assert Parity(Reg(0x2000), 3);
    assert Parity(Reg(0x0800), 5);
    assert !Parity(Reg(0x8400), 6);
    assert !Parity(Reg(0x2100), 8);
    assert !Parity(Reg(0x0840), 10);
    assert Parity(Reg(0x8420), 11) by {
      assert Up(Reg(0x8420)) == Reg(0x0840);
    }
    assert Parity(Reg(0x2108), 13);
    assert Parity(Reg(0x0842), 15);
  }

  lemma StepSplits(r: Reg)
    ensures Step(r) == if Top(r) then Xor(Up(r), Reg(0x1021)) else Up(r)
  {
  }

  /** Sixteen moves up leave nothing. */
  lemma NothingLeft(r: Reg)
    ensures !Top(Ups(Up(r), 15))
  {
    hide Up;
    var x := r.v;
    UpsChain(x);
    UpsChainMiddle(x);
    UpsChainHigh(x);
    assert Ups(Reg(x << 1), 15) == Ups(Reg(x << 3), 13);
    assert Ups(Reg(x << 3), 13) == Ups(Reg(x << 5), 11);
    assert Ups(Reg(x << 5), 11) == Ups(Reg(x << 7), 9);
    assert Ups(Reg(x << 7), 9) == Ups(Reg(x << 9), 7);
    assert Ups(Reg(x << 9), 7) == Ups(Reg(x << 11), 5);
    assert Ups(Reg(x << 11), 5) == Ups(Reg(x << 13), 3);
    assert Ups(Reg(x << 13), 3) == Ups(Reg(x << 15), 1);
    assert Ups(Reg(x << 15), 1) == ZERO;
  }

  /** The polynomial has an even number of terms, so a step keeps the parity. */
  lemma StepKeepsParity(r: Reg)
    ensures Parity(Step(r), 16) == Parity(r, 16)
  {
    hide Step, Up, Top, Xor, Ups;
    StepSplits(r);
    ParityLastBit(Up(r), 15);
    NothingLeft(r);
    if Top(r) {
      ParityLinear(Up(r), Reg(POLYNOMIAL), 16);
      ParityOfPolynomial();
    }
  }

  function OddOnes(bits: seq<bool>): bool {
    if bits == [] then false else bits[0] != OddOnes(bits[1..])
  }

  lemma {:induction false} ParityOfRegister(r: Reg, bits: seq<bool>)
    ensures Parity(FeedBits(r, bits), 16) == (Parity(r, 16) != OddOnes(bits))
    decreases |bits|
  {
    hide Step, Parity, Xor, TopIf;
    if bits != [] {
      StepKeepsParity(Xor(r, TopIf(bits[0])));
      ParityLinear(r, TopIf(bits[0]), 16);
      ParityOfTop();
      ParityOfRegister(FeedBit(r, bits[0]), bits[1..]);
    }
  }

  /** The CRC has the parity of its message, so two messages of any lengths, one with an even and
      one with an odd number of ones, never share a CRC: every odd number of flipped bits shows. */
  lemma OddErrorsDetected(m1: seq<bv8>, m2: seq<bv8>)
    requires OddOnes(Bits(m1)) != OddOnes(Bits(m2))
    ensures Remainder(m1) != Remainder(m2)
  {
    hide Remainder, Bits, Parity, OddOnes, FeedBits;
    RemainderIsBits(m1);
    RemainderIsBits(m2);
    ParityOfRegister(INITIAL, Bits(m1));
    ParityOfRegister(INITIAL, Bits(m2));
  }

  // ---------- the residue and the check value ----------

  lemma RemainderOneMore(m: seq<bv8>, b: bv8)
    ensures Remainder(m + [b]) == Feed(Remainder(m), b)
  {
    hide Feed;
    assert (m + [b])[..|m|] == m;
  }

  function LowByte(a: Reg): bv8 {
    (a.v & 0xFF) as bv8
  }

  lemma ZeroSteps(n: nat)
    ensures Steps(ZERO, n) == ZERO
    decreases n
  {
    if n > 0 {
      ZeroSteps(n - 1);
    }
  }

  lemma OwnByte(b: bv8)
    ensures High(b ^ b) == ZERO
  {
  }

  /** Its own high byte empties the high half of the register. */
  lemma FeedOwnByte(r: Reg)
    ensures Feed(r, HighByte(r)) == Up8(r)
  {
    hide Feed, Steps, Xor, High, HighByte, Up8;
    FeedIsLookup(r, HighByte(r));
    OwnByte(HighByte(r));
    ZeroSteps(8);
    XorZeroLeft(Up8(r));
  }

  lemma XorZeroLeft(a: Reg)
    ensures Xor(ZERO, a) == a
  {
  }

  lemma LowMovedUp(r: Reg)
    ensures HighByte(Up8(r)) == LowByte(r) && Up8(Up8(r)) == ZERO
  {
  }

  /** A message with its own CRC behind it, high byte first, leaves nothing. */
  lemma Residue(m: seq<bv8>)
    ensures var crc := Remainder(m); Remainder(m + [HighByte(crc)] + [LowByte(crc)]) == Reg(0)
  {
    hide Remainder, Feed, HighByte, LowByte, Up8;
    var r := Remainder(m);
    RemainderOneMore(m, HighByte(r));
    RemainderOneMore(m + [HighByte(r)], LowByte(r));
    FeedOwnByte(r);
    LowMovedUp(r);
    FeedOwnByte(Up8(r));
  }

  lemma StepAt(m: seq<bv8>, i: nat, r: Reg, r': Reg)
    requires i < |m| && Remainder(m[..i]) == r && Feed(r, m[i]) == r'
    ensures Remainder(m[..i + 1]) == r'
  {
    hide Remainder, Feed;
    RemainderOneMore(m[..i], m[i]);
    assert m[..i + 1] == m[..i] + [m[i]];
  }

  lemma AtStart(m: seq<bv8>)
    ensures Remainder(m[..0]) == Reg(0xFFFF)
  {
  }

  lemma FirstDigits()
    ensures Feed(Reg(0xFFFF), 0x31) == Reg(0xC782)
    ensures Feed(Reg(0xC782), 0x32) == Reg(0x3DBA)
    ensures Feed(Reg(0x3DBA), 0x33) == Reg(0x5BCE)
  {
  }

  lemma MiddleDigits()
    ensures Feed(Reg(0x5BCE), 0x34) == Reg(0x5349)
    ensures Feed(Reg(0x5349), 0x35) == Reg(0x4560)
    ensures Feed(Reg(0x4560), 0x36) == Reg(0x2EF4)
  {
  }

  lemma LastDigits()
    ensures Feed(Reg(0x2EF4), 0x37) == Reg(0x7718)
    ensures Feed(Reg(0x7718), 0x38) == Reg(0xA12B)
    ensures Feed(Reg(0xA12B), 0x39) == Reg(0x29B1)
  {
  }

  /** The check value of this CRC: the CRC of the digits 1 to 9. */
  lemma CheckValue()
    ensures Remainder([0x31, 0x32, 0x33, 0x34, 0x35, 0x36, 0x37, 0x38, 0x39]) == Reg(0x29B1)
  {
    hide Remainder, Feed;
    FirstDigits();
    MiddleDigits();
    LastDigits();
    var m: seq<bv8> := [0x31, 0x32, 0x33, 0x34, 0x35, 0x36, 0x37, 0x38, 0x39];
    AtStart(m);
    StepAt(m, 0, Reg(0xFFFF), Reg(0xC782));
    StepAt(m, 1, Reg(0xC782), Reg(0x3DBA));
    StepAt(m, 2, Reg(0x3DBA), Reg(0x5BCE));
    StepAt(m, 3, Reg(0x5BCE), Reg(0x5349));
    StepAt(m, 4, Reg(0x5349), Reg(0x4560));
    StepAt(m, 5, Reg(0x4560), Reg(0x2EF4));
    StepAt(m, 6, Reg(0x2EF4), Reg(0x7718));
    StepAt(m, 7, Reg(0x7718), Reg(0xA12B));
    StepAt(m, 8, Reg(0xA12B), Reg(0x29B1));
    assert m[..9] == m;
  }
}
