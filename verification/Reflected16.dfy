/** The reflected 16-bit register of RFC 1662, appendix C.2, that ACE::crc_ccitt's table belongs to. */
module Reflected16 {
  import opened CrcFold

  datatype Reg = Reg(v: bv16)

  const ZERO := Reg(0)

  function Xor(a: Reg, b: Reg): Reg {
    Reg(a.v ^ b.v)
  }

  function Down(a: Reg): Reg {
    Reg(a.v >> 1)
  }

  function Down8(a: Reg): Reg {
    Reg(a.v >> 8)
  }

  function LowByte(a: Reg): bv8 {
    (a.v & 0xFF) as bv8
  }

  /** A byte in the low end. */
  function Low(b: bv8): Reg {
    Reg(b as bv16)
  }

  function AboveLow(a: Reg): Reg {
    Reg(a.v & 0xFF00)
  }

  predicate LowBit(r: Reg) {
    r.v & 1 != 0
  }

  /** One step of the reflected division: a bit that falls out brings the polynomial in. */
  function Step(r: Reg): Reg {
    if LowBit(r) then Xor(Down(r), Reg(0x8408)) else Down(r)
  }

  function Steps(r: Reg, n: nat): Reg
    decreases n
  {
    if n == 0 then r else Steps(Step(r), n - 1)
  }

  /** What one byte does to the register. */
  function Feed(r: Reg, b: bv8): Reg {
    Steps(Xor(r, Low(b)), 8)
  }

  /** An entry of the lookup table. */
  function Entry(b: bv8): Reg {
    Steps(Low(b), 8)
  }

  function Register(r: Reg, m: seq<bv8>): Reg {
    Fold(Feed, r, m)
  }

  // ---------- laws ----------

  lemma DownLinear(a: Reg, b: Reg)
    ensures Down(Xor(a, b)) == Xor(Down(a), Down(b))
  {
  }

  lemma LowBitLinear(a: Reg, b: Reg)
    ensures LowBit(Xor(a, b)) == (LowBit(a) != LowBit(b))
  {
  }

  lemma XorComm(a: Reg, b: Reg)
    ensures Xor(a, b) == Xor(b, a)
  {
  }

  lemma XorZero(a: Reg)
    ensures Xor(a, ZERO) == a
  {
  }

  lemma XorBoth(a: Reg, b: Reg, p: Reg)
    ensures Xor(Xor(a, p), Xor(b, p)) == Xor(a, b)
  {
  }

  lemma XorLeft(a: Reg, b: Reg, p: Reg)
    ensures Xor(Xor(a, p), b) == Xor(Xor(a, b), p)
  {
  }

  lemma XorRight(a: Reg, b: Reg, p: Reg)
    ensures Xor(a, Xor(b, p)) == Xor(Xor(a, b), p)
  {
  }

  lemma StepLinear(a: Reg, b: Reg)
    ensures Step(Xor(a, b)) == Xor(Step(a), Step(b))
  {
    hide Xor, Down, LowBit;
    DownLinear(a, b);
    LowBitLinear(a, b);
    XorBoth(Down(a), Down(b), Reg(0x8408));
    XorLeft(Down(a), Down(b), Reg(0x8408));
    XorRight(Down(a), Down(b), Reg(0x8408));
  }

  lemma {:induction false} StepsLinear(a: Reg, b: Reg, n: nat)
    ensures Steps(Xor(a, b), n) == Xor(Steps(a, n), Steps(b, n))
    decreases n
  {
    hide Step, Xor;
    if n > 0 {
      StepLinear(a, b);
      StepsLinear(Step(a), Step(b), n - 1);
    }
  }

  function Downs(r: Reg, n: nat): Reg
    decreases n
  {
    if n == 0 then r else Downs(Down(r), n - 1)
  }

  /** The n lowest bits are clear. */
  predicate Clear(r: Reg, n: nat)
    decreases n
  {
    n == 0 || (!LowBit(r) && Clear(Down(r), n - 1))
  }

  lemma {:induction false} ClearBitsMoveDown(r: Reg, n: nat)
    requires Clear(r, n)
    ensures Steps(r, n) == Downs(r, n)
    decreases n
  {
    hide LowBit, Down, Xor;
    if n > 0 {
      ClearBitsMoveDown(Down(r), n - 1);
    }
  }

  lemma EightDowns(r: Reg)
    ensures Down(Down(Down(Down(Down(Down(Down(Down(r)))))))) == Down8(r)
    ensures Down8(AboveLow(r)) == Down8(r)
  {
  }

  lemma AboveLowClear(r: Reg)
    ensures var x := AboveLow(r); var x4 := Down(Down(Down(Down(x))));
            && !LowBit(x) && !LowBit(Down(x)) && !LowBit(Down(Down(x))) && !LowBit(Down(Down(Down(x))))
            && !LowBit(x4) && !LowBit(Down(x4)) && !LowBit(Down(Down(x4))) && !LowBit(Down(Down(Down(x4))))
  {
  }

  lemma AboveLowMovesDown(r: Reg)
    ensures Steps(AboveLow(r), 8) == Down8(r)
  {
    hide Steps, AboveLow, Down, Down8, LowBit;
    var x := AboveLow(r);
    var x4 := Down(Down(Down(Down(x))));
    AboveLowClear(r);
    EightDowns(r);
    EightDowns(x);
    assert Clear(Down(Down(x4)), 2) && Clear(x4, 4) && Clear(Down(Down(x)), 6) && Clear(x, 8);
    assert Downs(Down(Down(x4)), 2) == Down8(x) && Downs(x4, 4) == Down8(x);
    assert Downs(Down(Down(x)), 6) == Down8(x) && Downs(x, 8) == Down8(x);
    ClearBitsMoveDown(x, 8);
  }

  lemma SplitLow(r: Reg, b: bv8)
    ensures Xor(r, Low(b)) == Xor(Low(b ^ LowByte(r)), AboveLow(r))
  {
  }

  /** Eight bit steps are one table entry, for the low byte, and a shift, for the high one. */
  lemma FeedIsLookup(r: Reg, b: bv8)
    ensures Feed(r, b) == Xor(Entry(b ^ LowByte(r)), Down8(r))
  {
    hide Step, Steps, Xor, Low, LowByte, AboveLow, Down8;
    SplitLow(r, b);
    StepsLinear(Low(b ^ LowByte(r)), AboveLow(r), 8);
    AboveLowMovesDown(r);
  }

  // ---------- the residue and the check value ----------

  lemma RegisterStep(r: Reg, m: seq<bv8>, r': Reg)
    requires m != [] && Feed(r, m[0]) == r'
    ensures Register(r, m) == Register(r', m[1..])
  {
    hide Feed;
  }

  lemma NothingFed(r: Reg, m: seq<bv8>)
    requires m == []
    ensures Register(r, m) == r
  {
  }

  lemma StepAt(m: seq<bv8>, i: nat, r: Reg, r': Reg)
    requires i < |m| && Feed(r, m[i]) == r'
    ensures Register(r, m[i..]) == Register(r', m[i + 1..])
  {
    hide Feed, Register;
    RegisterStep(r, m[i..], r');
    assert m[i..][1..] == m[i + 1..];
  }

  lemma ComplementedByte0(r: Reg)
    ensures LowByte(Reg(r.v ^ 0xFFFF)) ^ LowByte(r) == 0xFF
  {
  }

  lemma ComplementedByte1(r: Reg)
    ensures LowByte(Down8(Reg(r.v ^ 0xFFFF))) ^ LowByte(Down8(r)) == 0xFF
  {
  }

  lemma TwoBytesEmpty(r: Reg)
    ensures Down8(Down8(r)) == ZERO
  {
  }

  /** The two bytes of a word, the lower first. */
  function WireBytes(w: bv16): (bytes: seq<bv8>)
    ensures |bytes| == 2
  {
    [LowByte(Reg(w)), LowByte(Down8(Reg(w)))]
  }

  lemma LowOfXorDown(a: Reg, r: Reg, c: bv8)
    ensures c ^ LowByte(Xor(a, r)) == (c ^ LowByte(r)) ^ LowByte(a)
  {
  }

  lemma Down8Linear(a: Reg, r: Reg)
    ensures Down8(Xor(a, r)) == Xor(Down8(a), Down8(r))
  {
  }

  lemma AllOnes()
    ensures Entry(0xFF) == Reg(0x0F78) && Feed(Reg(0x0F78), 0xFF) == Reg(0xF0B8)
  {
  }

  /** Fed the complement of its own bytes, any register ends in the same value. */
  lemma OwnComplement(r: Reg)
    ensures Register(r, WireBytes(r.v ^ 0xFFFF)) == Reg(0xF0B8)
  {
    hide Feed, Entry, Xor, Down8, LowByte, Register;
    var m := WireBytes(r.v ^ 0xFFFF);
    ComplementedByte0(r);
    ComplementedByte1(r);
    TwoBytesEmpty(r);
    FeedIsLookup(r, m[0]);
    AllOnes();
    var r1 := Feed(r, m[0]);
    assert r1 == Xor(Reg(0x0F78), Down8(r));
    LowOfXorDown(Reg(0x0F78), Down8(r), m[1]);
    Down8Linear(Reg(0x0F78), Down8(r));
    FeedIsLookup(r1, m[1]);
    FeedIsLookup(Reg(0x0F78), 0xFF);
    XorZero(Down8(Reg(0x0F78)));
    RegisterStep(r, m, r1);
    RegisterStep(r1, m[1..], Feed(r1, m[1]));
    NothingFed(Feed(r1, m[1]), m[1..][1..]);
  }

  /** The residue of RFC 1662, appendix C.2: whatever the message, the register after it and its own
      CRC, lower byte first, is 0xF0B8. */
  lemma Residue(m: seq<bv8>)
    ensures var crc := Register(Reg(0xFFFF), m).v ^ 0xFFFF;
            Register(Reg(0xFFFF), m + WireBytes(crc)) == Reg(0xF0B8)
  {
    hide Feed;
    var r := Register(Reg(0xFFFF), m);
    FoldSplit(Feed, Reg(0xFFFF), m, WireBytes(r.v ^ 0xFFFF));
    OwnComplement(r);
  }

  lemma FirstDigits()
    ensures Feed(Reg(0xFFFF), 0x31) == Reg(0x2F8D)
    ensures Feed(Reg(0x2F8D), 0x32) == Reg(0x4D53)
    ensures Feed(Reg(0x4D53), 0x33) == Reg(0x634B)
  {
  }

  lemma MiddleDigits()
    ensures Feed(Reg(0x634B), 0x34) == Reg(0x8B13)
    ensures Feed(Reg(0x8B13), 0x35) == Reg(0x44BF)
    ensures Feed(Reg(0x44BF), 0x36) == Reg(0x198D)
  {
  }

  lemma LastDigits()
    ensures Feed(Reg(0x198D), 0x37) == Reg(0x1AC8)
    ensures Feed(Reg(0x1AC8), 0x38) == Reg(0xF795)
    ensures Feed(Reg(0xF795), 0x39) == Reg(0x6F91)
  {
  }

  /** The check value: the CRC of the digits 1 to 9 is 0x906E. */
  lemma CheckValue()
    ensures Register(Reg(0xFFFF), [0x31, 0x32, 0x33, 0x34, 0x35, 0x36, 0x37, 0x38, 0x39]) == Reg(0x906E ^ 0xFFFF)
  {
    hide Feed, Register;
    FirstDigits();
    MiddleDigits();
    LastDigits();
    var m: seq<bv8> := [0x31, 0x32, 0x33, 0x34, 0x35, 0x36, 0x37, 0x38, 0x39];
    assert m[0..] == m;
    StepAt(m, 0, Reg(0xFFFF), Reg(0x2F8D));
    StepAt(m, 1, Reg(0x2F8D), Reg(0x4D53));
    StepAt(m, 2, Reg(0x4D53), Reg(0x634B));
    StepAt(m, 3, Reg(0x634B), Reg(0x8B13));
    StepAt(m, 4, Reg(0x8B13), Reg(0x44BF));
    StepAt(m, 5, Reg(0x44BF), Reg(0x198D));
    StepAt(m, 6, Reg(0x198D), Reg(0x1AC8));
    StepAt(m, 7, Reg(0x1AC8), Reg(0xF795));
    StepAt(m, 8, Reg(0xF795), Reg(0x6F91));
    NothingFed(Reg(0x6F91), m[9..]);
  }
}
