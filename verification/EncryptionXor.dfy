/** SFEncryptionXOR: the buffer is XORed word by word, in place; up to three bytes at its end
    stay as they are. */
module EncryptionXor {
  const ENCRYPTION_KEY: bv32 := 0xAFB7E3D9

  // ---------- words in memory ----------

  /** A little-endian DWORD. */
  function Load(b0: bv8, b1: bv8, b2: bv8, b3: bv8): bv32 {
    (b0 as bv32) | ((b1 as bv32) << 8) | ((b2 as bv32) << 16) | ((b3 as bv32) << 24)
  }

  function Byte0(w: bv32): bv8 {
    (w & 0xFF) as bv8
  }

  function Byte1(w: bv32): bv8 {
    ((w >> 8) & 0xFF) as bv8
  }

  function Byte2(w: bv32): bv8 {
    ((w >> 16) & 0xFF) as bv8
  }

  function Byte3(w: bv32): bv8 {
    ((w >> 24) & 0xFF) as bv8
  }

  lemma StoreThenLoad(w: bv32)
    ensures Load(Byte0(w), Byte1(w), Byte2(w), Byte3(w)) == w
  {
  }

  /** Little-endian: the first byte is the lowest. */
  lemma LoadIsLittleEndian(b0: bv8, b1: bv8, b2: bv8, b3: bv8)
    ensures Load(b0, b1, b2, b3) ==
            (b0 as bv32) + (b1 as bv32) * 0x100 + (b2 as bv32) * 0x1_0000 + (b3 as bv32) * 0x100_0000
  {
  }

  /** The word number j of a buffer. */
  function WordAt(s: seq<bv8>, j: nat): bv32
    requires 4 * j + 4 <= |s|
  {
    Load(s[4 * j], s[4 * j + 1], s[4 * j + 2], s[4 * j + 3])
  }

  function WithKey(w: bv32): bv32 {
    w ^ ENCRYPTION_KEY
  }

  // ---------- what the loop does to each byte ----------

  /** The byte of the key that meets byte i of the buffer. */
  function KeyByte(i: nat): bv8 {
    if i % 4 == 0 then 0xD9 else if i % 4 == 1 then 0xE3 else if i % 4 == 2 then 0xB7 else 0xAF
  }

  function XorKey(b: bv8, i: nat): bv8 {
    b ^ KeyByte(i)
  }

  /** Whole words are XORed with the key, the tail is left alone. */
  function Crypt(s: seq<bv8>): (r: seq<bv8>)
    ensures |r| == |s|
  {
    seq(|s|, i requires 0 <= i < |s| => if i < |s| - |s| % 4 then XorKey(s[i], i) else s[i])
  }

  lemma XorKeyTwice(b: bv8, i: nat)
    ensures XorKey(XorKey(b, i), i) == b
  {
    XorTwice(b, KeyByte(i));
  }

  lemma XorTwice(b: bv8, k: bv8)
    ensures (b ^ k) ^ k == b
  {
  }

  /** Decryption is encryption once more. */
  lemma CryptTwice(s: seq<bv8>)
    ensures Crypt(Crypt(s)) == s
  {
    hide XorKey;
    forall i | 0 <= i < |s|
      ensures Crypt(Crypt(s))[i] == s[i]
    {
      XorKeyTwice(s[i], i);
    }
  }

  lemma LoadOfXor(b0: bv8, b1: bv8, b2: bv8, b3: bv8)
    ensures Load(b0 ^ 0xD9, b1 ^ 0xE3, b2 ^ 0xB7, b3 ^ 0xAF) == Load(b0, b1, b2, b3) ^ 0xAFB7E3D9
  {
  }

  lemma LoadWithKey(b0: bv8, b1: bv8, b2: bv8, b3: bv8, i: nat)
    requires i % 4 == 0
    ensures Load(XorKey(b0, i), XorKey(b1, i + 1), XorKey(b2, i + 2), XorKey(b3, i + 3)) == WithKey(Load(b0, b1, b2, b3))
  {
    hide Load;
    LoadOfXor(b0, b1, b2, b3);
  }

  lemma CryptAt(s: seq<bv8>, i: nat)
    requires i % 4 == 0 && i + 4 <= |s|
    ensures Crypt(s)[i] == XorKey(s[i], i) && Crypt(s)[i + 1] == XorKey(s[i + 1], i + 1)
    ensures Crypt(s)[i + 2] == XorKey(s[i + 2], i + 2) && Crypt(s)[i + 3] == XorKey(s[i + 3], i + 3)
  {
    hide XorKey;
  }

  lemma CryptWithKey(s: seq<bv8>, j: nat)
    requires 4 * j + 4 <= |s|
    ensures WordAt(Crypt(s), j) == WithKey(WordAt(s, j))
  {
    hide Load, XorKey, Crypt, WithKey;
    var i := 4 * j;
    CryptAt(s, i);
    LoadWithKey(s[i], s[i + 1], s[i + 2], s[i + 3], i);
  }

  /** What encryption does: each whole word is XORed with the key, and the bytes behind the last
      whole word stay. */
  lemma CryptLaws(s: seq<bv8>)
    ensures forall j :: 0 <= j < |s| / 4 ==> WordAt(Crypt(s), j) == WordAt(s, j) ^ 0xAFB7E3D9
    ensures Crypt(s)[|s| - |s| % 4..] == s[|s| - |s| % 4..]
  {
    hide Crypt, WordAt;
    CryptKeepsTail(s);
    forall j | 0 <= j < |s| / 4
      ensures WordAt(Crypt(s), j) == WordAt(s, j) ^ 0xAFB7E3D9
    {
      CryptWithKey(s, j);
    }
  }

  /** Every whole word has met a key, the bytes behind the last one are as before. */
  ghost predicate Keyed(before: seq<bv8>, after: seq<bv8>, key: bv32) {
    && |after| == |before|
    && (forall j :: 0 <= j < |before| / 4 ==> WordAt(after, j) == WordAt(before, j) ^ key)
    && after[|before| - |before| % 4..] == before[|before| - |before| % 4..]
  }

  lemma CryptKeepsTail(s: seq<bv8>)
    ensures Crypt(s)[|s| - |s| % 4..] == s[|s| - |s| % 4..]
  {
    hide XorKey;
  }

  lemma WordXor0(b0: bv8, b1: bv8, b2: bv8, b3: bv8)
    ensures Byte0(Load(b0, b1, b2, b3) ^ 0xAFB7E3D9) == b0 ^ 0xD9
  {
  }

  lemma WordXor1(b0: bv8, b1: bv8, b2: bv8, b3: bv8)
    ensures Byte1(Load(b0, b1, b2, b3) ^ 0xAFB7E3D9) == b1 ^ 0xE3
  {
  }

  lemma WordXor2(b0: bv8, b1: bv8, b2: bv8, b3: bv8)
    ensures Byte2(Load(b0, b1, b2, b3) ^ 0xAFB7E3D9) == b2 ^ 0xB7
  {
  }

  lemma WordXor3(b0: bv8, b1: bv8, b2: bv8, b3: bv8)
    ensures Byte3(Load(b0, b1, b2, b3) ^ 0xAFB7E3D9) == b3 ^ 0xAF
  {
  }

  /** One word XORed with the key is four bytes XORed with the key's bytes. */
  lemma WordIsBytes(b0: bv8, b1: bv8, b2: bv8, b3: bv8, i: nat)
    requires i % 4 == 0
    ensures var w := WithKey(Load(b0, b1, b2, b3));
            Byte0(w) == XorKey(b0, i) && Byte1(w) == XorKey(b1, i + 1)
            && Byte2(w) == XorKey(b2, i + 2) && Byte3(w) == XorKey(b3, i + 3)
  {
    hide Load, Byte0, Byte1, Byte2, Byte3;
    WordXor0(b0, b1, b2, b3);
    WordXor1(b0, b1, b2, b3);
    WordXor2(b0, b1, b2, b3);
    WordXor3(b0, b1, b2, b3);
  }

  /** The loop over whole words that Encrypt and Decrypt share. */
  method XorWords(src: array<bv8>, length: nat)
    requires length <= src.Length
    modifies src
    ensures src[..length] == Crypt(old(src[..length])) && src[length..] == old(src[length..])
  {
    hide XorKey, Load, Byte0, Byte1, Byte2, Byte3, WithKey;
    var words := length - length % 4;
    var i := 0;
    while i < words
      invariant 0 <= i <= words && i % 4 == 0
      invariant forall k :: 0 <= k < i ==> src[k] == XorKey(old(src[k]), k)
      invariant forall k :: i <= k < src.Length ==> src[k] == old(src[k])
    {
      WordIsBytes(src[i], src[i + 1], src[i + 2], src[i + 3], i);
      var w := WithKey(Load(src[i], src[i + 1], src[i + 2], src[i + 3]));
      src[i], src[i + 1], src[i + 2], src[i + 3] := Byte0(w), Byte1(w), Byte2(w), Byte3(w);
      i := i + 4;
    }
  }

  /** Every whole word meets the key, the last bytes and all behind them stay. */
  method Encrypt(src: array<bv8>, length: nat)
    requires length <= src.Length
    modifies src
    ensures src[..length] == Crypt(old(src[..length])) && src[length..] == old(src[length..])
    ensures forall j :: 0 <= j < length / 4 ==> WordAt(src[..length], j) == old(WordAt(src[..length], j)) ^ 0xAFB7E3D9
    ensures src[..length][length - length % 4..] == old(src[..length][length - length % 4..])
  {
    hide Crypt, WordAt;
    ghost var before := src[..length];
    XorWords(src, length);
    CryptLaws(before);
  }

  method Decrypt(src: array<bv8>, length: nat)
    requires length <= src.Length
    modifies src
    ensures src[..length] == Crypt(old(src[..length])) && src[length..] == old(src[length..])
    ensures forall j :: 0 <= j < length / 4 ==> WordAt(src[..length], j) == old(WordAt(src[..length], j)) ^ 0xAFB7E3D9
    ensures src[..length][length - length % 4..] == old(src[..length][length - length % 4..])
  {
    hide Crypt, WordAt;
    ghost var before := src[..length];
    XorWords(src, length);
    CryptLaws(before);
  }
}
