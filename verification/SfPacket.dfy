/** Counting in a byte. */
module OneByte {
  lemma NextByte(b: bv8)
    requires b != 255
    ensures (b + 1) as int == b as int + 1
  {
  }
}

/** SFPacket: typed values written into a packet, encoded, decoded and read back. */
module SfPacket {
  import opened Sequences
  import OneByte
  import opened EncryptionXor
  import opened PacketValues
  import Stream = PacketStream

  const MAX_PACKET_SIZE := 8192
  const MAX_DATA_SIZE := MAX_PACKET_SIZE - Stream.HEADER_SIZE
  const PACKET_COMPRESS_LIMIT := 1024

  const PACKET_OPTION_DATACRC: bv32 := 1
  const PACKET_OPTION_COMPRESS: bv32 := 2
  const PACKET_OPTION_ENCRYPTION: bv32 := 4

  // ---------- options ----------

  predicate WantsCrc(option: bv32) {
    option & PACKET_OPTION_DATACRC != 0
  }

  predicate WantsCompression(option: bv32) {
    option & PACKET_OPTION_COMPRESS != 0
  }

  predicate WantsEncryption(option: bv32) {
    option & PACKET_OPTION_ENCRYPTION != 0
  }

  function WithoutCompression(option: bv32): bv32 {
    option & !PACKET_OPTION_COMPRESS
  }

  /** The option bits, by number. */
  lemma OptionBits(option: bv32)
    ensures WantsCrc(option) <==> option & 1 != 0
    ensures WantsCompression(option) <==> option & 2 != 0
    ensures WantsEncryption(option) <==> option & 4 != 0
  {
    hide WantsCrc, WantsCompression, WantsEncryption;
    CrcBit(option);
    CompressionBit(option);
    EncryptionBit(option);
  }

  lemma CrcBit(option: bv32)
    ensures WantsCrc(option) <==> option & 1 != 0
  {
  }

  lemma CompressionBit(option: bv32)
    ensures WantsCompression(option) <==> option & 2 != 0
  {
  }

  lemma EncryptionBit(option: bv32)
    ensures WantsEncryption(option) <==> option & 4 != 0
  {
  }

  lemma WithoutBit(option: bv32)
    ensures WithoutCompression(option) == option & 0xFFFF_FFFD
  {
    assert !PACKET_OPTION_COMPRESS == 0xFFFF_FFFD;
  }

  lemma OptionsKept(option: bv32)
    ensures !WantsCompression(WithoutCompression(option))
  {
  }

  lemma CrcKept(option: bv32)
    ensures WantsCrc(WithoutCompression(option)) == WantsCrc(option)
  {
    assert (option & !2) & 1 == option & 1;
  }

  lemma EncryptionKept(option: bv32)
    ensures WantsEncryption(WithoutCompression(option)) == WantsEncryption(option)
  {
    assert (option & !2) & 4 == option & 4;
  }

  // ---------- the header on the wire ----------

  datatype Header = Header(packetID: bv16, packetOption: bv32, dataCRC: bv32, dataSize: nat)

  /** The byte that counts n. */
  function ByteOf(n: nat): (b: bv8)
    requires n < 256
    ensures b as int == n
  {
    if n == 0 then 0
    else
      var b := ByteOf(n - 1);
      OneByte.NextByte(b);
      b + 1
  }

  function SizeBytes(n: nat): seq<bv8>
    requires n < 65536
  {
    [ByteOf(n % 256), ByteOf(n / 256)]
  }

  /** The packed little-endian header. */
  function HeaderBytes(h: Header): (bytes: seq<bv8>)
    requires h.dataSize < 65536
    ensures |bytes| == Stream.HEADER_SIZE
  {
    Bytes16(h.packetID) + Bytes32(h.packetOption) + Bytes32(h.dataCRC) + SizeBytes(h.dataSize)
  }

  function ParseHeader(b: seq<bv8>): Header
    requires |b| == Stream.HEADER_SIZE
  {
    Header(Load16(b[0], b[1]), Load(b[2], b[3], b[4], b[5]), Load(b[6], b[7], b[8], b[9]), Stream.DataSizeOf(b))
  }

  lemma HeaderReadsBack(h: Header)
    requires h.dataSize < 65536
    ensures ParseHeader(HeaderBytes(h)) == h
  {
    hide Load, Load16, Byte0, Byte1, Byte2, Byte3, LowHalf, HighHalf, ByteOf;
    StoreThenLoad16(h.packetID);
    StoreThenLoad(h.packetOption);
    StoreThenLoad(h.dataCRC);
  }

  /** The layout of the twelve bytes: id, options, CRC and size, each little-endian. */
  lemma HeaderLayout(h: Header)
    requires h.dataSize < 65536
    ensures var b := HeaderBytes(h);
            && (b[0] as bv16) + (b[1] as bv16) * 0x100 == h.packetID
            && Sum(b[2], b[3], b[4], b[5]) == h.packetOption
            && Sum(b[6], b[7], b[8], b[9]) == h.dataCRC
            && b[10] as int + 256 * b[11] as int == h.dataSize
  {
    hide Load, Load16, Byte0, Byte1, Byte2, Byte3, LowHalf, HighHalf, Sum, ByteOf;
    StoreThenLoad16(h.packetID);
    Load16IsLittleEndian(LowHalf(h.packetID), HighHalf(h.packetID));
    StoreThenLoad(h.packetOption);
    LoadIsSum(Byte0(h.packetOption), Byte1(h.packetOption), Byte2(h.packetOption), Byte3(h.packetOption));
    StoreThenLoad(h.dataCRC);
    LoadIsSum(Byte0(h.dataCRC), Byte1(h.dataCRC), Byte2(h.dataCRC), Byte3(h.dataCRC));
  }

  // ---------- what encoding does to the data ----------

  function Protected(option: bv32, d: seq<bv8>): (r: seq<bv8>)
    ensures |r| == |d|
  {
    if WantsEncryption(option) then Crypt(d) else d
  }

  lemma ProtectedAlike(option: bv32, option': bv32, d: seq<bv8>)
    requires WantsEncryption(option) == WantsEncryption(option')
    ensures Protected(option, d) == Protected(option', d)
  {
  }

  lemma ProtectedTwice(option: bv32, d: seq<bv8>)
    ensures Protected(option, Protected(option, d)) == d
  {
    CryptTwice(d);
  }

  /** With option 4 every whole word of the data meets the key and the bytes behind them stay;
      without it all stay. */
  lemma ProtectedLaws(option: bv32, d: seq<bv8>)
    ensures option & 4 != 0 ==> Keyed(d, Protected(option, d), 0xAFB7E3D9)
    ensures option & 4 == 0 ==> Protected(option, d) == d
  {
    hide Crypt, WordAt, WantsEncryption;
    EncryptionBit(option);
    CryptLaws(d);
  }

  ghost predicate ZeroFrom(s: seq<bv8>, from: int) {
    forall i :: 0 <= from <= i < |s| ==> s[i] == 0
  }

  class SFPacket {
    var packetID: bv16
    var packetOption: bv32
    var dataCRC: bv32
    var dataSize: nat
    const data: array<bv8>
    var readPosition: nat
    var encoded: bool

    /** Memory behind the data is always zero. */
    ghost predicate Valid()
      reads this, data
    {
      data.Length == MAX_DATA_SIZE && dataSize <= MAX_DATA_SIZE && ZeroFrom(data[..], dataSize)
      && Stream.HEADER_SIZE <= readPosition <= MAX_PACKET_SIZE
    }

    /** The bytes written so far. */
    ghost function Contents(): seq<bv8>
      requires Valid()
      reads this, data
    {
      data[..dataSize]
    }

    ghost function WireHeader(): Header
      reads this
    {
      Header(packetID, packetOption, dataCRC, dataSize)
    }

    /** The packet as the stream carries it. */
    ghost function OnWire(): Stream.Packet
      requires Valid()
      reads this, data
    {
      Stream.Packet(HeaderBytes(WireHeader()), Contents())
    }

    constructor (id: bv16)
      ensures Valid() && fresh(data) && Contents() == [] && !encoded
      ensures WireHeader() == Header(id, 0, 0, 0) && readPosition == Stream.HEADER_SIZE
    {
      packetID, packetOption, dataCRC, dataSize := id, 0, 0, 0;
      data := new bv8[MAX_DATA_SIZE](_ => 0);
      readPosition, encoded := Stream.HEADER_SIZE, false;
    }

    /** Write: all of the bytes, or none when the packet would grow past its maximum. */
    method Write(bytes: seq<bv8>)
      requires Valid()
      modifies this`dataSize, data
      ensures Valid()
      ensures Contents() ==
              if old(dataSize) + |bytes| <= MAX_DATA_SIZE then old(Contents()) + bytes else old(Contents())
    {
      if Stream.HEADER_SIZE + dataSize + |bytes| > MAX_PACKET_SIZE {
        return;
      }
      ghost var before := data[..];
      forall i | 0 <= i < |bytes| {
        data[dataSize + i] := bytes[i];
      }
      assert data[..dataSize] == before[..dataSize];
      assert data[..dataSize + |bytes|] == before[..dataSize] + bytes;
      dataSize := dataSize + |bytes|;
    }

    /** The `<<` operators. A string is stored with its NUL; an empty one is dropped, like
        anything that does not fit. */
    method Put(v: Value)
      requires Valid() && IsCString(v)
      modifies this`dataSize, data
      ensures Valid()
      ensures Contents() ==
              if old(dataSize) + |BytesOf(v)| <= MAX_DATA_SIZE then old(Contents()) + Written(v) else old(Contents())
    {
      hide Bytes16, Bytes32, ZeroFrom;
      if v.VStr? {
        PutString(v.text);
      } else {
        Write(BytesOf(v));
      }
    }

    /** The string overload: strlen, the test, the text and a NUL. */
    method PutString(text: seq<bv8>)
      requires Valid() && NulFree(text)
      modifies this`dataSize, data
      ensures Valid()
      ensures Contents() ==
              if text != [] && old(dataSize) + |text| + 1 <= MAX_DATA_SIZE then old(Contents()) + (text + [0])
              else old(Contents())
    {
      hide StrLen, ZeroFrom;
      ghost var before := Contents();
      var len := StrLen(text + [0], 0);
      StringEndsThere(text, text + [0], 0);
      if len == 0 || Stream.HEADER_SIZE + dataSize + len + 1 > MAX_PACKET_SIZE {
        return;
      }
      assert text[..len] == text;
      Write(text[..len]);
      Write([0]);
      Assoc(before, text, [0]);
    }

    /** A list of values, one `<<` after the other; all of them fit. */
    method PutAll(vs: seq<Value>)
      requires Valid() && AllCStrings(vs) && dataSize + |BytesOfAll(vs)| <= MAX_DATA_SIZE
      modifies this`dataSize, data
      ensures Valid() && Contents() == old(Contents()) + WrittenAll(vs)
    {
      hide BytesOf, IsCString, Written, WrittenAll, BytesOfAll, ZeroFrom;
      for k := 0 to |vs|
        invariant Valid() && Contents() + WrittenAll(vs[k..]) == old(Contents()) + WrittenAll(vs)
        invariant dataSize + |BytesOfAll(vs[k..])| <= MAX_DATA_SIZE
      {
        assert vs[k..][1..] == vs[k + 1..];
        WrittenStep(Contents(), vs[k..]);
        Put(vs[k]);
      }
      NothingWritten(Contents());
      assert vs[|vs|..] == [];
    }

    /** One `>>` operator: the bytes at the read position, put together; nothing is read and nothing
        moves when that would pass the end. */
    method Get(k: Kind) returns (v: Option<Value>)
      requires Valid()
      requires k == KStr ==> exists i :: readPosition - Stream.HEADER_SIZE <= i < data.Length && data[i] == 0
      modifies this`readPosition
      ensures Valid()
      ensures match ReadAt(k, data[..], old(readPosition) - Stream.HEADER_SIZE)
              case None => v == None && readPosition == old(readPosition)
              case Some((x, next)) => v == Some(x) && readPosition == Stream.HEADER_SIZE + next
    {
      hide Load, Load16, StrLen, ZeroFrom;
      if k == KStr {
        v := GetString();
        return;
      }
      v := None;
      var size := SizeOf(k);
      if readPosition + size > MAX_PACKET_SIZE {
        return;
      }
      var at := readPosition - Stream.HEADER_SIZE;
      match k {
        case KByte => v := Some(VByte(data[at]));
        case KChar => v := Some(VChar(data[at]));
        case KShort => v := Some(VShort(Load16(data[at], data[at + 1])));
        case KUShort => v := Some(VUShort(Load16(data[at], data[at + 1])));
        case KInt => v := Some(VInt(Load(data[at], data[at + 1], data[at + 2], data[at + 3])));
        case KDWord => v := Some(VDWord(Load(data[at], data[at + 1], data[at + 2], data[at + 3])));
        case KFloat => v := Some(VFloat(Load(data[at], data[at + 1], data[at + 2], data[at + 3])));
        case KBlock(n) => v := Some(VBlock(data[at..at + n]));
      }
      readPosition := readPosition + size;
    }

    /** The string overload: strlen, which demands a NUL somewhere ahead, the test, the copy and the
        step over the NUL. */
    method GetString() returns (v: Option<Value>)
      requires Valid()
      requires exists i :: readPosition - Stream.HEADER_SIZE <= i < data.Length && data[i] == 0
      modifies this`readPosition
      ensures Valid()
      ensures match ReadAt(KStr, data[..], old(readPosition) - Stream.HEADER_SIZE)
              case None => v == None && readPosition == old(readPosition)
              case Some((x, next)) => v == Some(x) && readPosition == Stream.HEADER_SIZE + next
    {
      hide ZeroFrom, ReadAt;
      var at := readPosition - Stream.HEADER_SIZE;
      var n := TextLength(at);
      ReadsText(data[..], at);
      v := None;
      if readPosition + n + 1 > MAX_PACKET_SIZE {
        return;
      }
      v := Some(VStr(data[at..at + n]));
      readPosition := readPosition + n + 1;
    }

    /** strlen from a position in the data. */
    method TextLength(at: nat) returns (n: nat)
      requires exists i :: at <= i < data.Length && data[i] == 0
      ensures at + n < data.Length && n == StrLen(data[..], at)
    {
      hide StrLen, NulFree;
      ghost var memory := data[..];
      ghost var nul :| at <= nul < data.Length && data[nul] == 0;
      n := 0;
      NoNulYet(memory, at);
      while data[at + n] != 0
        invariant at + n <= nul && NulFree(memory[at..at + n])
        decreases nul - at - n
      {
        NoNulHere(memory, at, n);
        n := n + 1;
      }
      StrLenIs(memory, at, n);
    }

    /** Encode: encryption, then the CRC of the encrypted bytes. Compression is asked of a
        compressor that always fails. An encoded or empty packet is left alone. */
    method Encode(option: bv32, crc: seq<bv8> -> bv32) returns (ok: bool)
      requires Valid()
      modifies this, data
      ensures Valid() && packetID == old(packetID) && dataSize == old(dataSize) && readPosition == old(readPosition)
      ensures old(encoded) || dataSize == 0 ==>
                ok && WireHeader() == old(WireHeader()) && Contents() == old(Contents()) && encoded == old(encoded)
      ensures !old(encoded) && dataSize > 0 ==>
                (ok <==> !(WantsCompression(option) && dataSize >= 1024))
      ensures !old(encoded) && dataSize > 0 && ok ==>
                && encoded && packetOption == WithoutCompression(option)
                && Contents() == Protected(option, old(Contents()))
                && (option & 4 != 0 ==> Keyed(old(Contents()), Contents(), 0xAFB7E3D9))
                && (option & 4 == 0 ==> Contents() == old(Contents()))
                && dataCRC == if WantsCrc(option) then crc(Contents()) else old(dataCRC)
      ensures !ok ==> WireHeader() == old(WireHeader()) && Contents() == old(Contents()) && !encoded
    {
      hide WantsCrc, WantsCompression, WantsEncryption, WithoutCompression, Protected, Keyed, ZeroFrom;
      if encoded || dataSize == 0 {
        return true;
      }
      if WantsCompression(option) && dataSize >= PACKET_COMPRESS_LIMIT {
        return false;
      }
      var plain := WithoutCompression(option);
      CrcKept(option);
      EncryptionKept(option);
      ProtectedLaws(option, Contents());
      ProtectedAlike(plain, option, Contents());
      Cipher(plain);
      if WantsCrc(plain) {
        dataCRC := crc(data[..dataSize]);
      }
      packetOption, encoded := plain, true;
      ok := true;
    }

    /** Encrypts or decrypts the data in place, when the options ask for it. */
    method Cipher(option: bv32)
      requires Valid()
      modifies data
      ensures Valid() && Contents() == Protected(option, old(Contents()))
    {
      hide WantsEncryption;
      if !WantsEncryption(option) {
        return;
      }
      ghost var before := data[..];
      Encrypt(data, dataSize);
      assert forall i :: dataSize <= i < data.Length ==> data[i] == data[dataSize..][i - dataSize]
                                                                 == before[dataSize..][i - dataSize];
    }

    /** The data buffer is zeroed. */
    method Clear()
      requires Valid()
      modifies data
      ensures Valid()
    {
      forall i | 0 <= i < data.Length {
        data[i] := 0;
      }
    }

    /** Decode: the CRC is checked first, then the data is decrypted. A packet marked as
        compressed cannot be read. */
    method Decode(crc: seq<bv8> -> bv32) returns (ok: bool, errorCode: Stream.ErrorCode)
      requires Valid()
      modifies data
      ensures Valid()
      ensures errorCode == if WantsCrc(packetOption) && crc(old(Contents())) != dataCRC then Stream.PACKETIO_ERROR_DATA_CRC
                           else if WantsCompression(packetOption) then Stream.PACKETIO_ERROR_DATA_COMPRESS
                           else Stream.PACKETIO_ERROR_NONE
      ensures ok <==> errorCode == Stream.PACKETIO_ERROR_NONE
      ensures ok ==> Contents() == Protected(packetOption, old(Contents()))
      ensures errorCode == Stream.PACKETIO_ERROR_DATA_CRC ==> Contents() == old(Contents())
    {
      hide WantsCrc, WantsCompression, WantsEncryption, Crypt, ZeroFrom;
      if WantsCrc(packetOption) {
        if crc(data[..dataSize]) != dataCRC {
          return false, Stream.PACKETIO_ERROR_DATA_CRC;
        }
      }
      Cipher(packetOption);
      if WantsCompression(packetOption) {
        Clear();
        return false, Stream.PACKETIO_ERROR_DATA_COMPRESS;
      }
      return true, Stream.PACKETIO_ERROR_NONE;
    }

    /** A packet from the pool receives the bytes GetPacket copies into it. */
    constructor Receive(p: Stream.Packet)
      requires |p.header| == Stream.HEADER_SIZE && |p.data| == Stream.DataSizeOf(p.header) <= MAX_DATA_SIZE
      ensures Valid() && fresh(data) && WireHeader() == ParseHeader(p.header) && Contents() == p.data
      ensures readPosition == Stream.HEADER_SIZE
    {
      var h := ParseHeader(p.header);
      packetID, packetOption, dataCRC, dataSize := h.packetID, h.packetOption, h.dataCRC, h.dataSize;
      data := new bv8[MAX_DATA_SIZE](_ => 0);
      readPosition, encoded := Stream.HEADER_SIZE, false;
      new;
      forall i | 0 <= i < |p.data| {
        data[i] := p.data[i];
      }
    }
  }

  lemma WrittenStep(c: seq<bv8>, vs: seq<Value>)
    requires vs != []
    ensures c + WrittenAll(vs) == c + Written(vs[0]) + WrittenAll(vs[1..])
    ensures |BytesOfAll(vs)| == |BytesOf(vs[0])| + |BytesOfAll(vs[1..])| && |Written(vs[0])| <= |BytesOf(vs[0])|
  {
    hide BytesOf;
  }

  lemma NothingWritten(c: seq<bv8>)
    ensures c + WrittenAll([]) == c
  {
  }

  lemma NoNulYet(memory: seq<bv8>, at: nat)
    requires at <= |memory|
    ensures NulFree(memory[at..at + 0])
  {
  }

  lemma NoNulHere(memory: seq<bv8>, at: nat, n: nat)
    requires at + n < |memory| && memory[at + n] != 0 && NulFree(memory[at..at + n])
    ensures NulFree(memory[at..at + n + 1])
  {
    assert memory[at..at + n + 1] == memory[at..at + n] + [memory[at + n]];
  }

  lemma ReadsText(data: seq<bv8>, at: nat)
    requires at <= |data|
    ensures var n := StrLen(data, at);
            ReadAt(KStr, data, at) ==
            if at + n + 1 > |data| then None else Some((VStr(data[at..at + n]), at + n + 1))
  {
    hide StrLen;
  }

  /** Values read back by their kinds, one `>>` after the other. */
  method GetAll(p: SFPacket, ks: seq<Kind>, ghost vs: seq<Value>) returns (read: seq<Value>)
    requires p.Valid() && p.readPosition == Stream.HEADER_SIZE && AllCStrings(vs)
    requires ks == KindsOf(vs) && LieAll(vs, p.data[..], 0)
    modifies p`readPosition
    ensures p.Valid() && read == vs
  {
    hide Lies, LieAll, KindsOf, IsCString, ReadAt, KindOf, ZeroFrom;
    read := [];
    for k := 0 to |ks|
      invariant p.Valid() && read == vs[..k] && ks[k..] == KindsOf(vs[k..])
      invariant LieAll(vs[k..], p.data[..], p.readPosition - Stream.HEADER_SIZE)
    {
      NextReads(vs[k..], ks[k..], p.data[..], p.readPosition - Stream.HEADER_SIZE);
      assert vs[k..][1..] == vs[k + 1..] && ks[k..][1..] == ks[k + 1..];
      var v := p.Get(ks[k]);
      read := read + [v.value];
    }
  }

  /** Where a list lies, its first value is read and the rest lies behind it. */
  lemma NextReads(vs: seq<Value>, ks: seq<Kind>, data: seq<bv8>, at: nat)
    requires vs != [] && ks == KindsOf(vs) && AllCStrings(vs) && at <= |data| && LieAll(vs, data, at)
    ensures ks[1..] == KindsOf(vs[1..])
    ensures ks[0] == KStr ==> exists i :: at <= i < |data| && data[i] == 0
    ensures var next := at + |BytesOf(vs[0])|;
            next <= |data| && ReadAt(ks[0], data, at) == Some((vs[0], next)) && LieAll(vs[1..], data, next)
  {
    hide BytesOf, IsCString, ReadAt, KindOf;
    LieAllSplits(vs, data, at);
    ReadsExactly(vs[0], data, at);
    NulAhead(vs[0], data, at);
  }

  lemma NulAhead(v: Value, data: seq<bv8>, at: nat)
    requires Lies(v, data, at)
    ensures KindOf(v) == KStr ==> exists i :: at <= i < |data| && data[i] == 0
  {
    hide Bytes16, Bytes32;
    if v.VStr? {
      var slice := data[at..at + |v.text| + 1];
      assert slice == v.text + [0] && slice[|v.text|] == data[at + |v.text|];
    }
  }
}
