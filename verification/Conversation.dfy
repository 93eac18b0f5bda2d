/** From one end to the other: values are packed and encoded, their packets travel as a stream
    of chunks, and the receiver takes them out, decodes them and reads the values back. */
module Conversation {
  import opened Sequences
  import opened EncryptionXor
  import opened PacketValues
  import opened SfPacket
  import opened IoBuffer
  import Stream = PacketStream

  /** The values of one packet, and the options it is sent with. */
  datatype Message = Message(id: bv16, option: bv32, values: seq<Value>)

  /** Its values fit one packet. */
  ghost predicate Fits(m: Message) {
    AllCStrings(m.values) && |BytesOfAll(m.values)| <= MAX_DATA_SIZE
  }

  /** What Encode accepts: compression is not asked for, or the data is below its limit. */
  ghost predicate Encodable(m: Message) {
    WantsCompression(m.option) ==> |WrittenAll(m.values)| < PACKET_COMPRESS_LIMIT
  }

  /** The packet a message travels in. */
  ghost function Encoded(m: Message, crc: seq<bv8> -> bv32): Stream.Packet
    requires Fits(m)
  {
    hide WrittenAll, BytesOfAll, HeaderBytes;
    WrittenIsShorter(m.values);
    var written := WrittenAll(m.values);
    if written == [] then Stream.Packet(HeaderBytes(Header(m.id, 0, 0, 0)), [])
    else
      var body := Protected(m.option, written);
      var sum := if WantsCrc(m.option) then crc(body) else 0;
      Stream.Packet(HeaderBytes(Header(m.id, WithoutCompression(m.option), sum, |body|)), body)
  }

  lemma EncodedIsWellFormed(m: Message, crc: seq<bv8> -> bv32)
    requires Fits(m)
    ensures Stream.WellFormed(Encoded(m, crc)) && |Encoded(m, crc).data| == |WrittenAll(m.values)| <= MAX_DATA_SIZE
  {
    hide HeaderBytes, WantsCrc, WithoutCompression, WantsEncryption;
    WrittenIsShorter(m.values);
    var written := WrittenAll(m.values);
    var body := Protected(m.option, written);
    var sum := if WantsCrc(m.option) then crc(body) else 0;
    HeaderReadsBack(Header(m.id, 0, 0, 0));
    HeaderReadsBack(Header(m.id, WithoutCompression(m.option), sum, |body|));
  }

  /** The sender. Encoding twice is encoding once. */
  method Pack(m: Message, crc: seq<bv8> -> bv32) returns (p: SFPacket, ok: bool)
    requires Fits(m)
    ensures p.Valid() && fresh(p) && fresh(p.data)
    ensures ok <==> Encodable(m)
    ensures ok ==> p.OnWire() == Encoded(m, crc)
  {
    hide HeaderBytes, WantsCrc, WantsCompression, WantsEncryption, WithoutCompression, Protected, WrittenAll, BytesOfAll;
    WrittenIsShorter(m.values);
    p := new SFPacket(m.id);
    p.PutAll(m.values);
    assert [] + WrittenAll(m.values) == WrittenAll(m.values);
    ok := p.Encode(m.option, crc);
    if ok {
      var again := p.Encode(m.option, crc);
    }
  }

  lemma NoOptions()
    ensures !WantsCrc(0) && !WantsCompression(0) && !WantsEncryption(0)
  {
  }

  /** The receiver of one packet. The list it was made of is read back if and only if nothing but
      zeros follows its first empty string. */
  method Unpack(packet: Stream.Packet, crc: seq<bv8> -> bv32, ghost m: Message) returns (p: SFPacket)
    requires Fits(m) && Encodable(m) && packet == Encoded(m, crc)
    ensures p.Valid() && fresh(p) && fresh(p.data) && p.readPosition == Stream.HEADER_SIZE
    ensures p.Contents() == WrittenAll(m.values)
    ensures LieAll(m.values, p.data[..], 0) <==> Recoverable(m.values)
    ensures ReadAll(KindsOf(m.values), p.data[..], 0) == Some(m.values) <==> Recoverable(m.values)
  {
    hide HeaderBytes, WantsCrc, WantsCompression, WantsEncryption, WithoutCompression, WrittenAll, BytesOfAll, LieAll,
      Recoverable, ReadAll, KindsOf, Crypt;
    EncodedIsWellFormed(m, crc);
    ghost var h := ParseHeader(packet.header);
    HeaderFields(m, crc);
    p := new SFPacket.Receive(packet);
    var ok, errorCode := p.Decode(crc);
    assert ok;
    assert Memory(p.data[..], m.values);
    FoundIffRecoverable(m.values, p.data[..]);
    WrittenReadsBackIff(m.values, p.data[..]);
  }

  method ReadOut(packet: Stream.Packet, ks: seq<Kind>, crc: seq<bv8> -> bv32, ghost m: Message)
    returns (list: seq<Value>)
    requires Fits(m) && Encodable(m) && packet == Encoded(m, crc)
    requires ks == KindsOf(m.values) && Recoverable(m.values)
    ensures list == m.values
  {
    hide Encoded, Encodable, Recoverable, LieAll, KindsOf, ReadAll, WrittenAll, BytesOfAll;
    var p := Unpack(packet, crc, m);
    list := GetAll(p, ks, m.values);
  }

  lemma HeaderFields(m: Message, crc: seq<bv8> -> bv32)
    requires Fits(m)
    ensures var h, body := ParseHeader(Encoded(m, crc).header), Encoded(m, crc).data;
            && (WantsCrc(h.packetOption) ==> h.dataCRC == crc(body))
            && !WantsCompression(h.packetOption)
            && h.dataSize == |body|
            && Protected(h.packetOption, body) == WrittenAll(m.values)
  {
    hide HeaderBytes, WantsCrc, WantsCompression, WithoutCompression, WantsEncryption, Crypt;
    WrittenIsShorter(m.values);
    NoOptions();
    OptionsKept(m.option);
    CrcKept(m.option);
    EncryptionKept(m.option);
    var written := WrittenAll(m.values);
    var body := Protected(m.option, written);
    ProtectedTwice(m.option, written);
    var sum := if WantsCrc(m.option) then crc(body) else 0;
    HeaderReadsBack(Header(m.id, 0, 0, 0));
    HeaderReadsBack(Header(m.id, WithoutCompression(m.option), sum, |body|));
  }

  // ---------- a whole conversation ----------

  ghost predicate AllFit(ms: seq<Message>) {
    forall m :: m in ms ==> Fits(m)
  }

  ghost function EncodedAll(ms: seq<Message>, crc: seq<bv8> -> bv32): (ps: seq<Stream.Packet>)
    requires AllFit(ms)
    ensures |ps| == |ms| && forall k :: 0 <= k < |ms| ==> Fits(ms[k]) && ps[k] == Encoded(ms[k], crc)
  {
    hide Fits, Encoded;
    seq(|ms|, k requires 0 <= k < |ms| => assert ms[k] in ms; Encoded(ms[k], crc))
  }

  /** Every packet is within the packet size of the connection. */
  ghost predicate AllWithin(ms: seq<Message>, packetSize: nat) {
    forall m :: m in ms ==> Stream.HEADER_SIZE + |WrittenAll(m.values)| <= packetSize
  }

  lemma AllWellFormed(ms: seq<Message>, crc: seq<bv8> -> bv32, packetSize: nat)
    requires AllFit(ms) && AllWithin(ms, packetSize) && packetSize >= Stream.HEADER_SIZE
    ensures Stream.AllWellFormed(EncodedAll(ms, crc))
    ensures Stream.AllFit(EncodedAll(ms, crc), packetSize - Stream.HEADER_SIZE)
  {
    hide Fits, Encoded, Stream.WellFormed, EncodedAll, WrittenAll;
    var ps := EncodedAll(ms, crc);
    forall p | p in ps
      ensures Stream.WellFormed(p) && |p.data| <= packetSize - Stream.HEADER_SIZE
    {
      var k :| 0 <= k < |ps| && ps[k] == p;
      EncodedIsWellFormed(ms[k], crc);
    }
  }

  /** Whatever the options, the CRC function, the packet size and the cuts in the stream, as long
      as every chunk finds room in the ring, every list of values arrives, in order and
      unchanged. */
  method Converse(ioSize: nat, packetSize: nat, chunks: seq<seq<bv8>>, kinds: seq<seq<Kind>>,
                  crc: seq<bv8> -> bv32, ghost ms: seq<Message>)
    returns (lists: seq<seq<Value>>)
    requires 0 < ioSize <= MAX_IO_SIZE && Stream.HEADER_SIZE <= packetSize <= 65535
    requires AllFit(ms) && AllWithin(ms, packetSize) && forall m :: m in ms ==> Encodable(m) && Recoverable(m.values)
    requires Join(chunks) == Stream.Wire(EncodedAll(ms, crc))
    requires Stream.Roomy(chunks, Stream.DataLimit(packetSize), ioSize)
    requires |kinds| == |ms| && forall k :: 0 <= k < |ms| ==> kinds[k] == KindsOf(ms[k].values)
    ensures |lists| == |ms| && forall k :: 0 <= k < |ms| ==> lists[k] == ms[k].values
  {
    hide Encoded, Recoverable, Encodable, EncodedAll, LieAll, Stream.Wire, Join, Stream.WellFormed, ReadAll,
      WrittenAll, KindsOf, RingView, BytesOfAll, Stream.Roomy;
    var io := new SFIOBuffer(0, 0);
    var ok := io.AllocIOBuf(ioSize);
    AllWellFormed(ms, crc, packetSize);
    var packets := Stream.ReceiveAll(io, chunks, packetSize, EncodedAll(ms, crc));
    lists := ReadOutAll(packets, kinds, crc, ms);
  }

  /** Chunks that leave room for one packet always find it: an 8192-byte ring and 4096-byte
      packets take any cuts into chunks of up to 4096 bytes. */
  lemma DefaultSizesAreRoomy(ms: seq<Message>, crc: seq<bv8> -> bv32, chunks: seq<seq<bv8>>)
    requires AllFit(ms) && AllWithin(ms, 4096) && Join(chunks) == Stream.Wire(EncodedAll(ms, crc))
    requires forall c :: c in chunks ==> |c| <= 4096
    ensures Stream.Roomy(chunks, Stream.DataLimit(4096), 8192)
  {
    hide EncodedAll, Stream.Wire, Join, Stream.Roomy, Fits, WrittenAll;
    AllWellFormed(ms, crc, 4096);
    Stream.ShortChunksAreRoomy(EncodedAll(ms, crc), chunks, 4096, 8192);
  }

  method ReadOutAll(packets: seq<Stream.Packet>, kinds: seq<seq<Kind>>, crc: seq<bv8> -> bv32, ghost ms: seq<Message>)
    returns (lists: seq<seq<Value>>)
    requires AllFit(ms) && forall m :: m in ms ==> Encodable(m) && Recoverable(m.values)
    requires packets == EncodedAll(ms, crc)
    requires |kinds| == |ms| && forall k :: 0 <= k < |ms| ==> kinds[k] == KindsOf(ms[k].values)
    ensures |lists| == |ms| && forall k :: 0 <= k < |ms| ==> lists[k] == ms[k].values
  {
    hide Fits, Encoded, Recoverable, Encodable, EncodedAll, KindsOf;
    lists := [];
    for k := 0 to |packets|
      invariant |lists| == k && forall j :: 0 <= j < k ==> lists[j] == ms[j].values
    {
      assert ms[k] in ms;
      var list := ReadOut(packets[k], kinds[k], crc, ms[k]);
      lists := lists + [list];
    }
  }
}
