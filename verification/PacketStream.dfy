/** SFPacketIOBuffer and the receive loop above it: packets are framed out of a byte queue that
    fills in arbitrary chunks. */
module PacketStream {
  import opened IoBuffer
  import opened Sequences

  const HEADER_SIZE := 12

  datatype ErrorCode = PACKETIO_ERROR_NONE | PACKETIO_ERROR_DATA | PACKETIO_ERROR_DATA_CRC | PACKETIO_ERROR_DATA_COMPRESS

  /** dataSize, the last field of the packed little-endian header. */
  function DataSizeOf(header: seq<bv8>): nat
    requires |header| == HEADER_SIZE
  {
    header[10] as int + 256 * header[11] as int
  }

  /** What a packet leaves for data once the header is taken off, in the unsigned arithmetic of
      size_t. */
  function DataLimit(packetSize: nat): nat {
    (packetSize - HEADER_SIZE) % 0x1_0000_0000_0000_0000
  }

  // ---------- what one GetPacket does to the queue ----------

  datatype Packet = Packet(header: seq<bv8>, data: seq<bv8>)

  datatype Fetch = Incomplete | TooLarge | Fetched(p: Packet, rest: seq<bv8>)

  ghost function NextPacket(s: seq<bv8>, limit: nat): (r: Fetch)
    ensures r.Fetched? ==> |r.rest| < |s|
  {
    if |s| < HEADER_SIZE then Incomplete
    else
      var n := DataSizeOf(s[..HEADER_SIZE]);
      if n > limit then TooLarge
      else if |s| < HEADER_SIZE + n then Incomplete
      else Fetched(Packet(s[..HEADER_SIZE], s[HEADER_SIZE..HEADER_SIZE + n]), s[HEADER_SIZE + n..])
  }

  /** The packet's data must fit whatever the size test lets through. */
  method GetPacket(io: SFIOBuffer, header: array<bv8>, buffer: array<bv8>, packetSize: nat)
    returns (ok: bool, errorCode: ErrorCode)
    requires io.Valid() && header != io.pBuffer && buffer != io.pBuffer && header != buffer
    requires header.Length == HEADER_SIZE
    requires buffer.Length >= 65535 || buffer.Length >= DataLimit(packetSize)
    modifies io, header, buffer
    ensures io.Valid() && io.pBuffer == old(io.pBuffer) && io.iBufSize == old(io.iBufSize)
    ensures match NextPacket(old(io.Contents()), DataLimit(packetSize))
            case Incomplete => !ok && errorCode == PACKETIO_ERROR_NONE && io.Contents() == old(io.Contents())
            case TooLarge => !ok && errorCode == PACKETIO_ERROR_DATA && io.Contents() == old(io.Contents())
            case Fetched(p, rest) =>
              ok && errorCode == PACKETIO_ERROR_NONE && io.Contents() == rest
              && header[..] == p.header && |p.data| <= buffer.Length && buffer[..|p.data|] == p.data
              && |p.data| == DataSizeOf(header[..])
  {
    hide RingView, NextPacket, DataSizeOf;
    errorCode := PACKETIO_ERROR_NONE;
    var oldHead := io.iHead;
    ghost var s, limit := io.Contents(), DataLimit(packetSize);
    NextPacketIs(s, limit);
    if io.iUsedBufferSize < HEADER_SIZE {
      return false, errorCode;
    }
    var got := io.GetData(header, HEADER_SIZE);
    // The test for a short header cannot fail here: the used count was checked above.
    assert got == HEADER_SIZE && header[..] == header[..got] == s[..HEADER_SIZE];
    var dataSize := DataSizeOf(header[..]);
    if dataSize > DataLimit(packetSize) {
      io.SetHead(oldHead);
      return false, PACKETIO_ERROR_DATA;
    }
    if io.iUsedBufferSize < dataSize {
      io.SetHead(oldHead);
      return false, errorCode;
    }
    SliceBehind(s, HEADER_SIZE, dataSize);
    SizeIsShort(header[..]);
    var n := io.GetData(buffer, dataSize);
    ok := true;
  }

  lemma NextPacketIs(s: seq<bv8>, limit: nat)
    ensures |s| < HEADER_SIZE ==> NextPacket(s, limit) == Incomplete
    ensures |s| >= HEADER_SIZE ==>
              var n := DataSizeOf(s[..HEADER_SIZE]);
              NextPacket(s, limit) ==
              if n > limit then TooLarge
              else if |s| < HEADER_SIZE + n then Incomplete
              else Fetched(Packet(s[..HEADER_SIZE], s[HEADER_SIZE..HEADER_SIZE + n]), s[HEADER_SIZE + n..])
  {
  }

  lemma SliceBehind(s: seq<bv8>, i: nat, n: nat)
    requires i + n <= |s|
    ensures s[i..][..n] == s[i..i + n] && s[i..][n..] == s[i + n..]
  {
  }

  lemma SizeIsShort(header: seq<bv8>)
    requires |header| == HEADER_SIZE
    ensures DataSizeOf(header) <= 65535
  {
  }

  /** Looks at the header of the next packet and leaves the queue as it was. */
  method GetHeader(io: SFIOBuffer, header: array<bv8>) returns (ok: bool)
    requires io.Valid() && header != io.pBuffer && header.Length == HEADER_SIZE
    modifies io, header
    ensures io.Valid() && io.Contents() == old(io.Contents())
    ensures ok <==> |io.Contents()| >= HEADER_SIZE
    ensures ok ==> header[..] == io.Contents()[..HEADER_SIZE]
  {
    var oldHead := io.iHead;
    if io.iUsedBufferSize < HEADER_SIZE {
      return false;
    }
    var got := io.GetData(header, HEADER_SIZE);
    assert header[..] == header[..got];
    io.SetHead(oldHead);
    ok := true;
  }

  // ---------- draining the queue ----------

  /** What repeated GetPacket calls take out, what stays, and whether an oversized packet stopped
      them. */
  datatype Drained = Drained(packets: seq<Packet>, rest: seq<bv8>, stuck: bool)

  ghost function Drain(s: seq<bv8>, limit: nat): Drained
    decreases |s|
  {
    match NextPacket(s, limit)
    case Incomplete => Drained([], s, false)
    case TooLarge => Drained([], s, true)
    case Fetched(p, rest) =>
      var d := Drain(rest, limit);
      Drained([p] + d.packets, d.rest, d.stuck)
  }

  /** More bytes at the end never change what was decided from the front. */
  lemma NextPacketExtends(s: seq<bv8>, more: seq<bv8>, limit: nat)
    ensures match NextPacket(s, limit)
            case Incomplete => true
            case TooLarge => NextPacket(s + more, limit) == TooLarge
            case Fetched(p, rest) => NextPacket(s + more, limit) == Fetched(p, rest + more)
  {
    hide DataSizeOf;
    if |s| >= HEADER_SIZE {
      MoreBehind(s, more, 0, HEADER_SIZE);
      var n := DataSizeOf(s[..HEADER_SIZE]);
      if n <= limit && |s| >= HEADER_SIZE + n {
        MoreBehind(s, more, HEADER_SIZE, HEADER_SIZE + n);
      }
    }
  }

  lemma MoreBehind(s: seq<bv8>, more: seq<bv8>, from: nat, to: nat)
    requires from <= to <= |s|
    ensures (s + more)[from..to] == s[from..to] && (s + more)[to..] == s[to..] + more
  {
  }

  /** Draining early and then draining what is left gives the same packets as draining once. */
  lemma {:induction false} DrainInTwo(s: seq<bv8>, more: seq<bv8>, limit: nat)
    ensures var first := Drain(s, limit);
            var second := Drain(first.rest + more, limit);
            Drain(s + more, limit) == Drained(first.packets + second.packets, second.rest, second.stuck)
    decreases |s|
  {
    NextPacketExtends(s, more, limit);
    match NextPacket(s, limit) {
      case Incomplete =>
        assert [] + Drain(s + more, limit).packets == Drain(s + more, limit).packets;
      case TooLarge =>
      case Fetched(p, rest) =>
        DrainInTwo(rest, more, limit);
        var first := Drain(rest, limit);
        var second := Drain(first.rest + more, limit);
        assert [p] + (first.packets + second.packets) == ([p] + first.packets) + second.packets;
    }
  }

  /** A drained queue that is not stuck holds less than one packet. */
  lemma {:induction false} LeftoverIsShort(s: seq<bv8>, packetSize: nat)
    requires HEADER_SIZE <= packetSize <= 65535
    requires !Drain(s, DataLimit(packetSize)).stuck
    ensures |Drain(s, DataLimit(packetSize)).rest| < packetSize
    decreases |s|
  {
    assert DataLimit(packetSize) == packetSize - HEADER_SIZE;
    match NextPacket(s, DataLimit(packetSize))
    case Incomplete =>
    case Fetched(p, rest) => LeftoverIsShort(rest, packetSize);
    case TooLarge =>
  }

  // ---------- packets as a stream ----------

  ghost predicate WellFormed(p: Packet) {
    |p.header| == HEADER_SIZE && DataSizeOf(p.header) == |p.data|
  }

  ghost predicate AllWellFormed(ps: seq<Packet>) {
    forall p :: p in ps ==> WellFormed(p)
  }

  ghost predicate AllFit(ps: seq<Packet>, limit: nat) {
    forall p :: p in ps ==> |p.data| <= limit
  }

  /** The bytes a sender puts on the wire for a list of packets. */
  ghost function Wire(ps: seq<Packet>): seq<bv8> {
    if ps == [] then [] else ps[0].header + ps[0].data + Wire(ps[1..])
  }

  /** Index of the first packet the receiver refuses, or the number of packets. */
  ghost function FirstOversized(ps: seq<Packet>, limit: nat): (k: nat)
    ensures k <= |ps| && AllFit(ps[..k], limit) && (k < |ps| ==> |ps[k].data| > limit)
  {
    if ps == [] || |ps[0].data| > limit then 0
    else
      var k := FirstOversized(ps[1..], limit);
      assert ps[..k + 1] == [ps[0]] + ps[1..][..k];
      k + 1
  }

  lemma {:induction false} AllFitMeansNoneOversized(ps: seq<Packet>, limit: nat)
    requires AllFit(ps, limit)
    ensures FirstOversized(ps, limit) == |ps|
  {
    if ps != [] {
      assert ps[0] in ps;
      AllFitMeansNoneOversized(ps[1..], limit);
    }
  }

  lemma PacketAtFront(p: Packet, rest: seq<bv8>, limit: nat)
    requires WellFormed(p)
    ensures NextPacket(p.header + p.data + rest, limit) == if |p.data| > limit then TooLarge else Fetched(p, rest)
  {
    var s, n := p.header + p.data + rest, HEADER_SIZE + |p.data|;
    assert s[..HEADER_SIZE] == p.header;
    assert s[HEADER_SIZE..n] == p.data;
    assert s[n..] == rest;
  }

  /** Draining the whole stream gives exactly the packets before the first oversized one; from
      there on nothing is ever delivered. */
  lemma {:induction false} DrainOfWire(ps: seq<Packet>, limit: nat)
    requires AllWellFormed(ps)
    ensures var k := FirstOversized(ps, limit);
            Drain(Wire(ps), limit) == Drained(ps[..k], Wire(ps[k..]), k < |ps|)
  {
    hide NextPacket;
    if ps == [] {
      NothingAtFront(limit);
    } else {
      PacketAtFront(ps[0], Wire(ps[1..]), limit);
      if |ps[0].data| > limit {
        assert ps[0..] == ps;
      } else {
        DrainOfWire(ps[1..], limit);
        var k := FirstOversized(ps[1..], limit);
        assert ps[..k + 1] == [ps[0]] + ps[1..][..k];
        assert ps[k + 1..] == ps[1..][k..];
      }
    }
  }

  lemma NothingAtFront(limit: nat)
    ensures NextPacket([], limit) == Incomplete
  {
  }

  // ---------- every interleaving of arrivals and polls ----------

  datatype Event = Arrive(chunk: seq<bv8>) | Poll

  /** The receiver between two events: the queue, and what GetPacket has delivered. */
  datatype Receiver = Receiver(queue: seq<bv8>, delivered: seq<Packet>)

  ghost function Handle(r: Receiver, e: Event, limit: nat): Receiver {
    match e
    case Arrive(chunk) => r.(queue := r.queue + chunk)
    case Poll =>
      match NextPacket(r.queue, limit)
      case Fetched(p, rest) => Receiver(rest, r.delivered + [p])
      case _ => r
  }

  ghost function Run(events: seq<Event>, limit: nat): Receiver {
    if events == [] then Receiver([], [])
    else Handle(Run(events[..|events| - 1], limit), events[|events| - 1], limit)
  }

  ghost function Arrived(events: seq<Event>): seq<bv8> {
    if events == [] then []
    else
      var e := events[|events| - 1];
      Arrived(events[..|events| - 1]) + if e.Arrive? then e.chunk else []
  }

  /** What was delivered and what the queue would still yield add up to what the bytes arrived
      so far yield at once. */
  ghost predicate Accounted(arrived: seq<bv8>, r: Receiver, limit: nat) {
    var d := Drain(r.queue, limit);
    Drain(arrived, limit) == Drained(r.delivered + d.packets, d.rest, d.stuck)
  }

  lemma ArrivalKeepsAccount(arrived: seq<bv8>, r: Receiver, chunk: seq<bv8>, limit: nat)
    requires Accounted(arrived, r, limit)
    ensures Accounted(arrived + chunk, Handle(r, Arrive(chunk), limit), limit)
  {
    hide Drain;
    DrainInTwo(arrived, chunk, limit);
    DrainInTwo(r.queue, chunk, limit);
    var d := Drain(r.queue, limit);
    var second := Drain(d.rest + chunk, limit);
    assert (r.delivered + d.packets) + second.packets == r.delivered + (d.packets + second.packets);
  }

  lemma PollKeepsAccount(arrived: seq<bv8>, r: Receiver, limit: nat)
    requires Accounted(arrived, r, limit)
    ensures Accounted(arrived, Handle(r, Poll, limit), limit)
  {
    match NextPacket(r.queue, limit) {
      case Fetched(p, rest) =>
        var later := Drain(rest, limit).packets;
        assert r.delivered + ([p] + later) == (r.delivered + [p]) + later;
      case _ =>
    }
  }

  /** At every moment of every run the account holds: chunking and polling do not matter. */
  lemma {:induction false} RunIsChunkingBlind(events: seq<Event>, limit: nat)
    ensures Accounted(Arrived(events), Run(events, limit), limit)
  {
    if events == [] {
      assert [] + Drain([], limit).packets == Drain([], limit).packets;
    } else {
      var front, e := events[..|events| - 1], events[|events| - 1];
      RunIsChunkingBlind(front, limit);
      match e {
        case Arrive(chunk) => ArrivalKeepsAccount(Arrived(front), Run(front, limit), chunk, limit);
        case Poll =>
          assert Arrived(events) == Arrived(front);
          PollKeepsAccount(Arrived(front), Run(front, limit), limit);
      }
    }
  }

  /** Stream reassembly: when the bytes that arrived are a prefix of what the packets put on the
      wire, the packets delivered are a prefix of the list, in order, none of them oversized. */
  lemma Reassembly(ps: seq<Packet>, events: seq<Event>, tail: seq<bv8>, limit: nat)
    requires AllWellFormed(ps) && Arrived(events) + tail == Wire(ps)
    ensures Run(events, limit).delivered <= ps[..FirstOversized(ps, limit)]
  {
    RunIsChunkingBlind(events, limit);
    DrainInTwo(Arrived(events), tail, limit);
    DrainOfWire(ps, limit);
  }

  /** Once everything has arrived and a poll finds nothing more, exactly the packets before the
      first oversized one have been delivered: all of them if and only if all of them fit. */
  lemma ReassemblyIsComplete(ps: seq<Packet>, events: seq<Event>, limit: nat)
    requires AllWellFormed(ps) && Arrived(events) == Wire(ps)
    requires !NextPacket(Run(events, limit).queue, limit).Fetched?
    ensures Run(events, limit).delivered == ps[..FirstOversized(ps, limit)]
    ensures Run(events, limit).delivered == ps <==> AllFit(ps, limit)
  {
    RunIsChunkingBlind(events, limit);
    DrainOfWire(ps, limit);
    var r := Run(events, limit);
    assert r.delivered + [] == r.delivered;
    var k := FirstOversized(ps, limit);
    if k < |ps| {
      assert ps[k] in ps;
    } else {
      assert ps[..k] == ps;
    }
  }

  // ---------- the same over the ring buffer ----------

  /** The events a ring of size bytes takes: an arrival that would fill it is refused whole. */
  ghost function Accepted(events: seq<Event>, limit: nat, size: nat): seq<Event> {
    if events == [] then []
    else
      var front, e := Accepted(events[..|events| - 1], limit, size), events[|events| - 1];
      if e.Arrive? && |Run(front, limit).queue| + |e.chunk| >= size then front else front + [e]
  }

  lemma AcceptedOneMore(events: seq<Event>, i: nat, limit: nat, size: nat)
    requires i < |events|
    ensures var before, after := Accepted(events[..i], limit, size), Accepted(events[..i + 1], limit, size);
            Run(after, limit) ==
            if events[i].Arrive? && |Run(before, limit).queue| + |events[i].chunk| >= size then Run(before, limit)
            else Handle(Run(before, limit), events[i], limit)
  {
    hide Handle;
    var front := Accepted(events[..i], limit, size);
    assert events[..i + 1][..i] == events[..i];
    assert (front + [events[i]])[..|front|] == front;
  }

  /** Any interleaving of appends and polls on a ring buffer is the run of the events it takes. */
  method Perform(io: SFIOBuffer, events: seq<Event>, packetSize: nat) returns (delivered: seq<Packet>)
    requires io.Valid() && io.Contents() == [] && packetSize <= 65535
    modifies io, io.pBuffer
    ensures io.Valid() && io.pBuffer == old(io.pBuffer) && io.iBufSize == old(io.iBufSize)
    ensures Receiver(io.Contents(), delivered) ==
            Run(Accepted(events, DataLimit(packetSize), io.iBufSize), DataLimit(packetSize))
  {
    hide RingView, NextPacket, Run, Accepted;
    ghost var limit, size := DataLimit(packetSize), io.iBufSize;
    delivered := [];
    NothingYet(limit, size);
    assert events[..0] == [];
    for i := 0 to |events|
      invariant io.Valid() && io.pBuffer == old(io.pBuffer) && io.iBufSize == size
      invariant Receiver(io.Contents(), delivered) == Run(Accepted(events[..i], limit, size), limit)
    {
      AcceptedOneMore(events, i, limit, size);
      match events[i] {
        case Arrive(chunk) =>
          var added := io.AppendData(chunk, |chunk|);
          assert chunk[..|chunk|] == chunk;
        case Poll =>
          var header, buffer := new bv8[HEADER_SIZE], new bv8[65535];
          var more, errorCode := GetPacket(io, header, buffer, packetSize);
          if more {
            delivered := delivered + [Packet(header[..], buffer[..DataSizeOf(header[..])])];
          }
      }
    }
    assert events[..|events|] == events;
  }

  lemma NothingYet(limit: nat, size: nat)
    ensures Run(Accepted([], limit, size), limit) == Receiver([], [])
  {
  }

  // ---------- the receive loop ----------

  /** OnReceive: append, then poll until nothing comes out. */
  method OnReceive(io: SFIOBuffer, chunk: seq<bv8>, packetSize: nat)
    returns (packets: seq<Packet>, errorCode: ErrorCode, accepted: bool)
    requires io.Valid() && packetSize <= 65535
    modifies io, io.pBuffer
    ensures io.Valid() && io.pBuffer == old(io.pBuffer) && io.iBufSize == old(io.iBufSize)
    ensures accepted <==> old(|io.Contents()|) + |chunk| < io.iBufSize
    ensures var d := Drain(old(io.Contents()) + (if accepted then chunk else []), DataLimit(packetSize));
            packets == d.packets && io.Contents() == d.rest && (errorCode == PACKETIO_ERROR_DATA <==> d.stuck)
  {
    var added := io.AppendData(chunk, |chunk|);
    accepted := added != -1;
    assert chunk[..|chunk|] == chunk;
    assert old(io.Contents()) + [] == old(io.Contents());
    packets, errorCode := PollAll(io, packetSize);
  }

  /** GetPacket until it delivers nothing. */
  method PollAll(io: SFIOBuffer, packetSize: nat) returns (packets: seq<Packet>, errorCode: ErrorCode)
    requires io.Valid() && packetSize <= 65535
    modifies io
    ensures io.Valid() && io.pBuffer == old(io.pBuffer) && io.iBufSize == old(io.iBufSize)
    ensures Accounted(old(io.Contents()), Receiver(io.Contents(), packets), DataLimit(packetSize))
    ensures match NextPacket(io.Contents(), DataLimit(packetSize))
            case Incomplete => errorCode == PACKETIO_ERROR_NONE
            case TooLarge => errorCode == PACKETIO_ERROR_DATA
            case Fetched(_, _) => false
  {
    ghost var start, limit := io.Contents(), DataLimit(packetSize);
    packets, errorCode := [], PACKETIO_ERROR_NONE;
    hide Accounted, NextPacket;
    NothingTaken(start, limit);
    var more := true;
    while more
      invariant io.Valid() && io.pBuffer == old(io.pBuffer) && io.iBufSize == old(io.iBufSize)
      invariant Accounted(start, Receiver(io.Contents(), packets), limit)
      invariant !more ==> match NextPacket(io.Contents(), limit)
                          case Incomplete => errorCode == PACKETIO_ERROR_NONE
                          case TooLarge => errorCode == PACKETIO_ERROR_DATA
                          case Fetched(_, _) => false
      decreases |io.Contents()|, more
    {
      PollKeepsAccount(start, Receiver(io.Contents(), packets), limit);
      var header, buffer := new bv8[HEADER_SIZE], new bv8[65535];
      more, errorCode := GetPacket(io, header, buffer, packetSize);
      if more {
        packets := packets + [Packet(header[..], buffer[..DataSizeOf(header[..])])];
      }
    }
  }

  lemma NothingTaken(s: seq<bv8>, limit: nat)
    ensures Accounted(s, Receiver(s, []), limit)
  {
    assert [] + Drain(s, limit).packets == Drain(s, limit).packets;
  }

  /** Every chunk finds room: what earlier chunks left undelivered, and the chunk, stay below the
      ring's size. That is the test AppendData makes. */
  ghost predicate Roomy(chunks: seq<seq<bv8>>, limit: nat, size: nat) {
    forall i :: 0 <= i < |chunks| ==> |Drain(Join(chunks[..i]), limit).rest| + |chunks[i]| < size
  }

  /** A chunk and a packet together fit the ring: then no append is ever refused. */
  lemma ShortChunksAreRoomy(ps: seq<Packet>, chunks: seq<seq<bv8>>, packetSize: nat, size: nat)
    requires HEADER_SIZE <= packetSize <= 65535
    requires AllWellFormed(ps) && AllFit(ps, packetSize - HEADER_SIZE) && Join(chunks) == Wire(ps)
    requires forall c :: c in chunks ==> |c| + packetSize <= size
    ensures Roomy(chunks, DataLimit(packetSize), size)
  {
    hide Drain, Join, Wire, AllFit, AllWellFormed;
    assert DataLimit(packetSize) == packetSize - HEADER_SIZE;
    forall i | 0 <= i < |chunks|
      ensures |Drain(Join(chunks[..i]), DataLimit(packetSize)).rest| + |chunks[i]| < size
    {
      assert chunks[i] in chunks;
      NeverStuck(ps, chunks, i, DataLimit(packetSize));
      LeftoverIsShort(Join(chunks[..i]), packetSize);
    }
  }

  /** A whole connection: however the stream is cut, as long as every chunk finds room, the
      packets that come out are the packets that went in. */
  method ReceiveAll(io: SFIOBuffer, chunks: seq<seq<bv8>>, packetSize: nat, ghost ps: seq<Packet>)
    returns (delivered: seq<Packet>)
    requires io.Valid() && io.Contents() == [] && HEADER_SIZE <= packetSize <= 65535
    requires AllWellFormed(ps) && AllFit(ps, packetSize - HEADER_SIZE) && Join(chunks) == Wire(ps)
    requires Roomy(chunks, DataLimit(packetSize), io.iBufSize)
    modifies io, io.pBuffer
    ensures delivered == ps && io.Valid() && io.Contents() == []
  {
    hide RingView, NextPacket, Drain, Join, Wire, AllFit, AllWellFormed;
    delivered := [];
    ghost var limit := DataLimit(packetSize);
    assert limit == packetSize - HEADER_SIZE;
    WholeStream(ps, limit);
    NothingDrained(limit);
    assert chunks[..0] == [];
    for i := 0 to |chunks|
      invariant io.Valid() && io.pBuffer == old(io.pBuffer) && io.iBufSize == old(io.iBufSize)
      invariant Drain(Join(chunks[..i]), limit) == Drained(delivered, io.Contents(), false)
    {
      JoinOneMore(chunks, i);
      NeverStuck(ps, chunks, i + 1, limit);
      DrainInTwo(Join(chunks[..i]), chunks[i], limit);
      var packets, errorCode, accepted := OnReceive(io, chunks[i], packetSize);
      delivered := delivered + packets;
    }
    assert chunks[..|chunks|] == chunks;
  }

  lemma WholeStream(ps: seq<Packet>, limit: nat)
    requires AllWellFormed(ps) && AllFit(ps, limit)
    ensures Drain(Wire(ps), limit) == Drained(ps, [], false)
  {
    DrainOfWire(ps, limit);
    AllFitMeansNoneOversized(ps, limit);
    assert ps[..|ps|] == ps && Wire(ps[|ps|..]) == [];
  }

  lemma NothingDrained(limit: nat)
    ensures Drain(Join([]), limit) == Drained([], [], false)
  {
  }

  lemma NeverStuck(ps: seq<Packet>, chunks: seq<seq<bv8>>, i: nat, limit: nat)
    requires AllWellFormed(ps) && AllFit(ps, limit) && Join(chunks) == Wire(ps) && i <= |chunks|
    ensures !Drain(Join(chunks[..i]), limit).stuck
  {
    JoinSplit(chunks[..i], chunks[i..]);
    assert chunks[..i] + chunks[i..] == chunks;
    WholeStream(ps, limit);
    if Drain(Join(chunks[..i]), limit).stuck {
      StuckStays(Join(chunks[..i]), Join(chunks[i..]), limit);
    }
  }

  /** Once stuck, stuck for good. */
  lemma {:induction false} StuckStays(s: seq<bv8>, more: seq<bv8>, limit: nat)
    requires Drain(s, limit).stuck
    ensures Drain(s + more, limit).stuck && Drain(s + more, limit).packets == Drain(s, limit).packets
    decreases |s|
  {
    NextPacketExtends(s, more, limit);
    match NextPacket(s, limit)
    case Fetched(p, rest) => StuckStays(rest, more, limit);
    case TooLarge =>
    case Incomplete =>
  }
}
