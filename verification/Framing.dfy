/** The message stream of one connection: packets with length and padding,
    encrypted by a stream cipher and cut into Fake TLS records. */
module Framing {
  import opened Bytes

  datatype Result<+T> = Ok(value: T) | Err(error: Error)

  datatype Error = Incomplete | BadRecord | BadKind | BadLength

  const MAX_RECORD_SIZE := 18432
  const MAX_PACKET_SIZE := 1048576
  const CHUNK: nat := 16384

  // ---- Records ---------------------------------------------------------------

  function Record(kind: byte, data: Bytes): Bytes
    requires |data| < 0x1_0000
  {
    [kind, 3, 3] + Big(|data|, 2) + data
  }

  datatype Reading = Reading(record: Bytes, rest: Bytes)

  /** Read one record off the input; the input ends where the peer closed. */
  function ReadRecord(input: Bytes): Result<Reading> {
    if |input| < 5 then Err(Incomplete)
    else
      var size := FromBig(input[3..5]);
      if input[1..3] != [3, 3] || !(0 < size <= MAX_RECORD_SIZE) then Err(BadRecord)
      else if |input| < 5 + size then Err(Incomplete)
      else Ok(Reading(input[..5 + size], input[5 + size..]))
  }

  lemma RecordParts(kind: byte, data: Bytes)
    requires |data| < 0x1_0000
    ensures |Record(kind, data)| == 5 + |data|
    ensures Record(kind, data)[0] == kind && Record(kind, data)[5..] == data
  {
    hide Big;
  }

  lemma RecordRoundTrip(kind: byte, data: Bytes, rest: Bytes)
    requires 0 < |data| <= MAX_RECORD_SIZE
    ensures ReadRecord(Record(kind, data) + rest) == Ok(Reading(Record(kind, data), rest))
  {
    hide Big, FromBig;
    var record := Record(kind, data);
    var input := record + rest;
    Pow256Facts();
    BigRoundTrip(|data|, 2);
    assert input[3..5] == Big(|data|, 2);
    assert input[1..3] == [3, 3];
    assert input[..5 + |data|] == record;
  }

  lemma ReadRecordShape(input: Bytes)
    ensures ReadRecord(input).Ok? ==>
              var reading := ReadRecord(input).value;
              && reading.record + reading.rest == input && |reading.record| > 5
  {
  }

  // ---- The cipher ------------------------------------------------------------

  /** A stream cipher: exclusive or with a key stream from a position on. */
  function Crypt(key: nat -> byte, at: nat, data: Bytes): (out: Bytes)
    ensures |out| == |data|
  {
    seq(|data|, i requires 0 <= i < |data| => Xor(data[i], key(at + i)))
  }

  lemma CryptTwice(key: nat -> byte, at: nat, data: Bytes)
    ensures Crypt(key, at, Crypt(key, at, data)) == data
  {
    forall i | 0 <= i < |data|
      ensures Crypt(key, at, Crypt(key, at, data))[i] == data[i]
    {
      XorTwice(data[i], key(at + i));
    }
  }

  lemma CryptConcat(key: nat -> byte, at: nat, a: Bytes, b: Bytes)
    ensures Crypt(key, at, a + b) == Crypt(key, at, a) + Crypt(key, at + |a|, b)
  {
  }

  // ---- Sending ---------------------------------------------------------------

  datatype Message = Message(payload: Bytes, padding: Bytes) {
    function Size(): nat { |payload| + |padding| }
  }

  function Packet(m: Message): Bytes
    requires m.Size() < 0x1_0000_0000
  {
    Little(m.Size(), 4) + m.payload + m.padding
  }

  /** Cut into pieces of the record size; the last may be shorter. */
  function Chunked(data: Bytes): seq<Bytes> {
    if data == [] then []
    else if |data| <= CHUNK then [data]
    else [data[..CHUNK]] + Chunked(data[CHUNK..])
  }

  lemma {:induction false} ChunkedFacts(data: Bytes)
    ensures Concat(Chunked(data)) == data
    ensures forall i :: 0 <= i < |Chunked(data)| ==> 0 < |Chunked(data)[i]| <= CHUNK
  {
    if data != [] {
      if |data| <= CHUNK {
        assert Concat([data]) == data + Concat([]);
      } else {
        ChunkedFacts(data[CHUNK..]);
        assert Chunked(data)[1..] == Chunked(data[CHUNK..]);
        assert data == data[..CHUNK] + data[CHUNK..];
      }
    }
  }

  predicate Recordable(chunks: seq<Bytes>) {
    forall i :: 0 <= i < |chunks| ==> 0 < |chunks[i]| <= MAX_RECORD_SIZE
  }

  /** The bytes that carry the chunks, each in a record of application data. */
  function Wire(chunks: seq<Bytes>): Bytes
    requires Recordable(chunks)
  {
    if chunks == [] then [] else Record(23, chunks[0]) + Wire(chunks[1..])
  }

  lemma WireFirst(chunks: seq<Bytes>)
    requires Recordable(chunks) && chunks != []
    ensures Wire(chunks) == Record(23, chunks[0]) + Wire(chunks[1..])
  {
  }

  lemma {:induction false} WireAppend(a: seq<Bytes>, b: seq<Bytes>)
    requires Recordable(a) && Recordable(b)
    ensures Recordable(a + b) && Wire(a + b) == Wire(a) + Wire(b)
  {
    ShiftAppend(a, b);
    if a != [] {
      hide Record, Wire;
      WireAppend(a[1..], b);
      WireFirst(a + b);
      WireFirst(a);
      Regroup(Record(23, a[0]), Wire(a[1..]), Wire(b));
    }
  }

  predicate Sendable(ms: seq<Message>) {
    forall i :: 0 <= i < |ms| ==> ms[i].Size() < 0x1_0000_0000 && |ms[i].padding| < 4
  }

  function Plain(ms: seq<Message>): Bytes
    requires Sendable(ms)
  {
    if ms == [] then [] else Packet(ms[0]) + Plain(ms[1..])
  }

  /** The chunks sent for messages, one call of `send` each. */
  function SentChunks(key: nat -> byte, at: nat, ms: seq<Message>): seq<Bytes>
    requires Sendable(ms)
    decreases |ms|
  {
    if ms == [] then []
    else Chunked(Crypt(key, at, Packet(ms[0]))) + SentChunks(key, at + |Packet(ms[0])|, ms[1..])
  }

  /** What goes out is the encrypted stream of packets, in records within the
      limit of section 5.1 of RFC 8446. */
  lemma {:induction false} SentStream(key: nat -> byte, at: nat, ms: seq<Message>)
    requires Sendable(ms)
    ensures Concat(SentChunks(key, at, ms)) == Crypt(key, at, Plain(ms))
    ensures forall i :: 0 <= i < |SentChunks(key, at, ms)| ==> 1 <= |SentChunks(key, at, ms)[i]| <= 16384
    decreases |ms|
  {
    hide Packet, Chunked, Crypt;
    if ms != [] {
      var packet := Packet(ms[0]);
      ChunkedFacts(Crypt(key, at, packet));
      SentStream(key, at + |packet|, ms[1..]);
      ConcatAppend(Chunked(Crypt(key, at, packet)), SentChunks(key, at + |packet|, ms[1..]));
      CryptConcat(key, at, packet, Plain(ms[1..]));
    }
  }

  /** Sending one more message sends its chunks after the others. */
  lemma {:induction false} SentInTurn(key: nat -> byte, at: nat, ms: seq<Message>, m: Message)
    requires Sendable(ms) && Sendable([m])
    ensures Sendable(ms + [m])
    ensures SentChunks(key, at, ms + [m]) == SentChunks(key, at, ms) + SentChunks(key, at + |Plain(ms)|, [m])
    decreases |ms|
  {
    hide Packet, Chunked, Crypt;
    if ms == [] {
      assert ms + [m] == [m];
    } else {
      SentInTurn(key, at + |Packet(ms[0])|, ms[1..], m);
      assert (ms + [m])[1..] == ms[1..] + [m];
    }
  }

  // ---- Receiving -------------------------------------------------------------

  /** The receiving half: decrypted bytes not yet asked for, input not yet
      read, position in the key stream. */
  datatype Receiver = Receiver(buffer: Bytes, input: Bytes, at: nat)

  /** Read records until the buffer holds `size` bytes. */
  function Filled(key: nat -> byte, r: Receiver, size: nat): Result<Receiver>
    decreases |r.input|
  {
    if |r.buffer| >= size then Ok(r)
    else
      var reading := ReadRecord(r.input);
      if reading.Err? then Err(reading.error)
      else if reading.value.record[0] != 23 then Err(BadKind)
      else
        var data := reading.value.record[5..];
        Filled(key, Receiver(r.buffer + Crypt(key, r.at, data), reading.value.rest, r.at + |data|), size)
  }

  lemma {:induction false} FilledEnough(key: nat -> byte, r: Receiver, size: nat)
    ensures Filled(key, r, size).Ok? ==> |Filled(key, r, size).value.buffer| >= size
    decreases |r.input|
  {
    if |r.buffer| < size && ReadRecord(r.input).Ok? && ReadRecord(r.input).value.record[0] == 23 {
      var reading := ReadRecord(r.input).value;
      FilledEnough(key, Receiver(r.buffer + Crypt(key, r.at, reading.record[5..]), reading.rest,
                                 r.at + |reading.record[5..]|), size);
    }
  }

  datatype Taken = Taken(data: Bytes, left: Receiver)

  function Take(key: nat -> byte, r: Receiver, size: nat): Result<Taken> {
    FilledEnough(key, r, size);
    var filled := Filled(key, r, size);
    if filled.Err? then Err(filled.error)
    else
      var buffer := filled.value.buffer;
      Ok(Taken(buffer[..size], filled.value.(buffer := buffer[size..])))
  }

  lemma TakeSize(key: nat -> byte, r: Receiver, size: nat)
    ensures Take(key, r, size).Ok? ==> |Take(key, r, size).value.data| == size
  {
    FilledEnough(key, r, size);
  }

  /** Receive one message. */
  function Received(key: nat -> byte, r: Receiver): Result<Taken> {
    TakeSize(key, r, 4);
    var header := Take(key, r, 4);
    if header.Err? then header
    else
      var size := FromLittle(header.value.data);
      if !(0 < size <= MAX_PACKET_SIZE) then Err(BadLength)
      else
        TakeSize(key, header.value.left, size);
        var packet := Take(key, header.value.left, size);
        if packet.Err? then packet
        else Ok(Taken(packet.value.data[..size - size % 4], packet.value.left))
  }

  datatype Delivery = Delivery(payloads: seq<Bytes>, left: Receiver)

  function ReceivedAll(key: nat -> byte, r: Receiver, count: nat): Result<Delivery>
    decreases count
  {
    if count == 0 then Ok(Delivery([], r))
    else
      var first := Received(key, r);
      if first.Err? then Err(first.error)
      else
        var rest := ReceivedAll(key, first.value.left, count - 1);
        if rest.Err? then rest else Ok(Delivery([first.value.data] + rest.value.payloads, rest.value.left))
  }

  // ---- The receiver sees one stream --------------------------------------------

  /** The receiver will see exactly this stream of bytes, followed by whatever
      comes after the records. */
  predicate Sees(key: nat -> byte, r: Receiver, chunks: seq<Bytes>, tail: Bytes, stream: Bytes) {
    && Recordable(chunks) && r.input == Wire(chunks) + tail
    && stream == r.buffer + Crypt(key, r.at, Concat(chunks))
  }

  lemma NextRecord(chunks: seq<Bytes>, tail: Bytes)
    requires Recordable(chunks) && chunks != []
    ensures ReadRecord(Wire(chunks) + tail) == Ok(Reading(Record(23, chunks[0]), Wire(chunks[1..]) + tail))
    ensures Record(23, chunks[0])[0] == 23 && Record(23, chunks[0])[5..] == chunks[0]
  {
    hide Record, ReadRecord;
    RecordParts(23, chunks[0]);
    assert Wire(chunks) + tail == Record(23, chunks[0]) + (Wire(chunks[1..]) + tail);
    RecordRoundTrip(23, chunks[0], Wire(chunks[1..]) + tail);
  }

  /** Reading one record moves a chunk from the input to the buffer. */
  lemma SeesNextRecord(key: nat -> byte, r: Receiver, chunks: seq<Bytes>, tail: Bytes, stream: Bytes)
    requires Sees(key, r, chunks, tail, stream) && chunks != []
    ensures var reading := ReadRecord(r.input);
            && reading.Ok? && reading.value.record[0] == 23 && reading.value.record[5..] == chunks[0]
            && Sees(key, AfterRecord(key, r, chunks[0], reading.value.rest), chunks[1..], tail, stream)
  {
    hide ReadRecord, Record, Crypt, Wire;
    NextRecord(chunks, tail);
    CryptConcat(key, r.at, chunks[0], Concat(chunks[1..]));
  }

  function AfterRecord(key: nat -> byte, r: Receiver, data: Bytes, rest: Bytes): Receiver {
    Receiver(r.buffer + Crypt(key, r.at, data), rest, r.at + |data|)
  }

  lemma FilledNext(key: nat -> byte, r: Receiver, size: nat, reading: Reading)
    requires |r.buffer| < size && ReadRecord(r.input) == Ok(reading) && reading.record[0] == 23
    ensures Filled(key, r, size) == Filled(key, AfterRecord(key, r, reading.record[5..], reading.rest), size)
  {
    hide ReadRecord, Crypt;
  }

  lemma {:induction false} FilledSees(key: nat -> byte, r: Receiver, chunks: seq<Bytes>, tail: Bytes,
                                      stream: Bytes, size: nat) returns (left: seq<Bytes>)
    requires Sees(key, r, chunks, tail, stream) && size <= |stream|
    ensures Filled(key, r, size).Ok? && |Filled(key, r, size).value.buffer| >= size
    ensures Sees(key, Filled(key, r, size).value, left, tail, stream)
    ensures Filled(key, r, size).value.at + |Concat(left)| == r.at + |Concat(chunks)|
    decreases |chunks|
  {
    hide ReadRecord, Crypt, Wire;
    if |r.buffer| >= size {
      left := chunks;
    } else {
      assert chunks != [] by { assert |Concat([])| == 0; }
      SeesNextRecord(key, r, chunks, tail, stream);
      var reading := ReadRecord(r.input).value;
      FilledNext(key, r, size, reading);
      var next := AfterRecord(key, r, chunks[0], reading.rest);
      left := FilledSees(key, next, chunks[1..], tail, stream, size);
      assert |Concat(chunks)| == |chunks[0]| + |Concat(chunks[1..])|;
    }
  }

  lemma TakeSees(key: nat -> byte, r: Receiver, chunks: seq<Bytes>, tail: Bytes, stream: Bytes, size: nat)
    returns (left: seq<Bytes>)
    requires Sees(key, r, chunks, tail, stream) && size <= |stream|
    ensures Take(key, r, size).Ok? && Take(key, r, size).value.data == stream[..size]
    ensures Sees(key, Take(key, r, size).value.left, left, tail, stream[size..])
    ensures Take(key, r, size).value.left.at + |Concat(left)| == r.at + |Concat(chunks)|
  {
    hide Filled, Crypt, Wire, Concat;
    left := FilledSees(key, r, chunks, tail, stream, size);
  }

  /** The receiver returns a payload unchanged exactly when its length is a
      multiple of four and the packet is neither empty nor too long. */
  lemma ReceivedPayload(key: nat -> byte, r: Receiver, chunks: seq<Bytes>, tail: Bytes, m: Message, rest: Bytes)
    returns (left: seq<Bytes>)
    requires m.Size() < 0x1_0000_0000 && |m.padding| < 4
    requires Sees(key, r, chunks, tail, Packet(m) + rest)
    ensures (Received(key, r).Ok? && Received(key, r).value.data == m.payload)
            <==> (|m.payload| % 4 == 0 && 0 < m.Size() <= 1048576)
    ensures Received(key, r).Ok? <==> 0 < m.Size() <= 1048576
    ensures Received(key, r).Ok? ==>
              Received(key, r).value.data == (m.payload + m.padding)[..m.Size() - m.Size() % 4]
    ensures Received(key, r).Ok? ==>
              && Sees(key, Received(key, r).value.left, left, tail, rest)
              && Received(key, r).value.left.at + |Concat(left)| == r.at + |Concat(chunks)|
  {
    hide Take, Sees, Little, FromLittle;
    var stream := Packet(m) + rest;
    left := TakeSees(key, r, chunks, tail, stream, 4);
    assert stream[..4] == Little(m.Size(), 4);
    Pow256Facts();
    LittleRoundTrip(m.Size(), 4);
    if 0 < m.Size() <= MAX_PACKET_SIZE {
      var body := stream[4..];
      assert body == m.payload + m.padding + rest;
      left := TakeSees(key, Take(key, r, 4).value.left, left, tail, body, m.Size());
      assert body[..m.Size()] == m.payload + m.padding;
      assert body[m.Size()..] == rest;
      var kept := m.Size() - m.Size() % 4;
      assert kept == |m.payload| <==> |m.payload| % 4 == 0;
      assert (m.payload + m.padding)[..|m.payload|] == m.payload;
    }
  }

  // ---- Round trip --------------------------------------------------------------

  predicate Deliverable(ms: seq<Message>) {
    forall i :: 0 <= i < |ms| ==>
      |ms[i].payload| % 4 == 0 && |ms[i].padding| < 4 && 0 < ms[i].Size() <= MAX_PACKET_SIZE
  }

  function Payloads(ms: seq<Message>): seq<Bytes> {
    if ms == [] then [] else [ms[0].payload] + Payloads(ms[1..])
  }

  /** Exactly these payloads in order, with nothing left over but the tail. */
  predicate Delivers(delivery: Delivery, ms: seq<Message>, tail: Bytes, at: nat) {
    && delivery.payloads == Payloads(ms)
    && delivery.left.buffer == [] && delivery.left.input == tail && delivery.left.at == at
  }

  lemma DeliveredFirst(key: nat -> byte, r: Receiver, chunks: seq<Bytes>, tail: Bytes, ms: seq<Message>)
    returns (left: seq<Bytes>)
    requires Deliverable(ms) && ms != [] && Sees(key, r, chunks, tail, Plain(ms))
    ensures Received(key, r).Ok? && Received(key, r).value.data == ms[0].payload
    ensures Deliverable(ms[1..]) && Sees(key, Received(key, r).value.left, left, tail, Plain(ms[1..]))
    ensures Received(key, r).value.left.at + |Concat(left)| == r.at + |Concat(chunks)|
  {
    hide Received, Sees, Packet;
    left := ReceivedPayload(key, r, chunks, tail, ms[0], Plain(ms[1..]));
  }

  lemma {:induction false} DeliveredInOrder(key: nat -> byte, r: Receiver, chunks: seq<Bytes>, tail: Bytes,
                                            ms: seq<Message>)
    requires Deliverable(ms) && Sees(key, r, chunks, tail, Plain(ms))
    ensures ReceivedAll(key, r, |ms|).Ok?
    ensures Delivers(ReceivedAll(key, r, |ms|).value, ms, tail, r.at + |Concat(chunks)|)
    decreases |ms|
  {
    hide Received, Sees, Packet, Concat;
    if ms == [] {
      NothingLeft(key, r, chunks, tail);
    } else {
      var left := DeliveredFirst(key, r, chunks, tail, ms);
      DeliveredInOrder(key, Received(key, r).value.left, left, tail, ms[1..]);
    }
  }

  lemma NothingLeft(key: nat -> byte, r: Receiver, chunks: seq<Bytes>, tail: Bytes)
    requires Sees(key, r, chunks, tail, [])
    ensures chunks == [] && |Concat(chunks)| == 0 && r.buffer == [] && r.input == tail
  {
    assert Wire([]) + tail == tail;
  }

  /** Main result.  However the sent bytes are cut into records again on the
      way, receiving as many times as messages were sent returns exactly their
      payloads, in order, and leaves nothing behind: the buffer is empty, the
      input is what followed, and both ends stand at the same position of the
      key stream. */
  lemma MessagesRoundTrip(key: nat -> byte, at: nat, ms: seq<Message>, chunks: seq<Bytes>, tail: Bytes)
    requires Deliverable(ms) && Recordable(chunks)
    requires Concat(chunks) == Concat(SentChunks(key, at, ms))
    ensures var result := ReceivedAll(key, Receiver([], Wire(chunks) + tail, at), |ms|);
            result.Ok? && Delivers(result.value, ms, tail, at + |Plain(ms)|)
  {
    hide Sees, ReceivedAll, Wire, Plain, Packet, SentChunks, Concat;
    var r := Receiver([], Wire(chunks) + tail, at);
    SentIsSeen(key, at, ms, chunks, tail);
    DeliveredInOrder(key, r, chunks, tail, ms);
  }

  lemma SentIsSeen(key: nat -> byte, at: nat, ms: seq<Message>, chunks: seq<Bytes>, tail: Bytes)
    requires Sendable(ms) && Recordable(chunks)
    requires Concat(chunks) == Concat(SentChunks(key, at, ms))
    ensures Sees(key, Receiver([], Wire(chunks) + tail, at), chunks, tail, Plain(ms))
    ensures |Concat(chunks)| == |Plain(ms)|
  {
    hide SentChunks, Plain, Packet, Crypt, Wire, Concat;
    SentStream(key, at, ms);
    var plain, cipher := Plain(ms), Concat(chunks);
    assert Crypt(key, at, cipher) == plain by { CryptTwice(key, at, plain); }
    assert [] + Crypt(key, at, cipher) == plain;
  }

  // ---- On the wire -----------------------------------------------------------------

  /** The bytes of a record of application data. */
  lemma RecordOnWire(data: Bytes)
    requires |data| < 0x1_0000
    ensures Record(23, data) == [0x17, 0x03, 0x03, |data| / 256, |data| % 256] + data
  {
    BigOfTwo(|data|);
  }

  /** The bytes of a packet before they are encrypted. */
  lemma PacketOnWire(m: Message)
    requires m.Size() < 0x1_0000_0000
    ensures var n := m.Size();
            Packet(m) == [n % 256, n / 0x100 % 256, n / 0x1_0000 % 256, n / 0x100_0000] + m.payload + m.padding
  {
    LittleOfFour(m.Size());
  }

  /** Main result.  What is sent is the plain stream with every byte combined
      with the key stream at its own position: the two differ by exactly that. */
  lemma SentBytesAreKeyed(key: nat -> byte, at: nat, ms: seq<Message>, i: nat)
    requires Sendable(ms) && i < |Plain(ms)|
    ensures |Concat(SentChunks(key, at, ms))| == |Plain(ms)|
    ensures Concat(SentChunks(key, at, ms))[i] == Xor(Plain(ms)[i], key(at + i))
    ensures Xor(Concat(SentChunks(key, at, ms))[i], Plain(ms)[i]) == key(at + i)
  {
    hide SentChunks, Plain, Concat, Xor;
    SentStream(key, at, ms);
    XorSelf(Plain(ms)[i], key(at + i));
  }

  /** Main result.  All chunks of a message but the last are full records. */
  lemma {:induction false} ChunksAreFull(data: Bytes, i: nat)
    requires i < |Chunked(data)|
    ensures i < |Chunked(data)| - 1 ==> |Chunked(data)[i]| == 16384
    ensures 1 <= |Chunked(data)[i]| <= 16384
    decreases |data|
  {
    if |data| > CHUNK && i > 0 {
      ChunksAreFull(data[CHUNK..], i - 1);
    }
  }

  /** Main result.  A record is read if and only if it carries 1 to 18432 bytes
      under the right version and is there in full; one that is cut off is
      waited for, any other is refused. */
  lemma ReadsRecordsExactly(input: Bytes)
    requires |input| >= 5
    ensures var size := 256 * (input[3] as int) + (input[4] as int);
            var sound := input[1] == 3 && input[2] == 3 && 1 <= size <= 18432;
            ReadRecord(input) == if !sound then Err(BadRecord)
                                 else if |input| < 5 + size then Err(Incomplete)
                                 else Ok(Reading(input[..5 + size], input[5 + size..]))
  {
    var size := input[3..5];
    assert size[..1] == [input[3]] && [input[3]][..0] == [];
    assert FromBig([input[3]]) == input[3] as int;
    assert input[1..3] == [input[1], input[2]];
  }

  /** A record that is not application data is refused when more is needed, and
      an input that is cut off leaves the receiver short. */
  lemma RefusesOthers(key: nat -> byte, r: Receiver, size: nat)
    requires |r.buffer| < size
    ensures ReadRecord(r.input).Err? ==> Take(key, r, size) == Err(ReadRecord(r.input).error)
    ensures ReadRecord(r.input).Ok? && ReadRecord(r.input).value.record[0] != 23 ==> Take(key, r, size) == Err(BadKind)
  {
    hide ReadRecord, Crypt;
  }

  /** A length that is not positive or passes the limit is refused as such. */
  lemma RefusesLengths(key: nat -> byte, r: Receiver, chunks: seq<Bytes>, tail: Bytes, m: Message, rest: Bytes)
    requires m.Size() < 0x1_0000_0000 && |m.padding| < 4
    requires Sees(key, r, chunks, tail, Packet(m) + rest)
    ensures Received(key, r) == Err(BadLength) <==> m.Size() == 0 || m.Size() > 1048576
  {
    hide Take, Sees, Little, FromLittle;
    var stream := Packet(m) + rest;
    var left := TakeSees(key, r, chunks, tail, stream, 4);
    assert stream[..4] == Little(m.Size(), 4);
    Pow256Facts();
    LittleRoundTrip(m.Size(), 4);
    if 0 < m.Size() <= MAX_PACKET_SIZE {
      left := ReceivedPayload(key, r, chunks, tail, m, rest);
    }
  }

  /** Five bytes come back as four. */
  lemma CutPayloadExample(key: nat -> byte)
    ensures var m := Message([1, 2, 3, 4, 5], []);
            && Sendable([m]) && Recordable(SentChunks(key, 0, [m]))
            && var result := Received(key, Receiver([], Wire(SentChunks(key, 0, [m])), 0));
               result.Ok? && result.value.data == [1, 2, 3, 4]
  {
    hide Wire, SentChunks, Received, Sees, Packet, Crypt, Plain, Concat;
    var m := Message([1, 2, 3, 4, 5], []);
    var chunks := SentChunks(key, 0, [m]);
    SentStream(key, 0, [m]);
    assert Wire(chunks) + [] == Wire(chunks);
    PlainOne(m);
    SentIsSeen(key, 0, [m], chunks, []);
    var left := ReceivedPayload(key, Receiver([], Wire(chunks), 0), chunks, [], m, []);
    assert (m.payload + m.padding)[..4] == [1, 2, 3, 4];
  }

  lemma PlainOne(m: Message)
    requires m.Size() < 0x1_0000_0000 && |m.padding| < 4
    ensures Sendable([m]) && Plain([m]) == Packet(m) + []
  {
    hide Packet;
    assert [m][1..] == [];
  }
}
