/** The connection as the program has it: buffers that grow and shrink in
    place, loops over offsets and records, cipher objects that carry a position. */
module MtgConnection {
  import opened Bytes
  import opened Framing

  class Connection {
    const sendKey: nat -> byte
    const receiveKey: nat -> byte
    // What the peer sent and was not read yet, up to where it closed.
    var input: Bytes
    var output: Bytes
    var buffer: Bytes
    var encrypted: nat
    var decrypted: nat

    ghost function Receiving(): Receiver
      reads this`buffer, this`input, this`decrypted
    {
      Receiver(buffer, input, decrypted)
    }

    constructor (sendKey: nat -> byte, receiveKey: nat -> byte, input: Bytes)
      ensures this.sendKey == sendKey && this.receiveKey == receiveKey
      ensures Receiving() == Receiver([], input, 0) && output == [] && encrypted == 0
    {
      this.sendKey, this.receiveKey, this.input := sendKey, receiveKey, input;
      output, buffer, encrypted, decrypted := [], [], 0, 0;
    }

    /** Write one record; the length must fit two bytes. */
    method WriteRecord(data: Bytes) returns (written: bool)
      modifies this`output
      ensures written <==> |data| < 0x1_0000
      ensures output == if written then old(output) + Record(23, data) else old(output)
    {
      if |data| >= 0x1_0000 {
        return false;
      }
      output := output + ([23, 3, 3] + Big(|data|, 2) + data);
      return true;
    }

    /** Send one message; the length must fit four bytes. */
    method Send(data: Bytes, padding: Bytes) returns (sent: bool)
      requires |padding| < 4
      modifies this`output, this`encrypted
      ensures sent <==> |data| + |padding| < 0x1_0000_0000
      ensures !sent ==> output == old(output) && encrypted == old(encrypted)
      ensures sent ==>
                var m := Message(data, padding);
                var chunks := SentChunks(sendKey, old(encrypted), [m]);
                && Recordable(chunks) && output == old(output) + Wire(chunks)
                && encrypted == old(encrypted) + |Packet(m)|
    {
      if |data| + |padding| >= 0x1_0000_0000 {
        return false;
      }
      hide Crypt, Chunked, Wire, Little, SentChunks;
      ghost var m := Message(data, padding);
      var packet := Little(|data| + |padding|, 4) + data + padding;
      var cipher := Crypt(sendKey, encrypted, packet);
      encrypted := encrypted + |packet|;
      WriteRecords(cipher);
      OneMessage(sendKey, old(encrypted), m);
      return true;
    }

    /** The loop that cuts the encrypted packet into records. */
    method WriteRecords(cipher: Bytes)
      modifies this`output
      ensures Recordable(Chunked(cipher)) && output == old(output) + Wire(Chunked(cipher))
    {
      hide Chunked, Record, Wire, Recordable, Rest;
      ghost var all := Chunked(cipher);
      NoChunks();
      ghost var done: seq<Bytes> := [];
      ghost var left := cipher;
      var offset := 0;
      NoCut(cipher);
      while offset < |cipher|
        invariant 0 <= offset && left == Rest(cipher, offset)
        invariant Recordable(done) && output == old(output) + Wire(done)
        invariant done + Chunked(left) == all
      {
        var chunk := cipher[offset..if offset + CHUNK <= |cipher| then offset + CHUNK else |cipher|];
        CutAt(cipher, offset, chunk);
        var written := WriteRecord(chunk);
        NextChunk(left, done, chunk);
        left := left[|chunk|..];
        done := done + [chunk];
        offset := offset + CHUNK;
      }
      CutDone(cipher, offset);
      assert done + [] == done;
    }

    /** Read a record of application data into the buffer until it holds enough. */
    method ReadExactly(size: nat) returns (result: Result<Bytes>)
      modifies this`input, this`buffer, this`decrypted
      ensures match Take(receiveKey, old(Receiving()), size)
              case Ok(taken) => result == Ok(taken.data) && Receiving() == taken.left
              case Err(error) => result == Err(error)
    {
      hide ReadRecord, Crypt;
      while |buffer| < size
        invariant Filled(receiveKey, old(Receiving()), size) == Filled(receiveKey, Receiving(), size)
        decreases |input|
      {
        var reading := ReadRecord(input);
        ReadRecordShape(input);
        if reading.Err? {
          return Err(reading.error);
        }
        var record := reading.value.record;
        if record[0] != 23 {
          return Err(BadKind);
        }
        FilledStep(receiveKey, Receiving(), size);
        buffer := buffer + Crypt(receiveKey, decrypted, record[5..]);
        decrypted := decrypted + |record[5..]|;
        input := reading.value.rest;
      }
      result := Ok(buffer[..size]);
      buffer := buffer[size..];
    }

    method Receive() returns (result: Result<Bytes>)
      modifies this`input, this`buffer, this`decrypted
      ensures match Received(receiveKey, old(Receiving()))
              case Ok(taken) => result == Ok(taken.data) && Receiving() == taken.left
              case Err(error) => result == Err(error)
    {
      TakeSize(receiveKey, Receiving(), 4);
      var header := ReadExactly(4);
      if header.Err? {
        return header;
      }
      var size := FromLittle(header.value);
      if !(0 < size <= MAX_PACKET_SIZE) {
        return Err(BadLength);
      }
      TakeSize(receiveKey, Receiving(), size);
      var packet := ReadExactly(size);
      if packet.Err? {
        return packet;
      }
      return Ok(packet.value[..size - size % 4]);
    }
  }

  /** One message is sent as the chunks of its encrypted packet. */
  lemma OneMessage(key: nat -> byte, at: nat, m: Message)
    requires m.Size() < 0x1_0000_0000 && |m.padding| < 4
    ensures Sendable([m]) && SentChunks(key, at, [m]) == Chunked(Crypt(key, at, Packet(m)))
  {
    hide Crypt, Chunked, Packet;
    assert [m][1..] == [];
    var chunks := Chunked(Crypt(key, at, Packet(m)));
    assert chunks + [] == chunks;
  }

  lemma FilledStep(key: nat -> byte, r: Receiver, size: nat)
    requires |r.buffer| < size && ReadRecord(r.input).Ok? && ReadRecord(r.input).value.record[0] == 23
    ensures var reading := ReadRecord(r.input).value;
            Filled(key, r, size) == Filled(key, AfterRecord(key, r, reading.record[5..], reading.rest), size)
  {
    FilledNext(key, r, size, ReadRecord(r.input).value);
  }

  /** The bytes behind an offset, none when it lies past the end. */
  function Rest(cipher: Bytes, offset: nat): Bytes {
    if offset <= |cipher| then cipher[offset..] else []
  }

  lemma NoCut(cipher: Bytes)
    ensures Rest(cipher, 0) == cipher
  {
  }

  lemma CutDone(cipher: Bytes, offset: nat)
    requires offset >= |cipher|
    ensures Rest(cipher, offset) == []
  {
  }

  /** A chunk is the front of the rest, and what follows it is the next rest. */
  lemma CutAt(cipher: Bytes, offset: nat, chunk: Bytes)
    requires offset < |cipher|
    requires chunk == cipher[offset..if offset + CHUNK <= |cipher| then offset + CHUNK else |cipher|]
    ensures var left := Rest(cipher, offset);
            && left != [] && 0 < |chunk| <= CHUNK && |chunk| <= |left|
            && chunk == left[..if CHUNK <= |left| then CHUNK else |left|]
            && left[|chunk|..] == Rest(cipher, offset + CHUNK)
  {
  }

  lemma NoChunks()
    ensures Chunked([]) == [] && Wire([]) == [] && Recordable([])
  {
  }

  /** Writing the next piece of the packet is writing the next chunk. */
  lemma NextChunk(left: Bytes, done: seq<Bytes>, chunk: Bytes)
    requires left != [] && chunk == left[..if CHUNK <= |left| then CHUNK else |left|] && Recordable(done)
    ensures done + [chunk] + Chunked(left[|chunk|..]) == done + Chunked(left)
    ensures Recordable(done + [chunk]) && Wire(done + [chunk]) == Wire(done) + Record(23, chunk)
  {
    hide Record, Wire, Chunked;
    FirstChunk(left, chunk);
    assert done + [chunk] + Chunked(left[|chunk|..]) == done + ([chunk] + Chunked(left[|chunk|..]));
    WireAppend(done, [chunk]);
    WireOne(chunk);
  }

  lemma FirstChunk(left: Bytes, chunk: Bytes)
    requires left != [] && chunk == left[..if CHUNK <= |left| then CHUNK else |left|]
    ensures Chunked(left) == [chunk] + Chunked(left[|chunk|..])
  {
    if |left| <= CHUNK {
      assert left[..|left|] == left && left[|chunk|..] == [];
      assert [chunk] + [] == [chunk];
    }
  }

  lemma WireOne(chunk: Bytes)
    requires 0 < |chunk| <= MAX_RECORD_SIZE
    ensures Wire([chunk]) == Record(23, chunk)
  {
    hide Record;
    assert Wire([chunk]) == Record(23, chunk) + Wire([chunk][1..]);
    assert [chunk][1..] == [];
  }
}
