/** Authentication of the Fake TLS handshake.

    The digest stands for HMAC-SHA256; nothing is assumed of it but that it has
    32 bytes.  The hello itself comes from the TLS library as an argument. */
module FakeTls {
  import opened Bytes
  import opened Framing

  /** Byte `i` of the digest of a message under a key. */
  type Mac = (Bytes, Bytes, nat) -> byte

  function Digest(mac: Mac, key: Bytes, message: Bytes): (digest: Bytes)
    ensures |digest| == 32
  {
    seq(32, (i: nat) => mac(key, message, i))
  }

  const CHANGE_CIPHER_SPEC: Bytes := [0x14, 3, 3, 0, 1, 1]

  datatype Hello = Refused(why: HelloError) | Hello(hello: Bytes, random: Bytes)

  datatype HelloError = BadSecret | BadDomain | BadHello | TimeOverflow

  predicate Whitespace(b: byte) {
    9 <= b <= 13 || 28 <= b <= 32
  }

  /** The white space of ASCII. */
  lemma WhitespaceIs(b: byte)
    ensures b < 128 ==> (Whitespace(b) <==> b in {9, 10, 11, 12, 13, 28, 29, 30, 31, 32})
  {
  }

  predicate GoodSecret(secret: Bytes) {
    |secret| > 17 && secret[0] == 0xEE
  }

  /** The rest of the secret is a non-empty ASCII host name. */
  predicate GoodDomain(domain: Bytes) {
    0 < |domain| <= 253 && forall i :: 0 <= i < |domain| ==> domain[i] < 128 && !Whitespace(domain[i])
  }

  predicate GoodHello(raw: Bytes) {
    |raw| >= 43 && FromBig(raw[3..5]) == |raw| - 5
  }

  /** A hello with its random field zeroed. */
  function Unsigned(hello: Bytes): Bytes
    requires |hello| >= 43
  {
    hello[..11] + Zeros(32) + hello[43..]
  }

  /** Build the authenticated hello.  Zeroing its random field gives back what
      was signed, and the field differs from the signature by the time alone. */
  method MakeClientHello(mac: Mac, secret: Bytes, raw: Bytes, time: nat) returns (result: Hello)
    ensures result.Hello? <==>
              GoodSecret(secret) && GoodDomain(secret[17..]) && GoodHello(raw) && time < 0x1_0000_0000
    ensures result.Refused? ==>
              result.why == (if !GoodSecret(secret) then BadSecret
                             else if !GoodDomain(secret[17..]) then BadDomain
                             else if !GoodHello(raw) then BadHello
                             else TimeOverflow)
    ensures result.Hello? ==>
              && |result.hello| == |raw| && result.hello[11..43] == result.random
              && Unsigned(result.hello) == Unsigned(raw)
              && XorAll(result.random, Digest(mac, secret[1..17], Unsigned(result.hello)))
                 == Zeros(28) + Little(time, 4)
  {
    if |secret| <= 17 || secret[0] != 0xEE {
      return Refused(BadSecret);
    }
    var domain := secret[17..];
    var good := DomainIsGood(domain);
    if !good {
      return Refused(BadDomain);
    }
    if |raw| < 43 || FromBig(raw[3..5]) != |raw| - 5 {
      return Refused(BadHello);
    }
    var hello := new byte[|raw|](i requires 0 <= i < |raw| => raw[i]);
    forall i | 11 <= i < 43 {
      hello[i] := 0;
    }
    assert hello[..] == Unsigned(raw);
    var digest := Digest(mac, secret[1..17], hello[..]);
    if time >= 0x1_0000_0000 {
      return Refused(TimeOverflow);
    }
    var random := Stamp(digest, Little(time, 4));
    forall i | 11 <= i < 43 {
      hello[i] := random[i - 11];
    }
    result := Hello.Hello(hello[..], random);
    assert result.hello[11..43] == random;
    assert Unsigned(result.hello) == Unsigned(raw);
  }

  method DomainIsGood(domain: Bytes) returns (good: bool)
    ensures good <==> GoodDomain(domain)
  {
    if !(0 < |domain| <= 253) {
      return false;
    }
    for i := 0 to |domain|
      invariant forall k :: 0 <= k < i ==> domain[k] < 128 && !Whitespace(domain[k])
    {
      if domain[i] >= 128 || Whitespace(domain[i]) {
        return false;
      }
    }
    return true;
  }

  /** Mix the four bytes of the time into the end of the digest. */
  method Stamp(digest: Bytes, time: Bytes) returns (random: Bytes)
    requires |digest| == 32 && |time| == 4
    ensures |random| == 32 && XorAll(random, digest) == Zeros(28) + time
  {
    var bytes := new byte[32](i requires 0 <= i < 32 => digest[i]);
    for index := 28 to 32
      invariant forall k :: 0 <= k < 28 || index <= k < 32 ==> bytes[k] == digest[k]
      invariant forall k :: 28 <= k < index ==> bytes[k] == Xor(digest[k], time[k - 28])
    {
      bytes[index] := Xor(bytes[index], time[index - 28]);
    }
    random := bytes[..];
    forall k | 0 <= k < 32
      ensures XorAll(random, digest)[k] == (Zeros(28) + time)[k]
    {
      XorSelf(digest[k], if k < 28 then 0 else time[k - 28]);
    }
  }

  // ---- The reply ---------------------------------------------------------------

  datatype Verdict = Accepted(rest: Bytes) | Rejected

  /** Whether these bytes are one record and nothing else. */
  predicate IsRecord(bytes: Bytes) {
    ReadRecord(bytes) == Ok(Reading(bytes, []))
  }

  predicate IsServerHello(server: Bytes) {
    IsRecord(server) && |server| >= 44 && server[0] == 22 && server[5] == 2
  }

  /** What the server signs: the client's random field and its own flight with
      its random field zeroed. */
  function SignedByServer(random: Bytes, server: Bytes, noise: Bytes): Bytes
    requires |server| >= 43
  {
    random + (Unsigned(server) + CHANGE_CIPHER_SPEC + noise)
  }

  ghost predicate GoodReply(mac: Mac, secret: Bytes, random: Bytes, server: Bytes, noise: Bytes)
    requires |secret| > 17
  {
    && IsServerHello(server) && IsRecord(noise) && noise[0] == 23
    && server[11..43] == Digest(mac, secret[1..17], SignedByServer(random, server, noise))
  }

  lemma ReadRecordPrefix(record: Bytes, rest: Bytes)
    requires IsRecord(record)
    ensures ReadRecord(record + rest) == Ok(Reading(record, rest))
  {
    hide FromBig;
    var input := record + rest;
    assert input[3..5] == record[3..5] && input[1..3] == record[1..3];
    assert input[..|record|] == record && input[|record|..] == rest;
  }

  lemma ReadRecordWhole(input: Bytes)
    requires ReadRecord(input).Ok?
    ensures var reading := ReadRecord(input).value;
            IsRecord(reading.record) && input == reading.record + reading.rest
  {
    hide FromBig;
    var record := ReadRecord(input).value.record;
    assert input[3..5] == record[3..5] && input[1..3] == record[1..3];
    assert record[..|record|] == record && record[|record|..] == [];
  }

  lemma ChangeCipherSpecIsRecord()
    ensures IsRecord(CHANGE_CIPHER_SPEC)
  {
    var ccs := CHANGE_CIPHER_SPEC;
    assert ccs[3..5] == [0, 1] && ccs[1..3] == [3, 3];
    assert FromBig([0, 1]) == 1 by {
      assert [0, 1][..1] == [0] && [0][..0] == [];
      assert FromBig([0]) == 0;
    }
    assert ccs[..6] == ccs && ccs[6..] == [];
  }

  /** The three parts of a flight, the middle one fixed, and what follows them. */
  predicate Parts(input: Bytes, server: Bytes, noise: Bytes, rest: Bytes) {
    input == server + [0x14, 0x03, 0x03, 0x00, 0x01, 0x01] + noise + rest
  }

  /** Run the handshake after the hello on what the server sends. */
  method Handshake(mac: Mac, secret: Bytes, hello: Bytes, random: Bytes, input: Bytes)
    returns (verdict: Verdict, output: Bytes)
    requires |secret| > 17
    ensures verdict.Accepted? ==>
              exists server, noise :: Parts(input, server, noise, verdict.rest)
                                      && GoodReply(mac, secret, random, server, noise)
    ensures verdict.Rejected? ==>
              forall server, noise, rest :: Parts(input, server, noise, rest)
                                            ==> !GoodReply(mac, secret, random, server, noise)
    ensures output == hello + if verdict.Accepted? then [20, 3, 3, 0, 1, 1] else []
  {
    hide ReadRecord, SignedByServer, Digest;
    output := hello + [];
    verdict := Rejected;
    forall server, noise, rest | Parts(input, server, noise, rest)
                                 && GoodReply(mac, secret, random, server, noise)
      ensures Flight(input, server, noise, rest)
    {
      FlightIsRead(input, server, noise, rest);
    }
    var serverReading := ReadRecord(input);
    if serverReading.Err? {
      return;
    }
    ReadRecordWhole(input);
    var server := serverReading.value.record;
    if |server| < 44 || server[0] != 22 || server[5] != 2 {
      return;
    }
    var ccsReading := ReadRecord(serverReading.value.rest);
    if ccsReading.Err? || ccsReading.value.record != CHANGE_CIPHER_SPEC {
      return;
    }
    ReadRecordWhole(serverReading.value.rest);
    var noiseReading := ReadRecord(ccsReading.value.rest);
    ReadRecordShape(ccsReading.value.rest);
    if noiseReading.Err? || noiseReading.value.record[0] != 23 {
      return;
    }
    ReadRecordWhole(ccsReading.value.rest);
    var noise := noiseReading.value.record;
    var received := server[11..43];
    var unsigned := server[..11] + Zeros(32) + server[43..] + CHANGE_CIPHER_SPEC + noise;
    var expected := Digest(mac, secret[1..17], random + unsigned);
    assert random + unsigned == SignedByServer(random, server, noise) by {
      SignedParts(random, server, noise);
    }
    if received != expected {
      return;
    }
    assert Parts(input, server, noise, noiseReading.value.rest);
    assert GoodReply(mac, secret, random, server, noise);
    output := output + CHANGE_CIPHER_SPEC;
    verdict := Accepted(noiseReading.value.rest);
  }

  /** The three records of a flight come off the input one after the other. */
  predicate Flight(input: Bytes, server: Bytes, noise: Bytes, rest: Bytes) {
    && ReadRecord(input) == Ok(Reading(server, CHANGE_CIPHER_SPEC + noise + rest))
    && ReadRecord(CHANGE_CIPHER_SPEC + noise + rest) == Ok(Reading(CHANGE_CIPHER_SPEC, noise + rest))
    && ReadRecord(noise + rest) == Ok(Reading(noise, rest))
  }

  lemma FlightIsRead(input: Bytes, server: Bytes, noise: Bytes, rest: Bytes)
    requires input == server + CHANGE_CIPHER_SPEC + noise + rest && IsRecord(server) && IsRecord(noise)
    ensures Flight(input, server, noise, rest)
  {
    hide ReadRecord;
    assert input == server + (CHANGE_CIPHER_SPEC + noise + rest);
    assert CHANGE_CIPHER_SPEC + noise + rest == CHANGE_CIPHER_SPEC + (noise + rest);
    ReadRecordPrefix(server, CHANGE_CIPHER_SPEC + noise + rest);
    ChangeCipherSpecIsRecord();
    ReadRecordPrefix(CHANGE_CIPHER_SPEC, noise + rest);
    ReadRecordPrefix(noise, rest);
  }

  lemma SignedParts(random: Bytes, server: Bytes, noise: Bytes)
    requires |server| >= 43
    ensures SignedByServer(random, server, noise)
            == random + (server[..11] + Zeros(32) + server[43..] + CHANGE_CIPHER_SPEC + noise)
  {
  }

  /** A server that knows the secret signs its flight with the field zeroed and
      fills the signature in. */
  function Signed(mac: Mac, secret: Bytes, random: Bytes, blank: Bytes, noise: Bytes): Bytes
    requires |secret| > 17 && |blank| >= 43
  {
    blank[..11] + Digest(mac, secret[1..17], SignedByServer(random, blank, noise)) + blank[43..]
  }

  /** Main result.  Whatever hello a server sends, filling its random field with
      the signature makes the reply good, and no other filling does; so an
      honest server is always accepted. */
  lemma HonestServerIsAccepted(mac: Mac, secret: Bytes, random: Bytes, blank: Bytes, noise: Bytes, field: Bytes)
    requires |secret| > 17 && IsServerHello(blank) && IsRecord(noise) && noise[0] == 23 && |field| == 32
    ensures var server := blank[..11] + field + blank[43..];
            GoodReply(mac, secret, random, server, noise) <==> server == Signed(mac, secret, random, blank, noise)
  {
    hide FromBig;
    var server := blank[..11] + field + blank[43..];
    assert server[3..5] == blank[3..5] && server[1..3] == blank[1..3];
    assert server[..|server|] == server && server[|server|..] == [];
    assert IsServerHello(server);
    assert server[11..43] == field;
    assert Unsigned(server) == Unsigned(blank);
    var signature := Digest(mac, secret[1..17], SignedByServer(random, blank, noise));
    assert Signed(mac, secret, random, blank, noise)[11..43] == signature;
  }
}
