/**
 The relay as its clients meet it: whole histories of raw datagrams, decoded with the room token of
 the relay. What foreign datagrams can do, and two clients of any version talking to each other.
 */
module UdpRelayBytes {

  import opened Common
  import opened RegistrationCodec
  import opened UdpRelay
  import opened UdpRelayGenerations
  import opened UdpRelayLegacy

  datatype Packet = Packet(from: Endpoint, bytes: seq<byte>)

  function Decoded(token: Token, h: seq<Packet>): (events: seq<Event>)
    ensures |events| == |h|
    ensures forall i | 0 <= i < |h| :: events[i] == Decode(token, h[i].from, h[i].bytes)
  {
    seq(|h|, i requires 0 <= i < |h| => Decode(token, h[i].from, h[i].bytes))
  }

  /** The relay's state after receiving every packet of h, and its answer to one more. */
  function After(token: Token, h: seq<Packet>): RelayState {
    Run(Decoded(token, h))
  }

  function Reply(token: Token, h: seq<Packet>, packet: Packet): Output {
    Answer(Decoded(token, h), Decode(token, packet.from, packet.bytes))
  }

  lemma DecodedConcat(token: Token, a: seq<Packet>, b: seq<Packet>)
    ensures Decoded(token, a + b) == Decoded(token, a) + Decoded(token, b)
  {}

  lemma AfterStep(token: Token, h: seq<Packet>, packet: Packet)
    ensures After(token, h + [packet]) == Step(After(token, h), Decode(token, packet.from, packet.bytes)).0
  {
    DecodedConcat(token, h, [packet]);
    assert Decoded(token, [packet]) == [Decode(token, packet.from, packet.bytes)];
    RunStep(Decoded(token, h), Decode(token, packet.from, packet.bytes));
  }

  // ----- Datagrams that are no business of the room -----

  /** "SF4G", a token, and what one of the three registration versions has after it. */
  predicate IsRegistration(bytes: seq<byte>, sent: seq<byte>, rest: seq<byte>) {
    && bytes == MAGIC_REG + sent + rest && |sent| == TOKEN_LENGTH
    && (|rest| == 0 || |rest| == 2 || (|rest| == 18 && rest[0] == 3))
  }

  lemma RegistrationParts(bytes: seq<byte>, sent: seq<byte>, rest: seq<byte>)
    requires IsRegistration(bytes, sent, rest)
    ensures bytes[..4] == MAGIC_REG && bytes[4..36] == sent && bytes[36..] == rest
    ensures |rest| == 18 ==> bytes[36] == 3
    ensures Receivable(bytes) == bytes
  {}

  /** A registration of any version with another room's token changes nothing and is not answered. */
  lemma ForeignTokenIgnored(token: Token, h: seq<Packet>, packet: Packet, sent: seq<byte>, rest: seq<byte>)
    requires IsRegistration(packet.bytes, sent, rest) && !SameToken(token, sent)
    ensures After(token, h + [packet]) == After(token, h) && Reply(token, h, packet) == Silent
  {
    RegistrationParts(packet.bytes, sent, rest);
    TokenMatchesIffSame(token, sent);
    AfterStep(token, h, packet);
  }

  /** A registration of any version with the room's token, whose slot exists, is a registration. */
  lemma OwnTokenRegisters(token: Token, h: seq<Packet>, packet: Packet, sent: seq<byte>, rest: seq<byte>)
    requires IsRegistration(packet.bytes, sent, rest) && SameToken(token, sent)
    ensures var d := Decode(token, packet.from, packet.bytes).datagram;
            && (|rest| <= 2 ==> d.RegisterByEndpoint?)
            && (|rest| == 18 && rest[1] <= 1 ==> d.RegisterV3? && d.slot == rest[1])
            && (|rest| == 18 && rest[1] > 1 ==> After(token, h + [packet]) == After(token, h) && Reply(token, h, packet) == Silent)
  {
    RegistrationParts(packet.bytes, sent, rest);
    TokenMatchesIffSame(token, sent);
    AfterStep(token, h, packet);
    assert |rest| == 18 ==> packet.bytes[37] == packet.bytes[36..][1];
  }

  lemma HealthAnswered(token: Token, h: seq<Packet>, packet: Packet)
    requires packet.bytes == MAGIC_HEALTH
    ensures After(token, h + [packet]) == After(token, h) && Reply(token, h, packet) == HealthOk
  {
    AfterStep(token, h, packet);
  }

  /** A game datagram: neither empty nor a health probe nor one that reads as a registration. */
  ghost predicate IsGameDatagram(bytes: seq<byte>) {
    bytes != [] && bytes != MAGIC_HEALTH && forall sent, rest :: !IsRegistration(bytes, sent, rest)
  }

  lemma GameDatagramIsPayload(token: Token, from: Endpoint, bytes: seq<byte>)
    requires IsGameDatagram(bytes) && |bytes| <= MAX_PACKET
    ensures Decode(token, from, bytes) == Event(from, Payload, bytes)
  {
    if |bytes| in {36, 38, 54} && bytes[..4] == MAGIC_REG && (|bytes| == 54 ==> bytes[36] == 3) {
      assert bytes == bytes[..4] + bytes[4..36] + bytes[36..];
      assert IsRegistration(bytes, bytes[4..36], bytes[36..]);
      assert false;
    }
  }

  /**
   Only a health probe is answered as one, and only a registration as a registration; whatever is
   forwarded is the datagram received, byte for byte, up to the 2048 bytes the relay reads.
   */
  lemma AnsweredInKind(token: Token, h: seq<Packet>, packet: Packet)
    ensures Reply(token, h, packet) == HealthOk <==> packet.bytes == MAGIC_HEALTH
    ensures Reply(token, h, packet) in {Registered, Waiting} ==>
              exists sent, rest :: IsRegistration(packet.bytes, sent, rest) && SameToken(token, sent)
    ensures Reply(token, h, packet).Forwarded? ==>
              && Reply(token, h, packet).payload <= packet.bytes
              && |Reply(token, h, packet).payload| == if |packet.bytes| <= 2048 then |packet.bytes| else 2048
  {
    var bytes := packet.bytes;
    var d := Classify(token, Receivable(bytes));
    if d.RegisterV3? || d.RegisterByEndpoint? {
      assert Receivable(bytes) == bytes;
      TokenMatchesIffSame(token, bytes[4..36]);
      assert bytes == bytes[..4] + bytes[4..36] + bytes[36..];
      assert IsRegistration(bytes, bytes[4..36], bytes[36..]);
    }
  }

  // ----- Two clients talking -----

  /** A registration that a client of version 3 sends: any letter case of the token will do. */
  ghost predicate SentV3(token: Token, packet: Packet, client: Endpoint, slot: PlayerSlot, key: GenerationKey) {
    packet.from == client && exists sent :: SameToken(token, sent) && packet.bytes == Registration(sent, slot, key.ready0, key.ready1)
  }

  /** A legacy or version 2 registration that a client sends. */
  ghost predicate SentOlder(token: Token, packet: Packet, client: Endpoint) {
    packet.from == client && exists port: nat :: RegistersPort(token, packet.bytes, port)
  }

  lemma SentV3Decodes(token: Token, packet: Packet, client: Endpoint, slot: PlayerSlot, key: GenerationKey)
    requires key.ready0 < TWO_TO_THE_64 && key.ready1 < TWO_TO_THE_64 && SentV3(token, packet, client, slot, key)
    ensures ClientPacket(Decode(token, packet.from, packet.bytes), slot, key, client)
  {
    var sent :| SameToken(token, sent) && packet.bytes == Registration(sent, slot, key.ready0, key.ready1);
    RegistrationRoundTrip(token, sent, slot, key.ready0, key.ready1);
  }

  lemma SentOlderDecodes(token: Token, packet: Packet, client: Endpoint)
    requires SentOlder(token, packet, client)
    ensures var e := Decode(token, packet.from, packet.bytes); e.from == client && e.datagram.RegisterByEndpoint?
  {
    var port: nat :| RegistersPort(token, packet.bytes, port);
    RegistersByEndpointExactly(token, packet.bytes, port);
  }

  /** A registration with another room's token, or a health probe. */
  ghost predicate IsNoise(token: Token, packet: Packet) {
    || packet.bytes == MAGIC_HEALTH
    || exists sent, rest :: IsRegistration(packet.bytes, sent, rest) && !SameToken(token, sent)
  }

  lemma NoiseDecodes(token: Token, packet: Packet)
    requires IsNoise(token, packet)
    ensures var d := Decode(token, packet.from, packet.bytes).datagram; d == HealthProbe || d == Dropped
  {
    if packet.bytes != MAGIC_HEALTH {
      var sent, rest :| IsRegistration(packet.bytes, sent, rest) && !SameToken(token, sent);
      RegistrationParts(packet.bytes, sent, rest);
      TokenMatchesIffSame(token, sent);
    }
  }

  ghost predicate AnyOlder(token: Token, more: seq<Packet>, client: Endpoint) {
    exists j | 0 <= j < |more| :: SentOlder(token, more[j], client)
  }

  ghost predicate AnyV3(token: Token, more: seq<Packet>, client: Endpoint, slot: PlayerSlot, key: GenerationKey) {
    exists j | 0 <= j < |more| :: SentV3(token, more[j], client, slot, key)
  }

  /**
   Two clients of the older versions on a fresh relay: any loss, duplication and order of their
   registrations, among health probes and registrations with other rooms' tokens. Once one
   registration of each has arrived, every later one is answered SF4R, and each one's game datagrams
   reach the other unchanged.
   */
  lemma OlderClientsTalk(token: Token, more: seq<Packet>, a: Endpoint, b: Endpoint, packet: Packet)
    requires a != b
    requires forall j | 0 <= j < |more| ::
               SentOlder(token, more[j], a) || SentOlder(token, more[j], b) || IsNoise(token, more[j])
    requires AnyOlder(token, more, a) && AnyOlder(token, more, b)
    ensures SentOlder(token, packet, a) || SentOlder(token, packet, b) ==> Reply(token, more, packet) == Registered
    ensures IsGameDatagram(packet.bytes) && |packet.bytes| <= MAX_PACKET && packet.from == a ==>
              Reply(token, more, packet) == Forwarded(b, packet.bytes)
    ensures IsGameDatagram(packet.bytes) && |packet.bytes| <= MAX_PACKET && packet.from == b ==>
              Reply(token, more, packet) == Forwarded(a, packet.bytes)
  {
    var events, e := Decoded(token, more), Decode(token, packet.from, packet.bytes);
    OlderTraffic(token, more, a, b);
    assert RegisteredBy(events, a) by { OlderIsRegistered(token, more, a); }
    assert RegisteredBy(events, b) by { OlderIsRegistered(token, more, b); }
    assert [] + events == events;
    LegacyClientsPair([], events, a, b, e);
    if SentOlder(token, packet, a) { SentOlderDecodes(token, packet, a); }
    if SentOlder(token, packet, b) { SentOlderDecodes(token, packet, b); }
    if IsGameDatagram(packet.bytes) && |packet.bytes| <= MAX_PACKET {
      GameDatagramIsPayload(token, packet.from, packet.bytes);
    }
  }

  lemma OlderTraffic(token: Token, more: seq<Packet>, a: Endpoint, b: Endpoint)
    requires forall j | 0 <= j < |more| ::
               SentOlder(token, more[j], a) || SentOlder(token, more[j], b) || IsNoise(token, more[j])
    ensures forall e | e in Decoded(token, more) :: PairingTraffic(e, a, b)
  {
    forall e | e in Decoded(token, more) ensures PairingTraffic(e, a, b) {
      var j :| 0 <= j < |more| && Decoded(token, more)[j] == e;
      if SentOlder(token, more[j], a) {
        SentOlderDecodes(token, more[j], a);
      } else if SentOlder(token, more[j], b) {
        SentOlderDecodes(token, more[j], b);
      } else {
        NoiseDecodes(token, more[j]);
      }
    }
  }

  lemma OlderIsRegistered(token: Token, more: seq<Packet>, client: Endpoint)
    requires AnyOlder(token, more, client)
    ensures RegisteredBy(Decoded(token, more), client)
  {
    var j :| 0 <= j < |more| && SentOlder(token, more[j], client);
    SentOlderDecodes(token, more[j], client);
    assert Decoded(token, more)[j] in Decoded(token, more);
  }

  /** The same for version 3, on a relay with any past and among any datagrams that are not of version 3. */
  lemma V3ClientsTalk(token: Token, h: seq<Packet>, more: seq<Packet>, key: GenerationKey, clients: (Endpoint, Endpoint), packet: Packet)
    requires clients.0 != clients.1 && key.ready0 < TWO_TO_THE_64 && key.ready1 < TWO_TO_THE_64
    requires forall j | 0 <= j < |more| ::
               || SentV3(token, more[j], clients.0, 0, key) || SentV3(token, more[j], clients.1, 1, key)
               || IsNoise(token, more[j]) || |more[j].bytes| != REG_LENGTH_V3
    requires AnyV3(token, more, clients.0, 0, key) && AnyV3(token, more, clients.1, 1, key)
    ensures SentV3(token, packet, clients.0, 0, key) || SentV3(token, packet, clients.1, 1, key) ==>
              Reply(token, h + more, packet) == Registered
    ensures IsGameDatagram(packet.bytes) && |packet.bytes| <= MAX_PACKET && packet.from == clients.0 ==>
              Reply(token, h + more, packet) == Forwarded(clients.1, packet.bytes)
    ensures IsGameDatagram(packet.bytes) && |packet.bytes| <= MAX_PACKET && packet.from == clients.1 ==>
              Reply(token, h + more, packet) == Forwarded(clients.0, packet.bytes)
  {
    var e := Decode(token, packet.from, packet.bytes);
    DecodedConcat(token, h, more);
    V3Traffic(token, more, key, clients);
    V3IsRegistered(token, more, clients.0, 0, key);
    V3IsRegistered(token, more, clients.1, 1, key);
    TwoClientsPair(Decoded(token, h), Decoded(token, more), key, clients, e);
    if SentV3(token, packet, clients.0, 0, key) { SentV3Decodes(token, packet, clients.0, 0, key); }
    if SentV3(token, packet, clients.1, 1, key) { SentV3Decodes(token, packet, clients.1, 1, key); }
    if IsGameDatagram(packet.bytes) && |packet.bytes| <= MAX_PACKET {
      GameDatagramIsPayload(token, packet.from, packet.bytes);
    }
  }

  lemma V3Traffic(token: Token, more: seq<Packet>, key: GenerationKey, clients: (Endpoint, Endpoint))
    requires key.ready0 < TWO_TO_THE_64 && key.ready1 < TWO_TO_THE_64
    requires forall j | 0 <= j < |more| ::
               || SentV3(token, more[j], clients.0, 0, key) || SentV3(token, more[j], clients.1, 1, key)
               || IsNoise(token, more[j]) || |more[j].bytes| != REG_LENGTH_V3
    ensures forall j | 0 <= j < |more| :: OneGeneration(Decoded(token, more)[j], key, clients)
  {
    forall j | 0 <= j < |more| ensures OneGeneration(Decoded(token, more)[j], key, clients) {
      if SentV3(token, more[j], clients.0, 0, key) {
        SentV3Decodes(token, more[j], clients.0, 0, key);
      } else if SentV3(token, more[j], clients.1, 1, key) {
        SentV3Decodes(token, more[j], clients.1, 1, key);
      } else if IsNoise(token, more[j]) {
        NoiseDecodes(token, more[j]);
      }
    }
  }

  lemma V3IsRegistered(token: Token, more: seq<Packet>, client: Endpoint, slot: PlayerSlot, key: GenerationKey)
    requires key.ready0 < TWO_TO_THE_64 && key.ready1 < TWO_TO_THE_64 && AnyV3(token, more, client, slot, key)
    ensures HasRegistered(Decoded(token, more), slot, key, client)
  {
    var j :| 0 <= j < |more| && SentV3(token, more[j], client, slot, key);
    SentV3Decodes(token, more[j], client, slot, key);
    assert ClientPacket(Decoded(token, more)[j], slot, key, client);
  }
}
