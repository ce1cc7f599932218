/**
 The registration datagram that a client sends to the GGPO UDP relay: the client-side encoder of
 src/session/sf4e__GgpoTransport.cxx and the relay-side decoder of src/relay/ggpo_udp_relay.cxx.
 Characters are bytes; integers are unsigned 64-bit values written most significant byte first.
 */
module RegistrationCodec {

  import opened Common

  type byte = x: int | 0 <= x < 256

  const TWO_TO_THE_64 := 0x1_0000_0000_0000_0000
  const TWO_TO_THE_63 := 0x8000_0000_0000_0000
  const TOKEN_LENGTH := 32
  const MAX_PACKET := 2048
  const REG_LENGTH_LEGACY := 4 + 32
  const REG_LENGTH_V2 := 4 + 32 + 2
  const REG_LENGTH_V3 := 4 + 32 + 1 + 1 + 8 + 8
  const REGISTRATION_VERSION_V3: byte := 3

  /** "SF4G" */
  const MAGIC_REG: seq<byte> := [83, 70, 52, 71]
  /** "SF4H" */
  const MAGIC_HEALTH: seq<byte> := [83, 70, 52, 72]

  // ----- Big-endian numbers -----

  function Pow256(n: nat): (p: nat)
    ensures p > 0
  {
    if n == 0 then 1 else 256 * Pow256(n - 1)
  }

  /** The number whose base-256 digits are bs, most significant first. */
  function BigEndian(bs: seq<byte>): nat {
    if bs == [] then 0 else BigEndian(bs[..|bs| - 1]) * 256 + bs[|bs| - 1]
  }

  /** The n low-order base-256 digits of value, most significant first. */
  function Digits(value: nat, n: nat): (bs: seq<byte>)
    ensures |bs| == n
  {
    if n == 0 then [] else Digits(value / 256, n - 1) + [value % 256]
  }

  lemma {:induction false} BigEndianBound(bs: seq<byte>)
    ensures BigEndian(bs) < Pow256(|bs|)
  {
    if bs != [] {
      BigEndianBound(bs[..|bs| - 1]);
    }
  }

  lemma {:induction false} DigitsRoundTrip(value: nat, n: nat)
    requires value < Pow256(n)
    ensures BigEndian(Digits(value, n)) == value
  {
    if n > 0 {
      DigitsRoundTrip(value / 256, n - 1);
      assert Digits(value, n)[..n - 1] == Digits(value / 256, n - 1);
    }
  }

  lemma {:induction false} BigEndianRoundTrip(bs: seq<byte>)
    ensures Digits(BigEndian(bs), |bs|) == bs
  {
    if bs != [] {
      BigEndianRoundTrip(bs[..|bs| - 1]);
      assert BigEndian(bs) / 256 == BigEndian(bs[..|bs| - 1]);
    }
  }

  lemma Pow256Of8()
    ensures Pow256(8) == TWO_TO_THE_64
  {
    assert Pow256(4) == 0x1_0000_0000;
    assert Pow256(6) == 0x1_0000_0000_0000;
  }

  /** The relay's reader. The shift is the 64-bit one; eight bytes never overflow it. */
  method ReadU64Be(data: seq<byte>) returns (value: nat)
    requires |data| == 8
    ensures value == BigEndian(data)
    ensures value < TWO_TO_THE_64
  {
    value := 0;
    for i := 0 to 8
      invariant value == BigEndian(data[..i])
    {
      assert data[..i + 1][..i] == data[..i];
      assert value * 256 < TWO_TO_THE_64 by {
        BigEndianBound(data[..i]);
        Pow256Monotone(i, 7);
        Pow256Of8();
      }
      value := value * 256 % TWO_TO_THE_64 + data[i];
    }
    assert data[..8] == data;
    BigEndianBound(data);
    Pow256Of8();
  }

  lemma {:induction false} Pow256Monotone(m: nat, n: nat)
    requires m <= n
    ensures Pow256(m) <= Pow256(n)
  {
    if m < n {
      Pow256Monotone(m, n - 1);
    }
  }

  /** The client's writer: fills eight bytes from the last one to the first. */
  method WriteU64Be(out: array<byte>, at: nat, number: nat)
    requires at + 8 <= out.Length
    modifies out
    ensures out[at..at + 8] == Digits(number, 8)
    ensures out[..at] == old(out[..at])
    ensures out[at + 8..] == old(out[at + 8..])
  {
    var value := number;
    var i := 7;
    while i >= 0
      invariant -1 <= i <= 7
      invariant Digits(number, 8) == Digits(value, i + 1) + out[at + i + 1..at + 8]
      invariant out[..at] == old(out[..at])
      invariant out[at + 8..] == old(out[at + 8..])
    {
      ghost var tail := out[at + i + 1..at + 8];
      out[at + i] := value % 256;
      assert out[at + i..at + 8] == [value % 256] + tail;
      value := value / 256;
      i := i - 1;
    }
    assert Digits(value, 0) == [];
  }

  // ----- The 54-byte packet -----

  /** The layout of a version 3 registration. */
  function Registration(token: seq<byte>, slot: byte, ready0: nat, ready1: nat): seq<byte> {
    MAGIC_REG + token + [REGISTRATION_VERSION_V3, slot] + Digits(ready0, 8) + Digits(ready1, 8)
  }

  /**
   The client refuses to register without a relay host, a 32-character token, a bound local port, a
   player slot and the ready numbers of a match in which both players are ready. A missing token has
   length 0, a missing host is None.
   */
  predicate ValidContext(relayHost: Option<seq<byte>>, token: seq<byte>, localPort: nat, slot: nat, ready0: int, ready1: int) {
    relayHost.Some? && relayHost.value != [] && |token| == TOKEN_LENGTH && localPort != 0 && slot <= 1 && ready0 >= 0 && ready1 >= 0
  }

  method BuildRegistration(relayHost: Option<seq<byte>>, token: seq<byte>, localPort: nat, slot: nat, ready0: int, ready1: int)
    returns (packet: Option<array<byte>>)
    requires -TWO_TO_THE_63 <= ready0 < TWO_TO_THE_63 && -TWO_TO_THE_63 <= ready1 < TWO_TO_THE_63
    ensures packet.Some? <==> ValidContext(relayHost, token, localPort, slot, ready0, ready1)
    ensures packet.Some? ==> packet.value[..] == Registration(token, slot, ready0, ready1)
  {
    if relayHost.None? || |relayHost.value| == 0 || |token| != TOKEN_LENGTH || localPort == 0 || slot > 1 || ready0 < 0 || ready1 < 0 {
      return None;
    }
    var head := MAGIC_REG + token + [REGISTRATION_VERSION_V3, slot];
    var buffer := new byte[REG_LENGTH_V3](i => if 0 <= i < |head| then head[i] else 0);
    assert buffer[..38] == head;
    WriteU64Be(buffer, 38, ready0);
    assert buffer[..46] == head + Digits(ready0, 8) by {
      assert buffer[..46] == buffer[..38] + buffer[38..46];
    }
    WriteU64Be(buffer, 46, ready1);
    assert buffer[..] == buffer[..46] + buffer[46..54];
    packet := Some(buffer);
  }

  // ----- What the relay makes of a datagram -----

  datatype GenerationKey = GenerationKey(ready0: nat, ready1: nat)

  type PlayerSlot = s: int | 0 <= s < 2

  datatype Datagram =
    | HealthProbe
    | RegisterV3(slot: PlayerSlot, key: GenerationKey)
    | RegisterByEndpoint(declaredPort: nat) // legacy (declared port 0) and version 2
    | Payload
    | Dropped

  function ToLower(b: byte): byte {
    if 65 <= b <= 90 then b + 32 else b
  }

  predicate TokenMatches(expected: seq<byte>, received: seq<byte>)
    requires |expected| == |received| == TOKEN_LENGTH
  {
    forall i | 0 <= i < TOKEN_LENGTH :: ToLower(expected[i]) == ToLower(received[i])
  }

  /** recvfrom cuts a longer datagram at the size of the buffer. */
  function Receivable(datagram: seq<byte>): seq<byte> {
    if |datagram| > MAX_PACKET then datagram[..MAX_PACKET] else datagram
  }

  function Classify(token: seq<byte>, buf: seq<byte>): Datagram
    requires |token| == TOKEN_LENGTH
  {
    if |buf| == 0 then
      Dropped
    else if buf == MAGIC_HEALTH then
      HealthProbe
    else if |buf| == REG_LENGTH_V3 && buf[..4] == MAGIC_REG && buf[36] == REGISTRATION_VERSION_V3 then
      if !TokenMatches(token, buf[4..36]) || buf[37] > 1 then
        Dropped
      else
        RegisterV3(buf[37], GenerationKey(BigEndian(buf[38..46]), BigEndian(buf[46..54])))
    else if (|buf| == REG_LENGTH_LEGACY || |buf| == REG_LENGTH_V2) && buf[..4] == MAGIC_REG then
      if !TokenMatches(token, buf[4..36]) then
        Dropped
      else
        RegisterByEndpoint(if |buf| == REG_LENGTH_V2 then BigEndian(buf[36..38]) else 0)
    else
      Payload
  }

  /** The same byte, or the two cases of one letter. */
  predicate SameButForCase(a: byte, b: byte) {
    a == b || (65 <= a <= 90 && b == a + 32) || (65 <= b <= 90 && a == b + 32)
  }

  /** A datagram's token is the relay's, up to letter case. */
  predicate SameToken(expected: seq<byte>, received: seq<byte>) {
    && |expected| == |received| == TOKEN_LENGTH
    && forall i | 0 <= i < TOKEN_LENGTH :: SameButForCase(expected[i], received[i])
  }

  lemma TokenMatchesIffSame(expected: seq<byte>, received: seq<byte>)
    requires |expected| == |received| == TOKEN_LENGTH
    ensures TokenMatches(expected, received) <==> SameToken(expected, received)
  {
    forall i | 0 <= i < TOKEN_LENGTH
      ensures ToLower(expected[i]) == ToLower(received[i]) <==> SameButForCase(expected[i], received[i])
    {}
  }

  /**
   Codec round trip: whatever the slot and the two 64-bit ready numbers, the relay decodes exactly
   what the client encoded, provided the tokens agree up to letter case. Otherwise it drops it.
   */
  lemma RegistrationRoundTrip(token: seq<byte>, sent: seq<byte>, slot: byte, ready0: nat, ready1: nat)
    requires |token| == |sent| == TOKEN_LENGTH && slot <= 1
    requires ready0 < TWO_TO_THE_64 && ready1 < TWO_TO_THE_64
    ensures Classify(token, Registration(sent, slot, ready0, ready1)) ==
            if SameToken(token, sent) then RegisterV3(slot, GenerationKey(ready0, ready1)) else Dropped
  {
    TokenMatchesIffSame(token, sent);
    var buf := Registration(sent, slot, ready0, ready1);
    assert buf[..4] == MAGIC_REG;
    assert buf[4..36] == sent;
    assert buf[38..46] == Digits(ready0, 8);
    assert buf[46..54] == Digits(ready1, 8);
    Pow256Of8();
    DigitsRoundTrip(ready0, 8);
    DigitsRoundTrip(ready1, 8);
  }

  // ----- Clients before version 3 -----

  /** A legacy registration: the token alone. */
  function RegistrationLegacy(sent: seq<byte>): seq<byte> {
    MAGIC_REG + sent
  }

  /** A version 2 registration: the token and the port the client declares. */
  function RegistrationV2(sent: seq<byte>, port: nat): seq<byte> {
    MAGIC_REG + sent + Digits(port, 2)
  }

  const TWO_TO_THE_16 := 65536

  lemma LegacyRoundTrip(token: seq<byte>, sent: seq<byte>)
    requires |token| == |sent| == TOKEN_LENGTH
    ensures Classify(token, RegistrationLegacy(sent)) == if SameToken(token, sent) then RegisterByEndpoint(0) else Dropped
  {
    var buf := RegistrationLegacy(sent);
    assert buf[..4] == MAGIC_REG && buf[4..36] == sent;
    TokenMatchesIffSame(token, sent);
  }

  lemma V2RoundTrip(token: seq<byte>, sent: seq<byte>, port: nat)
    requires |token| == |sent| == TOKEN_LENGTH && port < TWO_TO_THE_16
    ensures Classify(token, RegistrationV2(sent, port)) == if SameToken(token, sent) then RegisterByEndpoint(port) else Dropped
  {
    var buf := RegistrationV2(sent, port);
    assert buf[..4] == MAGIC_REG && buf[4..36] == sent && buf[36..38] == Digits(port, 2);
    TokenMatchesIffSame(token, sent);
    assert Pow256(2) == TWO_TO_THE_16;
    DigitsRoundTrip(port, 2);
  }

  /** The datagram registers without a slot, for the port it declares: it has one of the two older forms and the token. */
  ghost predicate RegistersPort(token: seq<byte>, buf: seq<byte>, port: nat) {
    exists sent | SameToken(token, sent) ::
      || (port == 0 && buf == RegistrationLegacy(sent))
      || (port < TWO_TO_THE_16 && buf == RegistrationV2(sent, port))
  }

  /** Exactly those datagrams are taken as registrations of the older versions. */
  lemma RegistersByEndpointExactly(token: seq<byte>, buf: seq<byte>, port: nat)
    requires |token| == TOKEN_LENGTH
    ensures Classify(token, buf) == RegisterByEndpoint(port) <==> RegistersPort(token, buf, port)
  {
    if RegistersPort(token, buf, port) {
      var sent :| SameToken(token, sent)
                  && (|| (port == 0 && buf == RegistrationLegacy(sent))
                      || (port < TWO_TO_THE_16 && buf == RegistrationV2(sent, port)));
      LegacyRoundTrip(token, sent);
      if port < TWO_TO_THE_16 {
        V2RoundTrip(token, sent, port);
      }
    }
    if Classify(token, buf) == RegisterByEndpoint(port) {
      var sent := buf[4..36];
      TokenMatchesIffSame(token, sent);
      if |buf| == REG_LENGTH_V2 {
        BigEndianBound(buf[36..38]);
        assert Pow256(2) == TWO_TO_THE_16;
        BigEndianRoundTrip(buf[36..38]);
        assert buf == buf[..4] + sent + buf[36..38];
        assert buf == RegistrationV2(sent, port);
      } else {
        assert buf == buf[..4] + sent;
        assert buf == RegistrationLegacy(sent);
      }
    }
  }

  // ----- Accepted packets -----

  lemma BytesRoundTrip(bs: seq<byte>)
    requires |bs| == 8
    ensures BigEndian(bs) < TWO_TO_THE_64 && Digits(BigEndian(bs), 8) == bs
  {
    Pow256Of8();
    BigEndianBound(bs);
    BigEndianRoundTrip(bs);
  }

  lemma PacketParts(buf: seq<byte>)
    requires |buf| == REG_LENGTH_V3
    ensures buf == buf[..4] + buf[4..36] + [buf[36], buf[37]] + buf[38..46] + buf[46..54]
  {}

  /** Conversely every accepted version 3 registration is, token case aside, one the encoder produces. */
  lemma AcceptedIsEncoded(token: seq<byte>, buf: seq<byte>)
    requires |token| == TOKEN_LENGTH
    requires Classify(token, buf).RegisterV3?
    ensures var d := Classify(token, buf);
            && d.key.ready0 < TWO_TO_THE_64 && d.key.ready1 < TWO_TO_THE_64
            && SameToken(token, buf[4..36])
            && buf == Registration(buf[4..36], d.slot, d.key.ready0, d.key.ready1)
  {
    TokenMatchesIffSame(token, buf[4..36]);
    PacketParts(buf);
    BytesRoundTrip(buf[38..46]);
    BytesRoundTrip(buf[46..54]);
  }
}
