/** Legacy and version 2 pairing by endpoint, address or declared port, while no generation is active. */
module UdpRelayLegacy {

  import opened Common
  import opened RegistrationCodec
  import opened UdpRelay
  import opened UdpRelayGenerations

  predicate DistinctEndpoints(slots: Slots) {
    BothActive(slots) ==> slots[0] != slots[1]
  }

  lemma StepKeepsDistinctEndpoints(st: RelayState, packet: Event)
    requires DistinctEndpoints(st.slots)
    ensures DistinctEndpoints(Step(st, packet).0.slots)
  {
  }

  /**
   Through registrations, rematch rebinds and data-plane rebinds by address the two active legacy
   slots always hold different endpoints, so no client is ever paired with itself.
   */
  lemma {:induction false} DistinctEndpointsAlways(h: seq<Event>)
    ensures DistinctEndpoints(Run(h).slots)
  {
    if h != [] {
      DistinctEndpointsAlways(h[..|h| - 1]);
      StepKeepsDistinctEndpoints(Run(h[..|h| - 1]), h[|h| - 1]);
    }
  }

  /**
   A legacy registration is answered SF4R exactly when the sender and a peer both hold a slot
   afterwards, SF4W when only the sender does, and not at all when no slot could be chosen.
   */
  lemma LegacyAnswer(h: seq<Event>, packet: Event)
    requires packet.datagram.RegisterByEndpoint?
    ensures var slots := Run(h + [packet]).slots;
            && (Answer(h, packet) == Registered <==> Some(packet.from) in slots && BothActive(slots))
            && (Answer(h, packet) == Waiting <==> Some(packet.from) in slots && !BothActive(slots))
            && (Answer(h, packet) == Silent <==> Some(packet.from) !in slots)
  {
    assert (h + [packet])[..|h|] == h;
    var st := Run(h);
    var slot := SlotForRegistration(st.slots, packet.from, packet.datagram.declaredPort);
    if slot >= 0 {
      assert Run(h + [packet]).slots[slot] == Some(packet.from);
    }
  }

  /** A keepalive, that is a registration from an endpoint that already holds a slot, changes no state. */
  lemma KeepaliveChangesNothing(h: seq<Event>, packet: Event)
    requires packet.datagram.RegisterByEndpoint?
    requires Some(packet.from) in Run(h).slots
    ensures Run(h + [packet]) == Run(h)
  {
    assert (h + [packet])[..|h|] == h;
    var slots := Run(h).slots;
    var slot := SlotByEndpoint(slots, packet.from);
    assert slots[slot := Some(packet.from)] == slots;
  }

  /** The slot, and no other active one, has the address. */
  predicate AloneAtIp(slots: Slots, mine: PlayerSlot, ip: int) {
    && slots[mine].Some? && slots[mine].value.ip == ip
    && (slots[1 - mine].Some? ==> slots[1 - mine].value.ip != ip)
  }

  /** The slot, and no other active one, has the port. */
  predicate AloneAtPort(slots: Slots, mine: PlayerSlot, port: int) {
    && slots[mine].Some? && slots[mine].value.port == port
    && (slots[1 - mine].Some? ==> slots[1 - mine].value.port != port)
  }

  /** The slot that a registration from a new endpoint means when both are taken: by address, or else by declared port. */
  predicate Retakes(slots: Slots, mine: PlayerSlot, packet: Event)
    requires packet.datagram.RegisterByEndpoint?
  {
    || AloneAtIp(slots, mine, packet.from.ip)
    || (&& (forall s: PlayerSlot :: !AloneAtIp(slots, s, packet.from.ip))
        && packet.datagram.declaredPort != 0 && AloneAtPort(slots, mine, packet.datagram.declaredPort))
  }

  lemma RetakeStep(st: RelayState, packet: Event)
    requires packet.datagram.RegisterByEndpoint? && BothActive(st.slots) && Some(packet.from) !in st.slots
    ensures forall mine: PlayerSlot | Retakes(st.slots, mine, packet) ::
              var (st', out) := Step(st, packet);
              st'.slots[mine] == Some(packet.from) && st'.slots[1 - mine] == None && out == Waiting
    ensures (forall mine: PlayerSlot :: !Retakes(st.slots, mine, packet)) ==> Step(st, packet) == (st, Silent)
  {
    var slots, ip, port := st.slots, packet.from.ip, packet.datagram.declaredPort;
    assert AloneAtIp(slots, 0, ip) <==> slots[0].value.ip == ip && slots[1].value.ip != ip;
    assert AloneAtIp(slots, 1, ip) <==> slots[1].value.ip == ip && slots[0].value.ip != ip;
    assert AloneAtPort(slots, 0, port) <==> slots[0].value.port == port && slots[1].value.port != port;
    assert AloneAtPort(slots, 1, port) <==> slots[1].value.port == port && slots[0].value.port != port;
    if Retakes(slots, 0, packet) {
      assert SlotForRegistration(slots, packet.from, port) == 0;
    } else if Retakes(slots, 1, packet) {
      assert SlotForRegistration(slots, packet.from, port) == 1;
    } else {
      assert SlotForRegistration(slots, packet.from, port) < 0;
    }
  }

  /**
   A rematch: when both slots are taken and a registration comes from a new endpoint, it takes over
   the one slot that alone has its address, or else the one slot that alone has the port it declares;
   the peer must then register again, and until it does the relay answers SF4W. When neither singles
   out a slot, nothing changes and nothing is answered.
   */
  lemma RematchInvalidatesPeer(h: seq<Event>, packet: Event)
    requires packet.datagram.RegisterByEndpoint?
    requires BothActive(Run(h).slots) && Some(packet.from) !in Run(h).slots
    ensures forall mine: PlayerSlot | Retakes(Run(h).slots, mine, packet) ::
              var slots := Run(h + [packet]).slots;
              slots[mine] == Some(packet.from) && slots[1 - mine] == None && Answer(h, packet) == Waiting
    ensures (forall mine: PlayerSlot :: !Retakes(Run(h).slots, mine, packet)) ==>
              Run(h + [packet]) == Run(h) && Answer(h, packet) == Silent
  {
    RunStep(h, packet);
    RetakeStep(Run(h), packet);
  }

  /** A registration from a new endpoint takes the first free slot, if there is one. */
  lemma NewcomerTakesFreeSlot(h: seq<Event>, packet: Event)
    requires packet.datagram.RegisterByEndpoint? && !BothActive(Run(h).slots) && Some(packet.from) !in Run(h).slots
    ensures var before, after := Run(h).slots, Run(h + [packet]).slots;
            if before[0].None? then after == [Some(packet.from), before[1]] else after == [before[0], Some(packet.from)]
  {
    RunStep(h, packet);
  }

  /** One step of the fallback, in the state it meets. */
  lemma RebindStep(st: RelayState, packet: Event)
    requires packet.datagram.Payload? && st.active.None? && Some(packet.from) !in st.slots
    ensures forall mine: PlayerSlot | AloneAtIp(st.slots, mine, packet.from.ip) ::
              var (st', out) := Step(st, packet);
              && st'.slots == st.slots[mine := Some(packet.from)]
              && out == match st.slots[1 - mine] case Some(peer) => Forwarded(peer, packet.payload) case None => Silent
    ensures (forall mine: PlayerSlot :: !AloneAtIp(st.slots, mine, packet.from.ip)) ==> Step(st, packet) == (st, Silent)
  {
    var slots, ip := st.slots, packet.from.ip;
    assert SlotByIp(slots, packet.from) ==
           if AloneAtIp(slots, 0, ip) then 0 else if AloneAtIp(slots, 1, ip) then 1
           else if SameIp(slots[0], packet.from) then -2 else -1;
  }

  /**
   Data-plane rebind: with no generation active, a datagram from an unknown port of an address that
   one active slot alone has moves that slot to the new port, keeps the other slot, and is forwarded
   to the other slot's endpoint. From any other unknown source nothing changes and nothing is sent.
   */
  lemma DataPlaneRebind(h: seq<Event>, packet: Event)
    requires packet.datagram.Payload?
    requires Run(h).active.None? && Some(packet.from) !in Run(h).slots
    ensures forall mine: PlayerSlot | AloneAtIp(Run(h).slots, mine, packet.from.ip) ::
              var before, after := Run(h).slots, Run(h + [packet]).slots;
              && after[mine] == Some(packet.from) && after[1 - mine] == before[1 - mine]
              && (before[1 - mine].Some? ==>
                    Answer(h, packet) == Forwarded(before[1 - mine].value, packet.payload))
              && (before[1 - mine].None? ==> Answer(h, packet) == Silent)
    ensures (forall mine: PlayerSlot :: !AloneAtIp(Run(h).slots, mine, packet.from.ip)) ==>
              Run(h + [packet]) == Run(h) && Answer(h, packet) == Silent
  {
    RunStep(h, packet);
    RebindStep(Run(h), packet);
  }

  // ----- Traffic through any series of rebinds -----

  /** Anything but a registration, or a keepalive: a legacy registration from an endpoint that holds a slot. */
  predicate IsTraffic(st: RelayState, packet: Event) {
    match packet.datagram
    case RegisterV3(_, _) => false
    case RegisterByEndpoint(_) => Some(packet.from) in st.slots
    case _ => true
  }

  /** Each packet of `more` is traffic when it arrives. */
  predicate AllTraffic(h: seq<Event>, more: seq<Event>) {
    more == [] ||
    (AllTraffic(h, more[..|more| - 1]) && IsTraffic(Run(h + more[..|more| - 1]), more[|more| - 1]))
  }

  /** Where a client that started at this endpoint was last heard from: the latest game datagram from its address. */
  function LatestFrom(more: seq<Event>, start: Endpoint): (latest: Endpoint)
    ensures latest.ip == start.ip
  {
    if more == [] then start
    else
      var packet := more[|more| - 1];
      if packet.datagram.Payload? && packet.from.ip == start.ip then packet.from
      else LatestFrom(more[..|more| - 1], start)
  }

  predicate PairedAt(st: RelayState, a: Endpoint, b: Endpoint) {
    st.active.None? && st.slots == [Some(a), Some(b)]
  }

  lemma LatestStep(init: seq<Event>, packet: Event, start: Endpoint)
    ensures LatestFrom(init + [packet], start)
         == if packet.datagram.Payload? && packet.from.ip == start.ip then packet.from else LatestFrom(init, start)
  {
    assert (init + [packet])[..|init|] == init;
  }

  lemma TrafficStep(st: RelayState, packet: Event, a: Endpoint, b: Endpoint)
    requires PairedAt(st, a, b) && a.ip != b.ip && IsTraffic(st, packet)
    ensures PairedAt(Step(st, packet).0,
                     if packet.datagram.Payload? && packet.from.ip == a.ip then packet.from else a,
                     if packet.datagram.Payload? && packet.from.ip == b.ip then packet.from else b)
  {
    assert st.slots[0 := Some(a)] == st.slots && st.slots[1 := Some(b)] == st.slots;
  }

  lemma {:induction false} SlotsFollowClients(h: seq<Event>, more: seq<Event>, a: Endpoint, b: Endpoint)
    requires PairedAt(Run(h), a, b) && a.ip != b.ip && AllTraffic(h, more)
    ensures PairedAt(Run(h + more), LatestFrom(more, a), LatestFrom(more, b))
    decreases |more|
  {
    if more == [] {
      assert h + more == h;
    } else {
      var init, packet := more[..|more| - 1], more[|more| - 1];
      assert more == init + [packet];
      SlotsFollowClients(h, init, a, b);
      TrafficStep(Run(h + init), packet, LatestFrom(init, a), LatestFrom(init, b));
      LatestStep(init, packet, a);
      LatestStep(init, packet, b);
      assert h + more == (h + init) + [packet];
      RunStep(h + init, packet);
    }
  }

  /**
   Legacy clients at different addresses, once paired, may change port with every datagram: through
   any series of rebinds, keepalives, probes and foreign traffic, each one's datagrams go to where
   the other was last heard from, and nobody else's go anywhere.
   */
  lemma TrafficFollowsClients(h: seq<Event>, more: seq<Event>, a: Endpoint, b: Endpoint, packet: Event)
    requires PairedAt(Run(h), a, b) && a.ip != b.ip && AllTraffic(h, more) && packet.datagram.Payload?
    ensures packet.from.ip == a.ip ==> Answer(h + more, packet) == Forwarded(LatestFrom(more, b), packet.payload)
    ensures packet.from.ip == b.ip ==> Answer(h + more, packet) == Forwarded(LatestFrom(more, a), packet.payload)
    ensures packet.from.ip !in {a.ip, b.ip} ==> Answer(h + more, packet) == Silent
  {
    SlotsFollowClients(h, more, a, b);
  }

  // ----- Two clients pairing -----

  /** Health probes, rejected packets, and legacy registrations of two clients from their endpoints. */
  predicate PairingTraffic(packet: Event, a: Endpoint, b: Endpoint) {
    match packet.datagram
    case HealthProbe => true
    case Dropped => true
    case RegisterByEndpoint(_) => packet.from in {a, b}
    case _ => false
  }

  predicate RegisteredBy(more: seq<Event>, client: Endpoint) {
    exists e | e in more :: e.datagram.RegisterByEndpoint? && e.from == client
  }

  lemma RegisteredByStep(init: seq<Event>, packet: Event, client: Endpoint)
    ensures RegisteredBy(init + [packet], client) <==>
              RegisteredBy(init, client) || (packet.datagram.RegisterByEndpoint? && packet.from == client)
  {
    assert forall e :: e in init + [packet] <==> e in init || e == packet;
  }

  /** Each client heard from holds a slot, in the order of their first registrations. */
  predicate LegacySoFar(st: RelayState, a: Endpoint, b: Endpoint, seenA: bool, seenB: bool) {
    && st.active.None?
    && match (seenA, seenB)
       case (false, false) => st.slots == EMPTY_SLOTS
       case (true, false) => st.slots == [Some(a), None]
       case (false, true) => st.slots == [Some(b), None]
       case (true, true) => st.slots == [Some(a), Some(b)] || st.slots == [Some(b), Some(a)]
  }

  lemma LegacyStep(st: RelayState, packet: Event, a: Endpoint, b: Endpoint, seenA: bool, seenB: bool)
    requires LegacySoFar(st, a, b, seenA, seenB) && a != b && PairingTraffic(packet, a, b)
    ensures LegacySoFar(Step(st, packet).0, a, b,
                        seenA || (packet.datagram.RegisterByEndpoint? && packet.from == a),
                        seenB || (packet.datagram.RegisterByEndpoint? && packet.from == b))
  {
    if packet.datagram.RegisterByEndpoint? {
      var slot := SlotForRegistration(st.slots, packet.from, packet.datagram.declaredPort);
      assert 0 <= slot && Step(st, packet).0.slots == st.slots[slot := Some(packet.from)];
    }
  }

  lemma {:induction false} LegacyProgress(h: seq<Event>, more: seq<Event>, a: Endpoint, b: Endpoint)
    requires Run(h).active.None? && Run(h).slots == EMPTY_SLOTS && a != b
    requires forall e | e in more :: PairingTraffic(e, a, b)
    ensures LegacySoFar(Run(h + more), a, b, RegisteredBy(more, a), RegisteredBy(more, b))
    decreases |more|
  {
    if more == [] {
      assert h + more == h;
    } else {
      var init, packet := more[..|more| - 1], more[|more| - 1];
      assert more == init + [packet];
      LegacyProgress(h, init, a, b);
      RegisteredByStep(init, packet, a);
      RegisteredByStep(init, packet, b);
      LegacyStep(Run(h + init), packet, a, b, RegisteredBy(init, a), RegisteredBy(init, b));
      assert h + more == (h + init) + [packet];
      RunStep(h + init, packet);
    }
  }

  /**
   Two legacy clients at different endpoints on a relay without registrations, such as a fresh one,
   under any loss, duplication and interleaving of their registrations: once each was heard the relay
   is paired, and every later registration of theirs is answered SF4R.
   */
  lemma LegacyClientsPair(h: seq<Event>, more: seq<Event>, a: Endpoint, b: Endpoint, packet: Event)
    requires Run(h).active.None? && Run(h).slots == EMPTY_SLOTS && a != b
    requires forall e | e in more :: PairingTraffic(e, a, b)
    requires RegisteredBy(more, a) && RegisteredBy(more, b)
    ensures PairedAt(Run(h + more), a, b) || PairedAt(Run(h + more), b, a)
    ensures packet.datagram.RegisterByEndpoint? && packet.from in {a, b} ==> Answer(h + more, packet) == Registered
    ensures packet.datagram.Payload? && packet.from == a ==> Answer(h + more, packet) == Forwarded(b, packet.payload)
    ensures packet.datagram.Payload? && packet.from == b ==> Answer(h + more, packet) == Forwarded(a, packet.payload)
  {
    LegacyProgress(h, more, a, b);
    if packet.datagram.RegisterByEndpoint? && packet.from in {a, b} {
      KeepaliveChangesNothing(h + more, packet);
      LegacyAnswer(h + more, packet);
    }
  }
}
