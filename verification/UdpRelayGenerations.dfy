/**
 Version 3 generations over whole packet histories of the UDP relay: when the relay switches
 generation, what its slots hold, who gets SF4R, and where traffic goes.
 */
module UdpRelayGenerations {

  import opened Common
  import opened RegistrationCodec
  import opened UdpRelay

  /** The relay's state after receiving every packet of h, from start-up. */
  function Run(h: seq<Event>): RelayState {
    if h == [] then INITIAL else Step(Run(h[..|h| - 1]), h[|h| - 1]).0
  }

  function Answer(h: seq<Event>, packet: Event): Output {
    Step(Run(h), packet).1
  }

  predicate Registers(packet: Event, slot: PlayerSlot, key: GenerationKey) {
    packet.datagram == RegisterV3(slot, key)
  }

  // ----- The invariant -----

  ghost predicate GenerationInvariant(st: RelayState) {
    && (st.active.Some? ==> BothActive(st.active.value.slots))
    && (st.pending.Some? ==> st.pending.value.slots[0].Some? != st.pending.value.slots[1].Some?)
    && (st.active.Some? && st.pending.Some? ==> st.active.value.key != st.pending.value.key)
  }

  lemma StepKeepsGenerationInvariant(st: RelayState, packet: Event)
    requires GenerationInvariant(st)
    ensures GenerationInvariant(Step(st, packet).0)
  {
  }

  /**
   At every moment of every history the active generation has both slots filled, the pending one
   exactly one, and their keys differ.
   */
  lemma {:induction false} GenerationInvariantAlways(h: seq<Event>)
    ensures GenerationInvariant(Run(h))
  {
    if h != [] {
      GenerationInvariantAlways(h[..|h| - 1]);
      StepKeepsGenerationInvariant(Run(h[..|h| - 1]), h[|h| - 1]);
    }
  }

  /** A version 3 registration is answered SF4R iff its generation is the active one afterwards, else SF4W. */
  lemma RegisteredIffActive(h: seq<Event>, packet: Event, slot: PlayerSlot, key: GenerationKey)
    requires Registers(packet, slot, key)
    ensures Answer(h, packet) == Registered <==> HasKey(Run(h + [packet]).active, key)
    ensures Answer(h, packet) == Registered || Answer(h, packet) == Waiting
  {
    assert (h + [packet])[..|h|] == h;
    GenerationInvariantAlways(h);
  }

  // ----- Which registration a slot holds -----

  /** The source of the latest registration in h for a slot of a generation. */
  function LatestSource(h: seq<Event>, slot: PlayerSlot, key: GenerationKey): Option<Endpoint> {
    if h == [] then None
    else if Registers(h[|h| - 1], slot, key) then Some(h[|h| - 1].from)
    else LatestSource(h[..|h| - 1], slot, key)
  }

  /** A filled slot holds the source of the latest registration for it in the whole history. */
  lemma {:induction false} SlotsHoldLatestSource(h: seq<Event>, slot: PlayerSlot)
    ensures var st := Run(h);
            && (st.active.Some? ==>
                  && st.active.value.slots[slot].Some?
                  && st.active.value.slots[slot] == LatestSource(h, slot, st.active.value.key))
            && (st.pending.Some? && st.pending.value.slots[slot].Some? ==>
                  st.pending.value.slots[slot] == LatestSource(h, slot, st.pending.value.key))
  {
    GenerationInvariantAlways(h);
    if h != [] {
      SlotsHoldLatestSource(h[..|h| - 1], slot);
    }
  }

  // ----- Exactly when the relay switches -----

  /** Packet j of h, if it is a version 3 registration, names key or the generation active on its arrival. */
  predicate KeepsPending(h: seq<Event>, j: nat, key: GenerationKey)
    requires j < |h|
  {
    match h[j].datagram
    case RegisterV3(_, other) => other == key || HasKey(Run(h[..j]).active, other)
    case _ => true
  }

  /** Some packet m of h registers the slot, and no registration after it names a third generation. */
  ghost predicate Announced(h: seq<Event>, slot: PlayerSlot, key: GenerationKey) {
    exists m | 0 <= m < |h| ::
      && Registers(h[m], slot, key)
      && forall j | m < j < |h| :: KeepsPending(h, j, key)
  }

  /** The last packet of h is the only new evidence: Announced unrolled by one packet. */
  lemma AnnouncedStep(h: seq<Event>, packet: Event, slot: PlayerSlot, key: GenerationKey)
    ensures Announced(h + [packet], slot, key) <==>
            || Registers(packet, slot, key)
            || (Announced(h, slot, key) && KeepsPending(h + [packet], |h|, key))
  {
    var h' := h + [packet];
    assert forall j | 0 <= j <= |h| :: h'[..j] == h[..j];
    assert forall j | 0 <= j < |h| :: KeepsPending(h', j, key) == KeepsPending(h, j, key);
    if Registers(packet, slot, key) {
      assert Registers(h'[|h|], slot, key);
    }
    if Announced(h, slot, key) && KeepsPending(h', |h|, key) {
      var m :| 0 <= m < |h| && Registers(h[m], slot, key)
               && forall j | m < j < |h| :: KeepsPending(h, j, key);
      assert Registers(h'[m], slot, key);
    }
    if Announced(h', slot, key) && !Registers(packet, slot, key) {
      var m :| 0 <= m < |h'| && Registers(h'[m], slot, key)
               && forall j | m < j < |h'| :: KeepsPending(h', j, key);
      assert Registers(h[m], slot, key);
    }
  }

  /** The pending generation has this key and the slot is filled in it. */
  predicate PendingSlot(st: RelayState, slot: PlayerSlot, key: GenerationKey) {
    HasKey(st.pending, key) && st.pending.value.slots[slot].Some?
  }

  predicate ThirdGeneration(st: RelayState, e: Event, key: GenerationKey) {
    e.datagram.RegisterV3? && e.datagram.key != key && !HasKey(st.active, e.datagram.key)
  }

  lemma PendingStep(st: RelayState, e: Event, slot: PlayerSlot, key: GenerationKey)
    requires GenerationInvariant(st) && !HasKey(Step(st, e).0.active, key)
    ensures PendingSlot(Step(st, e).0, slot, key) <==>
            Registers(e, slot, key) || (PendingSlot(st, slot, key) && !ThirdGeneration(st, e, key))
    ensures HasKey(st.active, key) ==> ThirdGeneration(st, e, key)
  {
  }

  /** What the pending generation means in terms of the history alone. */
  lemma {:induction false} PendingIffAnnounced(h: seq<Event>, slot: PlayerSlot, key: GenerationKey)
    requires !HasKey(Run(h).active, key)
    ensures PendingSlot(Run(h), slot, key) <==> Announced(h, slot, key)
  {
    if h != [] {
      var h0, packet := h[..|h| - 1], h[|h| - 1];
      assert h == h0 + [packet];
      GenerationInvariantAlways(h0);
      AnnouncedStep(h0, packet, slot, key);
      PendingStep(Run(h0), packet, slot, key);
      assert KeepsPending(h, |h0|, key) <==> !ThirdGeneration(Run(h0), packet, key);
      if !HasKey(Run(h0).active, key) {
        PendingIffAnnounced(h0, slot, key);
      }
    }
  }

  /**
   The relay switches to a generation exactly at a packet that registers one of its slots when an
   earlier packet registered the other slot and every version 3 registration between the two named
   that generation or the one active when it arrived.
   */
  lemma SwitchesExactly(h: seq<Event>, packet: Event, key: GenerationKey)
    requires !HasKey(Run(h).active, key)
    ensures HasKey(Run(h + [packet]).active, key) <==>
            || (Registers(packet, 0, key) && Announced(h, 1, key))
            || (Registers(packet, 1, key) && Announced(h, 0, key))
  {
    assert (h + [packet])[..|h|] == h;
    GenerationInvariantAlways(h);
    PendingIffAnnounced(h, 0, key);
    PendingIffAnnounced(h, 1, key);
  }

  /** Once a generation is active there always is one: the relay never falls back to the legacy slots. */
  lemma {:induction false} ActiveForever(h: seq<Event>, more: seq<Event>)
    requires Run(h).active.Some?
    ensures Run(h + more).active.Some?
  {
    if more == [] {
      assert h + more == h;
    } else {
      ActiveForever(h, more[..|more| - 1]);
      assert (h + more)[..|h + more| - 1] == h + more[..|more| - 1];
    }
  }

  /**
   Once a generation was promoted, only version 3 registrations can change where traffic goes: any
   run of legacy or version 2 registrations, health probes, rejected packets and game datagrams,
   matched or not, leaves every source's route as it was.
   */
  lemma {:induction false} RoutesOnlyChangeByRegistration(h: seq<Event>, more: seq<Event>)
    requires Run(h).active.Some?
    requires forall j | 0 <= j < |more| :: !more[j].datagram.RegisterV3?
    ensures forall from :: Route(ForwardingSlots(Run(h + more)), from) == Route(ForwardingSlots(Run(h)), from)
    ensures Run(h + more).active == Run(h).active
    ensures Run(h + more).pending == Run(h).pending
  {
    if more == [] {
      assert h + more == h;
    } else {
      var init := more[..|more| - 1];
      RoutesOnlyChangeByRegistration(h, init);
      assert (h + more)[..|h + more| - 1] == h + init;
      assert (h + more)[|h + more| - 1] == more[|more| - 1];
    }
  }

  // ----- Two clients pairing -----

  /** A packet the client in a slot sends for a generation, from its own endpoint. */
  predicate ClientPacket(packet: Event, slot: PlayerSlot, key: GenerationKey, client: Endpoint) {
    Registers(packet, slot, key) && packet.from == client
  }

  /** Among version 3 registrations only the two clients', each for its own slot of one generation. */
  predicate OneGeneration(packet: Event, key: GenerationKey, clients: (Endpoint, Endpoint)) {
    packet.datagram.RegisterV3? ==>
      || ClientPacket(packet, 0, key, clients.0)
      || ClientPacket(packet, 1, key, clients.1)
  }

  predicate HasRegistered(h: seq<Event>, slot: PlayerSlot, key: GenerationKey, client: Endpoint) {
    exists j | 0 <= j < |h| :: ClientPacket(h[j], slot, key, client)
  }

  /** Pairing as far as it has come: each client heard from holds its slot of the right generation. */
  predicate PairedSoFar(st: RelayState, key: GenerationKey, clients: (Endpoint, Endpoint), seen: (bool, bool)) {
    if HasKey(st.active, key) then
      (seen.0 ==> st.active.value.slots[0] == Some(clients.0)) && (seen.1 ==> st.active.value.slots[1] == Some(clients.1))
    else
      && !(seen.0 && seen.1)
      && (seen.0 || seen.1 ==> HasKey(st.pending, key))
      && (seen.0 ==> st.pending.value.slots[0] == Some(clients.0))
      && (seen.1 ==> st.pending.value.slots[1] == Some(clients.1))
  }

  lemma PairingStep(st: RelayState, e: Event, key: GenerationKey, clients: (Endpoint, Endpoint), seen: (bool, bool))
    requires GenerationInvariant(st) && PairedSoFar(st, key, clients, seen) && OneGeneration(e, key, clients)
    ensures PairedSoFar(Step(st, e).0, key, clients,
                        (seen.0 || ClientPacket(e, 0, key, clients.0), seen.1 || ClientPacket(e, 1, key, clients.1)))
  {
  }

  lemma {:induction false} PairingProgress(h: seq<Event>, more: seq<Event>, key: GenerationKey,
                                           clients: (Endpoint, Endpoint))
    requires forall j | 0 <= j < |more| :: OneGeneration(more[j], key, clients)
    ensures PairedSoFar(Run(h + more), key, clients,
                        (HasRegistered(more, 0, key, clients.0), HasRegistered(more, 1, key, clients.1)))
  {
    if more != [] {
      var init, packet := more[..|more| - 1], more[|more| - 1];
      PairingProgress(h, init, key, clients);
      GenerationInvariantAlways(h + init);
      assert more == init + [packet];
      assert h + more == (h + init) + [packet];
      RunStep(h + init, packet);
      HasRegisteredStep(init, packet, 0, key, clients.0);
      HasRegisteredStep(init, packet, 1, key, clients.1);
      PairingStep(Run(h + init), packet, key, clients,
                  (HasRegistered(init, 0, key, clients.0), HasRegistered(init, 1, key, clients.1)));
    }
  }

  lemma RunStep(h: seq<Event>, e: Event)
    ensures Run(h + [e]) == Step(Run(h), e).0
  {
    assert (h + [e])[..|h|] == h;
  }

  lemma HasRegisteredStep(h: seq<Event>, packet: Event, slot: PlayerSlot, key: GenerationKey, client: Endpoint)
    ensures HasRegistered(h + [packet], slot, key, client) <==>
            HasRegistered(h, slot, key, client) || ClientPacket(packet, slot, key, client)
  {
    var h' := h + [packet];
    if HasRegistered(h, slot, key, client) {
      var j :| 0 <= j < |h| && ClientPacket(h[j], slot, key, client);
      assert ClientPacket(h'[j], slot, key, client);
    }
    if ClientPacket(packet, slot, key, client) {
      assert ClientPacket(h'[|h|], slot, key, client);
    }
  }

  /**
   Two clients at different endpoints register one generation on a relay with any past, with any
   loss, duplication and order of their registrations and any other traffic that is no version 3
   registration. Once one registration of each has arrived, every later one is answered SF4R and
   each client's datagrams go to the other client and only there.
   */
  lemma TwoClientsPair(h: seq<Event>, more: seq<Event>, key: GenerationKey,
                       clients: (Endpoint, Endpoint), packet: Event)
    requires clients.0 != clients.1
    requires forall j | 0 <= j < |more| :: OneGeneration(more[j], key, clients)
    requires HasRegistered(more, 0, key, clients.0) && HasRegistered(more, 1, key, clients.1)
    ensures OneGeneration(packet, key, clients) && packet.datagram.RegisterV3? ==>
              Answer(h + more, packet) == Registered
    ensures packet.datagram.Payload? && packet.from == clients.0 ==>
              Answer(h + more, packet) == Forwarded(clients.1, packet.payload)
    ensures packet.datagram.Payload? && packet.from == clients.1 ==>
              Answer(h + more, packet) == Forwarded(clients.0, packet.payload)
    ensures packet.datagram.Payload? && packet.from != clients.0 && packet.from != clients.1 ==>
              Answer(h + more, packet) == Silent
  {
    PairingProgress(h, more, key, clients);
  }

  /** The registrations of TwoClientsPair are exactly what the client's encoder puts on the wire. */
  lemma EncodedRegistrationIsClientPacket(token: Token, slot: PlayerSlot, key: GenerationKey, client: Endpoint)
    requires key.ready0 < TWO_TO_THE_64 && key.ready1 < TWO_TO_THE_64
    ensures ClientPacket(Decode(token, client, Registration(token, slot, key.ready0, key.ready1)), slot, key, client)
  {
    RegistrationRoundTrip(token, token, slot, key.ready0, key.ready1);
  }
}
