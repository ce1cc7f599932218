/**
 The GGPO UDP relay of src/relay/ggpo_udp_relay.cxx: a rendezvous for two players that pairs their
 endpoints and then forwards datagrams between them.

 A relay serves legacy clients (slots found by endpoint, address or declared port) and version 3
 clients (explicit slot, and a generation named by both players' ready numbers). The functions
 specify one receive step on values; the class at the end is the relay's loop body with its
 mutable state, proved against them.
 */
module UdpRelay {

  import opened Common
  import opened RegistrationCodec

  datatype Endpoint = Endpoint(ip: int, port: int)

  /** The two player slots. An inactive slot's stale address is never read, so it is not kept. */
  type Slots = s: seq<Option<Endpoint>> | |s| == 2 witness [None, None]

  datatype Generation = Generation(key: GenerationKey, slots: Slots)

  /** `active` and `pending` are None while the key of the source's GenerationState is not valid. */
  datatype RelayState = RelayState(slots: Slots, active: Option<Generation>, pending: Option<Generation>)

  datatype Output =
    | Silent
    | HealthOk
    | Registered
    | Waiting
    | Forwarded(to: Endpoint, payload: seq<byte>)

  const EMPTY_SLOTS: Slots := [None, None]
  const INITIAL := RelayState(EMPTY_SLOTS, None, None)

  predicate BothActive(slots: Slots) {
    slots[0].Some? && slots[1].Some?
  }

  predicate HasKey(generation: Option<Generation>, key: GenerationKey) {
    generation.Some? && generation.value.key == key
  }

  function Peer(slot: int): int {
    if slot == 0 then 1 else 0
  }

  // ----- Slot lookup -----

  function SlotByEndpoint(slots: Slots, from: Endpoint): (slot: int)
    ensures -1 <= slot < 2
    ensures slot >= 0 ==> slots[slot] == Some(from)
    ensures slot < 0 ==> Some(from) !in slots
  {
    if slots[0] == Some(from) then 0 else if slots[1] == Some(from) then 1 else -1
  }

  predicate SameIp(slot: Option<Endpoint>, from: Endpoint) {
    slot.Some? && slot.value.ip == from.ip
  }

  /** -1 when no active slot has the address, -2 when both have. */
  function SlotByIp(slots: Slots, from: Endpoint): (slot: int) {
    match (SameIp(slots[0], from), SameIp(slots[1], from))
    case (true, true) => -2
    case (true, false) => 0
    case (false, true) => 1
    case (false, false) => -1
  }

  function SlotByPort(slots: Slots, port: nat): (slot: int) {
    var first := slots[0].Some? && slots[0].value.port == port;
    var second := slots[1].Some? && slots[1].value.port == port;
    if first && !second then 0 else if second && !first then 1 else -1
  }

  function SlotForRegistration(slots: Slots, from: Endpoint, declaredPort: nat): (slot: int)
    ensures -1 <= slot < 2
  {
    if SlotByEndpoint(slots, from) >= 0 then SlotByEndpoint(slots, from)
    else if slots[0].None? then 0
    else if slots[1].None? then 1
    else if SlotByIp(slots, from) >= 0 then SlotByIp(slots, from)
    else if declaredPort != 0 then SlotByPort(slots, declaredPort)
    else -1
  }

  // ----- One receive step -----

  function RegisterGeneration(st: RelayState, slot: PlayerSlot, key: GenerationKey, from: Endpoint): (RelayState, Output)
  {
    if HasKey(st.active, key) then
      var slots: Slots := st.active.value.slots[slot := Some(from)];
      (st.(active := Some(Generation(key, slots))), if BothActive(slots) then Registered else Waiting)
    else
      var before := if HasKey(st.pending, key) then st.pending.value.slots else EMPTY_SLOTS;
      var slots: Slots := before[slot := Some(from)];
      if BothActive(slots) then
        (st.(active := Some(Generation(key, slots)), pending := None), Registered)
      else
        (st.(pending := Some(Generation(key, slots))), Waiting)
  }

  function RegisterEndpoint(st: RelayState, declaredPort: nat, from: Endpoint): (RelayState, Output) {
    var slot := SlotForRegistration(st.slots, from, declaredPort);
    if slot < 0 then
      (st, Silent)
    else
      var rebind := st.slots[slot].Some? && st.slots[slot] != Some(from);
      var bound: Slots := st.slots[slot := Some(from)];
      var slots: Slots := if rebind then bound[Peer(slot) := None] else bound;
      (st.(slots := slots), if BothActive(slots) then Registered else Waiting)
  }

  /** The slots that traffic is matched against. */
  function ForwardingSlots(st: RelayState): Slots {
    if st.active.Some? then st.active.value.slots else st.slots
  }

  /** Where a datagram from this endpoint goes, without the rebind fallback. */
  function Route(slots: Slots, from: Endpoint): Option<Endpoint> {
    var src := SlotByEndpoint(slots, from);
    if src < 0 then None else slots[Peer(src)]
  }

  function Forward(st: RelayState, from: Endpoint, payload: seq<byte>): (RelayState, Output) {
    var ipSlot :=
      if SlotByEndpoint(ForwardingSlots(st), from) < 0 && st.active.None? then SlotByIp(st.slots, from) else -1;
    var st' := if ipSlot >= 0 then st.(slots := st.slots[ipSlot := Some(from)]) else st;
    match Route(ForwardingSlots(st'), from)
    case Some(to) => (st', Forwarded(to, payload))
    case None => (st', Silent)
  }

  /** A received datagram: where it came from, what the relay makes of it, and its bytes. */
  datatype Event = Event(from: Endpoint, datagram: Datagram, payload: seq<byte>)

  type Token = t: seq<byte> | |t| == TOKEN_LENGTH witness seq(TOKEN_LENGTH, _ => 48)

  function Decode(token: Token, from: Endpoint, bytes: seq<byte>): Event {
    var buf := Receivable(bytes);
    Event(from, Classify(token, buf), buf)
  }

  function Step(st: RelayState, e: Event): (RelayState, Output) {
    match e.datagram
    case Dropped => (st, Silent)
    case HealthProbe => (st, HealthOk)
    case RegisterV3(slot, key) => RegisterGeneration(st, slot, key, e.from)
    case RegisterByEndpoint(port) => RegisterEndpoint(st, port, e.from)
    case Payload => Forward(st, e.from, e.payload)
  }

  // ----- The relay process -----

  class GgpoUdpRelay {
    const token: Token
    var slots: Slots
    var active: Option<Generation>
    var pending: Option<Generation>

    function State(): RelayState
      reads this
    {
      RelayState(slots, active, pending)
    }

    constructor (token: Token)
      ensures this.token == token && State() == INITIAL
    {
      this.token := token;
      slots, active, pending := EMPTY_SLOTS, None, None;
    }

    method FindSlotByEndpoint(slots: Slots, from: Endpoint) returns (slot: int)
      ensures slot == SlotByEndpoint(slots, from)
    {
      for i := 0 to 2
        invariant forall j | 0 <= j < i :: slots[j] != Some(from)
      {
        if slots[i].Some? && slots[i].value == from {
          return i;
        }
      }
      return -1;
    }

    method FindSlotByIp(slots: Slots, from: Endpoint) returns (slot: int)
      ensures slot == SlotByIp(slots, from)
    {
      var found := -1;
      for i := 0 to 2
        invariant -1 <= found < i
        invariant found >= 0 ==> SameIp(slots[found], from)
        invariant forall j | 0 <= j < i && j != found :: !SameIp(slots[j], from)
      {
        if slots[i].Some? && slots[i].value.ip == from.ip {
          if found >= 0 {
            return -2;
          }
          found := i;
        }
      }
      return found;
    }

    method FindSlotForRegistration(slots: Slots, from: Endpoint, declaredPort: nat) returns (slot: int)
      ensures slot == SlotForRegistration(slots, from, declaredPort)
    {
      slot := FindSlotByEndpoint(slots, from);
      if slot >= 0 {
        return;
      }
      for i := 0 to 2
        invariant forall j | 0 <= j < i :: slots[j].Some?
      {
        if slots[i].None? {
          return i;
        }
      }
      slot := FindSlotByIp(slots, from);
      if slot >= 0 {
        return;
      }
      if declaredPort != 0 {
        var found, matches := -1, 0;
        for i := 0 to 2
          invariant 0 <= matches <= i
          invariant matches == 0 ==> found == -1
          invariant matches > 0 ==> 0 <= found < i && slots[found].value.port == declaredPort
          invariant matches <= 1 ==> forall j | 0 <= j < i && j != found :: slots[j].value.port != declaredPort
          invariant matches == i ==> forall j | 0 <= j < i :: slots[j].value.port == declaredPort
        {
          if slots[i].Some? && slots[i].value.port == declaredPort {
            found := i;
            matches := matches + 1;
          }
        }
        if matches == 1 {
          return found;
        }
      }
      return -1;
    }

    method ReceiveRegistration(slot: PlayerSlot, key: GenerationKey, from: Endpoint) returns (out: Output)
      modifies this
      ensures (State(), out) == RegisterGeneration(old(State()), slot, key, from)
    {
      if HasKey(active, key) {
        active := Some(Generation(key, active.value.slots[slot := Some(from)]));
        return if BothActive(active.value.slots) then Registered else Waiting;
      }
      if !HasKey(pending, key) {
        pending := Some(Generation(key, EMPTY_SLOTS));
      }
      pending := Some(Generation(key, pending.value.slots[slot := Some(from)]));
      if BothActive(pending.value.slots) {
        active := pending;
        pending := None;
        return Registered;
      }
      return Waiting;
    }

    method ReceiveEndpoint(declaredPort: nat, from: Endpoint) returns (out: Output)
      modifies this
      ensures (State(), out) == RegisterEndpoint(old(State()), declaredPort, from)
    {
      var slot := FindSlotForRegistration(slots, from, declaredPort);
      if slot < 0 {
        return Silent;
      }
      var rebind := slots[slot].Some? && slots[slot].value != from;
      slots := slots[slot := Some(from)];
      if rebind && slots[Peer(slot)].Some? {
        // The previous match left both slots active; the peer must register again.
        slots := slots[Peer(slot) := None];
      }
      return if BothActive(slots) then Registered else Waiting;
    }

    method ReceivePayload(from: Endpoint, payload: seq<byte>) returns (out: Output)
      modifies this
      ensures (State(), out) == Forward(old(State()), from, payload)
    {
      var forwarding := if active.Some? then active.value.slots else slots;
      var src := FindSlotByEndpoint(forwarding, from);
      if src < 0 {
        var ipSlot := -1;
        if active.None? {
          ipSlot := FindSlotByIp(forwarding, from);
        }
        if ipSlot >= 0 {
          slots := slots[ipSlot := Some(from)];
          forwarding := slots;
          src := ipSlot;
        }
      }
      if src < 0 || forwarding[Peer(src)].None? {
        return Silent;
      }
      return Forwarded(forwarding[Peer(src)].value, payload);
    }

    /** One turn of the receive loop. */
    method Receive(from: Endpoint, bytes: seq<byte>) returns (out: Output)
      modifies this
      ensures (State(), out) == Step(old(State()), Decode(token, from, bytes))
    {
      var buf := Receivable(bytes);
      match Classify(token, buf)
      case Dropped =>
        out := Silent;
      case HealthProbe =>
        out := HealthOk;
      case RegisterV3(slot, key) =>
        out := ReceiveRegistration(slot, key, from);
      case RegisterByEndpoint(port) =>
        out := ReceiveEndpoint(port, from);
      case Payload =>
        out := ReceivePayload(from, buf);
    }
  }
}
