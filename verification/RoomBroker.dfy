/**
 The room broker's table of rooms: services/room-broker/server.js. Handlers run to their next await
 without interruption; `createRoomRecord` may be suspended at two awaits, so any number of creations
 can be in flight while rooms are looked up, registered with, deleted and pruned.

 Requests enter as events; the clock, the drawn room code, the relay manager's answers, and whether
 a request was authorised are inputs.
 */
module RoomBroker {

  import opened Common
  import opened Capacity

  type Code = nat
  type RequestId = nat

  datatype Room = Room(port: int, ggpoPort: int, lastSeenAt: int, started: bool, host: bool, guest: bool)

  /** A creation suspended at an await, holding its reserved port. */
  datatype Creation = AwaitingRelay(port: int, ggpoPort: int) | AwaitingGgpo(port: int, ggpoPort: int)

  /** Idle limits of 0 or less disable pruning. */
  datatype Policy = Policy(config: Config, forceVpsRelay: bool, autoTransport: bool, lobbyIdleMs: int, occupiedIdleMs: int)

  datatype Broker = Broker(
    rooms: map<Code, Room>,
    reservedPorts: set<int>,
    inFlight: map<RequestId, Creation>
  )

  datatype SidecarHash = Missing | Malformed | WellFormed

  /** What an awaited relay request came to. */
  datatype Reply = Started | Refused | Threw

  datatype Outcome = Full | InvalidHash | RelayStartFailed | Suspended | Created(code: Code) | Failed

  const EMPTY := Broker(map[], {}, map[])

  function UsedPorts(rooms: map<Code, Room>): set<int> {
    set code | code in rooms :: rooms[code].port
  }

  // ----- Creation -----

  function NewRoom(port: int, ggpoPort: int, now: int): Room {
    Room(port, ggpoPort, now, false, false, false)
  }

  /** The room is inserted, then the finally block releases the reservation. */
  function Commit(b: Broker, id: RequestId, c: Creation, ggpoPort: int, code: Code, now: int): Broker {
    Broker(b.rooms[code := NewRoom(c.port, ggpoPort, now)], b.reservedPorts - {c.port}, b.inFlight - {id})
  }

  /** Any other way out of the try block. */
  function Abandon(b: Broker, id: RequestId, c: Creation): Broker {
    b.(reservedPorts := b.reservedPorts - {c.port}, inFlight := b.inFlight - {id})
  }

  /** The try block up to its first await or its end. `throws`: drawing the identifiers throws. */
  function TryCreate(p: Policy, b: Broker, id: RequestId, c: Creation, hash: SidecarHash, throws: bool, code: Code, now: int):
    (Broker, Outcome)
  {
    if throws then (Abandon(b, id, c), Failed)
    else if !p.forceVpsRelay then (Commit(b, id, c, 0, code, now), Created(code))
    else if hash != WellFormed then (Abandon(b, id, c), InvalidHash)
    else (b.(inFlight := b.inFlight[id := c]), Suspended)
  }

  /** The session port that allocatePortPair picks, or 0. */
  function AllocatedPort(c: Config, b: Broker): int
    requires c.maxRooms >= 1
  {
    FirstFree(c, UsedPorts(b.rooms), b.reservedPorts, 0)
  }

  /** The creation that holds the pair of this session port. */
  function PairAt(c: Config, port: int): Creation {
    AwaitingRelay(port, c.ggpoUdpPortBase + (port - c.relayPortBase))
  }

  /** createRoomRecord up to its first await or its end. */
  function BeginCreate(p: Policy, b: Broker, id: RequestId, hash: SidecarHash, throws: bool, code: Code, now: int): (Broker, Outcome)
    requires p.config.maxRooms >= 1
  {
    var port := AllocatedPort(p.config, b);
    if |b.rooms| >= p.config.maxRooms || port == 0 then (b, Full)
    else TryCreate(p, b.(reservedPorts := b.reservedPorts + {port}), id, PairAt(p.config, port), hash, throws, code, now)
  }

  /** From the await on the session relay to the await on the GGPO relay or the end. */
  function ResumeRelay(p: Policy, b: Broker, id: RequestId, reply: Reply, code: Code, now: int): (Broker, Outcome)
    requires id in b.inFlight && b.inFlight[id].AwaitingRelay?
  {
    var c := b.inFlight[id];
    match reply
    case Threw => (Abandon(b, id, c), Failed)
    case Refused => (Abandon(b, id, c), RelayStartFailed)
    case Started =>
      if p.autoTransport then (b.(inFlight := b.inFlight[id := AwaitingGgpo(c.port, c.ggpoPort)]), Suspended)
      else (Commit(b, id, c, 0, code, now), Created(code))
  }

  /** From the await on the GGPO relay to the end; a refusal only costs the room its GGPO port. */
  function ResumeGgpo(p: Policy, b: Broker, id: RequestId, reply: Reply, code: Code, now: int): (Broker, Outcome)
    requires id in b.inFlight && b.inFlight[id].AwaitingGgpo?
  {
    var c := b.inFlight[id];
    match reply
    case Threw => (Abandon(b, id, c), Failed)
    case Refused => (Commit(b, id, c, 0, code, now), Created(code))
    case Started => (Commit(b, id, c, c.ggpoPort, code, now), Created(code))
  }

  // ----- Idle policy -----

  predicate IsRoomOccupied(room: Room) {
    room.started || (room.host && room.guest)
  }

  function RoomIdleLimitMs(p: Policy, room: Room): int {
    if IsRoomOccupied(room) then p.occupiedIdleMs else p.lobbyIdleMs
  }

  predicate ShouldPruneRoom(p: Policy, room: Room, now: int) {
    RoomIdleLimitMs(p, room) > 0 && now - room.lastSeenAt > RoomIdleLimitMs(p, room)
  }

  function PruneRooms(p: Policy, rooms: map<Code, Room>, now: int): map<Code, Room> {
    map code | code in rooms && !ShouldPruneRoom(p, rooms[code], now) :: rooms[code]
  }

  /** What a request does to the room it names, once it passed its checks. */
  datatype Visit = Lookup | RegisterHost | RegisterGuest | BattleStart

  function Visited(room: Room, visit: Visit, now: int): Room {
    match visit
    case Lookup => room.(lastSeenAt := now)
    case RegisterHost => room.(lastSeenAt := now, host := true)
    case RegisterGuest => room.(lastSeenAt := now, guest := true)
    case BattleStart => room.(lastSeenAt := now, started := true)
  }

  // ----- The imperative original -----

  class RoomTable {
    const policy: Policy
    var rooms: map<Code, Room>
    var reservedPorts: set<int>
    var inFlight: map<RequestId, Creation>

    function State(): Broker
      reads this
    {
      Broker(rooms, reservedPorts, inFlight)
    }

    constructor (policy: Policy)
      ensures this.policy == policy && State() == EMPTY
    {
      this.policy := policy;
      rooms, reservedPorts, inFlight := map[], {}, map[];
    }

    /** The lowest free pair, its session port now reserved; or (0, 0). */
    method AllocatePortPair() returns (sessionPort: int, ggpoPort: int)
      requires policy.config.maxRooms >= 1 && policy.config.relayPortBase >= 1
      modifies this`reservedPorts
      ensures sessionPort == AllocatedPort(policy.config, old(State()))
      ensures sessionPort == 0 ==> ggpoPort == 0 && reservedPorts == old(reservedPorts)
      ensures sessionPort != 0 ==>
                && AwaitingRelay(sessionPort, ggpoPort) == PairAt(policy.config, sessionPort)
                && reservedPorts == old(reservedPorts) + {sessionPort}
    {
      var usedSession := set code | code in rooms :: rooms[code].port;
      for i := 0 to policy.config.maxRooms
        invariant reservedPorts == old(reservedPorts)
        invariant FirstFree(policy.config, usedSession, reservedPorts, 0)
               == FirstFree(policy.config, usedSession, reservedPorts, i)
      {
        var port := policy.config.relayPortBase + i;
        if port !in usedSession && port !in reservedPorts {
          reservedPorts := reservedPorts + {port};
          return port, policy.config.ggpoUdpPortBase + i;
        }
      }
      return 0, 0;
    }

    method Release(id: RequestId, port: int)
      modifies this`reservedPorts, this`inFlight
      ensures reservedPorts == old(reservedPorts) - {port} && inFlight == old(inFlight) - {id}
    {
      reservedPorts := reservedPorts - {port};
      inFlight := inFlight - {id};
    }

    method CreateRoom(id: RequestId, hash: SidecarHash, throws: bool, code: Code, now: int) returns (outcome: Outcome)
      requires policy.config.maxRooms >= 1 && policy.config.relayPortBase >= 1 && id !in inFlight && code !in rooms
      modifies this
      ensures (State(), outcome) == BeginCreate(policy, old(State()), id, hash, throws, code, now)
    {
      if |rooms| >= policy.config.maxRooms {
        return Full;
      }
      var port, ggpoPort := AllocatePortPair();
      if port == 0 {
        return Full;
      }
      outcome := TryCreateRoom(id, port, ggpoPort, hash, throws, code, now);
    }

    method TryCreateRoom(id: RequestId, port: int, ggpoPort: int, hash: SidecarHash, throws: bool, code: Code, now: int)
      returns (outcome: Outcome)
      requires code !in rooms
      modifies this
      ensures (State(), outcome)
           == TryCreate(policy, old(State()), id, AwaitingRelay(port, ggpoPort), hash, throws, code, now)
    {
      if throws {
        Release(id, port);
        return Failed;
      }
      if policy.forceVpsRelay {
        if hash != WellFormed {
          Release(id, port);
          return InvalidHash;
        }
        inFlight := inFlight[id := AwaitingRelay(port, ggpoPort)];
        return Suspended;
      }
      rooms := rooms[code := NewRoom(port, 0, now)];
      Release(id, port);
      return Created(code);
    }

    method RelayAnswered(id: RequestId, reply: Reply, code: Code, now: int) returns (outcome: Outcome)
      requires id in inFlight && inFlight[id].AwaitingRelay? && code !in rooms
      modifies this
      ensures (State(), outcome) == ResumeRelay(policy, old(State()), id, reply, code, now)
    {
      var port, ggpoPort := inFlight[id].port, inFlight[id].ggpoPort;
      if reply != Started {
        Release(id, port);
        return if reply == Threw then Failed else RelayStartFailed;
      }
      if policy.autoTransport {
        inFlight := inFlight[id := AwaitingGgpo(port, ggpoPort)];
        return Suspended;
      }
      rooms := rooms[code := NewRoom(port, 0, now)];
      Release(id, port);
      return Created(code);
    }

    method GgpoAnswered(id: RequestId, reply: Reply, code: Code, now: int) returns (outcome: Outcome)
      requires id in inFlight && inFlight[id].AwaitingGgpo? && code !in rooms
      modifies this
      ensures (State(), outcome) == ResumeGgpo(policy, old(State()), id, reply, code, now)
    {
      var port, ggpoPort := inFlight[id].port, inFlight[id].ggpoPort;
      if reply == Threw {
        Release(id, port);
        return Failed;
      }
      rooms := rooms[code := NewRoom(port, if reply == Started then ggpoPort else 0, now)];
      Release(id, port);
      return Created(code);
    }

    method VisitRoom(code: Code, visit: Visit, now: int) returns (found: bool)
      modifies this`rooms
      ensures found <==> code in old(rooms)
      ensures rooms == if found then old(rooms)[code := Visited(old(rooms)[code], visit, now)] else old(rooms)
    {
      if code !in rooms {
        return false;
      }
      rooms := rooms[code := Visited(rooms[code], visit, now)];
      return true;
    }

    method DeleteRoom(code: Code, authorised: bool) returns (ended: bool)
      modifies this`rooms
      ensures ended <==> code in old(rooms) && authorised
      ensures rooms == if ended then old(rooms) - {code} else old(rooms)
    {
      if code !in rooms || !authorised {
        return false;
      }
      rooms := rooms - {code};
      return true;
    }

    method Prune(now: int)
      modifies this`rooms
      ensures rooms == PruneRooms(policy, old(rooms), now)
    {
      var todo := rooms.Keys;
      while todo != {}
        invariant todo <= old(rooms).Keys
        invariant forall code :: code in rooms <==>
                    code in old(rooms) && (code in todo || !ShouldPruneRoom(policy, old(rooms)[code], now))
        invariant forall code | code in rooms :: rooms[code] == old(rooms)[code]
        decreases |todo|
      {
        var code := PickAny(todo);
        if ShouldPruneRoom(policy, rooms[code], now) {
          rooms := rooms - {code};
        }
        todo := todo - {code};
      }
    }
  }
}
