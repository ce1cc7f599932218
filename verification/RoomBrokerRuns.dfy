/**
 The room broker over whole runs: any number of concurrent creations interleaved at their awaits with
 visits, deletions and prunes, under a clock that never goes back.
 */
module RoomBrokerRuns {

  import opened Common
  import opened Capacity
  import opened RoomBroker

  datatype Request =
    | Create(id: RequestId, hash: SidecarHash, throws: bool, code: Code)
    | RelayAnswered(id: RequestId, reply: Reply, code: Code)
    | GgpoAnswered(id: RequestId, reply: Reply, code: Code)
    | VisitRoom(code: Code, visit: Visit)
    | DeleteRoom(code: Code, authorised: bool)
    | Prune

  datatype Event = Event(now: int, request: Request)

  datatype System = System(broker: Broker, clock: int)

  /** A drawn code is never taken, and an answer is to an await that is pending. */
  predicate Allowed(s: System, e: Event) {
    && s.clock <= e.now
    && match e.request
       case Create(id, _, _, code) => id !in s.broker.inFlight && code !in s.broker.rooms
       case RelayAnswered(id, _, code) =>
         id in s.broker.inFlight && s.broker.inFlight[id].AwaitingRelay? && code !in s.broker.rooms
       case GgpoAnswered(id, _, code) =>
         id in s.broker.inFlight && s.broker.inFlight[id].AwaitingGgpo? && code !in s.broker.rooms
       case _ => true
  }

  function Handle(p: Policy, s: System, e: Event): Broker
    requires p.config.maxRooms >= 1 && Allowed(s, e)
  {
    var b := s.broker;
    match e.request
    case Create(id, hash, throws, code) => BeginCreate(p, b, id, hash, throws, code, e.now).0
    case RelayAnswered(id, reply, code) => ResumeRelay(p, b, id, reply, code, e.now).0
    case GgpoAnswered(id, reply, code) => ResumeGgpo(p, b, id, reply, code, e.now).0
    case VisitRoom(code, visit) =>
      if code in b.rooms then b.(rooms := b.rooms[code := Visited(b.rooms[code], visit, e.now)]) else b
    case DeleteRoom(code, authorised) =>
      if code in b.rooms && authorised then b.(rooms := b.rooms - {code}) else b
    case Prune => b.(rooms := PruneRooms(p, b.rooms, e.now))
  }

  function Apply(p: Policy, s: System, e: Event): System
    requires p.config.maxRooms >= 1 && Allowed(s, e)
  {
    System(Handle(p, s, e), e.now)
  }

  predicate Reaches(p: Policy, s: System, run: seq<Event>, s': System)
    requires p.config.maxRooms >= 1
    decreases |run|
  {
    if run == [] then s' == s
    else Allowed(s, run[0]) && Reaches(p, Apply(p, s, run[0]), run[1..], s')
  }

  /** s was reached by the run from an empty broker. */
  predicate Reached(p: Policy, start: int, run: seq<Event>, s: System)
    requires p.config.maxRooms >= 1
  {
    Reaches(p, System(EMPTY, start), run, s)
  }

  // ----- Port allocation -----

  function HeldPorts(inFlight: map<RequestId, Creation>): set<int> {
    set id | id in inFlight :: inFlight[id].port
  }

  predicate RoomsApart(rooms: map<Code, Room>) {
    forall x, y | x in rooms && y in rooms && rooms[x].port == rooms[y].port :: x == y
  }

  predicate CreationsApart(inFlight: map<RequestId, Creation>) {
    forall x, y | x in inFlight && y in inFlight && inFlight[x].port == inFlight[y].port :: x == y
  }

  /** Every port held is one of the configured ones and held once; a reservation is a creation in flight. */
  predicate PortsSound(c: Config, b: Broker) {
    && RoomsApart(b.rooms) && CreationsApart(b.inFlight)
    && b.reservedPorts == HeldPorts(b.inFlight)
    && UsedPorts(b.rooms) !! b.reservedPorts
    && UsedPorts(b.rooms) + b.reservedPorts <= SessionPorts(c)
    && (forall code | code in b.rooms :: b.rooms[code].ggpoPort in {0, GgpoPortFor(c, b.rooms[code].port)})
    && (forall id | id in b.inFlight :: b.inFlight[id].ggpoPort == GgpoPortFor(c, b.inFlight[id].port))
  }

  lemma {:induction false} RoomPortsSize(rooms: map<Code, Room>)
    requires RoomsApart(rooms)
    ensures |UsedPorts(rooms)| == |rooms|
    decreases |rooms|
  {
    if rooms.Keys != {} {
      var code := Pick(rooms.Keys);
      var rest := rooms - {code};
      RoomPortsSize(rest);
      assert UsedPorts(rooms) == UsedPorts(rest) + {rooms[code].port} by {
        forall port | port in UsedPorts(rooms) ensures port in UsedPorts(rest) + {rooms[code].port} {
          var other :| other in rooms && rooms[other].port == port;
          assert other == code || (other in rest && rest[other].port == port);
        }
      }
    } else {
      assert UsedPorts(rooms) == {};
      assert rooms == map[];
    }
  }

  /** Ending a creation, by commit or otherwise, releases its reservation and no other. */
  lemma ReleaseExact(inFlight: map<RequestId, Creation>, id: RequestId)
    requires CreationsApart(inFlight) && id in inFlight
    ensures HeldPorts(inFlight - {id}) == HeldPorts(inFlight) - {inFlight[id].port}
  {
    var after := inFlight - {id};
    forall port | port in HeldPorts(inFlight) - {inFlight[id].port} ensures port in HeldPorts(after) {
      var other :| other in inFlight && inFlight[other].port == port;
      assert other in after && after[other].port == port;
    }
  }

  lemma {:induction false} HeldPortsSize(inFlight: map<RequestId, Creation>)
    requires CreationsApart(inFlight)
    ensures |HeldPorts(inFlight)| == |inFlight|
    decreases |inFlight|
  {
    if inFlight.Keys != {} {
      var id := Pick(inFlight.Keys);
      HeldPortsSize(inFlight - {id});
      ReleaseExact(inFlight, id);
      assert inFlight[id].port in HeldPorts(inFlight);
    } else {
      assert HeldPorts(inFlight) == {};
      assert inFlight == map[];
    }
  }

  lemma CommitKeepsPorts(c: Config, b: Broker, id: RequestId, ggpoPort: int, code: Code, now: int)
    requires PortsSound(c, b) && id in b.inFlight && code !in b.rooms
    requires ggpoPort in {0, b.inFlight[id].ggpoPort}
    ensures PortsSound(c, Commit(b, id, b.inFlight[id], ggpoPort, code, now))
  {
    ReleaseExact(b.inFlight, id);
    var port := b.inFlight[id].port;
    assert port in b.reservedPorts;
    var rooms' := b.rooms[code := NewRoom(port, ggpoPort, now)];
    forall other | other in b.rooms ensures b.rooms[other].port != port {
      assert b.rooms[other].port in UsedPorts(b.rooms);
    }
    assert UsedPorts(rooms') <= UsedPorts(b.rooms) + {port};
  }

  lemma AbandonKeepsPorts(c: Config, b: Broker, id: RequestId)
    requires PortsSound(c, b) && id in b.inFlight
    ensures PortsSound(c, Abandon(b, id, b.inFlight[id]))
  {
    ReleaseExact(b.inFlight, id);
  }

  /** The state with one more creation in flight. */
  function Reserved(b: Broker, id: RequestId, c: Creation): Broker {
    b.(reservedPorts := b.reservedPorts + {c.port}, inFlight := b.inFlight[id := c])
  }

  lemma ReserveExact(inFlight: map<RequestId, Creation>, id: RequestId, c: Creation)
    requires CreationsApart(inFlight) && id !in inFlight && c.port !in HeldPorts(inFlight)
    ensures CreationsApart(inFlight[id := c])
    ensures HeldPorts(inFlight[id := c]) == HeldPorts(inFlight) + {c.port}
  {
    var after := inFlight[id := c];
    forall other | other in inFlight ensures after[other].port != c.port {
      assert inFlight[other].port in HeldPorts(inFlight);
    }
    assert after[id].port in HeldPorts(after);
    forall port | port in HeldPorts(inFlight) ensures port in HeldPorts(after) {
      var other :| other in inFlight && inFlight[other].port == port;
      assert after[other].port == port;
    }
  }

  lemma ReserveKeepsPorts(c: Config, b: Broker, id: RequestId, creation: Creation)
    requires PortsSound(c, b) && id !in b.inFlight
    requires creation.port in SessionPorts(c) - UsedPorts(b.rooms) - b.reservedPorts
    requires creation.ggpoPort == GgpoPortFor(c, creation.port)
    ensures PortsSound(c, Reserved(b, id, creation))
  {
    ReserveExact(b.inFlight, id, creation);
  }

  lemma TryCreateKeepsPorts(p: Policy, b: Broker, id: RequestId, c: Creation, hash: SidecarHash, throws: bool, code: Code, now: int)
    requires PortsSound(p.config, b) && id !in b.inFlight && code !in b.rooms
    requires c.port in SessionPorts(p.config) - UsedPorts(b.rooms) - b.reservedPorts
    requires c.ggpoPort == GgpoPortFor(p.config, c.port)
    ensures PortsSound(p.config, TryCreate(p, b.(reservedPorts := b.reservedPorts + {c.port}), id, c, hash, throws, code, now).0)
  {
    var held := Reserved(b, id, c);
    ReserveKeepsPorts(p.config, b, id, c);
    AbandonKeepsPorts(p.config, held, id);
    CommitKeepsPorts(p.config, held, id, 0, code, now);
    UpdateThenRemove(b.inFlight, id, c);
  }

  lemma CreateKeepsPorts(p: Policy, b: Broker, id: RequestId, hash: SidecarHash, throws: bool, code: Code, now: int)
    requires Usable(p.config) && PortsSound(p.config, b) && id !in b.inFlight && code !in b.rooms
    ensures PortsSound(p.config, BeginCreate(p, b, id, hash, throws, code, now).0)
  {
    var c := p.config;
    var port := AllocatedPort(c, b);
    if |b.rooms| < c.maxRooms && port != 0 {
      AllocatedPairIsFree(c, UsedPorts(b.rooms), b.reservedPorts, port);
      TryCreateKeepsPorts(p, b, id, PairAt(c, port), hash, throws, code, now);
    }
  }

  lemma RoomsChangeKeepsPorts(c: Config, b: Broker, rooms: map<Code, Room>)
    requires PortsSound(c, b) && rooms.Keys <= b.rooms.Keys
    requires forall code | code in rooms ::
               rooms[code].port == b.rooms[code].port && rooms[code].ggpoPort == b.rooms[code].ggpoPort
    ensures PortsSound(c, b.(rooms := rooms))
  {
    assert UsedPorts(rooms) <= UsedPorts(b.rooms);
  }

  lemma AwaitGgpoKeepsPorts(c: Config, b: Broker, id: RequestId)
    requires PortsSound(c, b) && id in b.inFlight
    ensures PortsSound(c, b.(inFlight := b.inFlight[id := AwaitingGgpo(b.inFlight[id].port, b.inFlight[id].ggpoPort)]))
  {
    var inFlight' := b.inFlight[id := AwaitingGgpo(b.inFlight[id].port, b.inFlight[id].ggpoPort)];
    forall port | port in HeldPorts(b.inFlight) ensures port in HeldPorts(inFlight') {
      var other :| other in b.inFlight && b.inFlight[other].port == port;
      assert inFlight'[other].port == port;
    }
  }

  lemma RelayAnswerKeepsPorts(p: Policy, b: Broker, id: RequestId, reply: Reply, code: Code, now: int)
    requires PortsSound(p.config, b) && id in b.inFlight && b.inFlight[id].AwaitingRelay? && code !in b.rooms
    ensures PortsSound(p.config, ResumeRelay(p, b, id, reply, code, now).0)
  {
    AbandonKeepsPorts(p.config, b, id);
    CommitKeepsPorts(p.config, b, id, 0, code, now);
    AwaitGgpoKeepsPorts(p.config, b, id);
  }

  lemma GgpoAnswerKeepsPorts(p: Policy, b: Broker, id: RequestId, reply: Reply, code: Code, now: int)
    requires PortsSound(p.config, b) && id in b.inFlight && b.inFlight[id].AwaitingGgpo? && code !in b.rooms
    ensures PortsSound(p.config, ResumeGgpo(p, b, id, reply, code, now).0)
  {
    AbandonKeepsPorts(p.config, b, id);
    CommitKeepsPorts(p.config, b, id, 0, code, now);
    CommitKeepsPorts(p.config, b, id, b.inFlight[id].ggpoPort, code, now);
  }

  lemma VisitKeepsPorts(c: Config, b: Broker, code: Code, visit: Visit, now: int)
    requires PortsSound(c, b) && code in b.rooms
    ensures PortsSound(c, b.(rooms := b.rooms[code := Visited(b.rooms[code], visit, now)]))
  {
    RoomsChangeKeepsPorts(c, b, b.rooms[code := Visited(b.rooms[code], visit, now)]);
  }

  lemma DeleteKeepsPorts(c: Config, b: Broker, code: Code)
    requires PortsSound(c, b)
    ensures PortsSound(c, b.(rooms := b.rooms - {code}))
  {
    RoomsChangeKeepsPorts(c, b, b.rooms - {code});
  }

  lemma PruneKeepsPorts(p: Policy, b: Broker, now: int)
    requires PortsSound(p.config, b)
    ensures PortsSound(p.config, b.(rooms := PruneRooms(p, b.rooms, now)))
  {
    RoomsChangeKeepsPorts(p.config, b, PruneRooms(p, b.rooms, now));
  }

  lemma HandleKeepsPorts(p: Policy, s: System, e: Event)
    requires Usable(p.config) && PortsSound(p.config, s.broker) && Allowed(s, e)
    ensures PortsSound(p.config, Handle(p, s, e))
  {
    match e.request
    case Create(id, hash, throws, code) => CreateKeepsPorts(p, s.broker, id, hash, throws, code, e.now);
    case RelayAnswered(id, reply, code) => RelayAnswerKeepsPorts(p, s.broker, id, reply, code, e.now);
    case GgpoAnswered(id, reply, code) => GgpoAnswerKeepsPorts(p, s.broker, id, reply, code, e.now);
    case VisitRoom(code, visit) =>
      if code in s.broker.rooms {
        VisitKeepsPorts(p.config, s.broker, code, visit, e.now);
      }
    case DeleteRoom(code, _) => DeleteKeepsPorts(p.config, s.broker, code);
    case Prune => PruneKeepsPorts(p, s.broker, e.now);
  }

  lemma {:induction false} RunKeepsPorts(p: Policy, s: System, run: seq<Event>, s': System)
    requires Usable(p.config) && PortsSound(p.config, s.broker) && Reaches(p, s, run, s')
    ensures PortsSound(p.config, s'.broker)
    decreases |run|
  {
    if run != [] {
      HandleKeepsPorts(p, s, run[0]);
      RunKeepsPorts(p, Apply(p, s, run[0]), run[1..], s');
    }
  }

  lemma CapacityKept(c: Config, b: Broker)
    requires Usable(c) && PortsSound(c, b)
    ensures |b.reservedPorts| == |b.inFlight|
    ensures |b.rooms| + |b.reservedPorts| <= c.maxRooms
    ensures AllocatedPort(c, b) == 0 <==> AtCapacity(c, b)
  {
    RoomPortsSize(b.rooms);
    HeldPortsSize(b.inFlight);
    PortsFillRange(c, UsedPorts(b.rooms) + b.reservedPorts);
    FirstFreeOfUnion(c, UsedPorts(b.rooms), b.reservedPorts, 0);
  }

  /**
   Whatever the interleaving, no session port is held twice, every held port is configured, the
   reservations are exactly those of the creations in flight, and the capacity is never exceeded.
   */
  lemma AllocationSound(p: Policy, start: int, run: seq<Event>, s: System)
    requires Usable(p.config) && Reached(p, start, run, s)
    ensures PortsSound(p.config, s.broker)
    ensures |s.broker.rooms| + |s.broker.reservedPorts| <= p.config.maxRooms
    ensures |s.broker.reservedPorts| == |s.broker.inFlight|
  {
    RunKeepsPorts(p, System(EMPTY, start), run, s);
    CapacityKept(p.config, s.broker);
  }

  predicate AtCapacity(c: Config, b: Broker) {
    |b.rooms| + |b.reservedPorts| == c.maxRooms
  }

  /** How a creation begins: refused exactly when full, and otherwise only a suspended one leaves a reservation. */
  ghost predicate BeginsSoundly(full: bool, b: Broker, id: RequestId, code: Code, b': Broker, outcome: Outcome) {
    && (outcome == Full <==> full)
    && (outcome == Full ==> b' == b)
    && (outcome.Created? ==> b'.rooms.Keys == b.rooms.Keys + {code})
    && (outcome.Suspended? ==> b'.rooms == b.rooms && b'.inFlight.Keys == b.inFlight.Keys + {id})
    && (!outcome.Suspended? ==> b'.reservedPorts == b.reservedPorts && b'.inFlight == b.inFlight)
  }

  lemma TryCreateOutcome(p: Policy, b: Broker, id: RequestId, c: Creation, hash: SidecarHash, throws: bool, code: Code, now: int)
    requires id !in b.inFlight && c.port !in b.reservedPorts
    ensures var (b', outcome) := TryCreate(p, b.(reservedPorts := b.reservedPorts + {c.port}), id, c, hash, throws, code, now);
            BeginsSoundly(false, b, id, code, b', outcome)
  {
    RemoveAbsent(b.inFlight, id);
    AddThenRemove(b.reservedPorts, c.port);
  }

  lemma BeginCreateOutcome(p: Policy, b: Broker, id: RequestId, hash: SidecarHash, throws: bool, code: Code, now: int)
    requires Usable(p.config) && id !in b.inFlight && |b.rooms| + |b.reservedPorts| <= p.config.maxRooms
    requires AllocatedPort(p.config, b) == 0 <==> AtCapacity(p.config, b)
    ensures var (b', outcome) := BeginCreate(p, b, id, hash, throws, code, now);
            BeginsSoundly(AtCapacity(p.config, b), b, id, code, b', outcome)
  {
    var port := AllocatedPort(p.config, b);
    if port != 0 {
      AllocatedPairIsFree(p.config, UsedPorts(b.rooms), b.reservedPorts, port);
      TryCreateOutcome(p, b, id, PairAt(p.config, port), hash, throws, code, now);
    }
  }

  /**
   After any run, a creation is refused for lack of room exactly when rooms and reservations make up
   the capacity; nothing changes then.
   */
  lemma FullExactlyAtCapacity(p: Policy, start: int, run: seq<Event>, s: System,
                              id: RequestId, hash: SidecarHash, throws: bool, code: Code, now: int)
    requires Usable(p.config) && Reached(p, start, run, s) && id !in s.broker.inFlight
    ensures var (b, outcome) := BeginCreate(p, s.broker, id, hash, throws, code, now);
            BeginsSoundly(AtCapacity(p.config, s.broker), s.broker, id, code, b, outcome)
  {
    AllocationSound(p, start, run, s);
    CapacityKept(p.config, s.broker);
    BeginCreateOutcome(p, s.broker, id, hash, throws, code, now);
  }

  predicate AnswersTo(r: Request, id: RequestId) {
    (r.RelayAnswered? || r.GgpoAnswered?) && r.id == id
  }

  /** Across an await no other request can take or release the port a creation holds. */
  lemma {:induction false} ReservationHeldAcrossAwait(p: Policy, s: System, run: seq<Event>, s': System, id: RequestId)
    requires Usable(p.config) && Reaches(p, s, run, s') && PortsSound(p.config, s.broker) && id in s.broker.inFlight
    requires forall e | e in run :: !AnswersTo(e.request, id)
    ensures id in s'.broker.inFlight && s'.broker.inFlight[id] == s.broker.inFlight[id]
    ensures s.broker.inFlight[id].port in s'.broker.reservedPorts
    ensures forall code | code in s'.broker.rooms :: s'.broker.rooms[code].port != s.broker.inFlight[id].port
    decreases |run|
  {
    if run != [] {
      HandleKeepsPorts(p, s, run[0]);
      assert run[0] in run;
      CreationUntouched(p, s, run[0], id);
      ReservationHeldAcrossAwait(p, Apply(p, s, run[0]), run[1..], s', id);
    } else {
      assert s.broker.inFlight[id].port in HeldPorts(s.broker.inFlight);
      forall code | code in s.broker.rooms ensures s.broker.rooms[code].port != s.broker.inFlight[id].port {
        assert s.broker.rooms[code].port in UsedPorts(s.broker.rooms);
      }
    }
  }

  lemma CreationUntouched(p: Policy, s: System, e: Event, id: RequestId)
    requires p.config.maxRooms >= 1 && Allowed(s, e) && id in s.broker.inFlight && !AnswersTo(e.request, id)
    ensures id in Handle(p, s, e).inFlight && Handle(p, s, e).inFlight[id] == s.broker.inFlight[id]
  {}

  // ----- Idle policy -----

  /** A room leaves the table exactly by an authorised delete or a prune that finds it stale. */
  lemma RemovedExactlyWhen(p: Policy, s: System, e: Event, code: Code)
    requires p.config.maxRooms >= 1 && Allowed(s, e) && code in s.broker.rooms
    ensures code !in Handle(p, s, e).rooms <==>
              || e.request == DeleteRoom(code, true)
              || (e.request.Prune? && ShouldPruneRoom(p, s.broker.rooms[code], e.now))
    ensures code in Handle(p, s, e).rooms && IsRoomOccupied(s.broker.rooms[code]) ==>
              IsRoomOccupied(Handle(p, s, e).rooms[code])
  {}

  /** The room is there before and after every event of the run. */
  predicate Stays(p: Policy, s: System, run: seq<Event>, s': System, code: Code)
    requires p.config.maxRooms >= 1 && Reaches(p, s, run, s')
    decreases |run|
  {
    code in s.broker.rooms && (run == [] || Stays(p, Apply(p, s, run[0]), run[1..], s', code))
  }

  predicate HasVisit(run: seq<Event>, code: Code, visit: Visit) {
    exists e | e in run :: e.request == VisitRoom(code, visit)
  }

  lemma HasVisitStep(run: seq<Event>, code: Code, visit: Visit)
    requires run != []
    ensures HasVisit(run, code, visit) <==> run[0].request == VisitRoom(code, visit) || HasVisit(run[1..], code, visit)
  {
    assert run == [run[0]] + run[1..];
  }

  lemma {:induction false} MarksFollowVisits(p: Policy, s: System, run: seq<Event>, s': System, code: Code)
    requires p.config.maxRooms >= 1 && Reaches(p, s, run, s') && Stays(p, s, run, s', code)
    ensures code in s'.broker.rooms
    ensures var before, after := s.broker.rooms[code], s'.broker.rooms[code];
            && (after.started <==> before.started || HasVisit(run, code, BattleStart))
            && (after.host <==> before.host || HasVisit(run, code, RegisterHost))
            && (after.guest <==> before.guest || HasVisit(run, code, RegisterGuest))
    decreases |run|
  {
    if run != [] {
      MarksFollowVisits(p, Apply(p, s, run[0]), run[1..], s', code);
      HasVisitStep(run, code, BattleStart);
      HasVisitStep(run, code, RegisterHost);
      HasVisitStep(run, code, RegisterGuest);
    }
  }

  /** A room is occupied exactly when a battle started in it or both sides registered since it was created. */
  lemma OccupiedExactlyWhen(p: Policy, s: System, run: seq<Event>, s': System, code: Code, created: int)
    requires p.config.maxRooms >= 1 && Reaches(p, s, run, s') && Stays(p, s, run, s', code)
    requires s.broker.rooms[code] == NewRoom(s.broker.rooms[code].port, s.broker.rooms[code].ggpoPort, created)
    ensures code in s'.broker.rooms
    ensures IsRoomOccupied(s'.broker.rooms[code]) <==>
              || HasVisit(run, code, BattleStart)
              || (HasVisit(run, code, RegisterHost) && HasVisit(run, code, RegisterGuest))
  {
    MarksFollowVisits(p, s, run, s', code);
  }

  /**
   With the occupied timeout disabled, an occupied room outlives any run without an authorised
   delete of it, stays occupied, and keeps its ports.
   */
  lemma {:induction false} OccupiedRoomSurvives(p: Policy, s: System, run: seq<Event>, s': System, code: Code)
    requires p.config.maxRooms >= 1 && Reaches(p, s, run, s') && p.occupiedIdleMs <= 0
    requires code in s.broker.rooms && IsRoomOccupied(s.broker.rooms[code])
    requires forall e | e in run :: e.request != DeleteRoom(code, true)
    ensures code in s'.broker.rooms && IsRoomOccupied(s'.broker.rooms[code])
    ensures s'.broker.rooms[code].port == s.broker.rooms[code].port
    ensures s'.broker.rooms[code].ggpoPort == s.broker.rooms[code].ggpoPort
    decreases |run|
  {
    if run != [] {
      assert run[0] in run;
      RemovedExactlyWhen(p, s, run[0], code);
      OccupiedRoomSurvives(p, Apply(p, s, run[0]), run[1..], s', code);
    }
  }

  /** The event refreshes the room, or creates it. */
  predicate Refreshes(p: Policy, s: System, e: Event, code: Code)
    requires p.config.maxRooms >= 1 && Allowed(s, e)
  {
    code in Handle(p, s, e).rooms && (code in s.broker.rooms ==> e.request.VisitRoom? && e.request.code == code)
  }

  /** When the run last refreshed or created the room. */
  function LastRefresh(p: Policy, s: System, run: seq<Event>, s': System, code: Code): Option<int>
    requires p.config.maxRooms >= 1 && Reaches(p, s, run, s')
    decreases |run|
  {
    if run == [] then None
    else
      var later := LastRefresh(p, Apply(p, s, run[0]), run[1..], s', code);
      if later.Some? then later
      else if Refreshes(p, s, run[0], code) then Some(run[0].now)
      else None
  }

  lemma {:induction false} LastSeenIsLastRefresh(p: Policy, s: System, run: seq<Event>, s': System, code: Code)
    requires p.config.maxRooms >= 1 && Reaches(p, s, run, s') && code in s'.broker.rooms
    ensures match LastRefresh(p, s, run, s', code)
            case Some(at) => s'.broker.rooms[code].lastSeenAt == at && s.clock <= at <= s'.clock
            case None => code in s.broker.rooms && s'.broker.rooms[code].lastSeenAt == s.broker.rooms[code].lastSeenAt
    decreases |run|
  {
    if run != [] {
      LastSeenIsLastRefresh(p, Apply(p, s, run[0]), run[1..], s', code);
      ClockAdvances(p, Apply(p, s, run[0]), run[1..], s');
    }
  }

  lemma {:induction false} ClockAdvances(p: Policy, s: System, run: seq<Event>, s': System)
    requires p.config.maxRooms >= 1 && Reaches(p, s, run, s')
    ensures s.clock <= s'.clock
    ensures forall e | e in run :: s.clock <= e.now
    decreases |run|
  {
    if run != [] {
      ClockAdvances(p, Apply(p, s, run[0]), run[1..], s');
    }
  }

  /** No request naming the room is more recent than its last refresh. */
  lemma {:induction false} NoLaterVisit(p: Policy, s: System, run: seq<Event>, s': System, code: Code, i: nat)
    requires p.config.maxRooms >= 1 && Reaches(p, s, run, s') && code in s'.broker.rooms
    requires i < |run| && run[i].request.VisitRoom? && run[i].request.code == code
    ensures run[i].now <= s'.broker.rooms[code].lastSeenAt
    decreases |run|
  {
    var next := Apply(p, s, run[0]);
    if i > 0 {
      NoLaterVisit(p, next, run[1..], s', code, i - 1);
    } else {
      LastSeenIsLastRefresh(p, next, run[1..], s', code);
    }
  }

  /**
   After any run a prune removes a room exactly when its limit is positive and the last refresh or
   creation lies further back than the limit; so a lobby room it removes saw no visit within
   lobbyIdleMs.
   */
  lemma PrunedExactlyWhenStale(p: Policy, start: int, run: seq<Event>, s: System, code: Code, now: int)
    requires p.config.maxRooms >= 1 && Reached(p, start, run, s) && code in s.broker.rooms && s.clock <= now
    ensures var last := LastRefresh(p, System(EMPTY, start), run, s, code);
            var limit := if IsRoomOccupied(s.broker.rooms[code]) then p.occupiedIdleMs else p.lobbyIdleMs;
            last.Some? && (code !in PruneRooms(p, s.broker.rooms, now) <==> limit > 0 && now - last.value > limit)
    ensures !IsRoomOccupied(s.broker.rooms[code]) && code !in PruneRooms(p, s.broker.rooms, now) ==>
              forall e | e in run && e.request.VisitRoom? && e.request.code == code :: now - e.now > p.lobbyIdleMs > 0
  {
    LastSeenIsLastRefresh(p, System(EMPTY, start), run, s, code);
    forall e | e in run && e.request.VisitRoom? && e.request.code == code
      ensures e.now <= s.broker.rooms[code].lastSeenAt
    {
      var i :| 0 <= i < |run| && run[i] == e;
      NoLaterVisit(p, System(EMPTY, start), run, s, code, i);
    }
  }
}
