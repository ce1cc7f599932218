/**
 Which requests make a room: a creation followed through its two awaits, whatever else the broker
 handles in between, in terms of the answers it is given.
 */
module RoomCreation {

  import opened Common
  import opened Capacity
  import opened RoomBroker
  import opened RoomBrokerRuns

  /** The request creates under this id, or answers an await of that creation. */
  predicate IsAbout(r: Request, id: RequestId) {
    (r.Create? && r.id == id) || AnswersTo(r, id)
  }

  predicate NeverCreates(run: seq<RoomBrokerRuns.Event>, id: RequestId) {
    forall e | e in run && e.request.Create? :: e.request.id != id
  }

  /** The room that the requests about this id add to the table in a run, if they do. */
  function RoomMade(p: Policy, s: System, run: seq<RoomBrokerRuns.Event>, s': System, id: RequestId): Option<Room>
    requires p.config.maxRooms >= 1 && Reaches(p, s, run, s')
    decreases |run|
  {
    if run == [] then None
    else
      var rooms := Handle(p, s, run[0]).rooms;
      if IsAbout(run[0].request, id) && run[0].request.code in rooms && run[0].request.code !in s.broker.rooms then
        Some(rooms[run[0].request.code])
      else
        RoomMade(p, Apply(p, s, run[0]), run[1..], s', id)
  }

  predicate HasRelayAnswer(run: seq<RoomBrokerRuns.Event>, id: RequestId, reply: Reply) {
    exists e | e in run :: e.request.RelayAnswered? && e.request.id == id && e.request.reply == reply
  }

  predicate HasGgpoAnswer(run: seq<RoomBrokerRuns.Event>, id: RequestId, reply: Reply) {
    exists e | e in run :: e.request.GgpoAnswered? && e.request.id == id && e.request.reply == reply
  }

  lemma AnswersStep(run: seq<RoomBrokerRuns.Event>, id: RequestId, reply: Reply)
    requires run != []
    ensures var r := run[0].request;
            && (HasRelayAnswer(run, id, reply) <==>
                  (r.RelayAnswered? && r.id == id && r.reply == reply) || HasRelayAnswer(run[1..], id, reply))
            && (HasGgpoAnswer(run, id, reply) <==>
                  (r.GgpoAnswered? && r.id == id && r.reply == reply) || HasGgpoAnswer(run[1..], id, reply))
  {
    assert run == [run[0]] + run[1..];
  }

  // ----- One event -----

  /** The creation has ended without a room: nothing in the table changed and its port can be handed out again. */
  ghost predicate EndedWithoutRoom(b: Broker, b': Broker, id: RequestId, port: int) {
    && b'.rooms == b.rooms && id !in b'.inFlight
    && b'.reservedPorts == b.reservedPorts - {port} && port !in UsedPorts(b'.rooms)
  }

  /** The creation has ended with this room. */
  ghost predicate EndedWithRoom(b: Broker, b': Broker, id: RequestId, code: Code, room: Room) {
    && b'.rooms == b.rooms[code := room] && id !in b'.inFlight
    && b'.reservedPorts == b.reservedPorts - {room.port}
  }

  lemma HeldPortIsUnused(c: Config, b: Broker, id: RequestId)
    requires PortsSound(c, b) && id in b.inFlight
    ensures b.inFlight[id].port in b.reservedPorts && b.inFlight[id].port !in UsedPorts(b.rooms)
  {
    assert b.inFlight[id].port in HeldPorts(b.inFlight);
  }

  /** The session relay's answer: only a relay that started carries the creation on. */
  lemma RelayAnswerDecides(p: Policy, s: System, e: RoomBrokerRuns.Event)
    requires Usable(p.config) && PortsSound(p.config, s.broker) && Allowed(s, e) && e.request.RelayAnswered?
    ensures var b, b', id := s.broker, Handle(p, s, e), e.request.id;
            var port := b.inFlight[id].port;
            && (e.request.reply != Started ==> EndedWithoutRoom(b, b', id, port))
            && (e.request.reply == Started && p.autoTransport ==>
                  b'.rooms == b.rooms && id in b'.inFlight && b'.inFlight[id] == AwaitingGgpo(port, b.inFlight[id].ggpoPort))
            && (e.request.reply == Started && !p.autoTransport ==>
                  EndedWithRoom(b, b', id, e.request.code, NewRoom(port, 0, e.now)))
  {
    HeldPortIsUnused(p.config, s.broker, e.request.id);
  }

  /** The GGPO relay's answer: a refusal costs the room its GGPO port, a throw the room. */
  lemma GgpoAnswerDecides(p: Policy, s: System, e: RoomBrokerRuns.Event)
    requires Usable(p.config) && PortsSound(p.config, s.broker) && Allowed(s, e) && e.request.GgpoAnswered?
    ensures var b, b', id := s.broker, Handle(p, s, e), e.request.id;
            var port := b.inFlight[id].port;
            && (e.request.reply == Threw ==> EndedWithoutRoom(b, b', id, port))
            && (e.request.reply != Threw ==>
                  EndedWithRoom(b, b', id, e.request.code,
                                NewRoom(port, if e.request.reply == Started then GgpoPortFor(p.config, port) else 0, e.now)))
  {
    HeldPortIsUnused(p.config, s.broker, e.request.id);
  }

  predicate SameCreation(before: map<RequestId, Creation>, after: map<RequestId, Creation>, id: RequestId) {
    (id in after <==> id in before) && (id in before ==> after[id] == before[id])
  }

  lemma OtherCreateLeavesIt(p: Policy, b: Broker, r: Request, now: int, id: RequestId)
    requires p.config.maxRooms >= 1 && r.Create? && r.id != id
    ensures SameCreation(b.inFlight, BeginCreate(p, b, r.id, r.hash, r.throws, r.code, now).0.inFlight, id)
  {}

  lemma OtherAnswerLeavesIt(p: Policy, s: System, e: RoomBrokerRuns.Event, id: RequestId)
    requires p.config.maxRooms >= 1 && Allowed(s, e) && (e.request.RelayAnswered? || e.request.GgpoAnswered?) && e.request.id != id
    ensures SameCreation(s.broker.inFlight, Handle(p, s, e).inFlight, id)
  {}

  /** Requests about others neither start nor end the creation. */
  lemma OthersLeaveIt(p: Policy, s: System, e: RoomBrokerRuns.Event, id: RequestId)
    requires p.config.maxRooms >= 1 && Allowed(s, e) && !IsAbout(e.request, id)
    ensures SameCreation(s.broker.inFlight, Handle(p, s, e).inFlight, id)
  {
    if e.request.Create? {
      OtherCreateLeavesIt(p, s.broker, e.request, e.now, id);
    } else if e.request.RelayAnswered? || e.request.GgpoAnswered? {
      OtherAnswerLeavesIt(p, s, e, id);
    }
  }

  // ----- The rest of a run, by phase -----

  /** Once a creation is over nothing answers it and it adds no room. */
  lemma {:induction false} OverAndDone(p: Policy, s: System, run: seq<RoomBrokerRuns.Event>, s': System, id: RequestId)
    requires p.config.maxRooms >= 1 && Reaches(p, s, run, s') && id !in s.broker.inFlight && NeverCreates(run, id)
    ensures RoomMade(p, s, run, s', id) == None && id !in s'.broker.inFlight
    ensures forall reply :: !HasRelayAnswer(run, id, reply) && !HasGgpoAnswer(run, id, reply)
    decreases |run|
  {
    if run != [] {
      assert run[0] in run && !IsAbout(run[0].request, id);
      OthersLeaveIt(p, s, run[0], id);
      OverAndDone(p, Apply(p, s, run[0]), run[1..], s', id);
      forall reply ensures !HasRelayAnswer(run, id, reply) && !HasGgpoAnswer(run, id, reply) {
        AnswersStep(run, id, reply);
      }
    }
  }

  /** What a creation that awaits the GGPO relay comes to, by the answers in the run. */
  ghost predicate GgpoOutcome(p: Policy, run: seq<RoomBrokerRuns.Event>, id: RequestId, port: int, made: Option<Room>) {
    && (made.Some? <==> HasGgpoAnswer(run, id, Started) || HasGgpoAnswer(run, id, Refused))
    && (made.Some? ==>
          && made.value.port == port
          && made.value.ggpoPort == if HasGgpoAnswer(run, id, Started) then GgpoPortFor(p.config, port) else 0)
  }

  lemma {:induction false} AwaitingGgpoOutcome(p: Policy, s: System, run: seq<RoomBrokerRuns.Event>, s': System, id: RequestId)
    requires Usable(p.config) && PortsSound(p.config, s.broker) && Reaches(p, s, run, s') && NeverCreates(run, id)
    requires id in s.broker.inFlight && s.broker.inFlight[id].AwaitingGgpo?
    ensures GgpoOutcome(p, run, id, s.broker.inFlight[id].port, RoomMade(p, s, run, s', id))
    ensures forall reply :: !HasRelayAnswer(run, id, reply)
    decreases |run|
  {
    if run != [] {
      var e, next := run[0], Apply(p, s, run[0]);
      assert e in run;
      HandleKeepsPorts(p, s, e);
      forall reply ensures HasRelayAnswer(run, id, reply) ==> HasRelayAnswer(run[1..], id, reply) {
        AnswersStep(run, id, reply);
      }
      AnswersStep(run, id, Started);
      AnswersStep(run, id, Refused);
      if IsAbout(e.request, id) {
        GgpoAnswerDecides(p, s, e);
        OverAndDone(p, next, run[1..], s', id);
      } else {
        OthersLeaveIt(p, s, e, id);
        AwaitingGgpoOutcome(p, next, run[1..], s', id);
      }
    }
  }

  /** What a creation that awaits the session relay comes to. */
  ghost predicate RelayOutcome(p: Policy, run: seq<RoomBrokerRuns.Event>, id: RequestId, port: int, made: Option<Room>) {
    && (made.Some? <==>
          && HasRelayAnswer(run, id, Started)
          && (p.autoTransport ==> HasGgpoAnswer(run, id, Started) || HasGgpoAnswer(run, id, Refused)))
    && (made.Some? ==>
          && made.value.port == port
          && made.value.ggpoPort ==
             if p.autoTransport && HasGgpoAnswer(run, id, Started) then GgpoPortFor(p.config, port) else 0)
  }

  lemma {:induction false} AwaitingRelayOutcome(p: Policy, s: System, run: seq<RoomBrokerRuns.Event>, s': System, id: RequestId)
    requires Usable(p.config) && PortsSound(p.config, s.broker) && Reaches(p, s, run, s') && NeverCreates(run, id)
    requires id in s.broker.inFlight && s.broker.inFlight[id].AwaitingRelay?
    ensures RelayOutcome(p, run, id, s.broker.inFlight[id].port, RoomMade(p, s, run, s', id))
    decreases |run|
  {
    if run != [] {
      var e, next := run[0], Apply(p, s, run[0]);
      assert e in run;
      HandleKeepsPorts(p, s, e);
      AnswersStep(run, id, Started);
      AnswersStep(run, id, Refused);
      if IsAbout(e.request, id) {
        RelayAnswerDecides(p, s, e);
        if id in next.broker.inFlight {
          AwaitingGgpoOutcome(p, next, run[1..], s', id);
        } else {
          OverAndDone(p, next, run[1..], s', id);
        }
      } else {
        OthersLeaveIt(p, s, e, id);
        AwaitingRelayOutcome(p, next, run[1..], s', id);
      }
    }
  }

  // ----- The whole creation -----

  /** The lowest configured session port that no room and no reservation has. */
  ghost predicate LowestFree(c: Config, b: Broker, port: int) {
    && port in SessionPorts(c) && port !in UsedPorts(b.rooms) && port !in b.reservedPorts
    && forall q | q in SessionPorts(c) && q < port :: q in UsedPorts(b.rooms) || q in b.reservedPorts
  }

  /** How the request begins on the port allocated to it. */
  ghost predicate BegunAt(p: Policy, b: Broker, b': Broker, r: Request, now: int, port: int)
    requires r.Create?
  {
    if r.throws || (p.forceVpsRelay && r.hash != WellFormed) then
      EndedWithoutRoom(b, b', r.id, port)
    else if p.forceVpsRelay then
      b'.rooms == b.rooms && r.id in b'.inFlight && b'.inFlight[r.id] == AwaitingRelay(port, GgpoPortFor(p.config, port))
    else
      EndedWithRoom(b, b', r.id, r.code, NewRoom(port, 0, now))
  }

  lemma TryCreateDecides(p: Policy, b: Broker, r: Request, now: int, c: Creation)
    requires r.Create? && r.id !in b.inFlight && c.port !in b.reservedPorts && c.port !in UsedPorts(b.rooms)
    requires c == AwaitingRelay(c.port, GgpoPortFor(p.config, c.port))
    ensures BegunAt(p, b, TryCreate(p, b.(reservedPorts := b.reservedPorts + {c.port}), r.id, c, r.hash, r.throws, r.code, now).0,
                    r, now, c.port)
  {
    AddThenRemove(b.reservedPorts, c.port);
  }

  lemma BeginReserves(p: Policy, s: System, e: RoomBrokerRuns.Event) returns (port: int)
    requires Usable(p.config) && PortsSound(p.config, s.broker) && Allowed(s, e) && e.request.Create?
    requires !AtCapacity(p.config, s.broker)
    ensures LowestFree(p.config, s.broker, port)
    ensures BegunAt(p, s.broker, Handle(p, s, e), e.request, e.now, port)
  {
    CapacityKept(p.config, s.broker);
    port := AllocatedPort(p.config, s.broker);
    FirstFreeIsLowest(p.config, UsedPorts(s.broker.rooms), s.broker.reservedPorts, 0);
    AllocatedPairIsFree(p.config, UsedPorts(s.broker.rooms), s.broker.reservedPorts, port);
    TryCreateDecides(p, s.broker, e.request, e.now, PairAt(p.config, port));
  }

  /** The request gets past its own checks: there is room, nothing throws, and a forced relay has a hash to run with. */
  predicate PassesChecks(p: Policy, b: Broker, r: Request)
    requires r.Create?
  {
    !AtCapacity(p.config, b) && !r.throws && (p.forceVpsRelay ==> r.hash == WellFormed)
  }

  /** The relays' answers in the run let the creation finish. */
  predicate RelaysAgree(p: Policy, run: seq<RoomBrokerRuns.Event>, id: RequestId) {
    p.forceVpsRelay ==>
      && HasRelayAnswer(run, id, Started)
      && (p.autoTransport ==> HasGgpoAnswer(run, id, Started) || HasGgpoAnswer(run, id, Refused))
  }

  /** The GGPO port a room gets. */
  function GgpoPortOf(p: Policy, run: seq<RoomBrokerRuns.Event>, id: RequestId, port: int): int {
    if p.forceVpsRelay && p.autoTransport && HasGgpoAnswer(run, id, Started) then GgpoPortFor(p.config, port) else 0
  }

  /** What became of a request in state b, given what its rest of the run brought. */
  ghost predicate MadeAsDecided(p: Policy, b: Broker, r: Request, rest: seq<RoomBrokerRuns.Event>, made: Option<Room>)
    requires r.Create?
  {
    && (made.Some? <==> PassesChecks(p, b, r) && RelaysAgree(p, rest, r.id))
    && (made.Some? ==>
          && LowestFree(p.config, b, made.value.port)
          && made.value.ggpoPort == GgpoPortOf(p, rest, r.id, made.value.port))
  }

  lemma RoomMadeStep(p: Policy, s: System, e: RoomBrokerRuns.Event, rest: seq<RoomBrokerRuns.Event>, s': System)
    requires p.config.maxRooms >= 1 && Allowed(s, e) && e.request.Create? && Reaches(p, Apply(p, s, e), rest, s')
    ensures Reaches(p, s, [e] + rest, s')
    ensures var rooms := Handle(p, s, e).rooms;
            RoomMade(p, s, [e] + rest, s', e.request.id) ==
            if e.request.code in rooms then Some(rooms[e.request.code])
            else RoomMade(p, Apply(p, s, e), rest, s', e.request.id)
  {
    assert ([e] + rest)[0] == e && ([e] + rest)[1..] == rest;
  }

  lemma MadeWhenFull(p: Policy, s: System, e: RoomBrokerRuns.Event, rest: seq<RoomBrokerRuns.Event>, s': System)
    requires Usable(p.config) && PortsSound(p.config, s.broker) && Allowed(s, e) && e.request.Create?
    requires Reaches(p, Apply(p, s, e), rest, s') && NeverCreates(rest, e.request.id)
    requires AtCapacity(p.config, s.broker)
    ensures Handle(p, s, e) == s.broker
    ensures RoomMade(p, Apply(p, s, e), rest, s', e.request.id) == None
  {
    CapacityKept(p.config, s.broker);
    OverAndDone(p, Apply(p, s, e), rest, s', e.request.id);
  }

  lemma MadeWithRoom(p: Policy, s: System, e: RoomBrokerRuns.Event, rest: seq<RoomBrokerRuns.Event>, s': System)
    requires Usable(p.config) && PortsSound(p.config, s.broker) && Allowed(s, e) && e.request.Create?
    requires Reaches(p, Apply(p, s, e), rest, s') && NeverCreates(rest, e.request.id)
    requires !AtCapacity(p.config, s.broker)
    ensures var rooms := Handle(p, s, e).rooms;
            MadeAsDecided(p, s.broker, e.request, rest,
                          if e.request.code in rooms then Some(rooms[e.request.code])
                          else RoomMade(p, Apply(p, s, e), rest, s', e.request.id))
  {
    var id, next := e.request.id, Apply(p, s, e);
    HandleKeepsPorts(p, s, e);
    var port := BeginReserves(p, s, e);
    if id in next.broker.inFlight {
      AwaitingRelayOutcome(p, next, rest, s', id);
    } else {
      OverAndDone(p, next, rest, s', id);
    }
  }

  /**
   In any run, with any other requests interleaved, a request makes its room exactly when there was
   capacity and a well-formed hash where one is needed, and, under a forced relay, the session relay
   was answered as started and, under auto transport, the GGPO relay was answered without a throw. The
   room gets the lowest port free when it was requested, and the partner of that port for GGPO
   exactly when the GGPO relay started.
   */
  lemma RoomMadeExactlyWhen(p: Policy, start: int, before: seq<RoomBrokerRuns.Event>, s: System,
                            e: RoomBrokerRuns.Event, rest: seq<RoomBrokerRuns.Event>, s': System)
    requires Usable(p.config) && Reached(p, start, before, s) && Allowed(s, e) && e.request.Create?
    requires Reaches(p, Apply(p, s, e), rest, s') && NeverCreates(rest, e.request.id)
    ensures Reaches(p, s, [e] + rest, s')
    ensures MadeAsDecided(p, s.broker, e.request, rest, RoomMade(p, s, [e] + rest, s', e.request.id))
  {
    AllocationSound(p, start, before, s);
    RoomMadeStep(p, s, e, rest, s');
    if AtCapacity(p.config, s.broker) {
      MadeWhenFull(p, s, e, rest, s');
    } else {
      MadeWithRoom(p, s, e, rest, s');
    }
  }

  /** A creation that any answer or check ends adds no room and gives its port back. */
  lemma RefusalFreesPort(p: Policy, start: int, run: seq<RoomBrokerRuns.Event>, s: System, e: RoomBrokerRuns.Event)
    requires Usable(p.config) && Reached(p, start, run, s) && Allowed(s, e)
    requires || (e.request.RelayAnswered? && e.request.reply != Started)
             || (e.request.GgpoAnswered? && e.request.reply == Threw)
    ensures EndedWithoutRoom(s.broker, Handle(p, s, e), e.request.id, s.broker.inFlight[e.request.id].port)
  {
    AllocationSound(p, start, run, s);
    if e.request.RelayAnswered? {
      RelayAnswerDecides(p, s, e);
    } else {
      GgpoAnswerDecides(p, s, e);
    }
  }

  // ----- What the caller is told -----

  /** The answer to the request that created, or whose creation goes on, tells what became of it. */
  ghost predicate Tells(b: Broker, b': Broker, id: RequestId, code: Code, outcome: Outcome) {
    && (outcome == Created(code) <==> code in b'.rooms)
    && (outcome.Created? ==> outcome.code == code)
    && (outcome == Suspended <==> id in b'.inFlight)
    && (!outcome.Created? ==> b'.rooms == b.rooms)
  }

  /** A relay's answer: the refusal of the session relay and a throw of either are told apart. */
  lemma AnswerTells(p: Policy, b: Broker, id: RequestId, reply: Reply, code: Code, now: int)
    requires id in b.inFlight && code !in b.rooms
    ensures var (b', outcome) :=
              if b.inFlight[id].AwaitingRelay? then ResumeRelay(p, b, id, reply, code, now)
              else ResumeGgpo(p, b, id, reply, code, now);
            && Tells(b, b', id, code, outcome)
            && (outcome == Failed <==> reply == Threw)
            && (outcome == RelayStartFailed <==> b.inFlight[id].AwaitingRelay? && reply == Refused)
  {}

  /** A creation's own answer: a throw comes before the check of the hash, and a full broker before both. */
  lemma CreateTells(p: Policy, b: Broker, id: RequestId, hash: SidecarHash, throws: bool, code: Code, now: int)
    requires p.config.maxRooms >= 1 && id !in b.inFlight && code !in b.rooms
    ensures var (b', outcome) := BeginCreate(p, b, id, hash, throws, code, now);
            && Tells(b, b', id, code, outcome)
            && (outcome == Failed <==> throws && outcome != Full)
            && (outcome == InvalidHash <==> !throws && p.forceVpsRelay && hash != WellFormed && outcome != Full)
            && outcome != RelayStartFailed
  {}
}
