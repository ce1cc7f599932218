# Verified models of the netplay and control-plane state machines

This project models the state machines of the SF4 netplay launcher that decide whether a match stays
in sync, whether two players find each other, and whether the room server stays within its means, and
proves what they promise over whole runs. `dafny verify dfyconfig.toml` checks all of it.

Each component has two layers. A specification on values (datatypes and functions) says what one step
does; theorems about it quantify over every run, packet history or input. Beside it stands the program
in its own form: a class whose methods update fields, arrays and maps in loops as the source does, each
proved against the specification.

| files | component |
|---|---|
| `StateVerification`, `VerificationClient`, `HashExchange`, `HashSending`, `HashDetection`, `SnapshotExchange`, `SnapshotSending` | desync detection between rolling-back clients, versions 2 (hash checkpoints) and 1 (snapshots) |
| `RegistrationCodec`, `UdpRelay`, `UdpRelayGenerations`, `UdpRelayLegacy`, `UdpRelayBytes` | the GGPO UDP relay: packet layouts, generation handoff, legacy pairing, histories of raw datagrams |
| `SaveStates`, `SaveStateOwnership` | save states: who owns the memento blocks, and what loading and freeing do to the game |
| `SoundSync`, `SoundSyncProperties`, `SoundAudible`, `SoundRollback` | sound reconciliation that tolerates rollback, and what is heard |
| `Capacity`, `RoomBroker`, `RoomBrokerRuns`, `RoomCreation` | room creation under asynchronous interleaving, port allocation, idle policy |
| `RateLimiter` | the sliding-window rate limiter and its collector |
| `TimingHistogram`, `RollbackEpisodes`, `RollbackDiagnostics` | timing percentiles, episodes and bursts |
| `LobbyQueue` | the winner-stays lobby |

## Assumptions about what is not modelled

- Every simulated frame yields some state; simulating it again may yield another. GGPO never rolls back
  further than `window` frames behind the furthest frame, which is below 30 in version 2 and below 60 in
  version 1. In version 1 a snapshot must not arrive while the receiver's own frame is captured but can
  still be simulated again; clients whose window and skew stay below 60 together guarantee that.
- Initializing a memento key releases the block it refers to and allocates one with the object's state,
  clearing it releases the block, and restoring gives each object the state its key refers to. Which
  objects a recording visits is an input.
- An adapter handle that is live decodes to the adapter it plays on. Which adapter a play lands on, and
  whether a send or a play succeeds, is an input.
- Clocks do not go back; the diagnostics clock is not negative. A drawn room code is not taken.

## Where the code decided

- `Clear` calls `ClearKey` through the public method entry that the hook in
  `src/sf4e/sf4e__Game.cxx:29-44` attaches to. The hook itself calls the same entry to reach the
  engine's function, which suggests that `Clear` reaches it too and tracking is not lost. Both readings
  are modelled (`detoured`): ownership and what a free does to the game hold either way, freedom from
  leaks holds always under the one reading and under a discipline, shown to be needed, under the other.
- A repeated SyncState is silent for unequal stub sounds and idle landings exactly when its table, stub
  and queue leave no stale copy (`ResyncIsSilentIff`). `StaleCopyIsStoppedLater` is an input that fails
  it, and `StaleTableIsReached` shows that the code produces that table. Runs that keep the stub sounds
  unequal from an idle table on tolerate every repetition (`RunsTolerateRollback`).
- `SetEnabled` erases start times of exactly 0.0 and `InitFromEnvironment` erases all of them, so an
  episode they meet is counted and then forgotten (`StallAtZeroForgotten`). `EpisodesConserved` says
  exactly when stalls and warnings are conserved; under a clock above 0 the host's switch is harmless.
- An object that a free's recording does not visit is given the state that its own key or the victim
  still holds, if there is one (`FreePreservesGame`; `SkippedObjectIsSetBack` is an input).
- Version 1 snapshots are sent by every client, spectators included
  (`src/session/sf4e__SessionClient.cxx:440-455` asks for no player), and forwarded to all others
  (`src/session/sf4e__SessionServer.cxx:377-393`). So a frame may be received more than once; after it
  was both sent and compared, later snapshots of it are buffered and never compared.
- A connection may join the lobby more than once under different names; when it closes, only its first
  member is removed (`GoneExactlyWhenJoinedOnce`, `JoinedTwiceStays`).
- In `SwitchesExactly`, "the active generation" is the one active when each packet arrived.

## Model

| member | source | states |
|---|---|---|
| HashExchange.SentHashesAreFinal | src/session/sf4e__SessionClient.cxx:489-510 | Over every run of any number of clients with rollbacks shallower than the 30-frame age, a hash that was ever sent carries the value its frame has now and after every continuation, although ring slots are captured again and reused. |
| HashExchange.SentOncePerFrame | src/session/sf4e__SessionClient.cxx:498-510 | No client ever sends two hashes of one frame. |
| HashExchange.MismatchMeansDesync | src/session/sf4e__SessionClient.cxx:511-515 | A comparison reports a mismatch if and only if the final values of that frame at the two clients differ: no false alarm under any interleaving, loss, duplication or reordering. |
| HashExchange.AgreementNeverReports | src/session/sf4e__SessionClient.cxx:54-60 | Clients that agree on all frames final at both never have a differing comparison. |
| HashExchange.CaptureMovesForward | src/sf4e/sf4e__Game__Battle__System.cxx:1212-1231 | A ring slot is only ever taken over by the same or a later frame, because a ring cycle is longer than any rollback. |
| HashExchange.FinalForever | src/sf4e/sf4e__Game__Battle__System.cxx:1219-1221 | The value of a frame beyond the rollback window never changes again. |
| HashDetection.DeliveredIsCompared | src/session/sf4e__SessionClient.cxx:489-516 | A buffered hash is compared, with the final local value, at the first exchange on which its frame is 30 frames old, if the frame was captured less than a ring cycle ago, the buffer was never full at a receipt in between, and nothing else of the frame was heard. |
| HashDetection.DivergenceIsDetected | src/session/sf4e__SessionClient.cxx:511-515 | After that exchange the client has a mismatch for the hash if and only if its final value of the frame differs from the sender's. |
| HashDetection.TwoClientsDetect | src/session/sf4e__SessionClient.cxx:388-394 | Between two clients room in the buffer is enough: whatever else arrives, a received hash is judged, and a divergence reported exactly when there is one. |
| HashDetection.RecentIsInRing | src/sf4e/sf4e__Game__Battle__System.cxx:1233-1240 | A frame captured less than a ring cycle ago is in its slot with its latest value. |
| HashSending.PassSendsExactly | src/session/sf4e__SessionClient.cxx:489-510 | A player's pass sends exactly the hashes of the checkpoints that are 30 frames old, unsent and whose send succeeds, and marks exactly those as sent; the pass of anyone else sends nothing. |
| HashSending.PlayerHashIsSent | src/session/sf4e__SessionClient.cxx:498-510 | In every run, a frame captured less than a ring cycle ago is in the player's outbox, with its final value, after the first exchange that finds it 30 frames old and whose send succeeds. |
| HashSending.SpectatorSendsNothing | src/session/sf4e__SessionClient.cxx:497-498 | A client that only ever exchanges as a spectator has sent nothing, after any run. |
| HashSending.RunKeepsFlags | src/session/sf4e__SessionClient.cxx:507-510 | Throughout every run, a checkpoint marked as sent was sent with the value it holds. |
| HashSending.TwoPlayersDetect | src/session/sf4e__SessionClient.cxx:489-516 | Detection from the send on: whatever happens in between, a captured frame's hash is sent at the first successful aged exchange and, once delivered, judged by the other player, who has a mismatch if and only if the final values differ. |
| HashSending.PassForgetsExactly | src/session/sf4e__SessionClient.cxx:511-515 | A pass removes from the buffer exactly the frames it has an aged checkpoint of, so none is compared twice. |
| HashSending.FullBufferDropsSmallest | src/session/sf4e__SessionClient.cxx:391-394 | A hash that meets a full buffer replaces the smallest frame in it, and no other. |
| SnapshotExchange.ComparedOnReceipt | src/session/sf4e__SessionClient.cxx:343-377 | Among any number of clients with rollback depth plus pairwise skew below 60, an arriving snapshot's frame can no longer change here, and it is compared at once with the final local value, exactly unless the frame was already both sent and compared. |
| SnapshotExchange.BufferStaysEmpty | src/session/sf4e__SessionClient.cxx:371-377 | If no receipt is of a frame already compared, as between two players, the buffer for early snapshots stays empty. |
| SnapshotExchange.CloseRunsAreTimely | src/session/sf4e__SessionClient.cxx:343-350 | Runs whose rollback depth and skew stay below 60 together never receive a snapshot of a frame that is captured but can still change, so all the results below hold of them. |
| SnapshotExchange.DesyncMeansDivergence | src/session/sf4e__SessionClient.cxx:351-357 | Among any number of clients, under any order and repetition of timely deliveries, a comparison fails exactly when receiver and sender have different values of the frame, and both are final. |
| SnapshotExchange.AgreementNeverDesyncs | src/session/sf4e__SessionClient.cxx:420-479 | Clients that agree on all frames final at both never leave the match over a snapshot. |
| SnapshotExchange.ErasedExactlyWhenSentAndCompared | src/session/sf4e__SessionClient.cxx:362-369 | A captured frame is gone from the map if and only if it was both sent and compared. |
| SnapshotExchange.FinalForever | src/sf4e/sf4e__Game__Battle__System.cxx:1248-1258 | A final frame keeps its value through every later rollback and capture. |
| SnapshotSending.PassDoesExactly | src/session/sf4e__SessionClient.cxx:424-479 | A reconciliation, in whatever order it walks the map, sends exactly the unsent snapshots that are 60 frames old and whose send succeeds, compares exactly the aged unconfirmed ones with a buffered partner, and marks and erases accordingly. |
| SnapshotSending.FrameIsSent | src/session/sf4e__SessionClient.cxx:440-455 | Every captured frame, of a player or a spectator, is sent with its final value by the first reconciliation that finds it 60 frames old, if the send succeeds. |
| SnapshotSending.SentThenJudged | src/session/sf4e__SessionClient.cxx:343-369 | Two close clients, from the send on: the snapshot of a captured frame goes out at the first aged reconciliation and, whenever it is delivered, has a comparison that fails if and only if the final values differ. |
| SnapshotSending.EarlySnapshotIsCompared | src/session/sf4e__SessionClient.cxx:456-472 | A snapshot that arrives before its frame is captured here is compared with the final local value at the first reconciliation that finds the frame 60 frames old, unless the frame was compared by then. |
| StateVerification.SmallestExists | src/session/sf4e__SessionClient.cxx:391-393 | A non-empty buffer has a smallest frame: the one dropped when it is full. |
| VerificationClient.Client.CaptureHashCheckpoint | src/sf4e/sf4e__Game__Battle__System.cxx:1212-1231 | In place on the ring: the captured frame takes its slot and keeps its sent flag only if the slot already held that frame. |
| VerificationClient.Client.FindHashCheckpoint | src/sf4e/sf4e__Game__Battle__System.cxx:1233-1240 | Returns a valid checkpoint of exactly the frame asked for, and none exactly when the ring does not have it. |
| VerificationClient.Client.CaptureSnapshotAt | src/sf4e/sf4e__Game__Battle__System.cxx:1248-1294 | A re-capture replaces the entry by a fresh one that is neither sent nor confirmed. |
| VerificationClient.Client.OnSnapshot | src/session/sf4e__SessionClient.cxx:343-377 | Receipt of a snapshot does what the protocol specification says to map, buffer and comparisons. |
| VerificationClient.Client.OnHash | src/session/sf4e__SessionClient.cxx:388-394 | Receipt of a hash buffers it, dropping the smallest frame when the buffer is full. |
| VerificationClient.Client.ReconcileSnapshots | src/session/sf4e__SessionClient.cxx:424-479 | The walk over the ordered map, erasing while it goes, refines the pass of the specification. |
| VerificationClient.Client.ExchangeHashes | src/session/sf4e__SessionClient.cxx:489-516 | The in-place pass over the 64 ring slots refines the pass of the specification. |
| VerificationClient.Client.Step | src/session/sf4e__SessionClient.cxx:333-395 | One Step handles every message in order and then, if snapshots are enabled, runs both passes. |
| RegistrationCodec.RegistrationRoundTrip | src/session/sf4e__GgpoTransport.cxx:225-230 | Decoding the 54-byte packet gives back the slot and both 64-bit ready numbers, for all values, when the tokens agree up to letter case; otherwise it is dropped. |
| RegistrationCodec.AcceptedIsEncoded | src/relay/ggpo_udp_relay.cxx:263-284 | Conversely every accepted version 3 datagram carries the room's token and is one the encoder produces. |
| RegistrationCodec.RegistersByEndpointExactly | src/relay/ggpo_udp_relay.cxx:258-353 | A datagram registers without a player slot, for the port it declares, if and only if it is the legacy or the version 2 packet with the room's token up to letter case; a legacy packet declares port 0. |
| RegistrationCodec.LegacyRoundTrip | src/relay/ggpo_udp_relay.cxx:344-347 | The legacy packet is accepted if and only if the tokens agree up to letter case, and dropped otherwise. |
| RegistrationCodec.V2RoundTrip | src/relay/ggpo_udp_relay.cxx:349-353 | The relay reads back the declared port of a version 2 packet, for every 16-bit port, exactly when the tokens agree. |
| RegistrationCodec.TokenMatchesIffSame | src/relay/ggpo_udp_relay.cxx:58-66 | Two tokens match if and only if at each place the bytes are equal or the two cases of one letter. |
| RegistrationCodec.DigitsRoundTrip | src/session/sf4e__GgpoTransport.cxx:42-47 | Writing a number most significant byte first and reading it back gives the number. |
| RegistrationCodec.BigEndianRoundTrip | src/relay/ggpo_udp_relay.cxx:80-86 | Reading bytes and writing the number gives back the bytes. |
| RegistrationCodec.WriteU64Be | src/session/sf4e__GgpoTransport.cxx:42-47 | Fills exactly its eight bytes of the buffer with the number's big-endian digits. |
| RegistrationCodec.ReadU64Be | src/relay/ggpo_udp_relay.cxx:80-86 | The shifting reader computes the big-endian value and never overflows 64 bits. |
| RegistrationCodec.BuildRegistration | src/session/sf4e__GgpoTransport.cxx:153-170 | A packet is built if and only if host, token, port, slot and ready numbers are valid, and then has the documented layout. |
| UdpRelayGenerations.GenerationInvariantAlways | src/relay/ggpo_udp_relay.cxx:286-334 | Over every packet history the active generation has both slots filled, the pending one exactly one, and their keys differ. |
| UdpRelayGenerations.SwitchesExactly | src/relay/ggpo_udp_relay.cxx:286-334 | The relay switches to a generation exactly at a packet that completes it: the other slot was registered earlier and every version 3 registration since named that generation or the one active on its arrival. |
| UdpRelayGenerations.PendingIffAnnounced | src/relay/ggpo_udp_relay.cxx:291-302 | What the pending generation holds is characterized by the packet history alone. |
| UdpRelayGenerations.RegisteredIffActive | src/relay/ggpo_udp_relay.cxx:336-341 | SF4R is answered if and only if the packet's generation is active afterwards, otherwise SF4W. |
| UdpRelayGenerations.SlotsHoldLatestSource | src/relay/ggpo_udp_relay.cxx:304-308 | Each filled slot holds the source of the latest registration for it in the whole history. |
| UdpRelayGenerations.RoutesOnlyChangeByRegistration | src/relay/ggpo_udp_relay.cxx:424-446 | Once a generation was promoted, no run of legacy registrations, probes and datagrams changes any source's route. |
| UdpRelayGenerations.ActiveForever | src/relay/ggpo_udp_relay.cxx:424-425 | The relay never falls back to the legacy slots. |
| UdpRelayGenerations.TwoClientsPair | src/relay/ggpo_udp_relay.cxx:336-461 | Two clients registering one generation, with any loss, duplication and interleaving, on a relay with any past: once each was heard, every later registration gets SF4R and each client's datagrams go to the other and only there. |
| UdpRelayGenerations.EncodedRegistrationIsClientPacket | src/session/sf4e__GgpoTransport.cxx:225-230 | What the client encodes is what TwoClientsPair assumes to arrive. |
| UdpRelayLegacy.DistinctEndpointsAlways | src/relay/ggpo_udp_relay.cxx:344-422 | The two active legacy slots always hold distinct endpoints, so no client is paired with itself. |
| UdpRelayLegacy.LegacyAnswer | src/relay/ggpo_udp_relay.cxx:355-421 | SF4R, SF4W or silence, each characterized exactly by the slots after the packet. |
| UdpRelayLegacy.KeepaliveChangesNothing | src/relay/ggpo_udp_relay.cxx:105-112 | A registration from an endpoint that holds a slot changes no state. |
| UdpRelayLegacy.RematchInvalidatesPeer | src/relay/ggpo_udp_relay.cxx:368-391 | With both slots taken, a registration from a new endpoint takes back the one slot that alone has its address, or else the one that alone has its declared port, and the peer must register again; if neither singles out a slot, nothing changes and nothing is answered. |
| UdpRelayLegacy.NewcomerTakesFreeSlot | src/relay/ggpo_udp_relay.cxx:136-140 | A registration from a new endpoint takes the first free slot. |
| UdpRelayLegacy.DataPlaneRebind | src/relay/ggpo_udp_relay.cxx:426-446 | A datagram from a new port of an address only one slot has moves that slot and is forwarded; any other unknown source changes nothing. |
| UdpRelayLegacy.TrafficFollowsClients | src/relay/ggpo_udp_relay.cxx:424-461 | Paired legacy clients at different addresses may change port with every datagram: through any series of rebinds, keepalives and foreign traffic each one's datagrams go to where the other was last heard from, and nobody else's go anywhere. |
| UdpRelayLegacy.LegacyClientsPair | src/relay/ggpo_udp_relay.cxx:344-461 | Two legacy clients on a relay without registrations, under any loss, duplication and interleaving: once each was heard, the relay is paired, every later registration gets SF4R and datagrams go to the other. |
| UdpRelayBytes.ForeignTokenIgnored | src/relay/ggpo_udp_relay.cxx:269-272 | After any history of raw datagrams, a registration of any of the three versions with another room's token changes nothing and is not answered. |
| UdpRelayBytes.OwnTokenRegisters | src/relay/ggpo_udp_relay.cxx:258-347 | With the room's token every datagram of the three forms is taken as a registration of its version, except one for a slot above 1, which changes nothing and is not answered. |
| UdpRelayBytes.AnsweredInKind | src/relay/ggpo_udp_relay.cxx:253-353 | Only SF4H is answered as a health probe and only a registration with the room's token by SF4R or SF4W; whatever is forwarded is the datagram received, byte for byte, up to the 2048 bytes read. |
| UdpRelayBytes.HealthAnswered | src/relay/ggpo_udp_relay.cxx:253-256 | A health probe is always answered and changes nothing. |
| UdpRelayBytes.OlderClientsTalk | src/relay/ggpo_udp_relay.cxx:344-461 | Two legacy or version 2 clients, from the bytes they send, on a fresh relay and among foreign registrations and probes: once each was heard, every later registration gets SF4R and game datagrams reach the other unchanged. |
| UdpRelayBytes.V3ClientsTalk | src/relay/ggpo_udp_relay.cxx:263-461 | The same for two version 3 clients, on a relay with any past and among any datagrams of other lengths. |
| UdpRelay.GgpoUdpRelay.FindSlotByIp | src/relay/ggpo_udp_relay.cxx:114-125 | The scan tells no, one, and two slots with the address apart. |
| UdpRelay.GgpoUdpRelay.FindSlotForRegistration | src/relay/ggpo_udp_relay.cxx:130-174 | The chain of scans picks the slot the specification picks. |
| UdpRelay.GgpoUdpRelay.ReceiveRegistration | src/relay/ggpo_udp_relay.cxx:286-341 | The in-place generation update and its answer refine the specified step. |
| UdpRelay.GgpoUdpRelay.ReceiveEndpoint | src/relay/ggpo_udp_relay.cxx:344-422 | The in-place legacy update and its answer refine the specified step. |
| UdpRelay.GgpoUdpRelay.ReceivePayload | src/relay/ggpo_udp_relay.cxx:424-461 | Forwarding with the rebind fallback refines the specified step. |
| UdpRelay.GgpoUdpRelay.Receive | src/relay/ggpo_udp_relay.cxx:249-462 | One turn of the receive loop, from raw bytes, refines the specified step. |
| Capacity.LoadsExactlyUsable | services/room-broker/capacity-config.js:47-110 | A configuration loads if and only if all settings are integers, the warning percentage is in range, and every room gets real ports none of which serve both relays. |
| Capacity.LoadsEachSetting | services/room-broker/capacity-config.js:48-66 | Each setting given is the one loaded into its field, and each left out has its default: 50, 23456, 24456 and 80. |
| Capacity.UsableBounds | services/room-broker/capacity-config.js:40-43 | The overlap test on inclusive ranges agrees with disjointness of the port sets. |
| Capacity.GgpoPortsDistinct | services/room-broker/capacity-config.js:154-160 | The GGPO port of a configured session port is a configured GGPO port, never a session port, and determines the session port. |
| Capacity.PortsPairByIndex | services/room-broker/capacity-config.js:154-160 | The i-th session port is paired with the i-th GGPO port, and a port outside the range with none. |
| Capacity.FirstFreeIsLowest | services/room-broker/capacity-config.js:125-138 | The allocator returns the lowest free port, and none exactly when all are taken. |
| Capacity.PortsFillRange | services/room-broker/capacity-config.js:128-137 | Pigeonhole: distinct configured ports fill the range exactly when there are MAX_ROOMS of them. |
| RoomBrokerRuns.AllocationSound | services/room-broker/server.js:579-679 | Under every interleaving of creations at their awaits with visits, deletes and prunes: held ports are configured and pairwise distinct, reservations are exactly those of the creations in flight, rooms plus reservations never exceed MAX_ROOMS. |
| RoomBrokerRuns.FullExactlyAtCapacity | services/room-broker/server.js:580-586 | After any run a creation is refused as full if and only if rooms plus reservations equal MAX_ROOMS; every other way to end at once leaves the reservations as they were. |
| RoomBrokerRuns.ReservationHeldAcrossAwait | services/room-broker/server.js:588-591 | Until its own await is answered, nothing releases a creation's port or gives it to a room. |
| RoomBrokerRuns.HandleKeepsPorts | services/room-broker/server.js:668-678 | Every event, on every exit path including throws, keeps port soundness. |
| RoomBrokerRuns.RemovedExactlyWhen | services/room-broker/server.js:385-399 | A room leaves exactly by an authorised delete or a prune that finds it stale, and while it stays, occupancy is never lost. |
| RoomBrokerRuns.OccupiedExactlyWhen | services/room-broker/server.js:364-372 | While a room stays, it is occupied if and only if since its creation a battle started in it or both sides registered an endpoint. |
| RoomBrokerRuns.OccupiedRoomSurvives | services/room-broker/server.js:364-383 | With the occupied timeout at 0 or below, an occupied room outlives every run without an authorised delete of it, occupied and on the same ports. |
| RoomBrokerRuns.PrunedExactlyWhenStale | services/room-broker/server.js:378-399 | A prune removes a room if and only if its limit, which is the occupied or the lobby timeout by whether it is occupied, is positive and its last refresh in the history is further back; a lobby room it removes saw no request within ROOM_LOBBY_IDLE_MS. |
| RoomBrokerRuns.LastSeenIsLastRefresh | services/room-broker/server.js:846-846 | lastSeenAt is the time of the latest request in the history that refreshed or created the room. |
| RoomCreation.RoomMadeExactlyWhen | services/room-broker/server.js:579-679 | In any run, whatever is interleaved at its awaits, a request makes its room if and only if there was capacity, nothing threw and, under a forced relay, the hash was well formed, the session relay was answered as started and, under auto transport, the GGPO relay without a throw; its port is the lowest one free at the request, and its GGPO port that port's partner exactly when the GGPO relay started, else 0. |
| RoomCreation.RelayAnswerDecides | services/room-broker/server.js:612-632 | A refusal or throw of the session relay adds no room and gives the port back; a start carries the creation on, and without auto transport ends it with the room. |
| RoomCreation.GgpoAnswerDecides | services/room-broker/server.js:619-665 | A throw of the GGPO relay ends the creation without a room; a refusal costs the room only its GGPO port. |
| RoomCreation.RefusalFreesPort | services/room-broker/server.js:668-678 | After any run, a creation that an answer ends has released its port and no other, and no room has it. |
| RoomCreation.AnswerTells | services/room-broker/server.js:612-626 | The outcome says which answer it was and whether the room exists. |
| RoomCreation.CreateTells | services/room-broker/server.js:579-611 | The outcome of a creation's first part tells a full broker, a throw and a bad hash apart, in that order. |
| RoomBroker.RoomTable.AllocatePortPair | services/room-broker/capacity-config.js:125-138 | The scan reserves the first free session port in place and returns the pair at that index. |
| RoomBroker.RoomTable.CreateRoom | services/room-broker/server.js:579-614 | A creation up to its first await, or to its end on every early exit, refines the specified step. |
| RoomBroker.RoomTable.RelayAnswered | services/room-broker/server.js:612-678 | Continuing after the session relay answered, refused or threw refines the specified step. |
| RoomBroker.RoomTable.GgpoAnswered | services/room-broker/server.js:621-678 | Continuing after the GGPO relay answered, refused or threw refines the specified step. |
| RoomBroker.RoomTable.VisitRoom | services/room-broker/server.js:917-967 | A visit refreshes the room it names, and registers an endpoint or marks the start of a battle. |
| RoomBroker.RoomTable.DeleteRoom | services/room-broker/server.js:1041-1057 | Only an authorised delete of an existing room removes it, and no other room. |
| RoomBroker.RoomTable.Prune | services/room-broker/server.js:392-399 | Deleting while iterating keeps exactly the rooms that are not stale. |
| RateLimiter.RefusedExactlyWhen | services/room-broker/server.js:132-143 | After any run with collections anywhere, a request is refused if and only if the limit of requests of its key was accepted within the last window. |
| RateLimiter.CollectKeepsRecent | services/room-broker/server.js:1167-1177 | A collection keeps exactly the times of the last 300 seconds, each as often as it was there, and the keys that have one. |
| RateLimiter.AnswersRefineLog | services/room-broker/server.js:132-143 | Along every run each key is answered as by a limiter that forgets nothing. |
| RateLimiter.NoWindowOverflows | services/room-broker/server.js:132-143 | No half-open window of a key's length, wherever it starts, holds more accepted requests than the limit. |
| RateLimiter.CollectionsChangeNothing | services/room-broker/server.js:1167-1177 | For windows up to 300 seconds, removing all collections from a run changes no answer. |
| RateLimiter.Limiter.Allow | services/room-broker/server.js:132-143 | Updates the key's bucket in place as specified. |
| RateLimiter.Limiter.CollectBuckets | services/room-broker/server.js:1169-1176 | The collecting loop trims every bucket and deletes exactly the empty ones. |
| SaveStateOwnership.OwnedAlways | src/sf4e/sf4e__Game__Battle__System.cxx:1365-1499 | Over every sequence of saves, loads, frees and played frames each memento block has at most one owner and every reference is to an allocated block; an unused slot has no keys, so the assertion in Save never fires. |
| SaveStateOwnership.FreeKeepsOwnership | src/sf4e/sf4e__Game__Battle__System.cxx:1365-1400 | A free releases no block that a live key or another slot refers to, and leaks if and only if, after its recording, an untracked live key is also in the victim. |
| SaveStateOwnership.LoadKeepsOwnership | src/sf4e/sf4e__Game__Battle__System.cxx:1412-1472 | A load releases nothing and leaks exactly when an untracked live key is also in the slot. |
| SaveStateOwnership.LeaksExactlyWhenDropped | src/sf4e/sf4e__Game__Battle__System.cxx:1365-1472 | A run of saves, loads, frees, played frames, recordings and key clears by the engine leaks if and only if one of its loads or frees meets a live key that is untracked and in the slot; what leaked is never recovered. |
| SaveStateOwnership.NothingLeaksUndetoured | src/sf4e/sf4e__Game.cxx:41-44 | If Clear reaches the engine's own ClearKey, no sequence of events leaks a block. |
| SaveStateOwnership.NothingLeaksDisciplined | src/sf4e/sf4e__Game__Battle__System.cxx:1336-1343 | If Clear reaches the hook that stops tracking, nothing leaks in a run that saves after each free before it loads again and whose saves and frees record the keys left live but untracked. |
| SaveStateOwnership.LoadAfterFreeLeaks | src/sf4e/sf4e__Game__Battle__System.cxx:1336-1343 | With the untracking hook that discipline is needed: a concrete free followed by a load leaves a block without an owner. |
| SaveStateOwnership.FreePreservesGame | src/sf4e/sf4e__Game__Battle__System.cxx:1365-1400 | A free empties only its victim and leaves globals, game manager, sound table and queued stops as they were; an object keeps its state if and only if the free records it or neither its key nor the victim holds another state for it. |
| SaveStateOwnership.CompleteFreePreservesObjects | src/sf4e/sf4e__Game__Battle__System.cxx:1370-1400 | If the recording visits every object that a live key or the victim knows, all objects are as they were. |
| SaveStateOwnership.SkippedObjectIsSetBack | src/sf4e/sf4e__Game__Battle__System.cxx:1370-1400 | A concrete free that skips an object and sets it back to the state the victim recorded. |
| SaveStateOwnership.LoadReturnsToSave | src/sf4e/sf4e__Game__Battle__System.cxx:1412-1499 | Round trip: after any events that spare the slot, loading it gives back every recorded object, the globals and the sound table of the save. |
| SaveStateOwnership.SaveStores | src/sf4e/sf4e__Game__Battle__System.cxx:1474-1499 | A save stores the state of every object it records and does not disturb the game. |
| SaveStateOwnership.LoadRestores | src/sf4e/sf4e__Game__Battle__System.cxx:1420-1450 | A load puts back what the slot holds and drops the queued stops. |
| SaveStates.GameMemory.ClearKey | src/sf4e/sf4e__Game.cxx:41-44 | The hook releases the key's block, zeroes it and stops tracking it, in place. |
| SaveStates.GameMemory.SaveInto | src/sf4e/sf4e__Game__Battle__System.cxx:1474-1516 | Moving every tracked key by copy and zeroing, in any order, refines the specified save. |
| SaveStates.GameMemory.FreeSlot | src/sf4e/sf4e__Game__Battle__System.cxx:1365-1400 | Save, install, clear and restore in place refine the specified free. |
| SaveStates.GameMemory.LoadSlot | src/sf4e/sf4e__Game__Battle__System.cxx:1412-1472 | Back up, install, zero and restore in place refine the specified load. |
| SaveStates.GameMemory.SaveGameState | src/sf4e/sf4e__Game__Battle__System.cxx:984-1020 | The first unused slot is filled; with none left nothing changes. |
| SoundSyncProperties.EveryLiveSoundIsWanted | src/sf4e/sf4e__Game__Battle.cxx:342-364 | However the engine answers, every real sound left live equals a live stub sound. |
| SoundSyncProperties.EveryStubSoundIsHeard | src/sf4e/sf4e__Game__Battle.cxx:384-443 | When plays land on idle adapters, each live stub sound has an equal live real sound that carries a matching stub's start frame. |
| SoundAudible.AudibleAgrees | src/sf4e/sf4e__Game__Battle.cxx:299-456 | If the sounds playing agree with the live entries of the table before a SyncState, they agree with those of the resulting table once its commands are carried out, whatever adapters the engine picks or refuses. |
| SoundAudible.AudibleAgreesAlways | src/sf4e/sf4e__Game__Battle.cxx:299-456 | So through any number of SyncStates of any stub states the table says exactly what is heard, adapter by adapter. |
| SoundAudible.OnlyWantedIsHeard | src/sf4e/sf4e__Game__Battle.cxx:342-364 | Every sound heard after a SyncState has all the arguments of a live stub sound. |
| SoundAudible.EverythingWantedIsHeard | src/sf4e/sf4e__Game__Battle.cxx:384-424 | When plays land on idle adapters, the arguments of each live stub sound are heard on some adapter. |
| SoundAudible.RefusedPlayStopsOldest | src/sf4e/sf4e__Game__Battle.cxx:174-205 | A refused play stops the live sound of the smallest start frame, the first among equals, and plays if the second attempt finds an adapter. |
| SoundAudible.PlayIsHeard | src/sf4e/sf4e__Game__Battle.cxx:165-241 | A play that lands at once is heard on its adapter and silences nothing but the sound it takes the adapter of. |
| SoundAudible.QueuedStopSilences | src/sf4e/sf4e__Game__Battle.cxx:320-337 | A queued stop silences the first sound with its arguments and its start frame, and no other. |
| SoundRollback.ResyncIsSilentIff | src/sf4e/sf4e__Game__Battle.cxx:299-456 | Replaying the same stub state and stops after a rollback issues no command if and only if, of the given table, no sound that survives the stops although one names it has an equal survivor before it. |
| SoundRollback.StoppedLeavesSurvivors | src/sf4e/sf4e__Game__Battle.cxx:320-364 | The two stopping passes leave exactly the wanted live sounds with at least as many copies of their instance before them as stops were queued for it. |
| SoundRollback.RunsTolerateRollback | src/sf4e/sf4e__Game__Battle.cxx:299-456 | Along every run of SyncStates with unequal stub sounds from an idle table, any number of rollbacks to the same stub sounds and stops issues no command. |
| SoundRollback.StaleTableIsReached | src/sf4e/sf4e__Game__Battle.cxx:410-436 | From idle adapters, two SyncStates for three equal stub sounds leave the three equal real sounds of StaleCopyIsStoppedLater. |
| SoundSyncProperties.ResyncOfDistinctIsSilent | src/sf4e/sf4e__Game__Battle.cxx:306-337 | With distinct live real sounds the repeated SyncState is always silent. |
| SoundSyncProperties.UnequalSoundsStayUnequal | src/sf4e/sf4e__Game__Battle.cxx:381-443 | A SyncState keeps unequal real sounds unequal, so silence carries over to every repetition. |
| SoundSyncProperties.RepeatIsSilentIff | src/sf4e/sf4e__Game__Battle.cxx:320-337 | On a synchronized table a SyncState is silent exactly when no queued stop names a live sound. |
| SoundRollback.StaleCopyIsStoppedLater | src/sf4e/sf4e__Game__Battle.cxx:320-337 | A concrete table with three copies of one sound for which the repetition is not silent. |
| SoundSync.SoundPlayers.SyncWithReal | src/sf4e/sf4e__Game__Battle.cxx:299-456 | The three in-place passes refine the specified reconciliation and drain the queue. |
| SoundSync.SoundPlayers.PlayReal | src/sf4e/sf4e__Game__Battle.cxx:174-241 | A refused play stops the oldest live sound and tries once more; a second refusal records nothing. |
| TimingHistogram.PercentileBrackets | src/common/sf4e__RollbackDiagnostics.cxx:115-137 | For every sample sequence and p: with x the sorted sample at the index r such that r <= p * count < r + 1 (the first for p <= 0, the last for p >= 1), the report is the least histogram bound above x, or the largest sample when x is at least 50 ms. |
| TimingHistogram.RankIsTheRank | src/common/sf4e__RollbackDiagnostics.cxx:121-124 | There is exactly one such index for every p, and it is the one computed. |
| TimingHistogram.PercentileMonotone | src/common/sf4e__RollbackDiagnostics.cxx:115-137 | The reported value never decreases in p, including the step into the open last bucket. |
| TimingHistogram.BucketsCountSamples | src/common/sf4e__RollbackDiagnostics.cxx:91-113 | Running bucket totals are the numbers of samples below each bound, and all of them together the count. |
| TimingHistogram.TotalsDescribeSamples | src/common/sf4e__RollbackDiagnostics.cxx:91-107 | Each hitch counter is the number of samples at or above its threshold, the total is their sum, the last one the last. |
| TimingHistogram.TimingStat.RecordMs | src/common/sf4e__RollbackDiagnostics.cxx:91-113 | Both loops over the bounds update counters, maximum, total and buckets in place as specified. |
| TimingHistogram.TimingStat.ApproxPercentileMs | src/common/sf4e__RollbackDiagnostics.cxx:115-137 | The scan with a running total returns the specified percentile. |
| RollbackEpisodes.EpisodesConserved | src/common/sf4e__RollbackDiagnostics.cxx:158-286 | After any events since the reset, stalls are the recorded durations plus the open one if and only if no SetEnabled met a stall begun at 0.0 and no InitFromEnvironment an open one; likewise warnings; the duration statistics are those of the closed episodes. |
| RollbackEpisodes.BurstsConserved | src/common/sf4e__RollbackDiagnostics.cxx:186-241 | Callbacks are the closed bursts plus the current one, and likewise per outer frame; burst count and maximum are those of the closed bursts, and each bucket counts the closed bursts between its bounds. |
| RollbackEpisodes.EventsCounted | src/common/sf4e__RollbackDiagnostics.cxx:158-286 | Skips by reason, resumptions, disconnects and outer frames are counted exactly while the diagnostics are on; a session that ends in the middle of a burst counts as one more outer frame. |
| RollbackEpisodes.BurstBucketIsTheOne | src/common/sf4e__RollbackDiagnostics.cxx:192-197 | The bucket chosen for a burst is the only one between whose bounds its length falls. |
| RollbackEpisodes.ConservedAboveZero | src/common/sf4e__RollbackDiagnostics.cxx:477-485 | Under a clock above 0, with no InitFromEnvironment since the reset, stalls and warnings are always conserved, however often the host switches. |
| RollbackEpisodes.StallAtZeroForgotten | src/common/sf4e__RollbackDiagnostics.cxx:482-484 | A concrete stall begun at 0.0 is counted and then forgotten by SetEnabled. |
| RollbackEpisodes.LongestIsLongest | src/common/sf4e__RollbackDiagnostics.cxx:188-190 | The maximum that the counters track is one of the closed bursts and none is longer. |
| RollbackEpisodes.SessionEndCloses | src/common/sf4e__RollbackDiagnostics.cxx:243-254 | The end of a session leaves no stall and no burst open, and a connection warning as it is; all stalls then have their duration recorded if and only if none was forgotten. |
| RollbackEpisodes.ClearedMemoryIsReset | src/common/sf4e__RollbackDiagnostics.cxx:455-485 | From zero-initialized storage, every run with a switch in it ends exactly as after a reset, and every run without one changes nothing. |
| RollbackDiagnostics.RollbackDiagnostics.SetEnabled | src/common/sf4e__RollbackDiagnostics.cxx:477-485 | Sets the flag and erases start times of exactly 0.0, in place. |
| RollbackDiagnostics.RollbackDiagnostics.InitFromEnvironment | src/common/sf4e__RollbackDiagnostics.cxx:468-475 | Enables on request and erases both start times, in place. |
| RollbackDiagnostics.RollbackDiagnostics.FrameAdvanced | src/common/sf4e__RollbackDiagnostics.cxx:178-200 | Ends the stall and the burst in place as specified. |
| RollbackDiagnostics.RollbackDiagnostics.OuterFrame | src/common/sf4e__RollbackDiagnostics.cxx:212-241 | Accounts for the outer frame and ends the burst, but not the stall. |
| RollbackDiagnostics.RollbackDiagnostics.SessionEnded | src/common/sf4e__RollbackDiagnostics.cxx:243-254 | Ends the stall, and counts an outer frame only if a burst is open. |
| RollbackDiagnostics.RollbackDiagnostics.CountBurst | src/common/sf4e__RollbackDiagnostics.cxx:192-197 | The scan counts the burst in the first bucket that holds its length. |
| LobbyQueue.LobbyAlwaysSound | src/session/sf4e__SessionServer.cxx:613-645 | Through all joins, departures and results names stay distinct and the lobby within its limit. |
| LobbyQueue.JoinExactly | src/session/sf4e__SessionServer.cxx:613-645 | A join is accepted if and only if the sidecar hash matches, fewer than four are there and the name is new; each refusal is told apart and changes nothing. |
| LobbyQueue.EveryMemberJoined | src/session/sf4e__SessionServer.cxx:613-645 | After any run, everyone in the lobby joined it with the matching sidecar hash. |
| LobbyQueue.ResultRotates | src/session/sf4e__SessionServer.cxx:647-652 | A result is a permutation: the winner first, the loser last, everyone waiting up by one, the match data cleared. |
| LobbyQueue.WaitIsBounded | src/session/sf4e__SessionServer.cxx:647-652 | A member at index k >= 2 plays after at most k - 1 results, whoever joins or leaves meanwhile. |
| LobbyQueue.GoneExactlyWhenJoinedOnce | src/session/sf4e__SessionServer.cxx:563-569 | After any run from the empty lobby, a closed connection leaves no member behind if and only if at most one of its accepted joins was still open. |
| LobbyQueue.JoinedTwiceStays | src/session/sf4e__SessionServer.cxx:629-645 | A concrete run: one connection joins under two names and closes, and its second member stays. |
| LobbyQueue.MembershipsAreOpenJoins | src/session/sf4e__SessionServer.cxx:563-652 | Through joins, departures and results, a connection has as many members as accepted joins that no closing undid. |
| LobbyQueue.SessionServer.RegisterToWait | src/session/sf4e__SessionServer.cxx:613-645 | The checks in their order, and the join at the end of the queue. |
| LobbyQueue.SessionServer.Results | src/session/sf4e__SessionServer.cxx:647-652 | Push and erase in place move the loser to the end, within the reserved capacity. |
| LobbyQueue.SessionServer.ConnectionClosed | src/session/sf4e__SessionServer.cxx:563-569 | Removes the first member of the connection and no other. |

## Left out

- Sockets, HTTP, JSON, GameNetworkingSockets and hashing: datagrams and messages are values, hashes and snapshots opaque.
- `RegisterWithUdpRelay`'s socket setup and retry loop, and the player-slot choice in `PrepareForBattle`: only the packet and its preconditions are modelled; retries appear as repeated registrations.
- The relay's idle exit, its logging and the check that its own token is hexadecimal, by which it has no zero byte for `strncmp` to stop at.
- What the client does after a mismatch (strict termination, leaving the match) beyond recording the comparison, and the lookup that decides whether it is a player, which is an input.
- Detection of a difference whose hash is lost, is dropped from a full buffer, or arrives more than a ring cycle late.
- Version 1 receipts that are not timely, from a sender so far ahead that the receiver has captured the frame but can still roll back over it, are outside the run theorems.
- Hashes left over from an earlier match: every run starts with empty ring and buffers.
- Snapshots compare by value of the whole structure, so padding bytes that `memcmp` would also compare are not modelled.
- GameMemory works on an engine value: the raw addresses of keys and the aliasing of memory are represented by the maps of live keys and allocated blocks.
- SaveStates.GameMemory.SaveInto: simulation and GGPO frame numbers of a slot, the sound object pool's own save format, and the order of the key list are not modelled.
- Default entries that reading the sound table inserts for unknown adapters are represented by their default value only.
- SoundSync.SoundPlayers.SyncWithReal: one stub manager and its real manager; the copy of adapter parameters (volume, fade, play state) is left out.
- The stub side of PlaySound, StopSound and StopAll, which belongs to the simulation; `position` is a value, not an address.
- A real PlaySound that returns a live handle of another adapter index than it plays on.
- `stopRelaySession`, relay health and relay restarts of the room broker, the other fields of a room, event history and connect plans: they hold no ports.
- Parsing of environment strings: a setting arrives as unset, an integer or malformed.
- RoomBroker.RoomTable.VisitRoom: authentication, rate limits and validation come before it and are inputs; requests that fail them do not visit.
- SaveStateOwnership.NothingLeaksDisciplined: that the engine's recording visits the keys left live but untracked cannot be seen from this code and is required of the run.
- RateLimiter.RefusedExactlyWhen: each key keeps one limit and window, as at every call site.
- Counters are unbounded: the wrap-around of 32-bit and 64-bit counters is not modelled. Durations are reals, so rounding of doubles is not.
- `ResetForMatch` is modelled as a fresh object that keeps the enabled flag, and the zero-initialized static object as a fresh one; skip reasons are counted, but operation timings, GGPO result codes, time-sync counters, gauges and the summary text would only add counters.
- LobbyQueue.SessionServer.Results: a reported loser index outside the member list has no defined behaviour in the source and is excluded; runs report player 0 or 1.
- Ready numbers, characters and stage of the match data, apart from being cleared by a result.
- Memory offsets, detours, overlay, launcher, updater, scripts, `GgpoGateModel`, `PacingController`, `SoundObjectPool` and relay process control.
