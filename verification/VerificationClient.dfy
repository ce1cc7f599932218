/**
 The imperative client: the statics that the simulation updates in place and the per-tick Step that
 exchanges them, proved against the functions of StateVerification.
 */
module VerificationClient {

  import opened Common
  import opened StateVerification

  datatype Message = SnapshotMessage(snapshot: StateSnapshot) | HashMessage(hash: BattleHash)

  /** What handling one message does to both protocols. */
  ghost function ReceiveMessage(snapshots: SnapshotState, hashes: HashState, m: Message): (SnapshotState, HashState) {
    match m
    case SnapshotMessage(s) => (ReceiveSnapshot(snapshots, s), hashes)
    case HashMessage(h) => (snapshots, hashes.(pending := ReceiveHash(hashes.pending, h)))
  }

  ghost function ReceiveMessages(snapshots: SnapshotState, hashes: HashState, ms: seq<Message>): (SnapshotState, HashState) {
    if ms == [] then (snapshots, hashes)
    else
      var (s, h) := ReceiveMessages(snapshots, hashes, ms[..|ms| - 1]);
      ReceiveMessage(s, h, ms[|ms| - 1])
  }

  method SmallestKey(keys: set<int>) returns (k: int)
    requires keys != {}
    ensures k == Smallest(keys)
  {
    k := PickAny(keys);
    var rest := keys - {k};
    while rest != {}
      invariant rest <= keys && k in keys
      invariant forall j | j in keys :: j in rest || k <= j
      decreases rest
    {
      var j := PickAny(rest);
      if j < k {
        k := j;
      }
      rest := rest - {j};
    }
    assert IsSmallest(k, keys);
  }

  class Client {
    const hashCheckpoints: array<HashCheckpoint>
    var pendingRemoteHashes: map<int, BattleHash>
    var sentHashes: seq<BattleHash>
    var comparedHashes: seq<Comparison>

    var snapshotMap: map<int, SnapshotEntry>
    var pendingRemoteSnapshots: map<int, StateSnapshot>
    var sentSnapshots: seq<StateSnapshot>
    var comparedSnapshots: seq<SnapshotComparison>

    ghost predicate Valid()
      reads this
    {
      hashCheckpoints.Length == NUM_HASH_CHECKPOINTS
    }

    ghost function Hashes(): HashState
      requires Valid()
      reads this, hashCheckpoints
    {
      HashState(hashCheckpoints[..], pendingRemoteHashes, sentHashes, comparedHashes)
    }

    ghost function Snapshots(): SnapshotState
      reads this
    {
      SnapshotState(snapshotMap, pendingRemoteSnapshots, sentSnapshots, comparedSnapshots)
    }

    constructor ()
      ensures Valid() && fresh(hashCheckpoints)
      ensures Hashes() == HashState(EmptyRing(), map[], [], [])
      ensures Snapshots() == SnapshotState(map[], map[], [], [])
    {
      hashCheckpoints := new HashCheckpoint[NUM_HASH_CHECKPOINTS](_ => EMPTY_CHECKPOINT);
      pendingRemoteHashes, sentHashes, comparedHashes := map[], [], [];
      snapshotMap, pendingRemoteSnapshots, sentSnapshots, comparedSnapshots := map[], map[], [], [];
    }

    /** Called after every simulated frame, including the frames a rollback simulates again. */
    method CaptureHashCheckpoint(frameIdx: nat, hashes: SemanticHashes)
      requires Valid()
      modifies hashCheckpoints
      ensures Hashes() == old(Hashes()).(ring := CaptureHash(old(hashCheckpoints[..]), frameIdx, hashes))
    {
      if frameIdx % HASH_CHECKPOINT_INTERVAL != 0 {
        return;
      }
      var i := frameIdx / HASH_CHECKPOINT_INTERVAL % NUM_HASH_CHECKPOINTS;
      if hashCheckpoints[i].frameIdx != frameIdx {
        hashCheckpoints[i] := hashCheckpoints[i].(frameIdx := frameIdx, sent := false);
      }
      hashCheckpoints[i] := hashCheckpoints[i].(hashes := hashes, valid := true);
    }

    /** The checkpoint of a frame, if the ring still has it. */
    method FindHashCheckpoint(frameIdx: int) returns (found: Option<HashCheckpoint>)
      requires Valid()
      ensures found.Some? ==> found.value.valid && found.value.frameIdx == frameIdx && found.value in hashCheckpoints[..]
      ensures found.None? ==> frameIdx < 0 || frameIdx % HASH_CHECKPOINT_INTERVAL != 0
                              || !(hashCheckpoints[SlotOf(frameIdx)].valid && hashCheckpoints[SlotOf(frameIdx)].frameIdx == frameIdx)
    {
      if frameIdx < 0 || frameIdx % HASH_CHECKPOINT_INTERVAL != 0 {
        return None;
      }
      var slot := hashCheckpoints[frameIdx / HASH_CHECKPOINT_INTERVAL % NUM_HASH_CHECKPOINTS];
      return if slot.valid && slot.frameIdx == frameIdx then Some(slot) else None;
    }

    method CaptureSnapshotAt(frameIdx: nat, state: int)
      modifies this`snapshotMap
      ensures Snapshots() == CaptureSnapshot(old(Snapshots()), frameIdx, state)
    {
      if frameIdx % SNAPSHOT_INTERVAL != 0 {
        return;
      }
      snapshotMap := snapshotMap - {frameIdx};
      snapshotMap := snapshotMap[frameIdx := SnapshotEntry(StateSnapshot(frameIdx, state), false, false)];
      assert snapshotMap == old(snapshotMap)[frameIdx := SnapshotEntry(StateSnapshot(frameIdx, state), false, false)];
    }

    method OnSnapshot(m: StateSnapshot)
      modifies this`snapshotMap, this`pendingRemoteSnapshots, this`comparedSnapshots
      ensures Snapshots() == ReceiveSnapshot(old(Snapshots()), m)
    {
      var k := m.frameIdx;
      if k in snapshotMap {
        comparedSnapshots := comparedSnapshots + [SnapshotComparison(snapshotMap[k].snapshot, m)];
        snapshotMap := snapshotMap[k := snapshotMap[k].(confirmed := true)];
        if snapshotMap[k].sent {
          snapshotMap := snapshotMap - {k};
          assert snapshotMap == old(snapshotMap) - {k};
        }
      } else if k !in pendingRemoteSnapshots {
        pendingRemoteSnapshots := pendingRemoteSnapshots[k := m];
      }
    }

    method OnHash(m: BattleHash)
      requires Valid()
      modifies this`pendingRemoteHashes
      ensures Hashes() == old(Hashes()).(pending := ReceiveHash(old(pendingRemoteHashes), m))
    {
      if |pendingRemoteHashes| >= MAX_PENDING_REMOTE_HASHES {
        var first := SmallestKey(pendingRemoteHashes.Keys);
        pendingRemoteHashes := pendingRemoteHashes - {first};
      }
      pendingRemoteHashes := pendingRemoteHashes[m.frameIdx := m];
    }

    /** The body of the reconciliation loop, at one entry. */
    method ReconcileSnapshot(k: int, frame: nat, delivered: bool)
      requires k in snapshotMap
      modifies this`snapshotMap, this`sentSnapshots, this`comparedSnapshots
      ensures Snapshots() == ReconcileEntry(old(Snapshots()), k, frame, delivered)
    {
      if frame - k < SNAPSHOT_AGE_FRAMES {
        return;
      }
      if !snapshotMap[k].sent {
        snapshotMap := snapshotMap[k := snapshotMap[k].(sent := true)];
        if delivered {
          sentSnapshots := sentSnapshots + [snapshotMap[k].snapshot];
        }
      }
      if !snapshotMap[k].confirmed && k in pendingRemoteSnapshots {
        comparedSnapshots := comparedSnapshots + [SnapshotComparison(snapshotMap[k].snapshot, pendingRemoteSnapshots[k])];
        snapshotMap := snapshotMap[k := snapshotMap[k].(confirmed := true)];
      }
      if snapshotMap[k].confirmed && snapshotMap[k].sent {
        snapshotMap := snapshotMap - {k};
        assert snapshotMap == old(snapshotMap) - {k};
      } else {
        assert snapshotMap == old(snapshotMap)[k := old(snapshotMap)[k].(sent := true)];
      }
    }

    method ReconcileSnapshots(frame: nat, delivered: set<int>)
      modifies this`snapshotMap, this`sentSnapshots, this`comparedSnapshots
      ensures Snapshots() == ReconcileEntries(old(Snapshots()), old(snapshotMap.Keys), frame, delivered)
    {
      var todo := snapshotMap.Keys;
      while todo != {}
        invariant todo <= snapshotMap.Keys
        invariant ReconcileEntries(Snapshots(), todo, frame, delivered)
               == ReconcileEntries(old(Snapshots()), old(snapshotMap.Keys), frame, delivered)
        decreases |todo|
      {
        var k := SmallestKey(todo);
        ReconcileSnapshot(k, frame, k in delivered);
        todo := todo - {k};
      }
    }

    method ExchangeHashes(frame: nat, isPlayer: bool, delivered: seq<bool>)
      requires Valid() && |delivered| == NUM_HASH_CHECKPOINTS
      modifies hashCheckpoints, this`pendingRemoteHashes, this`sentHashes, this`comparedHashes
      ensures Hashes() == ExchangeSlots(old(Hashes()), NUM_HASH_CHECKPOINTS, frame, isPlayer, delivered)
    {
      for i := 0 to NUM_HASH_CHECKPOINTS
        invariant Hashes() == ExchangeSlots(old(Hashes()), i, frame, isPlayer, delivered)
      {
        ghost var before := Hashes();
        var cp := hashCheckpoints[i];
        if cp.valid && frame - cp.frameIdx >= HASH_CHECKPOINT_AGE_FRAMES {
          if !cp.sent && isPlayer {
            if delivered[i] {
              sentHashes := sentHashes + [BattleHash(cp.frameIdx, cp.hashes, true)];
              hashCheckpoints[i] := cp.(sent := true);
            }
          }
          if cp.frameIdx in pendingRemoteHashes {
            comparedHashes := comparedHashes + [Comparison(hashCheckpoints[i], pendingRemoteHashes[cp.frameIdx])];
            pendingRemoteHashes := pendingRemoteHashes - {cp.frameIdx};
          } else {
            assert pendingRemoteHashes == pendingRemoteHashes - {cp.frameIdx};
          }
          assert hashCheckpoints[..] == before.ring[i := hashCheckpoints[i]];
        }
        assert Hashes() == ExchangeSlot(before, i, frame, isPlayer, delivered[i]);
      }
    }

    /** One Step: first every received message, then, if snapshots are enabled, both exchange passes. */
    method Step(messages: seq<Message>, snapshotsEnabled: bool, frame: nat, isPlayer: bool,
                snapshotDelivered: set<int>, hashDelivered: seq<bool>)
      requires Valid() && |hashDelivered| == NUM_HASH_CHECKPOINTS
      modifies this, hashCheckpoints
      ensures var (s, h) := ReceiveMessages(old(Snapshots()), old(Hashes()), messages);
              && Snapshots() == (if snapshotsEnabled then ReconcileEntries(s, s.entries.Keys, frame, snapshotDelivered) else s)
              && Hashes() == (if snapshotsEnabled then
                                ExchangeSlots(h, NUM_HASH_CHECKPOINTS, frame, isPlayer, hashDelivered) else h)
    {
      for i := 0 to |messages|
        invariant (Snapshots(), Hashes()) == ReceiveMessages(old(Snapshots()), old(Hashes()), messages[..i])
      {
        assert messages[..i + 1][..i] == messages[..i];
        match messages[i] {
          case SnapshotMessage(s) => OnSnapshot(s);
          case HashMessage(h) => OnHash(h);
        }
      }
      assert messages[..|messages|] == messages;
      if snapshotsEnabled {
        ReconcileSnapshots(frame, snapshotDelivered);
        ExchangeHashes(frame, isPlayer, hashDelivered);
      }
    }
  }
}
