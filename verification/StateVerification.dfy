/**
 What one game client does to detect a desync, on values: the ring of hash checkpoints and the map
 of state snapshots that the simulation fills (src/sf4e/sf4e__Game__Battle__System.cxx), and their
 exchange with the other clients (src/session/sf4e__SessionClient.cxx).
 */
module StateVerification {

  import opened Common

  const NUM_HASH_CHECKPOINTS := 64
  const HASH_CHECKPOINT_INTERVAL := 30
  const HASH_CHECKPOINT_AGE_FRAMES := 30
  const MAX_PENDING_REMOTE_HASHES := 64
  const SNAPSHOT_INTERVAL := 60
  const SNAPSHOT_AGE_FRAMES := 60

  // ----- Version 2: hash checkpoints -----

  datatype SemanticHashes = SemanticHashes(overall: nat, flow: nat, chara0: nat, chara1: nat)

  datatype HashCheckpoint = HashCheckpoint(frameIdx: int, valid: bool, sent: bool, hashes: SemanticHashes)

  datatype BattleHash = BattleHash(frameIdx: int, hashes: SemanticHashes, fromPlayer: bool)

  const EMPTY_CHECKPOINT := HashCheckpoint(-1, false, false, SemanticHashes(0, 0, 0, 0))

  type Ring = r: seq<HashCheckpoint> | |r| == NUM_HASH_CHECKPOINTS
    witness seq(NUM_HASH_CHECKPOINTS, _ => EMPTY_CHECKPOINT)

  /** ClearHashCheckpoints. */
  function EmptyRing(): (r: Ring)
    ensures forall k | 0 <= k < NUM_HASH_CHECKPOINTS :: r[k] == EMPTY_CHECKPOINT
  {
    seq(NUM_HASH_CHECKPOINTS, _ => EMPTY_CHECKPOINT)
  }

  /** A local checkpoint and the remote hash it was compared with. */
  datatype Comparison = Comparison(local: HashCheckpoint, remote: BattleHash)

  /** What was handed to the network (outbox) and to ReportHashMismatch (compared) accumulates. */
  datatype HashState = HashState(
    ring: Ring,
    pending: map<int, BattleHash>,
    outbox: seq<BattleHash>,
    compared: seq<Comparison>
  )

  function SlotOf(frame: nat): (slot: nat)
    ensures slot < NUM_HASH_CHECKPOINTS
  {
    frame / HASH_CHECKPOINT_INTERVAL % NUM_HASH_CHECKPOINTS
  }

  /** Capture at a frame: only every 30th, and a re-capture of the frame in the slot keeps its sent flag. */
  function CaptureHash(ring: Ring, frame: nat, hashes: SemanticHashes): Ring {
    if frame % HASH_CHECKPOINT_INTERVAL != 0 then ring
    else
      var slot := ring[SlotOf(frame)];
      ring[SlotOf(frame) := HashCheckpoint(frame, true, slot.sent && slot.frameIdx == frame, hashes)]
  }

  ghost predicate IsSmallest(k: int, keys: set<int>) {
    k in keys && forall j | j in keys :: k <= j
  }

  lemma {:induction false} SmallestExists(keys: set<int>)
    requires keys != {}
    ensures exists k :: IsSmallest(k, keys)
    decreases keys
  {
    var any := Pick(keys);
    var rest := keys - {any};
    if rest == {} {
      assert keys == {any};
      assert IsSmallest(any, keys);
    } else {
      SmallestExists(rest);
      var k :| IsSmallest(k, rest);
      var least := if k < any then k else any;
      assert forall j | j in keys :: j == any || j in rest;
      assert IsSmallest(least, keys);
    }
  }

  ghost function Smallest(keys: set<int>): (k: int)
    requires keys != {}
    ensures IsSmallest(k, keys)
  {
    SmallestExists(keys);
    var k :| IsSmallest(k, keys);
    k
  }

  /** Received hashes are only buffered; a full buffer first drops its smallest frame. */
  ghost function ReceiveHash(pending: map<int, BattleHash>, m: BattleHash): map<int, BattleHash> {
    var room := if |pending| >= MAX_PENDING_REMOTE_HASHES then pending - {Smallest(pending.Keys)} else pending;
    room[m.frameIdx := m]
  }

  predicate Aged(frame: nat, cp: HashCheckpoint) {
    cp.valid && frame - cp.frameIdx >= HASH_CHECKPOINT_AGE_FRAMES
  }

  /** The exchange pass at one slot; `delivered` is whether a send, if one is attempted, succeeds. */
  function ExchangeSlot(st: HashState, slot: nat, frame: nat, isPlayer: bool, delivered: bool): HashState
    requires slot < NUM_HASH_CHECKPOINTS
  {
    var cp := st.ring[slot];
    if !Aged(frame, cp) then st
    else
      var sends := !cp.sent && isPlayer && delivered;
      var after := cp.(sent := cp.sent || sends);
      HashState(
        st.ring[slot := after],
        st.pending - {cp.frameIdx},
        if sends then st.outbox + [BattleHash(cp.frameIdx, cp.hashes, true)] else st.outbox,
        if cp.frameIdx in st.pending then st.compared + [Comparison(after, st.pending[cp.frameIdx])] else st.compared)
  }

  /** The pass over the first n slots. */
  function ExchangeSlots(st: HashState, n: nat, frame: nat, isPlayer: bool, delivered: seq<bool>): HashState
    requires n <= NUM_HASH_CHECKPOINTS == |delivered|
  {
    if n == 0 then st
    else ExchangeSlot(ExchangeSlots(st, n - 1, frame, isPlayer, delivered), n - 1, frame, isPlayer, delivered[n - 1])
  }

  /** ReportHashMismatch speaks up only about the overall hash. */
  predicate IsMismatch(c: Comparison) {
    c.local.hashes.overall != c.remote.hashes.overall
  }

  // ----- Version 1: state snapshots -----

  /** `state` stands for the per-character values of the exchanged structure. */
  datatype StateSnapshot = StateSnapshot(frameIdx: int, state: int)

  datatype SnapshotEntry = SnapshotEntry(snapshot: StateSnapshot, sent: bool, confirmed: bool)

  datatype SnapshotComparison = SnapshotComparison(local: StateSnapshot, remote: StateSnapshot)

  datatype SnapshotState = SnapshotState(
    entries: map<int, SnapshotEntry>,
    pending: map<int, StateSnapshot>,
    outbox: seq<StateSnapshot>,
    compared: seq<SnapshotComparison>
  )

  /** Capture at a frame: every 60th, and a re-capture starts over as neither sent nor confirmed. */
  function CaptureSnapshot(st: SnapshotState, frame: nat, state: int): SnapshotState {
    if frame % SNAPSHOT_INTERVAL != 0 then st
    else st.(entries := st.entries[frame := SnapshotEntry(StateSnapshot(frame, state), false, false)])
  }

  /** On receipt: compare at once with a local snapshot of the frame, or else keep the first one received. */
  function ReceiveSnapshot(st: SnapshotState, m: StateSnapshot): SnapshotState {
    var k := m.frameIdx;
    if k in st.entries then
      var entry := st.entries[k];
      st.(entries := if entry.sent then st.entries - {k} else st.entries[k := entry.(confirmed := true)],
          compared := st.compared + [SnapshotComparison(entry.snapshot, m)])
    else if k in st.pending then st
    else st.(pending := st.pending[k := m])
  }

  /** The reconciliation pass at one entry; `delivered` is whether a send, if one is attempted, succeeds. */
  function ReconcileEntry(st: SnapshotState, k: int, frame: nat, delivered: bool): SnapshotState
    requires k in st.entries
  {
    var entry := st.entries[k];
    if frame - k < SNAPSHOT_AGE_FRAMES then st
    else
      var outbox := if !entry.sent && delivered then st.outbox + [entry.snapshot] else st.outbox;
      var compares := !entry.confirmed && k in st.pending;
      var compared :=
        if compares then st.compared + [SnapshotComparison(entry.snapshot, st.pending[k])] else st.compared;
      var entries :=
        if entry.confirmed || compares then st.entries - {k} else st.entries[k := entry.(sent := true)];
      SnapshotState(entries, st.pending, outbox, compared)
  }

  /** The pass over the entries of `todo`, in ascending order as an ordered map is walked. */
  ghost function ReconcileEntries(st: SnapshotState, todo: set<int>, frame: nat, delivered: set<int>): SnapshotState
    requires todo <= st.entries.Keys
    decreases |todo|
  {
    if todo == {} then st
    else
      var k := Smallest(todo);
      ReconcileEntries(ReconcileEntry(st, k, frame, k in delivered), todo - {k}, frame, delivered)
  }

  /** A snapshot comparison that differs anywhere makes the client leave the match. */
  predicate IsDesync(c: SnapshotComparison) {
    c.local != c.remote
  }
}
