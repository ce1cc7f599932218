/**
 Desync verification version 1 over whole runs of any number of clients, players and spectators
 alike: every 60th frame is captured, sent once it is 60 frames old, and compared as soon as another
 client's snapshot arrives, with no check of the local frame's age.

 `window` bounds how far a rollback reaches behind the furthest frame simulated. Snapshots may be
 delivered in any order, any number of times. A receipt is timely unless the frame was captured but
 can still be simulated again; clients whose furthest frames are less than 60 - window apart only
 ever make timely receipts.
 */
module SnapshotExchange {

  import opened StateVerification

  /**
   `latest` is history: the value of the latest simulation of each frame. So is `attempted`, the
   frames this client tried to send.
   */
  datatype Peer = Peer(
    frame: nat,
    high: nat,
    latest: map<nat, int>,
    snapshots: SnapshotState,
    attempted: set<int>
  )

  datatype System = System(start: nat, peers: seq<Peer>)

  datatype Event =
    | Simulate(who: nat, state: int)
    | Rollback(who: nat, to: nat)
    | Receive(who: nat, from: nat, m: StateSnapshot)
    | Reconcile(who: nat, delivered: set<int>)

  function Start(frame: nat): Peer {
    Peer(frame, frame, map[], SnapshotState(map[], map[], [], []), {})
  }

  /** All clients begin the match on the same frame. */
  predicate Fresh(s: System) {
    forall i | 0 <= i < |s.peers| :: s.peers[i] == Start(s.start)
  }

  ghost predicate Allowed(s: System, e: Event, window: nat) {
    && e.who < |s.peers|
    && match e
       case Simulate(_, _) => true
       case Rollback(i, to) => s.start <= to <= s.peers[i].frame && s.peers[i].high <= to + window
       case Receive(i, from, m) => from < |s.peers| && from != i && m in s.peers[from].snapshots.outbox
       case Reconcile(_, _) => true
  }

  /** The frame was not captured here yet, or no rollback can simulate it again. */
  predicate Timely(p: Peer, m: StateSnapshot, window: nat) {
    m.frameIdx > p.high || m.frameIdx + window <= p.high
  }

  /** The entries that are old enough to be sent. */
  function AgedKeys(p: Peer): set<int> {
    set k | k in p.snapshots.entries && p.frame - k >= SNAPSHOT_AGE_FRAMES
  }

  ghost function ApplyTo(p: Peer, e: Event): Peer {
    match e
    case Simulate(_, state) =>
      var frame := p.frame + 1;
      p.(frame := frame, high := if frame > p.high then frame else p.high, latest := p.latest[frame := state],
         snapshots := CaptureSnapshot(p.snapshots, frame, state))
    case Rollback(_, to) => p.(frame := to)
    case Receive(_, _, m) => p.(snapshots := ReceiveSnapshot(p.snapshots, m))
    case Reconcile(_, delivered) =>
      p.(snapshots := ReconcileEntries(p.snapshots, p.snapshots.entries.Keys, p.frame, delivered),
         attempted := p.attempted + AgedKeys(p))
  }

  ghost function Apply(s: System, e: Event): System
    requires e.who < |s.peers|
  {
    s.(peers := s.peers[e.who := ApplyTo(s.peers[e.who], e)])
  }

  /** A run whose receipts are all timely. */
  ghost predicate Reaches(s: System, run: seq<Event>, s': System, window: nat)
    decreases |run|
  {
    if run == [] then s' == s
    else
      && Allowed(s, run[0], window)
      && (run[0].Receive? ==> Timely(s.peers[run[0].who], run[0].m, window))
      && Reaches(Apply(s, run[0]), run[1..], s', window)
  }

  // ----- What holds of each client at every moment -----

  /** A frame after the start that has been captured. */
  predicate Captured(p: Peer, start: nat, k: int) {
    start < k <= p.high && k % SNAPSHOT_INTERVAL == 0
  }

  /** The client's snapshot of a frame, as last simulated. */
  predicate IsSnapshotOf(p: Peer, m: StateSnapshot) {
    m.frameIdx >= 0 && m.frameIdx in p.latest && m.state == p.latest[m.frameIdx]
  }

  /** The frames that the client compared. */
  function ComparedFrames(compared: seq<SnapshotComparison>): set<int> {
    set c | c in compared :: c.local.frameIdx
  }

  lemma ComparedFramesAppend(compared: seq<SnapshotComparison>, c: SnapshotComparison)
    ensures ComparedFrames(compared + [c]) == ComparedFrames(compared) + {c.local.frameIdx}
  {
    assert forall x :: x in compared + [c] <==> x in compared || x == c;
  }

  /**
   The map holds exactly the captured frames that are not both sent and compared, with the flags
   and value to match.
   */
  ghost predicate EntriesSound(p: Peer, start: nat) {
    var matched := ComparedFrames(p.snapshots.compared);
    && (forall k | Captured(p, start, k) :: k in p.snapshots.entries <==> !(k in p.attempted && k in matched))
    && (forall k | k in p.snapshots.entries ::
          var entry := p.snapshots.entries[k];
          && Captured(p, start, k)
          && entry.snapshot.frameIdx == k && IsSnapshotOf(p, entry.snapshot)
          && entry.sent == (k in p.attempted) && entry.confirmed == (k in matched))
  }

  ghost predicate OutboxSound(p: Peer, start: nat) {
    && (forall k | k in p.attempted :: Captured(p, start, k) && k + SNAPSHOT_AGE_FRAMES <= p.high)
    && (forall m | m in p.snapshots.outbox :: m.frameIdx in p.attempted && IsSnapshotOf(p, m))
    && (forall a, b | 0 <= a < b < |p.snapshots.outbox| ::
          p.snapshots.outbox[a].frameIdx != p.snapshots.outbox[b].frameIdx)
  }

  ghost predicate ComparedSound(p: Peer, start: nat, window: nat) {
    forall c | c in p.snapshots.compared ::
      && c.local.frameIdx == c.remote.frameIdx && IsSnapshotOf(p, c.local)
      && Captured(p, start, c.local.frameIdx) && c.local.frameIdx + window <= p.high
  }

  ghost predicate PeerInvariant(p: Peer, start: nat, window: nat) {
    && start <= p.frame <= p.high <= p.frame + window
    && (forall g: nat :: g in p.latest <==> start < g <= p.high)
    && (forall k | k in p.snapshots.pending :: p.snapshots.pending[k].frameIdx == k)
    && EntriesSound(p, start) && OutboxSound(p, start) && ComparedSound(p, start, window)
  }

  lemma SimulateKeeps(p: Peer, e: Event, start: nat, window: nat)
    requires PeerInvariant(p, start, window) && window < SNAPSHOT_AGE_FRAMES && e.Simulate?
    ensures PeerInvariant(ApplyTo(p, e), start, window)
  {
    var p', g := ApplyTo(p, e), p.frame + 1;
    forall k | k in p'.snapshots.entries
      ensures var entry := p'.snapshots.entries[k];
              entry.snapshot.frameIdx == k && IsSnapshotOf(p', entry.snapshot)
    {
    }
    assert g !in p.attempted && g !in ComparedFrames(p.snapshots.compared);
    assert EntriesSound(p', start);
  }

  lemma ReceiveKeeps(p: Peer, e: Event, start: nat, window: nat)
    requires PeerInvariant(p, start, window) && e.Receive? && Timely(p, e.m, window)
    ensures PeerInvariant(ApplyTo(p, e), start, window)
  {
    var p', k := ApplyTo(p, e), e.m.frameIdx;
    if k in p.snapshots.entries {
      var c := SnapshotComparison(p.snapshots.entries[k].snapshot, e.m);
      ComparedFramesAppend(p.snapshots.compared, c);
      assert EntriesSound(p', start);
    }
  }

  /** The client after the reconciliation pass handled one aged entry. */
  function ReconcileOne(p: Peer, k: int, delivered: bool): Peer
    requires k in p.snapshots.entries
  {
    p.(snapshots := ReconcileEntry(p.snapshots, k, p.frame, delivered), attempted := p.attempted + {k})
  }

  lemma ReconcileOneCompares(p: Peer, k: int, delivered: bool)
    requires k in AgedKeys(p) && p.snapshots.entries[k].snapshot.frameIdx == k
    ensures var compared := ReconcileOne(p, k, delivered).snapshots.compared;
            if !p.snapshots.entries[k].confirmed && k in p.snapshots.pending then
              && compared == p.snapshots.compared
                             + [SnapshotComparison(p.snapshots.entries[k].snapshot, p.snapshots.pending[k])]
              && ComparedFrames(compared) == ComparedFrames(p.snapshots.compared) + {k}
            else compared == p.snapshots.compared
  {
    if k in p.snapshots.pending {
      ComparedFramesAppend(p.snapshots.compared,
                           SnapshotComparison(p.snapshots.entries[k].snapshot, p.snapshots.pending[k]));
    }
  }

  lemma ReconcileOneKeeps(p: Peer, k: int, delivered: bool, start: nat, window: nat)
    requires PeerInvariant(p, start, window) && window < SNAPSHOT_AGE_FRAMES && k in AgedKeys(p)
    ensures PeerInvariant(ReconcileOne(p, k, delivered), start, window)
  {
    var p' := ReconcileOne(p, k, delivered);
    ReconcileOneCompares(p, k, delivered);
    assert EntriesSound(p', start);
    assert OutboxSound(p', start);
    assert ComparedSound(p', start, window);
  }

  /** The frames in `todo` that are old enough. */
  function AgedAmong(p: Peer, todo: set<int>): set<int> {
    set k | k in todo && p.frame - k >= SNAPSHOT_AGE_FRAMES
  }

  /** The client after the whole pass. */
  ghost function ReconcileAll(p: Peer, todo: set<int>, delivered: set<int>): Peer
    requires todo <= p.snapshots.entries.Keys
  {
    p.(snapshots := ReconcileEntries(p.snapshots, todo, p.frame, delivered), attempted := p.attempted + AgedAmong(p, todo))
  }

  /** A pass only adds to what was sent and compared, and compares only with what is buffered. */
  ghost predicate OnlyAdds(p: Peer, p': Peer) {
    && p.attempted <= p'.attempted && p'.snapshots.pending == p.snapshots.pending
    && (forall m | m in p.snapshots.outbox :: m in p'.snapshots.outbox)
    && (forall c | c in p'.snapshots.compared :: c in p.snapshots.compared || c.remote in p.snapshots.pending.Values)
  }

  lemma ReconcileAllStep(p: Peer, todo: set<int>, delivered: set<int>)
    requires todo != {} && todo <= p.snapshots.entries.Keys
    ensures var k := Smallest(todo);
            var next := if p.frame - k >= SNAPSHOT_AGE_FRAMES then ReconcileOne(p, k, k in delivered) else p;
            && todo - {k} <= next.snapshots.entries.Keys
            && ReconcileAll(p, todo, delivered) == ReconcileAll(next, todo - {k}, delivered)
            && OnlyAdds(p, next)
  {
    var k := Smallest(todo);
    var next := if p.frame - k >= SNAPSHOT_AGE_FRAMES then ReconcileOne(p, k, k in delivered) else p;
    assert p.attempted + AgedAmong(p, todo) == next.attempted + AgedAmong(next, todo - {k});
    assert k in p.snapshots.pending ==> p.snapshots.pending[k] in p.snapshots.pending.Values;
  }

  lemma {:induction false} ReconcileAllKeeps(p: Peer, todo: set<int>, delivered: set<int>, start: nat, window: nat)
    requires PeerInvariant(p, start, window) && window < SNAPSHOT_AGE_FRAMES && todo <= p.snapshots.entries.Keys
    ensures PeerInvariant(ReconcileAll(p, todo, delivered), start, window) && OnlyAdds(p, ReconcileAll(p, todo, delivered))
    decreases |todo|
  {
    if todo == {} {
      assert ReconcileAll(p, todo, delivered) == p by {
        assert p.attempted + AgedAmong(p, todo) == p.attempted;
      }
    } else {
      var k := Smallest(todo);
      ReconcileAllStep(p, todo, delivered);
      if k in AgedKeys(p) {
        ReconcileOneKeeps(p, k, k in delivered, start, window);
        ReconcileAllKeeps(ReconcileOne(p, k, k in delivered), todo - {k}, delivered, start, window);
      } else {
        ReconcileAllKeeps(p, todo - {k}, delivered, start, window);
      }
    }
  }

  lemma ReconcileKeeps(p: Peer, e: Event, start: nat, window: nat)
    requires PeerInvariant(p, start, window) && window < SNAPSHOT_AGE_FRAMES && e.Reconcile?
    ensures PeerInvariant(ApplyTo(p, e), start, window) && OnlyAdds(p, ApplyTo(p, e))
  {
    ReconcileAllKeeps(p, p.snapshots.entries.Keys, e.delivered, start, window);
    assert AgedAmong(p, p.snapshots.entries.Keys) == AgedKeys(p);
    assert ApplyTo(p, e) == ReconcileAll(p, p.snapshots.entries.Keys, e.delivered);
  }

  // ----- All clients -----

  /** Some client other than i sent the snapshot. */
  ghost predicate SentByAnother(s: System, i: nat, m: StateSnapshot) {
    exists j | 0 <= j < |s.peers| && j != i :: m in s.peers[j].snapshots.outbox
  }

  ghost predicate ClientSound(s: System, i: nat, window: nat)
    requires i < |s.peers|
  {
    && PeerInvariant(s.peers[i], s.start, window)
    && (forall m | m in s.peers[i].snapshots.pending.Values :: SentByAnother(s, i, m))
    && (forall c | c in s.peers[i].snapshots.compared :: SentByAnother(s, i, c.remote))
  }

  ghost predicate Invariant(s: System, window: nat) {
    forall i | 0 <= i < |s.peers| :: ClientSound(s, i, window)
  }

  /** p' is sound, sent at least what p sent, and buffered and compared nothing that was not sent by another. */
  ghost predicate Extends(s: System, i: nat, p': Peer, window: nat)
    requires i < |s.peers|
  {
    && PeerInvariant(p', s.start, window)
    && (forall m | m in s.peers[i].snapshots.outbox :: m in p'.snapshots.outbox)
    && (forall m | m in p'.snapshots.pending.Values :: SentByAnother(s, i, m))
    && (forall c | c in p'.snapshots.compared :: SentByAnother(s, i, c.remote))
  }

  /** A receipt buffers and compares nothing but the snapshot received. */
  lemma ReceiveAdds(p: Peer, m: StateSnapshot)
    ensures var st := ReceiveSnapshot(p.snapshots, m);
            && st.outbox == p.snapshots.outbox
            && (forall x | x in st.pending.Values :: x in p.snapshots.pending.Values || x == m)
            && (forall c | c in st.compared :: c in p.snapshots.compared || c.remote == m)
  {}

  lemma ReceiveExtends(s: System, e: Event, window: nat)
    requires Invariant(s, window) && Allowed(s, e, window) && e.Receive? && Timely(s.peers[e.who], e.m, window)
    ensures Extends(s, e.who, ApplyTo(s.peers[e.who], e), window)
  {
    var p := s.peers[e.who];
    assert ClientSound(s, e.who, window);
    ReceiveKeeps(p, e, s.start, window);
    ReceiveAdds(p, e.m);
    assert SentByAnother(s, e.who, e.m);
  }

  lemma ReconcileExtends(s: System, e: Event, window: nat)
    requires Invariant(s, window) && window < SNAPSHOT_AGE_FRAMES && Allowed(s, e, window) && e.Reconcile?
    ensures Extends(s, e.who, ApplyTo(s.peers[e.who], e), window)
  {
    assert ClientSound(s, e.who, window);
    ReconcileKeeps(s.peers[e.who], e, s.start, window);
  }

  lemma PeerEventKeeps(s: System, e: Event, window: nat)
    requires Invariant(s, window) && window < SNAPSHOT_AGE_FRAMES && Allowed(s, e, window)
    requires e.Receive? ==> Timely(s.peers[e.who], e.m, window)
    ensures Extends(s, e.who, ApplyTo(s.peers[e.who], e), window)
  {
    assert ClientSound(s, e.who, window);
    match e
    case Simulate(i, _) => SimulateKeeps(s.peers[i], e, s.start, window);
    case Rollback(_, _) =>
    case Receive(_, _, _) => ReceiveExtends(s, e, window);
    case Reconcile(_, _) => ReconcileExtends(s, e, window);
  }

  /** What was sent stays sent, so its sender stays one. */
  lemma SentStaysSent(s: System, e: Event, window: nat, i: nat, m: StateSnapshot)
    requires e.who < |s.peers| && Extends(s, e.who, ApplyTo(s.peers[e.who], e), window)
    requires i < |s.peers| && SentByAnother(s, i, m)
    ensures SentByAnother(Apply(s, e), i, m)
  {
    var j :| 0 <= j < |s.peers| && j != i && m in s.peers[j].snapshots.outbox;
    assert m in Apply(s, e).peers[j].snapshots.outbox;
  }

  lemma EventKeepsInvariant(s: System, e: Event, window: nat)
    requires Invariant(s, window) && window < SNAPSHOT_AGE_FRAMES && Allowed(s, e, window)
    requires e.Receive? ==> Timely(s.peers[e.who], e.m, window)
    ensures Invariant(Apply(s, e), window)
  {
    PeerEventKeeps(s, e, window);
    forall i | 0 <= i < |s.peers| ensures ClientSound(Apply(s, e), i, window) {
      assert ClientSound(s, i, window);
      forall m | SentByAnother(s, i, m) ensures SentByAnother(Apply(s, e), i, m) {
        SentStaysSent(s, e, window, i, m);
      }
    }
  }

  lemma {:induction false} RunKeepsInvariant(s: System, run: seq<Event>, s': System, window: nat)
    requires Invariant(s, window) && window < SNAPSHOT_AGE_FRAMES && Reaches(s, run, s', window)
    ensures Invariant(s', window) && s'.start == s.start && |s'.peers| == |s.peers|
    decreases |run|
  {
    if run != [] {
      EventKeepsInvariant(s, run[0], window);
      RunKeepsInvariant(Apply(s, run[0]), run[1..], s', window);
    }
  }

  lemma FreshInvariant(s: System, window: nat)
    requires Fresh(s)
    ensures Invariant(s, window)
  {
    forall i | 0 <= i < |s.peers| ensures ClientSound(s, i, window) {
      assert s.peers[i] == Start(s.start);
    }
  }

  /** No rollback can simulate this frame again. */
  predicate Final(p: Peer, frame: int, window: nat) {
    frame >= 0 && frame in p.latest && frame + window <= p.high
  }

  /** A snapshot that was sent carries the final value of its frame. */
  lemma SentIsFinal(s: System, window: nat, j: nat, m: StateSnapshot)
    requires Invariant(s, window) && window < SNAPSHOT_AGE_FRAMES && j < |s.peers| && m in s.peers[j].snapshots.outbox
    ensures Captured(s.peers[j], s.start, m.frameIdx) && Final(s.peers[j], m.frameIdx, window)
    ensures m == StateSnapshot(m.frameIdx, s.peers[j].latest[m.frameIdx])
    ensures m.frameIdx + SNAPSHOT_AGE_FRAMES <= s.peers[j].high
  {
    assert ClientSound(s, j, window);
    assert m.frameIdx in s.peers[j].attempted;
  }

  // ----- The theorems -----

  /** The frame is final at both clients, and the comparison fails exactly when their values differ. */
  ghost predicate Judges(s: System, window: nat, i: nat, j: nat, c: SnapshotComparison)
    requires i < |s.peers| && j < |s.peers|
  {
    var k := c.local.frameIdx;
    && Final(s.peers[i], k, window) && Final(s.peers[j], k, window)
    && (IsDesync(c) <==> s.peers[i].latest[k] != s.peers[j].latest[k])
  }

  lemma ComparisonJudges(s: System, window: nat, i: nat, j: nat, c: SnapshotComparison)
    requires Invariant(s, window) && window < SNAPSHOT_AGE_FRAMES && i < |s.peers| && j < |s.peers|
    requires c in s.peers[i].snapshots.compared && c.remote in s.peers[j].snapshots.outbox
    ensures Judges(s, window, i, j, c)
  {
    assert ClientSound(s, i, window);
    SentIsFinal(s, window, j, c.remote);
  }

  lemma SenderOf(s: System, window: nat, i: nat, c: SnapshotComparison) returns (j: nat)
    requires Invariant(s, window) && i < |s.peers| && c in s.peers[i].snapshots.compared
    ensures j < |s.peers| && j != i && c.remote in s.peers[j].snapshots.outbox
  {
    assert ClientSound(s, i, window);
    j :| 0 <= j < |s.peers| && j != i && c.remote in s.peers[j].snapshots.outbox;
  }

  /** A comparison fails exactly when two clients' values of the frame differ, and both are final. */
  lemma DesyncMeansDivergence(s0: System, run: seq<Event>, s: System, window: nat, i: nat, c: SnapshotComparison)
    requires Fresh(s0) && window < SNAPSHOT_AGE_FRAMES && Reaches(s0, run, s, window)
    requires i < |s.peers| && c in s.peers[i].snapshots.compared
    ensures exists j: nat | j < |s.peers| && j != i :: Judges(s, window, i, j, c)
  {
    FreshInvariant(s0, window);
    RunKeepsInvariant(s0, run, s, window);
    var j := SenderOf(s, window, i, c);
    ComparisonJudges(s, window, i, j, c);
  }

  ghost predicate AgreeOnFinalFrames(s: System, window: nat) {
    forall i, j, g: nat | 0 <= i < |s.peers| && 0 <= j < |s.peers| && Final(s.peers[i], g, window) && Final(s.peers[j], g, window) ::
      s.peers[i].latest[g] == s.peers[j].latest[g]
  }

  /** Clients whose simulations agree on every frame final at both never leave the match over a snapshot. */
  lemma AgreementNeverDesyncs(s0: System, run: seq<Event>, s: System, window: nat)
    requires Fresh(s0) && window < SNAPSHOT_AGE_FRAMES && Reaches(s0, run, s, window) && AgreeOnFinalFrames(s, window)
    ensures forall i, c | 0 <= i < |s.peers| && c in s.peers[i].snapshots.compared :: !IsDesync(c)
  {
    forall i, c | 0 <= i < |s.peers| && c in s.peers[i].snapshots.compared ensures !IsDesync(c) {
      DesyncMeansDivergence(s0, run, s, window, i, c);
    }
  }

  /** A captured frame has left the map exactly when it has been both sent and compared. */
  lemma ErasedExactlyWhenSentAndCompared(s0: System, run: seq<Event>, s: System, window: nat, i: nat, k: int)
    requires Fresh(s0) && window < SNAPSHOT_AGE_FRAMES && Reaches(s0, run, s, window)
    requires i < |s.peers| && Captured(s.peers[i], s.start, k)
    ensures k !in s.peers[i].snapshots.entries <==>
              k in s.peers[i].attempted && k in ComparedFrames(s.peers[i].snapshots.compared)
    ensures k in s.peers[i].attempted ==> k + SNAPSHOT_AGE_FRAMES <= s.peers[i].high
  {
    FreshInvariant(s0, window);
    RunKeepsInvariant(s0, run, s, window);
    assert ClientSound(s, i, window);
  }

  /** Final values stay: what DesyncMeansDivergence says of a comparison holds forever after. */
  lemma {:induction false} FinalForever(s: System, run: seq<Event>, s': System, window: nat, i: nat, frame: int)
    requires Invariant(s, window) && window < SNAPSHOT_AGE_FRAMES && Reaches(s, run, s', window)
    requires i < |s.peers| && Final(s.peers[i], frame, window)
    ensures i < |s'.peers| && Final(s'.peers[i], frame, window) && s'.peers[i].latest[frame] == s.peers[i].latest[frame]
    decreases |run|
  {
    if run != [] {
      assert ClientSound(s, i, window);
      EventKeepsInvariant(s, run[0], window);
      FinalForever(Apply(s, run[0]), run[1..], s', window, i, frame);
    }
  }

  // ----- Clients close together -----

  ghost predicate WithinSkew(s: System, skew: nat) {
    forall i, j | 0 <= i < |s.peers| && 0 <= j < |s.peers| :: s.peers[i].high <= s.peers[j].high + skew
  }

  /** A run in which the clients' furthest frames are always at most `skew` apart. */
  ghost predicate ReachesClosely(s: System, run: seq<Event>, s': System, window: nat, skew: nat)
    decreases |run|
  {
    WithinSkew(s, skew) &&
    if run == [] then s' == s
    else Allowed(s, run[0], window) && ReachesClosely(Apply(s, run[0]), run[1..], s', window, skew)
  }

  /** What a close client receives is of a frame that is already final there. */
  lemma CloseReceiptIsFinal(s: System, e: Event, window: nat, skew: nat)
    requires Invariant(s, window) && WithinSkew(s, skew) && window + skew < SNAPSHOT_AGE_FRAMES
    requires Allowed(s, e, window) && e.Receive?
    ensures Timely(s.peers[e.who], e.m, window)
    ensures Captured(s.peers[e.who], s.start, e.m.frameIdx) && Final(s.peers[e.who], e.m.frameIdx, window)
  {
    SentIsFinal(s, window, e.from, e.m);
    assert s.peers[e.from].high <= s.peers[e.who].high + skew;
    assert ClientSound(s, e.who, window);
  }

  /** So all the theorems above hold of runs whose rollback depth and skew stay below 60 together. */
  lemma {:induction false} CloseRunsAreTimely(s: System, run: seq<Event>, s': System, window: nat, skew: nat)
    requires Invariant(s, window) && window + skew < SNAPSHOT_AGE_FRAMES && ReachesClosely(s, run, s', window, skew)
    ensures Reaches(s, run, s', window) && WithinSkew(s', skew)
    decreases |run|
  {
    if run != [] {
      if run[0].Receive? {
        CloseReceiptIsFinal(s, run[0], window, skew);
      }
      EventKeepsInvariant(s, run[0], window);
      CloseRunsAreTimely(Apply(s, run[0]), run[1..], s', window, skew);
    }
  }

  /** What a receipt compares, in the state it meets. */
  lemma ReceiptCompares(s: System, e: Event, window: nat, skew: nat)
    requires Invariant(s, window) && WithinSkew(s, skew) && window + skew < SNAPSHOT_AGE_FRAMES
    requires Allowed(s, e, window) && e.Receive?
    ensures var p, p', k := s.peers[e.who], Apply(s, e).peers[e.who], e.m.frameIdx;
            && Final(p, k, window)
            && p'.snapshots.compared
               == if k in p.attempted && k in ComparedFrames(p.snapshots.compared) then p.snapshots.compared
                  else p.snapshots.compared + [SnapshotComparison(StateSnapshot(k, p.latest[k]), e.m)]
  {
    CloseReceiptIsFinal(s, e, window, skew);
    assert ClientSound(s, e.who, window);
  }

  /**
   Among close clients a snapshot is compared the moment it arrives, with the final local value,
   exactly unless its frame was already both sent and compared.
   */
  lemma ComparedOnReceipt(s0: System, run: seq<Event>, s: System, window: nat, skew: nat, e: Event)
    requires Fresh(s0) && window + skew < SNAPSHOT_AGE_FRAMES && ReachesClosely(s0, run, s, window, skew)
    requires Allowed(s, e, window) && e.Receive?
    ensures var p, p', k := s.peers[e.who], Apply(s, e).peers[e.who], e.m.frameIdx;
            && Final(p, k, window)
            && p'.snapshots.compared
               == if k in p.attempted && k in ComparedFrames(p.snapshots.compared) then p.snapshots.compared
                  else p.snapshots.compared + [SnapshotComparison(StateSnapshot(k, p.latest[k]), e.m)]
  {
    FreshInvariant(s0, window);
    CloseRunsAreTimely(s0, run, s, window, skew);
    RunKeepsInvariant(s0, run, s, window);
    ReceiptCompares(s, e, window, skew);
  }

  /** No receipt of the run is of a frame already compared, as when two players get each snapshot at most once. */
  ghost predicate NoRepeats(s: System, run: seq<Event>, s': System, window: nat, skew: nat)
    requires ReachesClosely(s, run, s', window, skew)
    decreases |run|
  {
    run == [] ||
    (&& (run[0].Receive? ==> run[0].m.frameIdx !in ComparedFrames(s.peers[run[0].who].snapshots.compared))
     && NoRepeats(Apply(s, run[0]), run[1..], s', window, skew))
  }

  ghost predicate NothingBuffered(s: System) {
    forall i | 0 <= i < |s.peers| :: s.peers[i].snapshots.pending == map[]
  }

  lemma BufferStaysEmptyStep(s: System, e: Event, window: nat, skew: nat)
    requires Invariant(s, window) && WithinSkew(s, skew) && window + skew < SNAPSHOT_AGE_FRAMES && Allowed(s, e, window)
    requires e.Receive? ==> e.m.frameIdx !in ComparedFrames(s.peers[e.who].snapshots.compared)
    requires NothingBuffered(s)
    ensures NothingBuffered(Apply(s, e))
  {
    assert ClientSound(s, e.who, window);
    if e.Receive? {
      CloseReceiptIsFinal(s, e, window, skew);
    } else if e.Reconcile? {
      ReconcileKeeps(s.peers[e.who], e, s.start, window);
    }
  }

  /** Then the buffer for early snapshots stays empty at every client. */
  lemma {:induction false} BufferStaysEmpty(s: System, run: seq<Event>, s': System, window: nat, skew: nat)
    requires Invariant(s, window) && window + skew < SNAPSHOT_AGE_FRAMES && NothingBuffered(s)
    requires ReachesClosely(s, run, s', window, skew) && NoRepeats(s, run, s', window, skew)
    ensures NothingBuffered(s')
    decreases |run|
  {
    if run != [] {
      if run[0].Receive? {
        CloseReceiptIsFinal(s, run[0], window, skew);
      }
      BufferStaysEmptyStep(s, run[0], window, skew);
      EventKeepsInvariant(s, run[0], window);
      BufferStaysEmpty(Apply(s, run[0]), run[1..], s', window, skew);
    }
  }
}
