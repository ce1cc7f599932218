/**
 The sending side of version 1: which snapshots a reconciliation hands to the network and which it
 compares, that every captured frame does get sent, and detection of a divergence from the send on.
 */
module SnapshotSending {

  import opened StateVerification
  import opened SnapshotExchange

  // ----- One pass -----

  /** The entry is old enough, and its snapshot was not sent yet. */
  predicate DueToSend(entries: map<int, SnapshotEntry>, k: int, frame: nat) {
    k in entries && frame - k >= SNAPSHOT_AGE_FRAMES && !entries[k].sent
  }

  /** The entry is old enough, not compared yet, and another client's snapshot of the frame has arrived. */
  predicate DueToCompare(st: SnapshotState, k: int, frame: nat) {
    k in st.entries && frame - k >= SNAPSHOT_AGE_FRAMES && !st.entries[k].confirmed && k in st.pending
  }

  /** What a pass over the entries of `todo` did: sent, compared, marked and erased exactly those due. */
  ghost predicate PassDid(st: SnapshotState, st': SnapshotState, todo: set<int>, frame: nat, delivered: set<int>) {
    && st'.pending == st.pending
    && (forall m :: m in st'.outbox <==>
          m in st.outbox || exists k | k in todo * delivered && DueToSend(st.entries, k, frame) :: m == st.entries[k].snapshot)
    && (forall c :: c in st'.compared <==>
          || c in st.compared
          || exists k | k in todo && DueToCompare(st, k, frame) :: c == SnapshotComparison(st.entries[k].snapshot, st.pending[k]))
    && (forall k :: k in st'.entries <==>
          && k in st.entries
          && !(k in todo && frame - k >= SNAPSHOT_AGE_FRAMES && (st.entries[k].confirmed || k in st.pending)))
    && (forall k | k in st'.entries ::
          st'.entries[k] == if k in todo && frame - k >= SNAPSHOT_AGE_FRAMES then st.entries[k].(sent := true) else st.entries[k])
  }

  lemma EntryDid(st: SnapshotState, k: int, frame: nat, delivered: set<int>)
    requires k in st.entries
    ensures PassDid(st, ReconcileEntry(st, k, frame, k in delivered), {k}, frame, delivered)
  {}

  lemma EntryThenRest(st: SnapshotState, mid: SnapshotState, st': SnapshotState, k: int, todo: set<int>, frame: nat, delivered: set<int>)
    requires k in todo && todo <= st.entries.Keys
    requires PassDid(st, mid, {k}, frame, delivered) && PassDid(mid, st', todo - {k}, frame, delivered)
    ensures PassDid(st, st', todo, frame, delivered)
  {
    SentTogether(st, mid, st', k, todo, frame, delivered);
    ComparedTogether(st, mid, st', k, todo, frame, delivered);
  }

  lemma SentTogether(st: SnapshotState, mid: SnapshotState, st': SnapshotState, k: int, todo: set<int>, frame: nat, delivered: set<int>)
    requires k in todo && todo <= st.entries.Keys
    requires PassDid(st, mid, {k}, frame, delivered) && PassDid(mid, st', todo - {k}, frame, delivered)
    ensures forall m :: m in st'.outbox <==>
              m in st.outbox || exists j | j in todo * delivered && DueToSend(st.entries, j, frame) :: m == st.entries[j].snapshot
  {
    assert forall j | j in todo - {k} :: DueToSend(mid.entries, j, frame) <==> DueToSend(st.entries, j, frame);
    assert forall j | j in todo - {k} && DueToSend(st.entries, j, frame) :: mid.entries[j] == st.entries[j];
    forall m | exists j | j in todo * delivered && DueToSend(st.entries, j, frame) :: m == st.entries[j].snapshot
      ensures m in st'.outbox
    {
      var j :| j in todo * delivered && DueToSend(st.entries, j, frame) && m == st.entries[j].snapshot;
      if j == k {
        assert j in {k} * delivered && DueToSend(st.entries, j, frame);
        assert m in mid.outbox;
      } else {
        assert j in (todo - {k}) * delivered && DueToSend(mid.entries, j, frame);
      }
    }
  }

  lemma ComparedTogether(st: SnapshotState, mid: SnapshotState, st': SnapshotState, k: int, todo: set<int>, frame: nat, delivered: set<int>)
    requires k in todo && todo <= st.entries.Keys
    requires PassDid(st, mid, {k}, frame, delivered) && PassDid(mid, st', todo - {k}, frame, delivered)
    ensures forall c :: c in st'.compared <==>
              || c in st.compared
              || exists j | j in todo && DueToCompare(st, j, frame) :: c == SnapshotComparison(st.entries[j].snapshot, st.pending[j])
  {
    assert forall j | j in todo - {k} :: DueToCompare(mid, j, frame) <==> DueToCompare(st, j, frame);
    assert forall j | j in todo - {k} && DueToCompare(st, j, frame) :: mid.entries[j] == st.entries[j];
    forall c | exists j | j in todo && DueToCompare(st, j, frame) :: c == SnapshotComparison(st.entries[j].snapshot, st.pending[j])
      ensures c in st'.compared
    {
      var j :| j in todo && DueToCompare(st, j, frame) && c == SnapshotComparison(st.entries[j].snapshot, st.pending[j]);
      if j == k {
        assert j in {k} && DueToCompare(st, j, frame);
        assert c in mid.compared;
      } else {
        assert j in todo - {k} && DueToCompare(mid, j, frame);
      }
    }
  }

  /** A whole pass, in whatever order it walks the entries. */
  lemma {:induction false} PassDoesExactly(st: SnapshotState, todo: set<int>, frame: nat, delivered: set<int>)
    requires todo <= st.entries.Keys
    ensures PassDid(st, ReconcileEntries(st, todo, frame, delivered), todo, frame, delivered)
    decreases |todo|
  {
    if todo != {} {
      var k := Smallest(todo);
      var mid := ReconcileEntry(st, k, frame, k in delivered);
      EntryDid(st, k, frame, delivered);
      PassDoesExactly(mid, todo - {k}, frame, delivered);
      EntryThenRest(st, mid, ReconcileEntries(mid, todo - {k}, frame, delivered), k, todo, frame, delivered);
    }
  }

  // ----- Over whole runs -----

  /** Until client i's reconciliation finds the frame 60 frames old, it does not try to send it. */
  ghost predicate NotAgedYet(s: System, run: seq<Event>, s': System,
                             window: nat, i: nat, k: int)
    requires Reaches(s, run, s', window)
    decreases |run|
  {
    run == [] ||
    (&& (run[0].Reconcile? && run[0].who == i ==> s.peers[i].frame - k < SNAPSHOT_AGE_FRAMES)
     && NotAgedYet(Apply(s, run[0]), run[1..], s', window, i, k))
  }

  lemma {:induction false} NotAttemptedYet(s: System, run: seq<Event>, s': System,
                                          window: nat, i: nat, k: int)
    requires Reaches(s, run, s', window) && NotAgedYet(s, run, s', window, i, k)
    requires i < |s.peers| && k !in s.peers[i].attempted
    ensures |s'.peers| == |s.peers| && k !in s'.peers[i].attempted
    decreases |run|
  {
    if run != [] {
      NotAttemptedYet(Apply(s, run[0]), run[1..], s', window, i, k);
    }
  }

  lemma CapturedIsSent(s: System, e: Event, window: nat, k: int)
    requires Invariant(s, window) && Allowed(s, e, window) && e.Reconcile?
    requires var p := s.peers[e.who];
             && Captured(p, s.start, k) && p.frame - k >= SNAPSHOT_AGE_FRAMES && k !in p.attempted && k in e.delivered
    ensures var p := s.peers[e.who];
            k in p.latest && StateSnapshot(k, p.latest[k]) in Apply(s, e).peers[e.who].snapshots.outbox
  {
    var p := s.peers[e.who];
    assert ClientSound(s, e.who, window);
    assert EntriesSound(p, s.start);
    PassDoesExactly(p.snapshots, p.snapshots.entries.Keys, p.frame, e.delivered);
    assert k in p.snapshots.entries.Keys * e.delivered && DueToSend(p.snapshots.entries, k, p.frame);
  }

  /**
   Every captured frame, of a player or a spectator, is sent by the first reconciliation that finds it
   60 frames old and whose send succeeds, with its final value.
   */
  lemma FrameIsSent(s0: System, run: seq<Event>, s: System, window: nat,
                    e: Event, k: int)
    requires Fresh(s0) && window < SNAPSHOT_AGE_FRAMES && Reaches(s0, run, s, window)
    requires Allowed(s, e, window) && e.Reconcile? && e.who < |s0.peers| && NotAgedYet(s0, run, s, window, e.who, k)
    requires Captured(s.peers[e.who], s.start, k) && s.peers[e.who].frame - k >= SNAPSHOT_AGE_FRAMES && k in e.delivered
    ensures Final(s.peers[e.who], k, window)
    ensures StateSnapshot(k, s.peers[e.who].latest[k]) in Apply(s, e).peers[e.who].snapshots.outbox
  {
    FreshInvariant(s0, window);
    RunKeepsInvariant(s0, run, s, window);
    assert s0.peers[e.who] == Start(s0.start);
    NotAttemptedYet(s0, run, s, window, e.who, k);
    CapturedIsSent(s, e, window, k);
    assert ClientSound(s, e.who, window);
  }

  // ----- Detection, from the send on -----

  lemma {:induction false} SentStaysInOutbox(s: System, run: seq<Event>, s': System,
                                            window: nat, j: nat, m: StateSnapshot)
    requires Invariant(s, window) && window < SNAPSHOT_AGE_FRAMES && Reaches(s, run, s', window)
    requires j < |s.peers| && m in s.peers[j].snapshots.outbox
    ensures |s'.peers| == |s.peers| && m in s'.peers[j].snapshots.outbox
    decreases |run|
  {
    if run != [] {
      PeerEventKeeps(s, run[0], window);
      EventKeepsInvariant(s, run[0], window);
      SentStaysInOutbox(Apply(s, run[0]), run[1..], s', window, j, m);
    }
  }

  /** All that one of two clients hears of a frame is the one snapshot the other sent of it. */
  lemma OnlyOneSnapshot(p: Peer, start: nat, a: StateSnapshot, b: StateSnapshot)
    requires OutboxSound(p, start) && a in p.snapshots.outbox && b in p.snapshots.outbox && a.frameIdx == b.frameIdx
    ensures a == b
  {}

  lemma OutboxOf(s: System, window: nat, j: nat)
    requires Invariant(s, window) && j < |s.peers|
    ensures OutboxSound(s.peers[j], s.start)
  {
    assert ClientSound(s, j, window);
  }

  lemma RemoteOf(s: System, window: nat, i: nat, c: SnapshotComparison)
    requires Invariant(s, window) && i < |s.peers| && c in s.peers[i].snapshots.compared
    ensures c.remote.frameIdx == c.local.frameIdx
  {
    assert ClientSound(s, i, window);
  }

  lemma SameRemote(s: System, window: nat, i: nat, m: StateSnapshot, c: SnapshotComparison)
    requires Invariant(s, window) && |s.peers| == 2 && i < 2 && m in s.peers[1 - i].snapshots.outbox
    requires c in s.peers[i].snapshots.compared && c.local.frameIdx == m.frameIdx
    ensures c.remote == m
  {
    var j := SenderOf(s, window, i, c);
    RemoteOf(s, window, i, c);
    OutboxOf(s, window, j);
    OnlyOneSnapshot(s.peers[j], s.start, c.remote, m);
  }

  lemma ComparisonOf(compared: seq<SnapshotComparison>, k: int) returns (c: SnapshotComparison)
    requires k in ComparedFrames(compared)
    ensures c in compared && c.local.frameIdx == k
  {
    c :| c in compared && c.local.frameIdx == k;
  }

  /** After a receipt its frame has a comparison: the one it made, or an earlier one if the frame was done with. */
  lemma FrameIsCompared(s: System, e: Event, window: nat, skew: nat) returns (c: SnapshotComparison)
    requires Invariant(s, window) && WithinSkew(s, skew) && window + skew < SNAPSHOT_AGE_FRAMES
    requires Allowed(s, e, window) && e.Receive?
    ensures c in Apply(s, e).peers[e.who].snapshots.compared && c.local.frameIdx == e.m.frameIdx
    ensures c.remote == e.m || c in s.peers[e.who].snapshots.compared
  {
    var p, k := s.peers[e.who], e.m.frameIdx;
    ReceiptCompares(s, e, window, skew);
    if k in p.attempted && k in ComparedFrames(p.snapshots.compared) {
      c := ComparisonOf(p.snapshots.compared, k);
    } else {
      c := SnapshotComparison(StateSnapshot(k, p.latest[k]), e.m);
    }
  }

  lemma ReceiptIsJudged(s: System, window: nat, skew: nat, i: nat, m: StateSnapshot)
    returns (c: SnapshotComparison)
    requires Invariant(s, window) && WithinSkew(s, skew) && window + skew < SNAPSHOT_AGE_FRAMES
    requires |s.peers| == 2 && i < 2 && Allowed(s, Receive(i, 1 - i, m), window)
    ensures c in Apply(s, Receive(i, 1 - i, m)).peers[i].snapshots.compared && c.remote == m
  {
    c := FrameIsCompared(s, Receive(i, 1 - i, m), window, skew);
    if c.remote != m {
      SameRemote(s, window, i, m, c);
    }
  }

  /**
   Two close clients, from the start of a match: client 1 - i sends a captured frame at the first
   successful reconciliation that finds it 60 frames old; whenever the snapshot is then delivered to
   i, i has a comparison for it, which fails exactly when the two clients' final values differ.
   */
  lemma SentThenJudged(s0: System, run: seq<Event>, s1: System, send: Event, between: seq<Event>, s2: System,
                       window: nat, skew: nat, i: nat, m: StateSnapshot)
    requires Fresh(s0) && window + skew < SNAPSHOT_AGE_FRAMES && |s0.peers| == |s1.peers| == 2 && i < 2
    requires Reaches(s0, run, s1, window) && NotAgedYet(s0, run, s1, window, 1 - i, m.frameIdx)
    requires IsSnapshotOf(s1.peers[1 - i], m) && Captured(s1.peers[1 - i], s1.start, m.frameIdx)
    requires Allowed(s1, send, window) && send.Reconcile? && send.who == 1 - i && m.frameIdx in send.delivered
    requires s1.peers[1 - i].frame - m.frameIdx >= SNAPSHOT_AGE_FRAMES
    requires ReachesClosely(Apply(s1, send), between, s2, window, skew)
    ensures Final(s1.peers[1 - i], m.frameIdx, window)
    ensures Allowed(s2, Receive(i, 1 - i, m), window)
    ensures var s' := Apply(s2, Receive(i, 1 - i, m));
            && |s'.peers| == 2
            && exists c | c in s'.peers[i].snapshots.compared :: c.remote == m && Judges(s', window, i, 1 - i, c)
  {
    FrameIsSent(s0, run, s1, window, send, m.frameIdx);
    SentUntilReceipt(s0, run, s1, send, between, s2, window, skew, 1 - i, m);
    DeliveredIsJudged(s2, window, skew, i, m);
  }

  lemma SentUntilReceipt(s0: System, run: seq<Event>, s1: System, send: Event, between: seq<Event>, s2: System,
                         window: nat, skew: nat, j: nat, m: StateSnapshot)
    requires Fresh(s0) && window + skew < SNAPSHOT_AGE_FRAMES && Reaches(s0, run, s1, window) && Allowed(s1, send, window)
    requires send.Reconcile? && j < |s1.peers| && m in Apply(s1, send).peers[j].snapshots.outbox
    requires ReachesClosely(Apply(s1, send), between, s2, window, skew)
    ensures Invariant(s2, window) && WithinSkew(s2, skew)
    ensures |s2.peers| == |s1.peers| == |s0.peers| && m in s2.peers[j].snapshots.outbox
  {
    FreshInvariant(s0, window);
    RunKeepsInvariant(s0, run, s1, window);
    EventKeepsInvariant(s1, send, window);
    CloseRunsAreTimely(Apply(s1, send), between, s2, window, skew);
    SentStaysInOutbox(Apply(s1, send), between, s2, window, j, m);
    RunKeepsInvariant(Apply(s1, send), between, s2, window);
  }

  lemma DeliveredIsJudged(s: System, window: nat, skew: nat, i: nat, m: StateSnapshot)
    requires Invariant(s, window) && WithinSkew(s, skew) && window + skew < SNAPSHOT_AGE_FRAMES
    requires |s.peers| == 2 && i < 2 && m in s.peers[1 - i].snapshots.outbox
    ensures var s' := Apply(s, Receive(i, 1 - i, m));
            exists c | c in s'.peers[i].snapshots.compared :: c.remote == m && Judges(s', window, i, 1 - i, c)
  {
    var e := Receive(i, 1 - i, m);
    var c := ReceiptIsJudged(s, window, skew, i, m);
    CloseReceiptIsFinal(s, e, window, skew);
    EventKeepsInvariant(s, e, window);
    ComparisonJudges(Apply(s, e), window, i, 1 - i, c);
  }

  // ----- Snapshots that arrive before the frame is captured -----

  predicate Buffered(p: Peer, m: StateSnapshot) {
    m.frameIdx in p.snapshots.pending && p.snapshots.pending[m.frameIdx] == m
  }

  lemma {:induction false} StaysBuffered(s: System, run: seq<Event>, s': System,
                                        window: nat, i: nat, m: StateSnapshot)
    requires Reaches(s, run, s', window) && i < |s.peers| && Buffered(s.peers[i], m)
    ensures |s'.peers| == |s.peers| && Buffered(s'.peers[i], m)
    decreases |run|
  {
    if run != [] {
      var p := s.peers[run[0].who];
      if run[0].Reconcile? {
        PassDoesExactly(p.snapshots, p.snapshots.entries.Keys, p.frame, run[0].delivered);
      }
      StaysBuffered(Apply(s, run[0]), run[1..], s', window, i, m);
    }
  }

  /**
   The first snapshot of a frame that reaches a client before it captured the frame is compared, with
   the final local value, by the first reconciliation that finds the frame 60 frames old, unless the
   frame was compared by then.
   */
  lemma EarlySnapshotIsCompared(s0: System, run: seq<Event>, s: System,
                                i: nat, from: nat, m: StateSnapshot, more: seq<Event>, s': System,
                                window: nat, e: Event)
    requires Fresh(s0) && window < SNAPSHOT_AGE_FRAMES && Reaches(s0, run, s, window)
    requires var receipt := Receive(i, from, m);
             && Allowed(s, receipt, window) && m.frameIdx > s.peers[i].high
             && m.frameIdx !in s.peers[i].snapshots.pending
             && Reaches(Apply(s, receipt), more, s', window)
    requires Allowed(s', e, window) && e.Reconcile? && e.who == i
    requires var p := s'.peers[i];
             && Captured(p, s'.start, m.frameIdx) && p.frame - m.frameIdx >= SNAPSHOT_AGE_FRAMES
             && m.frameIdx !in ComparedFrames(p.snapshots.compared)
    ensures Final(s'.peers[i], m.frameIdx, window)
    ensures SnapshotComparison(StateSnapshot(m.frameIdx, s'.peers[i].latest[m.frameIdx]), m)
              in Apply(s', e).peers[i].snapshots.compared
  {
    var receipt := Receive(i, from, m);
    FreshInvariant(s0, window);
    RunKeepsInvariant(s0, run, s, window);
    assert ClientSound(s, i, window);
    assert Buffered(Apply(s, receipt).peers[i], m);
    EventKeepsInvariant(s, receipt, window);
    RunKeepsInvariant(Apply(s, receipt), more, s', window);
    StaysBuffered(Apply(s, receipt), more, s', window, i, m);
    BufferedIsCompared(s', e, window, m);
  }

  lemma BufferedIsCompared(s: System, e: Event, window: nat, m: StateSnapshot)
    requires Invariant(s, window) && window < SNAPSHOT_AGE_FRAMES
    requires Allowed(s, e, window) && e.Reconcile? && Buffered(s.peers[e.who], m)
    requires var p := s.peers[e.who];
             && Captured(p, s.start, m.frameIdx) && p.frame - m.frameIdx >= SNAPSHOT_AGE_FRAMES
             && m.frameIdx !in ComparedFrames(p.snapshots.compared)
    ensures Final(s.peers[e.who], m.frameIdx, window)
    ensures SnapshotComparison(StateSnapshot(m.frameIdx, s.peers[e.who].latest[m.frameIdx]), m)
              in Apply(s, e).peers[e.who].snapshots.compared
  {
    var p := s.peers[e.who];
    assert ClientSound(s, e.who, window);
    assert EntriesSound(p, s.start);
    PassDoesExactly(p.snapshots, p.snapshots.entries.Keys, p.frame, e.delivered);
    assert m.frameIdx in p.snapshots.entries.Keys && DueToCompare(p.snapshots, m.frameIdx, p.frame);
  }
}
