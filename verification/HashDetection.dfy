/**
 The other half of version 2: a hash that arrives is compared, so a divergence between clients that
 hear of each other is found.
 */
module HashDetection {

  import opened StateVerification
  import opened HashExchange

  /** Twice around the ring: how far a client may advance before a checkpoint's slot is taken over. */
  const RING_SPAN := HASH_CHECKPOINT_INTERVAL * NUM_HASH_CHECKPOINTS

  // ----- The ring still has every recent frame -----

  /** A captured frame's slot holds that frame or a later one. */
  ghost predicate RingCovers(p: Peer) {
    forall k: nat | k in p.latest && k % HASH_CHECKPOINT_INTERVAL == 0 ::
      p.hashes.ring[SlotOf(k)].valid && k <= p.hashes.ring[SlotOf(k)].frameIdx
  }

  lemma {:induction false} SlotsKeepFrames(st: HashState, n: nat, frame: nat, isPlayer: bool, delivered: seq<bool>)
    requires n <= NUM_HASH_CHECKPOINTS == |delivered|
    ensures var st' := ExchangeSlots(st, n, frame, isPlayer, delivered);
            && (forall k | 0 <= k < NUM_HASH_CHECKPOINTS ::
                  && st'.ring[k].valid == st.ring[k].valid && st'.ring[k].frameIdx == st.ring[k].frameIdx
                  && st'.ring[k].hashes == st.ring[k].hashes)
            && (forall k | n <= k < NUM_HASH_CHECKPOINTS :: st'.ring[k] == st.ring[k])
  {
    if n > 0 {
      SlotsKeepFrames(st, n - 1, frame, isPlayer, delivered);
    }
  }

  lemma EventKeepsCovers(s: System, e: HashExchange.Event, i: nat, window: nat)
    requires Invariant(s, window) && window < HASH_CHECKPOINT_AGE_FRAMES && Allowed(s, e, window)
    requires i < |s| && RingCovers(s[i])
    ensures RingCovers(Apply(s, e)[i])
  {
    if e.who == i {
      match e
      case Simulate(_, _) => SimulateKeepsCovers(s[i], e, window);
      case Exchange(_, isPlayer, delivered) =>
        SlotsKeepFrames(s[i].hashes, NUM_HASH_CHECKPOINTS, s[i].frame, isPlayer, delivered);
      case _ =>
    }
  }

  lemma SimulateKeepsCovers(p: Peer, e: HashExchange.Event, window: nat)
    requires PeerInvariant(p, window) && window < HASH_CHECKPOINT_AGE_FRAMES && e.Simulate? && RingCovers(p)
    ensures RingCovers(ApplyTo(p, e))
  {
    var g := p.frame + 1;
    if g % HASH_CHECKPOINT_INTERVAL == 0 {
      CaptureMovesForward(p, g, window);
    }
  }

  lemma {:induction false} RunKeepsCovers(s: System, run: seq<HashExchange.Event>, s': System, i: nat, window: nat)
    requires Invariant(s, window) && window < HASH_CHECKPOINT_AGE_FRAMES && Reaches(s, run, s', window)
    requires i < |s| && RingCovers(s[i])
    ensures |s'| == |s| && RingCovers(s'[i])
    decreases |run|
  {
    if run != [] {
      EventKeepsInvariant(s, run[0], window);
      EventKeepsCovers(s, run[0], i, window);
      RunKeepsCovers(Apply(s, run[0]), run[1..], s', i, window);
    }
  }

  /** A frame captured less than a ring cycle ago is in its slot, with its latest value. */
  lemma RecentIsInRing(p: Peer, k: nat, window: nat)
    requires PeerInvariant(p, window) && RingCovers(p)
    requires k in p.latest && k % HASH_CHECKPOINT_INTERVAL == 0 && p.high < k + RING_SPAN
    ensures var cp := p.hashes.ring[SlotOf(k)]; cp.valid && cp.frameIdx == k && cp.hashes == p.latest[k]
  {
    var cp := p.hashes.ring[SlotOf(k)];
    if cp.frameIdx > k {
      SlotsOfOneRingApart(cp.frameIdx, k);
    }
  }

  // ----- One exchange compares every aged frame it has a hash of -----

  /** The pass over the first n slots leaves the buffered hash of a frame whose slot comes later. */
  lemma {:induction false} NotYetReached(p: Peer, n: nat, k: nat, isPlayer: bool, delivered: seq<bool>)
    requires RingSound(p) && n <= SlotOf(k) && |delivered| == NUM_HASH_CHECKPOINTS && k in p.hashes.pending
    ensures var st := ExchangeSlots(p.hashes, n, p.frame, isPlayer, delivered);
            k in st.pending && st.pending[k] == p.hashes.pending[k]
  {
    if n > 0 {
      NotYetReached(p, n - 1, k, isPlayer, delivered);
      SlotsKeepFrames(p.hashes, n - 1, p.frame, isPlayer, delivered);
      assert p.hashes.ring[n - 1].valid ==> SlotOf(p.hashes.ring[n - 1].frameIdx) == n - 1;
    }
  }

  lemma {:induction false} ComparedStays(st: HashState, n: nat, m: nat, frame: nat, isPlayer: bool, delivered: seq<bool>, c: Comparison)
    requires n <= m <= NUM_HASH_CHECKPOINTS == |delivered|
    requires c in ExchangeSlots(st, n, frame, isPlayer, delivered).compared
    ensures c in ExchangeSlots(st, m, frame, isPlayer, delivered).compared
    decreases m
  {
    if n < m {
      ComparedStays(st, n, m - 1, frame, isPlayer, delivered, c);
    }
  }

  /** A comparison of the buffered hash m with the checkpoint of the frame. */
  predicate Compares(c: Comparison, k: nat, hashes: SemanticHashes, m: BattleHash) {
    c.remote == m && c.local.frameIdx == k && c.local.hashes == hashes
  }

  ghost predicate HasCompared(p: Peer, k: nat, hashes: SemanticHashes, m: BattleHash) {
    exists c | c in p.hashes.compared :: Compares(c, k, hashes, m)
  }

  lemma AgedIsCompared(p: Peer, k: nat, isPlayer: bool, delivered: seq<bool>, e: HashExchange.Event)
    requires RingSound(p) && |delivered| == NUM_HASH_CHECKPOINTS && e == Exchange(e.who, isPlayer, delivered)
    requires k in p.hashes.pending && k + HASH_CHECKPOINT_AGE_FRAMES <= p.frame
    requires var cp := p.hashes.ring[SlotOf(k)]; cp.valid && cp.frameIdx == k
    ensures HasCompared(ApplyTo(p, e), k, p.hashes.ring[SlotOf(k)].hashes, p.hashes.pending[k])
  {
    var n := SlotOf(k);
    NotYetReached(p, n, k, isPlayer, delivered);
    SlotsKeepFrames(p.hashes, n, p.frame, isPlayer, delivered);
    var st := ExchangeSlots(p.hashes, n, p.frame, isPlayer, delivered);
    var st' := ExchangeSlot(st, n, p.frame, isPlayer, delivered[n]);
    assert st' == ExchangeSlots(p.hashes, n + 1, p.frame, isPlayer, delivered);
    var c := st'.compared[|st.compared|];
    assert Compares(c, k, p.hashes.ring[n].hashes, p.hashes.pending[k]);
    ComparedStays(p.hashes, n + 1, NUM_HASH_CHECKPOINTS, p.frame, isPlayer, delivered, c);
  }

  // ----- Until then the hash stays buffered -----

  /** i has room for what it receives, hears nothing else of the frame, and does not exchange it yet. */
  ghost predicate Waits(s: System, e: HashExchange.Event, i: nat, m: BattleHash)
    requires i < |s|
  {
    e.who == i ==>
      && (e.Receive? ==> |s[i].hashes.pending| < MAX_PENDING_REMOTE_HASHES && (e.m.frameIdx == m.frameIdx ==> e.m == m))
      && (e.Exchange? ==> s[i].frame - m.frameIdx < HASH_CHECKPOINT_AGE_FRAMES)
  }

  ghost predicate WaitsThroughout(s: System, run: seq<HashExchange.Event>, s': System, i: nat, m: BattleHash, window: nat)
    requires Reaches(s, run, s', window)
    decreases |run|
  {
    run == [] || (i < |s| && Waits(s, run[0], i, m) && WaitsThroughout(Apply(s, run[0]), run[1..], s', i, m, window))
  }

  predicate Buffered(p: Peer, m: BattleHash) {
    m.frameIdx in p.hashes.pending && p.hashes.pending[m.frameIdx] == m
  }

  /** An exchange leaves the buffered hash of a frame that is not old enough. */
  lemma {:induction false} YoungStaysBuffered(st: HashState, n: nat, frame: nat, isPlayer: bool, delivered: seq<bool>, k: int)
    requires n <= NUM_HASH_CHECKPOINTS == |delivered| && frame - k < HASH_CHECKPOINT_AGE_FRAMES && k in st.pending
    ensures var st' := ExchangeSlots(st, n, frame, isPlayer, delivered); k in st'.pending && st'.pending[k] == st.pending[k]
  {
    if n > 0 {
      YoungStaysBuffered(st, n - 1, frame, isPlayer, delivered, k);
    }
  }

  lemma WaitingStaysBuffered(s: System, e: HashExchange.Event, i: nat, m: BattleHash, window: nat)
    requires Allowed(s, e, window) && i < |s| && Buffered(s[i], m) && Waits(s, e, i, m)
    ensures Buffered(Apply(s, e)[i], m)
  {
    if e.who == i && e.Exchange? {
      YoungStaysBuffered(s[i].hashes, NUM_HASH_CHECKPOINTS, s[i].frame, e.isPlayer, e.delivered, m.frameIdx);
    }
  }

  lemma {:induction false} StaysBuffered(s: System, run: seq<HashExchange.Event>, s': System, i: nat, m: BattleHash, window: nat)
    requires Reaches(s, run, s', window) && WaitsThroughout(s, run, s', i, m, window) && i < |s| && Buffered(s[i], m)
    ensures |s'| == |s| && Buffered(s'[i], m)
    decreases |run|
  {
    if run != [] {
      WaitingStaysBuffered(s, run[0], i, m, window);
      StaysBuffered(Apply(s, run[0]), run[1..], s', i, m, window);
    }
  }

  // ----- The theorems -----

  /**
   A hash that i has buffered is compared at i's first exchange on which the frame is old enough, if
   i captured the frame, has advanced by less than a ring cycle since, had room for every hash it
   received in between, and heard of the frame from nobody else.
   */
  lemma DeliveredIsCompared(s0: System, run: seq<HashExchange.Event>, s: System, more: seq<HashExchange.Event>, s': System,
                            window: nat, i: nat, m: BattleHash, e: HashExchange.Event)
    requires Fresh(s0) && window < HASH_CHECKPOINT_AGE_FRAMES
    requires Reaches(s0, run, s, window) && Reaches(s, more, s', window)
    requires i < |s| && Buffered(s[i], m) && WaitsThroughout(s, more, s', i, m, window)
    requires i < |s'| && m.frameIdx >= 0 && m.frameIdx % HASH_CHECKPOINT_INTERVAL == 0
    requires m.frameIdx in s'[i].latest && s'[i].high < m.frameIdx + RING_SPAN
    requires Allowed(s', e, window) && e.Exchange? && e.who == i && m.frameIdx + HASH_CHECKPOINT_AGE_FRAMES <= s'[i].frame
    ensures HasCompared(Apply(s', e)[i], m.frameIdx, s'[i].latest[m.frameIdx], m)
  {
    FreshInvariant(s0, window);
    RunKeepsInvariant(s0, run, s, window);
    RunKeepsInvariant(s, more, s', window);
    assert RingCovers(s0[i]) by {
      assert s0[i] == Start(s0[i].frame);
    }
    RunKeepsCovers(s0, run, s, i, window);
    RunKeepsCovers(s, more, s', i, window);
    StaysBuffered(s, more, s', i, m, window);
    RecentIsInRing(s'[i], m.frameIdx, window);
    AgedIsCompared(s'[i], m.frameIdx, e.isPlayer, e.delivered, e);
  }

  /**
   So a divergence is detected: if the hash came from j and the final values of its frame at i and j
   differ, i has a mismatch after that exchange, and if they agree it has none for that hash.
   */
  lemma DivergenceIsDetected(s0: System, run: seq<HashExchange.Event>, s: System, more: seq<HashExchange.Event>, s': System,
                             window: nat, i: nat, j: nat, m: BattleHash, e: HashExchange.Event)
    requires Fresh(s0) && window < HASH_CHECKPOINT_AGE_FRAMES
    requires Reaches(s0, run, s, window) && Reaches(s, more, s', window)
    requires i < |s| && Buffered(s[i], m) && WaitsThroughout(s, more, s', i, m, window)
    requires i < |s'| && j < |s'| && m in s'[j].hashes.outbox
    requires m.frameIdx in s'[i].latest && s'[i].high < m.frameIdx + RING_SPAN
    requires Allowed(s', e, window) && e.Exchange? && e.who == i && m.frameIdx + HASH_CHECKPOINT_AGE_FRAMES <= s'[i].frame
    ensures m.frameIdx in s'[j].latest
    ensures exists c | c in Apply(s', e)[i].hashes.compared ::
              c.remote == m && (IsMismatch(c) <==> s'[i].latest[m.frameIdx].overall != s'[j].latest[m.frameIdx].overall)
  {
    FreshInvariant(s0, window);
    RunKeepsInvariant(s0, run, s, window);
    RunKeepsInvariant(s, more, s', window);
    assert Settled(s'[j], m.frameIdx, m.hashes) && Spent(s'[j].hashes.ring, m.frameIdx);
    DeliveredIsCompared(s0, run, s, more, s', window, i, m, e);
    var c :| c in Apply(s', e)[i].hashes.compared && Compares(c, m.frameIdx, s'[i].latest[m.frameIdx], m);
  }

  // ----- Two clients -----

  /** i has room for what it receives and does not exchange the frame yet. */
  ghost predicate RoomThroughout(s: System, run: seq<HashExchange.Event>, s': System, i: nat, m: BattleHash, window: nat)
    requires Reaches(s, run, s', window)
    decreases |run|
  {
    run == [] ||
    (&& i < |s|
     && (run[0].who == i ==>
           && (run[0].Receive? ==> |s[i].hashes.pending| < MAX_PENDING_REMOTE_HASHES)
           && (run[0].Exchange? ==> s[i].frame - m.frameIdx < HASH_CHECKPOINT_AGE_FRAMES))
     && RoomThroughout(Apply(s, run[0]), run[1..], s', i, m, window))
  }

  lemma OneIndexPerFrame(outbox: seq<BattleHash>, a: nat, b: nat)
    requires forall x, y | 0 <= x < y < |outbox| :: outbox[x].frameIdx != outbox[y].frameIdx
    requires a < |outbox| && b < |outbox| && outbox[a].frameIdx == outbox[b].frameIdx
    ensures a == b
  {}

  /** All that one of two clients hears of a frame is the one hash the other sent of it. */
  lemma OnlyOneHash(s: System, e: HashExchange.Event, i: nat, m: BattleHash, window: nat)
    requires Invariant(s, window) && |s| == 2 && i < 2 && m in s[1 - i].hashes.outbox
    requires Allowed(s, e, window) && e.Receive? && e.who == i && e.m.frameIdx == m.frameIdx
    ensures e.m == m
  {
    assert e.from == 1 - i;
    var outbox := s[1 - i].hashes.outbox;
    var a :| 0 <= a < |outbox| && outbox[a] == m;
    var b :| 0 <= b < |outbox| && outbox[b] == e.m;
    assert SentSound(s[1 - i]);
    OneIndexPerFrame(outbox, a, b);
  }

  lemma RoomStep(s: System, e: HashExchange.Event, i: nat, m: BattleHash, window: nat)
    requires Invariant(s, window) && window < HASH_CHECKPOINT_AGE_FRAMES && Allowed(s, e, window)
    requires |s| == 2 && i < 2 && m in s[1 - i].hashes.outbox
    requires e.who == i && e.Receive? ==> |s[i].hashes.pending| < MAX_PENDING_REMOTE_HASHES
    requires e.who == i && e.Exchange? ==> s[i].frame - m.frameIdx < HASH_CHECKPOINT_AGE_FRAMES
    ensures Waits(s, e, i, m) && m in Apply(s, e)[1 - i].hashes.outbox
  {
    if e.who == i && e.Receive? && e.m.frameIdx == m.frameIdx {
      OnlyOneHash(s, e, i, m, window);
    }
    PeerEventKeeps(s, e, window);
  }

  lemma {:induction false} RoomIsEnough(s: System, run: seq<HashExchange.Event>, s': System, i: nat, m: BattleHash, window: nat)
    requires Invariant(s, window) && window < HASH_CHECKPOINT_AGE_FRAMES && Reaches(s, run, s', window)
    requires |s| == 2 && i < 2 && m in s[1 - i].hashes.outbox && RoomThroughout(s, run, s', i, m, window)
    ensures WaitsThroughout(s, run, s', i, m, window) && |s'| == 2 && m in s'[1 - i].hashes.outbox
    decreases |run|
  {
    if run != [] {
      RoomStep(s, run[0], i, m, window);
      EventKeepsInvariant(s, run[0], window);
      RoomIsEnough(Apply(s, run[0]), run[1..], s', i, m, window);
    }
  }

  /**
   Between two clients, a hash received by one is judged at its first exchange on which the frame is
   old enough, provided it captured the frame less than a ring cycle ago and its buffer never was
   full when a hash arrived: it then has a mismatch for the hash exactly when the final values differ.
   */
  lemma TwoClientsDetect(s0: System, run: seq<HashExchange.Event>, s: System, more: seq<HashExchange.Event>, s': System,
                         window: nat, i: nat, m: BattleHash, e: HashExchange.Event)
    requires Fresh(s0) && |s0| == 2 && i < 2 && window < HASH_CHECKPOINT_AGE_FRAMES
    requires Reaches(s0, run, s, window) && |s| == 2 && m in s[1 - i].hashes.outbox && Buffered(s[i], m)
    requires Reaches(s, more, s', window) && |s'| == 2 && RoomThroughout(s, more, s', i, m, window)
    requires m.frameIdx in s'[i].latest && s'[i].high < m.frameIdx + RING_SPAN
    requires Allowed(s', e, window) && e.Exchange? && e.who == i && m.frameIdx + HASH_CHECKPOINT_AGE_FRAMES <= s'[i].frame
    ensures m.frameIdx in s'[1 - i].latest
    ensures exists c | c in Apply(s', e)[i].hashes.compared ::
              c.remote == m && (IsMismatch(c) <==> s'[i].latest[m.frameIdx].overall != s'[1 - i].latest[m.frameIdx].overall)
  {
    FreshInvariant(s0, window);
    RunKeepsInvariant(s0, run, s, window);
    RoomIsEnough(s, more, s', i, m, window);
    DivergenceIsDetected(s0, run, s, more, s', window, i, 1 - i, m, e);
  }
}
