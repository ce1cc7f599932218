/**
 The sending side of version 2: which hashes a pass hands to the network, that a player's frames do
 get sent, and detection of a divergence from the send on.
 */
module HashSending {

  import opened Common
  import opened StateVerification
  import opened HashExchange
  import opened HashDetection

  // ----- One pass -----

  function HashOf(cp: HashCheckpoint): BattleHash {
    BattleHash(cp.frameIdx, cp.hashes, true)
  }

  /** The checkpoint is old enough and was not sent yet. */
  predicate Due(frame: nat, cp: HashCheckpoint) {
    cp.valid && cp.frameIdx + HASH_CHECKPOINT_AGE_FRAMES <= frame && !cp.sent
  }

  /** The message is the hash of a due checkpoint among the first n slots, whose send succeeds. */
  predicate OfDueSlot(ring: Ring, n: nat, frame: nat, delivered: seq<bool>, m: BattleHash)
    requires n <= NUM_HASH_CHECKPOINTS == |delivered|
  {
    exists k | 0 <= k < n :: Due(frame, ring[k]) && delivered[k] && m == HashOf(ring[k])
  }

  lemma OfDueSlotStep(ring: Ring, n: nat, frame: nat, delivered: seq<bool>, m: BattleHash)
    requires 0 < n <= NUM_HASH_CHECKPOINTS == |delivered|
    ensures OfDueSlot(ring, n, frame, delivered, m) <==>
              || OfDueSlot(ring, n - 1, frame, delivered, m)
              || (Due(frame, ring[n - 1]) && delivered[n - 1] && m == HashOf(ring[n - 1]))
  {}

  lemma SlotSends(st: HashState, slot: nat, frame: nat, isPlayer: bool, delivered: bool)
    requires slot < NUM_HASH_CHECKPOINTS
    ensures var st' := ExchangeSlot(st, slot, frame, isPlayer, delivered);
            var sends := isPlayer && delivered && Due(frame, st.ring[slot]);
            && st'.outbox == (if sends then st.outbox + [HashOf(st.ring[slot])] else st.outbox)
            && st'.ring[slot].sent == (st.ring[slot].sent || sends)
  {}

  /**
   A player's pass sends exactly the hashes of the due checkpoints whose send succeeds, and marks
   exactly those as sent; anyone else's sends nothing.
   */
  lemma {:induction false} PassSendsExactly(st: HashState, n: nat, frame: nat, isPlayer: bool, delivered: seq<bool>)
    requires n <= NUM_HASH_CHECKPOINTS == |delivered|
    ensures var st' := ExchangeSlots(st, n, frame, isPlayer, delivered);
            && (!isPlayer ==> st'.outbox == st.outbox)
            && (isPlayer ==> forall m :: m in st'.outbox <==> m in st.outbox || OfDueSlot(st.ring, n, frame, delivered, m))
            && (forall k | 0 <= k < n ::
                  st'.ring[k].sent == (st.ring[k].sent || (isPlayer && delivered[k] && Due(frame, st.ring[k]))))
  {
    if n > 0 {
      PassSendsExactly(st, n - 1, frame, isPlayer, delivered);
      SlotsKeepFrames(st, n - 1, frame, isPlayer, delivered);
      SlotSends(ExchangeSlots(st, n - 1, frame, isPlayer, delivered), n - 1, frame, isPlayer, delivered[n - 1]);
      forall m ensures OfDueSlot(st.ring, n, frame, delivered, m) <==>
                         || OfDueSlot(st.ring, n - 1, frame, delivered, m)
                         || (Due(frame, st.ring[n - 1]) && delivered[n - 1] && m == HashOf(st.ring[n - 1]))
      {
        OfDueSlotStep(st.ring, n, frame, delivered, m);
      }
    }
  }

  // ----- Over whole runs -----

  /** A checkpoint marked as sent was sent, with the value it has. */
  ghost predicate SentFlagsTrue(p: Peer) {
    forall k | 0 <= k < NUM_HASH_CHECKPOINTS && p.hashes.ring[k].sent ::
      p.hashes.ring[k].valid && HashOf(p.hashes.ring[k]) in p.hashes.outbox
  }

  lemma ExchangeKeepsFlags(p: Peer, e: HashExchange.Event)
    requires SentFlagsTrue(p) && e.Exchange? && |e.delivered| == NUM_HASH_CHECKPOINTS
    ensures SentFlagsTrue(ApplyTo(p, e))
  {
    PassSendsExactly(p.hashes, NUM_HASH_CHECKPOINTS, p.frame, e.isPlayer, e.delivered);
    SlotsKeepFrames(p.hashes, NUM_HASH_CHECKPOINTS, p.frame, e.isPlayer, e.delivered);
    var p' := ApplyTo(p, e);
    forall k | 0 <= k < NUM_HASH_CHECKPOINTS && p'.hashes.ring[k].sent
      ensures p'.hashes.ring[k].valid && HashOf(p'.hashes.ring[k]) in p'.hashes.outbox
    {
      if !p.hashes.ring[k].sent {
        assert OfDueSlot(p.hashes.ring, NUM_HASH_CHECKPOINTS, p.frame, e.delivered, HashOf(p.hashes.ring[k]));
      }
    }
  }

  lemma SentIsOld(p: Peer, k: nat, window: nat)
    requires PeerInvariant(p, window) && SentFlagsTrue(p) && k < NUM_HASH_CHECKPOINTS
    requires p.hashes.ring[k].sent
    ensures p.hashes.ring[k].frameIdx + HASH_CHECKPOINT_AGE_FRAMES <= p.high
  {
    assert HashOf(p.hashes.ring[k]) in p.hashes.outbox;
  }

  /** A frame that was sent is too old to be captured again. */
  lemma SimulateKeepsFlags(p: Peer, e: HashExchange.Event, window: nat)
    requires PeerInvariant(p, window) && window < HASH_CHECKPOINT_AGE_FRAMES && e.Simulate? && SentFlagsTrue(p)
    ensures SentFlagsTrue(ApplyTo(p, e))
  {
    var g := p.frame + 1;
    var before, after := p.hashes.ring, ApplyTo(p, e).hashes.ring;
    forall k | 0 <= k < NUM_HASH_CHECKPOINTS && after[k].sent
      ensures after[k].valid && HashOf(after[k]) in p.hashes.outbox
    {
      if before[k].sent {
        SentIsOld(p, k, window);
      }
    }
  }

  lemma EventKeepsFlags(s: System, e: HashExchange.Event, i: nat, window: nat)
    requires Invariant(s, window) && window < HASH_CHECKPOINT_AGE_FRAMES && Allowed(s, e, window)
    requires i < |s| && SentFlagsTrue(s[i])
    ensures SentFlagsTrue(Apply(s, e)[i])
  {
    if e.who == i {
      match e
      case Simulate(_, _) => SimulateKeepsFlags(s[i], e, window);
      case Exchange(_, _, _) => ExchangeKeepsFlags(s[i], e);
      case _ =>
    }
  }

  lemma {:induction false} RunKeepsFlags(s: System, run: seq<HashExchange.Event>, s': System, i: nat, window: nat)
    requires Invariant(s, window) && window < HASH_CHECKPOINT_AGE_FRAMES && Reaches(s, run, s', window)
    requires i < |s| && SentFlagsTrue(s[i])
    ensures |s'| == |s| && SentFlagsTrue(s'[i])
    decreases |run|
  {
    if run != [] {
      EventKeepsInvariant(s, run[0], window);
      EventKeepsFlags(s, run[0], i, window);
      RunKeepsFlags(Apply(s, run[0]), run[1..], s', i, window);
    }
  }

  lemma CapturedIsSent(p: Peer, e: HashExchange.Event, k: nat, window: nat)
    requires PeerInvariant(p, window) && RingCovers(p) && SentFlagsTrue(p)
    requires k in p.latest && k % HASH_CHECKPOINT_INTERVAL == 0 && p.high < k + RING_SPAN
    requires k + HASH_CHECKPOINT_AGE_FRAMES <= p.frame
    requires e.Exchange? && |e.delivered| == NUM_HASH_CHECKPOINTS && e.isPlayer && e.delivered[SlotOf(k)]
    ensures BattleHash(k, p.latest[k], true) in ApplyTo(p, e).hashes.outbox
  {
    RecentIsInRing(p, k, window);
    var n := SlotOf(k);
    PassSendsExactly(p.hashes, NUM_HASH_CHECKPOINTS, p.frame, e.isPlayer, e.delivered);
    if !p.hashes.ring[n].sent {
      assert OfDueSlot(p.hashes.ring, NUM_HASH_CHECKPOINTS, p.frame, e.delivered, HashOf(p.hashes.ring[n]));
    }
  }

  /**
   A player's frame that was captured less than a ring cycle ago has been sent, with its final value,
   after the first exchange that finds it 30 frames old and whose send succeeds.
   */
  lemma PlayerHashIsSent(s0: System, run: seq<HashExchange.Event>, s: System, window: nat, i: nat, k: nat,
                         e: HashExchange.Event)
    requires Fresh(s0) && window < HASH_CHECKPOINT_AGE_FRAMES && Reaches(s0, run, s, window) && i < |s|
    requires k in s[i].latest && k % HASH_CHECKPOINT_INTERVAL == 0 && s[i].high < k + RING_SPAN
    requires k + HASH_CHECKPOINT_AGE_FRAMES <= s[i].frame
    requires Allowed(s, e, window) && e.Exchange? && e.who == i && e.isPlayer && e.delivered[SlotOf(k)]
    ensures BattleHash(k, s[i].latest[k], true) in Apply(s, e)[i].hashes.outbox && Final(s[i], k, window)
  {
    FreshInvariant(s0, window);
    RunKeepsInvariant(s0, run, s, window);
    assert s0[i] == Start(s0[i].frame);
    RunKeepsCovers(s0, run, s, i, window);
    RunKeepsFlags(s0, run, s, i, window);
    CapturedIsSent(s[i], e, k, window);
  }

  ghost predicate NeverAsPlayer(run: seq<HashExchange.Event>, i: nat) {
    forall e | e in run && e.Exchange? && e.who == i :: !e.isPlayer
  }

  lemma {:induction false} RunWithoutPlayerSendsNothing(s: System, run: seq<HashExchange.Event>, s': System, window: nat, i: nat)
    requires Reaches(s, run, s', window) && NeverAsPlayer(run, i) && i < |s|
    ensures |s'| == |s| && s'[i].hashes.outbox == s[i].hashes.outbox
    decreases |run|
  {
    if run != [] {
      var e := run[0];
      assert e in run;
      if e.Exchange? && e.who == i {
        PassSendsExactly(s[i].hashes, NUM_HASH_CHECKPOINTS, s[i].frame, e.isPlayer, e.delivered);
      }
      RunWithoutPlayerSendsNothing(Apply(s, e), run[1..], s', window, i);
    }
  }

  /** A client that only ever exchanges as a spectator has sent nothing. */
  lemma SpectatorSendsNothing(s0: System, run: seq<HashExchange.Event>, s: System, window: nat, i: nat)
    requires Fresh(s0) && Reaches(s0, run, s, window) && NeverAsPlayer(run, i) && i < |s0|
    ensures |s| == |s0| && s[i].hashes.outbox == []
  {
    assert s0[i] == Start(s0[i].frame);
    RunWithoutPlayerSendsNothing(s0, run, s, window, i);
  }

  // ----- Detection, from the send on -----

  lemma {:induction false} RunsCompose(s: System, a: seq<HashExchange.Event>, t: System, b: seq<HashExchange.Event>, u: System,
                                       window: nat)
    requires Reaches(s, a, t, window) && Reaches(t, b, u, window)
    ensures Reaches(s, a + b, u, window)
    decreases |a|
  {
    if a == [] {
      assert a + b == b;
    } else {
      assert (a + b)[1..] == a[1..] + b;
      RunsCompose(Apply(s, a[0]), a[1..], t, b, u, window);
    }
  }

  lemma OneEventRun(s: System, e: HashExchange.Event, window: nat)
    requires Allowed(s, e, window)
    ensures Reaches(s, [e], Apply(s, e), window)
  {
    assert [e][1..] == [];
    assert Reaches(Apply(s, e), [], Apply(s, e), window);
  }

  lemma RunThenEvent(s0: System, run: seq<HashExchange.Event>, s: System, e: HashExchange.Event, window: nat)
    requires Reaches(s0, run, s, window) && Allowed(s, e, window)
    ensures Reaches(s0, run + [e], Apply(s, e), window)
  {
    OneEventRun(s, e, window);
    RunsCompose(s0, run, s, [e], Apply(s, e), window);
  }

  lemma {:induction false} SentStaysInOutbox(s: System, run: seq<HashExchange.Event>, s': System, window: nat, i: nat, m: BattleHash)
    requires Invariant(s, window) && window < HASH_CHECKPOINT_AGE_FRAMES && Reaches(s, run, s', window)
    requires i < |s| && m in s[i].hashes.outbox
    ensures |s'| == |s| && m in s'[i].hashes.outbox
    decreases |run|
  {
    if run != [] {
      PeerEventKeeps(s, run[0], window);
      EventKeepsInvariant(s, run[0], window);
      SentStaysInOutbox(Apply(s, run[0]), run[1..], s', window, i, m);
    }
  }

  lemma ReceivedIsBuffered(s: System, i: nat, from: nat, m: BattleHash, window: nat)
    requires Allowed(s, Receive(i, from, m), window)
    ensures Buffered(Apply(s, Receive(i, from, m))[i], m)
  {}

  lemma SentUntilReceipt(s0: System, run: seq<HashExchange.Event>, s1: System, send: HashExchange.Event,
                         between: seq<HashExchange.Event>, s2: System, window: nat, i: nat, k: nat)
    requires Fresh(s0) && window < HASH_CHECKPOINT_AGE_FRAMES && Reaches(s0, run, s1, window) && i < |s1|
    requires k in s1[i].latest && k % HASH_CHECKPOINT_INTERVAL == 0 && s1[i].high < k + RING_SPAN
    requires k + HASH_CHECKPOINT_AGE_FRAMES <= s1[i].frame
    requires Allowed(s1, send, window) && send.Exchange? && send.who == i && send.isPlayer && send.delivered[SlotOf(k)]
    requires Reaches(Apply(s1, send), between, s2, window)
    ensures |s2| == |s1| && BattleHash(k, s1[i].latest[k], true) in s2[i].hashes.outbox
  {
    PlayerHashIsSent(s0, run, s1, window, i, k, send);
    FreshInvariant(s0, window);
    RunKeepsInvariant(s0, run, s1, window);
    EventKeepsInvariant(s1, send, window);
    SentStaysInOutbox(Apply(s1, send), between, s2, window, i, BattleHash(k, s1[i].latest[k], true));
  }

  /** Up to the receipt: the player's hash is out with its final value, and i has buffered it. */
  lemma SentAndReceived(s0: System, run: seq<HashExchange.Event>, s1: System, send: HashExchange.Event,
                        between: seq<HashExchange.Event>, s2: System, window: nat, i: nat, k: nat, m: BattleHash)
    returns (whole: seq<HashExchange.Event>)
    requires Fresh(s0) && |s0| == 2 && i < 2 && window < HASH_CHECKPOINT_AGE_FRAMES
    requires Reaches(s0, run, s1, window) && |s1| == 2
    requires k in s1[1 - i].latest && k % HASH_CHECKPOINT_INTERVAL == 0 && s1[1 - i].high < k + RING_SPAN
    requires k + HASH_CHECKPOINT_AGE_FRAMES <= s1[1 - i].frame && m == BattleHash(k, s1[1 - i].latest[k], true)
    requires Allowed(s1, send, window) && send.Exchange? && send.who == 1 - i && send.isPlayer && send.delivered[SlotOf(k)]
    requires Reaches(Apply(s1, send), between, s2, window) && |s2| == 2
    ensures var received := Apply(s2, Receive(i, 1 - i, m));
            && Reaches(s0, whole, received, window) && m in received[1 - i].hashes.outbox && Buffered(received[i], m)
  {
    var sent, receipt := Apply(s1, send), Receive(i, 1 - i, m);
    SentUntilReceipt(s0, run, s1, send, between, s2, window, 1 - i, k);
    assert Allowed(s2, receipt, window);
    ReceivedIsBuffered(s2, i, 1 - i, m, window);
    RunThenEvent(s0, run, s1, send, window);
    RunsCompose(s0, run + [send], sent, between, s2, window);
    RunThenEvent(s0, run + [send] + between, s2, receipt, window);
    whole := run + [send] + between + [receipt];
  }

  /** A sent hash carries the value its frame has at any later moment. */
  lemma SentIsFinal(s0: System, run: seq<HashExchange.Event>, s: System, more: seq<HashExchange.Event>, s': System,
                    window: nat, j: nat, m: BattleHash)
    requires Fresh(s0) && window < HASH_CHECKPOINT_AGE_FRAMES && Reaches(s0, run, s, window) && Reaches(s, more, s', window)
    requires j < |s| && m in s[j].hashes.outbox
    ensures |s'| == |s| && m.frameIdx in s'[j].latest && s'[j].latest[m.frameIdx] == m.hashes
  {
    SentHashesAreFinal(s0, run, s, more, s', window, j, m);
  }

  /**
   Two players, from the start of a match: player 1 - i sends the hash of a captured frame at its
   first successful aged exchange; it is delivered to i at any later time; then, if i's buffer is
   never full when a hash arrives, i's first exchange on which the frame is old enough has a mismatch
   for that hash exactly when the two players' final values of the frame differ.
   */
  lemma TwoPlayersDetect(s0: System, run: seq<HashExchange.Event>, s1: System, send: HashExchange.Event,
                         between: seq<HashExchange.Event>, s2: System, more: seq<HashExchange.Event>, s': System,
                         window: nat, i: nat, k: nat, e: HashExchange.Event)
    requires Fresh(s0) && |s0| == 2 && i < 2 && window < HASH_CHECKPOINT_AGE_FRAMES
    requires Reaches(s0, run, s1, window) && |s1| == 2
    requires k in s1[1 - i].latest && k % HASH_CHECKPOINT_INTERVAL == 0 && s1[1 - i].high < k + RING_SPAN
    requires k + HASH_CHECKPOINT_AGE_FRAMES <= s1[1 - i].frame
    requires Allowed(s1, send, window) && send.Exchange? && send.who == 1 - i && send.isPlayer && send.delivered[SlotOf(k)]
    requires Reaches(Apply(s1, send), between, s2, window) && |s2| == 2
    requires var received := Apply(s2, Receive(i, 1 - i, BattleHash(k, s1[1 - i].latest[k], true)));
             && Reaches(received, more, s', window) && |s'| == 2
             && RoomThroughout(received, more, s', i, BattleHash(k, s1[1 - i].latest[k], true), window)
    requires k in s'[i].latest && s'[i].high < k + RING_SPAN && k + HASH_CHECKPOINT_AGE_FRAMES <= s'[i].frame
    requires Allowed(s', e, window) && e.Exchange? && e.who == i
    ensures k in s'[1 - i].latest && s'[1 - i].latest[k] == s1[1 - i].latest[k]
    ensures exists c | c in Apply(s', e)[i].hashes.compared ::
              && c.remote == BattleHash(k, s1[1 - i].latest[k], true)
              && (IsMismatch(c) <==> s'[i].latest[k].overall != s'[1 - i].latest[k].overall)
  {
    var m := BattleHash(k, s1[1 - i].latest[k], true);
    var received := Apply(s2, Receive(i, 1 - i, m));
    var whole := SentAndReceived(s0, run, s1, send, between, s2, window, i, k, m);
    SentIsFinal(s0, whole, received, more, s', window, 1 - i, m);
    TwoClientsDetect(s0, whole, received, more, s', window, i, m, e);
  }

  // ----- What a pass compares and forgets, and what the buffer keeps -----

  /** A frame with an aged checkpoint. */
  predicate AgedFrame(ring: Ring, n: nat, frame: nat, k: int)
    requires n <= NUM_HASH_CHECKPOINTS
  {
    exists slot | 0 <= slot < n :: Aged(frame, ring[slot]) && ring[slot].frameIdx == k
  }

  /** A pass forgets the buffered hashes of exactly the frames with an aged checkpoint: none is compared twice. */
  lemma {:induction false} PassForgetsExactly(st: HashState, n: nat, frame: nat, isPlayer: bool, delivered: seq<bool>)
    requires n <= NUM_HASH_CHECKPOINTS == |delivered|
    ensures var st' := ExchangeSlots(st, n, frame, isPlayer, delivered);
            forall k :: k in st'.pending <==> k in st.pending && !AgedFrame(st.ring, n, frame, k)
  {
    if n > 0 {
      PassForgetsExactly(st, n - 1, frame, isPlayer, delivered);
      SlotsKeepFrames(st, n - 1, frame, isPlayer, delivered);
      forall k ensures AgedFrame(st.ring, n, frame, k) <==>
                         AgedFrame(st.ring, n - 1, frame, k) || (Aged(frame, st.ring[n - 1]) && st.ring[n - 1].frameIdx == k)
      {}
    }
  }

  /** A hash that arrives at a full buffer takes the place of the smallest frame, and of no other. */
  lemma FullBufferDropsSmallest(pending: map<int, BattleHash>, m: BattleHash) returns (dropped: int)
    requires |pending| >= MAX_PENDING_REMOTE_HASHES
    ensures dropped in pending && forall k | k in pending :: dropped <= k
    ensures ReceiveHash(pending, m) == (pending - {dropped})[m.frameIdx := m]
  {
    dropped := Smallest(pending.Keys);
  }
}
