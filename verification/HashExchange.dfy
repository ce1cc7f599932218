/**
 Desync verification version 2 over whole runs: any number of clients, each simulating, rolling
 back and exchanging aged hash checkpoints, interleaved in any way.

 The engine and GGPO appear as: every simulated frame yields hashes (a re-simulation may yield
 others), a rollback returns to a frame at most `window` behind the furthest frame simulated, and a
 message delivered to a client was sent by another one. Nothing is assumed about order, loss or
 duplication of messages, nor about when a client steps.
 */
module HashExchange {

  import opened StateVerification

  /**
   `frame` is the frame simulated last and `high` the furthest one. `latest` is history: the hashes
   of the latest simulation of each frame.
   */
  datatype Peer = Peer(frame: nat, high: nat, latest: map<nat, SemanticHashes>, hashes: HashState)

  type System = seq<Peer>

  datatype Event =
    | Simulate(who: nat, result: SemanticHashes)
    | Rollback(who: nat, to: nat)
    | Receive(who: nat, from: nat, m: BattleHash)
    | Exchange(who: nat, isPlayer: bool, delivered: seq<bool>)

  function Start(frame: nat): Peer {
    Peer(frame, frame, map[], HashState(EmptyRing(), map[], [], []))
  }

  ghost predicate Allowed(s: System, e: Event, window: nat) {
    && e.who < |s|
    && match e
       case Simulate(_, _) => true
       case Rollback(i, to) => to <= s[i].frame && s[i].high <= to + window
       case Receive(i, from, m) => from < |s| && from != i && m in s[from].hashes.outbox
       case Exchange(_, _, delivered) => |delivered| == NUM_HASH_CHECKPOINTS
  }

  ghost function ApplyTo(p: Peer, e: Event): Peer
    requires e.Exchange? ==> |e.delivered| == NUM_HASH_CHECKPOINTS
  {
    match e
    case Simulate(_, result) =>
      var frame := p.frame + 1;
      Peer(frame, if frame > p.high then frame else p.high, p.latest[frame := result],
           p.hashes.(ring := CaptureHash(p.hashes.ring, frame, result)))
    case Rollback(_, to) => p.(frame := to)
    case Receive(_, _, m) => p.(hashes := p.hashes.(pending := ReceiveHash(p.hashes.pending, m)))
    case Exchange(_, isPlayer, delivered) =>
      p.(hashes := ExchangeSlots(p.hashes, NUM_HASH_CHECKPOINTS, p.frame, isPlayer, delivered))
  }

  ghost function Apply(s: System, e: Event): System
    requires e.who < |s|
    requires e.Exchange? ==> |e.delivered| == NUM_HASH_CHECKPOINTS
  {
    s[e.who := ApplyTo(s[e.who], e)]
  }

  /** `run` is a run from s to s', every event of which is allowed when it happens. */
  ghost predicate Reaches(s: System, run: seq<Event>, s': System, window: nat)
    decreases |run|
  {
    if run == [] then s' == s
    else Allowed(s, run[0], window) && Reaches(Apply(s, run[0]), run[1..], s', window)
  }

  ghost predicate Fresh(s: System) {
    forall i | 0 <= i < |s| :: s[i] == Start(s[i].frame)
  }

  /** No rollback can simulate this frame again. */
  predicate Final(p: Peer, frame: int, window: nat) {
    frame in p.latest && frame + window <= p.high
  }

  // ----- What holds of each client at every moment -----

  ghost predicate RingSound(p: Peer) {
    forall k | 0 <= k < NUM_HASH_CHECKPOINTS && p.hashes.ring[k].valid ::
      var cp := p.hashes.ring[k];
      && 0 <= cp.frameIdx <= p.high && cp.frameIdx % HASH_CHECKPOINT_INTERVAL == 0 && SlotOf(cp.frameIdx) == k
      && cp.frameIdx in p.latest && p.latest[cp.frameIdx] == cp.hashes
  }

  /** The frame is aged and its value is the one given. */
  ghost predicate Settled(p: Peer, frame: int, hashes: SemanticHashes) {
    && frame >= 0 && frame in p.latest && p.latest[frame] == hashes
    && frame + HASH_CHECKPOINT_AGE_FRAMES <= p.high
  }

  /** The frame's slot will not offer the frame for sending again. */
  ghost predicate Spent(ring: Ring, frame: nat) {
    var cp := ring[SlotOf(frame)];
    cp.valid && frame % HASH_CHECKPOINT_INTERVAL == 0 && (frame < cp.frameIdx || (frame == cp.frameIdx && cp.sent))
  }

  ghost predicate SentSound(p: Peer) {
    && (forall m | m in p.hashes.outbox :: Settled(p, m.frameIdx, m.hashes) && Spent(p.hashes.ring, m.frameIdx))
    && (forall a, b | 0 <= a < b < |p.hashes.outbox| :: p.hashes.outbox[a].frameIdx != p.hashes.outbox[b].frameIdx)
  }

  ghost predicate ComparedSound(p: Peer) {
    forall c | c in p.hashes.compared ::
      Settled(p, c.local.frameIdx, c.local.hashes) && c.remote.frameIdx == c.local.frameIdx
  }

  ghost predicate PeerInvariant(p: Peer, window: nat) {
    && p.frame <= p.high <= p.frame + window
    && (forall g | g in p.latest :: g <= p.high)
    && RingSound(p) && SentSound(p) && ComparedSound(p)
  }

  // ----- Each event keeps it -----

  lemma SlotsOfOneRingApart(f: nat, g: nat)
    requires f % HASH_CHECKPOINT_INTERVAL == 0 && g % HASH_CHECKPOINT_INTERVAL == 0
    requires SlotOf(f) == SlotOf(g) && f > g
    ensures f >= g + HASH_CHECKPOINT_INTERVAL * NUM_HASH_CHECKPOINTS
  {
  }

  /** A slot is only ever taken over by a later frame: a ring cycle is longer than any rollback. */
  lemma CaptureMovesForward(p: Peer, g: nat, window: nat)
    requires PeerInvariant(p, window) && window < HASH_CHECKPOINT_AGE_FRAMES
    requires g == p.frame + 1 && g % HASH_CHECKPOINT_INTERVAL == 0
    ensures var cp := p.hashes.ring[SlotOf(g)]; cp.valid ==> cp.frameIdx <= g
  {
    var cp := p.hashes.ring[SlotOf(g)];
    if cp.valid && cp.frameIdx > g {
      SlotsOfOneRingApart(cp.frameIdx, g);
    }
  }

  lemma SimulateKeeps(p: Peer, e: Event, window: nat)
    requires PeerInvariant(p, window) && window < HASH_CHECKPOINT_AGE_FRAMES && e.Simulate?
    ensures PeerInvariant(ApplyTo(p, e), window)
  {
    var p', g := ApplyTo(p, e), p.frame + 1;
    if g % HASH_CHECKPOINT_INTERVAL == 0 {
      CaptureMovesForward(p, g, window);
    }
    assert RingSound(p');
    forall m | m in p'.hashes.outbox ensures Settled(p', m.frameIdx, m.hashes) && Spent(p'.hashes.ring, m.frameIdx) {
      assert Settled(p, m.frameIdx, m.hashes) && Spent(p.hashes.ring, m.frameIdx);
    }
    forall c | c in p'.hashes.compared ensures Settled(p', c.local.frameIdx, c.local.hashes) {
      assert Settled(p, c.local.frameIdx, c.local.hashes);
    }
  }

  lemma ExchangeSlotKeeps(p: Peer, slot: nat, isPlayer: bool, delivered: bool, window: nat)
    requires PeerInvariant(p, window) && slot < NUM_HASH_CHECKPOINTS
    requires forall k | k in p.hashes.pending :: p.hashes.pending[k].frameIdx == k
    ensures PeerInvariant(p.(hashes := ExchangeSlot(p.hashes, slot, p.frame, isPlayer, delivered)), window)
  {
    var cp := p.hashes.ring[slot];
    var p' := p.(hashes := ExchangeSlot(p.hashes, slot, p.frame, isPlayer, delivered));
    assert RingSound(p');
    if Aged(p.frame, cp) {
      assert Settled(p', cp.frameIdx, cp.hashes);
      forall m | m in p.hashes.outbox
        ensures Settled(p', m.frameIdx, m.hashes) && Spent(p'.hashes.ring, m.frameIdx)
      {
      }
    }
  }

  lemma {:induction false} ExchangeKeeps(p: Peer, n: nat, isPlayer: bool, delivered: seq<bool>, window: nat)
    requires PeerInvariant(p, window) && n <= NUM_HASH_CHECKPOINTS == |delivered|
    requires forall k | k in p.hashes.pending :: p.hashes.pending[k].frameIdx == k
    ensures var hashes := ExchangeSlots(p.hashes, n, p.frame, isPlayer, delivered);
            && PeerInvariant(p.(hashes := hashes), window)
            && (forall k | k in hashes.pending :: k in p.hashes.pending && hashes.pending[k] == p.hashes.pending[k])
            && (forall c | c in hashes.compared :: c in p.hashes.compared || c.remote in p.hashes.pending.Values)
            && (forall m | m in p.hashes.outbox :: m in hashes.outbox)
  {
    if n > 0 {
      ExchangeKeeps(p, n - 1, isPlayer, delivered, window);
      var mid := p.(hashes := ExchangeSlots(p.hashes, n - 1, p.frame, isPlayer, delivered));
      ExchangeSlotKeeps(mid, n - 1, isPlayer, delivered[n - 1], window);
    }
  }

  // ----- The whole system -----

  /** The hash was sent by some client other than i. */
  ghost predicate SentByAnother(s: System, i: nat, m: BattleHash) {
    exists j | 0 <= j < |s| && j != i :: m in s[j].hashes.outbox
  }

  /** What the invariant says of one client. */
  ghost predicate ClientSound(s: System, i: nat, window: nat)
    requires i < |s|
  {
    && PeerInvariant(s[i], window)
    && (forall k | k in s[i].hashes.pending ::
          s[i].hashes.pending[k].frameIdx == k && SentByAnother(s, i, s[i].hashes.pending[k]))
    && (forall c | c in s[i].hashes.compared :: SentByAnother(s, i, c.remote))
  }

  ghost predicate Invariant(s: System, window: nat) {
    forall i {:trigger s[i]} | 0 <= i < |s| :: ClientSound(s, i, window)
  }

  lemma PeerEventKeeps(s: System, e: Event, window: nat)
    requires Invariant(s, window) && window < HASH_CHECKPOINT_AGE_FRAMES && Allowed(s, e, window)
    ensures var p, p' := s[e.who], ApplyTo(s[e.who], e);
            && PeerInvariant(p', window)
            && (forall m | m in p.hashes.outbox :: m in p'.hashes.outbox)
            && (forall k | k in p'.hashes.pending :: p'.hashes.pending[k].frameIdx == k)
            && (forall k | k in p'.hashes.pending :: SentByAnother(s, e.who, p'.hashes.pending[k]))
            && (forall c | c in p'.hashes.compared :: SentByAnother(s, e.who, c.remote))
  {
    var p := s[e.who];
    match e
    case Simulate(_, _) => SimulateKeeps(p, e, window);
    case Rollback(_, _) =>
    case Receive(i, from, m) =>
      assert SentByAnother(s, i, m);
    case Exchange(_, isPlayer, delivered) =>
      ExchangeKeeps(p, NUM_HASH_CHECKPOINTS, isPlayer, delivered, window);
  }

  /** What was sent stays sent, so its sender stays one. */
  lemma SentStaysSent(s: System, e: Event, window: nat, i: nat, m: BattleHash)
    requires Invariant(s, window) && window < HASH_CHECKPOINT_AGE_FRAMES && Allowed(s, e, window)
    requires i < |s| && SentByAnother(s, i, m)
    ensures SentByAnother(Apply(s, e), i, m)
  {
    PeerEventKeeps(s, e, window);
    var j :| 0 <= j < |s| && j != i && m in s[j].hashes.outbox;
    assert m in Apply(s, e)[j].hashes.outbox;
  }

  lemma EventKeepsClient(s: System, e: Event, i: nat, window: nat)
    requires Invariant(s, window) && window < HASH_CHECKPOINT_AGE_FRAMES && Allowed(s, e, window) && i < |s|
    ensures ClientSound(Apply(s, e), i, window)
  {
    PeerEventKeeps(s, e, window);
    forall m | SentByAnother(s, i, m) ensures SentByAnother(Apply(s, e), i, m) {
      SentStaysSent(s, e, window, i, m);
    }
  }

  lemma EventKeepsInvariant(s: System, e: Event, window: nat)
    requires Invariant(s, window) && window < HASH_CHECKPOINT_AGE_FRAMES && Allowed(s, e, window)
    ensures Invariant(Apply(s, e), window)
  {
    forall i | 0 <= i < |s| ensures ClientSound(Apply(s, e), i, window) {
      EventKeepsClient(s, e, i, window);
    }
  }

  lemma {:induction false} RunKeepsInvariant(s: System, run: seq<Event>, s': System, window: nat)
    requires Invariant(s, window) && window < HASH_CHECKPOINT_AGE_FRAMES && Reaches(s, run, s', window)
    ensures Invariant(s', window) && |s'| == |s|
    decreases |run|
  {
    if run != [] {
      EventKeepsInvariant(s, run[0], window);
      RunKeepsInvariant(Apply(s, run[0]), run[1..], s', window);
    }
  }

  lemma FreshInvariant(s: System, window: nat)
    requires Fresh(s)
    ensures Invariant(s, window)
  {
    forall i | 0 <= i < |s| ensures ClientSound(s, i, window) {
      assert s[i] == Start(s[i].frame);
    }
  }

  lemma EventKeepsFinal(s: System, e: Event, i: nat, frame: int, window: nat)
    requires Invariant(s, window) && Allowed(s, e, window)
    requires i < |s| && Final(s[i], frame, window)
    ensures Final(Apply(s, e)[i], frame, window) && Apply(s, e)[i].latest[frame] == s[i].latest[frame]
  {
  }

  /** The value of a frame beyond the rollback window never changes again. */
  lemma {:induction false} FinalForever(s: System, run: seq<Event>, s': System, i: nat, frame: int, window: nat)
    requires Invariant(s, window) && window < HASH_CHECKPOINT_AGE_FRAMES && Reaches(s, run, s', window)
    requires i < |s| && Final(s[i], frame, window)
    ensures |s'| == |s| && Final(s'[i], frame, window) && s'[i].latest[frame] == s[i].latest[frame]
    decreases |run|
  {
    if run != [] {
      EventKeepsInvariant(s, run[0], window);
      EventKeepsFinal(s, run[0], i, frame, window);
      FinalForever(Apply(s, run[0]), run[1..], s', i, frame, window);
    }
  }

  // ----- The theorems -----

  /**
   Whatever the interleaving, every hash a client ever sent carries the final value of its frame: it
   is the frame's latest value now and after any continuation, although ring slots are re-captured
   by rollbacks and reused every 64 checkpoints.
   */
  lemma SentHashesAreFinal(s0: System, run: seq<Event>, s: System, more: seq<Event>, s': System, window: nat,
                           i: nat, m: BattleHash)
    requires Fresh(s0) && window < HASH_CHECKPOINT_AGE_FRAMES
    requires Reaches(s0, run, s, window) && Reaches(s, more, s', window)
    requires i < |s| && m in s[i].hashes.outbox
    ensures |s'| == |s|
    ensures Final(s[i], m.frameIdx, window) && s[i].latest[m.frameIdx] == m.hashes
    ensures Final(s'[i], m.frameIdx, window) && s'[i].latest[m.frameIdx] == m.hashes
  {
    FreshInvariant(s0, window);
    RunKeepsInvariant(s0, run, s, window);
    assert Settled(s[i], m.frameIdx, m.hashes);
    FinalForever(s, more, s', i, m.frameIdx, window);
  }

  /** No client sends the hash of a frame twice. */
  lemma SentOncePerFrame(s0: System, run: seq<Event>, s: System, window: nat, i: nat, a: nat, b: nat)
    requires Fresh(s0) && window < HASH_CHECKPOINT_AGE_FRAMES && Reaches(s0, run, s, window)
    requires i < |s| && a < b < |s[i].hashes.outbox|
    ensures s[i].hashes.outbox[a].frameIdx != s[i].hashes.outbox[b].frameIdx
  {
    FreshInvariant(s0, window);
    RunKeepsInvariant(s0, run, s, window);
  }

  /**
   No false alarm: whenever a client has compared a checkpoint with a received hash and found them
   to differ, the final values of that frame at the two clients do differ.
   */
  lemma MismatchMeansDesync(s0: System, run: seq<Event>, s: System, window: nat, i: nat, c: Comparison)
    requires Fresh(s0) && window < HASH_CHECKPOINT_AGE_FRAMES && Reaches(s0, run, s, window)
    requires i < |s| && c in s[i].hashes.compared
    ensures exists j | 0 <= j < |s| && j != i ::
              && Final(s[i], c.local.frameIdx, window) && Final(s[j], c.local.frameIdx, window)
              && (IsMismatch(c) <==> s[i].latest[c.local.frameIdx].overall != s[j].latest[c.local.frameIdx].overall)
  {
    FreshInvariant(s0, window);
    RunKeepsInvariant(s0, run, s, window);
    assert Settled(s[i], c.local.frameIdx, c.local.hashes);
    assert SentByAnother(s, i, c.remote);
    var j :| 0 <= j < |s| && j != i && c.remote in s[j].hashes.outbox;
    assert Settled(s[j], c.remote.frameIdx, c.remote.hashes);
  }

  /** Clients that agree on the value of every frame final at both. */
  ghost predicate AgreeOnFinalFrames(s: System, window: nat) {
    forall i, j, frame: nat | 0 <= i < |s| && 0 <= j < |s| && Final(s[i], frame, window) && Final(s[j], frame, window) ::
      s[i].latest[frame] == s[j].latest[frame]
  }

  /** Clients whose simulations agree never report a mismatch, in any run. */
  lemma AgreementNeverReports(s0: System, run: seq<Event>, s: System, window: nat)
    requires Fresh(s0) && window < HASH_CHECKPOINT_AGE_FRAMES && Reaches(s0, run, s, window)
    requires AgreeOnFinalFrames(s, window)
    ensures forall i, c | 0 <= i < |s| && c in s[i].hashes.compared :: !IsMismatch(c)
  {
    forall i, c | 0 <= i < |s| && c in s[i].hashes.compared ensures !IsMismatch(c) {
      MismatchMeansDesync(s0, run, s, window, i, c);
      FreshInvariant(s0, window);
      RunKeepsInvariant(s0, run, s, window);
      assert Settled(s[i], c.local.frameIdx, c.local.hashes);
    }
  }
}
