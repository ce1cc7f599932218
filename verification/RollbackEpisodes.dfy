/**
 Episode and burst tracking of src/common/sf4e__RollbackDiagnostics.cxx: prediction stalls,
 connection warnings, bursts of rollback callbacks and the work of each outer frame.

 The counters are compared with a history that keeps every episode: its start while it is open, its
 duration once it is closed.
 */
module RollbackEpisodes {

  import opened Common
  import opened TimingHistogram

  const NUM_BURST_BUCKETS := 8
  const SKIP_COUNT := 5
  const SKIP_PREDICTION_THRESHOLD := 1
  const NONE_MS := -1.0

  /** The upper bounds of all burst buckets but the last, whose bound is the largest counter. */
  const BURST_UPPER: seq<nat> := [1, 2, 3, 4, 6, 8, 12]

  type BurstCounts = s: seq<nat> | |s| == NUM_BURST_BUCKETS witness [0, 0, 0, 0, 0, 0, 0, 0]
  type SkipCounts = s: seq<nat> | |s| == SKIP_COUNT witness [0, 0, 0, 0, 0]

  const NO_BURSTS: BurstCounts := [0, 0, 0, 0, 0, 0, 0, 0]
  const NO_SKIPS: SkipCounts := [0, 0, 0, 0, 0]

  datatype Diagnostics = Diagnostics(
    enabled: bool,
    skipReasons: SkipCounts,
    totalRollbackCallbacks: nat,
    callbacksThisOuterFrame: nat,
    maxCallbacksPerOuterFrame: nat,
    outerFramesWithRollback: nat,
    outerFrames: nat,
    currentResimBurst: nat,
    maxResimBurst: nat,
    resimBurstBuckets: BurstCounts,
    resimBursts: nat,
    connectionWarnings: nat,
    connectionResumes: nat,
    terminalDisconnects: nat,
    connectionWarningStartMs: real,
    connectionWarningDuration: Stat,
    predictionStalls: nat,
    predictionStallStartMs: real,
    predictionStallDuration: Stat
  )

  /** Memory cleared to zero. */
  function Zeroed(enabled: bool): Diagnostics {
    Diagnostics(enabled, NO_SKIPS, 0, 0, 0, 0, 0, 0, 0, NO_BURSTS, 0, 0, 0, 0, 0.0, EMPTY_STAT,
                0, 0.0, EMPTY_STAT)
  }

  function ResetForMatch(enabled: bool): Diagnostics {
    Zeroed(enabled).(connectionWarningStartMs := NONE_MS, predictionStallStartMs := NONE_MS)
  }

  // ----- The event handlers -----

  function BurstBucketFrom(length: nat, i: nat): (b: nat)
    requires i < NUM_BURST_BUCKETS
    ensures i <= b < NUM_BURST_BUCKETS
    decreases NUM_BURST_BUCKETS - i
  {
    if i == NUM_BURST_BUCKETS - 1 || length <= BURST_UPPER[i] then i else BurstBucketFrom(length, i + 1)
  }

  function RecordSkip(d: Diagnostics, reason: int, now: real): Diagnostics {
    if !d.enabled || reason < 0 || reason >= SKIP_COUNT then d
    else
      var d' := d.(skipReasons := d.skipReasons[reason := d.skipReasons[reason] + 1]);
      if reason == SKIP_PREDICTION_THRESHOLD && d.predictionStallStartMs < 0.0 then
        d'.(predictionStalls := d.predictionStalls + 1, predictionStallStartMs := now)
      else d'
  }

  function CloseStall(d: Diagnostics, now: real): Diagnostics {
    if d.predictionStallStartMs >= 0.0 then
      d.(predictionStallDuration := Record(d.predictionStallDuration, now - d.predictionStallStartMs),
         predictionStallStartMs := NONE_MS)
    else d
  }

  function Larger(a: nat, b: nat): nat {
    if a > b then a else b
  }

  function CloseBurst(d: Diagnostics): Diagnostics {
    if d.currentResimBurst > 0 then
      var b := BurstBucketFrom(d.currentResimBurst, 0);
      d.(maxResimBurst := Larger(d.currentResimBurst, d.maxResimBurst), resimBursts := d.resimBursts + 1,
         resimBurstBuckets := d.resimBurstBuckets[b := d.resimBurstBuckets[b] + 1], currentResimBurst := 0)
    else d
  }

  function OnFrameAdvanced(d: Diagnostics, now: real): Diagnostics {
    if d.enabled then CloseBurst(CloseStall(d, now)) else d
  }

  function OnRollbackCallback(d: Diagnostics): Diagnostics {
    if !d.enabled then d
    else
      d.(totalRollbackCallbacks := d.totalRollbackCallbacks + 1,
         callbacksThisOuterFrame := d.callbacksThisOuterFrame + 1,
         currentResimBurst := d.currentResimBurst + 1)
  }

  function CloseOuterFrame(d: Diagnostics): Diagnostics {
    var d' := d.(outerFrames := d.outerFrames + 1);
    if d.callbacksThisOuterFrame > 0 then
      d'.(outerFramesWithRollback := d.outerFramesWithRollback + 1,
          maxCallbacksPerOuterFrame := Larger(d.callbacksThisOuterFrame, d.maxCallbacksPerOuterFrame),
          callbacksThisOuterFrame := 0)
    else d'
  }

  function OnOuterFrame(d: Diagnostics): Diagnostics {
    if d.enabled then CloseBurst(CloseOuterFrame(d)) else d
  }

  function OnSessionEnded(d: Diagnostics, now: real): Diagnostics {
    if !d.enabled then d
    else
      var d' := CloseStall(d, now);
      if d'.currentResimBurst > 0 then OnOuterFrame(d') else d'
  }

  function OnConnectionInterrupted(d: Diagnostics, now: real): Diagnostics {
    if d.enabled && d.connectionWarningStartMs < 0.0 then
      d.(connectionWarnings := d.connectionWarnings + 1, connectionWarningStartMs := now)
    else d
  }

  function CloseWarning(d: Diagnostics, now: real): Diagnostics {
    if d.connectionWarningStartMs >= 0.0 then
      d.(connectionWarningDuration := Record(d.connectionWarningDuration, now - d.connectionWarningStartMs),
         connectionWarningStartMs := NONE_MS)
    else d
  }

  function OnConnectionResumed(d: Diagnostics, now: real): Diagnostics {
    if d.enabled then CloseWarning(d.(connectionResumes := d.connectionResumes + 1), now) else d
  }

  function OnTerminalDisconnect(d: Diagnostics, now: real): Diagnostics {
    if d.enabled then CloseWarning(d.(terminalDisconnects := d.terminalDisconnects + 1), now) else d
  }

  /** The host's switch also erases start times of exactly 0.0, as cleared memory has them. */
  function OnSetEnabled(d: Diagnostics, on: bool): Diagnostics {
    d.(enabled := on,
       connectionWarningStartMs := if d.connectionWarningStartMs == 0.0 then NONE_MS else d.connectionWarningStartMs,
       predictionStallStartMs := if d.predictionStallStartMs == 0.0 then NONE_MS else d.predictionStallStartMs)
  }

  /** `requested`: the environment asks for diagnostics. Start times are erased whatever it says. */
  function OnInitFromEnvironment(d: Diagnostics, requested: bool): Diagnostics {
    d.(enabled := d.enabled || requested, connectionWarningStartMs := NONE_MS, predictionStallStartMs := NONE_MS)
  }

  datatype Event =
    | SetEnabled(on: bool)
    | InitFromEnvironment(requested: bool)
    | Skip(reason: int)
    | FrameAdvanced
    | RollbackCallback
    | OuterFrame
    | SessionEnded
    | ConnectionInterrupted
    | ConnectionResumed
    | TerminalDisconnect

  predicate IsSwitch(e: Event) {
    e.SetEnabled? || e.InitFromEnvironment?
  }

  /** An event and the reading of the steady clock passed with it. */
  datatype Timed = Timed(now: real, event: Event)

  function Step(d: Diagnostics, e: Timed): Diagnostics {
    match e.event
    case SetEnabled(on) => OnSetEnabled(d, on)
    case InitFromEnvironment(requested) => OnInitFromEnvironment(d, requested)
    case Skip(reason) => RecordSkip(d, reason, e.now)
    case FrameAdvanced => OnFrameAdvanced(d, e.now)
    case RollbackCallback => OnRollbackCallback(d)
    case OuterFrame => OnOuterFrame(d)
    case SessionEnded => OnSessionEnded(d, e.now)
    case ConnectionInterrupted => OnConnectionInterrupted(d, e.now)
    case ConnectionResumed => OnConnectionResumed(d, e.now)
    case TerminalDisconnect => OnTerminalDisconnect(d, e.now)
  }

  function Run(d: Diagnostics, run: seq<Timed>): Diagnostics {
    if run == [] then d else Step(Run(d, run[..|run| - 1]), run[|run| - 1])
  }

  // ----- The history of episodes -----

  /** The durations of the closed episodes, the start of the open one, and how many were forgotten while open. */
  datatype Episodes = Episodes(closed: seq<real>, open: Option<real>, forgotten: nat) {
    function Begin(now: real): Episodes {
      if open.Some? then this else this.(open := Some(now))
    }

    function End(now: real): Episodes {
      if open.Some? then Episodes(closed + [now - open.value], None, forgotten) else this
    }

    function Forget(): Episodes {
      if open.Some? then Episodes(closed, None, forgotten + 1) else this
    }
  }

  /** The sizes of the closed groups of callbacks, and the size of the current one. */
  datatype Groups = Groups(closed: seq<nat>, open: nat) {
    function Grow(): Groups {
      Groups(closed, open + 1)
    }

    function End(): Groups {
      if open > 0 then Groups(closed + [open], 0) else this
    }
  }

  datatype History = History(enabled: bool, stalls: Episodes, warnings: Episodes, bursts: Groups, outer: Groups)

  function NoHistory(enabled: bool): History {
    History(enabled, Episodes([], None, 0), Episodes([], None, 0), Groups([], 0), Groups([], 0))
  }

  /** The event makes the component forget an open episode that began at this time. */
  predicate ForgetsStart(e: Event, open: Option<real>) {
    match e
    case SetEnabled(_) => open == Some(0.0)
    case InitFromEnvironment(_) => open.Some?
    case _ => false
  }

  function Spared(e: Event, episodes: Episodes): Episodes {
    if ForgetsStart(e, episodes.open) then episodes.Forget() else episodes
  }

  function Switched(e: Event, enabled: bool): bool
    requires IsSwitch(e)
  {
    if e.SetEnabled? then e.on else enabled || e.requested
  }

  /**
   A stall lasts from the first refused input to the next advanced frame or the end of the session; a
   warning from the interruption to the resumption or the disconnect; a burst to the next advanced
   or outer frame or the end of the session.
   */
  function Remember(h: History, e: Timed): History {
    if IsSwitch(e.event) then
      h.(enabled := Switched(e.event, h.enabled), stalls := Spared(e.event, h.stalls), warnings := Spared(e.event, h.warnings))
    else if !h.enabled then h
    else match e.event
      case Skip(reason) => if reason == SKIP_PREDICTION_THRESHOLD then h.(stalls := h.stalls.Begin(e.now)) else h
      case FrameAdvanced => h.(stalls := h.stalls.End(e.now), bursts := h.bursts.End())
      case RollbackCallback => h.(bursts := h.bursts.Grow(), outer := h.outer.Grow())
      case OuterFrame => h.(bursts := h.bursts.End(), outer := h.outer.End())
      case SessionEnded =>
        h.(stalls := h.stalls.End(e.now), bursts := h.bursts.End(),
           outer := if h.bursts.open > 0 then h.outer.End() else h.outer)
      case ConnectionInterrupted => h.(warnings := h.warnings.Begin(e.now))
      case _ => h.(warnings := h.warnings.End(e.now))
  }

  function RememberAll(h: History, run: seq<Timed>): History {
    if run == [] then h else Remember(RememberAll(h, run[..|run| - 1]), run[|run| - 1])
  }

  function Sum(sizes: seq<nat>): nat {
    if sizes == [] then 0 else Sum(sizes[..|sizes| - 1]) + sizes[|sizes| - 1]
  }

  function Longest(sizes: seq<nat>): nat {
    if sizes == [] then 0 else Larger(Longest(sizes[..|sizes| - 1]), sizes[|sizes| - 1])
  }

  predicate IsLongest(sizes: seq<nat>, m: nat) {
    (forall x | x in sizes :: x <= m) && (if sizes == [] then m == 0 else m in sizes)
  }

  lemma LongerOfTwo(front: seq<nat>, m: nat, last: nat)
    requires IsLongest(front, m)
    ensures IsLongest(front + [last], Larger(m, last))
  {
    assert forall x :: x in front + [last] <==> x in front || x == last;
    if m > last {
      assert m in front;
    }
  }

  lemma {:induction false} LongestIsLongest(sizes: seq<nat>)
    ensures IsLongest(sizes, Longest(sizes))
  {
    if sizes != [] {
      var front, last := sizes[..|sizes| - 1], sizes[|sizes| - 1];
      LongestIsLongest(front);
      LongerOfTwo(front, Longest(front), last);
      assert sizes == front + [last];
    }
  }

  /** The size lies above the bound of the bucket before b and within that of b; the last bucket has no bound. */
  predicate FallsIn(size: nat, b: nat)
    requires b < NUM_BURST_BUCKETS
  {
    && (b > 0 ==> BURST_UPPER[b - 1] < size)
    && (b < NUM_BURST_BUCKETS - 1 ==> size <= BURST_UPPER[b])
  }

  lemma {:induction false} BurstBucketFallsIn(size: nat, i: nat)
    requires i < NUM_BURST_BUCKETS && (i > 0 ==> BURST_UPPER[i - 1] < size)
    ensures FallsIn(size, BurstBucketFrom(size, i))
    decreases NUM_BURST_BUCKETS - i
  {
    if i < NUM_BURST_BUCKETS - 1 && size > BURST_UPPER[i] {
      BurstBucketFallsIn(size, i + 1);
    }
  }

  lemma BurstBoundsIncrease(i: nat, j: nat)
    requires i <= j < |BURST_UPPER|
    ensures BURST_UPPER[i] <= BURST_UPPER[j]
  {}

  /** It is the only bucket the size falls in. */
  lemma BurstBucketIsTheOne(size: nat, b: nat)
    requires b < NUM_BURST_BUCKETS
    ensures BurstBucketFrom(size, 0) == b <==> FallsIn(size, b)
  {
    var c := BurstBucketFrom(size, 0);
    BurstBucketFallsIn(size, 0);
    if FallsIn(size, b) && c != b {
      var low, high := if b < c then b else c, if b < c then c else b;
      BurstBoundsIncrease(low, high - 1);
      assert false;
    }
  }

  /** How many of the sizes fall in burst bucket b. */
  function InBucket(sizes: seq<nat>, b: nat): nat
    requires b < NUM_BURST_BUCKETS
  {
    if sizes == [] then 0
    else InBucket(sizes[..|sizes| - 1], b) + if FallsIn(sizes[|sizes| - 1], b) then 1 else 0
  }

  predicate StartIs(startMs: real, open: Option<real>) {
    match open
    case None => startMs < 0.0
    case Some(at) => startMs == at >= 0.0
  }

  /** One counter per episode; its duration is recorded when it closes, unless it was forgotten. */
  predicate EpisodesTallied(count: nat, startMs: real, durations: Stat, h: Episodes) {
    && StartIs(startMs, h.open)
    && durations == RecordAll(h.closed)
    && count == durations.count + (if h.open.Some? then 1 else 0) + h.forgotten
  }

  ghost predicate BurstsTallied(d: Diagnostics, bursts: Groups) {
    && d.currentResimBurst == bursts.open
    && d.totalRollbackCallbacks == Sum(bursts.closed) + bursts.open
    && d.resimBursts == |bursts.closed|
    && d.maxResimBurst == Longest(bursts.closed)
    && (forall b | 0 <= b < NUM_BURST_BUCKETS :: d.resimBurstBuckets[b] == InBucket(bursts.closed, b))
  }

  predicate OuterTallied(d: Diagnostics, outer: Groups) {
    && d.callbacksThisOuterFrame == outer.open
    && d.totalRollbackCallbacks == Sum(outer.closed) + outer.open
    && d.outerFramesWithRollback == |outer.closed| <= d.outerFrames
    && d.maxCallbacksPerOuterFrame == Longest(outer.closed)
  }

  ghost predicate Tallied(d: Diagnostics, h: History) {
    && d.enabled == h.enabled
    && EpisodesTallied(d.predictionStalls, d.predictionStallStartMs, d.predictionStallDuration, h.stalls)
    && EpisodesTallied(d.connectionWarnings, d.connectionWarningStartMs, d.connectionWarningDuration, h.warnings)
    && BurstsTallied(d, h.bursts)
    && OuterTallied(d, h.outer)
  }

  predicate ClockFromZero(run: seq<Timed>) {
    forall e | e in run :: e.now >= 0.0
  }

  lemma RecordAllAppend(samples: seq<real>, ms: real)
    ensures RecordAll(samples + [ms]) == Record(RecordAll(samples), ms)
  {
    assert (samples + [ms])[..|samples|] == samples;
  }

  lemma EndTallied(count: nat, startMs: real, durations: Stat, h: Episodes, now: real)
    requires EpisodesTallied(count, startMs, durations, h) && startMs >= 0.0
    ensures EpisodesTallied(count, NONE_MS, Record(durations, now - startMs), h.End(now))
  {
    RecordAllAppend(h.closed, now - startMs);
  }

  lemma SumAppend(sizes: seq<nat>, n: nat)
    ensures Sum(sizes + [n]) == Sum(sizes) + n
    ensures Longest(sizes + [n]) == Larger(Longest(sizes), n)
  {
    assert (sizes + [n])[..|sizes|] == sizes;
  }

  lemma InBucketAppend(sizes: seq<nat>, n: nat, b: nat)
    requires b < NUM_BURST_BUCKETS
    ensures InBucket(sizes + [n], b) == InBucket(sizes, b) + if BurstBucketFrom(n, 0) == b then 1 else 0
  {
    BurstBucketIsTheOne(n, b);
    assert (sizes + [n])[..|sizes|] == sizes;
  }

  lemma CloseBurstTallied(d: Diagnostics, bursts: Groups)
    requires BurstsTallied(d, bursts)
    ensures BurstsTallied(CloseBurst(d), bursts.End())
  {
    if bursts.open > 0 {
      SumAppend(bursts.closed, bursts.open);
      forall b | 0 <= b < NUM_BURST_BUCKETS
        ensures CloseBurst(d).resimBurstBuckets[b] == InBucket(bursts.End().closed, b)
      {
        InBucketAppend(bursts.closed, bursts.open, b);
      }
    }
  }

  lemma CloseOuterTallied(d: Diagnostics, outer: Groups)
    requires OuterTallied(d, outer)
    ensures OuterTallied(CloseOuterFrame(d), outer.End())
  {
    if outer.open > 0 {
      SumAppend(outer.closed, outer.open);
    }
  }

  lemma CloseStallTallied(d: Diagnostics, h: History, now: real)
    requires Tallied(d, h)
    ensures Tallied(CloseStall(d, now), h.(stalls := h.stalls.End(now)))
  {
    if h.stalls.open.Some? {
      EndTallied(d.predictionStalls, d.predictionStallStartMs, d.predictionStallDuration, h.stalls, now);
    }
  }

  lemma CloseWarningTallied(d: Diagnostics, h: History, now: real)
    requires Tallied(d, h)
    ensures Tallied(CloseWarning(d, now), h.(warnings := h.warnings.End(now)))
  {
    if h.warnings.open.Some? {
      EndTallied(d.connectionWarnings, d.connectionWarningStartMs, d.connectionWarningDuration, h.warnings, now);
    }
  }

  lemma OuterFrameTallied(d: Diagnostics, h: History)
    requires Tallied(d, h) && d.enabled
    ensures Tallied(OnOuterFrame(d), h.(bursts := h.bursts.End(), outer := h.outer.End()))
  {
    CloseOuterTallied(d, h.outer);
    CloseBurstTallied(CloseOuterFrame(d), h.bursts);
  }

  lemma SessionEndTallied(d: Diagnostics, h: History, now: real)
    requires Tallied(d, h) && d.enabled
    ensures Tallied(OnSessionEnded(d, now), Remember(h, Timed(now, SessionEnded)))
  {
    CloseStallTallied(d, h, now);
    if d.currentResimBurst > 0 {
      OuterFrameTallied(CloseStall(d, now), h.(stalls := h.stalls.End(now)));
    }
  }

  lemma FrameAdvancedTallied(d: Diagnostics, h: History, now: real)
    requires Tallied(d, h) && d.enabled
    ensures Tallied(OnFrameAdvanced(d, now), h.(stalls := h.stalls.End(now), bursts := h.bursts.End()))
  {
    CloseStallTallied(d, h, now);
    CloseBurstTallied(CloseStall(d, now), h.bursts);
  }

  lemma SkipTallied(d: Diagnostics, h: History, e: Timed)
    requires Tallied(d, h) && e.now >= 0.0 && d.enabled && e.event.Skip?
    ensures Tallied(Step(d, e), Remember(h, e))
  {}

  lemma CallbackTallied(d: Diagnostics, h: History, e: Timed)
    requires Tallied(d, h) && d.enabled && e.event.RollbackCallback?
    ensures Tallied(Step(d, e), Remember(h, e))
  {}

  lemma InterruptedTallied(d: Diagnostics, h: History, e: Timed)
    requires Tallied(d, h) && e.now >= 0.0 && d.enabled && e.event.ConnectionInterrupted?
    ensures Tallied(Step(d, e), Remember(h, e))
  {}

  lemma ResumedTallied(d: Diagnostics, h: History, now: real)
    requires Tallied(d, h) && d.enabled
    ensures Tallied(OnConnectionResumed(d, now), h.(warnings := h.warnings.End(now)))
  {
    CloseWarningTallied(d.(connectionResumes := d.connectionResumes + 1), h, now);
  }

  lemma DisconnectTallied(d: Diagnostics, h: History, now: real)
    requires Tallied(d, h) && d.enabled
    ensures Tallied(OnTerminalDisconnect(d, now), h.(warnings := h.warnings.End(now)))
  {
    CloseWarningTallied(d.(terminalDisconnects := d.terminalDisconnects + 1), h, now);
  }

  lemma SwitchTallied(d: Diagnostics, h: History, e: Timed)
    requires Tallied(d, h) && IsSwitch(e.event)
    ensures Tallied(Step(d, e), Remember(h, e))
  {}

  lemma StepTallied(d: Diagnostics, h: History, e: Timed)
    requires Tallied(d, h) && e.now >= 0.0
    ensures Tallied(Step(d, e), Remember(h, e))
  {
    if IsSwitch(e.event) {
      SwitchTallied(d, h, e);
    } else if d.enabled {
      match e.event
      case FrameAdvanced => FrameAdvancedTallied(d, h, e.now);
      case OuterFrame => OuterFrameTallied(d, h);
      case SessionEnded => SessionEndTallied(d, h, e.now);
      case ConnectionResumed => ResumedTallied(d, h, e.now);
      case TerminalDisconnect => DisconnectTallied(d, h, e.now);
      case Skip(_) => SkipTallied(d, h, e);
      case RollbackCallback => CallbackTallied(d, h, e);
      case ConnectionInterrupted => InterruptedTallied(d, h, e);
    }
  }

  lemma {:induction false} RunTallied(enabled: bool, run: seq<Timed>)
    requires ClockFromZero(run)
    ensures Tallied(Run(ResetForMatch(enabled), run), RememberAll(NoHistory(enabled), run))
    decreases |run|
  {
    if run != [] {
      var front := run[..|run| - 1];
      RunTallied(enabled, front);
      StepTallied(Run(ResetForMatch(enabled), front), RememberAll(NoHistory(enabled), front), run[|run| - 1]);
    }
  }

  function Total(counts: BurstCounts, n: nat): nat
    requires n <= NUM_BURST_BUCKETS
  {
    if n == 0 then 0 else Total(counts, n - 1) + counts[n - 1]
  }

  /** How many of the sizes belong to the first n burst buckets. */
  lemma {:induction false} BucketTotal(sizes: seq<nat>, counts: BurstCounts)
    requires forall b | 0 <= b < NUM_BURST_BUCKETS :: counts[b] == InBucket(sizes, b)
    ensures Total(counts, NUM_BURST_BUCKETS) == |sizes|
    decreases |sizes|
  {
    if sizes == [] {
      TotalZero(counts, NUM_BURST_BUCKETS);
    } else {
      var size := sizes[|sizes| - 1];
      var last := BurstBucketFrom(size, 0);
      forall b: nat | b < NUM_BURST_BUCKETS ensures FallsIn(size, b) <==> b == last {
        BurstBucketIsTheOne(size, b);
      }
      var before: BurstCounts := counts[last := counts[last] - 1];
      BucketTotal(sizes[..|sizes| - 1], before);
      TotalUpdate(before, last, NUM_BURST_BUCKETS);
      assert before[last := before[last] + 1] == counts;
    }
  }

  lemma {:induction false} TotalZero(counts: BurstCounts, n: nat)
    requires n <= NUM_BURST_BUCKETS && forall b | 0 <= b < NUM_BURST_BUCKETS :: counts[b] == 0
    ensures Total(counts, n) == 0
  {
    if n > 0 {
      TotalZero(counts, n - 1);
    }
  }

  lemma {:induction false} TotalUpdate(counts: BurstCounts, b: nat, n: nat)
    requires n <= NUM_BURST_BUCKETS && b < NUM_BURST_BUCKETS
    ensures Total(counts[b := counts[b] + 1], n) == Total(counts, n) + if b < n then 1 else 0
  {
    if n > 0 {
      TotalUpdate(counts, b, n - 1);
    }
  }

  // ----- Conservation -----

  predicate StallsConserved(d: Diagnostics) {
    d.predictionStalls == d.predictionStallDuration.count + if d.predictionStallStartMs >= 0.0 then 1 else 0
  }

  predicate WarningsConserved(d: Diagnostics) {
    d.connectionWarnings == d.connectionWarningDuration.count + if d.connectionWarningStartMs >= 0.0 then 1 else 0
  }

  datatype Kind = Stall | Warning

  function EpisodesOf(h: History, kind: Kind): Episodes {
    if kind == Stall then h.stalls else h.warnings
  }

  /** No SetEnabled of the run meets an episode that began at 0.0, no InitFromEnvironment any open episode. */
  predicate Spares(enabled: bool, run: seq<Timed>, kind: Kind) {
    forall i | 0 <= i < |run| ::
      !ForgetsStart(run[i].event, EpisodesOf(RememberAll(NoHistory(enabled), run[..i]), kind).open)
  }

  lemma SparesStep(enabled: bool, front: seq<Timed>, last: Timed, kind: Kind)
    ensures Spares(enabled, front + [last], kind) <==>
              Spares(enabled, front, kind)
              && !ForgetsStart(last.event, EpisodesOf(RememberAll(NoHistory(enabled), front), kind).open)
  {
    var run, n := front + [last], |front|;
    assert forall i | 0 <= i <= n :: run[..i] == front[..i];
    assert front[..n] == front && run[n] == last;
    assert forall i | 0 <= i < n :: run[i] == front[i];
  }

  lemma ForgottenStep(h: History, e: Timed, kind: Kind)
    ensures EpisodesOf(Remember(h, e), kind).forgotten
         == EpisodesOf(h, kind).forgotten + if ForgetsStart(e.event, EpisodesOf(h, kind).open) then 1 else 0
  {}

  lemma {:induction false} ForgottenExactly(enabled: bool, run: seq<Timed>, kind: Kind)
    ensures EpisodesOf(RememberAll(NoHistory(enabled), run), kind).forgotten == 0 <==> Spares(enabled, run, kind)
    decreases |run|
  {
    if run != [] {
      var front, last := run[..|run| - 1], run[|run| - 1];
      ForgottenExactly(enabled, front, kind);
      ForgottenStep(RememberAll(NoHistory(enabled), front), last, kind);
      assert run == front + [last];
      SparesStep(enabled, front, last, kind);
    }
  }

  /**
   After any events since the match began, stalls are the recorded durations plus the open one exactly
   when no SetEnabled met a stall that began at 0.0 and no InitFromEnvironment an open one; likewise
   connection warnings. The recorded durations are those of the closed episodes.
   */
  lemma EpisodesConserved(enabled: bool, run: seq<Timed>)
    requires ClockFromZero(run)
    ensures var d, h := Run(ResetForMatch(enabled), run), RememberAll(NoHistory(enabled), run);
            && (StallsConserved(d) <==> Spares(enabled, run, Stall))
            && (WarningsConserved(d) <==> Spares(enabled, run, Warning))
            && d.predictionStallDuration == RecordAll(h.stalls.closed)
            && d.connectionWarningDuration == RecordAll(h.warnings.closed)
  {
    RunTallied(enabled, run);
    ForgottenExactly(enabled, run, Stall);
    ForgottenExactly(enabled, run, Warning);
  }

  /**
   Rollback callbacks are the closed bursts plus the current one, and likewise per outer frame; the
   burst histogram counts every closed burst once, in the bucket whose bounds it falls between, and
   the longest burst is the maximum.
   */
  lemma BurstsConserved(enabled: bool, run: seq<Timed>)
    requires ClockFromZero(run)
    ensures var d, h := Run(ResetForMatch(enabled), run), RememberAll(NoHistory(enabled), run);
            && d.totalRollbackCallbacks == Sum(h.bursts.closed) + d.currentResimBurst
            && d.totalRollbackCallbacks == Sum(h.outer.closed) + d.callbacksThisOuterFrame
            && d.resimBursts == |h.bursts.closed| == Total(d.resimBurstBuckets, NUM_BURST_BUCKETS)
            && (forall b | 0 <= b < NUM_BURST_BUCKETS :: d.resimBurstBuckets[b] == InBucket(h.bursts.closed, b))
            && d.maxResimBurst == Longest(h.bursts.closed)
            && d.maxCallbacksPerOuterFrame == Longest(h.outer.closed)
            && d.outerFramesWithRollback == |h.outer.closed|
  {
    RunTallied(enabled, run);
    BucketTotal(RememberAll(NoHistory(enabled), run).bursts.closed, Run(ResetForMatch(enabled), run).resimBurstBuckets);
  }

  // ----- The plain counters -----

  /** Whether the diagnostics are on after the run: as the last SetEnabled said, or since requested. */
  function EnabledAfter(enabled: bool, run: seq<Timed>): bool {
    if run == [] then enabled
    else match run[|run| - 1].event
      case SetEnabled(on) => on
      case InitFromEnvironment(requested) => EnabledAfter(enabled, run[..|run| - 1]) || requested
      case _ => EnabledAfter(enabled, run[..|run| - 1])
  }

  /** How often the event happened while the diagnostics were on. */
  function Occurrences(enabled: bool, run: seq<Timed>, event: Event): nat {
    if run == [] then 0
    else
      var front := run[..|run| - 1];
      Occurrences(enabled, front, event) + if run[|run| - 1].event == event && EnabledAfter(enabled, front) then 1 else 0
  }

  /** How often, while they were on, a session ended in the middle of a burst. */
  function CutShort(enabled: bool, run: seq<Timed>): nat {
    if run == [] then 0
    else
      var front := run[..|run| - 1];
      CutShort(enabled, front) +
      if run[|run| - 1].event == SessionEnded && EnabledAfter(enabled, front)
         && RememberAll(NoHistory(enabled), front).bursts.open > 0
      then 1 else 0
  }

  /**
   Skips by reason, resumptions, disconnects and outer frames are counted exactly while the
   diagnostics are on; a session that ends in the middle of a burst counts as one more outer frame.
   */
  lemma {:induction false} EventsCounted(enabled: bool, run: seq<Timed>)
    requires ClockFromZero(run)
    ensures var d := Run(ResetForMatch(enabled), run);
            && d.enabled == EnabledAfter(enabled, run)
            && (forall reason | 0 <= reason < SKIP_COUNT :: d.skipReasons[reason] == Occurrences(enabled, run, Skip(reason)))
            && d.connectionResumes == Occurrences(enabled, run, ConnectionResumed)
            && d.terminalDisconnects == Occurrences(enabled, run, TerminalDisconnect)
            && d.outerFrames == Occurrences(enabled, run, OuterFrame) + CutShort(enabled, run)
    decreases |run|
  {
    if run != [] {
      var front, last := run[..|run| - 1], run[|run| - 1];
      EventsCounted(enabled, front);
      RunTallied(enabled, front);
      CountersStep(Run(ResetForMatch(enabled), front), last);
    }
  }

  /** One event adds to each of the counters exactly what EventsCounted counts. */
  ghost predicate Counts(d: Diagnostics, e: Timed, d': Diagnostics) {
    && (forall reason | 0 <= reason < SKIP_COUNT ::
          d'.skipReasons[reason] == d.skipReasons[reason] + if d.enabled && e.event == Skip(reason) then 1 else 0)
    && d'.connectionResumes == d.connectionResumes + (if d.enabled && e.event.ConnectionResumed? then 1 else 0)
    && d'.terminalDisconnects == d.terminalDisconnects + (if d.enabled && e.event.TerminalDisconnect? then 1 else 0)
    && d'.outerFrames == d.outerFrames +
         (if d.enabled && (e.event.OuterFrame? || (e.event.SessionEnded? && d.currentResimBurst > 0)) then 1 else 0)
    && d'.enabled == if IsSwitch(e.event) then Switched(e.event, d.enabled) else d.enabled
  }

  lemma SwitchCounts(d: Diagnostics, e: Timed)
    requires IsSwitch(e.event)
    ensures Counts(d, e, Step(d, e))
  {}

  lemma EndingCounts(d: Diagnostics, e: Timed)
    requires e.event.FrameAdvanced? || e.event.OuterFrame? || e.event.SessionEnded?
    ensures Counts(d, e, Step(d, e))
  {}

  lemma CountersStep(d: Diagnostics, e: Timed)
    ensures Counts(d, e, Step(d, e))
  {
    match e.event
    case SetEnabled(_) => SwitchCounts(d, e);
    case InitFromEnvironment(_) => SwitchCounts(d, e);
    case FrameAdvanced => EndingCounts(d, e);
    case OuterFrame => EndingCounts(d, e);
    case SessionEnded => EndingCounts(d, e);
    case _ =>
  }

  predicate LaterThanZero(open: Option<real>) {
    open.Some? ==> open.value > 0.0
  }

  lemma {:induction false} StartsLaterThanZero(enabled: bool, run: seq<Timed>)
    requires forall e | e in run :: e.now > 0.0
    ensures var h := RememberAll(NoHistory(enabled), run); LaterThanZero(h.stalls.open) && LaterThanZero(h.warnings.open)
    decreases |run|
  {
    if run != [] {
      StartsLaterThanZero(enabled, run[..|run| - 1]);
    }
  }

  /** Under a clock above 0 and with no InitFromEnvironment since the reset, nothing is ever forgotten. */
  lemma ConservedAboveZero(enabled: bool, run: seq<Timed>)
    requires forall e | e in run :: e.now > 0.0 && !e.event.InitFromEnvironment?
    ensures StallsConserved(Run(ResetForMatch(enabled), run)) && WarningsConserved(Run(ResetForMatch(enabled), run))
  {
    EpisodesConserved(enabled, run);
    forall i | 0 <= i < |run|
      ensures var h := RememberAll(NoHistory(enabled), run[..i]);
              !ForgetsStart(run[i].event, h.stalls.open) && !ForgetsStart(run[i].event, h.warnings.open)
    {
      assert run[i] in run;
      StartsLaterThanZero(enabled, run[..i]);
    }
  }

  /** A stall that begins at 0.0 is counted and then forgotten by the host's switch. */
  lemma StallAtZeroForgotten()
    ensures var d := Run(ResetForMatch(true), [Timed(0.0, Skip(SKIP_PREDICTION_THRESHOLD)), Timed(0.0, SetEnabled(true))]);
            d.predictionStalls == 1 && d.predictionStallDuration.count == 0 && d.predictionStallStartMs < 0.0
  {
    var skip, switch := Timed(0.0, Skip(SKIP_PREDICTION_THRESHOLD)), Timed(0.0, SetEnabled(true));
    assert [skip, switch][..1] == [skip];
    assert [skip][..0] == [];
    assert Run(ResetForMatch(true), [skip]) == Step(ResetForMatch(true), skip);
  }

  /** What the end of a session leaves: no stall and no burst, but a connection warning stays open. */
  ghost predicate SessionClosed(before: Diagnostics, d: Diagnostics) {
    && d.predictionStalls == before.predictionStalls
    && d.predictionStallStartMs < 0.0 && d.currentResimBurst == 0
    && d.totalRollbackCallbacks == before.totalRollbackCallbacks
    && d.connectionWarningStartMs == before.connectionWarningStartMs
    && d.connectionWarnings == before.connectionWarnings
    && d.connectionWarningDuration == before.connectionWarningDuration
  }

  lemma SessionEndStep(d: Diagnostics, now: real)
    requires d.enabled
    ensures SessionClosed(d, OnSessionEnded(d, now))
    ensures var d' := OnSessionEnded(d, now); d'.predictionStalls == d'.predictionStallDuration.count <==> StallsConserved(d)
  {}

  /** At the end of a session every stall has its duration recorded, exactly when none was forgotten. */
  lemma SessionEndCloses(enabled: bool, run: seq<Timed>, now: real)
    requires ClockFromZero(run) && Run(ResetForMatch(enabled), run).enabled
    ensures var before := Run(ResetForMatch(enabled), run);
            var d := OnSessionEnded(before, now);
            && SessionClosed(before, d)
            && (d.predictionStalls == d.predictionStallDuration.count <==> Spares(enabled, run, Stall))
  {
    EpisodesConserved(enabled, run);
    SessionEndStep(Run(ResetForMatch(enabled), run), now);
  }

  // ----- Before the first reset -----

  /**
   The component starts as cleared memory, disabled. Until it is switched it stays that, and from the
   first switch on it is what it would be after a reset: no stall or warning is ever taken to have
   begun at the 0.0 of cleared memory.
   */
  lemma {:induction false} ClearedMemoryIsReset(run: seq<Timed>)
    ensures Run(Zeroed(false), run)
         == if exists e | e in run :: IsSwitch(e.event) then Run(ResetForMatch(false), run) else Zeroed(false)
    ensures (forall e | e in run :: !IsSwitch(e.event)) ==> Run(ResetForMatch(false), run) == ResetForMatch(false)
    decreases |run|
  {
    if run != [] {
      var front, last := run[..|run| - 1], run[|run| - 1];
      ClearedMemoryIsReset(front);
      assert run == front + [last];
      assert last in run;
      if IsSwitch(last.event) {
        SwitchErasesZero(last);
      }
    }
  }

  lemma SwitchErasesZero(e: Timed)
    requires IsSwitch(e.event)
    ensures Step(Zeroed(false), e) == Step(ResetForMatch(false), e)
  {}
}
