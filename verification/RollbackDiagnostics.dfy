/** The diagnostics component as it is: counters that the event methods update in place. */
module RollbackDiagnostics {

  import opened TimingHistogram
  import opened RollbackEpisodes

  class RollbackDiagnostics {
    var enabled: bool
    var skipReasons: SkipCounts
    var totalRollbackCallbacks: nat
    var rollbackCallbacksThisOuterFrame: nat
    var maxRollbackCallbacksPerOuterFrame: nat
    var outerFramesWithRollback: nat
    var outerFrames: nat
    var currentResimBurst: nat
    var maxResimBurst: nat
    var resimBurstBuckets: BurstCounts
    var resimBursts: nat
    var connectionWarnings: nat
    var connectionResumes: nat
    var terminalDisconnects: nat
    var connectionWarningStartMs: real
    var connectionWarningDuration: Stat
    var predictionStalls: nat
    var predictionStallStartMs: real
    var predictionStallDuration: Stat

    function State(): Diagnostics
      reads this
    {
      Diagnostics(enabled, skipReasons, totalRollbackCallbacks, rollbackCallbacksThisOuterFrame,
                  maxRollbackCallbacksPerOuterFrame, outerFramesWithRollback, outerFrames, currentResimBurst,
                  maxResimBurst, resimBurstBuckets, resimBursts, connectionWarnings, connectionResumes,
                  terminalDisconnects, connectionWarningStartMs, connectionWarningDuration, predictionStalls,
                  predictionStallStartMs, predictionStallDuration)
    }

    /** The component is zero-initialized static storage. */
    constructor Static()
      ensures State() == Zeroed(false)
    {
      enabled := false;
      skipReasons := NO_SKIPS;
      totalRollbackCallbacks, rollbackCallbacksThisOuterFrame, maxRollbackCallbacksPerOuterFrame := 0, 0, 0;
      outerFramesWithRollback, outerFrames := 0, 0;
      currentResimBurst, maxResimBurst, resimBursts := 0, 0, 0;
      resimBurstBuckets := NO_BURSTS;
      connectionWarnings, connectionResumes, terminalDisconnects := 0, 0, 0;
      connectionWarningStartMs, connectionWarningDuration := 0.0, EMPTY_STAT;
      predictionStalls, predictionStallStartMs, predictionStallDuration := 0, 0.0, EMPTY_STAT;
    }

    /** ResetForMatch: the whole object is cleared but for the flag, and no episode is open. */
    constructor ForMatch(enabled: bool)
      ensures State() == ResetForMatch(enabled)
    {
      this.enabled := enabled;
      skipReasons := NO_SKIPS;
      totalRollbackCallbacks, rollbackCallbacksThisOuterFrame, maxRollbackCallbacksPerOuterFrame := 0, 0, 0;
      outerFramesWithRollback, outerFrames := 0, 0;
      currentResimBurst, maxResimBurst, resimBursts := 0, 0, 0;
      resimBurstBuckets := NO_BURSTS;
      connectionWarnings, connectionResumes, terminalDisconnects := 0, 0, 0;
      connectionWarningStartMs, connectionWarningDuration := NONE_MS, EMPTY_STAT;
      predictionStalls, predictionStallStartMs, predictionStallDuration := 0, NONE_MS, EMPTY_STAT;
    }

    method InitFromEnvironment(requested: bool)
      modifies this
      ensures State() == OnInitFromEnvironment(old(State()), requested)
    {
      if requested {
        enabled := true;
      }
      connectionWarningStartMs := NONE_MS;
      predictionStallStartMs := NONE_MS;
    }

    method SetEnabled(on: bool)
      modifies this
      ensures State() == OnSetEnabled(old(State()), on)
    {
      enabled := on;
      if connectionWarningStartMs == 0.0 {
        connectionWarningStartMs := NONE_MS;
      }
      if predictionStallStartMs == 0.0 {
        predictionStallStartMs := NONE_MS;
      }
    }

    method RecordSkip(reason: int, nowMs: real)
      modifies this
      ensures State() == RollbackEpisodes.RecordSkip(old(State()), reason, nowMs)
    {
      if !enabled || reason < 0 || reason >= SKIP_COUNT {
        return;
      }
      skipReasons := skipReasons[reason := skipReasons[reason] + 1];
      if reason == SKIP_PREDICTION_THRESHOLD && predictionStallStartMs < 0.0 {
        predictionStalls := predictionStalls + 1;
        predictionStallStartMs := nowMs;
      }
    }

    method EndStall(nowMs: real)
      modifies this
      ensures State() == CloseStall(old(State()), nowMs)
    {
      if predictionStallStartMs >= 0.0 {
        predictionStallDuration := Record(predictionStallDuration, nowMs - predictionStallStartMs);
        predictionStallStartMs := NONE_MS;
      }
    }

    method EndBurst()
      modifies this
      ensures State() == CloseBurst(old(State()))
    {
      if currentResimBurst > 0 {
        if currentResimBurst > maxResimBurst {
          maxResimBurst := currentResimBurst;
        }
        resimBursts := resimBursts + 1;
        CountBurst();
        currentResimBurst := 0;
      }
    }

    method CountBurst()
      modifies this`resimBurstBuckets
      ensures var b := BurstBucketFrom(currentResimBurst, 0);
              resimBurstBuckets == old(resimBurstBuckets)[b := old(resimBurstBuckets)[b] + 1]
    {
      for i := 0 to NUM_BURST_BUCKETS
        invariant resimBurstBuckets == old(resimBurstBuckets)
        invariant i < NUM_BURST_BUCKETS && BurstBucketFrom(currentResimBurst, 0) == BurstBucketFrom(currentResimBurst, i)
      {
        if i == NUM_BURST_BUCKETS - 1 || currentResimBurst <= BURST_UPPER[i] {
          resimBurstBuckets := resimBurstBuckets[i := resimBurstBuckets[i] + 1];
          return;
        }
      }
    }

    method FrameAdvanced(nowMs: real)
      modifies this
      ensures State() == OnFrameAdvanced(old(State()), nowMs)
    {
      if !enabled {
        return;
      }
      EndStall(nowMs);
      EndBurst();
    }

    method RollbackCallback()
      modifies this
      ensures State() == OnRollbackCallback(old(State()))
    {
      if !enabled {
        return;
      }
      totalRollbackCallbacks := totalRollbackCallbacks + 1;
      rollbackCallbacksThisOuterFrame := rollbackCallbacksThisOuterFrame + 1;
      currentResimBurst := currentResimBurst + 1;
    }

    method CountOuterFrame()
      modifies this
      ensures State() == CloseOuterFrame(old(State()))
    {
      outerFrames := outerFrames + 1;
      if rollbackCallbacksThisOuterFrame > 0 {
        outerFramesWithRollback := outerFramesWithRollback + 1;
        if rollbackCallbacksThisOuterFrame > maxRollbackCallbacksPerOuterFrame {
          maxRollbackCallbacksPerOuterFrame := rollbackCallbacksThisOuterFrame;
        }
        rollbackCallbacksThisOuterFrame := 0;
      }
    }

    method OuterFrame()
      modifies this
      ensures State() == OnOuterFrame(old(State()))
    {
      if !enabled {
        return;
      }
      CountOuterFrame();
      EndBurst();
    }

    method SessionEnded(nowMs: real)
      modifies this
      ensures State() == OnSessionEnded(old(State()), nowMs)
    {
      if !enabled {
        return;
      }
      EndStall(nowMs);
      if currentResimBurst > 0 {
        OuterFrame();
      }
    }

    method ConnectionInterrupted(nowMs: real)
      modifies this
      ensures State() == OnConnectionInterrupted(old(State()), nowMs)
    {
      if enabled && connectionWarningStartMs < 0.0 {
        connectionWarnings := connectionWarnings + 1;
        connectionWarningStartMs := nowMs;
      }
    }

    method EndWarning(nowMs: real)
      modifies this
      ensures State() == CloseWarning(old(State()), nowMs)
    {
      if connectionWarningStartMs >= 0.0 {
        connectionWarningDuration := Record(connectionWarningDuration, nowMs - connectionWarningStartMs);
        connectionWarningStartMs := NONE_MS;
      }
    }

    method ConnectionResumed(nowMs: real)
      modifies this
      ensures State() == OnConnectionResumed(old(State()), nowMs)
    {
      if !enabled {
        return;
      }
      connectionResumes := connectionResumes + 1;
      EndWarning(nowMs);
    }

    method TerminalDisconnect(nowMs: real)
      modifies this
      ensures State() == OnTerminalDisconnect(old(State()), nowMs)
    {
      if !enabled {
        return;
      }
      terminalDisconnects := terminalDisconnects + 1;
      EndWarning(nowMs);
    }
  }
}
