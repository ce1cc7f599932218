/**
 Rollback tolerance of SyncState on its inputs: which sounds a queue of stops leaves, when repeating a
 SyncState is silent, and that whole runs tolerate repetition.
 */
module SoundRollback {

  import opened SoundSync
  import opened SoundSyncProperties

  // ----- What the stops leave of a table -----

  /** The same sound started on the same frame. */
  predicate SameInstance(a: SoundRequest, b: SoundRequest) {
    IsEqual(a, b) && a.frame == b.frame
  }

  /** How many live sounds among the first n are this instance. */
  function Instances(table: seq<SoundRequest>, sound: SoundRequest, n: nat): nat
    requires n <= |table|
  {
    if n == 0 then 0
    else Instances(table, sound, n - 1) + if table[n - 1].live && SameInstance(table[n - 1], sound) then 1 else 0
  }

  /** How many queued stops name this instance. */
  function StopsFor(queue: seq<SoundRequest>, sound: SoundRequest): nat {
    if queue == [] then 0
    else StopsFor(queue[..|queue| - 1], sound) + if SameInstance(queue[|queue| - 1], sound) then 1 else 0
  }

  /** The sound is live, wanted, and has at least as many live copies of its instance before it as are stopped. */
  predicate Survives(stub: seq<SoundRequest>, table: seq<SoundRequest>, queue: seq<SoundRequest>, j: nat)
    requires j < |table|
  {
    table[j].live && Wanted(stub, table[j]) && Instances(table, table[j], j) >= StopsFor(queue, table[j])
  }

  lemma {:induction false} InstancesMonotone(table: seq<SoundRequest>, sound: SoundRequest, m: nat, n: nat)
    requires m <= n <= |table|
    ensures Instances(table, sound, m) <= Instances(table, sound, n)
  {
    if m < n {
      InstancesMonotone(table, sound, m, n - 1);
    }
  }

  lemma {:induction false} InstanceOfRank(table: seq<SoundRequest>, sound: SoundRequest, n: nat, r: nat) returns (k: nat)
    requires n <= |table| && r < Instances(table, sound, n)
    ensures k < n && table[k].live && SameInstance(table[k], sound) && Instances(table, sound, k) == r
  {
    if r < Instances(table, sound, n - 1) {
      k := InstanceOfRank(table, sound, n - 1, r);
    } else {
      k := n - 1;
    }
  }

  lemma {:induction false} InstancesOfSame(table: seq<SoundRequest>, a: SoundRequest, b: SoundRequest, n: nat)
    requires n <= |table| && SameInstance(a, b)
    ensures Instances(table, a, n) == Instances(table, b, n)
  {
    if n > 0 {
      InstancesOfSame(table, a, b, n - 1);
    }
  }

  lemma {:induction false} StopsForSame(queue: seq<SoundRequest>, a: SoundRequest, b: SoundRequest)
    requires SameInstance(a, b)
    ensures StopsFor(queue, a) == StopsFor(queue, b)
  {
    if queue != [] {
      StopsForSame(queue[..|queue| - 1], a, b);
    }
  }

  lemma {:induction false} NamedExactly(queue: seq<SoundRequest>, sound: SoundRequest)
    requires sound.live
    ensures Named(queue, sound) <==> StopsFor(queue, sound) > 0
  {
    if queue != [] {
      var init, last := queue[..|queue| - 1], queue[|queue| - 1];
      NamedExactly(init, sound);
      assert queue == init + [last];
      if Named(init, sound) {
        var q :| q in init && Names(q, sound);
        assert q in queue && Names(q, sound);
      }
      if SameInstance(last, sound) {
        assert last in queue && Names(last, sound);
      }
    }
  }

  /** Each queued stop takes the first copy of its instance that earlier stops left. */
  predicate OutranksStops(table: seq<SoundRequest>, queue: seq<SoundRequest>, j: nat)
    requires j < |table|
  {
    Instances(table, table[j], j) >= StopsFor(queue, table[j])
  }

  ghost predicate LeftByStops(table: seq<SoundRequest>, queue: seq<SoundRequest>, left: seq<SoundRequest>) {
    && |left| == |table|
    && forall j | 0 <= j < |table| :: left[j] == table[j].(live := table[j].live && OutranksStops(table, queue, j))
  }

  /** The first live copy has exactly as many copies before it as stops came before. */
  lemma FirstLeftHasRank(table: seq<SoundRequest>, init: seq<SoundRequest>, mid: seq<SoundRequest>, last: SoundRequest)
    requires LeftByStops(table, init, mid)
    ensures var f := FirstNamed(mid, last, 0);
            f < |mid| ==> table[f].live && SameInstance(last, table[f]) && Instances(table, table[f], f) == StopsFor(init, table[f])
  {
    var f := FirstNamed(mid, last, 0);
    if f < |mid| && Instances(table, table[f], f) > StopsFor(init, table[f]) {
      var k := InstanceOfRank(table, table[f], f, StopsFor(init, table[f]));
      InstancesOfSame(table, table[k], table[f], k);
      StopsForSame(init, table[k], table[f]);
      assert mid[k].live && Names(last, mid[k]);
    }
  }

  lemma StopStep(table: seq<SoundRequest>, init: seq<SoundRequest>, mid: seq<SoundRequest>, last: SoundRequest, j: nat)
    requires LeftByStops(table, init, mid) && j < |table| && table[j].live
    ensures OutranksStops(table, init + [last], j) <==> OutranksStops(table, init, j) && j != FirstNamed(mid, last, 0)
  {
    var f := FirstNamed(mid, last, 0);
    assert (init + [last])[..|init|] == init;
    FirstLeftHasRank(table, init, mid, last);
    if SameInstance(last, table[j]) {
      if f < |mid| {
        InstancesOfSame(table, table[j], table[f], j);
        StopsForSame(init, table[j], table[f]);
        if j > f {
          InstancesMonotone(table, table[f], f + 1, j);
        } else if j < f {
          assert !Names(last, mid[j]);
        }
      } else {
        assert !Names(last, mid[j]);
      }
    }
  }

  lemma {:induction false} StopQueuedLeaves(table: seq<SoundRequest>, queue: seq<SoundRequest>)
    requires HandlesSound(table)
    ensures LeftByStops(table, queue, StopQueued(Sync(table, {}, []), queue).actual)
    decreases |queue|
  {
    if queue != [] {
      var init, last := queue[..|queue| - 1], queue[|queue| - 1];
      var st0 := Sync(table, {}, []);
      assert queue == init + [last];
      StopQueuedLeaves(table, init);
      StopQueuedEffect(st0, init);
      var mid, left := StopQueued(st0, init).actual, StopQueued(st0, queue).actual;
      var f := FirstNamed(mid, last, 0);
      assert left == if f < |mid| then mid[f := mid[f].(live := false)] else mid;
      forall j | 0 <= j < |table| && table[j].live
        ensures OutranksStops(table, queue, j) <==> OutranksStops(table, init, j) && j != f
      {
        StopStep(table, init, mid, last, j);
      }
    }
  }

  /** After both stopping passes exactly the surviving sounds are live, and nothing else changed. */
  lemma StoppedLeavesSurvivors(stub: seq<SoundRequest>, table: seq<SoundRequest>, queue: seq<SoundRequest>)
    requires HandlesSound(table)
    ensures var left := Stopped(stub, table, queue).actual;
            && |left| == |table|
            && forall j | 0 <= j < |table| :: left[j] == table[j].(live := Survives(stub, table, queue, j))
  {
    var st := StopQueued(Sync(table, {}, []), queue);
    StopQueuedLeaves(table, queue);
    StopQueuedEffect(Sync(table, {}, []), queue);
    StopUnwantedEffect(st, stub, |st.actual|);
    forall j | 0 <= j < |table| && table[j].live ensures Wanted(stub, st.actual[j]) <==> Wanted(stub, table[j]) {
      assert st.actual[j].args == table[j].args;
      assert forall i | 0 <= i < |stub| :: IsEqual(stub[i], st.actual[j]) <==> IsEqual(stub[i], table[j]);
    }
  }

  // ----- When a repeated SyncState is silent -----

  /** No surviving sound that a queued stop names has an equal surviving sound before it. */
  predicate NoStaleCopy(stub: seq<SoundRequest>, table: seq<SoundRequest>, queue: seq<SoundRequest>) {
    forall k, j | 0 <= k < j < |table| && Survives(stub, table, queue, k) && Survives(stub, table, queue, j)
                  && IsEqual(table[k], table[j]) ::
      StopsFor(queue, table[j]) == 0
  }

  lemma NoStaleCopyExactly(stub: seq<SoundRequest>, table: seq<SoundRequest>, queue: seq<SoundRequest>)
    requires HandlesSound(table)
    ensures NoStaleCopy(stub, table, queue) <==> NoStaleLeft(stub, table, queue)
  {
    StoppedLeavesSurvivors(stub, table, queue);
    var left := Stopped(stub, table, queue).actual;
    forall j | 0 <= j < |table| && left[j].live ensures Named(queue, left[j]) <==> StopsFor(queue, table[j]) > 0 {
      NamedExactly(queue, table[j]);
    }
  }

  /**
   Rollback tolerance: synchronize, then reload and simulate again to the same stub sounds with the
   same stops queued again. With live stub sounds pairwise unequal, none named by a queued stop, and
   plays landing on idle adapters, the next SyncState issues no play and no stop if and only if the
   first one was given no stale copy: a real sound that survives its stops although one of them
   names it, behind another surviving copy.
   */
  lemma ResyncIsSilentIff(stub: seq<SoundRequest>, table: seq<SoundRequest>, queue: seq<SoundRequest>,
                          landings: seq<Landing>, now: int, landings': seq<Landing>, now': int)
    requires HandlesSound(table) && |stub| == |landings| == |landings'|
    requires PairwiseUnequal(stub) && StopsSpareStub(stub, queue)
    requires PlaysIdle(Stopped(stub, table, queue), stub, landings, now, |stub|)
    ensures SyncState(stub, SyncState(stub, table, queue, landings, now).actual, queue, landings', now').commands == []
            <==> NoStaleCopy(stub, table, queue)
  {
    ResyncIsSilentIffLeft(stub, table, queue, landings, now, landings', now');
    NoStaleCopyExactly(stub, table, queue);
  }

  // ----- Whole runs -----

  /** The inputs of one SyncState. */
  datatype Inputs = Inputs(stub: seq<SoundRequest>, queue: seq<SoundRequest>, landings: seq<Landing>, now: int)

  type Tick = t: Inputs | |t.stub| == |t.landings| witness Inputs([], [], [], 0)

  function Synced(table: seq<SoundRequest>, t: Tick): Sync {
    SyncState(t.stub, table, t.queue, t.landings, t.now)
  }

  /** The real table after a sequence of SyncStates. */
  function TableAfter(table: seq<SoundRequest>, ticks: seq<Tick>): seq<SoundRequest> {
    if ticks == [] then table else Synced(TableAfter(table, ticks[..|ticks| - 1]), ticks[|ticks| - 1]).actual
  }

  /** Unequal stub sounds, none of them stopped by the queue, and plays that land on idle adapters. */
  predicate Regular(table: seq<SoundRequest>, t: Tick) {
    && PairwiseUnequal(t.stub) && StopsSpareStub(t.stub, t.queue)
    && PlaysIdle(Stopped(t.stub, table, t.queue), t.stub, t.landings, t.now, |t.stub|)
  }

  ghost predicate RegularRun(table: seq<SoundRequest>, ticks: seq<Tick>) {
    ticks == [] ||
    var init := ticks[..|ticks| - 1];
    RegularRun(table, init) && Regular(TableAfter(table, init), ticks[|ticks| - 1])
  }

  lemma {:induction false} RunStaysUnequal(table: seq<SoundRequest>, ticks: seq<Tick>)
    requires HandlesSound(table) && PairwiseUnequal(table) && RegularRun(table, ticks)
    ensures HandlesSound(TableAfter(table, ticks)) && PairwiseUnequal(TableAfter(table, ticks))
    decreases |ticks|
  {
    if ticks != [] {
      var init, t := ticks[..|ticks| - 1], ticks[|ticks| - 1];
      RunStaysUnequal(table, init);
      UnequalSoundsStayUnequal(t.stub, TableAfter(table, init), t.queue, t.landings, t.now);
    }
  }

  predicate HasCopy(table: seq<SoundRequest>, sound: SoundRequest) {
    exists j | 0 <= j < |table| :: table[j].live && IsEqual(sound, table[j])
  }

  /** The table already is what these stub sounds and stops ask for. */
  ghost predicate Settled(table: seq<SoundRequest>, stub: seq<SoundRequest>, queue: seq<SoundRequest>) {
    && HandlesSound(table) && AllWanted(stub, table)
    && (forall i | 0 <= i < |stub| && stub[i].live :: HasCopy(table, stub[i]))
    && (forall j | 0 <= j < |table| :: !Named(queue, table[j]))
  }

  lemma HeardHasCopy(stub: seq<SoundRequest>, table: seq<SoundRequest>, sound: SoundRequest)
    requires Heard(stub, |stub|, table, sound)
    ensures HasCopy(table, sound)
  {}

  lemma RegularHasCopies(table: seq<SoundRequest>, t: Tick)
    requires HandlesSound(table) && Regular(table, t)
    ensures forall i | 0 <= i < |t.stub| && t.stub[i].live :: HasCopy(Synced(table, t).actual, t.stub[i])
  {
    forall i | 0 <= i < |t.stub| && t.stub[i].live ensures HasCopy(Synced(table, t).actual, t.stub[i]) {
      EveryStubSoundIsHeard(t.stub, table, t.queue, t.landings, t.now, i);
      HeardHasCopy(t.stub, Synced(table, t).actual, t.stub[i]);
    }
  }

  lemma OnlyStopsKeepsUnequal(before: seq<SoundRequest>, after: seq<SoundRequest>)
    requires PairwiseUnequal(before) && OnlyStops(before, after)
    ensures PairwiseUnequal(after)
  {
    forall i, j | 0 <= i < j < |after| && after[i].live && after[j].live ensures !IsEqual(after[i], after[j]) {
      assert before[i] == after[i] && before[j] == after[j];
    }
  }

  lemma UnequalIsFirstCopy(table: seq<SoundRequest>, j: nat)
    requires PairwiseUnequal(table) && j < |table| && table[j].live
    ensures FirstCopy(table, j)
  {}

  lemma RegularUnnamed(table: seq<SoundRequest>, t: Tick)
    requires HandlesSound(table) && PairwiseUnequal(table) && Regular(table, t)
    ensures forall j | 0 <= j < |Synced(table, t).actual| :: !Named(t.queue, Synced(table, t).actual[j])
  {
    var base, after := Stopped(t.stub, table, t.queue), Synced(table, t);
    StoppedEffect(t.stub, table, t.queue);
    OnlyStopsKeepsUnequal(table, base.actual);
    ReconcileProgress(base, t.stub, t.landings, t.now, |t.stub|);
    forall j | 0 <= j < |after.actual| ensures !Named(t.queue, after.actual[j]) {
      NamedAfterSync(base.actual, after, t.stub, t.queue, j);
      if base.actual[j].live {
        UnequalIsFirstCopy(base.actual, j);
      }
    }
  }

  /** A regular SyncState on unequal sounds settles the table. */
  lemma RegularSettles(table: seq<SoundRequest>, t: Tick)
    requires HandlesSound(table) && PairwiseUnequal(table) && Regular(table, t)
    ensures Settled(Synced(table, t).actual, t.stub, t.queue)
  {
    RegularHasCopies(table, t);
    RegularUnnamed(table, t);
    EveryLiveSoundIsWanted(t.stub, table, t.queue, t.landings, t.now);
    StoppedEffect(t.stub, table, t.queue);
    ReconcileHandles(Stopped(t.stub, table, t.queue), t.stub, t.landings, t.now, |t.stub|);
  }

  /** A settled table only adopts start frames. */
  ghost predicate OnlyAdopts(table: seq<SoundRequest>, after: seq<SoundRequest>, stub: seq<SoundRequest>) {
    && |after| == |table|
    && forall j | 0 <= j < |table| ::
         && after[j].live == table[j].live && IsEqual(after[j], table[j]) && after[j].adapter == table[j].adapter
         && (after[j].frame == table[j].frame || SomeStub(stub, |stub|, after[j]))
  }

  lemma SettledOnlyAdopts(table: seq<SoundRequest>, t: Tick)
    requires PairwiseUnequal(t.stub) && Settled(table, t.stub, t.queue)
    ensures Synced(table, t).commands == [] && OnlyAdopts(table, Synced(table, t).actual, t.stub)
  {
    var st0 := Sync(table, {}, []);
    StopQueuedEffect(st0, t.queue);
    StopUnwantedEffect(st0, t.stub, |table|);
    assert Stopped(t.stub, table, t.queue) == st0;
    NothingToPlay(st0, t.stub, t.landings, t.now, |t.stub|);
  }

  lemma AdoptingKeepsWanted(table: seq<SoundRequest>, after: seq<SoundRequest>, stub: seq<SoundRequest>)
    requires AllWanted(stub, table) && OnlyAdopts(table, after, stub)
    ensures AllWanted(stub, after)
  {
    forall j | 0 <= j < |after| && after[j].live ensures Wanted(stub, after[j]) {
      var i :| 0 <= i < |stub| && stub[i].live && IsEqual(stub[i], table[j]);
      assert IsEqual(stub[i], after[j]);
    }
  }

  lemma AdoptingKeepsCopy(table: seq<SoundRequest>, after: seq<SoundRequest>, stub: seq<SoundRequest>, sound: SoundRequest)
    requires OnlyAdopts(table, after, stub) && HasCopy(table, sound)
    ensures HasCopy(after, sound)
  {
    var j :| 0 <= j < |table| && table[j].live && IsEqual(sound, table[j]);
    assert after[j].live && IsEqual(sound, after[j]);
  }

  lemma AdoptingKeepsUnnamed(table: seq<SoundRequest>, after: seq<SoundRequest>, stub: seq<SoundRequest>, queue: seq<SoundRequest>)
    requires StopsSpareStub(stub, queue) && OnlyAdopts(table, after, stub)
    requires forall j | 0 <= j < |table| :: !Named(queue, table[j])
    ensures forall j | 0 <= j < |after| :: !Named(queue, after[j])
  {
    forall j | 0 <= j < |after| ensures !Named(queue, after[j]) {
      StillUnnamed(table[j], after[j], stub, queue);
    }
  }

  lemma AdoptingStaysSettled(table: seq<SoundRequest>, after: seq<SoundRequest>, stub: seq<SoundRequest>, queue: seq<SoundRequest>)
    requires StopsSpareStub(stub, queue) && Settled(table, stub, queue) && OnlyAdopts(table, after, stub)
    ensures Settled(after, stub, queue)
  {
    AdoptingKeepsWanted(table, after, stub);
    AdoptingKeepsUnnamed(table, after, stub, queue);
    forall i | 0 <= i < |stub| && stub[i].live ensures HasCopy(after, stub[i]) {
      AdoptingKeepsCopy(table, after, stub, stub[i]);
    }
  }

  /** On a settled table a SyncState for the same stub sounds and stops is silent and leaves it settled. */
  lemma SettledIsSilent(table: seq<SoundRequest>, t: Tick)
    requires PairwiseUnequal(t.stub) && StopsSpareStub(t.stub, t.queue) && Settled(table, t.stub, t.queue)
    ensures Synced(table, t).commands == [] && Settled(Synced(table, t).actual, t.stub, t.queue)
  {
    SettledOnlyAdopts(table, t);
    AdoptingStaysSettled(table, Synced(table, t).actual, t.stub, t.queue);
  }

  lemma StillUnnamed(before: SoundRequest, after: SoundRequest, stub: seq<SoundRequest>, queue: seq<SoundRequest>)
    requires after.live == before.live && IsEqual(after, before) && !Named(queue, before) && StopsSpareStub(stub, queue)
    requires after.frame == before.frame || SomeStub(stub, |stub|, after)
    ensures !Named(queue, after)
  {
    if SomeStub(stub, |stub|, after) {
      var i :| 0 <= i < |stub| && stub[i].live && IsEqual(stub[i], after) && stub[i].frame == after.frame;
      assert forall q | Names(q, after) :: Names(q, stub[i]);
    } else {
      assert forall q | Names(q, after) :: Names(q, before);
    }
  }

  /** The same stub sounds and the same stops again, whatever the clock and the adapters. */
  predicate Repeats(t: Tick, again: Tick) {
    again.stub == t.stub && again.queue == t.queue
  }

  lemma {:induction false} RepetitionsStaySettled(table: seq<SoundRequest>, t: Tick, again: seq<Tick>)
    requires PairwiseUnequal(t.stub) && StopsSpareStub(t.stub, t.queue) && Settled(table, t.stub, t.queue)
    requires forall r | r in again :: Repeats(t, r)
    ensures Settled(TableAfter(table, again), t.stub, t.queue)
    decreases |again|
  {
    if again != [] {
      var init, r := again[..|again| - 1], again[|again| - 1];
      assert r in again && Repeats(t, r);
      RepetitionsStaySettled(table, t, init);
      SettledIsSilent(TableAfter(table, init), r);
    }
  }

  /**
   Along every run of regular SyncStates from a table of unequal sounds, such as an idle one, any
   number of rollbacks that re-simulate to the same stub sounds and stops issue no command at all.
   */
  lemma RunsTolerateRollback(table: seq<SoundRequest>, ticks: seq<Tick>, t: Tick, again: seq<Tick>, next: Tick)
    requires HandlesSound(table) && PairwiseUnequal(table)
    requires RegularRun(table, ticks) && Regular(TableAfter(table, ticks), t)
    requires (forall r | r in again :: Repeats(t, r)) && Repeats(t, next)
    ensures Synced(TableAfter(Synced(TableAfter(table, ticks), t).actual, again), next).commands == []
  {
    RunStaysUnequal(table, ticks);
    RegularSettles(TableAfter(table, ticks), t);
    var settled := Synced(TableAfter(table, ticks), t).actual;
    RepetitionsStaySettled(settled, t, again);
    SettledIsSilent(TableAfter(settled, again), next);
  }

  // ----- Stale copies do happen -----

  const CUE := SoundArgs(1, 1, 0, 0, 0)

  function Sounding(frame: int, adapter: int): SoundRequest {
    SoundRequest(true, frame, adapter, CUE)
  }

  const IDLE := SoundRequest(false, 0, 0, SoundArgs(0, 0, 0, 0, 0))

  /**
   Three real copies of one sound started on frame 5, one queued stop for that instance, and one stub
   copy started on frame 9: the first SyncState stops one copy, the repeated one stops another.
   */
  lemma StaleCopyIsStoppedLater()
    ensures var stub := [Sounding(9, 0), IDLE, IDLE];
            var table := [Sounding(5, 0), Sounding(5, 1), Sounding(5, 2)];
            var queue := [Sounding(5, 0)];
            var landings := [Landing(-1, -1), Landing(-1, -1), Landing(-1, -1)];
            && HandlesSound(table) && PairwiseUnequal(stub) && StopsSpareStub(stub, queue)
            && PlaysIdle(Stopped(stub, table, queue), stub, landings, 10, 3)
            && SyncState(stub, SyncState(stub, table, queue, landings, 10).actual, queue, landings, 11).commands != []
  {
    var stub := [Sounding(9, 0), IDLE, IDLE];
    var table := [Sounding(5, 0), Sounding(5, 1), Sounding(5, 2)];
    var queue := [Sounding(5, 0)];
    var landings := [Landing(-1, -1), Landing(-1, -1), Landing(-1, -1)];
    assert queue[..0] == [];
    var named := StopQueued(Sync(table, {}, []), queue);
    assert FirstNamed(table, queue[0], 0) == 0;
    assert named.actual == [Sounding(5, 0).(live := false), Sounding(5, 1), Sounding(5, 2)];
    StopUnwantedEffect(named, stub, 3);
    assert stub[0].live && IsEqual(stub[0], Sounding(5, 1));
    var base := Stopped(stub, table, queue);
    assert base == named;
    assert FirstUnclaimed(base.actual, stub[0], {}, 0) == 1;
    assert PlaysIdle(base, stub, landings, 10, 0) && PlaysIdle(base, stub, landings, 10, 1);
    assert PlaysIdle(base, stub, landings, 10, 2) && PlaysIdle(base, stub, landings, 10, 3);
    assert Names(queue[0], base.actual[2]);
    assert Named(queue, base.actual[2]);
    assert base.actual[1].live && IsEqual(base.actual[1], base.actual[2]);
    assert !FirstCopy(base.actual, 2);
    ResyncIsSilentIff(stub, table, queue, landings, 10, landings, 11);
  }

  const OFF := Landing(-1, -1)

  function PlayingOn(adapter: int): Landing {
    Landing(adapter, -1)
  }

  /** A table with the sound of frame 5 on its first n adapters. */
  function SoundingOn(n: nat): seq<SoundRequest>
    requires n <= 3
  {
    [if n > 0 then Sounding(5, 0) else IDLE, if n > 1 then Sounding(5, 1) else IDLE, if n > 2 then Sounding(5, 2) else IDLE]
  }

  lemma ReconcileThree(st: Sync, stub: seq<SoundRequest>, landings: seq<Landing>, now: int)
    requires |stub| == |landings| == 3 && stub[0].live && stub[1].live && stub[2].live
    ensures Reconcile(st, stub, landings, now, 3)
         == ReconcileOne(ReconcileOne(ReconcileOne(st, stub[0], landings[0], now), stub[1], landings[1], now), stub[2], landings[2], now)
  {
    assert Reconcile(st, stub, landings, now, 1) == ReconcileOne(st, stub[0], landings[0], now);
  }

  /** A sound that has an unclaimed equal copy of its own frame claims it and changes nothing else. */
  lemma ClaimsCopy(st: Sync, sound: SoundRequest, landing: Landing, now: int, j: nat)
    requires j < |st.actual| && st.actual[j].live && SameInstance(sound, st.actual[j]) && j !in st.claimed
    requires forall k | 0 <= k < j :: k in st.claimed
    ensures ReconcileOne(st, sound, landing, now) == st.(claimed := st.claimed + {j})
  {
    assert FirstUnclaimed(st.actual, sound, st.claimed, 0) == j;
    assert st.actual[j := st.actual[j].(frame := sound.frame)] == st.actual;
  }

  /** A sound whose copies are all claimed is played on the adapter it lands on. */
  lemma PlaysCopy(st: Sync, sound: SoundRequest, now: int, j: nat)
    requires j < |st.actual|
    requires forall k | 0 <= k < |st.actual| :: k in st.claimed || !st.actual[k].live
    ensures ReconcileOne(st, sound, PlayingOn(j), now).actual == st.actual[j := SoundRequest(true, sound.frame, j, sound.args)]
    ensures ReconcileOne(st, sound, PlayingOn(j), now).claimed == st.claimed
  {}

  /** With nothing queued and everything wanted the stopping passes change nothing. */
  lemma NothingStopped(stub: seq<SoundRequest>, table: seq<SoundRequest>)
    requires HandlesSound(table) && AllWanted(stub, table)
    ensures Stopped(stub, table, []) == Sync(table, {}, [])
  {
    StopUnwantedEffect(Sync(table, {}, []), stub, |table|);
  }

  const THREE: seq<SoundRequest> := [Sounding(5, 0), Sounding(5, 1), Sounding(5, 2)]

  lemma ThreeStopsNothing(n: nat)
    requires n <= 3
    ensures Stopped(THREE, SoundingOn(n), []) == Sync(SoundingOn(n), {}, [])
  {
    assert forall j | 0 <= j < 3 && SoundingOn(n)[j].live :: IsEqual(THREE[0], SoundingOn(n)[j]);
    NothingStopped(THREE, SoundingOn(n));
  }

  /** The first j adapters. */
  function First(j: nat): set<int>
    requires j <= 2
  {
    if j == 0 then {} else if j == 1 then {0} else {0, 1}
  }

  lemma ClaimsNext(st: Sync, n: nat, j: nat, i: nat, now: int)
    requires j < n <= 3 && j < 2 && st.actual == SoundingOn(n) && st.claimed == First(j)
    ensures var st' := ReconcileOne(st, Sounding(5, i), OFF, now); st'.actual == SoundingOn(n) && st'.claimed == First(j + 1)
  {
    ClaimsCopy(st, Sounding(5, i), OFF, now, j);
  }

  lemma PlaysNext(st: Sync, n: nat, i: nat, now: int)
    requires n < 3 && st.actual == SoundingOn(n) && st.claimed == First(n)
    ensures var st' := ReconcileOne(st, Sounding(5, i), PlayingOn(n), now);
            st'.actual == SoundingOn(n + 1) && st'.claimed == First(n)
  {
    PlaysCopy(st, Sounding(5, i), now, n);
  }

  /** A play that landed is not claimed, so the second copy claims the first one's adapter. */
  lemma ThreeCopiesFirstSync()
    ensures SyncState(THREE, SoundingOn(0), [], [PlayingOn(0), OFF, PlayingOn(1)], 5).actual == SoundingOn(2)
  {
    var st0 := Sync(SoundingOn(0), {}, []);
    ThreeStopsNothing(0);
    ReconcileThree(st0, THREE, [PlayingOn(0), OFF, PlayingOn(1)], 5);
    PlaysNext(st0, 0, 0, 5);
    var st1 := ReconcileOne(st0, Sounding(5, 0), PlayingOn(0), 5);
    ClaimsNext(st1, 1, 0, 1, 5);
    PlaysNext(ReconcileOne(st1, Sounding(5, 1), OFF, 5), 1, 2, 5);
  }

  lemma ThreeCopiesSecondSync()
    ensures SyncState(THREE, SoundingOn(2), [], [OFF, OFF, PlayingOn(2)], 6).actual == SoundingOn(3)
  {
    var st0 := Sync(SoundingOn(2), {}, []);
    ThreeStopsNothing(2);
    ReconcileThree(st0, THREE, [OFF, OFF, PlayingOn(2)], 6);
    ClaimsNext(st0, 2, 0, 0, 6);
    var st1 := ReconcileOne(st0, Sounding(5, 0), OFF, 6);
    ClaimsNext(st1, 2, 1, 1, 6);
    PlaysNext(ReconcileOne(st1, Sounding(5, 1), OFF, 6), 2, 2, 6);
  }

  /**
   The code reaches the table of StaleCopyIsStoppedLater: from idle adapters, two SyncStates for three
   equal stub sounds of frame 5 leave three equal real sounds.
   */
  lemma StaleTableIsReached()
    ensures var once := SyncState(THREE, [IDLE, IDLE, IDLE], [], [PlayingOn(0), OFF, PlayingOn(1)], 5).actual;
            SyncState(THREE, once, [], [OFF, OFF, PlayingOn(2)], 6).actual == [Sounding(5, 0), Sounding(5, 1), Sounding(5, 2)]
  {
    ThreeCopiesFirstSync();
    ThreeCopiesSecondSync();
  }
}
