/** What a SyncState achieves, and when repeating it after a rollback is silent. */
module SoundSyncProperties {

  import opened SoundSync

  /** Some queued stop names the sound. */
  predicate Named(queue: seq<SoundRequest>, sound: SoundRequest) {
    exists q | q in queue :: Names(q, sound)
  }

  /** Every live sound of the table is equal to a live stub sound. */
  predicate AllWanted(stub: seq<SoundRequest>, table: seq<SoundRequest>) {
    forall j | 0 <= j < |table| && table[j].live :: Wanted(stub, table[j])
  }

  predicate SomeStub(stub: seq<SoundRequest>, n: nat, sound: SoundRequest)
    requires n <= |stub|
  {
    exists i | 0 <= i < n :: stub[i].live && IsEqual(stub[i], sound) && stub[i].frame == sound.frame
  }

  /** The table has a live copy of the sound whose start frame is that of an equal live stub sound. */
  predicate Heard(stub: seq<SoundRequest>, n: nat, table: seq<SoundRequest>, sound: SoundRequest)
    requires n <= |stub|
  {
    exists j | 0 <= j < |table| :: table[j].live && IsEqual(sound, table[j]) && SomeStub(stub, n, table[j])
  }

  // ----- The stopping passes -----

  /** The table with some live sounds stopped and nothing else changed. */
  predicate OnlyStops(before: seq<SoundRequest>, after: seq<SoundRequest>) {
    && |after| == |before|
    && forall j | 0 <= j < |before| :: after[j] == before[j] || (before[j].live && after[j] == before[j].(live := false))
  }

  lemma {:induction false} StopQueuedEffect(st: Sync, queue: seq<SoundRequest>)
    requires HandlesSound(st.actual)
    ensures var st' := StopQueued(st, queue);
            && OnlyStops(st.actual, st'.actual) && HandlesSound(st'.actual) && st'.claimed == st.claimed
            && |st'.commands| >= |st.commands|
            && (|st'.commands| == |st.commands| ==> st' == st)
            && (|st'.commands| == |st.commands| <==> forall j | 0 <= j < |st.actual| :: !Named(queue, st.actual[j]))
  {
    if queue != [] {
      var init, last := queue[..|queue| - 1], queue[|queue| - 1];
      assert queue == init + [last];
      StopQueuedEffect(st, init);
      var mid := StopQueued(st, init);
      var j := FirstNamed(mid.actual, last, 0);
      if mid == st && j < |st.actual| {
        assert last in queue && Names(last, st.actual[j]);
        assert Named(queue, st.actual[j]);
      } else if mid == st {
        forall k | 0 <= k < |st.actual| ensures !Named(queue, st.actual[k]) {
          assert !Named(init, st.actual[k]) && !Names(last, st.actual[k]);
        }
      } else {
        var k :| 0 <= k < |st.actual| && Named(init, st.actual[k]);
        var q :| q in init && Names(q, st.actual[k]);
        assert q in queue;
        assert Named(queue, st.actual[k]);
      }
    }
  }

  /** The second pass stops exactly the unwanted live sounds. */
  lemma {:induction false} StopUnwantedEffect(st: Sync, stub: seq<SoundRequest>, n: nat)
    requires HandlesSound(st.actual) && n <= |st.actual|
    ensures var st' := StopUnwanted(st, stub, n);
            && HandlesSound(st'.actual) && st'.claimed == st.claimed
            && |st'.commands| >= |st.commands|
            && (|st'.commands| == |st.commands| ==> st' == st)
            && (|st'.commands| == |st.commands| <==>
                  forall j | 0 <= j < n :: st.actual[j].live ==> Wanted(stub, st.actual[j]))
            && forall j | 0 <= j < |st.actual| ::
                 st'.actual[j] == if j < n && st.actual[j].live && !Wanted(stub, st.actual[j])
                                  then st.actual[j].(live := false) else st.actual[j]
  {
    if n > 0 {
      StopUnwantedEffect(st, stub, n - 1);
    }
  }

  lemma StoppedEffect(stub: seq<SoundRequest>, table: seq<SoundRequest>, queue: seq<SoundRequest>)
    requires HandlesSound(table)
    ensures var st := Stopped(stub, table, queue);
            && OnlyStops(table, st.actual) && HandlesSound(st.actual) && st.claimed == {} && AllWanted(stub, st.actual)
  {
    var named := StopQueued(Sync(table, {}, []), queue);
    StopQueuedEffect(Sync(table, {}, []), queue);
    StopUnwantedEffect(named, stub, |named.actual|);
  }

  // ----- After every SyncState -----

  lemma PlayKeepsWanted(st: Sync, stub: seq<SoundRequest>, sound: SoundRequest, landing: Landing, now: int)
    requires AllWanted(stub, st.actual) && Wanted(stub, sound)
    ensures AllWanted(stub, PlaySound(st, sound.args, landing, now).0.actual)
    ensures |PlaySound(st, sound.args, landing, now).0.actual| == |st.actual|
  {
    var st' := PlaySound(st, sound.args, landing, now).0;
    var i :| 0 <= i < |stub| && stub[i].live && IsEqual(stub[i], sound);
    forall j | 0 <= j < |st'.actual| && st'.actual[j].live ensures Wanted(stub, st'.actual[j]) {
      if st'.actual[j].args == sound.args {
        assert IsEqual(stub[i], st'.actual[j]);
      } else {
        assert st'.actual[j] == st.actual[j];
      }
    }
  }

  lemma ReconcileOneKeepsWanted(st: Sync, stub: seq<SoundRequest>, sound: SoundRequest, landing: Landing, now: int)
    requires AllWanted(stub, st.actual) && Wanted(stub, sound)
    ensures AllWanted(stub, ReconcileOne(st, sound, landing, now).actual)
  {
    var st' := ReconcileOne(st, sound, landing, now);
    PlayKeepsWanted(st, stub, sound, landing, now);
    var played := PlaySound(st, sound.args, landing, now).0;
    forall j | 0 <= j < |st'.actual| && st'.actual[j].live ensures Wanted(stub, st'.actual[j]) {
      var before := if FirstUnclaimed(st.actual, sound, st.claimed, 0) < |st.actual| then st.actual[j] else played.actual[j];
      assert Wanted(stub, before);
      var i :| 0 <= i < |stub| && stub[i].live && IsEqual(stub[i], before);
      assert IsEqual(stub[i], st'.actual[j]);
    }
  }

  lemma {:induction false} ReconcileKeepsWanted(st: Sync, stub: seq<SoundRequest>, landings: seq<Landing>, now: int, n: nat)
    requires n <= |stub| == |landings| && AllWanted(stub, st.actual)
    ensures AllWanted(stub, Reconcile(st, stub, landings, now, n).actual)
  {
    if n > 0 {
      ReconcileKeepsWanted(st, stub, landings, now, n - 1);
      if stub[n - 1].live {
        assert Wanted(stub, stub[n - 1]);
        ReconcileOneKeepsWanted(Reconcile(st, stub, landings, now, n - 1), stub, stub[n - 1], landings[n - 1], now);
      }
    }
  }

  /** However the engine answers, every sound left live by a SyncState equals some live stub sound. */
  lemma EveryLiveSoundIsWanted(stub: seq<SoundRequest>, table: seq<SoundRequest>, queue: seq<SoundRequest>,
                               landings: seq<Landing>, now: int)
    requires HandlesSound(table) && |stub| == |landings|
    ensures AllWanted(stub, SyncState(stub, table, queue, landings, now).actual)
  {
    StoppedEffect(stub, table, queue);
    ReconcileKeepsWanted(Stopped(stub, table, queue), stub, landings, now, |stub|);
  }

  /** Of the first n stub sounds, each one that has to be played lands on an idle adapter at once. */
  predicate PlaysIdle(st: Sync, stub: seq<SoundRequest>, landings: seq<Landing>, now: int, n: nat)
    requires n <= |stub| == |landings|
  {
    n == 0 ||
    (&& PlaysIdle(st, stub, landings, now, n - 1)
     && var st' := Reconcile(st, stub, landings, now, n - 1);
        stub[n - 1].live && FirstUnclaimed(st'.actual, stub[n - 1], st'.claimed, 0) == |st'.actual| ==>
          0 <= landings[n - 1].first < |st'.actual| && !st'.actual[landings[n - 1].first].live)
  }

  lemma {:induction false} ReconcileHears(st: Sync, stub: seq<SoundRequest>, landings: seq<Landing>, now: int, n: nat)
    requires n <= |stub| == |landings| && PlaysIdle(st, stub, landings, now, n)
    ensures forall i | 0 <= i < n && stub[i].live :: Heard(stub, n, Reconcile(st, stub, landings, now, n).actual, stub[i])
  {
    if n > 0 {
      ReconcileHears(st, stub, landings, now, n - 1);
      var before, after := Reconcile(st, stub, landings, now, n - 1), Reconcile(st, stub, landings, now, n);
      forall i | 0 <= i < n && stub[i].live ensures Heard(stub, n, after.actual, stub[i]) {
        HeardStep(before, after, stub, landings, now, n, i);
      }
    }
  }

  /** One reconciliation step leaves every sound heard before heard, and makes its own heard. */
  lemma HeardStep(before: Sync, after: Sync, stub: seq<SoundRequest>, landings: seq<Landing>, now: int, n: nat, i: nat)
    requires 0 < n <= |stub| == |landings| && i < n && stub[i].live
    requires i < n - 1 ==> Heard(stub, n - 1, before.actual, stub[i])
    requires after == if stub[n - 1].live then ReconcileOne(before, stub[n - 1], landings[n - 1], now) else before
    requires stub[n - 1].live && FirstUnclaimed(before.actual, stub[n - 1], before.claimed, 0) == |before.actual| ==>
               0 <= landings[n - 1].first < |before.actual| && !before.actual[landings[n - 1].first].live
    ensures Heard(stub, n, after.actual, stub[i])
  {
    var j := if i < n - 1 then
        var k :| 0 <= k < |before.actual| && before.actual[k].live && IsEqual(stub[i], before.actual[k])
                 && SomeStub(stub, n - 1, before.actual[k]); k
      else
        var first := FirstUnclaimed(before.actual, stub[i], before.claimed, 0);
        if first < |before.actual| then first else landings[i].first;
    assert after.actual[j].live && IsEqual(stub[i], after.actual[j]);
    if i < n - 1 && after.actual[j] == before.actual[j] {
      var m :| 0 <= m < n - 1 && stub[m].live && IsEqual(stub[m], before.actual[j]) && stub[m].frame == before.actual[j].frame;
      assert stub[m].live && IsEqual(stub[m], after.actual[j]) && stub[m].frame == after.actual[j].frame;
    } else {
      assert IsEqual(stub[n - 1], after.actual[j]) && stub[n - 1].frame == after.actual[j].frame;
    }
    assert SomeStub(stub, n, after.actual[j]);
  }

  /**
   When every play lands on an idle adapter, each live stub sound is heard: an equal real sound is
   live and carries the start frame of a matching stub sound.
   */
  lemma EveryStubSoundIsHeard(stub: seq<SoundRequest>, table: seq<SoundRequest>, queue: seq<SoundRequest>,
                              landings: seq<Landing>, now: int, i: nat)
    requires HandlesSound(table) && |stub| == |landings|
    requires PlaysIdle(Stopped(stub, table, queue), stub, landings, now, |stub|)
    requires i < |stub| && stub[i].live
    ensures Heard(stub, |stub|, SyncState(stub, table, queue, landings, now).actual, stub[i])
  {
    ReconcileHears(Stopped(stub, table, queue), stub, landings, now, |stub|);
  }

  // ----- Repeating a SyncState -----

  predicate PairwiseUnequal(sounds: seq<SoundRequest>) {
    forall i, j | 0 <= i < j < |sounds| && sounds[i].live && sounds[j].live :: !IsEqual(sounds[i], sounds[j])
  }

  /** No queued stop names a sound that is supposed to be playing. */
  predicate StopsSpareStub(stub: seq<SoundRequest>, queue: seq<SoundRequest>) {
    forall i | 0 <= i < |stub| && stub[i].live :: !Named(queue, stub[i])
  }

  /** The copy of a sound that reconciliation claims: the first live one. */
  predicate FirstCopy(table: seq<SoundRequest>, j: nat)
    requires j < |table|
  {
    table[j].live && forall k | 0 <= k < j :: !(table[k].live && IsEqual(table[k], table[j]))
  }

  /** The first copy of one of the first n stub sounds. */
  predicate Handled(base: seq<SoundRequest>, stub: seq<SoundRequest>, n: nat, j: nat)
    requires j < |base| && n <= |stub|
  {
    FirstCopy(base, j) && exists i | 0 <= i < n :: stub[i].live && IsEqual(stub[i], base[j])
  }

  /**
   Where the table stands after reconciling the first n stub sounds. `base` is the table before:
   first copies of handled sounds have the stub's start frame, other live sounds are as they were,
   and adapters that were idle are idle or play a handled stub sound.
   */
  ghost predicate Progress(base: seq<SoundRequest>, st: Sync, stub: seq<SoundRequest>, n: nat)
    requires n <= |stub|
  {
    && |st.actual| == |base|
    && (forall j | 0 <= j < |base| && base[j].live ::
          && st.actual[j].live && IsEqual(st.actual[j], base[j])
          && (st.actual[j].frame == base[j].frame || (FirstCopy(base, j) && SomeStub(stub, n, st.actual[j])))
          && (Handled(base, stub, n, j) ==> SomeStub(stub, n, st.actual[j])))
    && (forall j | 0 <= j < |base| && !base[j].live && st.actual[j].live :: SomeStub(stub, n, st.actual[j]))
    && (forall j | 0 <= j < |base| :: j in st.claimed <==> Handled(base, stub, n, j))
    && (forall j | j in st.claimed :: 0 <= j < |base|)
  }

  lemma {:induction false} ReconcileProgress(st: Sync, stub: seq<SoundRequest>, landings: seq<Landing>, now: int, n: nat)
    requires n <= |stub| == |landings| && PairwiseUnequal(stub) && st.claimed == {}
    requires PlaysIdle(st, stub, landings, now, n)
    ensures Progress(st.actual, Reconcile(st, stub, landings, now, n), stub, n)
  {
    if n > 0 {
      ReconcileProgress(st, stub, landings, now, n - 1);
      ProgressStep(st.actual, Reconcile(st, stub, landings, now, n - 1), stub, landings[n - 1], now, n);
    }
  }

  lemma ProgressStep(base: seq<SoundRequest>, before: Sync, stub: seq<SoundRequest>, landing: Landing, now: int, n: nat)
    requires 0 < n <= |stub| && PairwiseUnequal(stub) && Progress(base, before, stub, n - 1)
    requires stub[n - 1].live && FirstUnclaimed(before.actual, stub[n - 1], before.claimed, 0) == |before.actual| ==>
               0 <= landing.first < |before.actual| && !before.actual[landing.first].live
    ensures Progress(base, if stub[n - 1].live then ReconcileOne(before, stub[n - 1], landing, now) else before, stub, n)
  {
    var sound := stub[n - 1];
    var after := if sound.live then ReconcileOne(before, sound, landing, now) else before;
    assert forall r | SomeStub(stub, n - 1, r) :: SomeStub(stub, n, r);
    if sound.live {
      var first := FirstUnclaimed(before.actual, sound, before.claimed, 0);
      ClaimsFirstCopy(base, before, stub, n);
      if first < |base| {
        assert SomeStub(stub, n, after.actual[first]);
        assert after.claimed == before.claimed + {first};
      } else {
        assert SomeStub(stub, n, after.actual[landing.first]);
        assert after.claimed == before.claimed;
      }
    }
  }

  /** The adapter claimed for a stub sound is the first copy in the base table, if there is one. */
  lemma ClaimsFirstCopy(base: seq<SoundRequest>, before: Sync, stub: seq<SoundRequest>, n: nat)
    requires 0 < n <= |stub| && PairwiseUnequal(stub) && Progress(base, before, stub, n - 1) && stub[n - 1].live
    ensures var first := FirstUnclaimed(before.actual, stub[n - 1], before.claimed, 0);
            && (first < |base| ==> FirstCopy(base, first) && IsEqual(stub[n - 1], base[first]) && first !in before.claimed)
            && (forall j | 0 <= j < |base| && base[j].live && IsEqual(stub[n - 1], base[j]) && FirstCopy(base, j) :: j == first)
  {
    var sound, first := stub[n - 1], FirstUnclaimed(before.actual, stub[n - 1], before.claimed, 0);
    forall j | 0 <= j < |base| && before.actual[j].live && IsEqual(sound, before.actual[j])
      ensures base[j].live && IsEqual(sound, base[j]) && j !in before.claimed
    {
      assert !SomeStub(stub, n - 1, before.actual[j]) by {
        assert forall i | 0 <= i < n - 1 && stub[i].live :: !IsEqual(stub[i], sound);
      }
    }
  }

  /** Once synchronized, repeating a SyncState is silent exactly when no queued stop names a live sound. */
  lemma RepeatIsSilentIff(stub: seq<SoundRequest>, table: seq<SoundRequest>, queue: seq<SoundRequest>,
                          landings: seq<Landing>, now: int)
    requires HandlesSound(table) && |stub| == |landings| && PairwiseUnequal(stub) && AllWanted(stub, table)
    requires forall i | 0 <= i < |stub| && stub[i].live :: exists j | 0 <= j < |table| :: table[j].live && IsEqual(stub[i], table[j])
    ensures SyncState(stub, table, queue, landings, now).commands == [] <==>
            forall j | 0 <= j < |table| :: !Named(queue, table[j])
  {
    var st0 := Sync(table, {}, []);
    StopQueuedEffect(st0, queue);
    var st1 := StopQueued(st0, queue);
    StopUnwantedEffect(st1, stub, |st1.actual|);
    var st2 := Stopped(stub, table, queue);
    ReconcileOnlyAdds(st2, stub, landings, now, |stub|);
    if st1 == st0 {
      assert st2 == st0;
      NothingToPlay(st2, stub, landings, now, |stub|);
    }
  }

  lemma {:induction false} ReconcileOnlyAdds(st: Sync, stub: seq<SoundRequest>, landings: seq<Landing>, now: int, n: nat)
    requires n <= |stub| == |landings|
    ensures |Reconcile(st, stub, landings, now, n).commands| >= |st.commands|
  {
    if n > 0 {
      ReconcileOnlyAdds(st, stub, landings, now, n - 1);
    }
  }

  /** With an equal live sound for every stub sound, all of them unequal, reconciliation plays nothing. */
  lemma {:induction false} NothingToPlay(st: Sync, stub: seq<SoundRequest>, landings: seq<Landing>, now: int, n: nat)
    requires n <= |stub| == |landings| && PairwiseUnequal(stub) && st.claimed == {}
    requires forall i | 0 <= i < |stub| && stub[i].live ::
               exists j | 0 <= j < |st.actual| :: st.actual[j].live && IsEqual(stub[i], st.actual[j])
    ensures var st' := Reconcile(st, stub, landings, now, n);
            && st'.commands == st.commands && |st'.actual| == |st.actual|
            && (forall j | 0 <= j < |st.actual| ::
                  && st'.actual[j].live == st.actual[j].live && IsEqual(st'.actual[j], st.actual[j])
                  && st'.actual[j].adapter == st.actual[j].adapter
                  && (st'.actual[j].frame == st.actual[j].frame || SomeStub(stub, n, st'.actual[j])))
            && (forall j | j in st'.claimed :: 0 <= j < |st.actual| && exists i | 0 <= i < n :: stub[i].live && IsEqual(stub[i], st.actual[j]))
  {
    if n > 0 {
      NothingToPlay(st, stub, landings, now, n - 1);
      var before := Reconcile(st, stub, landings, now, n - 1);
      if stub[n - 1].live {
        var j :| 0 <= j < |st.actual| && st.actual[j].live && IsEqual(stub[n - 1], st.actual[j]);
        assert j !in before.claimed;
        assert FirstUnclaimed(before.actual, stub[n - 1], before.claimed, 0) < |before.actual|;
      }
    }
  }

  /**
   The sounds that survive the first SyncState's stops and that a queued stop still names are all
   first copies, the ones about to adopt a stub's start frame.
   */
  predicate NoStaleLeft(stub: seq<SoundRequest>, table: seq<SoundRequest>, queue: seq<SoundRequest>) {
    var left := Stopped(stub, table, queue).actual;
    forall j | 0 <= j < |left| && left[j].live && Named(queue, left[j]) :: FirstCopy(left, j)
  }

  /** The rollback theorem in terms of the table that the first SyncState's stops leave. */
  lemma ResyncIsSilentIffLeft(stub: seq<SoundRequest>, table: seq<SoundRequest>, queue: seq<SoundRequest>,
                          landings: seq<Landing>, now: int, landings': seq<Landing>, now': int)
    requires HandlesSound(table) && |stub| == |landings| == |landings'|
    requires PairwiseUnequal(stub) && StopsSpareStub(stub, queue)
    requires PlaysIdle(Stopped(stub, table, queue), stub, landings, now, |stub|)
    ensures SyncState(stub, SyncState(stub, table, queue, landings, now).actual, queue, landings', now').commands == []
            <==> NoStaleLeft(stub, table, queue)
  {
    var base, after := Stopped(stub, table, queue), SyncState(stub, table, queue, landings, now);
    StoppedEffect(stub, table, queue);
    ReconcileProgress(base, stub, landings, now, |stub|);
    EveryLiveSoundIsWanted(stub, table, queue, landings, now);
    ReconcileHandles(base, stub, landings, now, |stub|);
    forall i | 0 <= i < |stub| && stub[i].live
      ensures exists j | 0 <= j < |after.actual| :: after.actual[j].live && IsEqual(stub[i], after.actual[j])
    {
      EveryStubSoundIsHeard(stub, table, queue, landings, now, i);
    }
    RepeatIsSilentIff(stub, after.actual, queue, landings', now');
    forall j | 0 <= j < |after.actual|
      ensures Named(queue, after.actual[j]) <==> base.actual[j].live && Named(queue, base.actual[j]) && !FirstCopy(base.actual, j)
    {
      NamedAfterSync(base.actual, after, stub, queue, j);
    }
  }

  lemma {:induction false} ReconcileHandles(st: Sync, stub: seq<SoundRequest>, landings: seq<Landing>, now: int, n: nat)
    requires n <= |stub| == |landings| && HandlesSound(st.actual)
    ensures HandlesSound(Reconcile(st, stub, landings, now, n).actual)
  {
    if n > 0 {
      ReconcileHandles(st, stub, landings, now, n - 1);
    }
  }

  lemma NamedAfterSync(base: seq<SoundRequest>, after: Sync, stub: seq<SoundRequest>, queue: seq<SoundRequest>, j: nat)
    requires Progress(base, after, stub, |stub|) && StopsSpareStub(stub, queue) && AllWanted(stub, base) && j < |base|
    ensures Named(queue, after.actual[j]) <==> base[j].live && Named(queue, base[j]) && !FirstCopy(base, j)
  {
    var sound := after.actual[j];
    if SomeStub(stub, |stub|, sound) {
      var i :| 0 <= i < |stub| && stub[i].live && IsEqual(stub[i], sound) && stub[i].frame == sound.frame;
      assert forall q :: Names(q, sound) ==> Names(q, stub[i]);
      assert !Named(queue, sound);
      if base[j].live && sound.frame == base[j].frame {
        assert forall q :: Names(q, base[j]) ==> Names(q, stub[i]);
      }
    } else if base[j].live {
      assert Wanted(stub, base[j]);
      assert !FirstCopy(base, j);
      assert forall q :: Names(q, base[j]) <==> Names(q, sound);
    }
  }

  /** No two live sounds of the table are equal and started on the same frame. */
  predicate DistinctInstances(table: seq<SoundRequest>) {
    forall i, j | 0 <= i < j < |table| && table[i].live && table[j].live :: !(IsEqual(table[i], table[j]) && table[i].frame == table[j].frame)
  }

  /** Distinct instances leave no stale copy: each queued stop finds the one sound it names. */
  lemma {:induction false} DistinctInstancesAllStopped(st: Sync, queue: seq<SoundRequest>)
    requires HandlesSound(st.actual) && DistinctInstances(st.actual)
    ensures var st' := StopQueued(st, queue);
            && DistinctInstances(st'.actual)
            && forall j | 0 <= j < |st'.actual| :: !Named(queue, st'.actual[j])
  {
    if queue != [] {
      var init, last := queue[..|queue| - 1], queue[|queue| - 1];
      assert queue == init + [last];
      DistinctInstancesAllStopped(st, init);
      StopQueuedEffect(st, init);
      var mid, st' := StopQueued(st, init), StopQueued(st, queue);
      forall j | 0 <= j < |st'.actual| ensures !Named(queue, st'.actual[j]) {
        assert !Named(init, mid.actual[j]);
        assert !Names(last, st'.actual[j]);
      }
    }
  }

  /** With distinct live real sounds the repeated SyncState is always silent. */
  lemma ResyncOfDistinctIsSilent(stub: seq<SoundRequest>, table: seq<SoundRequest>, queue: seq<SoundRequest>,
                                 landings: seq<Landing>, now: int, landings': seq<Landing>, now': int)
    requires HandlesSound(table) && |stub| == |landings| == |landings'| && DistinctInstances(table)
    requires PairwiseUnequal(stub) && StopsSpareStub(stub, queue)
    requires PlaysIdle(Stopped(stub, table, queue), stub, landings, now, |stub|)
    ensures SyncState(stub, SyncState(stub, table, queue, landings, now).actual, queue, landings', now').commands == []
  {
    ResyncIsSilentIffLeft(stub, table, queue, landings, now, landings', now');
    var st := StopQueued(Sync(table, {}, []), queue);
    StopQueuedEffect(Sync(table, {}, []), queue);
    DistinctInstancesAllStopped(Sync(table, {}, []), queue);
    StopUnwantedEffect(st, stub, |st.actual|);
    var left := Stopped(stub, table, queue).actual;
    forall j | 0 <= j < |left| && left[j].live ensures !Named(queue, left[j]) {
      assert left[j] == st.actual[j];
    }
  }

  /**
   Real sounds that are pairwise unequal stay so through a SyncState with unequal stub sounds and
   idle landings.
   */
  lemma UnequalSoundsStayUnequal(stub: seq<SoundRequest>, table: seq<SoundRequest>, queue: seq<SoundRequest>,
                                 landings: seq<Landing>, now: int)
    requires HandlesSound(table) && |stub| == |landings| && PairwiseUnequal(stub) && PairwiseUnequal(table)
    requires PlaysIdle(Stopped(stub, table, queue), stub, landings, now, |stub|)
    ensures var after := SyncState(stub, table, queue, landings, now).actual;
            PairwiseUnequal(after) && HandlesSound(after) && DistinctInstances(after)
  {
    var base := Stopped(stub, table, queue);
    StoppedEffect(stub, table, queue);
    ReconcileHandles(base, stub, landings, now, |stub|);
    ReconcileUnequal(base, stub, landings, now, |stub|);
  }

  lemma {:induction false} ReconcileUnequal(st: Sync, stub: seq<SoundRequest>, landings: seq<Landing>, now: int, n: nat)
    requires n <= |stub| == |landings| && PairwiseUnequal(stub) && PairwiseUnequal(st.actual) && st.claimed == {}
    requires PlaysIdle(st, stub, landings, now, n)
    ensures PairwiseUnequal(Reconcile(st, stub, landings, now, n).actual)
  {
    if n > 0 {
      ReconcileUnequal(st, stub, landings, now, n - 1);
      ReconcileProgress(st, stub, landings, now, n - 1);
      var before, sound := Reconcile(st, stub, landings, now, n - 1), stub[n - 1];
      if sound.live {
        ClaimsFirstCopy(st.actual, before, stub, n);
        forall j | 0 <= j < |st.actual| && before.actual[j].live && IsEqual(sound, before.actual[j])
          ensures FirstUnclaimed(before.actual, sound, before.claimed, 0) < |st.actual|
        {
          assert !SomeStub(stub, n - 1, before.actual[j]);
        }
      }
    }
  }
}
