/**
 What is heard: the commands a SyncState gives the engine, folded over the sounds the adapters are
 playing, leave audible exactly what the actual manager's table calls live.
 */
module SoundAudible {

  import opened SoundSync
  import opened SoundSyncProperties

  /** The sound each adapter plays; silent adapters have none. */
  type Audible = map<int, SoundArgs>

  function Hear(playing: Audible, c: Command): Audible {
    match c
    case Play(args, adapter) => playing[adapter := args]
    case Stop(adapter) => playing - {adapter}
  }

  function HearAll(playing: Audible, commands: seq<Command>): Audible {
    if commands == [] then playing
    else Hear(HearAll(playing, commands[..|commands| - 1]), commands[|commands| - 1])
  }

  predicate AgreesAt(playing: Audible, table: seq<SoundRequest>, j: int) {
    && (j in playing <==> 0 <= j < |table| && table[j].live)
    && (j in playing ==> playing[j] == table[j].args)
  }

  /** The live entries of the table are the sounds playing, each on its adapter with its arguments. */
  ghost predicate Agrees(playing: Audible, table: seq<SoundRequest>) {
    forall j :: AgreesAt(playing, table, j)
  }

  lemma HearOneMore(playing: Audible, commands: seq<Command>, c: Command)
    ensures HearAll(playing, commands + [c]) == Hear(HearAll(playing, commands), c)
  {
    assert (commands + [c])[..|commands|] == commands;
  }

  /** The commands so far, heard from `playing`, agree with the table so far. */
  ghost predicate InTune(playing: Audible, st: Sync) {
    HandlesSound(st.actual) && Agrees(HearAll(playing, st.commands), st.actual)
  }

  // ----- Each operation -----

  lemma StopAgrees(playing: Audible, table: seq<SoundRequest>, j: nat)
    requires Agrees(playing, table) && j < |table|
    ensures Agrees(playing - {j}, table[j := table[j].(live := false)])
  {
    var playing', table' := playing - {j}, table[j := table[j].(live := false)];
    forall k ensures AgreesAt(playing', table', k) {
      assert AgreesAt(playing, table, k);
    }
  }

  lemma TakeAgrees(playing: Audible, table: seq<SoundRequest>, args: SoundArgs, j: nat, now: int)
    requires Agrees(playing, table) && j < |table|
    ensures Agrees(playing[j := args], table[j := SoundRequest(true, now, j, args)])
  {
    var playing', table' := playing[j := args], table[j := SoundRequest(true, now, j, args)];
    forall k ensures AgreesAt(playing', table', k) {
      assert AgreesAt(playing, table, k);
    }
  }

  lemma AdoptAgrees(playing: Audible, table: seq<SoundRequest>, j: nat, frame: int)
    requires Agrees(playing, table) && j < |table|
    ensures Agrees(playing, table[j := table[j].(frame := frame)])
  {
    var table' := table[j := table[j].(frame := frame)];
    forall k ensures AgreesAt(playing, table', k) {
      assert AgreesAt(playing, table, k);
    }
  }

  lemma StopInTune(playing: Audible, st: Sync, j: nat)
    requires InTune(playing, st) && j < |st.actual| && st.actual[j].live
    ensures InTune(playing, StopSound(st, st.actual[j].adapter))
  {
    var table' := st.actual[j := st.actual[j].(live := false)];
    assert HandlesSound(table');
    StopAgrees(HearAll(playing, st.commands), st.actual, j);
    HearOneMore(playing, st.commands, Stop(j));
    assert Agrees(HearAll(playing, st.commands + [Stop(j)]), table');
  }

  lemma TakeInTune(playing: Audible, st: Sync, args: SoundArgs, out: nat, now: int)
    requires InTune(playing, st) && out < |st.actual|
    ensures InTune(playing, st.(actual := st.actual[out := SoundRequest(true, now, out, args)],
                                commands := st.commands + [Play(args, out)]))
  {
    var table' := st.actual[out := SoundRequest(true, now, out, args)];
    assert HandlesSound(table');
    TakeAgrees(HearAll(playing, st.commands), st.actual, args, out, now);
    HearOneMore(playing, st.commands, Play(args, out));
    assert Agrees(HearAll(playing, st.commands + [Play(args, out)]), table');
  }

  lemma AdoptInTune(playing: Audible, st: Sync, j: nat, frame: int, claimed: set<int>)
    requires InTune(playing, st) && j < |st.actual|
    ensures InTune(playing, st.(actual := st.actual[j := st.actual[j].(frame := frame)], claimed := claimed))
  {
    AdoptAgrees(HearAll(playing, st.commands), st.actual, j, frame);
  }

  lemma PlayInTune(playing: Audible, st: Sync, args: SoundArgs, landing: Landing, now: int)
    requires InTune(playing, st)
    ensures InTune(playing, PlaySound(st, args, landing, now).0)
  {
    var oldest := Oldest(st.actual, |st.actual|);
    var retry := landing.first == -1 && oldest >= 0;
    var st1 := if retry then StopSound(st, st.actual[oldest].adapter) else st;
    if retry {
      StopInTune(playing, st, oldest);
    }
    var out := if retry then landing.second else landing.first;
    if 0 <= out < |st1.actual| {
      TakeInTune(playing, st1, args, out, now);
    }
  }

  lemma {:induction false} StopQueuedInTune(playing: Audible, st: Sync, queue: seq<SoundRequest>)
    requires InTune(playing, st)
    ensures InTune(playing, StopQueued(st, queue))
  {
    if queue != [] {
      StopQueuedInTune(playing, st, queue[..|queue| - 1]);
      var mid := StopQueued(st, queue[..|queue| - 1]);
      var j := FirstNamed(mid.actual, queue[|queue| - 1], 0);
      if j < |mid.actual| {
        StopInTune(playing, mid, j);
      }
    }
  }

  lemma {:induction false} StopUnwantedInTune(playing: Audible, st: Sync, stub: seq<SoundRequest>, n: nat)
    requires InTune(playing, st) && n <= |st.actual|
    ensures InTune(playing, StopUnwanted(st, stub, n))
  {
    if n > 0 {
      StopUnwantedInTune(playing, st, stub, n - 1);
      var mid := StopUnwanted(st, stub, n - 1);
      if mid.actual[n - 1].live {
        StopInTune(playing, mid, n - 1);
      }
    }
  }

  lemma ReconcileOneInTune(playing: Audible, st: Sync, sound: SoundRequest, landing: Landing, now: int)
    requires InTune(playing, st)
    ensures InTune(playing, ReconcileOne(st, sound, landing, now))
  {
    var j := FirstUnclaimed(st.actual, sound, st.claimed, 0);
    if j < |st.actual| {
      AdoptInTune(playing, st, j, sound.frame, st.claimed + {j});
    } else {
      PlayInTune(playing, st, sound.args, landing, now);
      var (st', out) := PlaySound(st, sound.args, landing, now);
      if 0 <= out < |st'.actual| {
        AdoptInTune(playing, st', out, sound.frame, st'.claimed);
      }
    }
  }

  lemma {:induction false} ReconcileInTune(playing: Audible, st: Sync, stub: seq<SoundRequest>, landings: seq<Landing>, now: int, n: nat)
    requires InTune(playing, st) && n <= |stub| == |landings|
    ensures InTune(playing, Reconcile(st, stub, landings, now, n))
  {
    if n > 0 {
      ReconcileInTune(playing, st, stub, landings, now, n - 1);
      if stub[n - 1].live {
        ReconcileOneInTune(playing, Reconcile(st, stub, landings, now, n - 1), stub[n - 1], landings[n - 1], now);
      }
    }
  }

  // ----- Whole SyncStates -----

  /**
   If the sounds playing agree with the table before a SyncState, then once its commands were carried
   out they agree with the table after it, whatever adapters the engine picks or refuses.
   */
  lemma AudibleAgrees(playing: Audible, stub: seq<SoundRequest>, table: seq<SoundRequest>, queue: seq<SoundRequest>,
                      landings: seq<Landing>, now: int)
    requires HandlesSound(table) && |stub| == |landings| && Agrees(playing, table)
    ensures var after := SyncState(stub, table, queue, landings, now);
            Agrees(HearAll(playing, after.commands), after.actual) && HandlesSound(after.actual)
  {
    var start := Sync(table, {}, []);
    assert InTune(playing, start);
    StopQueuedInTune(playing, start, queue);
    var named := StopQueued(start, queue);
    StopUnwantedInTune(playing, named, stub, |named.actual|);
    ReconcileInTune(playing, Stopped(stub, table, queue), stub, landings, now, |stub|);
  }

  /** Nothing is heard that the simulation does not want: every sound playing has the arguments of a live stub sound. */
  lemma OnlyWantedIsHeard(playing: Audible, stub: seq<SoundRequest>, table: seq<SoundRequest>, queue: seq<SoundRequest>,
                          landings: seq<Landing>, now: int)
    requires HandlesSound(table) && |stub| == |landings| && Agrees(playing, table)
    ensures var heard := HearAll(playing, SyncState(stub, table, queue, landings, now).commands);
            forall j | j in heard :: exists i | 0 <= i < |stub| :: stub[i].live && stub[i].args == heard[j]
  {
    var after := SyncState(stub, table, queue, landings, now);
    AudibleAgrees(playing, stub, table, queue, landings, now);
    EveryLiveSoundIsWanted(stub, table, queue, landings, now);
    var heard := HearAll(playing, after.commands);
    forall j | j in heard ensures exists i | 0 <= i < |stub| :: stub[i].live && stub[i].args == heard[j] {
      assert AgreesAt(heard, after.actual, j);
      assert Wanted(stub, after.actual[j]);
    }
  }

  /** And everything it wants is heard, when every play lands on an idle adapter. */
  lemma EverythingWantedIsHeard(playing: Audible, stub: seq<SoundRequest>, table: seq<SoundRequest>, queue: seq<SoundRequest>,
                                landings: seq<Landing>, now: int, i: nat)
    requires HandlesSound(table) && |stub| == |landings| && Agrees(playing, table)
    requires PlaysIdle(Stopped(stub, table, queue), stub, landings, now, |stub|)
    requires i < |stub| && stub[i].live
    ensures stub[i].args in HearAll(playing, SyncState(stub, table, queue, landings, now).commands).Values
  {
    var after := SyncState(stub, table, queue, landings, now);
    AudibleAgrees(playing, stub, table, queue, landings, now);
    EveryStubSoundIsHeard(stub, table, queue, landings, now, i);
    var j :| 0 <= j < |after.actual| && after.actual[j].live && IsEqual(stub[i], after.actual[j])
             && SomeStub(stub, |stub|, after.actual[j]);
    assert AgreesAt(HearAll(playing, after.commands), after.actual, j);
  }

  /** One frame of the simulation's side, with the engine's answers. */
  datatype Round = Round(stub: seq<SoundRequest>, queue: seq<SoundRequest>, landings: seq<Landing>, now: int)

  predicate Answered(rounds: seq<Round>) {
    forall t | t in rounds :: |t.stub| == |t.landings|
  }

  function TableAfter(table: seq<SoundRequest>, rounds: seq<Round>): seq<SoundRequest>
    requires Answered(rounds)
    decreases |rounds|
  {
    if rounds == [] then table
    else
      assert rounds[0] in rounds;
      var t := rounds[0];
      TableAfter(SyncState(t.stub, table, t.queue, t.landings, t.now).actual, rounds[1..])
  }

  function HeardAfter(playing: Audible, table: seq<SoundRequest>, rounds: seq<Round>): Audible
    requires Answered(rounds)
    decreases |rounds|
  {
    if rounds == [] then playing
    else
      assert rounds[0] in rounds;
      var t := rounds[0];
      var after := SyncState(t.stub, table, t.queue, t.landings, t.now);
      HeardAfter(HearAll(playing, after.commands), after.actual, rounds[1..])
  }

  /** So the table never loses track of the engine, over any number of SyncStates of any simulations. */
  lemma {:induction false} AudibleAgreesAlways(playing: Audible, table: seq<SoundRequest>, rounds: seq<Round>)
    requires HandlesSound(table) && Agrees(playing, table) && Answered(rounds)
    ensures Agrees(HeardAfter(playing, table, rounds), TableAfter(table, rounds))
    decreases |rounds|
  {
    if rounds != [] {
      assert rounds[0] in rounds;
      var t := rounds[0];
      var after := SyncState(t.stub, table, t.queue, t.landings, t.now);
      AudibleAgrees(playing, t.stub, table, t.queue, t.landings, t.now);
      AudibleAgreesAlways(HearAll(playing, after.commands), after.actual, rounds[1..]);
    }
  }

  // ----- Which sound is stopped -----

  /** The live sound that started first, the one of the lowest adapter among equals. */
  predicate IsOldest(table: seq<SoundRequest>, j: nat)
    requires j < |table|
  {
    && table[j].live
    && forall k | 0 <= k < |table| && table[k].live :: table[j].frame <= table[k].frame && (k < j ==> table[j].frame < table[k].frame)
  }

  lemma {:induction false} OldestIsOldest(table: seq<SoundRequest>, n: nat)
    requires n <= |table|
    ensures var j := Oldest(table, n);
            if j < 0 then forall k | 0 <= k < n :: !table[k].live
            else forall k | 0 <= k < n && table[k].live ::
                   table[j].frame <= table[k].frame && (k < j ==> table[j].frame < table[k].frame)
  {
    if n > 0 {
      OldestIsOldest(table, n - 1);
    }
  }

  /** A refused play silences the oldest sound and tries once more; it is heard if the second attempt finds an adapter. */
  lemma RefusedPlayStopsOldest(playing: Audible, st: Sync, args: SoundArgs, landing: Landing, now: int, j: nat)
    requires InTune(playing, st) && landing.first == -1 && j < |st.actual| && IsOldest(st.actual, j)
    ensures var st' := PlaySound(st, args, landing, now).0;
            var stopped := st.commands + [Stop(j)];
            && st'.commands == (if 0 <= landing.second < |st.actual| then stopped + [Play(args, landing.second)] else stopped)
            && (j in HearAll(playing, st'.commands) <==> j == landing.second)
  {
    OldestIsOldest(st.actual, |st.actual|);
    HearOneMore(playing, st.commands, Stop(j));
    HearOneMore(playing, st.commands + [Stop(j)], Play(args, landing.second));
  }

  /** A play that lands at once silences nothing but the sound it takes the adapter of. */
  lemma PlayIsHeard(playing: Audible, st: Sync, args: SoundArgs, landing: Landing, now: int)
    requires 0 <= landing.first < |st.actual|
    ensures HearAll(playing, PlaySound(st, args, landing, now).0.commands)
         == HearAll(playing, st.commands)[landing.first := args]
  {
    HearOneMore(playing, st.commands, Play(args, landing.first));
  }

  /** One queued stop silences the first sound with its arguments and its start frame, and no other. */
  lemma QueuedStopSilences(playing: Audible, table: seq<SoundRequest>, stop: SoundRequest, j: nat)
    requires HandlesSound(table) && Agrees(playing, table) && j < |table|
    ensures var heard := HearAll(playing, StopQueued(Sync(table, {}, []), [stop]).commands);
            j in heard <==>
              && j in playing
              && !(&& table[j].args == stop.args && table[j].frame == stop.frame
                   && forall k | 0 <= k < j :: !(k in playing && table[k].args == stop.args && table[k].frame == stop.frame))
  {
    var start := Sync(table, {}, []);
    assert [stop][..0] == [];
    assert StopQueued(start, []) == start;
    var first := FirstNamed(table, stop, 0);
    HearOneMore(playing, [], Stop(first));
    forall k | 0 <= k < |table| ensures k in playing <==> table[k].live {
      assert AgreesAt(playing, table, k);
    }
  }
}
