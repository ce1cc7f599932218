/**
 Sound reconciliation: SoundPlayerManager::SyncState of src/sf4e/sf4e__Game__Battle.cxx for one
 stub manager, whose sounds the simulation starts and stops, and the actual manager that is audible.

 The engine's choice of an adapter for a sound is an input: for each stub adapter the adapter its
 play lands on, and the one a second attempt lands on after the oldest sound was stopped; -1 is a
 refused play.
 */
module SoundSync {

  datatype SoundArgs = SoundArgs(cueSheetHandle: int, cueIdx: int, soundType: int, flags: int, position: int)

  /** `adapter` is the index that the current adapter handle decodes to. */
  datatype SoundRequest = SoundRequest(live: bool, frame: int, adapter: int, args: SoundArgs)

  datatype Command = Play(args: SoundArgs, adapter: int) | Stop(adapter: int)

  datatype Landing = Landing(first: int, second: int)

  /** The actual manager's table, the adapters claimed so far, and what was asked of the engine. */
  datatype Sync = Sync(actual: seq<SoundRequest>, claimed: set<int>, commands: seq<Command>)

  /** DeferredSoundRequest::IsEqual */
  predicate IsEqual(a: SoundRequest, b: SoundRequest) {
    a.args == b.args
  }

  /** The stop was issued against this very instance: same arguments, same start frame. */
  predicate Names(stop: SoundRequest, sound: SoundRequest) {
    sound.live && IsEqual(stop, sound) && sound.frame == stop.frame
  }

  predicate Wanted(stub: seq<SoundRequest>, sound: SoundRequest) {
    exists i | 0 <= i < |stub| :: stub[i].live && IsEqual(stub[i], sound)
  }

  /** A live sound's handle decodes to the adapter it plays on. */
  predicate HandlesSound(actual: seq<SoundRequest>) {
    forall j | 0 <= j < |actual| && actual[j].live :: actual[j].adapter == j
  }

  // ----- Actual-side operations -----

  function StopSound(st: Sync, adapter: int): Sync {
    st.(actual := if 0 <= adapter < |st.actual| then st.actual[adapter := st.actual[adapter].(live := false)] else st.actual,
        commands := st.commands + [Stop(adapter)])
  }

  /** The first live sound with the smallest frame among the first n, or -1. */
  function Oldest(actual: seq<SoundRequest>, n: nat): (j: int)
    requires n <= |actual|
    ensures -1 <= j < n
    ensures j >= 0 ==> actual[j].live
  {
    if n == 0 then -1
    else
      var j := Oldest(actual, n - 1);
      if actual[n - 1].live && (j < 0 || actual[n - 1].frame < actual[j].frame) then n - 1 else j
  }

  /** PlaySound on the actual manager: the new table and the adapter, or -1. */
  function PlaySound(st: Sync, args: SoundArgs, landing: Landing, now: int): (Sync, int) {
    var oldest := Oldest(st.actual, |st.actual|);
    var retry := landing.first == -1 && oldest >= 0;
    var st1 := if retry then StopSound(st, st.actual[oldest].adapter) else st;
    var out := if retry then landing.second else landing.first;
    if 0 <= out < |st1.actual| then
      (st1.(actual := st1.actual[out := SoundRequest(true, now, out, args)], commands := st1.commands + [Play(args, out)]), out)
    else
      (st1, -1)
  }

  // ----- The three passes -----

  function FirstNamed(actual: seq<SoundRequest>, stop: SoundRequest, from: nat): (j: nat)
    requires from <= |actual|
    ensures from <= j <= |actual|
    ensures j < |actual| ==> Names(stop, actual[j])
    ensures forall k | from <= k < j :: !Names(stop, actual[k])
    decreases |actual| - from
  {
    if from == |actual| || Names(stop, actual[from]) then from else FirstNamed(actual, stop, from + 1)
  }

  function StopQueued(st: Sync, queue: seq<SoundRequest>): Sync {
    if queue == [] then st
    else
      var st' := StopQueued(st, queue[..|queue| - 1]);
      var j := FirstNamed(st'.actual, queue[|queue| - 1], 0);
      if j < |st'.actual| then StopSound(st', st'.actual[j].adapter) else st'
  }

  /** Among the first n actual sounds, stop those that no live stub sound wants. */
  function StopUnwanted(st: Sync, stub: seq<SoundRequest>, n: nat): (r: Sync)
    requires n <= |st.actual|
    ensures |r.actual| == |st.actual|
  {
    if n == 0 then st
    else
      var st' := StopUnwanted(st, stub, n - 1);
      if st'.actual[n - 1].live && !Wanted(stub, st'.actual[n - 1]) then StopSound(st', st'.actual[n - 1].adapter) else st'
  }

  function FirstUnclaimed(actual: seq<SoundRequest>, sound: SoundRequest, claimed: set<int>, from: nat): (j: nat)
    requires from <= |actual|
    ensures from <= j <= |actual|
    ensures j < |actual| ==> actual[j].live && IsEqual(sound, actual[j]) && j !in claimed
    ensures forall k | from <= k < j :: !(actual[k].live && IsEqual(sound, actual[k]) && k !in claimed)
    decreases |actual| - from
  {
    if from == |actual| || (actual[from].live && IsEqual(sound, actual[from]) && from !in claimed) then from
    else FirstUnclaimed(actual, sound, claimed, from + 1)
  }

  /** Reconcile one live stub sound: claim an equal real sound or play it, and adopt its start frame. */
  function ReconcileOne(st: Sync, sound: SoundRequest, landing: Landing, now: int): Sync {
    var j := FirstUnclaimed(st.actual, sound, st.claimed, 0);
    if j < |st.actual| then
      st.(actual := st.actual[j := st.actual[j].(frame := sound.frame)], claimed := st.claimed + {j})
    else
      var (st', out) := PlaySound(st, sound.args, landing, now);
      if 0 <= out < |st'.actual| then st'.(actual := st'.actual[out := st'.actual[out].(frame := sound.frame)]) else st'
  }

  function Reconcile(st: Sync, stub: seq<SoundRequest>, landings: seq<Landing>, now: int, n: nat): Sync
    requires n <= |stub| == |landings|
  {
    if n == 0 then st
    else
      var st' := Reconcile(st, stub, landings, now, n - 1);
      if stub[n - 1].live then ReconcileOne(st', stub[n - 1], landings[n - 1], now) else st'
  }

  /** The table once stale sounds are stopped, before anything is claimed or played. */
  function Stopped(stub: seq<SoundRequest>, actual: seq<SoundRequest>, queue: seq<SoundRequest>): Sync {
    var st := StopQueued(Sync(actual, {}, []), queue);
    StopUnwanted(st, stub, |st.actual|)
  }

  function SyncState(stub: seq<SoundRequest>, actual: seq<SoundRequest>, queue: seq<SoundRequest>,
                     landings: seq<Landing>, now: int): Sync
    requires |stub| == |landings|
  {
    Reconcile(Stopped(stub, actual, queue), stub, landings, now, |stub|)
  }

  // ----- The imperative original -----

  class SoundPlayers {
    const stub: array<SoundRequest>
    const actual: array<SoundRequest>
    var queuedStops: seq<SoundRequest>
    var commands: seq<Command>

    ghost predicate Valid()
      reads this, actual
    {
      stub != actual && stub.Length == actual.Length && HandlesSound(actual[..])
    }

    constructor (adapters: nat)
      ensures Valid() && stub.Length == adapters && queuedStops == [] && commands == []
      ensures fresh(stub) && fresh(actual)
      ensures forall j | 0 <= j < adapters :: !stub[j].live && !actual[j].live
    {
      var idle := SoundRequest(false, 0, 0, SoundArgs(0, 0, 0, 0, 0));
      stub := new SoundRequest[adapters](_ => idle);
      actual := new SoundRequest[adapters](_ => idle);
      queuedStops, commands := [], [];
    }

    method StopReal(adapter: int)
      requires Valid() && 0 <= adapter < actual.Length
      modifies actual, this`commands
      ensures Valid() && Sync(actual[..], {}, commands) == StopSound(Sync(old(actual[..]), {}, old(commands)), adapter)
    {
      actual[adapter] := actual[adapter].(live := false);
      commands := commands + [Stop(adapter)];
    }

    method PlayReal(args: SoundArgs, landing: Landing, now: int) returns (out: int)
      requires Valid() && -1 <= landing.first < actual.Length && -1 <= landing.second < actual.Length
      modifies actual, this`commands
      ensures Valid() && -1 <= out < actual.Length
      ensures (Sync(actual[..], {}, commands), out) == PlaySound(Sync(old(actual[..]), {}, old(commands)), args, landing, now)
    {
      out := landing.first;
      if out == -1 {
        var oldest := -1;
        for j := 0 to actual.Length
          invariant oldest == Oldest(actual[..], j)
        {
          if actual[j].live && (oldest < 0 || actual[j].frame < actual[oldest].frame) {
            oldest := j;
          }
        }
        if oldest >= 0 {
          StopReal(actual[oldest].adapter);
          out := landing.second;
        }
      }
      if out == -1 {
        return;
      }
      actual[out] := SoundRequest(true, now, out, args);
      commands := commands + [Play(args, out)];
    }

    method StopFirstNamed(stop: SoundRequest)
      requires Valid()
      modifies actual, this`commands
      ensures Valid()
      ensures Sync(actual[..], {}, commands)
           == var j := FirstNamed(old(actual[..]), stop, 0);
              var st := Sync(old(actual[..]), {}, old(commands));
              if j < actual.Length then StopSound(st, st.actual[j].adapter) else st
    {
      for i := 0 to actual.Length
        invariant forall k | 0 <= k < i :: !Names(stop, actual[k])
        invariant actual[..] == old(actual[..]) && commands == old(commands)
      {
        if actual[i].live && IsEqual(stop, actual[i]) && actual[i].frame == stop.frame {
          assert FirstNamed(actual[..], stop, 0) == i;
          StopReal(actual[i].adapter);
          return;
        }
      }
      assert FirstNamed(actual[..], stop, 0) == actual.Length;
    }

    method IsWanted(sound: SoundRequest) returns (wanted: bool)
      ensures wanted == Wanted(stub[..], sound)
    {
      for j := 0 to stub.Length
        invariant forall k | 0 <= k < j :: !(stub[k].live && IsEqual(stub[k], sound))
      {
        if stub[j].live && IsEqual(stub[j], sound) {
          assert stub[..][j].live;
          return true;
        }
      }
      return false;
    }

    method Claim(sound: SoundRequest, claimed: set<int>) returns (target: int)
      requires Valid()
      ensures var j := FirstUnclaimed(actual[..], sound, claimed, 0); target == if j < actual.Length then j else -1
    {
      for j := 0 to actual.Length
        invariant forall k | 0 <= k < j :: !(actual[k].live && IsEqual(sound, actual[k]) && k !in claimed)
      {
        if actual[j].live && IsEqual(sound, actual[j]) && j !in claimed {
          assert FirstUnclaimed(actual[..], sound, claimed, 0) == j;
          return j;
        }
      }
      assert FirstUnclaimed(actual[..], sound, claimed, 0) == actual.Length;
      return -1;
    }

    method ReconcileStub(sound: SoundRequest, claimed: set<int>, landing: Landing, now: int) returns (claimed': set<int>)
      requires Valid() && -1 <= landing.first < actual.Length && -1 <= landing.second < actual.Length
      modifies actual, this`commands
      ensures Valid()
      ensures Sync(actual[..], claimed', commands)
           == ReconcileOne(Sync(old(actual[..]), claimed, old(commands)), sound, landing, now)
    {
      claimed' := claimed;
      var target := Claim(sound, claimed);
      if target >= 0 {
        claimed' := claimed + {target};
      } else {
        target := PlayReal(sound.args, landing, now);
        if target < 0 {
          return;
        }
      }
      actual[target] := actual[target].(frame := sound.frame);
    }

    /** The second pass. */
    method StopUnwantedSounds()
      requires Valid()
      modifies actual, this`commands
      ensures Valid()
      ensures Sync(actual[..], {}, commands)
           == StopUnwanted(Sync(old(actual[..]), {}, old(commands)), stub[..], actual.Length)
    {
      ghost var before := Sync(actual[..], {}, commands);
      for i := 0 to actual.Length
        invariant Valid()
        invariant Sync(actual[..], {}, commands) == StopUnwanted(before, stub[..], i)
      {
        if actual[i].live {
          var wanted := IsWanted(actual[i]);
          if !wanted {
            StopReal(actual[i].adapter);
          }
        }
      }
    }

    /** The stub side belongs to the simulation and is only read; the queue is drained. */
    method SyncWithReal(landings: seq<Landing>, now: int)
      requires Valid() && |landings| == actual.Length
      requires forall l | l in landings :: -1 <= l.first < actual.Length && -1 <= l.second < actual.Length
      modifies this, actual
      ensures Valid() && queuedStops == []
      ensures var st := SyncState(stub[..], old(actual[..]), old(queuedStops), landings, now);
              actual[..] == st.actual && commands == old(commands) + st.commands
    {
      var before := commands;
      commands := [];
      ghost var start, queue := Sync(actual[..], {}, []), queuedStops;
      for i := 0 to |queuedStops|
        invariant Valid() && queuedStops == queue
        invariant Sync(actual[..], {}, commands) == StopQueued(start, queue[..i])
      {
        assert queue[..i + 1][..i] == queue[..i];
        StopFirstNamed(queuedStops[i]);
      }
      assert queue[..|queue|] == queue;
      StopUnwantedSounds();
      ghost var stopped := Stopped(stub[..], old(actual[..]), queue);
      var claimed: set<int> := {};
      for i := 0 to stub.Length
        invariant Valid()
        invariant Sync(actual[..], claimed, commands) == Reconcile(stopped, stub[..], landings, now, i)
      {
        if stub[i].live {
          claimed := ReconcileStub(stub[i], claimed, landings[i], now);
        }
      }
      queuedStops := [];
      commands := before + commands;
    }
  }
}
