/**
 Save states: SaveState::Save, Load and Free of src/sf4e/sf4e__Game__Battle__System.cxx with the key
 tracking of src/sf4e/sf4e__Game.cxx.

 The engine keeps the recorded state of an object in a memory block that the object's memento key
 refers to. Saving moves keys out of the engine by raw copy and zeroing, loading copies them back
 in and out again, and freeing installs the victim's keys so that the engine can release their
 blocks. The engine's part is reduced to: initializing a key releases the block it refers to and
 allocates one with the object's current state, clearing a key releases its block, and restoring
 gives every object whose key refers to a block the state recorded in it.
 */
module SaveStates {

  import opened Common

  type Key = nat
  type Block = nat
  type Adapter = nat

  const GGPO_MAX_PREDICTION_FRAMES := 8
  const NUM_SAVE_STATES := GGPO_MAX_PREDICTION_FRAMES + 2

  /** Battle-flow statics and the game manager block, copied verbatim. */
  datatype Globals = Globals(flow: int, gameManager: int)

  const DEFAULT_GLOBALS := Globals(0, 0)
  const DEFAULT_SOUND := 0

  /** `keys` lists each saved key once with its value; None is a zeroed key. */
  datatype SaveState = SaveState(
    used: bool,
    keys: map<Key, Option<Block>>,
    globals: Globals,
    criPlayerState: map<Adapter, int>
  )

  const EMPTY_STATE := SaveState(false, map[], DEFAULT_GLOBALS, map[])

  /** What Clear leaves of a slot: it resets the flow globals, but the game manager block stays. */
  function Cleared(victim: SaveState): SaveState {
    SaveState(false, map[], Globals(DEFAULT_GLOBALS.flow, victim.globals.gameManager), map[])
  }

  /** An unused slot has no keys and no sounds; its game manager block is whatever was last saved. */
  predicate Blank(slot: SaveState) {
    !slot.used && slot.keys == map[] && slot.criPlayerState == map[]
  }

  /**
   `live` has the memento keys in the engine that refer to a block; all others are zero. `detoured`
   says whether the ClearKey that freeing calls is the hooked one, which stops tracking the key, or
   the engine's own.
   */
  datatype Engine = Engine(
    live: map<Key, Block>,
    tracked: set<Key>,
    heap: map<Block, int>,
    objects: map<Key, int>,
    globals: Globals,
    adapters: map<Adapter, int>,
    queuedStops: seq<int>,
    detoured: bool
  )

  /** One Initialize by the engine while recording: the key, and the block it gets. */
  datatype Record = Record(key: Key, block: Block)

  function Object(e: Engine, k: Key): int {
    if k in e.objects then e.objects[k] else 0
  }

  // ----- Engine operations -----

  function Release(e: Engine, k: Key): map<Block, int> {
    if k in e.live then e.heap - {e.live[k]} else e.heap
  }

  function Initialize(e: Engine, r: Record): Engine {
    e.(live := e.live[r.key := r.block], tracked := e.tracked + {r.key},
       heap := Release(e, r.key)[r.block := Object(e, r.key)])
  }

  /** The hooked ClearKey, as the engine calls it on its own. */
  function HookedClearKey(e: Engine, k: Key): Engine {
    e.(heap := Release(e, k), tracked := e.tracked - {k}, live := e.live - {k})
  }

  function RecordAll(e: Engine, records: seq<Record>): Engine {
    if records == [] then e
    else Initialize(RecordAll(e, records[..|records| - 1]), records[|records| - 1])
  }

  /** Each block handed out is unallocated at the time. */
  predicate FreshBlocks(e: Engine, records: seq<Record>) {
    records == [] ||
    (FreshBlocks(e, records[..|records| - 1]) &&
     records[|records| - 1].block !in RecordAll(e, records[..|records| - 1]).heap)
  }

  function RestoreAll(e: Engine): Engine {
    e.(objects := map k | k in e.objects.Keys + e.live.Keys ::
         if k in e.live && e.live[k] in e.heap then e.heap[e.live[k]] else Object(e, k))
  }

  // ----- The pieces of Save, Load and Free -----

  function Saved(live: map<Key, Block>, keys: set<Key>): map<Key, Option<Block>> {
    map k | k in keys :: if k in live then Some(live[k]) else None
  }

  /** The saved keys that refer to a block. */
  function Held(keys: map<Key, Option<Block>>): map<Key, Block> {
    map k | k in keys && keys[k].Some? :: keys[k].value
  }

  /** Raw copy of saved keys over the engine's. */
  function Placed(live: map<Key, Block>, keys: map<Key, Option<Block>>): map<Key, Block> {
    (live - keys.Keys) + Held(keys)
  }

  function Save(e: Engine, records: seq<Record>): (Engine, SaveState) {
    var e1 := RecordAll(e, records);
    (e1.(live := e1.live - e1.tracked), SaveState(true, Saved(e1.live, e1.tracked), e1.globals, e1.adapters))
  }

  function CopyIntoPlace(e: Engine, src: SaveState): Engine {
    RestoreAll(e.(
      globals := src.globals,
      adapters := map a | a in e.adapters :: if a in src.criPlayerState then src.criPlayerState[a] else DEFAULT_SOUND,
      live := Placed(e.live, src.keys)))
  }

  /** Clears every listed key in the engine and zeroes it. */
  function ClearKeys(e: Engine, keys: set<Key>): Engine {
    e.(heap := e.heap - (set k | k in keys && k in e.live :: e.live[k]),
       tracked := if e.detoured then e.tracked - keys else e.tracked,
       live := e.live - keys)
  }

  function Load(e: Engine, src: SaveState): Engine {
    var backup := Saved(e.live, e.tracked);
    var installed := CopyIntoPlace(e.(live := e.live - e.tracked, queuedStops := []), src);
    installed.(live := Placed(installed.live - src.keys.Keys, backup))
  }

  function Free(e: Engine, victim: SaveState, records: seq<Record>): Engine {
    var (e1, tmp) := Save(e, records);
    var installed := CopyIntoPlace(e1, victim);
    CopyIntoPlace(ClearKeys(installed, victim.keys.Keys), tmp)
  }

  // ----- The imperative original -----

  class GameMemory {
    var engine: Engine
    const saveStates: array<SaveState>

    constructor (engine: Engine)
      ensures this.engine == engine && fresh(saveStates) && saveStates.Length == NUM_SAVE_STATES
      ensures forall i | 0 <= i < NUM_SAVE_STATES :: saveStates[i] == EMPTY_STATE
    {
      this.engine := engine;
      saveStates := new SaveState[NUM_SAVE_STATES](_ => EMPTY_STATE);
    }

    /** The hook: the engine's ClearKey, then the key is no longer tracked. */
    method ClearKey(k: Key)
      modifies this
      ensures engine == HookedClearKey(old(engine), k)
    {
      if k in engine.live {
        engine := engine.(heap := engine.heap - {engine.live[k]});
      }
      engine := engine.(live := engine.live - {k});
      engine := engine.(tracked := engine.tracked - {k});
    }

    /** RecordAllToInternalMementos, as the engine's sequence of key initializations. */
    method RecordAllToInternalMementos(records: seq<Record>)
      modifies this
      ensures engine == RecordAll(old(engine), records)
    {
      for i := 0 to |records|
        invariant engine == RecordAll(old(engine), records[..i])
      {
        assert records[..i + 1][..i] == records[..i];
        var r := records[i];
        if r.key in engine.live {
          engine := engine.(heap := engine.heap - {engine.live[r.key]});
        }
        engine := engine.(heap := engine.heap[r.block := if r.key in engine.objects then engine.objects[r.key] else 0]);
        engine := engine.(live := engine.live[r.key := r.block]);
        engine := engine.(tracked := engine.tracked + {r.key});
      }
      assert records[..|records|] == records;
    }

    /** The assertion of the original that the destination's key list is empty is the precondition. */
    method SaveInto(dst: SaveState, records: seq<Record>) returns (filled: SaveState)
      requires dst.keys == map[]
      modifies this
      ensures engine == Save(old(engine), records).0
      ensures filled == Save(old(engine), records).1.(criPlayerState := dst.criPlayerState + engine.adapters)
    {
      RecordAllToInternalMementos(records);
      ghost var e1 := engine;
      var keys: map<Key, Option<Block>> := map[];
      var todo := engine.tracked;
      while todo != {}
        invariant todo <= e1.tracked
        invariant keys == Saved(e1.live, e1.tracked - todo)
        invariant engine == e1.(live := e1.live - (e1.tracked - todo))
        decreases |todo|
      {
        var k := PickAny(todo);
        keys := keys[k := if k in engine.live then Some(engine.live[k]) else None];
        engine := engine.(live := engine.live - {k});
        todo := todo - {k};
        assert keys.Keys == e1.tracked - todo;
        assert engine.live == e1.live - (e1.tracked - todo);
      }
      assert e1.tracked - todo == e1.tracked;
      filled := SaveState(true, keys, engine.globals, dst.criPlayerState + engine.adapters);
    }

    method Install(src: SaveState)
      modifies this
      ensures engine == CopyIntoPlace(old(engine), src)
    {
      engine := engine.(globals := src.globals);
      engine := engine.(adapters := map a | a in engine.adapters ::
                          if a in src.criPlayerState then src.criPlayerState[a] else DEFAULT_SOUND);
      PlaceKeys(src.keys);
      engine := RestoreAll(engine);
    }

    method PlaceKeys(keys: map<Key, Option<Block>>)
      modifies this
      ensures engine == old(engine).(live := Placed(old(engine.live), keys))
    {
      var todo := keys.Keys;
      while todo != {}
        invariant todo <= keys.Keys
        invariant engine == old(engine).(live := engine.live)
        invariant forall k :: k in engine.live <==>
                    if k in keys && k !in todo then keys[k].Some? else k in old(engine.live)
        invariant forall k | k in engine.live ::
                    engine.live[k] == if k in keys && k !in todo then keys[k].value else old(engine.live)[k]
        decreases |todo|
      {
        var k := PickAny(todo);
        engine := engine.(live := match keys[k]
                                  case Some(b) => engine.live[k := b]
                                  case None => engine.live - {k});
        todo := todo - {k};
      }
      assert engine.live == Placed(old(engine.live), keys);
    }

    method ClearEach(keys: set<Key>)
      modifies this
      ensures engine == ClearKeys(old(engine), keys)
    {
      ghost var before := engine;
      var todo := keys;
      ghost var done: set<Key> := {};
      ClearNoKeys(before);
      while todo != {}
        invariant todo !! done && todo + done == keys
        invariant engine == ClearKeys(before, done)
        decreases |todo|
      {
        var k := PickAny(todo);
        ClearKeysStep(before, done, k);
        engine := ClearOne(engine, k);
        todo, done := todo - {k}, done + {k};
      }
      assert done == keys;
    }

    method ClearVictim(i: nat)
      requires i < saveStates.Length
      modifies this, saveStates
      ensures engine == ClearKeys(old(engine), old(saveStates[i].keys.Keys))
      ensures saveStates[..] == old(saveStates[..])[i := Cleared(old(saveStates[i]))]
    {
      ClearEach(saveStates[i].keys.Keys);
      saveStates[i] := Cleared(saveStates[i]);
    }

    method FreeSlot(i: nat, records: seq<Record>)
      requires i < saveStates.Length
      modifies this, saveStates
      ensures engine == Free(old(engine), old(saveStates[i]), records)
      ensures saveStates[..] == old(saveStates[..])[i := Cleared(old(saveStates[i]))]
    {
      var tmp := SaveInto(EMPTY_STATE, records);
      assert map[] + engine.adapters == engine.adapters;
      Install(saveStates[i]);
      ClearVictim(i);
      Install(tmp);
    }

    method LoadSlot(i: nat)
      requires i < saveStates.Length
      modifies this
      ensures engine == Load(old(engine), saveStates[i])
    {
      var src := saveStates[i];
      var backup := map k | k in engine.tracked :: if k in engine.live then Some(engine.live[k]) else None;
      engine := engine.(queuedStops := [], live := engine.live - engine.tracked);
      Install(src);
      engine := engine.(live := engine.live - src.keys.Keys);
      PlaceKeys(backup);
    }

    /** ggpo_save_game_state_callback: the first unused slot, or none when all are in use. */
    method SaveGameState(records: seq<Record>) returns (slot: Option<nat>)
      requires forall i | 0 <= i < saveStates.Length :: !saveStates[i].used ==> Blank(saveStates[i])
      modifies this, saveStates
      ensures slot.None? ==> engine == old(engine) && saveStates[..] == old(saveStates[..])
                             && forall i | 0 <= i < saveStates.Length :: saveStates[i].used
      ensures slot.Some? ==>
                && slot.value < saveStates.Length && !old(saveStates[slot.value].used)
                && (forall i | 0 <= i < slot.value :: old(saveStates[i].used))
                && engine == Save(old(engine), records).0
                && saveStates[..] == old(saveStates[..])[slot.value := Save(old(engine), records).1]
    {
      for i := 0 to saveStates.Length
        invariant engine == old(engine) && saveStates[..] == old(saveStates[..])
        invariant forall j | 0 <= j < i :: saveStates[j].used
      {
        if !saveStates[i].used {
          var filled := SaveInto(saveStates[i], records);
          assert map[] + engine.adapters == engine.adapters;
          saveStates[i] := filled;
          return Some(i);
        }
      }
      return None;
    }
  }

  /** ClearKey on one key, then the memset. */
  function ClearOne(e: Engine, k: Key): Engine {
    e.(heap := Release(e, k), tracked := if e.detoured then e.tracked - {k} else e.tracked, live := e.live - {k})
  }

  lemma ClearNoKeys(e: Engine)
    ensures ClearKeys(e, {}) == e
  {
    var none: set<Key> := {};
    assert (set k | k in none && k in e.live :: e.live[k]) == {};
    assert e.heap - {} == e.heap && e.live - none == e.live && e.tracked - none == e.tracked;
  }

  lemma ClearKeysStep(e: Engine, keys: set<Key>, k: Key)
    requires k !in keys
    ensures ClearOne(ClearKeys(e, keys), k) == ClearKeys(e, keys + {k})
  {
    var before := ClearKeys(e, keys);
    assert e.live - (keys + {k}) == before.live - {k};
    assert e.tracked - (keys + {k}) == e.tracked - keys - {k};
    var gone := set j | j in keys && j in e.live :: e.live[j];
    var gone' := set j | j in keys + {k} && j in e.live :: e.live[j];
    assert gone' == gone + if k in e.live then {e.live[k]} else {};
    assert e.heap - gone' == Release(before, k);
  }
}
