/**
 Who owns the memento blocks over any sequence of saves, loads, frees and simulated frames, and what
 a load or a free does to the running game.
 */
module SaveStateOwnership {

  import opened Common
  import opened SaveStates

  type Slots = s: seq<SaveState> | |s| == NUM_SAVE_STATES
    witness seq(NUM_SAVE_STATES, _ => EMPTY_STATE)

  datatype System = System(engine: Engine, slots: Slots)

  datatype Event =
    | Play(objects: map<Key, int>, globals: Globals, adapters: map<Adapter, int>, queuedStops: seq<int>)
    | RecordNow(records: seq<Record>)
    | EngineClear(key: Key)
    | SaveTo(slot: nat, records: seq<Record>)
    | LoadFrom(slot: nat)
    | FreeSlot(slot: nat, records: seq<Record>)

  /**
   Saves go to unused slots, loads come from used ones, and the allocator hands out free blocks. The
   engine may also record and clear keys by itself, as training mode does.
   */
  predicate Allowed(s: System, e: Event) {
    match e
    case Play(_, _, _, _) => true
    case RecordNow(records) => FreshBlocks(s.engine, records)
    case EngineClear(_) => true
    case SaveTo(i, records) => i < NUM_SAVE_STATES && !s.slots[i].used && FreshBlocks(s.engine, records)
    case LoadFrom(i) => i < NUM_SAVE_STATES && s.slots[i].used
    case FreeSlot(i, records) => i < NUM_SAVE_STATES && FreshBlocks(s.engine, records)
  }

  function Apply(s: System, e: Event): System
    requires Allowed(s, e)
  {
    match e
    case Play(objects, globals, adapters, stops) =>
      s.(engine := s.engine.(objects := objects, globals := globals, adapters := adapters, queuedStops := stops))
    case RecordNow(records) => s.(engine := RecordAll(s.engine, records))
    case EngineClear(k) => s.(engine := HookedClearKey(s.engine, k))
    case SaveTo(i, records) =>
      var (engine, filled) := Save(s.engine, records);
      System(engine, s.slots[i := filled])
    case LoadFrom(i) => s.(engine := Load(s.engine, s.slots[i]))
    case FreeSlot(i, records) => System(Free(s.engine, s.slots[i], records), s.slots[i := Cleared(s.slots[i])])
  }

  ghost predicate Reaches(s: System, run: seq<Event>, s': System)
    decreases |run|
  {
    if run == [] then s' == s
    else Allowed(s, run[0]) && Reaches(Apply(s, run[0]), run[1..], s')
  }

  // ----- Ownership -----

  datatype Owner = LiveKey(k: Key) | SlotKey(slot: nat, k: Key)

  /** The block an owner refers to. */
  function Ref(s: System, o: Owner): Option<Block> {
    match o
    case LiveKey(k) => if k in s.engine.live then Some(s.engine.live[k]) else None
    case SlotKey(i, k) => if i < NUM_SAVE_STATES && k in s.slots[i].keys then s.slots[i].keys[k] else None
  }

  /** The recorded state an owner holds, if any. */
  function Content(s: System, o: Owner): Option<int> {
    match Ref(s, o)
    case Some(b) => if b in s.engine.heap then Some(s.engine.heap[b]) else None
    case None => None
  }

  /** Every reference is to an allocated block and no block has two owners; unused slots are blank. */
  ghost predicate Owned(s: System) {
    && (forall o :: Ref(s, o).Some? ==> Ref(s, o).value in s.engine.heap)
    && (forall o, o' :: o != o' && Ref(s, o).Some? ==> Ref(s, o) != Ref(s, o'))
    && (forall i | 0 <= i < NUM_SAVE_STATES :: !s.slots[i].used ==> Blank(s.slots[i]))
  }

  /** An allocated block without an owner: nothing will ever release it. */
  ghost predicate Orphan(s: System, b: Block) {
    b in s.engine.heap && forall o :: Ref(s, o) != Some(b)
  }

  ghost predicate NoLeak(s: System) {
    forall b: Block :: !Orphan(s, b)
  }

  lemma OwnerOf(s: System, b: Block) returns (o: Owner)
    requires NoLeak(s) && b in s.engine.heap
    ensures Ref(s, o) == Some(b)
  {
    assert !Orphan(s, b);
    o :| Ref(s, o) == Some(b);
  }

  /** The keys that refer to a block in the engine are tracked. */
  predicate LiveTracked(s: System) {
    s.engine.live.Keys <= s.engine.tracked
  }

  // ----- Recording -----

  function RecordedKeys(records: seq<Record>): set<Key> {
    set r | r in records :: r.key
  }

  /** Recording touches only keys, blocks and tracking. */
  lemma {:induction false} RecordAllFrame(e: Engine, records: seq<Record>)
    ensures var e' := RecordAll(e, records);
            && e' == e.(live := e'.live, tracked := e'.tracked, heap := e'.heap)
            && e'.tracked == e.tracked + RecordedKeys(records)
            && e'.live.Keys == e.live.Keys + RecordedKeys(records)
  {
    if records != [] {
      var init := records[..|records| - 1];
      RecordAllFrame(e, init);
      assert records == init + [records[|records| - 1]];
      assert RecordedKeys(records) == RecordedKeys(init) + {records[|records| - 1].key};
    }
  }

  lemma InitializeRefs(s: System, r: Record, o: Owner)
    ensures Ref(s.(engine := Initialize(s.engine, r)), o) == if o == LiveKey(r.key) then Some(r.block) else Ref(s, o)
  {}

  lemma InitializeKeepsOwnership(s: System, r: Record)
    requires Owned(s) && r.block !in s.engine.heap
    ensures Owned(s.(engine := Initialize(s.engine, r)))
  {
    var s' := s.(engine := Initialize(s.engine, r));
    forall o ensures Ref(s', o) == if o == LiveKey(r.key) then Some(r.block) else Ref(s, o) {
      InitializeRefs(s, r, o);
    }
    assert Ref(s, LiveKey(r.key)).Some? ==> r.key in s.engine.live;
  }

  /** The key's old block goes with its only owner, and the new one has an owner. */
  lemma InitializeLeaksNothing(s: System, r: Record)
    requires Owned(s) && r.block !in s.engine.heap
    ensures NoLeak(s.(engine := Initialize(s.engine, r))) <==> NoLeak(s)
  {
    var s' := s.(engine := Initialize(s.engine, r));
    assert Ref(s', LiveKey(r.key)) == Some(r.block);
    if NoLeak(s) {
      forall b | b in s'.engine.heap ensures exists o :: Ref(s', o) == Some(b) {
        if b != r.block {
          var o := OwnerOf(s, b);
          InitializeRefs(s, r, o);
          assert Ref(s', o) == Some(b);
        }
      }
    } else {
      var b: Block :| Orphan(s, b);
      assert Ref(s, LiveKey(r.key)) != Some(b);
      forall o ensures Ref(s', o) != Some(b) {
        InitializeRefs(s, r, o);
      }
      assert Orphan(s', b);
    }
  }

  lemma {:induction false} RecordAllKeepsOwnership(s: System, records: seq<Record>)
    requires Owned(s) && FreshBlocks(s.engine, records)
    ensures var s' := s.(engine := RecordAll(s.engine, records)); Owned(s') && (NoLeak(s') <==> NoLeak(s))
  {
    if records != [] {
      var init, r := records[..|records| - 1], records[|records| - 1];
      RecordAllKeepsOwnership(s, init);
      InitializeKeepsOwnership(s.(engine := RecordAll(s.engine, init)), r);
      InitializeLeaksNothing(s.(engine := RecordAll(s.engine, init)), r);
    }
  }

  lemma InitializeContent(s: System, r: Record, o: Owner)
    requires Owned(s) && r.block !in s.engine.heap
    ensures Content(s.(engine := Initialize(s.engine, r)), o)
         == if o == LiveKey(r.key) then Some(Object(s.engine, r.key)) else Content(s, o)
  {
    InitializeRefs(s, r, o);
    assert o != LiveKey(r.key) && Ref(s, o).Some? ==> Ref(s, o) != Ref(s, LiveKey(r.key));
    assert r.key in s.engine.live ==> Ref(s, LiveKey(r.key)) == Some(s.engine.live[r.key]);
  }

  /** Recording stores each recorded object's state and leaves what every other owner holds alone. */
  lemma {:induction false} RecordAllContent(s: System, records: seq<Record>, o: Owner)
    requires Owned(s) && FreshBlocks(s.engine, records)
    ensures Content(s.(engine := RecordAll(s.engine, records)), o)
         == if o.LiveKey? && o.k in RecordedKeys(records) then Some(Object(s.engine, o.k)) else Content(s, o)
  {
    if records != [] {
      var init, r := records[..|records| - 1], records[|records| - 1];
      assert records == init + [r];
      assert RecordedKeys(records) == RecordedKeys(init) + {r.key};
      RecordAllContent(s, init, o);
      RecordAllKeepsOwnership(s, init);
      RecordAllFrame(s.engine, init);
      InitializeContent(s.(engine := RecordAll(s.engine, init)), r, o);
    }
  }

  // ----- Saving -----

  /** Saving only moves references, from the engine's tracked keys to the slot: where an owner's comes from. */
  function SavedFrom(tracked: set<Key>, i: nat, o: Owner): Option<Owner> {
    match o
    case LiveKey(k) => if k in tracked then None else Some(o)
    case SlotKey(j, k) => if j != i then Some(o) else if k in tracked then Some(LiveKey(k)) else None
  }

  function RefOf(s: System, o: Option<Owner>): Option<Block> {
    if o.Some? then Ref(s, o.value) else None
  }

  /** s1 is the system as recorded at the start of the save. */
  lemma SaveRefs(s: System, i: nat, records: seq<Record>, o: Owner)
    requires Owned(s) && Allowed(s, SaveTo(i, records))
    ensures var s1, s' := s.(engine := RecordAll(s.engine, records)), Apply(s, SaveTo(i, records));
            Ref(s', o) == RefOf(s1, SavedFrom(s1.engine.tracked, i, o)) && s'.engine.heap == s1.engine.heap
  {}

  lemma SavedFromInjective(tracked: set<Key>, i: nat, o: Owner, o': Owner)
    requires o != o' && SavedFrom(tracked, i, o).Some?
    ensures SavedFrom(tracked, i, o) != SavedFrom(tracked, i, o')
  {}

  lemma SaveKeepsOwnership(s: System, i: nat, records: seq<Record>)
    requires Owned(s) && Allowed(s, SaveTo(i, records))
    ensures Owned(Apply(s, SaveTo(i, records)))
  {
    RecordAllKeepsOwnership(s, records);
    var s1, s' := s.(engine := RecordAll(s.engine, records)), Apply(s, SaveTo(i, records));
    forall o: Owner | Ref(s', o).Some? ensures Ref(s', o).value in s'.engine.heap {
      SaveRefs(s, i, records, o);
    }
    forall o: Owner, o': Owner | o != o' && Ref(s', o).Some? ensures Ref(s', o) != Ref(s', o') {
      SaveRefs(s, i, records, o);
      SaveRefs(s, i, records, o');
      SavedFromInjective(s1.engine.tracked, i, o, o');
    }
  }

  lemma SaveLeaksNothing(s: System, i: nat, records: seq<Record>)
    requires Owned(s) && Allowed(s, SaveTo(i, records))
    ensures NoLeak(Apply(s, SaveTo(i, records))) <==> NoLeak(s)
  {
    RecordAllKeepsOwnership(s, records);
    var s1, s' := s.(engine := RecordAll(s.engine, records)), Apply(s, SaveTo(i, records));
    SaveRefs(s, i, records, LiveKey(0));
    if NoLeak(s1) {
      forall b | b in s'.engine.heap ensures exists o :: Ref(s', o) == Some(b) {
        var o := OwnerOf(s1, b);
        var owner := if o.LiveKey? && o.k in s1.engine.tracked then SlotKey(i, o.k) else o;
        SaveRefs(s, i, records, owner);
        assert Ref(s', owner) == Some(b);
      }
    } else {
      var b: Block :| Orphan(s1, b);
      forall o ensures Ref(s', o) != Some(b) {
        SaveRefs(s, i, records, o);
      }
      assert Orphan(s', b);
    }
  }

  // ----- Loading -----

  /** What a load leaves of the engine's keys: only untracked keys that the slot also has are lost. */
  lemma LoadLive(e: Engine, src: SaveState)
    ensures var e' := Load(e, src);
            && e' == e.(live := e'.live, objects := e'.objects, globals := src.globals, adapters := e'.adapters, queuedStops := [])
            && (forall k :: k in e'.live <==> k in e.live && (k in e.tracked || k !in src.keys))
            && (forall k | k in e'.live :: e'.live[k] == e.live[k])
  {
  }

  /** A load releases nothing; it drops the reference of exactly these keys. */
  predicate DroppedByLoad(e: Engine, src: SaveState, k: Key) {
    k in e.live && k in src.keys && k !in e.tracked
  }

  /** The event drops the only reference to a block: a load or a free that meets an untracked live key. */
  ghost predicate Drops(s: System, e: Event) {
    match e
    case LoadFrom(i) => i < NUM_SAVE_STATES && exists k :: DroppedByLoad(s.engine, s.slots[i], k)
    case FreeSlot(i, records) =>
      i < NUM_SAVE_STATES && exists k :: DroppedByLoad(RecordAll(s.engine, records), s.slots[i], k)
    case _ => false
  }

  lemma LoadRefs(s: System, i: nat, o: Owner)
    requires Allowed(s, LoadFrom(i))
    ensures Ref(Apply(s, LoadFrom(i)), o)
         == if o.LiveKey? && DroppedByLoad(s.engine, s.slots[i], o.k) then None else Ref(s, o)
  {
    LoadLive(s.engine, s.slots[i]);
  }

  /** A load keeps ownership, and it leaks exactly when some untracked live key is also in the slot. */
  lemma LoadKeepsOwnership(s: System, i: nat)
    requires Owned(s) && Allowed(s, LoadFrom(i))
    ensures var s' := Apply(s, LoadFrom(i));
            Owned(s') && (NoLeak(s') <==> NoLeak(s) && !Drops(s, LoadFrom(i)))
  {
    var s' := Apply(s, LoadFrom(i));
    LoadLive(s.engine, s.slots[i]);
    forall o: Owner
      ensures Ref(s', o) == if o.LiveKey? && DroppedByLoad(s.engine, s.slots[i], o.k) then None else Ref(s, o)
    {
      LoadRefs(s, i, o);
    }
    if b: Block :| Orphan(s, b) {
      assert Orphan(s', b);
    } else if k :| DroppedByLoad(s.engine, s.slots[i], k) {
      assert Ref(s, LiveKey(k)).Some?;
      assert Orphan(s', s.engine.live[k]);
    } else {
      forall b | b in s'.engine.heap ensures exists o :: Ref(s', o) == Some(b) {
        var o := OwnerOf(s, b);
        assert Ref(s', o) == Some(b);
      }
    }
  }

  // ----- Freeing -----

  /** Clearing the keys just placed releases exactly the blocks they hold. */
  lemma ClearPlaced(e: Engine, before: map<Key, Block>, keys: map<Key, Option<Block>>)
    requires e.live == Placed(before, keys)
    ensures var e' := ClearKeys(e, keys.Keys);
            e'.heap == e.heap - Held(keys).Values && e'.live == before - keys.Keys
  {
    assert forall k | k in keys :: k in e.live <==> k in Held(keys);
    assert (set k | k in keys.Keys && k in e.live :: e.live[k]) == Held(keys).Values;
    assert e.live - keys.Keys == before - keys.Keys;
  }

  /** What a free leaves of the engine's keys, in terms of the engine as recorded at its start. */
  predicate KeptByFree(e1: Engine, victim: SaveState, k: Key) {
    k in e1.live && !DroppedByLoad(e1, victim, k)
  }

  lemma PlaceBack(e1: Engine, victim: SaveState)
    ensures var live := Placed(e1.live - e1.tracked - victim.keys.Keys, Saved(e1.live, e1.tracked));
            && (forall k :: k in live <==> KeptByFree(e1, victim, k))
            && (forall k | k in live :: live[k] == e1.live[k])
  {
  }

  /** What a free makes of the engine e1 as recorded at its start, objects aside. */
  predicate FreedEngine(e: Engine, e1: Engine, e': Engine, victim: SaveState) {
    && e' == e.(live := e'.live, tracked := e'.tracked, heap := e'.heap, objects := e'.objects)
    && e'.heap == e1.heap - Held(victim.keys).Values
    && e'.tracked == (if e.detoured then e1.tracked - victim.keys.Keys else e1.tracked)
    && (forall k | k in e'.live :: KeptByFree(e1, victim, k) && e'.live[k] == e1.live[k])
    && (forall k | k in e1.live :: KeptByFree(e1, victim, k) ==> k in e'.live)
  }

  lemma FreeEngine(e: Engine, victim: SaveState, records: seq<Record>)
    ensures FreedEngine(e, RecordAll(e, records), Free(e, victim, records), victim)
  {
    RecordAllFrame(e, records);
    var e1 := RecordAll(e, records);
    var (e2, tmp) := Save(e, records);
    var installed := CopyIntoPlace(e2, victim);
    ClearPlaced(installed, e2.live, victim.keys);
    PlaceBack(e1, victim);
    var cleared := ClearKeys(installed, victim.keys.Keys);
    assert cleared.adapters.Keys == e.adapters.Keys;
    assert CopyIntoPlace(cleared, tmp).adapters == e.adapters;
  }

  /** s' is what a free of slot i leaves of s1, the system as recorded at its start. */
  predicate Freed(s1: System, s': System, i: nat)
    requires i < NUM_SAVE_STATES
  {
    && s'.slots == s1.slots[i := Cleared(s1.slots[i])]
    && s'.engine.heap == s1.engine.heap - Held(s1.slots[i].keys).Values
    && (forall k | k in s'.engine.live :: KeptByFree(s1.engine, s1.slots[i], k) && s'.engine.live[k] == s1.engine.live[k])
    && (forall k | k in s1.engine.live :: KeptByFree(s1.engine, s1.slots[i], k) ==> k in s'.engine.live)
  }

  lemma FreeIsFreed(s: System, i: nat, records: seq<Record>)
    requires Allowed(s, FreeSlot(i, records))
    ensures Freed(s.(engine := RecordAll(s.engine, records)), Apply(s, FreeSlot(i, records)), i)
  {
    FreeEngine(s.engine, s.slots[i], records);
  }

  lemma FreedRefs(s1: System, s': System, i: nat, o: Owner)
    requires i < NUM_SAVE_STATES && Freed(s1, s', i)
    ensures Ref(s', o) ==
              if o.SlotKey? && o.slot == i then None
              else if o.LiveKey? && DroppedByLoad(s1.engine, s1.slots[i], o.k) then None
              else Ref(s1, o)
  {
  }

  lemma VictimBlock(s: System, i: nat, b: Block)
    requires i < NUM_SAVE_STATES && b in Held(s.slots[i].keys).Values
    ensures exists k :: Ref(s, SlotKey(i, k)) == Some(b)
  {
    var k :| k in Held(s.slots[i].keys) && Held(s.slots[i].keys)[k] == b;
    assert Ref(s, SlotKey(i, k)) == Some(b);
  }

  lemma VictimRefs(s: System, i: nat)
    requires i < NUM_SAVE_STATES
    ensures forall k | Ref(s, SlotKey(i, k)).Some? :: Ref(s, SlotKey(i, k)).value in Held(s.slots[i].keys).Values
  {
    forall k | Ref(s, SlotKey(i, k)).Some? ensures Ref(s, SlotKey(i, k)).value in Held(s.slots[i].keys).Values {
      assert Held(s.slots[i].keys)[k] == Ref(s, SlotKey(i, k)).value;
    }
  }

  /** What is still referred to is still allocated, and unchanged. */
  lemma FreedContent(s1: System, s': System, i: nat, o: Owner)
    requires Owned(s1) && i < NUM_SAVE_STATES && Freed(s1, s', i) && Ref(s', o).Some?
    ensures Ref(s', o) == Ref(s1, o) && Ref(s', o).value in s'.engine.heap && Content(s', o) == Content(s1, o)
  {
    FreedRefs(s1, s', i, o);
    var b := Ref(s1, o).value;
    if b in Held(s1.slots[i].keys).Values {
      VictimBlock(s1, i, b);
    }
  }

  lemma FreedOwned(s1: System, s': System, i: nat)
    requires Owned(s1) && i < NUM_SAVE_STATES && Freed(s1, s', i)
    ensures Owned(s')
  {
    forall o | Ref(s', o).Some? ensures Ref(s', o) == Ref(s1, o) && Ref(s', o).value in s'.engine.heap {
      FreedContent(s1, s', i, o);
    }
  }

  lemma FreedNoLeak(s1: System, s': System, i: nat)
    requires NoLeak(s1) && i < NUM_SAVE_STATES && Freed(s1, s', i)
    requires forall k :: !DroppedByLoad(s1.engine, s1.slots[i], k)
    ensures NoLeak(s')
  {
    VictimRefs(s1, i);
    forall b | b in s'.engine.heap ensures exists o :: Ref(s', o) == Some(b) {
      var o := OwnerOf(s1, b);
      FreedRefs(s1, s', i, o);
      assert Ref(s', o) == Some(b);
    }
  }

  /** A block that only the victim does not own stays allocated; if its owner was dropped, it has none left. */
  lemma FreedOrphan(s1: System, s': System, i: nat, b: Block)
    requires i < NUM_SAVE_STATES && Freed(s1, s', i) && b in s1.engine.heap
    requires forall o :: Ref(s1, o) == Some(b) ==> o.LiveKey? && DroppedByLoad(s1.engine, s1.slots[i], o.k)
    ensures Orphan(s', b)
  {
    if b in Held(s1.slots[i].keys).Values {
      VictimBlock(s1, i, b);
      assert false;
    }
    forall o ensures Ref(s', o) != Some(b) {
      FreedRefs(s1, s', i, o);
    }
  }

  lemma FreedLeaks(s1: System, s': System, i: nat)
    requires Owned(s1) && i < NUM_SAVE_STATES && Freed(s1, s', i)
    requires !NoLeak(s1) || exists k :: DroppedByLoad(s1.engine, s1.slots[i], k)
    ensures !NoLeak(s')
  {
    if !NoLeak(s1) {
      var b: Block :| Orphan(s1, b);
      FreedOrphan(s1, s', i, b);
    } else {
      var k :| DroppedByLoad(s1.engine, s1.slots[i], k);
      assert Ref(s1, LiveKey(k)) == Some(s1.engine.live[k]);
      FreedOrphan(s1, s', i, s1.engine.live[k]);
    }
  }

  /** A free releases the victim's blocks and no others; it leaks exactly when it drops an untracked live key. */
  lemma FreeKeepsOwnership(s: System, i: nat, records: seq<Record>)
    requires Owned(s) && Allowed(s, FreeSlot(i, records))
    ensures var s' := Apply(s, FreeSlot(i, records));
            Owned(s') && (NoLeak(s') <==> NoLeak(s) && !Drops(s, FreeSlot(i, records)))
  {
    var s1, s' := s.(engine := RecordAll(s.engine, records)), Apply(s, FreeSlot(i, records));
    RecordAllKeepsOwnership(s, records);
    FreeIsFreed(s, i, records);
    FreedOwned(s1, s', i);
    if NoLeak(s) && !Drops(s, FreeSlot(i, records)) {
      FreedNoLeak(s1, s', i);
    } else {
      FreedLeaks(s1, s', i);
    }
  }

  // ----- The engine clears a key by itself -----

  lemma EngineClearRefs(s: System, k: Key, o: Owner)
    ensures Ref(Apply(s, EngineClear(k)), o) == if o == LiveKey(k) then None else Ref(s, o)
  {}

  lemma EngineClearKeepsOwnership(s: System, k: Key)
    requires Owned(s)
    ensures var s' := Apply(s, EngineClear(k)); Owned(s') && (NoLeak(s') <==> NoLeak(s))
  {
    var s' := Apply(s, EngineClear(k));
    assert k in s.engine.live ==> Ref(s, LiveKey(k)) == Some(s.engine.live[k]);
    forall o ensures Ref(s', o) == if o == LiveKey(k) then None else Ref(s, o) {
      EngineClearRefs(s, k, o);
    }
    if b: Block :| Orphan(s, b) {
      assert Ref(s, LiveKey(k)) != Some(b);
      assert Orphan(s', b);
    } else {
      forall b | b in s'.engine.heap ensures exists o :: Ref(s', o) == Some(b) {
        var o := OwnerOf(s, b);
        assert Ref(s', o) == Some(b);
      }
    }
  }

  // ----- Over whole runs -----

  ghost predicate DropsWithin(s: System, run: seq<Event>, s': System)
    requires Reaches(s, run, s')
    decreases |run|
  {
    run != [] && (Drops(s, run[0]) || DropsWithin(Apply(s, run[0]), run[1..], s'))
  }

  lemma EventKeepsOwnership(s: System, e: Event)
    requires Owned(s) && Allowed(s, e)
    ensures Owned(Apply(s, e)) && (NoLeak(Apply(s, e)) <==> NoLeak(s) && !Drops(s, e))
  {
    match e
    case Play(_, _, _, _) => SameRefs(s, Apply(s, e));
    case RecordNow(records) => RecordAllKeepsOwnership(s, records);
    case EngineClear(k) => EngineClearKeepsOwnership(s, k);
    case SaveTo(i, records) =>
      SaveKeepsOwnership(s, i, records);
      SaveLeaksNothing(s, i, records);
    case LoadFrom(i) => LoadKeepsOwnership(s, i);
    case FreeSlot(i, records) => FreeKeepsOwnership(s, i, records);
  }

  lemma SameRefs(s: System, s': System)
    requires s'.engine.heap == s.engine.heap && s'.engine.live == s.engine.live && s'.slots == s.slots
    ensures (Owned(s') <==> Owned(s)) && (NoLeak(s') <==> NoLeak(s))
  {
    assert forall o :: Ref(s', o) == Ref(s, o);
    assert forall b: Block :: Orphan(s', b) <==> Orphan(s, b);
  }

  /**
   Over any sequence of events each memento block has at most one owner among the engine's keys and
   the slots, and every reference is to an allocated block: nothing is released while another still
   needs it. An unused slot has no keys, so the assertion in Save never fires.
   */
  lemma {:induction false} OwnedAlways(s: System, run: seq<Event>, s': System)
    requires Owned(s) && Reaches(s, run, s')
    ensures Owned(s')
    decreases |run|
  {
    if run != [] {
      EventKeepsOwnership(s, run[0]);
      OwnedAlways(Apply(s, run[0]), run[1..], s');
    }
  }

  /**
   A run leaks exactly when one of its loads or frees meets a live key that is not tracked and that
   the slot also has; what leaked once is never recovered.
   */
  lemma {:induction false} LeaksExactlyWhenDropped(s: System, run: seq<Event>, s': System)
    requires Owned(s) && Reaches(s, run, s')
    ensures NoLeak(s') <==> NoLeak(s) && !DropsWithin(s, run, s')
    decreases |run|
  {
    if run != [] {
      EventKeepsOwnership(s, run[0]);
      LeaksExactlyWhenDropped(Apply(s, run[0]), run[1..], s');
    }
  }

  lemma {:induction false} TrackedNeverDrops(s: System, run: seq<Event>, s': System)
    requires LiveTracked(s) && !s.engine.detoured && Reaches(s, run, s')
    ensures !DropsWithin(s, run, s') && LiveTracked(s')
    decreases |run|
  {
    if run != [] {
      TrackedStays(s, run[0]);
      TrackedNeverDrops(Apply(s, run[0]), run[1..], s');
    }
  }

  lemma TrackedStays(s: System, e: Event)
    requires LiveTracked(s) && Allowed(s, e) && (s.engine.detoured ==> !e.FreeSlot?)
    ensures !Drops(s, e) && LiveTracked(Apply(s, e)) && Apply(s, e).engine.detoured == s.engine.detoured
  {
    match e
    case Play(_, _, _, _) =>
    case RecordNow(records) => RecordAllFrame(s.engine, records);
    case EngineClear(_) =>
    case SaveTo(_, records) => RecordAllFrame(s.engine, records);
    case LoadFrom(i) => LoadLive(s.engine, s.slots[i]);
    case FreeSlot(i, records) =>
      RecordAllFrame(s.engine, records);
      FreeEngine(s.engine, s.slots[i], records);
  }

  /**
   If freeing calls the engine's own ClearKey, as the hook itself does, tracking is never lost and
   no sequence of events whatever leaks a block.
   */
  lemma NothingLeaksUndetoured(s: System, run: seq<Event>, s': System)
    requires Owned(s) && NoLeak(s) && LiveTracked(s) && !s.engine.detoured && Reaches(s, run, s')
    ensures NoLeak(s') && LiveTracked(s')
  {
    TrackedNeverDrops(s, run, s');
    LeaksExactlyWhenDropped(s, run, s');
  }

  /** A save or free records every key that a free left live but untracked, so that it is tracked again. */
  predicate Retracks(s: System, e: Event) {
    e.SaveTo? || e.FreeSlot? ==> s.engine.live.Keys - s.engine.tracked <= RecordedKeys(e.records)
  }

  /** A run whose saves and frees track those keys again, with no load between a free and the next save. */
  ghost predicate Disciplined(s: System, run: seq<Event>, freed: bool)
    decreases |run|
  {
    run == [] ||
    (var e := run[0];
     && Allowed(s, e) && Retracks(s, e) && !(e.LoadFrom? && freed)
     && Disciplined(Apply(s, e), run[1..], if e.FreeSlot? then true else if e.SaveTo? then false else freed))
  }

  /** An event of a disciplined run drops nothing; only a free leaves live keys untracked, until the next save. */
  lemma DisciplinedStep(s: System, e: Event, freed: bool)
    requires Allowed(s, e) && Retracks(s, e) && !(e.LoadFrom? && freed) && (freed || LiveTracked(s))
    ensures !Drops(s, e)
    ensures e.FreeSlot? || (freed && !e.SaveTo?) || LiveTracked(Apply(s, e))
  {
    if e.SaveTo? || e.FreeSlot? {
      RecordAllFrame(s.engine, e.records);
    } else if LiveTracked(s) {
      TrackedStays(s, e);
    }
  }

  lemma {:induction false} DisciplinedNeverDrops(s: System, run: seq<Event>, s': System, freed: bool)
    requires (freed || LiveTracked(s)) && Reaches(s, run, s') && Disciplined(s, run, freed)
    ensures !DropsWithin(s, run, s')
    decreases |run|
  {
    if run != [] {
      var e := run[0];
      DisciplinedStep(s, e, freed);
      DisciplinedNeverDrops(Apply(s, e), run[1..], s', if e.FreeSlot? then true else if e.SaveTo? then false else freed);
    }
  }

  /**
   Even if freeing stops tracking the keys it refills, no block leaks in a run that saves after
   each free before it loads again, as long as saves and frees record those keys.
   */
  lemma NothingLeaksDisciplined(s: System, run: seq<Event>, s': System, freed: bool)
    requires Owned(s) && NoLeak(s) && (freed || LiveTracked(s))
    requires Reaches(s, run, s') && Disciplined(s, run, freed)
    ensures NoLeak(s')
  {
    DisciplinedNeverDrops(s, run, s', freed);
    LeaksExactlyWhenDropped(s, run, s');
  }

  // ----- What a free does to the running game -----

  /**
   The older state that a free puts back into an object its recording skipped: the one its own live
   key still refers to, or else the one the victim recorded.
   */
  function Reinstated(s: System, i: nat, k: Key): Option<int>
    requires i < NUM_SAVE_STATES
  {
    if k in s.engine.live && !DroppedByLoad(s.engine, s.slots[i], k) then Content(s, LiveKey(k)) else Content(s, SlotKey(i, k))
  }

  /**
   Freeing a slot empties that slot and leaves the running game as it was, battle-flow globals and
   game manager, sound table and queued stops, although it installs the victim on the way. An object
   keeps its state exactly when the free records it or has no other state to put back.
   */
  lemma FreePreservesGame(s: System, i: nat, records: seq<Record>)
    requires Owned(s) && Allowed(s, FreeSlot(i, records))
    ensures var s' := Apply(s, FreeSlot(i, records));
            && s'.slots == s.slots[i := Cleared(s.slots[i])]
            && s'.engine.globals == s.engine.globals
            && s'.engine.adapters == s.engine.adapters
            && s'.engine.queuedStops == s.engine.queuedStops
            && forall k :: Object(s'.engine, k) == Object(s.engine, k) <==>
                 k in RecordedKeys(records) || Reinstated(s, i, k) in {None, Some(Object(s.engine, k))}
  {
    FreeEngine(s.engine, s.slots[i], records);
    var s' := Apply(s, FreeSlot(i, records));
    forall k
      ensures Object(s'.engine, k) == Object(s.engine, k) <==>
                k in RecordedKeys(records) || Reinstated(s, i, k) in {None, Some(Object(s.engine, k))}
    {
      ObjectAfterFree(s, i, records, k);
    }
  }

  lemma ObjectAfterFree(s: System, i: nat, records: seq<Record>, k: Key)
    requires Owned(s) && Allowed(s, FreeSlot(i, records))
    ensures Object(Free(s.engine, s.slots[i], records), k)
         == if k !in RecordedKeys(records) && Reinstated(s, i, k).Some? then Reinstated(s, i, k).value else Object(s.engine, k)
  {
    KeptByFreeExactly(s.engine, s.slots[i], records, k);
    if KeptByFree(RecordAll(s.engine, records), s.slots[i], k) {
      KeptObjectAfterFree(s, i, records, k);
    } else {
      LostObjectAfterFree(s, i, records, k);
    }
  }

  lemma KeptByFreeExactly(e: Engine, victim: SaveState, records: seq<Record>, k: Key)
    ensures KeptByFree(RecordAll(e, records), victim, k) <==>
              k in RecordedKeys(records) || (k in e.live && !DroppedByLoad(e, victim, k))
  {
    RecordAllFrame(e, records);
  }

  lemma KeptObjectAfterFree(s: System, i: nat, records: seq<Record>, k: Key)
    requires Owned(s) && Allowed(s, FreeSlot(i, records)) && KeptByFree(RecordAll(s.engine, records), s.slots[i], k)
    ensures Some(Object(Free(s.engine, s.slots[i], records), k))
         == if k in RecordedKeys(records) then Some(Object(s.engine, k)) else Content(s, LiveKey(k))
  {
    var s1, s' := s.(engine := RecordAll(s.engine, records)), Apply(s, FreeSlot(i, records));
    RecordAllKeepsOwnership(s, records);
    RecordAllContent(s, records, LiveKey(k));
    FreeIsFreed(s, i, records);
    FreedRefs(s1, s', i, LiveKey(k));
    FreedContent(s1, s', i, LiveKey(k));
    FreeObject(s.engine, s.slots[i], records, k);
  }

  lemma LostObjectAfterFree(s: System, i: nat, records: seq<Record>, k: Key)
    requires Owned(s) && Allowed(s, FreeSlot(i, records)) && !KeptByFree(RecordAll(s.engine, records), s.slots[i], k)
    ensures Object(Free(s.engine, s.slots[i], records), k)
         == match Content(s, SlotKey(i, k)) case Some(state) => state case None => Object(s.engine, k)
  {
    RecordAllContent(s, records, SlotKey(i, k));
    LostObject(s.engine, s.slots[i], records, k);
    VictimContent(s.(engine := RecordAll(s.engine, records)), i, k);
  }

  /** The state that installing a slot gives an object. */
  function InstalledState(heap: map<Block, int>, keys: map<Key, Option<Block>>, k: Key): Option<int> {
    if k in keys && keys[k].Some? && keys[k].value in heap then Some(heap[keys[k].value]) else None
  }

  lemma VictimContent(s: System, i: nat, k: Key)
    requires i < NUM_SAVE_STATES
    ensures InstalledState(s.engine.heap, s.slots[i].keys, k) == Content(s, SlotKey(i, k))
  {}

  lemma LostObject(e: Engine, victim: SaveState, records: seq<Record>, k: Key)
    requires !KeptByFree(RecordAll(e, records), victim, k)
    ensures Object(Free(e, victim, records), k)
         == match InstalledState(RecordAll(e, records).heap, victim.keys, k) case Some(state) => state case None => Object(e, k)
  {
    FreeEngine(e, victim, records);
    FreeObject(e, victim, records, k);
  }

  /** So if the recording visits every object that a live key or the victim has a state of, all of them are preserved. */
  lemma CompleteFreePreservesObjects(s: System, i: nat, records: seq<Record>)
    requires Owned(s) && Allowed(s, FreeSlot(i, records))
    requires s.engine.live.Keys + s.slots[i].keys.Keys <= RecordedKeys(records)
    ensures forall k :: Object(Apply(s, FreeSlot(i, records)).engine, k) == Object(s.engine, k)
  {
    FreePreservesGame(s, i, records);
  }

  /** Installing keys restores the objects whose key refers to a block and no others. */
  lemma InstalledObject(e: Engine, src: SaveState, k: Key)
    ensures var e' := CopyIntoPlace(e, src);
            && e'.live == Placed(e.live, src.keys) && e'.heap == e.heap
            && Object(e', k) == Restored(e'.live, e'.heap, k, Object(e, k))
  {
  }

  /** An object's state once restored from the block its key refers to, or left as it was. */
  function Restored(live: map<Key, Block>, heap: map<Block, int>, k: Key, otherwise: int): int {
    if k in live && live[k] in heap then heap[live[k]] else otherwise
  }

  /** A free restores twice: from the victim's keys, then from the keys that are live in the end. */
  lemma FreeObject(e: Engine, victim: SaveState, records: seq<Record>, k: Key)
    ensures var e1, e' := RecordAll(e, records), Free(e, victim, records);
            Object(e', k) ==
              Restored(e'.live, e'.heap, k, Restored(Placed(e1.live - e1.tracked, victim.keys), e1.heap, k, Object(e, k)))
  {
    RecordAllFrame(e, records);
    var (e2, tmp) := Save(e, records);
    InstalledObject(e2, victim, k);
    InstalledObject(ClearKeys(CopyIntoPlace(e2, victim), victim.keys.Keys), tmp, k);
  }

  // ----- What a load brings back -----

  /** The state a slot holds for a key, if it holds any. */
  function SlotState(s: System, i: nat, k: Key): Option<int> {
    Content(s, SlotKey(i, k))
  }

  /** Events that do not fill or empty the slot leave all it holds as it is. */
  lemma EventKeepsSlot(s: System, e: Event, i: nat)
    requires Owned(s) && Allowed(s, e) && i < NUM_SAVE_STATES
    requires (e.SaveTo? || e.FreeSlot?) ==> e.slot != i
    ensures var s' := Apply(s, e);
            s'.slots[i] == s.slots[i] && forall k :: SlotState(s', i, k) == SlotState(s, i, k)
  {
    var s' := Apply(s, e);
    match e
    case Play(_, _, _, _) =>
    case RecordNow(records) =>
      forall k ensures SlotState(s', i, k) == SlotState(s, i, k) {
        RecordAllContent(s, records, SlotKey(i, k));
      }
    case EngineClear(key) =>
      assert key in s.engine.live ==> Ref(s, LiveKey(key)) == Some(s.engine.live[key]);
    case SaveTo(_, records) =>
      var s1 := s.(engine := RecordAll(s.engine, records));
      forall k ensures SlotState(s', i, k) == SlotState(s, i, k) {
        RecordAllContent(s, records, SlotKey(i, k));
        assert Ref(s', SlotKey(i, k)) == Ref(s1, SlotKey(i, k));
      }
    case LoadFrom(_) =>
      LoadLive(s.engine, s.slots[e.slot]);
    case FreeSlot(j, records) =>
      RecordAllKeepsOwnership(s, records);
      FreeIsFreed(s, j, records);
      var s1 := s.(engine := RecordAll(s.engine, records));
      forall k ensures SlotState(s', i, k) == SlotState(s, i, k) {
        RecordAllContent(s, records, SlotKey(i, k));
        FreedRefs(s1, s', j, SlotKey(i, k));
        if Ref(s', SlotKey(i, k)).Some? {
          FreedContent(s1, s', j, SlotKey(i, k));
        }
      }
  }

  lemma {:induction false} RunKeepsSlot(s: System, run: seq<Event>, s': System, i: nat)
    requires Owned(s) && Reaches(s, run, s') && i < NUM_SAVE_STATES
    requires forall e | e in run && (e.SaveTo? || e.FreeSlot?) :: e.slot != i
    ensures Owned(s') && s'.slots[i] == s.slots[i] && forall k :: SlotState(s', i, k) == SlotState(s, i, k)
    decreases |run|
  {
    if run != [] {
      EventKeepsOwnership(s, run[0]);
      EventKeepsSlot(s, run[0], i);
      RunKeepsSlot(Apply(s, run[0]), run[1..], s', i);
    }
  }

  /** A save stores the state of every object it records and does not disturb the game. */
  lemma SaveStores(s: System, i: nat, records: seq<Record>)
    requires Owned(s) && Allowed(s, SaveTo(i, records))
    ensures var s' := Apply(s, SaveTo(i, records));
            && (forall k | k in RecordedKeys(records) :: SlotState(s', i, k) == Some(Object(s.engine, k)))
            && s'.slots[i].globals == s.engine.globals && s'.slots[i].criPlayerState == s.engine.adapters
            && s'.engine.objects == s.engine.objects && s'.engine.globals == s.engine.globals
            && s'.engine.adapters == s.engine.adapters && s'.engine.queuedStops == s.engine.queuedStops
  {
    var s1, s' := s.(engine := RecordAll(s.engine, records)), Apply(s, SaveTo(i, records));
    RecordAllFrame(s.engine, records);
    forall k | k in RecordedKeys(records) ensures SlotState(s', i, k) == Some(Object(s.engine, k)) {
      RecordAllContent(s, records, LiveKey(k));
      SaveRefs(s, i, records, SlotKey(i, k));
    }
  }

  /** A load puts back what the slot holds, drops the queued stops and keeps the slot loadable. */
  lemma LoadRestores(s: System, i: nat)
    requires Owned(s) && Allowed(s, LoadFrom(i))
    ensures var s' := Apply(s, LoadFrom(i));
            && s'.slots == s.slots && s'.engine.globals == s.slots[i].globals && s'.engine.queuedStops == []
            && (forall k | SlotState(s, i, k).Some? :: Object(s'.engine, k) == SlotState(s, i, k).value)
            && s'.engine.adapters.Keys == s.engine.adapters.Keys
            && (forall a | a in s.engine.adapters && a in s.slots[i].criPlayerState ::
                  s'.engine.adapters[a] == s.slots[i].criPlayerState[a])
  {
    LoadLive(s.engine, s.slots[i]);
    var src := s.slots[i];
    forall k | SlotState(s, i, k).Some? ensures Object(Apply(s, LoadFrom(i)).engine, k) == SlotState(s, i, k).value {
      assert Ref(s, SlotKey(i, k)) == Some(Held(src.keys)[k]);
      assert Held(src.keys)[k] in s.engine.heap;
    }
  }

  /**
   The round trip rollback relies on: load a slot after any events that do not touch it, and every
   object recorded by the save, the globals and the sound table are what they were at the save.
   */
  lemma LoadReturnsToSave(s: System, i: nat, records: seq<Record>, run: seq<Event>, s2: System)
    requires Owned(s) && Allowed(s, SaveTo(i, records))
    requires Reaches(Apply(s, SaveTo(i, records)), run, s2)
    requires forall e | e in run && (e.SaveTo? || e.FreeSlot?) :: e.slot != i
    ensures Allowed(s2, LoadFrom(i))
    ensures var s3 := Apply(s2, LoadFrom(i));
            && (forall k | k in RecordedKeys(records) :: Object(s3.engine, k) == Object(s.engine, k))
            && s3.engine.globals == s.engine.globals
            && (forall a | a in s.engine.adapters && a in s2.engine.adapters ::
                  s3.engine.adapters[a] == s.engine.adapters[a])
  {
    var s1 := Apply(s, SaveTo(i, records));
    SaveKeepsOwnership(s, i, records);
    SaveStores(s, i, records);
    RunKeepsSlot(s1, run, s2, i);
    LoadRestores(s2, i);
    forall k | k in RecordedKeys(records)
      ensures Object(Apply(s2, LoadFrom(i)).engine, k) == Object(s.engine, k)
    {
      assert SlotState(s2, i, k) == SlotState(s1, i, k);
    }
  }

  // ----- A recording that skips an object -----

  /** An object that was saved in slot 0 as 7, has moved on to 9, and has no block of its own. */
  function MovedOn(): System {
    var slots: Slots := seq(NUM_SAVE_STATES, _ => EMPTY_STATE);
    System(
      Engine(map[], {0}, map[10 := 7], map[0 := 9], DEFAULT_GLOBALS, map[], [], false),
      slots[0 := SaveState(true, map[0 := Some(10)], DEFAULT_GLOBALS, map[])])
  }

  /** Freeing the slot without recording the object sets it back from 9 to 7. */
  lemma SkippedObjectIsSetBack()
    ensures var s := MovedOn();
            && Owned(s) && NoLeak(s) && Allowed(s, FreeSlot(0, []))
            && Object(s.engine, 0) == 9 && Object(Apply(s, FreeSlot(0, [])).engine, 0) == 7
  {
    var s := MovedOn();
    forall o ensures Ref(s, o) == if o == SlotKey(0, 0) then Some(10) else None {}
    assert Ref(s, SlotKey(0, 0)) == Some(10);
    assert Content(s, SlotKey(0, 0)) == Some(7);
    ObjectAfterFree(s, 0, [], 0);
  }

  // ----- A load directly after a free -----

  /** One object, saved in slots 0 and 1. */
  function TwoSaves(detoured: bool): System {
    var slots: Slots := seq(NUM_SAVE_STATES, _ => EMPTY_STATE);
    System(
      Engine(map[], {0}, map[10 := 7, 11 := 7], map[0 := 7], DEFAULT_GLOBALS, map[], [], detoured),
      slots[0 := SaveState(true, map[0 := Some(10)], DEFAULT_GLOBALS, map[])]
           [1 := SaveState(true, map[0 := Some(11)], DEFAULT_GLOBALS, map[])])
  }

  lemma TwoSavesSound(detoured: bool)
    ensures var s := TwoSaves(detoured); Owned(s) && NoLeak(s) && LiveTracked(s)
  {
    var s := TwoSaves(detoured);
    forall o ensures Ref(s, o) == if o == SlotKey(0, 0) then Some(10) else if o == SlotKey(1, 0) then Some(11) else None {
    }
    assert Ref(s, SlotKey(0, 0)) == Some(10) && Ref(s, SlotKey(1, 0)) == Some(11);
  }

  const FREE_0 := FreeSlot(0, [Record(0, 12)])
  const LOAD_1 := LoadFrom(1)

  lemma AfterFree0()
    ensures var s := TwoSaves(true);
            && Allowed(s, FREE_0)
            && Owned(Apply(s, FREE_0)) && NoLeak(Apply(s, FREE_0)) && Allowed(Apply(s, FREE_0), LOAD_1)
            && DroppedByLoad(Apply(s, FREE_0).engine, Apply(s, FREE_0).slots[1], 0)
  {
    var s := TwoSaves(true);
    TwoSavesSound(true);
    RecordOne(s.engine, Record(0, 12));
    FreeEngine(s.engine, s.slots[0], FREE_0.records);
    NothingDroppedByFree0();
    FreeKeepsOwnership(s, 0, FREE_0.records);
  }

  lemma NothingDroppedByFree0()
    ensures !Drops(TwoSaves(true), FREE_0)
  {
    RecordOne(TwoSaves(true).engine, Record(0, 12));
  }

  lemma RecordOne(e: Engine, r: Record)
    ensures RecordAll(e, [r]) == Initialize(e, r)
    ensures FreshBlocks(e, [r]) <==> r.block !in e.heap
  {
    assert [r][..0] == [];
    assert RecordAll(e, []) == e;
    assert FreshBlocks(e, []);
  }

  /**
   With a ClearKey that stops tracking, the discipline is needed: with two slots saved, free one and
   load the other, and the block that the free recorded is left without an owner.
   */
  lemma LoadAfterFreeLeaks()
    ensures var s := TwoSaves(true);
            && Owned(s) && NoLeak(s) && LiveTracked(s)
            && Allowed(s, FREE_0) && Allowed(Apply(s, FREE_0), LOAD_1)
            && NoLeak(Apply(s, FREE_0)) && !NoLeak(Apply(Apply(s, FREE_0), LOAD_1))
  {
    TwoSavesSound(true);
    AfterFree0();
    LoadKeepsOwnership(Apply(TwoSaves(true), FREE_0), 1);
  }
}
