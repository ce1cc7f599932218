/**
 The room broker's sliding-window rate limiter and its collector: services/room-broker/server.js.

 The limiter keeps, for each key, the times of recent accepted requests. It is shown to decide like
 a limiter that remembers every request it ever accepted and is never collected.
 */
module RateLimiter {

  import opened Common

  type Key = string

  const COLLECT_WINDOW_MS := 300_000

  /** Every call site passes one fixed limit and window with its kind of key. */
  datatype Rule = Rule(limit: nat, windowMs: nat)

  type Rules = map<Key, Rule>

  type Buckets = map<Key, seq<int>>

  predicate Collectable(rules: Rules) {
    forall key | key in rules :: rules[key].windowMs <= COLLECT_WINDOW_MS
  }

  function BucketOf(buckets: Buckets, key: Key): seq<int> {
    if key in buckets then buckets[key] else []
  }

  /** The times less than windowMs ago, in their order. */
  function Recent(times: seq<int>, now: int, windowMs: int): (r: seq<int>)
    ensures |r| <= |times|
  {
    if times == [] then []
    else
      var rest := Recent(times[..|times| - 1], now, windowMs);
      var last := times[|times| - 1];
      if now - last < windowMs then rest + [last] else rest
  }

  function AllowRate(buckets: Buckets, key: Key, rule: Rule, now: int): (Buckets, bool) {
    var recent := Recent(BucketOf(buckets, key), now, rule.windowMs);
    if |recent| >= rule.limit then (buckets[key := recent], false)
    else (buckets[key := recent + [now]], true)
  }

  function Collect(buckets: Buckets, now: int): Buckets {
    map key | key in buckets && Recent(buckets[key], now, COLLECT_WINDOW_MS) != [] ::
      Recent(buckets[key], now, COLLECT_WINDOW_MS)
  }

  class Limiter {
    var rateBuckets: Buckets

    constructor ()
      ensures rateBuckets == map[]
    {
      rateBuckets := map[];
    }

    method Allow(key: Key, rule: Rule, now: int) returns (allowed: bool)
      modifies this
      ensures (rateBuckets, allowed) == AllowRate(old(rateBuckets), key, rule, now)
    {
      var recent := Recent(BucketOf(rateBuckets, key), now, rule.windowMs);
      if |recent| >= rule.limit {
        rateBuckets := rateBuckets[key := recent];
        return false;
      }
      recent := recent + [now];
      rateBuckets := rateBuckets[key := recent];
      return true;
    }

    method CollectBuckets(now: int)
      modifies this
      ensures rateBuckets == Collect(old(rateBuckets), now)
    {
      var todo := rateBuckets.Keys;
      while todo != {}
        invariant todo <= old(rateBuckets).Keys
        invariant forall key | key in todo :: key in rateBuckets && rateBuckets[key] == old(rateBuckets)[key]
        invariant forall key :: key !in todo ==> (key in rateBuckets <==> key in Collect(old(rateBuckets), now))
        invariant forall key | key !in todo && key in rateBuckets :: rateBuckets[key] == Collect(old(rateBuckets), now)[key]
        decreases |todo|
      {
        var key := PickAny(todo);
        var recent := Recent(rateBuckets[key], now, COLLECT_WINDOW_MS);
        if |recent| > 0 {
          rateBuckets := rateBuckets[key := recent];
        } else {
          rateBuckets := rateBuckets - {key};
        }
        todo := todo - {key};
      }
    }
  }

  // ----- Runs -----

  datatype Event = Request(key: Key, now: int) | Collection(now: int)

  /** Times never decrease along the run, and every key has its rule. */
  predicate WellTimed(rules: Rules, clock: int, run: seq<Event>): (wellTimed: bool)
    ensures wellTimed ==> forall e | e in run :: e.Request? ==> e.key in rules
    decreases |run|
  {
    run == [] ||
    (clock <= run[0].now && (run[0].Request? ==> run[0].key in rules) && WellTimed(rules, run[0].now, run[1..]))
  }

  function EndOf(clock: int, run: seq<Event>): int {
    if run == [] then clock else run[|run| - 1].now
  }

  function Next(rules: Rules, buckets: Buckets, e: Event): Buckets
    requires e.Request? ==> e.key in rules
  {
    if e.Request? then AllowRate(buckets, e.key, rules[e.key], e.now).0 else Collect(buckets, e.now)
  }

  predicate Allows(rules: Rules, buckets: Buckets, key: Key, now: int)
    requires key in rules
  {
    AllowRate(buckets, key, rules[key], now).1
  }

  predicate IsFor(e: Event, key: Key) {
    e.Request? && e.key == key
  }

  /** The limiter's answers to the requests of one key, in order. */
  function Answers(rules: Rules, buckets: Buckets, run: seq<Event>, key: Key): seq<bool>
    requires key in rules && forall e | e in run :: e.Request? ==> e.key in rules
    decreases |run|
  {
    if run == [] then []
    else
      var rest := Answers(rules, Next(rules, buckets, run[0]), run[1..], key);
      if IsFor(run[0], key) then [Allows(rules, buckets, key, run[0].now)] + rest else rest
  }

  /** When the limiter accepted requests of the key: the earlier times, then those of the run. */
  function Accepted(rules: Rules, buckets: Buckets, earlier: seq<int>, run: seq<Event>, key: Key): seq<int>
    requires key in rules && forall e | e in run :: e.Request? ==> e.key in rules
    decreases |run|
  {
    if run == [] then earlier
    else
      var now := if IsFor(run[0], key) && Allows(rules, buckets, key, run[0].now) then [run[0].now] else [];
      Accepted(rules, Next(rules, buckets, run[0]), earlier + now, run[1..], key)
  }

  function BucketsAfter(rules: Rules, buckets: Buckets, run: seq<Event>): Buckets
    requires forall e | e in run :: e.Request? ==> e.key in rules
    decreases |run|
  {
    if run == [] then buckets else BucketsAfter(rules, Next(rules, buckets, run[0]), run[1..])
  }

  // ----- The reference: every accepted time of a key, none ever dropped -----

  predicate LogAllows(rule: Rule, log: seq<int>, now: int) {
    |Recent(log, now, rule.windowMs)| < rule.limit
  }

  function LogNext(rule: Rule, log: seq<int>, e: Event, key: Key): seq<int> {
    if IsFor(e, key) && LogAllows(rule, log, e.now) then log + [e.now] else log
  }

  function LogAnswers(rule: Rule, log: seq<int>, run: seq<Event>, key: Key): seq<bool>
    decreases |run|
  {
    if run == [] then []
    else
      var rest := LogAnswers(rule, LogNext(rule, log, run[0], key), run[1..], key);
      if IsFor(run[0], key) then [LogAllows(rule, log, run[0].now)] + rest else rest
  }

  function LogAfter(rule: Rule, log: seq<int>, run: seq<Event>, key: Key): seq<int>
    decreases |run|
  {
    if run == [] then log else LogAfter(rule, LogNext(rule, log, run[0], key), run[1..], key)
  }

  // ----- Refinement -----

  /** From `clock` on, bucket and log have the same recent times. */
  ghost predicate SameRecent(bucket: seq<int>, log: seq<int>, clock: int, windowMs: int) {
    forall now | clock <= now :: Recent(bucket, now, windowMs) == Recent(log, now, windowMs)
  }

  ghost predicate Refines(rules: Rules, buckets: Buckets, log: seq<int>, clock: int, key: Key)
    requires key in rules
  {
    SameRecent(BucketOf(buckets, key), log, clock, rules[key].windowMs)
  }

  /** Dropping what is too old for a wider window, at an earlier time, loses nothing. */
  lemma {:induction false} RecentOfRecent(times: seq<int>, earlier: int, wider: int, now: int, windowMs: int)
    requires earlier <= now && windowMs <= wider
    ensures Recent(Recent(times, earlier, wider), now, windowMs) == Recent(times, now, windowMs)
    decreases |times|
  {
    if times != [] {
      RecentOfRecent(times[..|times| - 1], earlier, wider, now, windowMs);
      var rest, last := Recent(times[..|times| - 1], earlier, wider), times[|times| - 1];
      assert (rest + [last])[..|rest|] == rest;
    }
  }

  lemma RecentOfAppend(times: seq<int>, t: int, now: int, windowMs: int)
    ensures Recent(times + [t], now, windowMs)
         == if now - t < windowMs then Recent(times, now, windowMs) + [t] else Recent(times, now, windowMs)
  {
    assert (times + [t])[..|times|] == times;
  }

  lemma PrunedSameRecent(bucket: seq<int>, log: seq<int>, clock: int, now: int, wider: int, w: int)
    requires SameRecent(bucket, log, clock, w) && clock <= now && w <= wider
    ensures SameRecent(Recent(bucket, now, wider), log, now, w)
  {
    forall later | now <= later ensures Recent(Recent(bucket, now, wider), later, w) == Recent(log, later, w) {
      RecentOfRecent(bucket, now, wider, later, w);
    }
  }

  lemma AppendSameRecent(bucket: seq<int>, log: seq<int>, now: int, w: int)
    requires SameRecent(bucket, log, now, w)
    ensures SameRecent(bucket + [now], log + [now], now, w)
  {
    forall later | now <= later ensures Recent(bucket + [now], later, w) == Recent(log + [now], later, w) {
      RecentOfAppend(bucket, now, later, w);
      RecentOfAppend(log, now, later, w);
    }
  }

  lemma RequestRefines(rules: Rules, buckets: Buckets, log: seq<int>, clock: int, key: Key, now: int)
    requires key in rules && Refines(rules, buckets, log, clock, key) && clock <= now
    ensures Allows(rules, buckets, key, now) == LogAllows(rules[key], log, now)
    ensures Refines(rules, Next(rules, buckets, Request(key, now)), LogNext(rules[key], log, Request(key, now), key), now, key)
  {
    var w, bucket := rules[key].windowMs, BucketOf(buckets, key);
    PrunedSameRecent(bucket, log, clock, now, w, w);
    AppendSameRecent(Recent(bucket, now, w), log, now, w);
  }

  lemma NextRefines(rules: Rules, buckets: Buckets, log: seq<int>, clock: int, e: Event, key: Key)
    requires key in rules && Refines(rules, buckets, log, clock, key)
    requires Collectable(rules) && clock <= e.now && (e.Request? ==> e.key in rules)
    ensures Refines(rules, Next(rules, buckets, e), LogNext(rules[key], log, e, key), e.now, key)
    ensures IsFor(e, key) ==> Allows(rules, buckets, key, e.now) == LogAllows(rules[key], log, e.now)
  {
    if e.Collection? {
      PrunedSameRecent(BucketOf(buckets, key), log, clock, e.now, COLLECT_WINDOW_MS, rules[key].windowMs);
    } else if e.key == key {
      RequestRefines(rules, buckets, log, clock, key, e.now);
    }
  }

  lemma {:induction false} RunRefines(rules: Rules, buckets: Buckets, log: seq<int>, clock: int, run: seq<Event>, key: Key)
    requires key in rules && Refines(rules, buckets, log, clock, key) && Collectable(rules) && WellTimed(rules, clock, run)
    ensures Answers(rules, buckets, run, key) == LogAnswers(rules[key], log, run, key)
    decreases |run|
  {
    if run != [] {
      NextRefines(rules, buckets, log, clock, run[0], key);
      RunRefines(rules, Next(rules, buckets, run[0]), LogNext(rules[key], log, run[0], key), run[0].now, run[1..], key);
    }
  }

  /** Along every run the limiter answers each key as the unbounded log of that key does. */
  lemma AnswersRefineLog(rules: Rules, clock: int, run: seq<Event>, key: Key)
    requires key in rules && Collectable(rules) && WellTimed(rules, clock, run)
    ensures Answers(rules, map[], run, key) == LogAnswers(rules[key], [], run, key)
  {
    RunRefines(rules, map[], [], clock, run, key);
  }

  lemma {:induction false} RefinesAfter(rules: Rules, buckets: Buckets, log: seq<int>, clock: int, run: seq<Event>, key: Key)
    requires key in rules && Refines(rules, buckets, log, clock, key) && Collectable(rules) && WellTimed(rules, clock, run)
    ensures Refines(rules, BucketsAfter(rules, buckets, run), LogAfter(rules[key], log, run, key), EndOf(clock, run), key)
    decreases |run|
  {
    if run != [] {
      NextRefines(rules, buckets, log, clock, run[0], key);
      RefinesAfter(rules, Next(rules, buckets, run[0]), LogNext(rules[key], log, run[0], key), run[0].now, run[1..], key);
    }
  }

  lemma {:induction false} AcceptedIsLog(rules: Rules, buckets: Buckets, log: seq<int>, clock: int, run: seq<Event>, key: Key)
    requires key in rules && Refines(rules, buckets, log, clock, key) && Collectable(rules) && WellTimed(rules, clock, run)
    ensures LogAfter(rules[key], log, run, key) == Accepted(rules, buckets, log, run, key)
    decreases |run|
  {
    if run != [] {
      NextRefines(rules, buckets, log, clock, run[0], key);
      assert log + [] == log;
      AcceptedIsLog(rules, Next(rules, buckets, run[0]), LogNext(rules[key], log, run[0], key), run[0].now, run[1..], key);
    }
  }

  /** The requests of a run, without the collections. */
  function Requests(run: seq<Event>): (r: seq<Event>)
    ensures forall e :: e in r <==> e in run && e.Request?
    decreases |run|
  {
    if run == [] then []
    else if run[0].Request? then [run[0]] + Requests(run[1..])
    else Requests(run[1..])
  }

  lemma {:induction false} LogIgnoresCollections(rule: Rule, log: seq<int>, run: seq<Event>, key: Key)
    ensures LogAnswers(rule, log, Requests(run), key) == LogAnswers(rule, log, run, key)
    decreases |run|
  {
    if run != [] {
      LogIgnoresCollections(rule, LogNext(rule, log, run[0], key), run[1..], key);
      if run[0].Request? {
        assert Requests(run)[1..] == Requests(run[1..]);
      }
    }
  }

  lemma {:induction false} RequestsWellTimed(rules: Rules, clock: int, run: seq<Event>)
    requires WellTimed(rules, clock, run)
    ensures WellTimed(rules, clock, Requests(run))
    decreases |run|
  {
    if run != [] {
      RequestsWellTimed(rules, run[0].now, run[1..]);
      if run[0].Request? {
        assert Requests(run)[1..] == Requests(run[1..]);
      } else {
        LaterStart(rules, clock, run[0].now, Requests(run[1..]));
      }
    }
  }

  lemma LaterStart(rules: Rules, clock: int, later: int, run: seq<Event>)
    requires clock <= later && WellTimed(rules, later, run)
    ensures WellTimed(rules, clock, run)
  {}

  /** Collections, whenever they happen, change no answer. */
  lemma CollectionsChangeNothing(rules: Rules, clock: int, run: seq<Event>, key: Key)
    requires key in rules && Collectable(rules) && WellTimed(rules, clock, run)
    ensures Answers(rules, map[], Requests(run), key) == Answers(rules, map[], run, key)
  {
    RequestsWellTimed(rules, clock, run);
    AnswersRefineLog(rules, clock, run, key);
    AnswersRefineLog(rules, clock, Requests(run), key);
    LogIgnoresCollections(rules[key], [], run, key);
  }

  // ----- No window overflows -----

  /** How many of the times lie in [from, from + windowMs). */
  function Within(times: seq<int>, from: int, windowMs: int): nat {
    if times == [] then 0
    else
      var last := times[|times| - 1];
      Within(times[..|times| - 1], from, windowMs) + if from <= last < from + windowMs then 1 else 0
  }

  predicate Sorted(times: seq<int>) {
    forall i, j | 0 <= i <= j < |times| :: times[i] <= times[j]
  }

  /** Any limit + 1 consecutive accepted times span at least the window. */
  ghost predicate Spaced(times: seq<int>, rule: Rule) {
    && Sorted(times)
    && forall i, j | 0 <= i && i + rule.limit == j < |times| :: times[j] - times[i] >= rule.windowMs
  }

  lemma {:induction false} WithinAtMost(times: seq<int>, from: int, windowMs: nat, n: nat)
    requires Sorted(times) && (n < |times| ==> times[|times| - 1 - n] < from)
    ensures Within(times, from, windowMs) <= n
    decreases |times|
  {
    if times != [] {
      var front := times[..|times| - 1];
      if n == 0 {
        WithinAtMost(front, from, windowMs, 0);
      } else {
        WithinAtMost(front, from, windowMs, n - 1);
      }
    }
  }

  lemma {:induction false} SpacedWindow(times: seq<int>, rule: Rule, from: int)
    requires Spaced(times, rule)
    requires rule.limit == 0 ==> times == []
    ensures Within(times, from, rule.windowMs) <= rule.limit
    decreases |times|
  {
    if times != [] {
      var n := |times|;
      var last := times[n - 1];
      if from <= last < from + rule.windowMs {
        if rule.limit < n {
          assert times[n - 1] - times[n - 1 - rule.limit] >= rule.windowMs;
        }
        WithinAtMost(times, from, rule.windowMs, rule.limit);
      } else {
        SpacedWindow(times[..n - 1], rule, from);
      }
    }
  }

  /** Of sorted times, the recent ones are the last ones. */
  lemma {:induction false} RecentAreLast(times: seq<int>, now: int, windowMs: int, k: nat)
    requires Sorted(times) && k < |times| && now - times[k] < windowMs
    ensures |Recent(times, now, windowMs)| >= |times| - k
    decreases |times|
  {
    var front := times[..|times| - 1];
    if k < |front| {
      RecentAreLast(front, now, windowMs, k);
    }
  }

  ghost predicate KeySpaced(times: seq<int>, rule: Rule, clock: int) {
    Spaced(times, rule) && (rule.limit == 0 ==> times == []) && forall t | t in times :: t <= clock
  }

  /** Accepting one more keeps the spacing, as fewer than limit of the times are recent. */
  lemma SpacedAppend(times: seq<int>, rule: Rule, now: int)
    requires Spaced(times, rule) && (forall t | t in times :: t <= now)
    requires |Recent(times, now, rule.windowMs)| < rule.limit
    ensures Spaced(times + [now], rule)
  {
    if rule.limit <= |times| && now - times[|times| - rule.limit] < rule.windowMs {
      RecentAreLast(times, now, rule.windowMs, |times| - rule.limit);
      assert false;
    }
    forall i, j | 0 <= i <= j < |times + [now]| ensures (times + [now])[i] <= (times + [now])[j] {
      assert j == |times| && i < j ==> times[i] in times;
    }
  }

  lemma LogNextSpaced(rule: Rule, log: seq<int>, clock: int, e: Event, key: Key)
    requires KeySpaced(log, rule, clock) && clock <= e.now
    ensures KeySpaced(LogNext(rule, log, e, key), rule, e.now)
  {
    if IsFor(e, key) && LogAllows(rule, log, e.now) {
      SpacedAppend(log, rule, e.now);
    }
  }

  lemma {:induction false} RunSpaced(rules: Rules, log: seq<int>, clock: int, run: seq<Event>, key: Key)
    requires key in rules && KeySpaced(log, rules[key], clock) && WellTimed(rules, clock, run)
    ensures KeySpaced(LogAfter(rules[key], log, run, key), rules[key], EndOf(clock, run))
    decreases |run|
  {
    if run != [] {
      LogNextSpaced(rules[key], log, clock, run[0], key);
      RunSpaced(rules, LogNext(rules[key], log, run[0], key), run[0].now, run[1..], key);
    }
  }

  /** No half-open window of a key's length ever holds more accepted requests than its limit. */
  lemma NoWindowOverflows(rules: Rules, clock: int, run: seq<Event>, key: Key, from: int)
    requires Collectable(rules) && WellTimed(rules, clock, run) && key in rules
    ensures Within(Accepted(rules, map[], [], run, key), from, rules[key].windowMs) <= rules[key].limit
  {
    AcceptedIsLog(rules, map[], [], clock, run, key);
    RunSpaced(rules, [], clock, run, key);
    SpacedWindow(Accepted(rules, map[], [], run, key), rules[key], from);
  }

  // ----- Refusals -----

  lemma {:induction false} RecentMembers(times: seq<int>, now: int, windowMs: int)
    ensures forall t :: t in Recent(times, now, windowMs) <==> t in times && now - t < windowMs
    ensures Recent(times, now, windowMs) == [] <==> forall t | t in times :: now - t >= windowMs
  {
    if times != [] {
      var front, last := times[..|times| - 1], times[|times| - 1];
      RecentMembers(front, now, windowMs);
      assert times == front + [last];
      assert last in times;
      forall t | t in front ensures t in times {
        assert t in front + [last];
      }
    }
  }

  /** Of times that are past, the recent ones are those of the window that ends now. */
  lemma {:induction false} RecentIsWithin(times: seq<int>, now: int, windowMs: int)
    requires forall t | t in times :: t <= now
    ensures |Recent(times, now, windowMs)| == Within(times, now - windowMs + 1, windowMs)
  {
    if times != [] {
      var front, last := times[..|times| - 1], times[|times| - 1];
      assert last in times;
      forall t | t in front ensures t <= now {
        assert t in times;
      }
      RecentIsWithin(front, now, windowMs);
    }
  }

  lemma RefusedByLog(rules: Rules, clock: int, run: seq<Event>, key: Key, now: int)
    requires Collectable(rules) && WellTimed(rules, clock, run) && key in rules && EndOf(clock, run) <= now
    ensures Allows(rules, BucketsAfter(rules, map[], run), key, now)
         == LogAllows(rules[key], Accepted(rules, map[], [], run, key), now)
  {
    AcceptedIsLog(rules, map[], [], clock, run, key);
    RefinesAfter(rules, map[], [], clock, run, key);
    RequestRefines(rules, BucketsAfter(rules, map[], run), LogAfter(rules[key], [], run, key), EndOf(clock, run), key, now);
  }

  lemma AcceptedIsPast(rules: Rules, clock: int, run: seq<Event>, key: Key)
    requires Collectable(rules) && WellTimed(rules, clock, run) && key in rules
    ensures forall t | t in Accepted(rules, map[], [], run, key) :: t <= EndOf(clock, run)
  {
    AcceptedIsLog(rules, map[], [], clock, run, key);
    RunSpaced(rules, [], clock, run, key);
  }

  /** After any run, a request is refused exactly when `limit` of them were accepted within the last windowMs. */
  lemma RefusedExactlyWhen(rules: Rules, clock: int, run: seq<Event>, key: Key, now: int)
    requires Collectable(rules) && WellTimed(rules, clock, run) && key in rules && EndOf(clock, run) <= now
    ensures var accepted, rule := Accepted(rules, map[], [], run, key), rules[key];
            !Allows(rules, BucketsAfter(rules, map[], run), key, now) <==>
              Within(accepted, now - rule.windowMs + 1, rule.windowMs) >= rule.limit
  {
    RefusedByLog(rules, clock, run, key, now);
    AcceptedIsPast(rules, clock, run, key);
    RecentIsWithin(Accepted(rules, map[], [], run, key), now, rules[key].windowMs);
  }

  /** A collection keeps exactly the times of the last five minutes, and the keys that have one. */
  lemma CollectKeepsRecent(buckets: Buckets, now: int, key: Key)
    ensures key in Collect(buckets, now) <==> key in buckets && exists t :: t in buckets[key] && now - t < 300_000
    ensures key in Collect(buckets, now) ==>
              && (forall t :: t in Collect(buckets, now)[key] <==> t in buckets[key] && now - t < 300_000)
              && ((forall t | t in buckets[key] :: t <= now) ==>
                    |Collect(buckets, now)[key]| == Within(buckets[key], now - 299_999, 300_000))
  {
    if key in buckets {
      RecentMembers(buckets[key], now, COLLECT_WINDOW_MS);
      if forall t | t in buckets[key] :: t <= now {
        RecentIsWithin(buckets[key], now, COLLECT_WINDOW_MS);
      }
    }
  }
}
