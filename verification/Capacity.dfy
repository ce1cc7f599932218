/** Room capacity and relay port ranges: services/room-broker/capacity-config.js. */
module Capacity {

  import opened Common

  const DEFAULT_MAX_ROOMS := 50
  const DEFAULT_RELAY_PORT_BASE := 23456
  const DEFAULT_GGPO_UDP_PORT_BASE := 24456
  const DEFAULT_ROOM_CAPACITY_WARNING_PERCENT := 80
  const MAX_PORT := 65535

  /** An environment variable once read: unset or blank, a decimal integer, or anything else. */
  datatype Setting = Unset | Integer(value: int) | Malformed

  datatype Environment = Environment(maxRooms: Setting, relayPortBase: Setting, ggpoUdpPortBase: Setting, warningPercent: Setting)

  datatype Config = Config(maxRooms: int, relayPortBase: int, ggpoUdpPortBase: int, warningPercent: int)

  datatype ConfigError =
    | NotAnInteger
    | MaxRoomsTooSmall
    | RelayBaseTooSmall
    | GgpoBaseTooSmall
    | WarningPercentOutOfRange
    | RelayRangeTooHigh
    | GgpoRangeTooHigh
    | RangesOverlapping

  datatype ConfigResult = Loaded(config: Config) | Rejected(error: ConfigError)

  function ValueOr(setting: Setting, fallback: int): int {
    if setting.Integer? then setting.value else fallback
  }

  /** Inclusive ranges. */
  predicate RangesOverlap(aStart: int, aEnd: int, bStart: int, bEnd: int) {
    aStart <= bEnd && bStart <= aEnd
  }

  predicate WellFormedEnvironment(env: Environment) {
    !env.maxRooms.Malformed? && !env.relayPortBase.Malformed? && !env.ggpoUdpPortBase.Malformed? && !env.warningPercent.Malformed?
  }

  /** What the environment asks for, with the defaults filled in. */
  function Requested(env: Environment): Config {
    Config(ValueOr(env.maxRooms, DEFAULT_MAX_ROOMS), ValueOr(env.relayPortBase, DEFAULT_RELAY_PORT_BASE),
           ValueOr(env.ggpoUdpPortBase, DEFAULT_GGPO_UDP_PORT_BASE),
           ValueOr(env.warningPercent, DEFAULT_ROOM_CAPACITY_WARNING_PERCENT))
  }

  function LoadCapacityConfig(env: Environment): ConfigResult {
    var c := Requested(env);
    var relayEnd, ggpoEnd := c.relayPortBase + c.maxRooms - 1, c.ggpoUdpPortBase + c.maxRooms - 1;
    if !WellFormedEnvironment(env) then Rejected(NotAnInteger)
    else if c.maxRooms < 1 then Rejected(MaxRoomsTooSmall)
    else if c.relayPortBase < 1 then Rejected(RelayBaseTooSmall)
    else if c.ggpoUdpPortBase < 1 then Rejected(GgpoBaseTooSmall)
    else if c.warningPercent < 1 || c.warningPercent > 100 then Rejected(WarningPercentOutOfRange)
    else if relayEnd > MAX_PORT then Rejected(RelayRangeTooHigh)
    else if ggpoEnd > MAX_PORT then Rejected(GgpoRangeTooHigh)
    else if RangesOverlap(c.relayPortBase, relayEnd, c.ggpoUdpPortBase, ggpoEnd) then Rejected(RangesOverlapping)
    else Loaded(c)
  }

  /** The n integers from lo on. */
  function Range(lo: int, n: int): (ports: set<int>)
    ensures forall p :: p in ports <==> lo <= p < lo + n
    ensures |ports| == if n < 0 then 0 else n
    decreases n
  {
    if n <= 0 then {} else Range(lo, n - 1) + {lo + n - 1}
  }

  function SessionPorts(c: Config): set<int> {
    Range(c.relayPortBase, c.maxRooms)
  }

  function GgpoPorts(c: Config): set<int> {
    Range(c.ggpoUdpPortBase, c.maxRooms)
  }

  predicate IsPort(p: int) {
    1 <= p <= MAX_PORT
  }

  /** A configuration a broker can run on: real ports for every room, and none used for both relays. */
  predicate Usable(c: Config) {
    && c.maxRooms >= 1
    && (forall p | p in SessionPorts(c) :: IsPort(p)) && (forall p | p in GgpoPorts(c) :: IsPort(p))
    && SessionPorts(c) !! GgpoPorts(c)
  }

  lemma UsableBounds(c: Config)
    ensures Usable(c) <==>
              && c.maxRooms >= 1 && c.relayPortBase >= 1 && c.ggpoUdpPortBase >= 1
              && c.relayPortBase + c.maxRooms - 1 <= MAX_PORT && c.ggpoUdpPortBase + c.maxRooms - 1 <= MAX_PORT
              && !RangesOverlap(c.relayPortBase, c.relayPortBase + c.maxRooms - 1,
                                c.ggpoUdpPortBase, c.ggpoUdpPortBase + c.maxRooms - 1)
  {
    if c.maxRooms >= 1 {
      var relayEnd, ggpoEnd := c.relayPortBase + c.maxRooms - 1, c.ggpoUdpPortBase + c.maxRooms - 1;
      assert c.relayPortBase in SessionPorts(c) && relayEnd in SessionPorts(c);
      assert c.ggpoUdpPortBase in GgpoPorts(c) && ggpoEnd in GgpoPorts(c);
      var shared := if c.relayPortBase >= c.ggpoUdpPortBase then c.relayPortBase else c.ggpoUdpPortBase;
      if RangesOverlap(c.relayPortBase, relayEnd, c.ggpoUdpPortBase, ggpoEnd) {
        assert shared in SessionPorts(c) && shared in GgpoPorts(c);
      }
    }
  }

  /** Loading accepts exactly the well-formed environments whose port ranges are usable. */
  lemma LoadsExactlyUsable(env: Environment)
    ensures var c := Requested(env);
            && (LoadCapacityConfig(env) == Loaded(c) <==>
                  WellFormedEnvironment(env) && 1 <= c.warningPercent <= 100 && Usable(c))
            && (LoadCapacityConfig(env).Loaded? ==> LoadCapacityConfig(env) == Loaded(c))
  {
    UsableBounds(Requested(env));
  }

  /** A setting given is the one loaded; one left out has its default. */
  predicate Follows(loaded: int, setting: Setting, fallback: int) {
    match setting
    case Unset => loaded == fallback
    case Integer(value) => loaded == value
    case Malformed => false
  }

  /** Every setting is loaded as given, or else by its default, each into its own field. */
  lemma LoadsEachSetting(env: Environment, c: Config)
    requires LoadCapacityConfig(env) == Loaded(c)
    ensures Follows(c.maxRooms, env.maxRooms, 50) && Follows(c.relayPortBase, env.relayPortBase, 23456)
    ensures Follows(c.ggpoUdpPortBase, env.ggpoUdpPortBase, 24456) && Follows(c.warningPercent, env.warningPercent, 80)
  {}

  /** The i-th session port is paired with the i-th GGPO port, and a port outside the range with none. */
  lemma PortsPairByIndex(c: Config, port: int)
    requires c.maxRooms >= 1
    ensures GgpoPortFor(c, port) - c.ggpoUdpPortBase == port - c.relayPortBase || port !in SessionPorts(c)
    ensures port !in SessionPorts(c) ==> GgpoPortFor(c, port) == 0
  {
    assert port in SessionPorts(c) <==> c.relayPortBase <= port < c.relayPortBase + c.maxRooms;
  }

  function GgpoPortFor(c: Config, sessionPort: int): (ggpoPort: int) {
    var index := sessionPort - c.relayPortBase;
    if index < 0 || index >= c.maxRooms then 0 else c.ggpoUdpPortBase + index
  }

  /** The GGPO port determines the session port: no two rooms can share one. */
  lemma GgpoPortsDistinct(c: Config, p: int, q: int)
    requires Usable(c) && p in SessionPorts(c) && q in SessionPorts(c)
    ensures GgpoPortFor(c, p) in GgpoPorts(c) && GgpoPortFor(c, p) !in SessionPorts(c) && GgpoPortFor(c, p) != 0
    ensures GgpoPortFor(c, p) == GgpoPortFor(c, q) ==> p == q
  {
    assert GgpoPortFor(c, p) in GgpoPorts(c);
  }

  // ----- Allocation -----

  /** The first session port from index i on that is neither used nor reserved, or 0. */
  function FirstFree(c: Config, used: set<int>, reserved: set<int>, i: nat): (port: int)
    requires i <= c.maxRooms
    decreases c.maxRooms - i
  {
    if i == c.maxRooms then 0
    else if c.relayPortBase + i !in used && c.relayPortBase + i !in reserved then c.relayPortBase + i
    else FirstFree(c, used, reserved, i + 1)
  }

  /** It is the lowest free port, and 0 exactly when there is none. */
  lemma {:induction false} FirstFreeIsLowest(c: Config, used: set<int>, reserved: set<int>, i: nat)
    requires Usable(c) && i <= c.maxRooms
    ensures var port := FirstFree(c, used, reserved, i);
            if port == 0 then
              forall p | p in SessionPorts(c) && c.relayPortBase + i <= p :: p in used || p in reserved
            else
              && port in SessionPorts(c) && c.relayPortBase + i <= port && port !in used && port !in reserved
              && forall p | p in SessionPorts(c) && c.relayPortBase + i <= p < port :: p in used || p in reserved
    decreases c.maxRooms - i
  {
    if i < c.maxRooms {
      assert c.relayPortBase + i in SessionPorts(c);
      FirstFreeIsLowest(c, used, reserved, i + 1);
    }
  }

  /** The pair an allocation hands out. */
  lemma AllocatedPairIsFree(c: Config, used: set<int>, reserved: set<int>, port: int)
    requires Usable(c) && port == FirstFree(c, used, reserved, 0) && port != 0
    ensures port in SessionPorts(c) - used - reserved
    ensures GgpoPortFor(c, port) == c.ggpoUdpPortBase + (port - c.relayPortBase)
  {
    FirstFreeIsLowest(c, used, reserved, 0);
  }

  lemma {:induction false} SubsetSize<T>(a: set<T>, b: set<T>)
    requires a <= b
    ensures |a| <= |b|
    ensures |a| == |b| ==> a == b
    decreases a
  {
    if a != {} {
      var x := Pick(a);
      SubsetSize(a - {x}, b - {x});
    } else if b != {} {
      var x := Pick(b);
      assert x in b;
    }
  }

  /** Pigeonhole: distinct session ports fill the range exactly when there are maxRooms of them. */
  lemma PortsFillRange(c: Config, taken: set<int>)
    requires Usable(c) && taken <= SessionPorts(c)
    ensures |taken| <= c.maxRooms
    ensures FirstFree(c, taken, {}, 0) == 0 <==> |taken| == c.maxRooms
  {
    SubsetSize(taken, SessionPorts(c));
    FirstFreeIsLowest(c, taken, {}, 0);
    if FirstFree(c, taken, {}, 0) == 0 {
      assert taken == SessionPorts(c);
    } else {
      assert FirstFree(c, taken, {}, 0) in SessionPorts(c);
    }
  }

  lemma {:induction false} FirstFreeOfUnion(c: Config, used: set<int>, reserved: set<int>, i: nat)
    requires i <= c.maxRooms
    ensures FirstFree(c, used, reserved, i) == FirstFree(c, used + reserved, {}, i)
    decreases c.maxRooms - i
  {
    if i < c.maxRooms {
      FirstFreeOfUnion(c, used, reserved, i + 1);
    }
  }
}
