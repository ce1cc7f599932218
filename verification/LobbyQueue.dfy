/**
 The lobby of src/session/sf4e__SessionServer.cxx: the members in the order they joined, of whom the
 first two play and the others wait. The winner stays; the loser goes to the end.
 */
module LobbyQueue {

  const MAX_USERS := 4

  /** What the constructor reserves for the members, so that no push can move them. */
  const RESERVED := MAX_USERS + 1

  type Connection = nat

  datatype Member = Member(conn: Connection, name: string, ip: string, port: nat)

  datatype MatchData = MatchData(ready: (int, int), chara: (int, int), stageID: int, rngSeed: int)

  const CLEARED := MatchData((-1, -1), (0, 0), -1, 0xffff_ffff)

  datatype Lobby = Lobby(clients: seq<Member>, matchData: MatchData)

  datatype JoinResult = JoinOk | HashInvalid | LobbyFull | NameTaken

  predicate HasName(clients: seq<Member>, name: string) {
    exists i | 0 <= i < |clients| :: clients[i].name == name
  }

  function Register(l: Lobby, member: Member, hashMatches: bool): (Lobby, JoinResult) {
    if !hashMatches then (l, HashInvalid)
    else if |l.clients| >= MAX_USERS then (l, LobbyFull)
    else if HasName(l.clients, member.name) then (l, NameTaken)
    else (l.(clients := l.clients + [member]), JoinOk)
  }

  function Without(clients: seq<Member>, i: nat): seq<Member>
    requires i < |clients|
  {
    clients[..i] + clients[i + 1..]
  }

  /** The loser at the end, the match data cleared. Any client may report; the index is not checked. */
  function HandleResults(l: Lobby, loser: nat): Lobby
    requires loser < |l.clients|
  {
    Lobby(Without(l.clients, loser) + [l.clients[loser]], CLEARED)
  }

  /** The first member of the connection, or the number of members. */
  function FirstOf(clients: seq<Member>, conn: Connection, i: nat): (k: nat)
    requires i <= |clients|
    ensures i <= k <= |clients|
    ensures k < |clients| ==> clients[k].conn == conn
    ensures forall j | i <= j < k :: clients[j].conn != conn
    decreases |clients| - i
  {
    if i == |clients| || clients[i].conn == conn then i else FirstOf(clients, conn, i + 1)
  }

  function Disconnect(l: Lobby, conn: Connection): Lobby {
    var k := FirstOf(l.clients, conn, 0);
    if k < |l.clients| then l.(clients := Without(l.clients, k)) else l
  }

  // ----- The imperative original -----

  class SessionServer {
    const sidecarHash: string
    var clients: seq<Member>
    var matchData: MatchData

    function State(): Lobby
      reads this
    {
      Lobby(clients, matchData)
    }

    constructor (sidecarHash: string)
      ensures this.sidecarHash == sidecarHash && State() == Lobby([], CLEARED)
    {
      this.sidecarHash := sidecarHash;
      clients, matchData := [], CLEARED;
    }

    method RegisterToWait(member: Member, hash: string) returns (result: JoinResult)
      modifies this`clients
      ensures (State(), result) == Register(old(State()), member, hash == sidecarHash)
    {
      if hash != sidecarHash {
        return HashInvalid;
      }
      if |clients| >= MAX_USERS {
        return LobbyFull;
      }
      for i := 0 to |clients|
        invariant forall k | 0 <= k < i :: clients[k].name != member.name
      {
        if clients[i].name == member.name {
          return NameTaken;
        }
      }
      clients := clients + [member];
      return JoinOk;
    }

    /** The push stays within what was reserved, so the reference to the loser stays good for the erase. */
    method Results(loserIndex: nat)
      requires loserIndex < |clients| <= MAX_USERS
      modifies this
      ensures State() == HandleResults(old(State()), loserIndex)
    {
      clients := clients + [clients[loserIndex]];
      assert |clients| <= RESERVED;
      clients := clients[..loserIndex] + clients[loserIndex + 1..];
      assert clients == Without(old(clients), loserIndex) + [old(clients)[loserIndex]];
      matchData := CLEARED;
    }

    method ConnectionClosed(conn: Connection)
      modifies this`clients
      ensures State() == Disconnect(old(State()), conn)
    {
      for i := 0 to |clients|
        invariant clients == old(clients)
        invariant FirstOf(clients, conn, 0) == FirstOf(clients, conn, i)
      {
        if clients[i].conn == conn {
          clients := clients[..i] + clients[i + 1..];
          return;
        }
      }
    }
  }

  // ----- Runs -----

  datatype Event =
    | Join(member: Member, hashMatches: bool)
    | Leave(conn: Connection)
    | Result(loser: nat)

  /** A result names one of the two players. */
  predicate Allowed(l: Lobby, e: Event) {
    e.Result? ==> e.loser < 2 && e.loser < |l.clients|
  }

  function Apply(l: Lobby, e: Event): Lobby
    requires Allowed(l, e)
  {
    match e
    case Join(member, hashMatches) => Register(l, member, hashMatches).0
    case Leave(conn) => Disconnect(l, conn)
    case Result(loser) => HandleResults(l, loser)
  }

  predicate Reaches(l: Lobby, run: seq<Event>, l': Lobby)
    decreases |run|
  {
    if run == [] then l' == l else Allowed(l, run[0]) && Reaches(Apply(l, run[0]), run[1..], l')
  }

  predicate NamesDistinct(clients: seq<Member>) {
    forall i, j | 0 <= i < j < |clients| :: clients[i].name != clients[j].name
  }

  predicate Sound(l: Lobby) {
    NamesDistinct(l.clients) && |l.clients| <= MAX_USERS
  }

  lemma {:induction false} RunKeepsSound(l: Lobby, run: seq<Event>, l': Lobby)
    requires Sound(l) && Reaches(l, run, l')
    ensures Sound(l')
    decreases |run|
  {
    if run != [] {
      StepKeepsSound(l, run[0]);
      RunKeepsSound(Apply(l, run[0]), run[1..], l');
    }
  }

  lemma StepKeepsSound(l: Lobby, e: Event)
    requires Sound(l) && Allowed(l, e)
    ensures Sound(Apply(l, e))
  {
    if e.Join? && Register(l, e.member, e.hashMatches).1 == JoinOk {
      forall i | 0 <= i < |l.clients| ensures l.clients[i].name != e.member.name {
        assert !HasName(l.clients, e.member.name);
      }
    }
  }

  /** From an empty lobby no run ever has two members of one name or more than the limit. */
  lemma LobbyAlwaysSound(run: seq<Event>, l: Lobby)
    requires Reaches(Lobby([], CLEARED), run, l)
    ensures NamesDistinct(l.clients) && |l.clients| <= MAX_USERS
  {
    RunKeepsSound(Lobby([], CLEARED), run, l);
  }

  /** Who is let in: exactly a client of the server's build, into a lobby of less than four, under a new name. */
  lemma JoinExactly(l: Lobby, member: Member, hashMatches: bool)
    ensures var (l', result) := Register(l, member, hashMatches);
            && (result == JoinOk <==>
                  hashMatches && |l.clients| < 4 && forall other | other in l.clients :: other.name != member.name)
            && (result == HashInvalid <==> !hashMatches)
            && (result == LobbyFull <==> hashMatches && |l.clients| >= 4)
            && l'.clients == (if result == JoinOk then l.clients + [member] else l.clients)
            && l'.matchData == l.matchData
  {
    if HasName(l.clients, member.name) {
      var i :| 0 <= i < |l.clients| && l.clients[i].name == member.name;
      assert l.clients[i] in l.clients;
    } else {
      forall other | other in l.clients ensures other.name != member.name {
        var i :| 0 <= i < |l.clients| && l.clients[i] == other;
      }
    }
  }

  lemma StepAddsOnlyJoins(l: Lobby, e: Event, m: Member)
    requires Allowed(l, e) && m in Apply(l, e).clients
    ensures m in l.clients || e == Join(m, true)
  {
    if e.Result? {
      MovedToEndPermutes(l.clients, e.loser);
      assert m in multiset(Apply(l, e).clients);
    }
  }

  lemma {:induction false} MembersFrom(l: Lobby, run: seq<Event>, l': Lobby, m: Member)
    requires Reaches(l, run, l') && m in l'.clients
    ensures m in l.clients || Join(m, true) in run
    decreases |run|
  {
    if run != [] {
      MembersFrom(Apply(l, run[0]), run[1..], l', m);
      if m in Apply(l, run[0]).clients {
        StepAddsOnlyJoins(l, run[0], m);
      }
    }
  }

  /** Everyone in the lobby joined it with the server's sidecar hash, whatever happened since. */
  lemma EveryMemberJoined(run: seq<Event>, l: Lobby, m: Member)
    requires Reaches(Lobby([], CLEARED), run, l) && m in l.clients
    ensures Join(m, true) in run
  {
    MembersFrom(Lobby([], CLEARED), run, l, m);
  }

  lemma MovedToEndPermutes(clients: seq<Member>, i: nat)
    requires i < |clients|
    ensures multiset(Without(clients, i) + [clients[i]]) == multiset(clients)
  {
    assert clients == clients[..i] + [clients[i]] + clients[i + 1..];
  }

  lemma MovedToEndAt(clients: seq<Member>, i: nat)
    requires i < 2 <= |clients|
    ensures var moved := Without(clients, i) + [clients[i]];
            && |moved| == |clients| && moved[0] == clients[1 - i] && moved[|clients| - 1] == clients[i]
            && (forall k | 2 <= k < |clients| :: moved[k - 1] == clients[k])
  {
    assert |Without(clients, i)| == |clients| - 1;
    assert Without(clients, i)[0] == clients[1 - i];
    assert forall k | 2 <= k < |clients| :: Without(clients, i)[k - 1] == clients[k];
  }

  /**
   A result loses nobody: the winner plays on as the first, the loser is last, and everyone who was
   waiting moves up by one.
   */
  lemma ResultRotates(l: Lobby, loser: nat)
    requires loser < 2 <= |l.clients|
    ensures var l' := HandleResults(l, loser);
            && multiset(l'.clients) == multiset(l.clients) && |l'.clients| == |l.clients|
            && l'.clients[0] == l.clients[1 - loser]
            && l'.clients[|l.clients| - 1] == l.clients[loser]
            && (forall i | 2 <= i < |l.clients| :: l'.clients[i - 1] == l.clients[i])
            && l'.matchData == CLEARED
  {
    MovedToEndPermutes(l.clients, loser);
    MovedToEndAt(l.clients, loser);
  }

  // ----- Bounded waiting -----

  function CountResults(run: seq<Event>): nat
    decreases |run|
  {
    if run == [] then 0 else (if run[0].Result? then 1 else 0) + CountResults(run[1..])
  }

  /** The member is one of the two players after some prefix of the run. */
  predicate PlaysWithin(l: Lobby, run: seq<Event>, l': Lobby, m: Member)
    requires Reaches(l, run, l')
    decreases |run|
  {
    m in l.clients[..if |l.clients| < 2 then |l.clients| else 2] ||
    (run != [] && PlaysWithin(Apply(l, run[0]), run[1..], l', m))
  }

  /** A step that is not the member's own departure moves a waiting member up, by one at least on a result. */
  lemma StepMovesUp(l: Lobby, e: Event, m: Member, k: nat) returns (k': nat)
    requires Allowed(l, e) && e != Leave(m.conn) && 2 <= k < |l.clients| && l.clients[k] == m
    ensures k' < |Apply(l, e).clients| && Apply(l, e).clients[k'] == m
    ensures k' <= if e.Result? then k - 1 else k
  {
    k' := k;
    match e
    case Join(_, _) =>
    case Result(loser) => k' := k - 1;
    case Leave(conn) =>
      if FirstOf(l.clients, conn, 0) < k {
        k' := k - 1;
      }
  }

  /**
   A member waiting at index k plays after at most k - 1 results, whoever joins or leaves in
   between, as long as its own connection stays.
   */
  lemma {:induction false} WaitIsBounded(l: Lobby, run: seq<Event>, l': Lobby, m: Member, k: nat)
    requires Reaches(l, run, l') && k < |l.clients| && l.clients[k] == m
    requires Leave(m.conn) !in run
    requires CountResults(run) >= k - 1
    ensures PlaysWithin(l, run, l', m)
    decreases |run|
  {
    if k < 2 {
      assert l.clients[..if |l.clients| < 2 then |l.clients| else 2][k] == m;
    } else {
      assert run != [];
      var k' := StepMovesUp(l, run[0], m, k);
      WaitIsBounded(Apply(l, run[0]), run[1..], l', m, k');
    }
  }

  // ----- Departures -----

  function Memberships(clients: seq<Member>, conn: Connection): nat {
    if clients == [] then 0
    else Memberships(clients[..|clients| - 1], conn) + if clients[|clients| - 1].conn == conn then 1 else 0
  }

  lemma {:induction false} MembershipsOfAppend(a: seq<Member>, b: seq<Member>, conn: Connection)
    ensures Memberships(a + b, conn) == Memberships(a, conn) + Memberships(b, conn)
    decreases |b|
  {
    if b == [] {
      assert a + b == a;
    } else {
      MembershipsOfAppend(a, b[..|b| - 1], conn);
      assert (a + b)[..|a + b| - 1] == a + b[..|b| - 1];
    }
  }

  lemma MembershipsOfOne(m: Member, conn: Connection)
    ensures Memberships([m], conn) == if m.conn == conn then 1 else 0
  {
    assert [m][..0] == [];
  }

  lemma MembershipsWithout(clients: seq<Member>, i: nat, conn: Connection)
    requires i < |clients|
    ensures Memberships(clients, conn) == Memberships(Without(clients, i), conn) + if clients[i].conn == conn then 1 else 0
  {
    assert clients == clients[..i] + [clients[i]] + clients[i + 1..];
    MembershipsOfAppend(clients[..i] + [clients[i]], clients[i + 1..], conn);
    MembershipsOfAppend(clients[..i], [clients[i]], conn);
    MembershipsOfAppend(clients[..i], clients[i + 1..], conn);
    MembershipsOfOne(clients[i], conn);
  }

  lemma {:induction false} NoMemberships(clients: seq<Member>, conn: Connection)
    ensures Memberships(clients, conn) == 0 <==> forall m | m in clients :: m.conn != conn
  {
    if clients != [] {
      var front := clients[..|clients| - 1];
      NoMemberships(front, conn);
      assert clients == front + [clients[|clients| - 1]];
    }
  }

  lemma DisconnectTakesOne(l: Lobby, conn: Connection, other: Connection)
    ensures Memberships(Disconnect(l, conn).clients, other)
         == Memberships(l.clients, other) - if other == conn && Memberships(l.clients, conn) > 0 then 1 else 0
  {
    var k := FirstOf(l.clients, conn, 0);
    if k < |l.clients| {
      MembershipsWithout(l.clients, k, other);
    } else {
      NoMemberships(l.clients, conn);
    }
  }

  /** The joins of the connection accepted in the run that no closing of it has undone, of n at the start. */
  function OpenJoins(l: Lobby, run: seq<Event>, l': Lobby, conn: Connection, n: nat): nat
    requires Reaches(l, run, l')
    decreases |run|
  {
    if run == [] then n
    else
      var e := run[0];
      var joins := e.Join? && e.member.conn == conn && Register(l, e.member, e.hashMatches).1 == JoinOk;
      var leaves := e == Leave(conn) && n > 0;
      OpenJoins(Apply(l, e), run[1..], l', conn, if joins then n + 1 else if leaves then n - 1 else n)
  }

  lemma StepMemberships(l: Lobby, e: Event, conn: Connection)
    requires Allowed(l, e)
    ensures var n := Memberships(l.clients, conn);
            Memberships(Apply(l, e).clients, conn) ==
              if e.Join? && e.member.conn == conn && Register(l, e.member, e.hashMatches).1 == JoinOk then n + 1
              else if e == Leave(conn) && n > 0 then n - 1
              else n
  {
    match e
    case Join(member, _) =>
      MembershipsOfAppend(l.clients, [member], conn);
      MembershipsOfOne(member, conn);
    case Leave(c) => DisconnectTakesOne(l, c, conn);
    case Result(loser) =>
      MembershipsWithout(l.clients, loser, conn);
      MembershipsOfAppend(Without(l.clients, loser), [l.clients[loser]], conn);
      MembershipsOfOne(l.clients[loser], conn);
  }

  lemma {:induction false} MembershipsAreOpenJoins(l: Lobby, run: seq<Event>, l': Lobby, conn: Connection)
    requires Reaches(l, run, l')
    ensures Memberships(l'.clients, conn) == OpenJoins(l, run, l', conn, Memberships(l.clients, conn))
    decreases |run|
  {
    if run != [] {
      StepMemberships(l, run[0], conn);
      MembershipsAreOpenJoins(Apply(l, run[0]), run[1..], l', conn);
    }
  }

  /**
   After any run from the empty lobby, a closed connection leaves no member behind exactly when at
   most one of its accepted joins was still open; nothing refuses a second one.
   */
  lemma GoneExactlyWhenJoinedOnce(run: seq<Event>, l: Lobby, conn: Connection)
    requires Reaches(Lobby([], CLEARED), run, l)
    ensures (forall m | m in Disconnect(l, conn).clients :: m.conn != conn) <==>
              OpenJoins(Lobby([], CLEARED), run, l, conn, 0) <= 1
  {
    MembershipsAreOpenJoins(Lobby([], CLEARED), run, l, conn);
    DisconnectTakesOne(l, conn, conn);
    NoMemberships(Disconnect(l, conn).clients, conn);
  }

  /** One connection joins under two names and closes: the second member stays. */
  lemma JoinedTwiceStays(a: Member, b: Member)
    requires a.conn == b.conn && a.name != b.name
    ensures Reaches(Lobby([], CLEARED), [Join(a, true), Join(b, true), Leave(a.conn)], Lobby([b], CLEARED))
  {
    var l0, run := Lobby([], CLEARED), [Join(a, true), Join(b, true), Leave(a.conn)];
    var l1 := Apply(l0, run[0]);
    assert l1.clients == [a];
    var l2 := Apply(l1, run[1]);
    assert l2.clients == [a, b];
    var l3 := Apply(l2, run[2]);
    assert l3.clients == [b];
    assert run[1..] == [run[1], run[2]] && run[1..][1..] == [run[2]] && run[1..][1..][1..] == [];
    assert Reaches(l3, [], l3);
    assert Reaches(l2, [run[2]], l3);
    assert Reaches(l1, run[1..], l3);
  }
}
