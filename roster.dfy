/**
 * The roster of the game: the agents `Game.setup_agents` creates, the alive
 * queries `get_alive_agents`, `get_alive_villagers` and `get_alive_vampires`,
 * and the elimination step both phases end with.
 */
module Roster {
  import opened Wrappers
  import opened Text

  datatype Role = Villager | Vampire

  /** An agent as the orchestration sees it; `isAlive` is the only part that ever changes. */
  datatype Agent = Agent(name: string, role: Role, isAlive: bool)

  /** `f"Agent {i}"`. */
  function AgentName(i: nat): string {
    "Agent " + Decimal(i)
  }

  /** Different positions give different names. */
  lemma AgentNameInjective(i: nat, j: nat)
    requires AgentName(i) == AgentName(j)
    ensures i == j
  {
    assert AgentName(i)[6..] == Decimal(i);
    assert AgentName(j)[6..] == Decimal(j);
    DecimalRoundTrip(i);
    DecimalRoundTrip(j);
  }

  /** `[r] * n`. */
  function Repeat(r: Role, n: nat): (rs: seq<Role>)
    ensures |rs| == n
    ensures multiset(rs)[r] == n
    ensures forall x :: x != r ==> multiset(rs)[x] == 0
  {
    if n == 0 then [] else Repeat(r, n - 1) + [r]
  }

  /** `['villager'] * villager_count + ['vampire'] * vampire_count`, before it is shuffled. */
  function RoleList(villagers: nat, vampires: nat): (roles: seq<Role>)
    ensures |roles| == villagers + vampires
    ensures multiset(roles)[Villager] == villagers && multiset(roles)[Vampire] == vampires
  {
    Repeat(Villager, villagers) + Repeat(Vampire, vampires)
  }

  /** The agents created from the shuffled role list: `Agent 1` .. `Agent n`, all alive. */
  function Enlist(roles: seq<Role>): (agents: seq<Agent>)
    ensures |agents| == |roles|
  {
    seq(|roles|, i requires 0 <= i < |roles| => Agent(AgentName(i + 1), roles[i], true))
  }

  function Roles(agents: seq<Agent>): seq<Role> {
    seq(|agents|, i requires 0 <= i < |agents| => agents[i].role)
  }

  /** `[agent.name for agent in agents]`. */
  function Names(agents: seq<Agent>): (names: seq<string>)
    ensures |names| == |agents|
    ensures forall i :: 0 <= i < |agents| ==> names[i] == agents[i].name
  {
    seq(|agents|, i requires 0 <= i < |agents| => agents[i].name)
  }

  /** How many agents of the roster have `role`, alive or not. */
  function CountRole(agents: seq<Agent>, role: Role): nat {
    multiset(Roles(agents))[role]
  }

  /** The roster invariant: the configured size and role counts, and agent `i` named `Agent i`. */
  predicate WellFormed(agents: seq<Agent>, villagers: nat, vampires: nat) {
    && |agents| == villagers + vampires
    && CountRole(agents, Villager) == villagers
    && CountRole(agents, Vampire) == vampires
    && forall i :: 0 <= i < |agents| ==> agents[i].name == AgentName(i + 1)
  }

  /** No two agents of a well-formed roster share a name. */
  lemma NamesUnique(agents: seq<Agent>, villagers: nat, vampires: nat)
    requires WellFormed(agents, villagers, vampires)
    ensures forall i, j :: 0 <= i < |agents| && 0 <= j < |agents| && agents[i].name == agents[j].name ==> i == j
  {
    forall i, j | 0 <= i < |agents| && 0 <= j < |agents| && agents[i].name == agents[j].name
      ensures i == j
    {
      AgentNameInjective(i + 1, j + 1);
    }
  }

  /**
   * Set-up: whatever order the shuffle produced, the roster has exactly
   * `villagers + vampires` agents with exactly those role counts, named
   * `Agent 1` .. `Agent n`, all alive, roles in the shuffled order.
   */
  lemma SetupRoster(shuffled: seq<Role>, villagers: nat, vampires: nat)
    requires multiset(shuffled) == multiset(RoleList(villagers, vampires))
    ensures WellFormed(Enlist(shuffled), villagers, vampires)
    ensures Roles(Enlist(shuffled)) == shuffled
    ensures forall i :: 0 <= i < |shuffled| ==> Enlist(shuffled)[i].isAlive
  {
    assert |shuffled| == |multiset(shuffled)| == |RoleList(villagers, vampires)|;
    assert Roles(Enlist(shuffled)) == shuffled;
  }

  /** An agent a filter keeps: alive and, when a role is given, of that role. */
  predicate Counted(a: Agent, role: Option<Role>) {
    a.isAlive && (role.Some? ==> a.role == role.value)
  }

  /** The list comprehension `[agent for agent in agents if agent.is_alive (and agent.role == role)]`. */
  function Alive(agents: seq<Agent>, role: Option<Role>): (alive: seq<Agent>)
    ensures |alive| <= |agents|
    ensures forall a :: a in alive <==> a in agents && Counted(a, role)
  {
    if agents == [] then []
    else (if Counted(agents[0], role) then [agents[0]] else []) + Alive(agents[1..], role)
  }

  /** `get_alive_agents`. */
  function AliveAgents(agents: seq<Agent>): seq<Agent> {
    Alive(agents, None)
  }

  /** `get_alive_villagers`. */
  function AliveVillagers(agents: seq<Agent>): seq<Agent> {
    Alive(agents, Some(Villager))
  }

  /** `get_alive_vampires`. */
  function AliveVampires(agents: seq<Agent>): seq<Agent> {
    Alive(agents, Some(Vampire))
  }

  /** No name occurs twice in `agents`. */
  predicate DistinctNames(agents: seq<Agent>) {
    forall i, j :: 0 <= i < j < |agents| ==> agents[i].name != agents[j].name
  }

  /** Putting an agent whose name is new in front keeps the names distinct. */
  lemma ConsDistinctNames(a: Agent, tail: seq<Agent>)
    requires DistinctNames(tail)
    requires forall b :: b in tail ==> b.name != a.name
    ensures DistinctNames([a] + tail)
  {
    var kept := [a] + tail;
    forall i, j | 0 <= i < j < |kept| ensures kept[i].name != kept[j].name {
      assert kept[j] == tail[j - 1] && kept[j] in tail;
      if i > 0 {
        assert kept[i] == tail[i - 1];
      }
    }
  }

  /** A filter of a roster without repeated names has none either. */
  lemma {:induction false} AliveDistinctNames(agents: seq<Agent>, role: Option<Role>)
    requires DistinctNames(agents)
    ensures DistinctNames(Alive(agents, role))
  {
    if agents != [] {
      var first, rest := agents[0], agents[1..];
      assert DistinctNames(rest) by {
        forall i, j | 0 <= i < j < |rest| ensures rest[i].name != rest[j].name {
          assert rest[i] == agents[i + 1] && rest[j] == agents[j + 1];
        }
      }
      AliveDistinctNames(rest, role);
      var tail := Alive(rest, role);
      if Counted(first, role) {
        forall b | b in tail ensures b.name != first.name {
          var m :| 0 <= m < |rest| && rest[m] == b;
          assert agents[m + 1] == b;
        }
        ConsDistinctNames(first, tail);
        assert Alive(agents, role) == [first] + tail;
      } else {
        assert Alive(agents, role) == tail;
      }
    }
  }

  /**
   * The candidate lists `[agent.name for agent in ...]` of a well-formed
   * roster's filters never repeat a name.
   */
  lemma AliveNamesDistinct(agents: seq<Agent>, villagers: nat, vampires: nat, role: Option<Role>)
    requires WellFormed(agents, villagers, vampires)
    ensures forall i, j :: 0 <= i < j < |Names(Alive(agents, role))| ==> Names(Alive(agents, role))[i] != Names(Alive(agents, role))[j]
  {
    NamesUnique(agents, villagers, vampires);
    AliveDistinctNames(agents, role);
  }

  /** The filters keep roster order: filtering a concatenation concatenates the filtered parts. */
  lemma {:induction false} AliveAppend(a: seq<Agent>, b: seq<Agent>, role: Option<Role>)
    ensures Alive(a + b, role) == Alive(a, role) + Alive(b, role)
  {
    if a == [] {
      assert a + b == b;
    } else {
      assert (a + b)[0] == a[0];
      assert (a + b)[1..] == a[1..] + b;
      AliveAppend(a[1..], b, role);
    }
  }

  /** A filter looks at the first agent, then filters the rest. */
  lemma AliveHead(agents: seq<Agent>, role: Option<Role>)
    requires agents != []
    ensures Alive(agents, role) == (if Counted(agents[0], role) then [agents[0]] else []) + Alive(agents[1..], role)
  {
  }

  /**
   * The alive villagers and the alive vampires partition the alive agents:
   * every alive agent is in exactly one of the two, and their numbers add up.
   */
  lemma {:induction false} AlivePartition(agents: seq<Agent>)
    ensures forall a :: a in AliveAgents(agents) <==> a in AliveVillagers(agents) || a in AliveVampires(agents)
    ensures forall a :: !(a in AliveVillagers(agents) && a in AliveVampires(agents))
    ensures |AliveVillagers(agents)| + |AliveVampires(agents)| == |AliveAgents(agents)|
  {
    if agents != [] {
      AlivePartition(agents[1..]);
      AliveHead(agents, None);
      AliveHead(agents, Some(Villager));
      AliveHead(agents, Some(Vampire));
    }
  }

  /** The agent `next(...)` stops at: alive, named `name` and, when a role is given, of that role. */
  predicate Matches(a: Agent, name: string, role: Option<Role>) {
    Counted(a, role) && a.name == name
  }

  /** `next((agent for agent in <filtered agents> if agent.name == name), None)`, as a roster index. */
  function Locate(agents: seq<Agent>, name: string, role: Option<Role>): (r: Option<nat>)
    ensures r.Some? ==> r.value < |agents| && Matches(agents[r.value], name, role)
    ensures r.Some? ==> forall j :: 0 <= j < r.value ==> !Matches(agents[j], name, role)
    ensures r.None? ==> forall j :: 0 <= j < |agents| ==> !Matches(agents[j], name, role)
  {
    if agents == [] then None
    else if Matches(agents[0], name, role) then Some(0)
    else
      match Locate(agents[1..], name, role)
      case None => None
      case Some(k) => Some(k + 1)
  }

  /** Every alive agent's name is found among the alive agents. */
  lemma LocateAliveName(agents: seq<Agent>, name: string)
    requires name in Names(AliveAgents(agents))
    ensures Locate(agents, name, None).Some?
  {
    var alive := AliveAgents(agents);
    var i :| 0 <= i < |alive| && Names(alive)[i] == name;
    assert alive[i] in alive;
    var j :| 0 <= j < |agents| && agents[j] == alive[i];
    assert Matches(agents[j], name, None);
  }

  /** `target_agent.is_alive = False` for the agent at index `k`. */
  function Kill(agents: seq<Agent>, k: nat): (after: seq<Agent>)
    requires k < |agents|
    ensures |after| == |agents|
  {
    agents[k := agents[k].(isAlive := false)]
  }

  /** `after` is `before` with some agents marked dead: same names and roles, same order, nobody revived. */
  predicate Kept(before: seq<Agent>, after: seq<Agent>) {
    && |after| == |before|
    && forall i :: 0 <= i < |before| ==>
         after[i].name == before[i].name && after[i].role == before[i].role && (after[i].isAlive ==> before[i].isAlive)
  }

  /** Two rounds of eliminations are again eliminations. */
  lemma KeptTransitive(a: seq<Agent>, b: seq<Agent>, c: seq<Agent>)
    requires Kept(a, b) && Kept(b, c)
    ensures Kept(a, c)
  {
  }

  /** Eliminations change no name or role, so the roster invariant survives them. */
  lemma KeptWellFormed(before: seq<Agent>, after: seq<Agent>, villagers: nat, vampires: nat)
    requires WellFormed(before, villagers, vampires) && Kept(before, after)
    ensures WellFormed(after, villagers, vampires)
  {
    assert Roles(after) == Roles(before);
  }

  /**
   * Killing agent `k` changes only agent `k`, which stops being alive; every
   * filter it passed loses exactly that one agent and the other filters keep
   * their length.
   */
  lemma {:induction false} KillAlive(agents: seq<Agent>, k: nat, role: Option<Role>)
    requires k < |agents| && agents[k].isAlive
    ensures Kept(agents, Kill(agents, k))
    ensures !Kill(agents, k)[k].isAlive
    ensures forall i :: 0 <= i < |agents| && i != k ==> Kill(agents, k)[i] == agents[i]
    ensures |Alive(Kill(agents, k), role)| == |Alive(agents, role)| - (if Counted(agents[k], role) then 1 else 0)
  {
    var after := Kill(agents, k);
    if k == 0 {
      assert after[1..] == agents[1..];
    } else {
      assert after[0] == agents[0];
      assert after[1..] == Kill(agents[1..], k - 1);
      KillAlive(agents[1..], k - 1, role);
    }
  }
}
