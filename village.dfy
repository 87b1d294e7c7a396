/**
 * The `Game` object: the roster it builds, the day vote and the night kill
 * that mark agents dead, the win check, and one round of `run_game`.
 */
module Village {
  import opened Wrappers
  import opened Roster
  import opened Counting
  import opened Voting
  import opened Consensus

  /** What `check_win_conditions` decides: play on, or which side has won. */
  datatype Verdict = Continue | VillagersWin | VampiresWin

  /**
   * Lines 288-296: the villagers win once no vampire is alive; the vampires
   * win once they strictly outnumber the alive villagers; equal numbers play on.
   */
  function CheckWinConditions(agents: seq<Agent>): (v: Verdict)
    ensures v == VillagersWin <==> forall a :: a in agents && a.role == Vampire ==> !a.isAlive
    ensures v == VampiresWin <==> AliveVampires(agents) != [] && |AliveVillagers(agents)| < |AliveVampires(agents)|
    ensures v == Continue <==> 0 < |AliveVampires(agents)| <= |AliveVillagers(agents)|
  {
    var vampiresAlive := |AliveVampires(agents)|;
    var villagersAlive := |AliveVillagers(agents)|;
    assert vampiresAlive > 0 ==> AliveVampires(agents)[0] in AliveVampires(agents);
    if vampiresAlive == 0 then VillagersWin
    else if vampiresAlive > villagersAlive then VampiresWin
    else Continue
  }

  /** While the game goes on some agent is alive, so the next day vote has voters. */
  lemma ContinueHasVoters(agents: seq<Agent>)
    requires CheckWinConditions(agents) == Continue
    ensures AliveAgents(agents) != []
  {
    AlivePartition(agents);
  }

  /** How the day vote ended: nobody alive to vote, or the name of the agent eliminated. */
  datatype DayResult = NoVoters | Eliminated(name: string)

  /** How the night ended: no vampire alive, no villager alive, or the vampires' decision and whether it killed. */
  datatype NightResult = NoVampires | NoVillagers | Targeted(decision: Decision, killed: bool)

  /** The initial proposal of a vampire, by name, given the names of the alive villagers (`select_candidate(...).content`). */
  type Selector = (string, seq<string>) -> string

  /** `initial_choices`: the proposals of the vampires, in roster order. */
  function Proposals(vampires: seq<string>, candidateNames: seq<string>, select: Selector): (initial: seq<string>)
    ensures |initial| == |vampires|
    ensures forall i :: 0 <= i < |vampires| ==> initial[i] == select(vampires[i], candidateNames)
  {
    seq(|vampires|, i requires 0 <= i < |vampires| => select(vampires[i], candidateNames))
  }

  /**
   * What one day vote does to the roster: with nobody alive nothing happens;
   * otherwise the day target, an alive agent, is the one agent marked dead,
   * so exactly one alive agent and at most one alive villager or vampire is lost.
   */
  ghost predicate DayStep(before: seq<Agent>, after: seq<Agent>, result: DayResult, respond: Responder, draws: string -> nat, tieDraw: nat) {
    && Kept(before, after)
    && (AliveAgents(before) == [] ==> result == NoVoters && after == before)
    && (AliveAgents(before) != [] ==>
          && result == Eliminated(DayTarget(Names(AliveAgents(before)), respond, draws, tieDraw))
          && |AliveAgents(after)| == |AliveAgents(before)| - 1
          && |AliveVillagers(before)| - 1 <= |AliveVillagers(after)| <= |AliveVillagers(before)|
          && |AliveVampires(before)| - 1 <= |AliveVampires(after)| <= |AliveVampires(before)|
          && exists k :: 0 <= k < |before| && before[k].isAlive && before[k].name == result.name && after == Kill(before, k))
  }

  /**
   * What one night does to the roster: nothing without an alive vampire or
   * villager; otherwise the decision is `Decide` on the vampires' proposals,
   * and at most the alive villager of that name is killed.
   */
  ghost predicate NightStep(before: seq<Agent>, after: seq<Agent>, result: NightResult, select: Selector, revise: Reviser, tieDraw: nat) {
    && Kept(before, after)
    && (AliveVampires(before) == [] ==> result == NoVampires && after == before)
    && (AliveVampires(before) != [] && AliveVillagers(before) == [] ==> result == NoVillagers && after == before)
    && (AliveVampires(before) != [] && AliveVillagers(before) != [] ==>
          var vampires := Names(AliveVampires(before));
          && result.Targeted?
          && result.decision == Decide(vampires, Proposals(vampires, Names(AliveVillagers(before)), select), revise, tieDraw))
    && (!(result.Targeted? && result.killed) ==> after == before)
    && (result.Targeted? && result.killed ==>
          && |AliveAgents(after)| == |AliveAgents(before)| - 1
          && |AliveVillagers(after)| == |AliveVillagers(before)| - 1
          && |AliveVampires(after)| == |AliveVampires(before)|
          && exists k :: 0 <= k < |before| && Matches(before[k], result.decision.target, Some(Villager))
               && after == Kill(before, k))
    && (result.Targeted? && !result.killed ==>
          forall a :: a in before ==> !Matches(a, result.decision.target, Some(Villager)))
  }

  /** A day vote that eliminates the alive agent named by the day target is a day step. */
  lemma DayStepKill(before: seq<Agent>, k: nat, respond: Responder, draws: string -> nat, tieDraw: nat)
    requires AliveAgents(before) != []
    requires k < |before| && before[k].isAlive
    requires before[k].name == DayTarget(Names(AliveAgents(before)), respond, draws, tieDraw)
    ensures DayStep(before, Kill(before, k), Eliminated(before[k].name), respond, draws, tieDraw)
  {
    KillAlive(before, k, None);
    KillAlive(before, k, Some(Villager));
    KillAlive(before, k, Some(Vampire));
  }

  /** A night that kills the alive villager named by the vampires' decision is a night step. */
  lemma NightStepKill(before: seq<Agent>, k: nat, decision: Decision, select: Selector, revise: Reviser, tieDraw: nat)
    requires AliveVampires(before) != [] && AliveVillagers(before) != []
    requires var vampires := Names(AliveVampires(before));
      decision == Decide(vampires, Proposals(vampires, Names(AliveVillagers(before)), select), revise, tieDraw)
    requires k < |before| && Matches(before[k], decision.target, Some(Villager))
    ensures NightStep(before, Kill(before, k), Targeted(decision, true), select, revise, tieDraw)
  {
    KillAlive(before, k, None);
    KillAlive(before, k, Some(Villager));
    KillAlive(before, k, Some(Vampire));
  }

  class Game {
    const villagerCount: nat
    const vampireCount: nat
    var agents: seq<Agent>
    var round: nat

    /** The roster keeps its size, its role counts and its names. */
    ghost predicate Valid()
      reads this
    {
      WellFormed(agents, villagerCount, vampireCount)
    }

    /** `Game(vampire_count, villager_count)`, with `shuffled` the order `random.shuffle` left the roles in. */
    constructor (vampireCount: nat, villagerCount: nat, shuffled: seq<Role>)
      requires multiset(shuffled) == multiset(RoleList(villagerCount, vampireCount))
      ensures this.vampireCount == vampireCount && this.villagerCount == villagerCount
      ensures agents == Enlist(shuffled) && round == 0
      ensures Valid()
      ensures forall i :: 0 <= i < |agents| ==> agents[i].isAlive
    {
      this.vampireCount := vampireCount;
      this.villagerCount := villagerCount;
      agents := [];
      round := 0;
      new;
      SetupAgents(shuffled);
      assert agents == [] + Enlist(shuffled) == Enlist(shuffled);
      SetupRoster(shuffled, villagerCount, vampireCount);
    }

    /** `setup_agents` (lines 103-106): append `Agent i` with the `i`-th shuffled role, for `i` from 1. */
    method SetupAgents(shuffled: seq<Role>)
      requires multiset(shuffled) == multiset(RoleList(villagerCount, vampireCount))
      modifies this`agents
      ensures agents == old(agents) + Enlist(shuffled)
    {
      var i := 0;
      while i < |shuffled|
        invariant 0 <= i <= |shuffled|
        invariant agents == old(agents) + Enlist(shuffled)[..i]
      {
        agents := agents + [Agent(AgentName(i + 1), shuffled[i], true)];
        i := i + 1;
      }
    }

    /**
     * The ballot loop of `voting_phase` (lines 168-197): each voter in turn
     * casts one vote, which is added to the count.
     */
    static method CollectVotes(candidates: seq<string>, respond: Responder, draws: string -> nat) returns (votes: Counter)
      ensures votes == Tally(Ballots(candidates, candidates, respond, draws))
    {
      votes := Counter([], map[]);
      for i := 0 to |candidates|
        invariant votes == Tally(Ballots(candidates[..i], candidates, respond, draws))
      {
        var voter := candidates[i];
        var turn := RequestVote(voter, candidates, respond, draws(voter));
        BallotsPrefix(candidates, i, candidates, respond, draws);
        TallySnoc(Ballots(candidates[..i], candidates, respond, draws), turn.candidate);
        votes := Bump(votes, turn.candidate);
      }
      assert candidates[..|candidates|] == candidates;
    }

    /**
     * `voting_phase` (lines 165-205): every alive agent votes once, the votes
     * are counted, and the chosen candidate, who is alive, is marked dead;
     * nobody else changes.
     */
    method VotingPhase(respond: Responder, draws: string -> nat, tieDraw: nat) returns (result: DayResult)
      requires Valid()
      modifies this`agents
      ensures Valid() && DayStep(old(agents), agents, result, respond, draws, tieDraw)
    {
      var alive := AliveAgents(agents);
      if alive == [] {
        return NoVoters;
      }
      var candidates := Names(alive);
      var votes := CollectVotes(candidates, respond, draws);
      ghost var ballots := Ballots(candidates, candidates, respond, draws);
      TopNamesOfTally(ballots);
      var chosen := Pick(TopNames(votes), tieDraw);
      assert chosen == DayTarget(candidates, respond, draws, tieDraw);
      DayTargetIsMostVoted(candidates, respond, draws, tieDraw);
      LocateAliveName(agents, chosen);
      var k := Locate(agents, chosen, None).value;
      DayStepKill(agents, k, respond, draws, tieDraw);
      KeptWellFormed(agents, Kill(agents, k), villagerCount, vampireCount);
      agents := Kill(agents, k);
      result := Eliminated(chosen);
    }

    /**
     * `night_phase` (lines 213-269): nothing happens without an alive vampire
     * or an alive villager; otherwise each vampire proposes a villager, the
     * vampires settle on a target, and the target is killed only if it names
     * an alive villager; nobody else changes.
     */
    method NightPhase(select: Selector, revise: Reviser, tieDraw: nat) returns (result: NightResult)
      requires Valid()
      modifies this`agents
      ensures Valid() && NightStep(old(agents), agents, result, select, revise, tieDraw)
    {
      var vampires := AliveVampires(agents);
      if vampires == [] {
        return NoVampires;
      }
      var villagers := AliveVillagers(agents);
      if villagers == [] {
        return NoVillagers;
      }
      var names := Names(vampires);
      var candidateNames := Names(villagers);
      var initial: seq<string> := [];
      for i := 0 to |names|
        invariant |initial| == i
        invariant forall j :: 0 <= j < i ==> initial[j] == select(names[j], candidateNames)
      {
        initial := initial + [select(names[i], candidateNames)];
      }
      assert initial == Proposals(names, candidateNames, select);
      var decision := ReachConsensus(names, initial, revise, tieDraw);
      match Locate(agents, decision.target, Some(Villager)) {
        case None =>
          result := Targeted(decision, false);
        case Some(k) =>
          NightStepKill(agents, k, decision, select, revise, tieDraw);
          KeptWellFormed(agents, Kill(agents, k), villagerCount, vampireCount);
          agents := Kill(agents, k);
          result := Targeted(decision, true);
      }
    }

    /**
     * One pass of the `run_game` loop (lines 304-311): the round counter, the
     * day vote, the night, and the win check on the new state. A round removes
     * at most two agents, and at least one while anyone is alive.
     */
    method PlayRound(respond: Responder, draws: string -> nat, dayDraw: nat, select: Selector, revise: Reviser, nightDraw: nat)
      returns (day: DayResult, night: NightResult, verdict: Verdict, ghost afterDay: seq<Agent>)
      requires Valid()
      modifies this
      ensures Valid() && Kept(old(agents), agents)
      ensures round == old(round) + 1
      ensures DayStep(old(agents), afterDay, day, respond, draws, dayDraw)
      ensures NightStep(afterDay, agents, night, select, revise, nightDraw)
      ensures verdict == CheckWinConditions(agents)
      ensures |AliveAgents(old(agents))| - 2 <= |AliveAgents(agents)| <= |AliveAgents(old(agents))|
      ensures AliveAgents(old(agents)) != [] ==> |AliveAgents(agents)| < |AliveAgents(old(agents))|
      ensures |AliveVampires(old(agents))| - 1 <= |AliveVampires(agents)| <= |AliveVampires(old(agents))|
    {
      round := round + 1;
      day := VotingPhase(respond, draws, dayDraw);
      afterDay := agents;
      night := NightPhase(select, revise, nightDraw);
      KeptTransitive(old(agents), afterDay, agents);
      verdict := CheckWinConditions(agents);
    }
  }
}
