/**
 * The target choice of `Game.night_phase`: the unanimity test over the
 * vampires' proposals, the revision rounds in which every vampire is shown
 * the first other vampire's current proposal, and the frequency tally that
 * decides when the rounds run out.
 */
module Consensus {
  import opened Wrappers
  import opened Counting

  /** `max_rounds = 3`. */
  const MaxRounds: nat := 3

  /** `len(set(choices.values())) == 1`: exactly one distinct proposal. */
  predicate Unanimous(choices: seq<string>) {
    |set c | c in choices| == 1
  }

  /** One distinct proposal means: there is a proposal, and every proposal equals the first. */
  lemma UnanimousMeansAllEqual(choices: seq<string>)
    ensures Unanimous(choices) <==> choices != [] && forall i :: 0 <= i < |choices| ==> choices[i] == choices[0]
  {
    var s := set c | c in choices;
    if choices != [] && forall i :: 0 <= i < |choices| ==> choices[i] == choices[0] {
      assert s == {choices[0]};
    }
    if |s| == 1 {
      assert choices != [] by {
        if choices == [] {
          assert false;
        }
      }
      forall i | 0 <= i < |choices| ensures choices[i] == choices[0] {
        var x, y := choices[0], choices[i];
        assert x in s && y in s;
        assert |s - {x}| == 0;
      }
    }
  }

  /** The position of the first vampire whose name differs from `me`, if any. */
  function FirstOther(names: seq<string>, me: string): (r: Option<nat>)
    ensures r.Some? ==> r.value < |names| && names[r.value] != me
    ensures r.Some? ==> forall i :: 0 <= i < r.value ==> names[i] == me
    ensures r.None? ==> forall i :: 0 <= i < |names| ==> names[i] == me
  {
    if names == [] then None
    else if names[0] != me then Some(0)
    else
      match FirstOther(names[1..], me)
      case None => None
      case Some(j) => Some(j + 1)
  }

  /**
   * The proposal vampire `k` is shown in a revision round (lines 248-249):
   * the current proposal of the first other vampire, or its own when it is
   * the only vampire.
   */
  function PeerChoice(names: seq<string>, choices: seq<string>, k: nat): (shown: string)
    requires |choices| == |names| && k < |names|
    ensures (exists j :: 0 <= j < |names| && names[j] != names[k]) ==>
              exists j :: 0 <= j < |names| && names[j] != names[k] && shown == choices[j]
                && forall i :: 0 <= i < j ==> names[i] == names[k]
    ensures (forall j :: 0 <= j < |names| ==> names[j] == names[k]) ==> shown == choices[k]
  {
    match FirstOther(names, names[k])
    case Some(j) => choices[j]
    case None => choices[k]
  }

  /** With the default two vampires, each is shown the other's proposal. */
  lemma TwoVampiresSeeEachOther(names: seq<string>, choices: seq<string>)
    requires |names| == 2 && |choices| == 2 && names[0] != names[1]
    ensures PeerChoice(names, choices, 0) == choices[1]
    ensures PeerChoice(names, choices, 1) == choices[0]
  {
  }

  /** The revised proposal of a vampire in a round (numbered from 1), given the proposal it was shown. */
  type Reviser = (nat, string, string) -> string

  /** One revision round: every vampire revises at once, each shown a proposal of the round before. */
  function ReviseRound(names: seq<string>, choices: seq<string>, round: nat, revise: Reviser): (next: seq<string>)
    requires |choices| == |names|
    ensures |next| == |names|
  {
    seq(|names|, k requires 0 <= k < |names| => revise(round, names[k], PeerChoice(names, choices, k)))
  }

  /** The inner loop of a revision round (lines 246-254): `new_choices` filled vampire by vampire. */
  method ReviseAll(names: seq<string>, choices: seq<string>, round: nat, revise: Reviser) returns (next: seq<string>)
    requires |choices| == |names|
    ensures next == ReviseRound(names, choices, round, revise)
  {
    ghost var revised := ReviseRound(names, choices, round, revise);
    next := [];
    for k := 0 to |names|
      invariant next == revised[..k]
    {
      var shown := PeerChoice(names, choices, k);
      assert revised[..k + 1] == revised[..k] + [revise(round, names[k], shown)];
      next := next + [revise(round, names[k], shown)];
    }
    assert revised[..|names|] == revised;
  }

  /** The proposals the revision loop ends with and the rounds it ran. */
  datatype Outcome = Outcome(final: seq<string>, rounds: nat)

  /**
   * The revision loop from round `round` on: it stops as soon as the
   * proposals agree or the third round is over, and revises otherwise.
   */
  function Converge(names: seq<string>, choices: seq<string>, revise: Reviser, round: nat): (o: Outcome)
    requires |choices| == |names| && round <= MaxRounds
    ensures round <= o.rounds <= MaxRounds
    ensures |o.final| == |names|
    ensures Unanimous(o.final) || o.rounds == MaxRounds
    ensures Unanimous(choices) ==> o == Outcome(choices, round)
    ensures o.rounds > round ==> !Unanimous(choices)
    decreases MaxRounds - round
  {
    if Unanimous(choices) || round == MaxRounds then Outcome(choices, round)
    else
      Converge(names, ReviseRound(names, choices, round + 1, revise), revise, round + 1)
  }

  /** How the vampires settled on a target: the name, the revision rounds run, and whether they agreed. */
  datatype Decision = Decision(target: string, rounds: nat, unanimous: bool)

  /**
   * Lines 236-264: the unanimous proposal when the vampires agree, at once or
   * after revising; otherwise a tie-break among the most frequent final proposals.
   */
  function Decide(names: seq<string>, initial: seq<string>, revise: Reviser, draw: nat): (d: Decision)
    requires |initial| == |names| && names != []
    ensures d.rounds == Converge(names, initial, revise, 0).rounds <= MaxRounds
    ensures d.unanimous <==> Unanimous(Converge(names, initial, revise, 0).final)
    ensures d.target in Converge(names, initial, revise, 0).final
  {
    var o := Converge(names, initial, revise, 0);
    if Unanimous(o.final) then Decision(o.final[0], o.rounds, true)
    else Decision(Plurality(o.final, draw), o.rounds, false)
  }

  /**
   * Agreeing proposals are taken with no revision round; otherwise at most
   * three rounds run; an agreed target is every vampire's final proposal,
   * and without agreement the target is among the most frequent final
   * proposals, after exactly three rounds.
   */
  lemma DecideChoosesAgreedOrMostFrequent(names: seq<string>, initial: seq<string>, revise: Reviser, draw: nat)
    requires |initial| == |names| && names != []
    ensures var d := Decide(names, initial, revise, draw);
      var final := Converge(names, initial, revise, 0).final;
      && (Unanimous(initial) ==> d == Decision(initial[0], 0, true))
      && d.rounds <= MaxRounds
      && d.rounds == Converge(names, initial, revise, 0).rounds
      && d.target in final
      && (d.unanimous <==> Unanimous(final))
      && (d.unanimous ==> forall i :: 0 <= i < |final| ==> final[i] == d.target)
      && (!d.unanimous ==> d.rounds == MaxRounds)
      && (!d.unanimous ==> forall c :: c in final ==> multiset(final)[c] <= multiset(final)[d.target])
  {
    var o := Converge(names, initial, revise, 0);
    UnanimousMeansAllEqual(initial);
    UnanimousMeansAllEqual(o.final);
    if !Unanimous(o.final) {
      assert o.final != [];
      PluralityIsMostFrequent(o.final, draw);
    }
  }

  /**
   * The consensus part of `night_phase` (lines 236-264): the unanimity test,
   * the `while` loop of revision rounds with its inner loop over the
   * vampires, and the counting fallback.
   */
  method ReachConsensus(names: seq<string>, initial: seq<string>, revise: Reviser, draw: nat) returns (d: Decision)
    requires |initial| == |names| && names != []
    ensures d == Decide(names, initial, revise, draw)
  {
    if Unanimous(initial) {
      return Decision(initial[0], 0, true);
    }
    var round := 0;
    var choices := initial;
    while !Unanimous(choices) && round < MaxRounds
      invariant round <= MaxRounds && |choices| == |names|
      invariant Converge(names, choices, revise, round) == Converge(names, initial, revise, 0)
      decreases MaxRounds - round
    {
      round := round + 1;
      choices := ReviseAll(names, choices, round, revise);
    }
    if Unanimous(choices) {
      d := Decision(choices[0], round, true);
    } else {
      var votes := CountVotes(choices);
      assert choices != [];
      TallyCounts(choices);
      assert choices[0] in votes.order;
      var chosen := Pick(TopNames(votes), draw);
      d := Decision(chosen, round, false);
    }
  }
}
