/**
 * The day vote of `Game.voting_phase`: parsing and validating a response,
 * the three-attempt retry loop with its random fallback, and the target the
 * counted ballots select.
 */
module Voting {
  import opened Wrappers
  import opened Text
  import opened Counting

  /** The attempt limit of the retry loop (`attempt < 3`). */
  const MaxAttempts: nat := 3

  /** The least number of words an explanation must have. */
  const MinWords: nat := 4

  /** A parsed response `CandidateName: Explanation`. */
  datatype Ballot = Ballot(candidate: string, explanation: string)

  /** The acceptance test applied to the two stripped parts of a response. */
  predicate Acceptable(name: string, explanation: string, voter: string, candidates: seq<string>): (ok: bool)
    ensures ok <==>
      && name in candidates && name != voter
      && WordStarts(explanation, true) >= MinWords
      && !Contains(explanation, "My reasoning") && !Contains(explanation, "Your reasoning")
  {
    WordsCount(explanation);
    && name in candidates
    && name != voter
    && explanation != []
    && |Words(explanation)| >= MinWords
    && !Contains(explanation, "My reasoning")
    && !Contains(explanation, "Your reasoning")
  }

  /** `k` is the index of the first `:` in `t`. */
  predicate FirstColon(t: string, k: int) {
    0 <= k < |t| && t[k] == ':' && ':' !in t[..k]
  }

  /** No character before the first colon is a colon. */
  lemma NoColonBefore(t: string, k: int, j: int)
    requires FirstColon(t, k) && 0 <= j < k
    ensures t[j] != ':'
  {
    assert t[..k][j] == t[j];
  }

  /** A text has at most one first colon. */
  lemma FirstColonUnique(t: string, k1: int, k2: int)
    requires FirstColon(t, k1) && FirstColon(t, k2)
    ensures k1 == k2
  {
    if k1 < k2 {
      NoColonBefore(t, k2, k1);
      assert false;
    } else if k2 < k1 {
      NoColonBefore(t, k1, k2);
      assert false;
    }
  }

  /** What `split(":", 1)` finds: a string has at most one first colon, and `split` splits there. */
  lemma SplitAtFirstColon(t: string)
    ensures ':' !in t ==> forall k :: !FirstColon(t, k)
    ensures ':' in t ==> var parts := SplitOnce(t, ':');
      FirstColon(t, |parts[0]|) && parts[0] == t[..|parts[0]|] && parts[1] == t[|parts[0]| + 1..]
    ensures ':' in t ==> forall k :: FirstColon(t, k) ==> k == |SplitOnce(t, ':')[0]|
  {
    if ':' in t {
      var parts := SplitOnce(t, ':');
      var k0 := |parts[0]|;
      assert t == parts[0] + [':'] + parts[1];
      assert t[..k0] == parts[0];
      assert t[k0 + 1..] == parts[1];
      assert FirstColon(t, k0);
      forall k | FirstColon(t, k) ensures k == k0 {
        FirstColonUnique(t, k, k0);
      }
    }
  }

  /** Lines 176-184: split the stripped response at its first `:`, strip both parts, and apply the acceptance test. */
  function ParseLine(text: string, voter: string, candidates: seq<string>): (r: Option<Ballot>) {
    var parts := SplitOnce(text, ':');
    if |parts| == 2 then
      var name := Strip(parts[0]);
      var explanation := Strip(parts[1]);
      if Acceptable(name, explanation, voter, candidates) then Some(Ballot(name, explanation)) else None
    else None
  }

  /**
   * Lines 175-185 of `voting_phase`: strip the response, split it at its
   * first `:`, strip both parts, and accept the vote only when the name is
   * another candidate and the explanation has at least four words (places
   * where a word begins) and no banned phrase.
   */
  function ParseVote(response: string, voter: string, candidates: seq<string>): (r: Option<Ballot>)
    ensures r.Some? ==> r.value.candidate in candidates && r.value.candidate != voter
    ensures r.Some? ==> r.value.explanation != [] && |Words(r.value.explanation)| >= MinWords
    ensures r.Some? ==> WordStarts(r.value.explanation, true) >= MinWords
    ensures r.Some? ==> !Contains(r.value.explanation, "My reasoning") && !Contains(r.value.explanation, "Your reasoning")
  {
    var r := ParseLine(Strip(response), voter, candidates);
    if r.Some? then WordsCount(r.value.explanation); r else r
  }

  /** A stripped line is accepted exactly when the parts around its first colon pass the test, and then gives those parts. */
  lemma ParseLineSplitsAtFirstColon(t: string, voter: string, candidates: seq<string>)
    ensures ParseLine(t, voter, candidates).Some? <==>
      (exists k :: FirstColon(t, k) && Acceptable(Strip(t[..k]), Strip(t[k + 1..]), voter, candidates))
    ensures forall k :: FirstColon(t, k) && ParseLine(t, voter, candidates).Some? ==>
      ParseLine(t, voter, candidates).value == Ballot(Strip(t[..k]), Strip(t[k + 1..]))
  {
    SplitAtFirstColon(t);
  }

  /**
   * A response is accepted exactly when the stripped text has a colon and the
   * stripped parts before and after its first colon pass the acceptance test;
   * the ballot is then made of those two parts.
   */
  lemma ParseVoteSplitsAtFirstColon(response: string, voter: string, candidates: seq<string>)
    ensures var t := Strip(response);
      ParseVote(response, voter, candidates).Some? <==>
        (exists k :: FirstColon(t, k) && Acceptable(Strip(t[..k]), Strip(t[k + 1..]), voter, candidates))
    ensures var t := Strip(response);
      forall k :: FirstColon(t, k) && ParseVote(response, voter, candidates).Some? ==>
        ParseVote(response, voter, candidates).value == Ballot(Strip(t[..k]), Strip(t[k + 1..]))
  {
    ParseLineSplitsAtFirstColon(Strip(response), voter, candidates);
  }

  /** `valid_candidates = [c for c in candidates if c != agent.name]`. */
  function Others(candidates: seq<string>, voter: string): (r: seq<string>)
    ensures forall c :: c in r <==> c in candidates && c != voter
  {
    if candidates == [] then []
    else (if candidates[0] != voter then [candidates[0]] else []) + Others(candidates[1..], voter)
  }

  /** The vote cast after the attempts run out: `random.choice(valid_candidates) if valid_candidates else agent.name`. */
  function Fallback(candidates: seq<string>, voter: string, draw: nat): (r: string)
    ensures (exists c :: c in candidates && c != voter) ==> r in candidates && r != voter
    ensures (forall c :: c in candidates ==> c == voter) ==> r == voter
  {
    var others := Others(candidates, voter);
    if others != [] then Pick(others, draw) else voter
  }

  /** The response text of a voter at an attempt (numbered from 1): the language model's answer. */
  type Responder = (string, nat) -> string

  /** How one voter's turn ended: the name voted for, the attempts made, and whether a response was accepted. */
  datatype Turn = Turn(candidate: string, attempts: nat, valid: bool)

  /** The parsed replies of one voter, by attempt number. */
  function Replies(voter: string, candidates: seq<string>, respond: Responder): nat -> Option<Ballot> {
    (a: nat) => ParseVote(respond(voter, a), voter, candidates)
  }

  /** The turn from attempt `attempt` on: the first accepted reply, or `fallback` after the last attempt. */
  function TurnFrom(reply: nat -> Option<Ballot>, fallback: string, attempt: nat): (t: Turn)
    requires 1 <= attempt <= MaxAttempts
    ensures attempt <= t.attempts <= MaxAttempts
    ensures forall a :: attempt <= a < t.attempts ==> reply(a).None?
    ensures t.valid ==> reply(t.attempts).Some? && reply(t.attempts).value.candidate == t.candidate
    ensures !t.valid ==> t.attempts == MaxAttempts && t.candidate == fallback && reply(MaxAttempts).None?
    decreases MaxAttempts - attempt
  {
    match reply(attempt)
    case Some(b) => Turn(b.candidate, attempt, true)
    case None =>
      if attempt == MaxAttempts then Turn(fallback, MaxAttempts, false)
      else TurnFrom(reply, fallback, attempt + 1)
  }

  /**
   * One voter's turn: at most three attempts; the vote of the first accepted
   * response, which is never the voter's own name; otherwise, after exactly
   * three rejected attempts, the fallback, which goes to another candidate
   * whenever there is one.
   */
  function CastVote(voter: string, candidates: seq<string>, respond: Responder, draw: nat): (t: Turn)
    ensures 1 <= t.attempts <= MaxAttempts
    ensures t.attempts >= 2 ==> ParseVote(respond(voter, 1), voter, candidates).None?
    ensures t.attempts >= 3 ==> ParseVote(respond(voter, 2), voter, candidates).None?
    ensures t.valid <==> (ParseVote(respond(voter, 1), voter, candidates).Some?
                          || ParseVote(respond(voter, 2), voter, candidates).Some?
                          || ParseVote(respond(voter, 3), voter, candidates).Some?)
    ensures t.valid ==> (ParseVote(respond(voter, t.attempts), voter, candidates).Some? &&
              ParseVote(respond(voter, t.attempts), voter, candidates).value.candidate == t.candidate)
    ensures t.valid ==> t.candidate in candidates && t.candidate != voter
    ensures !t.valid ==> t.attempts == MaxAttempts && t.candidate == Fallback(candidates, voter, draw)
    ensures !t.valid ==> ParseVote(respond(voter, 3), voter, candidates).None?
    ensures voter in candidates ==> t.candidate in candidates
  {
    var reply := Replies(voter, candidates, respond);
    var t := TurnFrom(reply, Fallback(candidates, voter, draw), 1);
    assert reply(t.attempts) == ParseVote(respond(voter, t.attempts), voter, candidates);
    t
  }

  /** The retry loop of `voting_phase` for one voter (lines 169-194). */
  method RequestVote(voter: string, candidates: seq<string>, respond: Responder, draw: nat) returns (turn: Turn)
    ensures turn == CastVote(voter, candidates, respond, draw)
  {
    ghost var reply := Replies(voter, candidates, respond);
    ghost var fallback := Fallback(candidates, voter, draw);
    ghost var spec := TurnFrom(reply, fallback, 1);
    var validVote := false;
    var attempt := 0;
    var candidateVote := "";
    while !validVote && attempt < MaxAttempts
      invariant 0 <= attempt <= MaxAttempts && !validVote
      invariant attempt < MaxAttempts ==> spec == TurnFrom(reply, fallback, attempt + 1)
      invariant attempt == MaxAttempts ==> spec == Turn(fallback, MaxAttempts, false)
      decreases MaxAttempts - attempt
    {
      attempt := attempt + 1;
      var parsed := ParseVote(respond(voter, attempt), voter, candidates);
      assert parsed == reply(attempt);
      if parsed.Some? {
        validVote := true;
        candidateVote := parsed.value.candidate;
        break;
      }
    }
    if !validVote {
      candidateVote := Fallback(candidates, voter, draw);
    }
    turn := Turn(candidateVote, attempt, validVote);
    assert turn == spec;
  }

  /** The names the voters vote for, in voting order; the fallback draw of a voter is `draws(voter)`. */
  function Ballots(voters: seq<string>, candidates: seq<string>, respond: Responder, draws: string -> nat): (ballots: seq<string>)
    ensures |ballots| == |voters|
  {
    if voters == [] then []
    else
      var voter := voters[|voters| - 1];
      Ballots(voters[..|voters| - 1], candidates, respond, draws) + [CastVote(voter, candidates, respond, draws(voter)).candidate]
  }

  /** One more voter adds that voter's vote at the end. */
  lemma BallotsPrefix(voters: seq<string>, i: nat, candidates: seq<string>, respond: Responder, draws: string -> nat)
    requires i < |voters|
    ensures Ballots(voters[..i + 1], candidates, respond, draws) ==
            Ballots(voters[..i], candidates, respond, draws) + [CastVote(voters[i], candidates, respond, draws(voters[i])).candidate]
  {
    assert voters[..i + 1][..i] == voters[..i];
  }

  /** Voters who are candidates vote for candidates. */
  lemma {:induction false} BallotsAmongCandidates(voters: seq<string>, candidates: seq<string>, respond: Responder, draws: string -> nat)
    requires forall v :: v in voters ==> v in candidates
    ensures forall b :: b in Ballots(voters, candidates, respond, draws) ==> b in candidates
  {
    if voters != [] {
      var init, voter := voters[..|voters| - 1], voters[|voters| - 1];
      assert forall v :: v in init ==> v in voters;
      BallotsAmongCandidates(init, candidates, respond, draws);
      var t := CastVote(voter, candidates, respond, draws(voter));
      assert Ballots(voters, candidates, respond, draws) == Ballots(init, candidates, respond, draws) + [t.candidate];
    }
  }

  /** The agent the day vote eliminates: every alive agent votes once, and the tie-break picks among the most voted. */
  function DayTarget(candidates: seq<string>, respond: Responder, draws: string -> nat, tieDraw: nat): (target: string)
    requires candidates != []
    ensures target in candidates
  {
    BallotsAmongCandidates(candidates, candidates, respond, draws);
    Plurality(Ballots(candidates, candidates, respond, draws), tieDraw)
  }

  /**
   * The day vote: one ballot per alive agent, each for a candidate; the
   * counts add up to the number of voters; and the target is a candidate
   * with the most votes.
   */
  lemma DayTargetIsMostVoted(candidates: seq<string>, respond: Responder, draws: string -> nat, tieDraw: nat)
    requires candidates != []
    ensures var ballots := Ballots(candidates, candidates, respond, draws);
      && |ballots| == |candidates|
      && (forall b :: b in ballots ==> b in candidates)
      && Total(Tally(ballots).order, Tally(ballots).counts) == |candidates|
      && DayTarget(candidates, respond, draws, tieDraw) in candidates
      && forall c :: c in ballots ==> multiset(ballots)[c] <= multiset(ballots)[DayTarget(candidates, respond, draws, tieDraw)]
  {
    var ballots := Ballots(candidates, candidates, respond, draws);
    BallotsAmongCandidates(candidates, candidates, respond, draws);
    TallyTotal(ballots);
    PluralityIsMostFrequent(ballots, tieDraw);
  }
}
