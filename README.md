# Villagers and vampires: a verified model of the game orchestration

This Dafny project models the orchestration core of `game.py`, a
villagers-versus-vampires game in which every player is a language-model
agent. The model covers these parts of the `Game` object:

- it builds the roster `Agent 1` .. `Agent n` from a shuffled role list;
- it filters the alive agents, villagers and vampires;
- it runs the day vote, with response parsing and validation, the
  three-attempt retry, the random fallback, the tally, the tie-break and the
  elimination;
- it runs the night, with unanimity, at most three revision rounds, a
  frequency fallback and a villager-only kill;
- it checks the win conditions and plays one round of the game loop.

Every language-model answer and every random draw is an input to the model:

- `respond(voter, attempt)` is the text of a vote response.
- `select(vampire, villagerNames)` is a vampire's initial proposal.
- `revise(round, vampire, shownProposal)` is a revised proposal.
- `random.shuffle` is an input permutation (`shuffled`, whose multiset of
  roles must equal the configured one).
- `random.choice(xs)` is `xs[draw % |xs|]` for an input `draw`.
  `Counting.PickReaches` shows that every element can be drawn.

Modules, one per file:

- `Text` (`text.dfy`): Python's `strip`, `split(":", 1)`, `split()`, the
  substring test `in`, and `str(i)`.
- `Roster` (`roster.dfy`): agents, set-up, the alive filters, looking an
  agent up by name, and marking it dead.
- `Counting` (`counting.dfy`): the `votes` dictionary in insertion order,
  its maximum, the tied names and the tie-break.
- `Voting` (`voting.dfy`): one vote response, one voter's turn, and the
  ballots of a day.
- `Consensus` (`consensus.dfy`): the vampires' target choice.
- `Village` (`village.dfy`): the `Game` class, whose `agents` field the day
  and the night update in place, and the win check.
- `Wrappers` (`wrappers.dfy`): `Option`.

The win check follows the code, not its docstring. Line 286 says that the
vampires win when they are "equal or more". Line 293 tests
`vampires_alive > villagers_alive`, so equal numbers keep the game going.
`Village.CheckWinConditions` states this.

## Model

| member | source | states |
|---|---|---|
| Text.Strip | game.py:175-179 | the result is the input with leading and trailing whitespace (`str.isspace`) removed; it neither starts nor ends with whitespace |
| Text.SplitOnce | game.py:176 | no separator gives the whole text as one part; otherwise two parts, the first free of the separator, which joined by it give back the text |
| Text.Words | game.py:183 | every word of `split()` is a non-empty run of non-whitespace |
| Text.WordsCount | game.py:183 | `split()` returns one word for each place where a word begins (a non-whitespace character at the start or after whitespace), so `len(split())` is fixed by the text |
| Text.ScanBetweenWords | game.py:183 | `split()` equals a character-by-character scan (`Text.Scan`) that extends the current word at each non-whitespace character and closes it at whitespace or the end, so every word is a maximal run of non-whitespace |
| Text.ScanInWord | game.py:183 | scanning in the middle of a word finishes that word with the run of non-whitespace that follows, then splits the rest as `split()` does |
| Text.WordsCoverText | game.py:183 | the words of `split()` laid end to end are exactly the non-whitespace characters of the text |
| Text.Contains | game.py:184 | `pat in s` holds exactly when `pat` occurs in `s` at some index |
| Text.Decimal | game.py:106 | `str(i)` is a non-empty string of decimal digits, starting with `0` only for `0`; `DecimalRoundTrip` reads it back as `i` |
| Text.DecimalRoundTrip | game.py:106 | reading back `str(i)` gives `i` |
| Text.DecimalUnique | game.py:106 | any digit string without a leading zero that denotes `i` is `str(i)`, so the names `Agent 1`..`Agent n` are fixed character for character |
| Roster.AgentName | game.py:106 | `f"Agent {i}"`; `AgentNameInjective` shows different numbers give different names |
| Roster.AgentNameInjective | game.py:106 | `Agent i` and `Agent j` are the same name only when `i == j` |
| Roster.RoleList | game.py:103 | the unshuffled role list has `villager_count + vampire_count` entries with exactly those numbers of each role |
| Roster.Enlist | game.py:105-106 | one agent per shuffled role; `SetupRoster` shows it is the well-formed, all-alive roster with those roles in that order |
| Roster.SetupRoster | game.py:103-106 | for any permutation of the role list the roster is well formed: size, role counts, agent `i` named `Agent i`, roles in shuffled order, all alive |
| Roster.NamesUnique | game.py:105-106 | no two agents of a well-formed roster share a name |
| Roster.Names | game.py:165 | `[agent.name for agent in ...]`: one name per agent, in the same order |
| Roster.AliveDistinctNames | game.py:125-133 | filtering a list of agents without repeated names leaves none repeated |
| Roster.AliveNamesDistinct | game.py:165 | the candidate lists built from a well-formed roster's filters (lines 165 and 229) never repeat a name |
| Roster.Alive | game.py:126-133 | a filter keeps exactly the alive agents (of the role, when given) and is no longer than the roster |
| Roster.AliveAgents | game.py:125-126 | `get_alive_agents`: the `Alive` filter with no role, so exactly the alive agents, in roster order |
| Roster.AliveVillagers | game.py:128-129 | `get_alive_villagers`: the `Alive` filter for villagers, so exactly the alive villagers, in roster order |
| Roster.AliveVampires | game.py:131-132 | `get_alive_vampires`: the `Alive` filter for vampires, so exactly the alive vampires, in roster order |
| Roster.AliveAppend | game.py:126-133 | filtering keeps roster order: the filter of a concatenation is the concatenation of the filters |
| Roster.AlivePartition | game.py:126-133 | an alive agent is an alive villager or an alive vampire and never both, so the two counts add up to the number alive |
| Roster.Locate | game.py:203 | `next(...)` finds the first agent that is alive, has the name and, when given, the role; `None` means there is none |
| Roster.LocateAliveName | game.py:203-204 | the name of any alive agent is always found among the alive agents |
| Roster.Kill | game.py:205 | `target_agent.is_alive = False` on one roster entry, keeping the roster's length; `KillAlive` states what it changes |
| Roster.KillAlive | game.py:204-205 | marking agent `k` dead changes only agent `k`; each filter it passed loses exactly one agent and the others keep their size |
| Roster.KeptWellFormed | game.py:205 | marking agents dead keeps the roster well formed |
| Counting.Bump | game.py:196 | `votes[c] = votes.get(c, 0) + 1`: the count of `c` rises by one from 0 or its old value, every other key keeps its count, and the dictionary stays well formed |
| Counting.Tally | game.py:196 | the dictionary after counting a list in order is well formed, each key once; `TallyCounts` gives its contents and `TallyOrder` its insertion order |
| Counting.TallyCounts | game.py:196 | the dictionary lists each key once, has a key for exactly the names voted, and counts each name's occurrences |
| Counting.TallyTotal | game.py:196 | the counts add up to the number of ballots |
| Counting.TallyOrder | game.py:196-200 | the keys are in insertion order, the order `votes.items()` visits at line 200: of any two keys, the earlier one occurs among the ballots before the later one first does |
| Counting.MaxCount | game.py:199 | `max(votes.values())` is some key's count and no key's count exceeds it |
| Counting.Leaders | game.py:200 | the tied list holds exactly the keys whose count equals the maximum |
| Counting.TopNames | game.py:199-200 | the tied list of a non-empty dictionary is non-empty and holds only its keys; `TopNamesOfTally` characterizes it |
| Counting.Pick | game.py:201 | `random.choice` returns an element of the list |
| Counting.PickReaches | game.py:201 | every element of the list is the outcome of some draw |
| Counting.TopNamesOfTally | game.py:199-200 | the names tied at the maximum are exactly the names that occur at least as often as any other |
| Counting.Plurality | game.py:199-201 | the tie-break over the tally of a non-empty list returns one of its elements; `PluralityIsMostFrequent` shows it is a most frequent one |
| Counting.PluralityIsMostFrequent | game.py:199-201 | the tie-break picks a most frequent name, and each most frequent name is picked by some draw |
| Counting.CountVotes | game.py:259-261 | the counting loop builds exactly the dictionary of the proposals |
| Voting.FirstColonUnique | game.py:176 | a text has at most one first `:` |
| Voting.SplitAtFirstColon | game.py:176 | a text without `:` has no first colon; otherwise `split(":", 1)` cuts it at its first `:`, the only one there is |
| Voting.Acceptable | game.py:182-184 | the test accepts exactly when the name is a candidate other than the voter, at least four words begin in the explanation, and neither forbidden phrase occurs in it |
| Voting.ParseLine | game.py:176-184 | the test applied after `strip()`; `ParseLineSplitsAtFirstColon` states when it accepts and what it returns |
| Voting.ParseVote | game.py:175-184 | an accepted vote names a candidate other than the voter, with a non-empty explanation that has at least 4 words (counted both by `split()` and as places where a word begins) and contains neither banned phrase |
| Voting.ParseLineSplitsAtFirstColon | game.py:176-184 | a stripped line is accepted if and only if the stripped parts around its first `:` pass every test, and then the ballot is those two parts |
| Voting.ParseVoteSplitsAtFirstColon | game.py:175-185 | a response is accepted if and only if the stripped parts around the first `:` of the stripped text pass every test, and then the ballot is those two parts |
| Voting.Others | game.py:192 | the other candidates are exactly the candidates that are not the voter |
| Voting.Fallback | game.py:192-193 | the fallback vote goes to another candidate whenever one exists, and to the voter when none does |
| Voting.TurnFrom | game.py:172-186 | the turn stops at the first accepted reply and takes its name; after three rejected replies it takes the fallback |
| Voting.CastVote | game.py:169-194 | one to three attempts; valid exactly when one of the three responses is accepted, and then every earlier one was rejected and the name is that of the accepted one (never the voter, always a candidate); otherwise three rejections and the fallback |
| Voting.RequestVote | game.py:169-194 | the retry loop ends with exactly the turn `CastVote` describes |
| Voting.Ballots | game.py:168-196 | one vote per voter, in voting order, each voter's `CastVote` name; `BallotsAmongCandidates` bounds them |
| Voting.BallotsAmongCandidates | game.py:168-196 | voters who are candidates vote only for candidates |
| Voting.DayTarget | game.py:196-201 | the agent the day vote chooses is one of the candidates; `DayTargetIsMostVoted` shows it is a most voted one |
| Voting.DayTargetIsMostVoted | game.py:196-201 | one ballot per alive agent, all for candidates, counts adding up to the number of voters, and a target that is a most voted candidate |
| Consensus.Unanimous | game.py:244 | `len(set(choices)) == 1`, used at lines 236, 244 and 255; `UnanimousMeansAllEqual` says what it means |
| Consensus.UnanimousMeansAllEqual | game.py:236 | one distinct proposal holds if and only if there are proposals and all equal the first |
| Consensus.FirstOther | game.py:248 | finds the first vampire whose name differs from the given one; `None` when all share it |
| Consensus.PeerChoice | game.py:248-249 | a vampire is shown the current proposal of the first other vampire, or its own when it is alone |
| Consensus.TwoVampiresSeeEachOther | game.py:248-249 | with two vampires, each is shown the other's proposal |
| Consensus.ReviseRound | game.py:246-254 | one revision round gives one new proposal per vampire (the contents are stated under Left out) |
| Consensus.ReviseAll | game.py:246-254 | the inner loop gives every vampire its revision of the proposal it is shown, in roster order |
| Consensus.Converge | game.py:241-254 | the revision loop runs at most three rounds, never revises agreeing proposals, and ends in agreement or after the third round |
| Consensus.Decide | game.py:236-265 | the target is one of the final proposals, the decision records the rounds the revision loop ran (at most three), and it is unanimous exactly when the final proposals agree |
| Consensus.DecideChoosesAgreedOrMostFrequent | game.py:236-265 | agreeing initial proposals are taken with no revision; the target is always a final proposal; without agreement, three rounds ran and the target is among the most frequent final proposals |
| Consensus.ReachConsensus | game.py:236-265 | the unanimity test, the revision loop with its inner loop over the vampires, and the counting fallback give exactly the decision `Decide` describes |
| Village.CheckWinConditions | game.py:288-296 | villagers win exactly when no vampire is alive; vampires win exactly when they strictly outnumber the alive villagers; play goes on exactly when `0 < vampires <= villagers` |
| Village.Proposals | game.py:230-234 | `initial_choices`: one proposal per alive vampire, in roster order, each that vampire's own `select` answer given the alive villagers' names |
| Village.ContinueHasVoters | game.py:288-296 | while the game goes on someone is alive, so the next day vote has voters |
| Village.Game.constructor | game.py:91-97 | a new game holds the configured counts, round 0, and the well-formed roster of the shuffled roles, every agent alive |
| Village.Game.SetupAgents | game.py:103-106 | appends `Agent i` with the `i`-th shuffled role for each `i` from 1 |
| Village.Game.CollectVotes | game.py:168-197 | the ballot loop builds the dictionary of the day's ballots |
| Village.Game.VotingPhase | game.py:165-205 | without voters nothing changes; otherwise exactly one alive agent, the day target, is marked dead, the rest of the roster is unchanged, the alive villagers and vampires each lose at most one, and the roster stays well formed |
| Village.Game.NightPhase | game.py:213-269 | no change without an alive vampire or villager; otherwise the decision is `Decide` on the vampires' proposals, and the kill happens only to an alive villager of that name, leaving the vampires' number unchanged |
| Village.DayStepKill | game.py:196-205 | eliminating the alive agent named by the day target loses exactly one alive agent and at most one alive villager or vampire |
| Village.NightStepKill | game.py:267-269 | killing the alive villager named by the decision loses one alive agent and one alive villager and no vampire |
| Village.Game.PlayRound | game.py:304-311 | a round bumps the counter; the day takes the roster from its old state to `afterDay` exactly as `VotingPhase` does, and the night takes `afterDay` to the new state exactly as `NightPhase` does; so at most one death per phase, the day death is the day target, the night death an alive villager of the decided name, at most two deaths in all and at least one while anyone is alive, at most one vampire lost; the roster stays well formed; the verdict is the win check of the new state |

## Left out

- Language-model plumbing. The prompts and calls in `Agent.speak`, `select_candidate` and `revise_candidate` (lines 26-89) are foreign library calls. Their answers are inputs.
- The quota retry loop `safe_invoke` (lines 16-24). It is I/O and need not terminate.
- The secret-chat messages of the vampires (lines 219-222). They are printed and affect no state.
- The `morning_chat` and `defense_phase` phases (lines 135-155). They only produce printed text.
- All printing, `time.sleep` and the colour assignment (lines 107-124, 272-280). They are presentation only.
- The statistics of `random.shuffle` and `random.choice`. Only the chosen permutation or index, as an input, is modelled.
- The type of a revised proposal. Line 250 stores the raw response object of `revise_candidate`, while line 233 takes `.content` of `select_candidate`'s. The model treats every proposal as the name string, as `.content` gives it. As written, after a revision round `set(...)` at lines 244 and 255 is taken over message objects: if they are unhashable that is a `TypeError`, and even if they hash, no object equals a villager name at line 267, so a night that needed a revision kills nobody. This is a reading of the code; none of it was executed.
- The `run_game` loop (lines 303-313). It is modelled as the one-round step `Village.Game.PlayRound`. Two facts together imply that the loop ends within as many rounds as there are agents, but no lemma is stated over the loop itself:
  - a continuing round removes an agent (`PlayRound` with `ContinueHasVoters`);
  - the alive count only falls.
- An empty day vote. With nobody alive, `max(votes.values())` at line 199 raises `ValueError`. The model returns `NoVoters` and changes nothing. After the first round the win check ends the game before this can happen; a game built with no agents (`Game(0, 0)`, which lines 92-97 accept) reaches line 199 in its first round, since `run_game` calls `voting_phase` (line 308) before the first `check_win_conditions` (line 311), and there the code raises while the model does not.
- The constructor's defaults and negative counts. `Game.__init__` defaults to `vampire_count=2, villager_count=6` (line 92); the model's constructor takes both counts explicitly, as the only call (line 317) passes them. Its counts are `nat`: Python would accept a negative count, which `['vampire'] * -1 == []` at line 103 turns into none of that role, and the model does not cover that call.
- The dictionary keys of the night. `initial_choices` and `consensus_choices` are keyed by vampire name. The model keeps the proposals as a sequence in roster order, which is the same thing because names are unique (`Roster.NamesUnique`).
- The prompt arguments. `respond` and `revise` are not passed the candidate list string; within one phase that list is fixed.
- `Agent` objects. An agent is a value `(name, role, isAlive)` held in `Game.agents`. Aliasing between the lists `get_alive_*` returns and the roster is not modelled: marking dead goes through the roster index that `next(...)` would reach.
- Consensus.ReviseRound: its contract states only the length of the new proposals. Their contents are its definition, each vampire's revision of the proposal `PeerChoice` shows it.
