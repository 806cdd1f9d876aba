# A verified model of the bracket tournament manager

The bracket application runs an elimination tournament in the browser. A
roster of competitors carries a name, a team, wins and losses. Each round,
the competitors still active (fewer losses than the elimination threshold)
are grouped by their number of losses. Within each group they are paired so
that as few matches as possible set two members of one team against each
other. A lone competitor of an odd-sized group gets a bye. As the
organiser picks winners, the records are updated at once. Finalizing a
round either pairs the next one or finishes the tournament and crowns the
last competitor standing. An optional match then breaks a tie between
second and third place.

This project models both parts of the core, each in the form of the source.

- **The pairing engine** (`logic.js`) is imperative code over arrays.
  - `shuffleArray` becomes `Shuffle.ShuffleArray`, an in-place method on an
    `array`.
  - The greedy pairing loop becomes `Matcher.BuildPairsFromOrder`.
  - The pair-swap improvement (`tryImprovement`) becomes in-place methods on
    an `array<Pairing>`, with its budget loop.
  - The randomized trials of `greedyPairGroup` become `GroupPairing.RunTrials`.
  - The bracket construction and concatenation of `pairCompetitors` becomes
    `Partitioner.PairCompetitors`.
  - Each method is proved equal to a pure specification function. The
    properties are proved about those functions.
- **The round lifecycle** (`main.js`) is the class `Lifecycle.Tournament`.
  - Its fields are the page state: roster, current pairings, the
    started/finished/tiebreak flags, the round number, the threshold, and the
    key the pairings are stored under.
  - Its methods are the event handlers: add and remove a competitor, set the
    threshold, begin, choose and reset a winner, finalize a round, and enter
    the tiebreak.
  - The pure rules these follow are module-level functions with their own
    lemmas. Examples are crediting and debiting records, the stored-key
    comparison, the standings and the tie for second place.
- **The CSV line parser** (`parseCsvLine`) is the loop method
  `Csv.ParseCsvLine`, proved against a recursive scanner.

Modelling choices:

- **Randomness.** The engine's randomness is a stream of choices, a
  `seq<nat>`, passed in and handed back. Its step `Shuffle.Pick(src, i)`
  stands for `Math.floor(rand() * (i + 1))`. It takes `src[0] % (i + 1)`,
  or 0 once the stream is exhausted, so every index the source can draw can
  be drawn. Every property is proved for all streams.
- **Byes.** The `"BYE"` sentinel of the second seat is the constructor
  `Opponent.Bye`.
- **Selections.** An unselected pairing has `selected == ""`. The source's
  `undefined` and `""` are both falsy and are treated alike there.
- **Sorting.** The stable library sort `Array.prototype.sort` with a
  comparator is `Sorting.SortBy`, a stable insertion sort. It is proved to
  give a sorted permutation, and the only one when the order is
  antisymmetric. `Sorting.SortByStable` proves it stable: elements that
  neither strictly precedes (the comparator returns 0) keep their input
  order. The tie order matters for the bye candidate, the bracket order and
  the seats of a pairing.

## Model

| member | source | states |
|---|---|---|
| Shuffle.Pick | logic.js:13 | the drawn index never exceeds `i`, and a pending choice within range is taken as it is |
| Shuffle.ShuffleArray | logic.js:10-16 | the array afterwards is the Fisher–Yates shuffle of its old contents driven by the stream, and a permutation of them |
| Shuffle.FisherYatesPermutes | logic.js:10-16 | the shuffle keeps the length and the multiset of elements |
| Shuffle.ShuffleDownConsumes | logic.js:12-13 | shuffling an n-element array consumes exactly n-1 choices of a long enough stream |
| Shuffle.SwapPermutes | logic.js:14 | swapping two positions permutes the sequence |
| Matcher.FindOtherTeam | logic.js:34 | the index found, if any, holds a competitor of another team |
| Matcher.FindOtherTeamFirst | logic.js:34 | no index is found exactly when everyone shares the team, and every earlier entry shares it |
| Matcher.ForcedIffSameTeam | logic.js:34-35 | a conflict is counted exactly when the head is paired with a team-mate |
| Matcher.ForcedAllSameTeam | logic.js:34-35 | a forced pairing leaves only team-mates of the head behind |
| Matcher.BuildPairsFromOrder | logic.js:28-43 | the pairs and the conflict count are those of the greedy pairing of the order |
| Matcher.GreedyCovers | logic.js:28-43 | the pairs seat every name of the order exactly as often as it occurs |
| Matcher.GreedyLength | logic.js:28-43 | n competitors give ceil(n/2) pairs |
| Matcher.GreedyByeLast | logic.js:39-41 | a bye appears only for an odd order, and then only as the last pair |
| Matcher.GreedyFresh | logic.js:37-40 | every pair is created without a selection and unapplied |
| Matcher.GreedyConflictsCount | logic.js:28-43 | the counted conflicts equal the number of pairs of team-mates |
| Matcher.GreedyConflictOnlyWhenForced | logic.js:32-38 | once one team-mate pair is made, every later pair is made of that same team |
| Matcher.ScoreAtMostSameTeam | logic.js:63-69 | the conflict score never exceeds the number of team-mate pairs |
| Matcher.TeamMapAgrees | logic.js:60-61 | with unique names, the name-to-team map gives every competitor its own team |
| Matcher.EmptyTeamsCountAsConflict | logic.js:34-35 | two team-less competitors count as a conflict for the greedy loop, yet `conflictScore` (logic.js:67) scores their pair 0 |
| Matcher.TotalScoreUpdate | logic.js:63-69 | replacing one pair changes the total score by the difference of the two pair scores |
| Improvement.ImprovingOnFreshRecords | logic.js:76-96 | a move improves exactly when the two new pairs score less than the two old ones |
| Improvement.ScanFrom | logic.js:72-99 | a move found from a position is a legal exchange of two real matches |
| Improvement.ScanFromImproving | logic.js:79-96 | a move found lowers the local score |
| Improvement.ScanFromFirst | logic.js:72-99 | the move found is the first improving one in scan order |
| Improvement.ScanFromNone | logic.js:72-99 | when the scan finds nothing, no improving move lies ahead |
| Improvement.FirstMove | logic.js:71-100 | the move found is legal |
| Improvement.NoMoveIsLocalOptimum | logic.js:71-100 | no move is found exactly when no legal exchange improves the pairs |
| Improvement.StraightFirst | logic.js:80-96 | whenever the crossed exchange improves, the straight one does too |
| Improvement.ScanFromStraight | logic.js:80-96 | the move chosen is always the straight exchange |
| Improvement.TryImprovement | logic.js:71-100 | the array is exchanged by the first improving move, or left unchanged when there is none, and the result says which |
| Improvement.TryPartners | logic.js:74-98 | one row of the scan: the exchange found from position i, or the scan moves on |
| Improvement.Exchange | logic.js:83-95 | the array afterwards is the exchanged sequence |
| Improvement.ExchangeLowersScore | logic.js:79-96 | an improving exchange strictly lowers the total conflict score |
| Improvement.ExchangeKeepsParticipants | logic.js:83-95 | an exchange seats the same names |
| Improvement.ExchangeKeepsByes | logic.js:73-75 | bye pairs are neither moved nor changed |
| Improvement.ExchangeKeepsFlags | logic.js:83-95 | selections and applied flags stay at their positions |
| Improvement.Budget | logic.js:102 | the budget is at most 10 and at most twice the pair count, and 10 from five pairs on |
| Improvement.Improve | logic.js:102-105 | the array afterwards is its old contents improved within the budget |
| Improvement.ImprovedStep | logic.js:103-104 | one budgeted step applies the first move and spends one unit |
| Improvement.ImprovedScore | logic.js:102-105 | improvement never raises the score, and either ends at a local optimum or lowers the score by at least the budget |
| Improvement.ImprovedKeepsParticipants | logic.js:102-105 | improvement seats the same names |
| Improvement.ImprovedKeepsByes | logic.js:102-105 | improvement keeps the length and the positions of the byes |
| Improvement.ImprovedKeepsFresh | logic.js:102-105 | improvement of fresh pairs yields fresh pairs |
| GroupPairing.ByeCandidateHasMostWins | logic.js:22-26 | a bye is set aside exactly for odd groups above one, and goes to a group member with the most wins, the last such member in group order |
| GroupPairing.ByeCandidateIsLast | logic.js:22-26 | the last element of the sort by wins is a member behind which everyone in the group has fewer wins |
| GroupPairing.WinsLeTotalPreorder | logic.js:23 | the ascending-wins comparator is a total preorder |
| GroupPairing.Tries | logic.js:45 | 10 plus 5 trials per competitor, capped at 100 |
| GroupPairing.CountsAt | logic.js:47-55 | the k-th recorded count is the conflict count of the k-th trial |
| GroupPairing.SelectFrom | logic.js:47-55 | the selection keeps the first trial of least conflicts, stopping after the first trial with none |
| GroupPairing.TrialSelection | logic.js:47-55 | at least one trial runs, the kept one is a first minimum, and an early stop keeps the conflict-free trial |
| GroupPairing.TrialLoopSelects | logic.js:47-55 | the trial loop returns the trial and the stream position the selection names |
| GroupPairing.GroupTrialsStep | logic.js:47-55 | one trial: shuffle, pair greedily, keep it when strictly better, stop when conflict-free |
| GroupPairing.GroupTrialsIsTrialLoop | logic.js:45-55 | the concrete trial loop is the generic selection loop |
| GroupPairing.TrialsSelect | logic.js:45-55 | the trials keep the selected trial and stop at the selection's position in the stream |
| GroupPairing.TrialsChoice | logic.js:45-55 | the kept trial is one of the trials run, with no more conflicts than any of them |
| GroupPairing.ChosenOrder | logic.js:48-50 | the kept pairs are the greedy pairing of a permutation of the working group |
| GroupPairing.BuildTeamMap | logic.js:60-61 | the map built is the name-to-team map of the group |
| GroupPairing.OneTrial | logic.js:48-50 | one trial is the greedy pairing of a shuffled copy, and the stream moves on by that shuffle |
| GroupPairing.RunTrials | logic.js:45-55 | the best trial and remaining stream are those of the trial selection |
| GroupPairing.GreedyPairGroup | logic.js:18-111 | the pairs and remaining stream are those of the group pairing function |
| GroupPairing.SetAside | logic.js:25 | removing the candidate by name removes exactly one entry |
| GroupPairing.WorkingParts | logic.js:21-26 | the working group and the bye pairing together hold the group's names |
| GroupPairing.ImprovedGreedy | logic.js:102-105 | improving a greedy pairing keeps its length, the bye position, the names and freshness |
| GroupPairing.KeptPairs | logic.js:57-105 | the group's pairs are the improved trial pairs followed by the bye pairing |
| GroupPairing.GroupCovers | logic.js:18-111 | a group's pairs seat every member exactly once |
| GroupPairing.GroupNoSelfPairs | logic.js:18-111 | nobody is paired against themselves |
| GroupPairing.GroupByes | logic.js:18-111 | an n-member group gives ceil(n/2) pairs, with a bye only in the last pair of an odd group |
| GroupPairing.GroupByeToCandidate | logic.js:107-109 | in an odd group above one, the last pair is the bye of the candidate with most wins |
| GroupPairing.GroupFresh | logic.js:18-111 | the group's pairs carry no selection and are not applied |
| GroupPairing.GroupSingleton | logic.js:39-41 | a lone competitor gets a bye |
| GroupPairing.ImprovedGreedyScore | logic.js:102-105 | after improvement the score is at most the greedy conflict count |
| GroupPairing.BestTrialScore | logic.js:45-105 | the number of trials run is the one the selection rule stops at, and the final score is at most the conflict count of each of them |
| GroupPairing.GroupScore | logic.js:18-111 | the number of trials run is the one the selection rule stops at, and the group's final score is at most the conflict count of each of them |
| GroupPairing.GroupPairsScore | logic.js:102-109 | the bracket's pairings score what the improved kept trial scores, since the appended bye pairing scores nothing |
| Partitioner.Active | logic.js:115 | the active competitors are a sub-roster |
| Partitioner.ActiveMembers | logic.js:115 | a competitor is active exactly when on the roster with fewer losses than the threshold |
| Partitioner.ActiveUnique | logic.js:115 | filtering keeps names unique |
| Partitioner.RankLeTotalPreorder | logic.js:119-122 | the ranking comparator is a total preorder |
| Partitioner.RankedActive | logic.js:116-122 | the ranked roster is a permutation of the active competitors, sorted by the comparator |
| Partitioner.RankedUnique | logic.js:116-122 | ranking keeps names unique |
| Partitioner.GroupsOfBrackets | logic.js:128-132 | bracket k holds the ranked competitors with k losses, in order, and exists exactly when non-empty |
| Partitioner.WithLossesMembers | logic.js:128-132 | bracket k's members are exactly those with k losses |
| Partitioner.BracketsShape | logic.js:134-138 | the lone-leader merge applies exactly when one competitor is unbeaten and the threshold exceeds 2 |
| Partitioner.BracketLosses | logic.js:128-138 | every bracket member has the bracket's loss count, except a merged lone leader in bracket 1 |
| Partitioner.BracketsHoldAll | logic.js:128-146 | the brackets, read in key order, hold the ranked roster |
| Partitioner.BracketOrder | logic.js:140 | the keys are visited in strictly increasing order, each once |
| Partitioner.AscendingKeysMembers | logic.js:140 | the ascending key list holds exactly the keys of the map |
| Partitioner.AscendingKeysIncreasing | logic.js:140 | the ascending key list is strictly increasing |
| Partitioner.KeysAscending | logic.js:140 | the method lists the map's keys in ascending order |
| Partitioner.GroupByLosses | logic.js:128-132 | the map built groups the roster by losses |
| Partitioner.MergeLoneLeader | logic.js:134-138 | the map afterwards has the lone leader moved to the end of bracket 1 |
| Partitioner.PairInOrder | logic.js:140-146 | the pairs are the brackets' pairings concatenated in key order, threading the stream |
| Partitioner.PairCompetitors | logic.js:113-147 | the pairs and remaining stream are those of the round pairing function |
| Partitioner.PairAllCovers | logic.js:113-147 | with unique names, the round seats every active competitor exactly once and nobody else |
| Partitioner.PairAllSeatsOnce | logic.js:113-147 | nobody is seated twice and nobody is paired against themselves |
| Partitioner.EliminatedSitOut | logic.js:115 | an eliminated competitor is not seated |
| Partitioner.PairAllFresh | logic.js:113-147 | a fresh round has no selections and nothing applied |
| Partitioner.PairAllTwo | logic.js:124-126 | two active competitors are paired directly, higher ranked first, with no bye |
| Partitioner.PairAllSameLosses | logic.js:128-146 | every real match is between equal loss counts, except the merged lone leader against a one-loss competitor |
| Partitioner.DistinctLossesAllByes | logic.js:128-146 | with pairwise distinct loss counts, none zero, and other than two active, every pairing is a bye |
| Partitioner.UniqueNamesPermutation | logic.js:116-122 | reordering keeps names unique |
| Standings.StandingLeTotalPreorder | main.js:947-950 | the standings comparator is a total preorder |
| Standings.RankingSorted | main.js:946-951 | the standings are a permutation of the roster, sorted by fewer losses then more wins |
| Standings.SecondThirdTie | main.js:953-963 | a tie is reported exactly when at least three stand and the second and third have equal records, and names them |
| Standings.TieRanks | main.js:953-963 | the tied pair are distinct roster entries, one entry stands ahead of them and none after them stands better |
| Standings.CodeUnitOrder | main.js:1027 | the default string order is a total order |
| Standings.KeysAgree | main.js:1026-1029 | two keys agree exactly when the thresholds agree and the rosters hold the same names, in any order |
| Standings.KeyNames | main.js:1027 | the key lists the roster's names, sorted |
| Lifecycle.ClampThreshold | main.js:38-47 | the threshold lies in 1..10, an in-range value is kept, and NaN or too small gives 1, too large 10 |
| Lifecycle.Decrement | main.js:844-845 | decrementing never goes below zero |
| Lifecycle.CreditedRecords | main.js:825-828 | the winner gains one win, the loser one loss, nothing else changes |
| Lifecycle.DebitedCredited | main.js:843-846 | debiting a credited result restores the roster |
| Lifecycle.ApplyIdempotent | main.js:819-834 | applying a result twice is applying it once |
| Lifecycle.RevertUndoesApply | main.js:819-852 | a revert right after an apply restores roster and pairings |
| Lifecycle.ResetUndoesSelect | main.js:668-709 | choosing a winner and pressing Reset restores roster and pairings |
| Lifecycle.FreshRoundSelections | main.js:478-481 | a fresh round can be finalized at once exactly when it is non-empty and all byes |
| Lifecycle.LastDecidedIndex | main.js:728-737 | the index found is decided and no later match is |
| Lifecycle.LastDecidedIsLast | main.js:728-737 | the recorded result is that of the last decided match, or none |
| Lifecycle.SetPlace | main.js:741-744 | only places change |
| Lifecycle.SetPlaceEffect | main.js:741-744 | with unique names, exactly the named competitor gets the place |
| Lifecycle.SetPlaceKeepsScores | main.js:741-744 | names and records are untouched |
| Lifecycle.TiebreakPlaces | main.js:740-745 | only places change |
| Lifecycle.ChampionPlace | main.js:781-785 | only places change |
| Lifecycle.ChampionIsSoleActive | main.js:781-785 | with one active competitor, exactly that competitor gets place 1 |
| Lifecycle.LastResult | main.js:726-737 | the loop yields the last decided match's winner and loser in a tiebreak, and nothing otherwise |
| Lifecycle.RefreshPairings | main.js:605-617 | a running round outside a tiebreak keeps its stored pairings when the key matches, and otherwise gets fresh pairings and the new key |
| Lifecycle.ApplyStep | main.js:819-829 | the roster and pairings afterwards are those of the apply rule, with its guard reported |
| Lifecycle.RevertStep | main.js:837-847 | the roster and pairings afterwards are those of the revert rule, with its guard reported |
| Lifecycle.CreditRoster | main.js:825-828 | the loop credits the winner and the loser |
| Lifecycle.DebitRoster | main.js:843-846 | the loop debits the winner and the loser, never below zero |
| Lifecycle.Tournament.constructor | main.js:55-69 | a fresh page: empty roster, no pairings, nothing started, round 0, threshold 2 |
| Lifecycle.Tournament.DisplayPairings | main.js:603-617 | the page state after the stored-pairings check, everything else unchanged |
| Lifecycle.Tournament.SetThreshold | main.js:38-51 | the threshold is clamped, and a running round is re-displayed under it |
| Lifecycle.Tournament.AddCompetitor | main.js:179-184 | refused for an empty or taken name, otherwise a 0–0 entry is appended |
| Lifecycle.Tournament.RemoveCompetitor | main.js:187-193 | refused for an empty or unknown name, otherwise that entry is removed and an emptied roster stops the competition |
| Lifecycle.Tournament.ApplySelectionForPair | main.js:819-834 | the apply rule on the state, with the pairings key refreshed when it applies |
| Lifecycle.Tournament.RevertSelectionForPair | main.js:837-852 | the revert rule on the state, with the pairings key refreshed when it applies |
| Lifecycle.Tournament.SelectWinner | main.js:668-676 | the chosen winner is recorded and applied at once |
| Lifecycle.Tournament.ResetSelection | main.js:695-709 | a real match's result is reverted and its selection cleared |
| Lifecycle.Tournament.Begin | main.js:1071-1084 | round 1 starts and is paired |
| Lifecycle.Tournament.FinalizeRound | main.js:719-793 | refused until every real match has a winner; otherwise a tiebreak places 2 and 3 and finishes, several active competitors get the next round, and fewer finish with the sole survivor first |
| Lifecycle.Tournament.CloseTiebreak | main.js:740-764 | places 2 and 3 are set, the pairings cleared and the competition finished |
| Lifecycle.Tournament.CloseRound | main.js:747-792 | the pairings are cleared, then the next round or the finish follows |
| Lifecycle.Tournament.NextRoundOrFinish | main.js:766-792 | more than one active competitor advances the round and pairs it, otherwise the competition finishes with a sole survivor placed first |
| Lifecycle.Tournament.EnterTiebreak | main.js:1116-1131 | entered exactly when second and third tie, with one match between them as the round |
| Csv.TrimStart | main.js:317-323 | every skipped leading character is white space, and the first kept one is not |
| Csv.TrimEnd | main.js:317-323 | every dropped trailing character is white space, and the last kept one is not |
| Csv.Trim | main.js:317-323 | the result is a slice of the input with only white space cut from both ends, and starts and ends with non-white-space |
| Csv.ParseCsvLine | main.js:297-325 | the loop computes the fields of the recursive scanner |
| Csv.FieldCount | main.js:297-325 | a line has one field more than it has commas outside quotes |
| Csv.FieldsTrimmed | main.js:317-323 | every field is trimmed |
| Csv.UnquotedLine | main.js:297-325 | a line without quotes splits at every comma, each part trimmed |
| Csv.EncodedRoundTrip | main.js:297-325 | a row of fields, each quoted with inner quotes doubled and joined by commas, parses back to the trimmed fields |
| Csv.ScanEscaped | main.js:303-311 | a quoted field's escaped content is read back verbatim up to its closing quote |
| Sorting.SortBySorted | logic.js:119-122 | the stable sort yields a sorted sequence for a total preorder |
| Sorting.SortByCanonical | main.js:1027 | under a total order, two sorts agree exactly when the inputs are permutations of each other |
| Sorting.SortBy | logic.js:119-122 | the sort keeps the length and the multiset of elements |
| Sorting.SortByStable | logic.js:119-122 | the sort is stable: for every value, the elements that tie with it keep their input order |
| Sorting.InsertTied | logic.js:119-122 | inserting into a sorted sequence places the new element behind every element it ties with |
| Sorting.SortByLastIsLastTied | logic.js:119-122 | the last element of the sorted result stands in the input at a position behind which nothing ties with it |
| Sorting.TiedWithLast | logic.js:119-122 | the last element of a tie class stands at a position behind which no element of the class stands |
| Records.WithoutNameRemovesOne | main.js:189-191 | with unique names, removing by name removes exactly that entry |
| Records.Find | main.js:189 | the index found is the first entry with the name, and none is found exactly when no entry has it |

## Left out

- Rendering, alerts and the DOM are left out. That includes the status bar, the button enablement beyond the preconditions it implies, and the diagnostics panel.
- Persistence to `localStorage` is left out. The stored pairings are taken to be the in-memory ones, and only the key they are stored under is modelled (`storedKey`). The roster, round number and flags that the page saves and reloads are not modelled.
- The JSON text of the key is modelled as the datatype `PairingsKey`. Equal JSON strings and equal keys correspond.
- The in-place sort of the roster that the table refresh performs (main.js:82-92) is left out. The roster keeps its order between events.
- `Math.random` and floating point are not modelled. An injected stream of choices stands for them.
- The second copy of the engine inside main.js (lines 369-529) is the code of logic.js with `Math.random` built in. It is modelled once, by the logic.js modules.
- The earlier `displayPairings` at main.js:534-601 is shadowed by the one at 603-715 and is left out.
- Administrative table editing, team points (`calcTeamPoints`), sample teams, erasing the roster, resetting scores and saving or loading a roster file are left out. They are outside the tournament rules.
- Lifecycle.Tournament.AddCompetitor: the handlers trim the text fields before calling (main.js:1036-1050). The model takes the name as given. `Csv.Trim` models the trimming itself.
- Lifecycle.Tournament.AddCompetitor: a competitor literally named `"BYE"` is accepted, as in the source (main.js:179-184). The source then compares the second seat with the string `"BYE"`, so a match against that competitor is treated as a bye: it scores no conflict (logic.js:64), tryImprovement skips it (logic.js:73-75), it needs no winner (main.js:480, 730), no winner selector is drawn for it (main.js:647), and apply and revert refuse it (main.js:821, 839). The model keeps the sentinel apart as `Opponent.Bye`, so `Opp("BYE")` is an ordinary match that needs a winner and credits the records.
- Lifecycle.Tournament.constructor: the initial threshold read from the page's input field (main.js:36) is not modelled. The constructor uses its fallback 2.
- Lifecycle.Tournament.Begin: the `competitors.length === 0` guard (main.js:1072) is not modelled. The precondition is that at least two competitors are active, which the button's enablement (main.js:146-150) guarantees, and that makes the guard dead.
- Lifecycle.Tournament.EnterTiebreak: the admin-mode condition of the button (main.js:969) is not modelled, because admin mode is left out.
- `best ? best.pairs.slice() : []` (logic.js:57): the empty alternative cannot be reached, since at least ten trials run. The model keeps the trial found.
- Characters are Unicode scalar values, not UTF-16 code units. The string order of the key and trimming differ from the source only on characters outside the Basic Multilingual Plane.

## Notes

- **Teamless competitors.** The greedy loop treats two competitors whose team is empty as team-mates (logic.js:34-35). The conflict score treats a missing team as no conflict (logic.js:67). Lemma `Matcher.EmptyTeamsCountAsConflict` shows both on one pair. The model follows the code on both sides.
- **The crossed exchange is never taken.** `tryImprovement` tries a straight exchange (logic.js:80-87) and then a crossed one (logic.js:89-96). Lemma `Improvement.StraightFirst` shows that whenever the crossed exchange improves, so does the straight one. `Improvement.ScanFromStraight` concludes that the crossed branch never fires. It is modelled all the same.
- **A round of byes alone.** Take at least three active competitors with pairwise distinct loss counts and nobody unbeaten, for example losses 1, 2 and 3 under threshold 4. `Partitioner.DistinctLossesAllByes` shows that every pairing of the round is then a bye. `Lifecycle.FreshRoundSelections` shows that such a round can be finalized at once. Finalizing changes no record, so the next round is paired the same way and the competition does not progress.
