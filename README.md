# Fantasy football trade calculator: a verified model

The trade calculator is a Streamlit app for ESPN fantasy football leagues.
It reads a league's rosters and free agents plus a rest-of-season (ROS) ranking
table that values every player under six scoring formats. It then:

1. matches every rostered name to a ranking row with a fuzzy scorer, and
   accepts a match only when its score reaches the threshold;
2. fills each team's starting lineup from the league's slot counts: the
   fixed QB, RB, WR, TE and D/ST slots, then FLEX (RB/WR/TE) and SuperFlex;
3. scores the lineup as "Adjusted PPG": the starters' points plus every bench
   player's points times the position's weight, where that weight (the share
   of starting slots the position can fill) is divided by the number of bench
   players at that position, all rounded to hundredths;
4. rebuilds both rosters after a proposed trade and after free-agent adds and
   drops, shows how many players still have to be cut or gained, re-scores my
   side, and says whether I win, lose or break even.

The model keeps the source's data flow and writes it as pure functions over
sequences, with lemmas stating what each stage guarantees.

- `Roster.dfy` holds positions, valued players, roster rows (a rejected
  fuzzy match is an `Unmatched` row), and the filters, slices and sums
  everything else is built from.
- `Ranking.dfy` holds a stable descending sort by value.
- `Lineup.dfy` is the allocator: fixed starters, FLEX, SuperFlex, the
  starter labels, and the bench obtained by `drop_duplicates(keep=False)`.
- `Weighting.dfy` holds the slot-share weights, the bench dilution, the
  team score and rounding.
- `Trade.dfy` holds the trade recomposition, the free-agent moves, the
  headcount signal, the verdict and the whole simulation.
- `Matching.dfy` holds name cleaning with `str.replace`, free-agent name
  extraction with regular expressions, the threshold gate, and the join
  with the ranking table.

The code accepts a rostered match at a score of at least 85 on a 0-100
scale (Trade_Calculator_App.py:154 and :180) and a free-agent match at a
ratio of at least 0.85 (:507). The model takes the threshold as a parameter
and proves the gate at both values.

## Model

| member | source | states |
|---|---|---|
| Roster.Players | Trade_Calculator_App.py:158 | A player is kept exactly when it is a matched row of the roster. Unmatched rows vanish, and no row is added. |
| Roster.OfPosMembers | Trade_Calculator_App.py:203-208 | The players at a position are exactly the roster's players at that position. |
| Roster.OfPosMultiplicity | Trade_Calculator_App.py:203-208 | Filtering by position keeps each player's multiplicity when it plays there, and zero otherwise. |
| Roster.SplitByPos | Trade_Calculator_App.py:203-208 | The six position filters partition the roster as a multiset. |
| Roster.WithNames | Trade_Calculator_App.py:451 | `isin` keeps exactly the rows whose name is listed. |
| Roster.WithoutNames | Trade_Calculator_App.py:538 | `~isin` keeps exactly the rows whose name is not listed. |
| Roster.TakeDrop | Trade_Calculator_App.py:223-233 | The starters and the FLEX-eligible leftovers at a position recompose the ranked position, in order and as a multiset. |
| Roster.SumValuesAppend | Trade_Calculator_App.py:422 | The points total of a concatenation is the sum of the parts' totals. |
| Roster.PlayersAppend | Trade_Calculator_App.py:246 | Stacking tables and then keeping matched rows equals keeping matched rows of each table and stacking them. |
| Ranking.SortDesc | Trade_Calculator_App.py:223 | `sort_values(ascending=False)` returns a permutation of its input with values non-increasing. |
| Ranking.InsertDescending | Trade_Calculator_App.py:223 | Inserting into a descending sequence keeps it descending. |
| Ranking.CutIsRanked | Trade_Calculator_App.py:223-233 | In a sorted table, every row before a cut is worth at least every row after it. |
| Lineup.FixedStartersAreTop | Trade_Calculator_App.py:223-228 | The starters at a position are min(s_p, count_p) players of that position. None is worth less than a leftover, and starters plus leftovers are all the position's players. |
| Lineup.FixedStartersSplit | Trade_Calculator_App.py:223-233 | Gives the exact sizes of the starters and leftovers at a position, and their multiset split. |
| Lineup.FlexStartersAreTopOfPool | Trade_Calculator_App.py:231-235 | FLEX starters are the top min(s_flex, pool) of the RB/WR/TE leftovers. Each is an RB, WR or TE beyond the fixed slots and is labelled FLEX. |
| Lineup.FlexRemainderEmpty | Trade_Calculator_App.py:239 | `starting_flex[s_flex:]` is always empty, because `starting_flex` already has at most s_flex rows. |
| Lineup.SuperFlexTakesLeftoverQBs | Trade_Calculator_App.py:238-240 | SuperFlex starters are the first min(s_sflex, count_QB - s_QB) leftover QBs, in rank order. They are QBs only, never RB/WR/TE. |
| Lineup.StartersEligible | Trade_Calculator_App.py:241 | Every starter is a roster player whose position the slot's label accepts. |
| Lineup.KickersNeverStart | Trade_Calculator_App.py:227-241 | No kicker starts: `starting_ks` is computed but not concatenated. |
| Lineup.StarterCount | Trade_Calculator_App.py:241 | Gives the number of starters per slot kind, which is at most the number of non-kicker starting slots. |
| Lineup.StartersFromRoster | Trade_Calculator_App.py:222-241 | No player starts more often than the roster holds them. |
| Lineup.BenchIsRosterRows | Trade_Calculator_App.py:245-247 | The bench is the roster rows, in roster order, whose key occurs exactly once in the roster and in no starter row. |
| Lineup.BenchMembers | Trade_Calculator_App.py:245-247 | A row is on the bench exactly when it is a roster row, its key is unique in the roster, and no starter holds that key. |
| Lineup.BenchExcludesStartersAndDuplicates | Trade_Calculator_App.py:245-247 | No starter is on the bench. A roster row whose key is shared with another row (two unmatched rows, for one) is not on it. |
| Lineup.StartersAndBenchPartitionRoster | Trade_Calculator_App.py:245-247 | When all keys are distinct, every roster row is either a starter or on the bench, never both. |
| Lineup.KeepUnique | Trade_Calculator_App.py:247 | `keep=False` keeps exactly the rows whose key occurs once. |
| Weighting.RawWeights | Trade_Calculator_App.py:286-292 | With no starting slots, every weight is zero. |
| Weighting.WeightIsEligibleShare | Trade_Calculator_App.py:286-299 | Each weight is the number of starting slots the position may fill (its own slots, FLEX for RB/WR/TE, SuperFlex for QB/RB/WR/TE) over all starting slots. |
| Weighting.EligibleSlots | Trade_Calculator_App.py:294-299 | Gives each position's count of fillable slots, as the six numerators of the source. |
| Weighting.WeightIsShare | Trade_Calculator_App.py:286-299 | Every weight lies between 0 and 1. |
| Weighting.Dilute | Trade_Calculator_App.py:319-347 | The adjusted weight times the bench count gives back the weight, and it is zero when the position has no bench player. |
| Weighting.DilutedAt | Trade_Calculator_App.py:311-352 | A position's adjusted weight times its number of bench players gives back its weight, and the adjusted weight is zero when that position has no bench player. |
| Weighting.PositionTotalIsScaledSum | Trade_Calculator_App.py:355-356 | A position's "Weighted PPG" total is its weight times its bench players' points total. |
| Weighting.BenchContributionByPosition | Trade_Calculator_App.py:355-356 | The "Weighted PPG" sum regroups into six per-position totals. |
| Weighting.BenchIsWeightedAverage | Trade_Calculator_App.py:286-356 | The bench adds, per position, the weight times the bench players' average points (nothing for an empty position). |
| Weighting.ScoreFormula | Trade_Calculator_App.py:422 | The score is the rounded sum of the starters' points and those six weighted averages. Unmatched bench rows add nothing. |
| Weighting.ScaledMean | Trade_Calculator_App.py:319-356 | Diluting a weight over n players and applying it to their total equals the weight times their mean. |
| Weighting.Round2Close | Trade_Calculator_App.py:422 | Rounding to hundredths moves a score by at most half a hundredth. |
| Weighting.Round2Monotone | Trade_Calculator_App.py:422 | Rounding preserves the order of scores. |
| Weighting.Round2Hundredths | Trade_Calculator_App.py:422 | A whole number of hundredths is unchanged by rounding. |
| Weighting.Round2Idempotent | Trade_Calculator_App.py:422 | Rounding twice equals rounding once. |
| Trade.RosterRows | Trade_Calculator_App.py:449-450 | A team's tradeable rows number its starters plus its matched bench rows (the weight merge at line 355 drops unmatched rows). |
| Trade.RosterRowsFromRoster | Trade_Calculator_App.py:449-450 | The tradeable rows hold no player more often than the roster does. With pairwise different (name, value) keys they are exactly the roster's matched rows, as a multiset. |
| Trade.DuplicateRowsLeaveTable | Trade_Calculator_App.py:245-247 | Two copies of one row with no starting slot both leave the tradeable rows, because `keep=False` drops every copy of a repeated key. |
| Trade.NamesWithout | Trade_Calculator_App.py:440-441 | The kept names are exactly the roster names not traded away. |
| Trade.PostTradeMembers | Trade_Calculator_App.py:440-475 | A row of mine stays exactly when its name is not given away or is also received. A partner's row arrives exactly when its name is received. |
| Trade.NoTradeKeepsRoster | Trade_Calculator_App.py:440-459 | With nothing traded, the post-trade roster is the roster itself, rows and order. |
| Trade.FreeAgentMembers | Trade_Calculator_App.py:537-538 | After the moves, my roster holds the post-trade rows and the added free agents, minus every dropped name. |
| Trade.FreeAgentsRanked | Trade_Calculator_App.py:520-537 | Added free agents arrive highest value first. |
| Trade.WithNamesCount | Trade_Calculator_App.py:451-456 | Among rows with distinct names, picking a duplicate-free list of their names selects exactly that many rows. |
| Trade.WithoutNamesCount | Trade_Calculator_App.py:538 | Among rows with distinct names, dropping a duplicate-free list of their names removes exactly that many rows. |
| Trade.Headcount | Trade_Calculator_App.py:537-541 | Under distinct names and choices drawn from the offered lists, the final roster size is the original size plus `players_to_adjust`. So a positive value is exactly how many players remain to be cut. |
| Trade.Judge | Trade_Calculator_App.py:782-787 | The verdict is Even exactly when the scores are equal, Winning exactly when the new one is higher, and Losing exactly when it is lower. |
| Trade.VerdictSound | Trade_Calculator_App.py:782-787 | Judged on rounded scores, Winning means the unrounded score rose and Losing means it fell. Equal unrounded scores are Even. |
| Trade.SimulateVerdict | Trade_Calculator_App.py:422-787 | The full simulation's verdict is consistent with my raw score before and after the trade and free-agent moves, and its imbalance is `players_to_adjust`. |
| Matching.RemoveAllChar | Trade_Calculator_App.py:125-127 | `replace(")", "")` leaves no closing parenthesis. |
| Matching.RemoveAllAbsent | Trade_Calculator_App.py:125-127 | Replacing a pattern that does not occur changes nothing. |
| Matching.CleanWrapped | Trade_Calculator_App.py:125-127 | A cleaned name holds no closing parenthesis. |
| Matching.CleanRoundTrip | Trade_Calculator_App.py:125-127 | Cleaning `prefix + x + ")"` gives back x when x holds no `)` and no prefix. |
| Matching.CleanLabels | Trade_Calculator_App.py:125-127 | `Team(<name>)` and `Player(<name>)` clean back to name. |
| Matching.FindLazy | Trade_Calculator_App.py:484-485 | The lazy `(.*?)m` search finds the first occurrence of m that no newline precedes, or reports none. |
| Matching.ExtractRoundTrip | Trade_Calculator_App.py:482-485 | `extract_player_name` of `Player(<name>, points=<p>)` returns name when the name has no `,`, `)` or newline. |
| Matching.ExtractFailsWithoutMarker | Trade_Calculator_App.py:482-485 | The extraction fails (the source raises on `.group` of None) exactly when every `, points` in the unwrapped text comes after a line break, or there is none. |
| Matching.FreeAgentNames | Trade_Calculator_App.py:498-501 | A successful extraction yields one name per printed free agent. |
| Matching.FreeAgentNamesExtracted | Trade_Calculator_App.py:498-501 | The step succeeds exactly when every printed free agent extracts, and then the i-th name is the i-th extraction, in order. |
| Matching.Gate | Trade_Calculator_App.py:507 | A candidate is accepted exactly when its score reaches the threshold, and then the result is its name; below the threshold nothing is kept. The same gate appears at lines 154 and 180 with 85. |
| Matching.GateMonotone | Trade_Calculator_App.py:154 | Raising the threshold never accepts a candidate that a lower one rejects. |
| Matching.GateBoundary | Trade_Calculator_App.py:154 | A score exactly at 85 (or 0.85) is accepted; 84.99 is rejected. |
| Matching.SimpleBest | Trade_Calculator_App.py:487-495 | With no close match, the result is (None, 0.0). Otherwise it is the first close match. |
| Matching.SimpleGateKeepsCloseMatch | Trade_Calculator_App.py:487-507 | The free-agent gate keeps a match exactly when there is a close match and its ratio, taken with the free agent's name first, reaches 0.85; it then keeps the first close match. A close match can therefore still be rejected, because `get_close_matches` applies its cutoff to the ratio taken the other way round. |
| Matching.RowsNamed | Trade_Calculator_App.py:158 | The rows a merge finds for a name are exactly the ranking rows with that name, valued in the league's format. |
| Matching.JoinOne | Trade_Calculator_App.py:158 | A left merge of a rejected name, or of an accepted name with no table row, yields exactly one unmatched row. An accepted name with table rows yields exactly those rows, valued in the league's format, and no unmatched row. |
| Matching.ValuateComplete | Trade_Calculator_App.py:151-158 | Every ranking row named by an accepted match of some roster name appears, valued in the league's format, among the valued rows. |
| Matching.ValuateMatchedRows | Trade_Calculator_App.py:151-158 | Every matched row is a ranking row, valued in the league's format, that the gate accepted for some roster name. |
| Matching.RejectedIsUnmatched | Trade_Calculator_App.py:154-158 | A name scoring below the threshold becomes a single `Unmatched` row. |
| Matching.ValuateOneRowEach | Trade_Calculator_App.py:151-158 | With one ranking row per name, the valued roster has exactly one row per roster name. |
| Matching.FreeAgentPool | Trade_Calculator_App.py:498-511 | The valued free-agent pool exists exactly when every printed free agent's name can be extracted. |
| Matching.FreeAgentPoolMatched | Trade_Calculator_App.py:498-511 | Every matched free agent in the pool is a ranking row valued in the league's format, named by the first close match of a name extracted from some printed free agent, whose name-first ratio reached 0.85. |

## Left out

- The Streamlit interface is a parameter of the model: widgets, tabs, the
  sidebar, the shown tables and messages. The multiselect choices (given,
  received, adds, drops) and the slot counts are inputs.
- ESPN league retrieval (`espn_api`), the uploaded CSV and caching are
  parameters, not modelled: `fetch_league_data` and `find_best_match`'s cache
  are left out. Rosters arrive as name lists and the ranking table as a sequence.
- The fuzzy scorers (`process.extractOne`, `difflib`'s ratio and
  `get_close_matches`) are opaque functions given to the model. Only the gate
  on their result is modelled. Of `get_close_matches` the model keeps only its
  first element, which `SimpleBest` takes; its 0.85 cutoff is internal to it
  and not modelled. `extractOne` on an empty choice list is not modelled.
- `get_close_matches` and the ratio at line 493 are two separate opaque
  oracles: the cutoff inside `get_close_matches` compares the strings in the
  other order, so the model assumes no relation between the two.
- Floating point is modelled as exact reals throughout.
- Weighting.Round2: rounds half up, while Python's `round` on floats rounds
  half to even on binary values, so a score ending exactly in 5 thousandths
  may round differently.
- Weighting.Dilute: exact division stands for float division.
- Ranking.SortDesc: a stable sort stands for pandas' default quicksort, which
  may order tied values differently. Ties then decide which equal-valued
  player starts or which free agent is listed first.
- The "Team" column and the five points columns of the non-active formats are
  carried through the join (`Matching.Ranked`), but only the active format's
  value is kept in a `Player`.
- The "New Pos" column of the bench rows and post-trade rows is display
  only. Only the starters' slot labels are modelled.
- A rejected match leaves a row with missing name, position and value. Its
  missing name is modelled as a key equal to other missing keys (as pandas
  deduplication compares them). A merge with ranking rows whose own name is
  missing is not modelled.
- Ranking positions other than QB, RB, WR, TE, K and D/ST: the model has
  only these six, and such a row could not be scored differently anyway,
  since the weight merge drops it.
- `s_bench` (bench spots) is read but unused by the source. It is kept in
  `SlotConfig` and affects nothing.
- Trade.Headcount: proved under distinct names across the three tables and
  choices drawn from the offered lists. With duplicate names, `isin` selects
  every row of a repeated name and the count may differ.
- The trade partner's post-trade score is computed (`Simulate`) but the
  source only displays it, so no lemma is stated about it beyond what the
  shared scoring lemmas give.
