# Hockey team balancer — a verified model

This project models the team-making core of `BendoWithMasterApp.py`, a
Streamlit script that turns a weekly roster sheet into two balanced hockey
teams (Red and White), a list of cut players, a birthday greeting and the
e-mail recipients of the line-up message. The model covers:

- **Roster** — the player record, the availability filter, the rank order
  (regulars before spares, then higher score first) and the position quota
  (12 forwards / 8 defence, growing to 18 / 12 with more players).
- **Balancer** — the three conversion passes between the defence and forward
  pools (critical defence fill to 6, forward fill, defence fill), each taking
  the first players of the source pool whose second choice is the position.
- **Rivals** — the fixed rival pairs: both players are looked up by a cleaned
  name key, pinned to opposite teams with the higher scorer alternating
  between the teams from one separated pair to the next, or put back into
  the pool of their first choice when only one is found.
- **Draft** — the snake draft (picks 0 and 3 of every block of four to team A,
  1 and 2 to team B).
- **Lineup** — the composer: re-rank the pools, keep as many as the targets
  need after the pinned rivals, draft them, add the pinned rivals, sort each
  team by position then name; the team score and the unused top-N score.
- **Birthday** — the week window (Monday to Sunday, looking ahead from a
  Sunday), the birthday moved to this, last and next year with the leap-day
  fallback to 1 March, the distinct celebrants and the greeting sentence.
- **Mail** — the distinct non-blank addresses in first-seen order and the
  BCC line.
- **Text** — `clean_name_key` and the case-insensitive column lookup.
- **Pipeline** — one run of the script from the availability filter to the
  recipients, with the empty-pool error.

Randomness and the clock are inputs: the shuffle is a sequence required to
be a permutation of the available players, and "today" is a date parameter.

Behaviours of the code that the model keeps as written:

- The forward-fill and defence-fill passes have no surplus guard in the code;
  they can draw the defence below six or the forwards below their target
  (`Balancer.DefenceFillHasNoFloor` shows a defence pool emptied).
- A rival found alone is put back into the pool of their first choice, not
  the pool they were taken from; a player the balancer had converted
  therefore changes pool.
- `extract` drops every row with the looked-up name key from the pool holding
  the first match (defence first) and returns only that first one; same-key
  players in that pool disappear, while same-key players in the other pool
  stay and can still be drafted, even onto the other rival's team. Exact
  conservation of players holds only when name keys are unique
  (`Rivals.UniqueKeys`).
- Players whose first choice is neither `D` nor `F` never enter a pool and are
  neither drafted nor cut (`Pipeline.EligibleCount`).
- Pinned rivals take their raw first choice as position.
- The script never calls `get_top_n_score`; it is modelled on its own.
- The pools are sorted only before the draft, not after every change.

## Model

| member | source | states |
|---|---|---|
| Text.CleanNameKey | BendoWithMasterApp.py:49-51 | a missing name gives the empty key; a key has no space, no upper-case letter and no surrounding whitespace |
| Text.RemoveSpaces | BendoWithMasterApp.py:51 | the result holds no space and exactly the other characters of the input |
| Text.RemoveSpacesAppend | BendoWithMasterApp.py:51 | removing spaces works piece by piece, so every other character keeps its place and order |
| Text.CleanNameKeyOfName | BendoWithMasterApp.py:49-51 | for a name whose only blanks are spaces, the key is the lower-cased name with every space removed |
| Text.CleanNameKeyDistinguishes | BendoWithMasterApp.py:49-51 | names whose lower-cased, space-free forms differ get different keys |
| Text.CleanNameKeyTwoWords | BendoWithMasterApp.py:49-51 | a first and a last name without blanks, joined by a space, have the two words lower-cased and run together as key |
| Text.CleanNameKeyLeadingSpace | BendoWithMasterApp.py:49-51 | a leading space does not change the key |
| Text.CleanNameKeyExample | BendoWithMasterApp.py:49-51 | " Mike Tonietto" has the key "miketonietto" |
| Text.CleanNameKeyIdempotent | BendoWithMasterApp.py:49-51 | cleaning a key again leaves it unchanged |
| Text.CleanNameKeyIgnoresCase | BendoWithMasterApp.py:49-51 | names equal after lower-casing and removing spaces have the same key |
| Text.FindColumn | BendoWithMasterApp.py:53-58 | no column is found exactly when no stripped, lower-cased column name is among the lower-cased targets; otherwise the result is the first column, in sheet order, that matches |
| Seqs.Distinct | BendoWithMasterApp.py:334 | the unique values hold exactly the values of the input, each once |
| Seqs.DistinctStep | BendoWithMasterApp.py:85-86 | one more element joins the distinct elements exactly when it is not already among them |
| Seqs.DistinctFirstSeenOrder | BendoWithMasterApp.py:334 | unique values keep the order in which they first appear |
| Roster.Available | BendoWithMasterApp.py:195 | a row is kept exactly when its availability starts with `Y`; nothing is added |
| Roster.StatusRank | BendoWithMasterApp.py:220 | the status rank is 0 or 1 |
| Roster.StatusRankRegular | BendoWithMasterApp.py:220 | the rank is 0 exactly when the status is a single `r` or `R` with only whitespace around it, and 1 otherwise |
| Roster.StatusRankExamples | BendoWithMasterApp.py:220 | " r " ranks 0, "S" and the empty status rank 1 |
| Roster.RankLeIsPreorder | BendoWithMasterApp.py:221 | the rank order (status rank ascending, score descending) is total and transitive |
| Roster.Ranked | BendoWithMasterApp.py:221 | the ranked pool is sorted by rank and is a permutation of its input |
| Roster.RankedRegularsFirst | BendoWithMasterApp.py:220-221 | in a ranked pool every regular comes before every spare, and within one status a higher score comes first |
| Roster.PoolOf | BendoWithMasterApp.py:223-224 | a position pool holds exactly the ranked players with that first choice, still in rank order |
| Roster.Quota | BendoWithMasterApp.py:201-207 | up to 20 players gives 12/8; targets stay within 12..18 and 8..12; their sum is the player count clamped to 20..30; defence grows only once forwards reach 18 |
| Roster.QuotaCharacterised | BendoWithMasterApp.py:201-207 | any pair of targets meeting those bounds is the quota: the bounds determine it |
| Roster.QuotaExamples | BendoWithMasterApp.py:201-207 | 18 and 20 players give 12/8, 22 give 14/8, 26 give 18/8, 30 and 40 give 18/12 |
| Balancer.Pass | BendoWithMasterApp.py:229-231 | the result is the pass `Split`: the moved players are the first `needed` candidates with that second choice, and together with the rest they are the source pool |
| Balancer.SplitSnoc | BendoWithMasterApp.py:229-231 | one more player at the end of the pool is moved when a candidate and the need is unmet, otherwise kept at the end |
| Balancer.SplitKeepsOrder | BendoWithMasterApp.py:229-231 | a pass walks the pool up to some point: the moved players are that prefix's candidates, the rest are its other players followed by the untouched remainder, in pool order; a pass that moves fewer than `needed` walked the whole pool |
| Balancer.SplitMovesFirstCandidates | BendoWithMasterApp.py:229 | a pass moves exactly the head of the candidate list, as far as it reaches |
| Balancer.SplitConserves | BendoWithMasterApp.py:229-231 | moved and remaining players together are the source pool |
| Balancer.SplitWithoutCandidates | BendoWithMasterApp.py:229-231 | with no candidate nothing moves and the source pool is unchanged |
| Balancer.SplitAllCandidates | BendoWithMasterApp.py:229-231 | when every player is a candidate and the need covers them all, the whole pool moves |
| Balancer.NoCandidates | BendoWithMasterApp.py:229 | a pool where nobody has that second choice yields no candidate |
| Balancer.Split | BendoWithMasterApp.py:229-231 | a pass moves at most `needed` players, all from the pool and with the matching second choice, and keeps every other player in the pool |
| Balancer.Transfer | BendoWithMasterApp.py:227-231 | a guarded pass appends the moved players to the destination, never fills it past the target, and changes nothing when the destination already has its target |
| Balancer.BalanceSpec | BendoWithMasterApp.py:226-246 | the three passes keep the number of pooled players and move at most 6, the forward target and the defence target players |
| Balancer.RunTransfer | BendoWithMasterApp.py:227-231 | a pass runs only when the destination is below its target and then asks for the shortfall |
| Balancer.TransferConserves | BendoWithMasterApp.py:227-231 | a pass keeps the union of the two pools and moves only players with the matching second choice |
| Balancer.CriticalFill | BendoWithMasterApp.py:227-231 | below six defenders, the defence grows to six or by every candidate available, taking the first candidates |
| Balancer.Balance | BendoWithMasterApp.py:226-246 | the three passes in order; the pools keep every player; players moved to defence have second choice D, those moved to forward have second choice F |
| Balancer.BalanceConserves | BendoWithMasterApp.py:226-246 | the same conservation and second-choice facts for the specification of the three passes |
| Balancer.TransferNothing | BendoWithMasterApp.py:227-231 | a pass over a pool with no candidate changes nothing |
| Balancer.TransferAll | BendoWithMasterApp.py:227-231 | a pass into an empty pool that needs every player of a pool of candidates moves them all, in order |
| Balancer.DefenceFillHasNoFloor | BendoWithMasterApp.py:233-246 | the forward fill has no floor: a defence of 6 to 12 players all with second choice F and no forwards is moved entirely to the forwards |
| Rivals.Extract | BendoWithMasterApp.py:250-256 | nothing is found exactly when no pooled player has the key, and then the pools are unchanged; otherwise the first match of the defence pool, else of the forward pool, is returned and every player with that key leaves that pool |
| Rivals.ExtractShrinks | BendoWithMasterApp.py:250-256 | the remaining pools and the returned player are part of the pools extraction started from |
| Rivals.ExtractExact | BendoWithMasterApp.py:250-256 | with unique name keys, extraction removes exactly the player it returns |
| Rivals.OneMatch | BendoWithMasterApp.py:253 | with unique name keys at most one pooled player has a given key |
| Rivals.Restore | BendoWithMasterApp.py:269-275 | a player found alone goes back to the defence pool when their first choice is D and to the forward pool otherwise |
| Rivals.RestoreAdds | BendoWithMasterApp.py:269-275 | putting back adds exactly the returned player to the pools |
| Rivals.Pin | BendoWithMasterApp.py:263-268 | pinning keeps the pools, appends one player to each team with the higher scorer on the team the pair count picks, logs the note and counts the pair |
| Rivals.Settle | BendoWithMasterApp.py:263-275 | with both found, the pools stay as extracted, the pair count grows by one, a note is logged and one player is appended to each team, the higher scorer to A on an even count and to B on an odd one; otherwise pins, notes and count are unchanged |
| Rivals.SettleRestoresByFirstChoice | BendoWithMasterApp.py:269-275 | with a rival missing, every player added to the defence pool has first choice D and every player added to the forward pool has another first choice |
| Rivals.SettlePinned | BendoWithMasterApp.py:263-268 | with both found, the pools stay and both players join the pins |
| Rivals.SettleRestored | BendoWithMasterApp.py:269-275 | with a rival missing, the pins stay and whoever was found is back in the pools |
| Rivals.SeparatePair | BendoWithMasterApp.py:261-275 | one turn either separates the pair (the two new pins carry the pair's two name keys, higher scorer on the alternating team, note logged) or changes no pin, note or count |
| Rivals.ExtractFinds | BendoWithMasterApp.py:250-256 | a lookup finds a player exactly when some pooled player has the cleaned key of the name |
| Rivals.ExtractKeys | BendoWithMasterApp.py:250-256 | a lookup finds exactly when the key is pooled, and leaves every other key as pooled as it was |
| Rivals.SeparatePairWhen | BendoWithMasterApp.py:261-268 | a pair with two different keys is separated exactly when both keys are among the pooled players |
| Rivals.SeparatePairKeepsKeys | BendoWithMasterApp.py:261-275 | a turn leaves every key other than the pair's two pooled exactly as before |
| Rivals.SeparatePairAbsent | BendoWithMasterApp.py:261-275 | when neither key of the pair is pooled, the turn changes nothing |
| Rivals.SeparatePairKeepsPool | BendoWithMasterApp.py:269-275 | with unique name keys, a turn that separates nobody puts back every player it took: the pools hold the same players |
| Rivals.SeparateAllKeepsPins | BendoWithMasterApp.py:258-268 | later turns only append pins: the pins already made stay where they are |
| Rivals.PinSurvives | BendoWithMasterApp.py:258-268 | a pin recorded before the remaining pairs run is still there at the end |
| Rivals.RivalPairsApart | BendoWithMasterApp.py:258 | the four configured names have pairwise different keys |
| Rivals.SeparateAllSeparates | BendoWithMasterApp.py:258-268 | when configured names have different keys, every pair whose two players are pooled at the start ends up pinned on opposite teams |
| Rivals.SettleAccount | BendoWithMasterApp.py:263-275 | settling keeps the players of the pools, the pins and the two looked-up players together |
| Rivals.SeparatePairShrinks | BendoWithMasterApp.py:261-275 | a turn never adds a player to the pools and pins |
| Rivals.ExtractBothExact | BendoWithMasterApp.py:261-262 | with unique name keys, looking up both names of a pair removes exactly the players found |
| Rivals.SeparatePairExact | BendoWithMasterApp.py:261-275 | with unique name keys a turn neither adds nor loses a player |
| Rivals.AccountedStep | BendoWithMasterApp.py:260-275 | the loop invariant (pools and pins within the starting players, exactly them under unique keys, one pin per side per separated pair) survives a turn |
| Rivals.PinsExtend | BendoWithMasterApp.py:265-268 | appending a separated pair to the pins and notes keeps every earlier pin traced to its configured pair |
| Rivals.PinsWitnessed | BendoWithMasterApp.py:259-268 | pins traced to explicit pair indices are pins of some configured pair |
| Rivals.Turn | BendoWithMasterApp.py:261-275 | one loop turn computes `SeparatePair` and keeps the pin and accounting invariants, raising the pair count by at most one |
| Rivals.SeparateRivals | BendoWithMasterApp.py:258-275 | the loop computes the fold of single turns over the configured pairs; every pair whose two players are pooled is separated, one to each team, when configured names have different keys; every pin comes from a configured pair with the higher scorer alternating and a note per pair; pools and pins never gain a player, and with unique name keys they hold exactly the starting players |
| Draft.CountAStep | BendoWithMasterApp.py:26 | team A's count grows by one exactly on picks 0 and 3 of each block of four |
| Draft.Snake | BendoWithMasterApp.py:24-29 | the two teams together have as many players as the ranked list |
| Draft.PickAtCount | BendoWithMasterApp.py:26 | pick n is team A's pick number CountA(n) when it goes to A and team B's pick number n - CountA(n) otherwise |
| Draft.SnakePicks | BendoWithMasterApp.py:24-29 | team A's k-th player is pick 4(k/2) or 4(k/2)+3, team B's is 4(k/2)+1 or 4(k/2)+2, and the team sizes follow |
| Draft.SnakeCount | BendoWithMasterApp.py:24-29 | team A receives 2(n/4) picks plus one if any remain, team B the rest |
| Draft.SnakeSizes | BendoWithMasterApp.py:24-29 | the teams differ by at most one; A has the extra player when n mod 4 is 1, B when it is 3 |
| Draft.SnakeConserves | BendoWithMasterApp.py:21-34 | the two teams together are exactly the drafted players |
| Draft.SnakeDraft | BendoWithMasterApp.py:21-34 | the loop produces the specified split, conserves players and keeps the sizes within one |
| Draft.SnakeEight | BendoWithMasterApp.py:24-29 | eight ranked players are dealt A = P1, P4, P5, P8 and B = P2, P3, P6, P7 |
| Lineup.StrLeTotal | BendoWithMasterApp.py:306-307 | any two names are ordered one way or the other |
| Lineup.StrLeAntisymmetric | BendoWithMasterApp.py:306-307 | names ordered both ways are equal |
| Lineup.StrLeTransitive | BendoWithMasterApp.py:306-307 | the name order is transitive |
| Lineup.EntryLeTransitive | BendoWithMasterApp.py:306-307 | the sheet order (position, then name) is transitive |
| Lineup.EntryLeIsPreorder | BendoWithMasterApp.py:306-307 | the sheet order is total and transitive |
| Lineup.SheetOrder | BendoWithMasterApp.py:306-307 | a sorted team is ordered by position then name and holds the same entries |
| Lineup.Tag | BendoWithMasterApp.py:292 | every drafted player gets the pool's position |
| Lineup.PinEntries | BendoWithMasterApp.py:293 | every pinned rival gets their first choice as position |
| Lineup.TagPlayers | BendoWithMasterApp.py:292 | tagging keeps the players and their order |
| Lineup.PinPlayers | BendoWithMasterApp.py:293 | tagging the pins keeps the players and their order |
| Lineup.Keep | BendoWithMasterApp.py:287-288 | the kept count fills the target together with the pinned players when the pool is large enough, takes the whole pool when it is not, and is 0 when the pins already reach the target |
| Lineup.Deal | BendoWithMasterApp.py:287-303 | each team opens with its pinned rivals tagged with their first choice; after the pins, red's defence and forward players are exactly the first snake shares of the kept heads `rd[..kd]` and `rf[..kf]`, and white's the second shares; the cut lists are exactly the pools past the kept counts (`rd[kd..]`, `rf[kf..]`) |
| Lineup.Drafted | BendoWithMasterApp.py:281-303 | after re-ranking, each team opens with its pins; after them red plays the first snake share and white the second share of each ranked pool's kept head, at that pool's position; each cut list is exactly the ranked pool from the kept count on |
| Lineup.Compose | BendoWithMasterApp.py:281-307 | each team holds the drafted entries of the specification, sorted by position then name; the cuts are those of `Drafted`, the ranked pools from the kept counts on |
| Lineup.DealConserves | BendoWithMasterApp.py:287-303 | teams and cuts together are the two pools and the pins |
| Lineup.DraftedConserves | BendoWithMasterApp.py:281-303 | after re-ranking, teams and cuts together are the two pools and the pins |
| Lineup.ComposeConserves | BendoWithMasterApp.py:281-307 | the sorted teams and the cuts are exactly the pools and the pins: nobody is lost or duplicated |
| Lineup.PinnedOnTheirTeam | BendoWithMasterApp.py:302-307 | every rival pinned to A is on the red team and every rival pinned to B on the white team, under their first choice |
| Lineup.FilterTag | BendoWithMasterApp.py:292-293 | the entries of a tagged pool at a position are the whole pool when the tag matches and none otherwise |
| Lineup.DraftedPart | BendoWithMasterApp.py:292-296 | the players of a drafted half at D are its defence share and at F its forward share, in order |
| Lineup.SharesAtPositions | BendoWithMasterApp.py:292-303 | past the pins, each team's D players are exactly its own defence share and its F players its own forward share, in order, so together they are the two shares |
| Lineup.DealKeepsHeads | BendoWithMasterApp.py:287-303 | the non-pinned D players of the two teams are exactly the head `rd[..kd]` of the defence pool (F likewise), and head plus cuts is the pool |
| Lineup.DraftedSelects | BendoWithMasterApp.py:281-303 | after re-ranking, the kept head plus the cut list is the ranked pool, the non-pinned players per position are exactly the kept head, and every kept player ranks at or above every cut player |
| Lineup.CutsRankLast | BendoWithMasterApp.py:287-290 | every kept player ranks at or above every cut player of the same pool |
| Lineup.TeamSizes | BendoWithMasterApp.py:295-303 | with as many pins on each side, the teams differ by at most two players |
| Lineup.TargetsFilled | BendoWithMasterApp.py:284-290 | when the pool can cover it and the pins do not exceed it, pins plus kept players reach each position's target |
| Lineup.TeamScoreOrderFree | BendoWithMasterApp.py:318 | a team's score total does not depend on the team's order |
| Lineup.IntGeIsPreorder | BendoWithMasterApp.py:47 | descending score order is total and transitive |
| Lineup.Descending | BendoWithMasterApp.py:47 | the scores sorted high to low: sorted and a permutation of the team's scores |
| Lineup.TopNScore | BendoWithMasterApp.py:45-47 | an empty team or a non-positive n scores 0 |
| Lineup.TopNScoreAll | BendoWithMasterApp.py:45-47 | taking at least as many scores as there are gives the total score |
| Lineup.SortedHeadIsMax | BendoWithMasterApp.py:47 | the first of the descending scores is the maximum |
| Lineup.TopNScoreOne | BendoWithMasterApp.py:45-47 | the top-1 score of a non-empty team is its maximum score |
| Lineup.TopNScoreOrderFree | BendoWithMasterApp.py:45-47 | the top-n score depends only on the scores, not their order |
| Birthday.YearLength | BendoWithMasterApp.py:63-67 | a year has 366 days exactly when it is a Gregorian leap year |
| Birthday.OrdinalNextDay | BendoWithMasterApp.py:63-67 | consecutive calendar days have consecutive ordinals, so day arithmetic is ordinal arithmetic |
| Birthday.OrdinalEpoch | BendoWithMasterApp.py:63 | 1 January of year 1 is day 1 and a Monday |
| Birthday.OrdinalNewYear2024 | BendoWithMasterApp.py:63 | 1 January 2024 is a Monday |
| Birthday.OrdinalLastDay | BendoWithMasterApp.py:65-67 | 31 December 9999 is the last ordinal a date can hold |
| Birthday.WeekStart | BendoWithMasterApp.py:63-64 | the week starts on a Monday no more than six days before today and no later than tomorrow |
| Birthday.Week | BendoWithMasterApp.py:63-67 | the week starts on a Monday within six days before or one day after today; there is no week exactly when it would run past 31 December 9999 |
| Birthday.WeekIsMondayToSunday | BendoWithMasterApp.py:63-67 | the week starts on a Monday, holds today exactly when today is not a Sunday, and on a Sunday starts the next day |
| Birthday.Candidate | BendoWithMasterApp.py:80-82 | a candidate is always a real, representable date in the requested year, and it is the birthday itself whenever that year has the date and a timestamp can hold it |
| Birthday.LeapDayFallsOnMarchFirst | BendoWithMasterApp.py:80-82 | 29 February in a non-leap year is celebrated on 1 March |
| Birthday.Candidates | BendoWithMasterApp.py:78-82 | the candidates are the birthday in each year in order, or nothing when some year fails |
| Birthday.BirthdayCandidates | BendoWithMasterApp.py:78-82 | the loop over the three years computes those candidates, giving up at the first failing year |
| Birthday.AnyInWeek | BendoWithMasterApp.py:84 | some candidate falls in the week exactly when one of them lies between its Monday and Sunday |
| Birthday.RowCelebrates | BendoWithMasterApp.py:75-84 | a row counts exactly when it has a birthday, all three candidates exist and one falls in the week |
| Birthday.CelebrantsAreThoseInTheWeek | BendoWithMasterApp.py:75-86 | a name is congratulated exactly when one of its rows has a birthday in the week, and no name twice |
| Birthday.DistinctNamesSnoc | BendoWithMasterApp.py:86 | a celebrating row adds its name unless it is already listed |
| Birthday.JoinNamesExamples | BendoWithMasterApp.py:90 | one name stands alone, two are joined by "and", three read "Ann, Bob and Cy" |
| Birthday.JoinNamesFour | BendoWithMasterApp.py:90 | four names take commas between the first three and "and" before the last |
| Birthday.JoinNamesMentions | BendoWithMasterApp.py:90 | every celebrant's name appears in the joined names |
| Birthday.JoinNames | BendoWithMasterApp.py:90 | no name gives the empty string, one name stands alone, and more names are the first ones joined by commas, then "and" and the last |
| Birthday.Greeting | BendoWithMasterApp.py:89-93 | the greeting is empty exactly when nobody celebrates, and otherwise opens with the congratulation |
| Birthday.GreetingGrammar | BendoWithMasterApp.py:91-93 | the greeting says "is ... birthday" exactly for one celebrant and "are ... birthdays" exactly for several |
| Birthday.GreetingNamesEveryone | BendoWithMasterApp.py:89-93 | with celebrants the greeting is not empty and names every one of them |
| Birthday.GreetingOfNobody | BendoWithMasterApp.py:89 | with no celebrant the greeting is empty |
| Birthday.CollectCelebrants | BendoWithMasterApp.py:75-86 | the row loop yields exactly the celebrants: the distinct names of the rows celebrating in the week, in row order |
| Birthday.BirthdayMessage | BendoWithMasterApp.py:60-93 | without the birthday column the result is empty; a week past the last date fails; otherwise the celebrants and the greeting naming them |
| Mail.UniqueKept | BendoWithMasterApp.py:334 | the loop yields the distinct values in first-seen order that pass the filter |
| Mail.Recipients | BendoWithMasterApp.py:334 | the recipients are the distinct addresses, blank ones left out |
| Mail.RecipientsOfProperties | BendoWithMasterApp.py:334 | an address is mailed exactly when it occurs and is not blank, once, in the order addresses first appear |
| Mail.BccListsEveryone | BendoWithMasterApp.py:334-335 | every non-blank address of the teams appears in the BCC line |
| Pipeline.EligibleCount | BendoWithMasterApp.py:195-224 | a row reaches the pools exactly when it is available and its first choice is D or F |
| Pipeline.PoolsAreEligible | BendoWithMasterApp.py:219-224 | whatever the shuffle, the two ranked pools hold exactly the eligible players |
| Pipeline.RivalsOnOppositeTeams | BendoWithMasterApp.py:195-307 | when both players of a configured pair are available with first choice D or F, one is on the red team and one on the white team, each under their first choice |
| Pipeline.AllRivalsOnOppositeTeams | BendoWithMasterApp.py:195-307 | the same for every configured pair at once |
| Pipeline.Run | BendoWithMasterApp.py:195-335 | an empty available list is the only error; the targets are the quota of the available count; the balanced pools are the three passes over the ranked first-choice pools, the notes those of the rivals loop over them, and the teams and cuts those the composer drafts from what the rivals loop leaves; teams and cuts never hold a player who is not eligible, and hold every eligible player exactly once when name keys are unique; both players of a present rival pair are on different teams; both teams are in sheet order; the recipients are those of the teams' addresses |

## Left out

- The user interface: page set-up, widgets, buttons, info, warning and success
  messages, the debugger expander and the team displays.
- Reading the workbook, choosing the sheet and hiding the master,
  instructions and reference sheets: file I/O.
- Column resolution errors and normalisation of the sheet: the model starts
  from rows whose availability and choices are stripped and upper-cased,
  whose e-mail is stripped and whose score is a number; `Text.FindColumn`
  models the lookup itself.
- The master-sheet join for birthdays: birthday rows come in already
  resolved to a name and an optional date.
- Pipeline.Run: the birthday greeting is computed by `Birthday.BirthdayMessage`
  on its own rows rather than inside the run, because its rows come from the
  master join that is not modelled.
- Scores are integers; the source's floating-point scores are not modelled.
- Roster.Ranked: the sort is stable, as pandas' multi-column `sort_values`
  is, so tied players keep their shuffled order; the contract states
  sortedness and permutation, and stability itself is not stated as a lemma.
- Lineup.SheetOrder: stable in the same way, with the same contract; entries
  with equal position and name keep their drafted order, and that is not
  stated as a lemma.
- The shuffle and the clock: `sample(frac=1)` is an input permutation and
  `datetime.now()` is the `today` parameter; the time of day is ignored.
- Birthday.Candidate: timestamps are taken at midnight with nanosecond
  resolution, so the representable range is 22 September 1677 to
  11 April 2262; a birthday time of day is not modelled.
- The e-mail body, `format_team_list` text, URL quoting and the mail links;
  the team ordering `format_team_list` applies is the same sheet order
  modelled by `Lineup.SheetOrder`.
- Text handling is ASCII: upper- and lower-casing do not cover non-ASCII
  letters, and stripping treats as whitespace the ASCII blanks Python's
  `str.strip()` removes (space, tab to carriage return, and the separators
  `\x1c` to `\x1f`) but no non-ASCII space.
- Missing values (`NaN`) in names and e-mails: after normalisation every
  field is a string.
- Rivals.SeparateRivals: players are conserved exactly only under unique
  name keys, because `extract` drops every row with the key from the pool
  holding the first match (defence first) but returns only that one;
  same-key players in the other pool stay.
- Pipeline.Run: same condition, for the same reason.
