# Football league score manager — a verified model

This project models the league engine of `DELIVERABLE-4.cpp` in Dafny. The engine has five parts:

- **Team registry** (`TeamList`): a linked list of teams, with the newest team first.
- **Match index** (`MatchBST`): a binary search tree of matches keyed by their date string.
- **Match history** (`MatchHistory`): a stack used to undo the last match.
- **Match schedule** (`MatchSchedule`): a queue of fixtures still to be played.
- **Standings ranker** (`Sorter`): an early-exit bubble sort and a Lomuto quicksort, both under the same team comparator.

Over these sits the orchestrator `ScoreManager`, which provides these operations:

- registering teams;
- recording a result;
- scheduling a fixture and playing the earliest one;
- undoing the last match;
- ranking the table.

## Layout

- `dates.dfy` (`Dates`): the lexicographic order of date strings, which is `std::string`'s `<`.
- `records.dfy` (`Records`): the `Team` and `Match` values, and `GoalDifference`.
- `wrappers.dfy` (`Wrappers`): `Option`, which stands for a null pointer result.
- `registry.dfy` (`Registry`): `TeamList`.
  - The list of nodes is a sequence of teams in list order.
  - A pointer to a team is its position in that sequence.
- `match_index.dfy` (`MatchIndex`): `MatchBST`.
  - The tree is a value of type `Tree`, rebuilt by the recursive `Insert`.
  - A ghost field `entries` records the matches in insertion order.
  - The class invariant says that the in-order walk of the tree is a stable insertion sort of `entries` by date.
- `fixtures.dfy` (`Fixtures`): `MatchHistory` and `MatchSchedule`, whose contents are sequences of match ids.
- `sorter.dfy` (`Sorter`): the comparator, the two sorts on an `array<Team>`, and their proofs.
- `standings.dfy` (`Standings`): the scoring rule of `updateStandings`.
  - `Tally(name, results)` replays the results on a fresh team.
  - It also holds what the rule adds up to over a season.
- `league.dfy` (`League`): `ScoreManager`.
  - Every match created lives in an append-only match table, and its id is its position there.
  - The index, the history and the schedule hold ids, as the source's structures hold pointers to the same `Match` objects.
  - The class invariant `Valid` says four things:
    - the index lists exactly the played results;
    - the schedule holds only unplayed fixtures between registered teams;
    - every registered team's line is the tally of the results;
    - the history holds only indexed matches.

## Model

| member | source | states |
|---|---|---|
| Dates.LessIrreflexive | DELIVERABLE-4.cpp:142 | No date is before itself under the string order that `insert` uses. |
| Dates.LessTransitive | DELIVERABLE-4.cpp:142 | The string order on dates is transitive. |
| Dates.LessTrichotomy | DELIVERABLE-4.cpp:142 | Any two dates are equal, or one is before the other. |
| Records.GoalDifference | DELIVERABLE-4.cpp:21 | `getGoalDifference`, goals scored minus goals conceded. It is positive, zero or negative exactly when the team has scored more than, as many as, or fewer than it conceded. |
| Registry.PrependNames | DELIVERABLE-4.cpp:69-73 | Prepending a team adds its name to the set of names. Prepending a name not yet present keeps the names distinct. |
| Registry.CountFrom | DELIVERABLE-4.cpp:47-50 | The recursive count of the nodes from a given node equals the length of the chain from there. |
| Registry.TeamList.constructor | DELIVERABLE-4.cpp:60 | A new registry is empty. |
| Registry.TeamList.AddTeam | DELIVERABLE-4.cpp:69-73 | The new team becomes the head of the list, in front of the old list. |
| Registry.TeamList.FindTeam | DELIVERABLE-4.cpp:75-84 | A hit is the position of a team with that name, and no earlier team has the name. The result is null exactly when no team has the name. |
| Registry.TeamList.CountTeams | DELIVERABLE-4.cpp:86-88 | The count is the number of teams in the list. |
| Registry.TeamList.GetAllTeams | DELIVERABLE-4.cpp:95-103 | The snapshot is the teams in list order, newest first. |
| MatchIndex.Insert | DELIVERABLE-4.cpp:139-147 | `insert`, rebuilding the path to the new leaf. An earlier date goes left and an equal or later date goes right. The result is a node, the root entry of a non-empty tree stays where it is, and the tree holds exactly one more entry. |
| MatchIndex.InOrder | DELIVERABLE-4.cpp:150-159 | `inOrder`, walking left subtree, node, right subtree and keeping the node when `start <= date <= end`. Every entry it returns lies in the interval. |
| MatchIndex.InsertFlatten | DELIVERABLE-4.cpp:139-147 | On a tree whose in-order walk is sorted by date, inserting an entry inserts it into the walk after every entry whose date is not later. Equal dates therefore go right, behind the earlier ones. |
| MatchIndex.InOrderFilters | DELIVERABLE-4.cpp:150-159 | The filtered in-order walk is the in-order walk restricted to dates in the closed interval `[start, end]`. |
| MatchIndex.ListingSpec | DELIVERABLE-4.cpp:139-147 | The walk after any sequence of inserts is sorted by date, is a permutation of the inserted entries, and lists each date's entries in insertion order. |
| MatchIndex.FilterRangeSorted | DELIVERABLE-4.cpp:150-159 | Filtering a date-sorted walk to an interval keeps it sorted and keeps only entries of the walk. |
| MatchIndex.FilterDateOfRange | DELIVERABLE-4.cpp:155 | For one date, the interval filter keeps that date's entries in order when the date is in `[start, end]`, and none otherwise. |
| MatchIndex.FilterRangePermutation | DELIVERABLE-4.cpp:150-159 | Filtering two permutations of each other to the same interval gives permutations of each other. |
| MatchIndex.MatchBST.constructor | DELIVERABLE-4.cpp:170 | A new index is empty and satisfies the tree invariant. |
| MatchIndex.MatchBST.AddMatch | DELIVERABLE-4.cpp:173-175 | Adding a match appends it to the inserted entries and keeps the invariant linking the tree to them. |
| MatchIndex.MatchBST.GetMatchesInRange | DELIVERABLE-4.cpp:177-181 | The result is exactly the inserted matches whose dates lie in `[start, end]`, as a multiset. They come out in non-decreasing date order, and matches with the same date keep their insertion order. |
| Fixtures.MatchHistory.constructor | DELIVERABLE-4.cpp:187 | A new history is empty. |
| Fixtures.MatchHistory.AddMatch | DELIVERABLE-4.cpp:190-192 | Pushes the match on top of the stack. |
| Fixtures.MatchHistory.UndoLastMatch | DELIVERABLE-4.cpp:194-200 | Removes the most recently pushed match. An empty history stays empty. |
| Fixtures.MatchHistory.IsEmpty | DELIVERABLE-4.cpp:202-204 | True exactly when the stack holds nothing. |
| Fixtures.MatchSchedule.constructor | DELIVERABLE-4.cpp:210 | A new schedule is empty. |
| Fixtures.MatchSchedule.ScheduleMatch | DELIVERABLE-4.cpp:213-215 | Enqueues the fixture at the back. |
| Fixtures.MatchSchedule.PlayNextMatch | DELIVERABLE-4.cpp:217-224 | Returns and removes the earliest-enqueued fixture. On an empty queue it returns null and leaves the queue unchanged. |
| Fixtures.MatchSchedule.IsEmpty | DELIVERABLE-4.cpp:226-228 | True exactly when the queue holds nothing. |
| Sorter.CompareTeams | DELIVERABLE-4.cpp:260-265 | `compareTeams`, the difference of points, else of goal difference, else of goals scored, taken second minus first. It is negative exactly when the first team ranks higher, with more points, then a better goal difference, then more goals scored. It is positive exactly when the second team ranks higher. |
| Sorter.CompareTeamsMeaning | DELIVERABLE-4.cpp:260-265 | The comparator is zero exactly when all three keys tie, and swapping the teams negates it. |
| Sorter.CompareTeamsTransitive | DELIVERABLE-4.cpp:260-265 | "Ranks no lower than" under the comparator is transitive. |
| Sorter.SortedAdjacent | DELIVERABLE-4.cpp:260-265 | In a ranked sequence, every adjacent pair compares `<= 0`. |
| Sorter.Swap | DELIVERABLE-4.cpp:241 | `swap` exchanges the two elements and changes nothing else. |
| Sorter.SwappedPermutes | DELIVERABLE-4.cpp:241 | A swap is a permutation. |
| Sorter.PassStepKeeps | DELIVERABLE-4.cpp:240-243 | One compare-and-swap step moves the larger of the two forward. It keeps the settled tail and records whether a swap happened. |
| Sorter.PassRunState | DELIVERABLE-4.cpp:239-244 | After `j` steps of a pass, the element at `j` ranks no higher than any before it, the tail stays settled, and `swapped` says whether some pair was out of order. |
| Sorter.PassRunPermutes | DELIVERABLE-4.cpp:239-244 | A pass is a permutation. |
| Sorter.PassEnd | DELIVERABLE-4.cpp:245 | After a full pass, one more element is settled, and a pass without a swap leaves the vector ranked, which justifies the early exit. |
| Sorter.BubblePass | DELIVERABLE-4.cpp:238-244 | One inner pass of the bubble sort, against the pass specification. |
| Sorter.BubbleSortTeams | DELIVERABLE-4.cpp:235-247 | The vector ends ranked, with every pair in comparator order, and it is a permutation of its input. |
| Sorter.EmptyVectorComparesPastEnd | DELIVERABLE-4.cpp:237-240 | The loop guards as written admit both loops on an empty vector, because `0 - 1` on `size_t` wraps to `2^64 - 1`. |
| Sorter.TestsAgreeWhenNonEmpty | DELIVERABLE-4.cpp:237-239 | On a non-empty vector, the guards as written agree with the corrected guard `i + 1 < n`. |
| Sorter.RearrangedSameTeams | DELIVERABLE-4.cpp:250-256 | A rearrangement of a segment leaves the same teams in that segment. |
| Sorter.SwappedRearranges | DELIVERABLE-4.cpp:275 | A swap inside a segment rearranges only that segment. |
| Sorter.PartitionStep | DELIVERABLE-4.cpp:272-277 | One step of the partition loop keeps the loop invariant: the teams at `low..i` compare `< 0` against the pivot, and those at `i+1..j-1` compare `>= 0`. |
| Sorter.PartitionRunSplits | DELIVERABLE-4.cpp:272-277 | After the loop has scanned up to `j`, the segment is split at `i` as above. |
| Sorter.PartitionRunRearranges | DELIVERABLE-4.cpp:272-277 | The loop only rearranges the scanned segment. |
| Sorter.PartitionEnd | DELIVERABLE-4.cpp:278-279 | The final swap puts the pivot at `i + 1`, with smaller teams before it and the rest after it. |
| Sorter.PartitionSplits | DELIVERABLE-4.cpp:268-280 | `partition` returns `p` in `[low, high]`. The pivot `teams[high]` ends at `p`, every team in `[low, p)` compares `< 0` against it, and every team in `(p, high]` compares `>= 0`. |
| Sorter.PartitionRearranges | DELIVERABLE-4.cpp:268-280 | `partition` permutes `[low, high]` and touches nothing outside it. |
| Sorter.Partition | DELIVERABLE-4.cpp:268-280 | The in-place partition computes exactly the partition function specified above. |
| Sorter.SortedAroundPivot | DELIVERABLE-4.cpp:252-254 | Two ranked halves around a pivot, with smaller teams on the left and the rest on the right, form a ranked segment. |
| Sorter.QuickSortStep | DELIVERABLE-4.cpp:251-255 | Partitioning and then sorting both halves ranks `[low, high]` and permutes only that segment. |
| Sorter.QuickSortTeams | DELIVERABLE-4.cpp:250-256 | `teams[low..high]` ends ranked and is a permutation of its old contents. Nothing outside the segment moves. |
| Standings.SidePoints | DELIVERABLE-4.cpp:299-306 | The points one side of a match earns: 3 exactly when it scored more, 1 exactly when the scores are level, and 0 exactly when it scored fewer. |
| Standings.Credit | DELIVERABLE-4.cpp:291-307 | What `updateStandings` does to one team's line. As `team1` it adds its own score to goals scored, the opponent's score to goals conceded, and its side's points. As `team2` it does the same with the sides swapped, and both apply for a team recorded against itself. The name never changes, and a team that played in neither side keeps its line. |
| Standings.Tally | DELIVERABLE-4.cpp:291-307 | A team's line is the replay of the results in the order played, and the replay keeps the team's name. |
| Standings.TallyUninvolved | DELIVERABLE-4.cpp:18 | A team involved in none of the results still has a fresh line: 0 points, 0 goals scored, 0 conceded. |
| Standings.TallyPoints | DELIVERABLE-4.cpp:299-306 | A team's points are 3 per side won plus 1 per side drawn. |
| Standings.TallyGoals | DELIVERABLE-4.cpp:293-296 | A team's goals scored and conceded are the sums of its own and its opponents' scores over the matches it played, whatever the results. |
| Standings.CreditAll | DELIVERABLE-4.cpp:291-307 | Applying `updateStandings` for a match credits each team by the rule, and no team is added or removed. |
| Standings.CreditAllNames | DELIVERABLE-4.cpp:291-307 | Crediting a match renames nobody, so distinct names stay distinct. |
| Standings.CreditAllTallies | DELIVERABLE-4.cpp:291-307 | Crediting a match to a table of tallies gives the tallies with that match played last. |
| Standings.CreditAllPoints | DELIVERABLE-4.cpp:299-306 | Crediting a match adds the points of each side whose team is in the table, and nothing else. |
| Standings.CreditAllGoalDifference | DELIVERABLE-4.cpp:293-296 | Crediting a match shifts the total goal difference by the margin of each side whose team is in the table. |
| Standings.MatchTotals | DELIVERABLE-4.cpp:291-307 | A match between two registered teams hands out 3 points in total for a win and 2 for a draw, and leaves the total goal difference unchanged. |
| Standings.TallyAll | DELIVERABLE-4.cpp:291-307 | The table built by replaying the results for every registered team, one line per team. |
| Standings.SeasonTotals | DELIVERABLE-4.cpp:291-307 | Over any sequence of results between registered teams, the points add up to 3 per decisive result plus 2 per draw. The goal differences add up to 0. |
| League.ConsistentPlay | DELIVERABLE-4.cpp:330-332 | Indexing, pushing and crediting a match keeps the manager's invariant, provided the match is in the table, off the schedule, and between the teams at the two given positions. |
| League.ConsistentGrow | DELIVERABLE-4.cpp:329 | Creating a new match keeps the invariant. |
| League.ConsistentSchedule | DELIVERABLE-4.cpp:346-347 | Creating and enqueuing a fixture between registered teams keeps the invariant. |
| League.ConsistentTakeHead | DELIVERABLE-4.cpp:352-359 | Dequeuing the earliest fixture and setting its score keeps the invariant. The fixture is unplayed, is not queued again, and is between registered teams. |
| League.TalliedAddTeam | DELIVERABLE-4.cpp:310-317 | Registering a new team keeps every line equal to its tally. |
| League.ScoreManager.constructor | DELIVERABLE-4.cpp:284-289 | A new manager owns four new, empty structures, as the source holds them by value, and satisfies the invariant. |
| League.ScoreManager.StandingsAddUp | DELIVERABLE-4.cpp:291-307 | In every reachable state, the table's points add up to 3 per decisive result plus 2 per draw, and its goal differences add up to 0. |
| League.ScoreManager.UpdateStandings | DELIVERABLE-4.cpp:291-307 | Goals first, then points, written through to the two teams: the table becomes the old table with the match credited, and no other team changes. |
| League.ScoreManager.AddTeam | DELIVERABLE-4.cpp:310-317 | A duplicate name is rejected and the registry stays unchanged. Otherwise a fresh team heads the list. The invariant is kept. |
| League.ScoreManager.Play | DELIVERABLE-4.cpp:330-332 | The shared tail of `recordMatch` and `playScheduledMatch`, also at :361-363. The match is indexed under its id with the index kept valid, pushed on the history, and credited to the two teams, and it becomes the latest result. |
| League.ScoreManager.RecordMatch | DELIVERABLE-4.cpp:319-334 | A missing team changes no structure and no statistic. Otherwise the match is created, indexed, pushed on the history and credited to both teams. |
| League.ScoreManager.ScheduleMatch | DELIVERABLE-4.cpp:336-349 | A missing team changes nothing. Otherwise a 0-0 fixture is created and enqueued. Standings, index and history never change. |
| League.ScoreManager.PlayScheduledMatch | DELIVERABLE-4.cpp:351-368 | An empty schedule changes nothing. Otherwise the earliest fixture gets the given score and takes the `recordMatch` path. |
| League.ScoreManager.UndoLastMatch | DELIVERABLE-4.cpp:370-379 | Only the history changes: its top is popped, or nothing happens when it is empty. Every team's statistics stay as they were. |
| League.ScoreManager.DisplayStandings | DELIVERABLE-4.cpp:381-391 | The ranked snapshot uses bubble sort below ten teams and quicksort otherwise. It is ranked and a permutation of the registered teams. |

## Left out

- Console I/O is not modelled:
  - the menu, `main` and all printing, including `display`, `displayAll`/`displayRecursive` and the table printing in `displayStandings` and `searchMatches`;
  - the `cin` reads of the scores in `playScheduledMatch`, whose scores are parameters here;
  - `searchMatches` is only a printout of `getMatchesInRange`, which is modelled.
- `generateReport` is left out. It prints, and its average is a `double`. Its goal total is the sum of the scores of `getMatchesInRange` over the interval `["0000-00-00", "9999-99-99"]`, which misses dates outside it. Dates are unchecked strings, so such dates are possible.
- Heap ownership is not modelled: `new`, destructors and the `string*` indirection. Matches are ids into an append-only table, and teams are values at positions in the registry.
  - `undoLastMatch` deletes a `Match` that the index still holds, and `~MatchNode` later deletes it again. In the model an undone match stays in the index and in the table.
- The model has no pointer aliasing between the vector being sorted and the registry. The sorts permute team values in a copy of the registry.
- `playScheduledMatch` credits the fixture's teams through the pointers the fixture holds. The model holds team names instead, so it looks them up again with `findTeam`. Names are unique, so this finds the same teams.
- `int` overflow of points, goals and the comparator's differences is not modelled, because integers are unbounded here.
- Sorter.QuickSortTeams: requires `low <= high + 1`, which holds for every call the source makes: the top call with `n >= 10`, and both recursive calls.
- League.ScoreManager.UndoLastMatch: deliberately leaves the standings as they were, as the source does, with no reversal.

## Findings

| source | as written | input that shows it | evidently intended | confidence | as-written member | corrected member |
|---|---|---|---|---|---|---|
| DELIVERABLE-4.cpp:237 | The loop test `i < teams.size() - 1` computes `0 - 1` on `size_t` for an empty vector, which wraps to `2^64 - 1`. Both loops are then entered, and `teams[0]`, `teams[1]` are read out of bounds. | `displayStandings` with no team registered, which takes the bubble sort because `0 < 10` | No pass at all on fewer than two teams (`i + 1 < n`) | not executed | Sorter.EmptyVectorComparesPastEnd | Sorter.BubbleSortTeams |
