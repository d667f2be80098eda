# Rank slots of the Flying Demon List

A Dafny model of the rank-slot engine of the Flying Demon List web
application. There are two ranked populations:

- the approved claims of one level, each ranked 1..50 inside that level;
- the levels themselves, ranked 1..50 globally, where the rank column is unique.

A rank earns `51 - rank` points, and anything outside 1..50, or no rank at all,
earns 0. The model covers these operations:

- `assign_rank_to_claim`, which does unrank, move up, move down and first-time placement;
- the rank distribution query and the points recalculation of a level;
- the level operations `add_level`, `update_level_rank` and `delete_level`;
- the approve and reject transitions of `review_claim`;
- the single-holder First Victor flag;
- `Level.update_points`;
- the per-user point total `User.get_total_points`.

Tables are maps from row id to record, and every operation is a pure function
from a table to a new table or to a refusal (`Results.Result`). A rank is
`Unranked | Ranked(n)`, and `n` is not restricted by its type. The code tests
stored ranks for 0 (Python truthiness) and for values above 50, so those
branches exist in the model too. The bounds are carried by two invariants:

- `ClaimRanksWell`: approved claims of a level have distinct ranks in 1..50 with matching points, and other claims are unranked with 0 points;
- `LevelRanksWell`: level ranks are unique and in 1..50 with matching points.

Each operation is shown to keep its invariant.

The modules follow the source:

- `Models`: `app/models.py`.
- `ClaimRanking`, `ClaimRankingLaws`, `ClaimQueries`: `app/users/utils.py`.
- `LevelRanking`, `LevelRankingLaws`: the level routes of `app/admin/routes.py`.
- `Review`: the review and First Victor routes.
- `WriteOrder`: the row-by-row writes of the level routes against the unique rank column.

Each claim cascade is also stated against a reference function on ranks alone,
`ClaimRanking.Cascade`. That gives the laws relating the cascades:

- a move equals an unrank followed by a placement;
- moving there and back is the identity;
- placement then unrank is the identity unless rank 50 was occupied;
- the order of the other claims is preserved.

The code has two level cascades and a separate claim cascade, and the model
keeps all three. Lemmas state how they differ:

- `add_level` shifts the whole range r..50, while `update_level_rank` shifts only the contiguous chain of occupied ranks starting at n;
- a level that `update_level_rank` moves or clears leaves its old slot empty (`LevelMoveLeavesGap`, `LevelUnrankLeavesGap`), and so does a level removed by `delete_level` (`DeleteLevelKeepsRanksWell`);
- rejecting a claim does not close its slot either: it only clears the claim's rank, points and flag (app/admin/routes.py:103-108).

The docstring at app/users/utils.py:133 says that `ranked_count` counts the ranked claims, but line 162 returns the number of distinct occupied ranks in 1..50; the model follows line 162.

## Model

| member | source | states |
|---|---|---|
| Models.Points | app/models.py:81-86 | points are always within 0..50 and are zero exactly when the rank is absent or outside 1..50 |
| Models.PointsRoundTrip | app/models.py:81-86 | each positive points value corresponds to exactly one rank, `51 - points` |
| Models.PointsStrictlyDecreasing | app/models.py:81-86 | a better rank earns strictly more points, and the worse of two ranks in 1..50 still earns some |
| Models.UpdatePoints | app/models.py:81-86 | recomputing points keeps name and rank, leaves the level consistent, and changes nothing exactly when it already was consistent |
| Models.UpdatePointsIdempotent | app/models.py:81-86 | recomputing points twice is the same as once, and the result is within 0..50 |
| Models.SumPointsBounded | app/models.py:30-47 | on a well-ranked table the total over a set of levels lies between 0 and 50 per level |
| Models.TotalPoints | app/models.py:30-47 | the total is the sum of the points of the set of distinct levels the user has an approved claim for, and 0 when there is none |
| Models.RepeatLevelCountsOnce | app/models.py:30-47 | a second approved claim on an already completed level leaves the total unchanged |
| Models.NewLevelAddsItsPoints | app/models.py:30-47 | an approved claim on a new level raises the total by exactly that level's points |
| ClaimRanking.AssignRankToClaim | app/users/utils.py:6-121 | a non-approved claim is refused, and so is a rank that is neither None nor an integer in 1..50. On success the target gets the requested rank with matching points, and claims of other levels or statuses are untouched, as are other unranked claims |
| ClaimRanking.AssignTouchesOnlyRanks | app/users/utils.py:28-111 | a call changes only ranks and points: owner, level, status and flag of every claim are kept |
| ClaimRanking.CascadeFacts | app/users/utils.py:28-111 | the reference cascade keeps ranks within 1..50, frees the target's new slot, and preserves the order of the claims it keeps ranked. A claim loses its rank only on a first-time placement that pushes it past 50 |
| ClaimRanking.AssignFollowsCascade | app/users/utils.py:28-111 | every other ranked claim of the level moves exactly as the reference cascade says (unrank closes the gap, move shifts the band between the old and new slot, placement pushes n..50 down), with points following its rank |
| ClaimRanking.UnrankFollowsCascade | app/users/utils.py:27-48 | the unranking branch moves every other ranked claim of the level as the reference cascade for clearing says: those below the old slot move up one place |
| ClaimRanking.PlaceFollowsCascade | app/users/utils.py:50-111 | the ranking branch moves every other ranked claim of the level as the reference cascade for a move or a first-time placement says |
| ClaimRanking.AssignKeepsRanksWell | app/users/utils.py:28-111 | ranking a claim keeps approved ranks unique per level, within bounds, and consistent with points |
| ClaimRankingLaws.MoveIsUnrankThenPlace | app/users/utils.py:28-111 | moving a ranked claim to n gives the same table as unranking it and then placing it at n |
| ClaimRankingLaws.PlaceThenUnrankRoundTrip | app/users/utils.py:28-111 | placing an unranked claim and unranking it again restores the table when no claim of the level sits at 50 |
| ClaimRankingLaws.PlaceEvictsLast | app/users/utils.py:90-107 | a first-time placement pushes the claim at rank 50 off the list, and unranking afterwards does not bring it back |
| ClaimRankingLaws.MoveRoundTrip | app/users/utils.py:54-88 | moving a claim from a to b and back to a restores the whole table |
| ClaimRankingLaws.SameRankIsNoOp | app/users/utils.py:54-111 | assigning a claim the rank it already holds changes nothing |
| ClaimRankingLaws.AssignKeepsOrder | app/users/utils.py:28-111 | no cascade reorders the other claims of the level |
| ClaimQueries.GapsFrom | app/users/utils.py:154-156 | the gap list from lo holds exactly the unoccupied ranks of lo..50, strictly ascending |
| ClaimQueries.GapsFromCount | app/users/utils.py:152-162 | the gaps from lo and the occupied ranks from lo together number exactly the ranks lo..50 |
| ClaimQueries.GapsCount | app/users/utils.py:152-162 | over occupied ranks within 1..50, `len(rank_gaps) + len(occupied_ranks) == 50` |
| ClaimQueries.DistributionOf | app/users/utils.py:152-166 | over a set of occupied ranks within 1..50, the gaps are exactly the free ranks in ascending order, `next_available` is their head or None, and `ranked_count` is the number of occupied ranks |
| ClaimQueries.RankDistribution | app/users/utils.py:124-166 | the gaps are exactly the free ranks of 1..50 in ascending order, and `next_available` is their head or None. `ranked_count + len(gaps) == 50`, and `unranked_count` counts the approved unranked claims |
| ClaimQueries.NextAvailableIsLowestFree | app/users/utils.py:152-159 | the next available rank is free and every rank below it is taken; it is None exactly when every rank is taken |
| ClaimQueries.FullIffNoGaps | app/users/utils.py:152-162 | a level has 50 occupied ranks exactly when no rank is available |
| ClaimQueries.RecalculatePointsForLevel | app/users/utils.py:169-195 | every approved claim of the level gets the points of its rank, nothing else changes, and the count is the number of those claims |
| ClaimQueries.RecalculateIsIdentityWhenWellRanked | app/users/utils.py:169-195 | on a well-ranked table the recalculation changes nothing |
| ClaimQueries.RecalculateIdempotent | app/users/utils.py:169-195 | recalculating twice gives the same table and count as once |
| LevelRanking.Bumped | app/admin/routes.py:231-238 | a level moved one place down gets rank + 1, or becomes unranked with 0 points past 50, and its points follow its rank |
| LevelRanking.AddLevel | app/admin/routes.py:128-176 | an empty name, a taken name and a rank outside 1..50 are refused, each with its own error. Otherwise the new level gets the rank and its points, every level at r..50 is bumped one place down with its points recomputed (the one at 50 becomes unranked with 0 points), keeping its name, and all others are unchanged. When r is already held, or two consecutive ranks at or above r are held, this is the intended table; the source's row-by-row writes are refused by the database before they get there (first two rows under Findings) |
| LevelRanking.RunLength | app/admin/routes.py:215-228 | the chain is the maximal run of ranks n, n+1, ... held by levels other than the target; the rank right after it is free or past 50 |
| LevelRanking.BuildChain | app/admin/routes.py:211-228 | the loop collects one level per rank of the run, in rank order, and on a table with unique ranks these are exactly the other levels ranked inside the run |
| LevelRanking.UpdateLevelRank | app/admin/routes.py:178-263 | a rank outside 1..50 is refused, and None clears the target alone. A rank n moves exactly the chain one place down, leaves every other level unchanged, gives the target rank n and reports the chain length. When the target sits right after the chain this is the intended table; the source's commit at line 244 fails on it and is rolled back at lines 261-263 (third row under Findings) |
| LevelRanking.DeleteLevel | app/admin/routes.py:265-280 | a level with claims is kept and refused; otherwise exactly that level is removed and no other level changes |
| LevelRankingLaws.BumpRangeKeepsRanksWell | app/admin/routes.py:158-173 | shifting a block of ranks down into a free slot keeps level ranks unique, in bounds and consistent |
| LevelRankingLaws.AddLevelKeepsRanksWell | app/admin/routes.py:152-173 | creating a level keeps the level table well ranked |
| LevelRankingLaws.UpdateLevelRankKeepsRanksWell | app/admin/routes.py:197-242 | re-ranking a level keeps the level table well ranked |
| LevelRankingLaws.UpdateToOwnRankIsNoOp | app/admin/routes.py:211-242 | re-ranking a level to its current rank finds an empty chain, moves nothing and reports 0 |
| LevelRankingLaws.PushStopsAtFirstGap | app/admin/routes.py:215-228 | levels ranked after the first free slot at or past n never move |
| LevelRankingLaws.ChainDiffersFromFullShift | app/admin/routes.py:158-238 | on levels at ranks 2 and 4 with rank 1 free, so that the source's first flush goes through, inserting at 1 moves both (to 3 and 5) while re-ranking an unranked level to 1 moves neither |
| LevelRankingLaws.LevelMoveLeavesGap | app/admin/routes.py:211-242 | the slot a moved level leaves stays empty unless the chain's last level lands on it |
| LevelRankingLaws.LevelUnrankLeavesGap | app/admin/routes.py:199-208 | clearing a level's rank leaves its slot empty |
| LevelRankingLaws.DeleteLevelKeepsRanksWell | app/admin/routes.py:265-280 | deleting a level keeps the table well ranked and leaves its slot empty |
| WriteOrder.PushStatesAreSafe | app/admin/routes.py:231-238 | pushing a block into the free slot below it, one level at a time from the bottom, passes only through well-ranked tables, one row per step |
| WriteOrder.AddLevelFlushCollides | app/admin/routes.py:152-155 | the row flushed to get the new level's id duplicates a rank exactly when the requested rank is already held |
| WriteOrder.AddLevelAtOccupiedRank | app/admin/routes.py:152-155 | a concrete table where `add_level` is valid but its first flush duplicates rank 1 |
| WriteOrder.AscendingShiftStepCollides | app/admin/routes.py:158-171 | the loop bumps the displaced levels lowest rank first, so once it moves the level at j while another level still holds j + 1, the table duplicates a rank, even when the requested rank was free |
| WriteOrder.AddLevelAscendingShiftCollides | app/admin/routes.py:152-171 | a concrete valid creation at a free rank 1 beside levels at 2 and 3: the flush is clash-free, but the first bump (the level at 2, first by rank and by id) duplicates rank 3 |
| WriteOrder.AddLevelWritesAreSafe | app/admin/routes.py:152-174 | inserting unranked, pushing 50 down to r, then setting rank r writes one row per step, keeps every state well ranked, and ends in the intended table |
| WriteOrder.ReversedChainSafeUnlessCyclic | app/admin/routes.py:231-242 | applying the chain highest first, with the target still at its old rank, keeps every state well ranked exactly when the target does not sit right after the chain. The safe half assumes the rows are written in program order; the source does not flush between the assignments. `WriteOrder.CyclicPushCollides` covers every order for the cyclic case |
| WriteOrder.CyclicPushCollides | app/admin/routes.py:231-244 | when the target sits right after the chain, every changed row written first duplicates a rank, so no order of single-row writes works |
| WriteOrder.SwapCollides | app/admin/routes.py:211-244 | levels at ranks 1 and 2, moving the second to 1: both possible first writes duplicate a rank |
| WriteOrder.UpdateLevelRankWritesAreSafe | app/admin/routes.py:211-244 | clearing the target, pushing the chain bottom-up, then setting the target writes one row per step, keeps every state well ranked, and ends in the table `update_level_rank` computes |
| Review.MarkFirstVictor | app/admin/routes.py:83-93 | after flagging, the target is the only First Victor of its level; only flags change, and other levels are untouched |
| Review.UnmarkFirstVictor | app/admin/routes.py:94-95 | unflagging removes the target from the level's First Victors and changes nothing else |
| Review.ToggleFirstVictor | app/admin/routes.py:389-422 | a non-approved claim is refused. Otherwise only flags change and the target's flag is the one requested; flagging leaves it the only First Victor of its level and leaves claims of other levels untouched, and unflagging touches nothing else |
| Review.ToggleKeepsAtMostOneVictor | app/admin/routes.py:400-413 | toggling keeps at most one First Victor per level |
| Review.ToggleKeepsClaimInvariants | app/admin/routes.py:389-422 | flagging or unflagging keeps the claim table well ranked and at most one approved claim per user and level |
| Review.Approve | app/admin/routes.py:59-95 | a second approved claim of the same user for the level is refused, and so is an invalid rank. Otherwise the claim becomes approved with the requested rank and points and the requested flag; a set flag makes it the level's only First Victor, an unset flag leaves every other claim's flag as it was, and other levels are untouched |
| Review.Reject | app/admin/routes.py:103-108 | the claim becomes rejected, unranked, with 0 points and no flag, and no other claim changes |
| Review.ApproveFollowsCascade | app/admin/routes.py:71-75 | approving moves every other ranked claim of the level's approved population to the rank the reference cascade gives for the target's move from its old rank to the requested one, with matching points; only its First Victor flag may change otherwise |
| Review.ApproveLeavesOthersInPlace | app/admin/routes.py:71-95 | every other claim that is unranked or not an approved claim of the level keeps its rank and points; only its First Victor flag may change |
| Review.ApproveKeepsRanksWell | app/admin/routes.py:71-95 | approving keeps the claim table well ranked |
| Review.ApproveKeepsOwnership | app/admin/routes.py:71-95 | approving changes the status of the target alone and never the owner or level of any claim |
| Review.ApproveOnlyClearsOtherFlags | app/admin/routes.py:83-95 | approving can only clear another claim's flag, never set it |
| Review.ApproveKeepsOneApprovedPerLevel | app/admin/routes.py:59-71 | after approving, each user still has at most one approved claim per level |
| Review.ApproveKeepsAtMostOneVictor | app/admin/routes.py:81-95 | approving keeps at most one First Victor per level |
| Review.RejectKeepsInvariants | app/admin/routes.py:103-108 | rejecting keeps the table well ranked, at most one approved claim per user and level, and at most one First Victor per level |
| Review.RejectFreesItsRank | app/admin/routes.py:103-108 | rejecting a ranked claim removes exactly its rank from the level's occupied ranks |
| Review.RejectDoesNotCloseGap | app/admin/routes.py:103-108 | a claim ranked below the rejected one keeps its rank, where unranking the same claim would move it up |

## Left out

- Request parsing: form and JSON decoding and the `int()` coercion at app/admin/routes.py:187-195 are left out. The engine receives the value that reaches it: an `Option<int>` for levels, and for claims a `RankArg` that adds `NotAnInt`, the non-integer case `assign_rank_to_claim` checks.
- Flash messages, JSON bodies, redirects and templates are left out; the operations return the new table or the refusal.
- Transactions are left out. `add_level` and `update_level_rank` make their changes all at once in `LevelRanking`. Only `WriteOrder` models the intermediate states of their row writes, because the unique rank column makes that order observable.
- The flush order SQLAlchemy chooses for the rows of one commit is not modelled. `WriteOrder.CyclicPushCollides` therefore quantifies over every order.
- Rows that are missing are left out: `get_or_404` answers before any ranking happens, so every operation requires its target row to exist. The fresh id of a new level is a parameter.
- Fields that no rank logic reads are left out: description, difficulty, timestamps, YouTube link and the name uniqueness of users.
- The review's `admin_notes`, `reviewed_by` and `reviewed_at` bookkeeping is left out (app/admin/routes.py:55-57). So is the form validation of the review.
- Review.ToggleFirstVictor: takes the flag as a boolean. The Python truthiness of the JSON value is part of request parsing.
- The deprecated `recalculate_ranks` is left out (app/users/utils.py:198-222). It depends on vote and timestamp ordering and is no longer called by the ranking code.
- Authentication, user management, profiles, uploads, URL extraction, dashboards and leaderboards are left out, because they do not touch ranks or points.
- Models.TotalPoints: the SQL `SUM` is stated through a ghost set sum, `Models.SumPoints`, in which a level id with no row adds 0.

## Findings

| source | as written | input that shows it | evidently intended | confidence | as-written member | corrected member |
|---|---|---|---|---|---|---|
| app/admin/routes.py:152-155 | the new level is flushed with its requested rank before any other level is shifted, while `Level.rank` is unique | a level at rank 1; add a level at rank 1 | insert the level unranked, push the levels from 50 down to r one row at a time, then give it rank r | medium, not executed; assumes the database checks the unique constraint at each row write | WriteOrder.AddLevelAtOccupiedRank | WriteOrder.AddLevelWritesAreSafe |
| app/admin/routes.py:158-174 | even with the requested rank free, the loop bumps the displaced levels lowest rank first, so a level is moved onto a rank the next level still holds whenever two consecutive ranks at or above r are held | X (id 1) at 2 and Y (id 2) at 3; add a level at free rank 1: X moves to 3 while Y holds it | as in the row above: insert unranked, push from 50 down to r, then set rank r | medium, not executed; the loop's rows reach the database at the commit on line 174 in an order the ORM picks, and the input collides both in the loop's order and in id order | WriteOrder.AddLevelAscendingShiftCollides | WriteOrder.AddLevelWritesAreSafe |
| app/admin/routes.py:231-244 | the chain and the target are written row by row with the target still at its old rank. When the target sits right after the chain (moving a level up into an occupied block), the change is a cycle of ranks and any first write duplicates a rank. A chain that is not cyclic can collide too, depending on the order in which the commit writes the rows: with A (id 1) at 1, B (id 2) at 2 and C unranked, updating C to 1 collides if A is written first | levels A at 1 and B at 2; update B to rank 1 | clear the target's rank first, push the chain bottom-up, then set the target's rank | medium, not executed; assumes the database checks the unique constraint at each row write | WriteOrder.SwapCollides | WriteOrder.UpdateLevelRankWritesAreSafe |
