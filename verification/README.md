# Pantheon underwear tracker — a Dafny model of its wear-tracking engine

The application keeps a collection of garments ("underwear", "underliv",
"undergarments"), counts their washes, awards catalogue achievements when a
wash count reaches a threshold, retires and deletes garments, and shows
leaderboards, wear bars, avatars and page statistics computed from the
collection. The repository holds several diverging copies of the same engine:

- two local-storage registry hooks with a catalogue-driven evaluator;
- a "backend" hook with a hard-coded three-tier evaluator;
- a Django REST service that grants achievements on exact counts;
- two leaderboard pages: one built from sorts and one from greedy folds.

This project models each copy in its own module and proves the properties
each one promises. It also proves where the copies differ.

Layout (one module per source file, plus shared modules):

| module | models |
|---|---|
| `Wrappers`, `Text`, `Seqs`, `Ranking` | `Option`; `String.prototype.trim`; `filter`/`reduce`; JavaScript's stable `sort`, `slice` and first-maximum folds |
| `Catalog` | `MATERIAL_LIFESPANS` and `ACHIEVEMENTS_DATA` (src/types/underwear.ts) |
| `AchievementSpec` | what an achievement evaluator must return, independent of any copy |
| `Garments` | the garment record and the per-garment wash/retire/delete updates |
| `UseUnderwear`, `UseUnderLiv`, `UndergarmentsBackend` | the three client-side registry hooks, as classes over a `seq` field |
| `ApiViews` | the Django views, as a class holding the garment and achievement tables |
| `LeaderboardsFrontend`, `LeaderboardsGreedy`, `UseLeaderboard` | both leaderboard pages and the cross-user collection hook |
| `Lifespan`, `UnderwearCard`, `UnderLivCard`, `UnderwearAvatar`, `UnderLivAvatar` | wash budget, wear percentage, colour bands, action buttons, avatar accessories |
| `IndexPage`, `AddForm` | the main page's tiles and the add-garment form |
| `MockAuth`, `LocalAuth`, `LoginPage` | the mock authentication hook, the local user hook and the login page |

Conventions:

- Clock readings, generated ids and random picks are parameters.
- Dates are integer milliseconds.
- Percentages and efficiencies are `real`.
- Wash counts are `nat`.

Where the copies differ, each module follows its own file. Among the
registry hooks and the Django view, only `frontend/src/hooks/useUnderwear.ts`
refuses to wash a retired garment; both card components refuse a wash click on
a retired garment before it reaches a hook (src/components/UnderwearCard.tsx:64,
src/components/UnderLivCard.tsx:24). No copy refuses to retire a garment again;
a second retirement overwrites the date.

## Model

| member | source | states |
|---|---|---|
| Catalog.MaterialLifespan | src/types/underwear.ts:22-26 | cotton 60, blend 80, synthetic 100 washes; always between 60 and 100 |
| Catalog.AchievementsDataWellFormed | src/types/underwear.ts:28-61 | the shipped catalogue has strictly rising thresholds (10, 25, 50, 75), rising tiers and distinct ids |
| Catalog.LifespansOrdered | src/types/underwear.ts:22-26 | cotton wears out before blend, and blend before synthetic |
| Catalog.PrefixWellFormed | src/types/underwear.ts:28-61 | every prefix of a well-formed catalogue (e.g. the three-tier backend one) is well formed |
| Catalog.Stamp | frontend/src/hooks/useUnderwear.ts:37-44 | an unlocked achievement carries the entry's id and tier and the current clock reading |
| AchievementSpec.Unlocked | frontend/src/hooks/useUnderwear.ts:28-49 | the reference evaluator: the stamped catalogue entries that are due, in catalogue order; its properties are the `Unlocked…` lemmas below |
| AchievementSpec.UnlockedSound | frontend/src/hooks/useUnderwear.ts:32-46 | everything an evaluator returns is a stamped copy of a catalogue entry that is due (threshold met, id not held) |
| AchievementSpec.UnlockedComplete | frontend/src/hooks/useUnderwear.ts:32-46 | every due catalogue entry is returned |
| AchievementSpec.UnlockedEmptyIff | frontend/src/hooks/useUnderwear.ts:32-46 | nothing is returned exactly when no entry is due |
| AchievementSpec.UnlockedFresh | frontend/src/hooks/useUnderwear.ts:33-35 | returned ids are distinct and none was already held |
| AchievementSpec.UnlockedInCatalogOrder | src/hooks/useUnderLiv.ts:32-40 | returned achievements come in catalogue (tier) order |
| AchievementSpec.ReevaluationFindsNothing | frontend/src/hooks/useUndergarmentsBackend.ts:190-200 | evaluating again after merging, at the same count, finds nothing: no achievement is awarded twice |
| AchievementSpec.IdsConcat | frontend/src/hooks/useUnderwear.ts:29 | the held ids of a merged list are the ids of its parts |
| AchievementSpec.ReachedIds | src/types/underwear.ts:28-61 | the ids of the catalogue entries whose threshold a count meets, in catalogue order; stated by `ReachedIdsMembers` and `ReachedStep` |
| AchievementSpec.ReachedIdsMembers | src/types/underwear.ts:28-61 | an id is reached exactly when its entry's threshold is met |
| AchievementSpec.ReachedIdsDistinct | src/types/underwear.ts:28-61 | the reached ids of a catalogue with distinct ids are distinct |
| AchievementSpec.UnlockedAtNextCount | frontend/src/hooks/useUnderwear.ts:68-73 | when the held ids are exactly those reached, one more wash unlocks exactly the entries whose threshold is the new count |
| AchievementSpec.NoExactBelow | src/types/underwear.ts:28-61 | with rising thresholds, no earlier entry hits a threshold above all of them |
| AchievementSpec.ReachedStep | src/types/underwear.ts:28-61 | the ids reached at w+1 are those reached at w followed by those due exactly at w+1 |
| AchievementSpec.WashKeepsReached | frontend/src/hooks/useUnderwear.ts:64-76 | a wash keeps a garment's achievements equal to the reached prefix of the catalogue |
| AchievementSpec.ReachedMeansDistinct | frontend/src/hooks/useUnderwear.ts:64-76 | achievements matching the reached prefix have distinct ids |
| AchievementSpec.NothingReachedBelow | frontend/src/hooks/useUnderwear.ts:51-58 | below the lowest threshold nothing is reached, where every new garment starts |
| AchievementSpec.NoExactBelowZero | frontend/src/hooks/useUnderwear.ts:51-58 | the same, by induction over the catalogue |
| AchievementSpec.ShippedReached | src/types/underwear.ts:28-61 | over the shipped catalogue, the ids reached at w are those of thresholds 10, 25, 50, 75 that w meets |
| AchievementSpec.ShippedCatalogScenarios | src/types/underwear.ts:28-61 | nothing before 10 washes, fresh-prince alone from 10 to 24, clean-machine joins at 25, all four at 75 |
| Garments.FromDraft | frontend/src/hooks/useUnderwear.ts:51-58 | a new garment keeps the draft's fields and starts with no washes, not retired, without achievements |
| Garments.DayAge | src/components/UnderwearCard.tsx:99-101 | the age is the number of whole days since purchase, rounded down |
| Garments.WithWash | frontend/src/hooks/useUnderwear.ts:68-74 | a wash adds exactly one wash, keeps the earlier achievements as a prefix and changes no other field |
| Garments.WashKeepsConsistent | frontend/src/hooks/useUnderwear.ts:64-76 | a wash keeps a garment consistent with the catalogue, with distinct achievement ids |
| Garments.WithRetire | frontend/src/hooks/useUnderwear.ts:78-87 | retiring sets the flag and overwrites the date, nothing else |
| Garments.NewGarmentConsistent | frontend/src/hooks/useUnderwear.ts:51-58 | a fresh garment is consistent with any catalogue of positive thresholds |
| Garments.Without | frontend/src/hooks/useUnderwear.ts:89-91 | deleting keeps exactly the garments with another id |
| Garments.WithoutKeepsDistinct | frontend/src/hooks/useUnderwear.ts:89-91 | deleting keeps ids distinct |
| Garments.WithoutLength | frontend/src/hooks/useUnderwear.ts:89-91 | with distinct ids, deleting a present id removes one garment and an absent id removes none |
| UseUnderwear.CheckForNewAchievements | frontend/src/hooks/useUnderwear.ts:28-49 | the loop returns exactly the due catalogue entries in order, with fresh, distinct ids |
| UseUnderwear.WashOne | frontend/src/hooks/useUnderwear.ts:65-75 | unknown ids and retired garments are returned unchanged; the match gains one wash |
| UseUnderwear.UnderwearRegistry.constructor | frontend/src/hooks/useUnderwear.ts:7 | the collection starts empty and valid |
| UseUnderwear.UnderwearRegistry.Add | frontend/src/hooks/useUnderwear.ts:51-62 | appends and returns the defaulted garment; ids stay distinct and garments consistent |
| UseUnderwear.UnderwearRegistry.Wash | frontend/src/hooks/useUnderwear.ts:64-76 | every garment is mapped through `WashOne`; if every garment with the id is retired, nothing changes; validity kept |
| UseUnderwear.UnderwearRegistry.Retire | frontend/src/hooks/useUnderwear.ts:78-87 | garments with the id are retired with the date overwritten, even if already retired; others unchanged |
| UseUnderwear.UnderwearRegistry.Delete | frontend/src/hooks/useUnderwear.ts:89-91 | the collection becomes `Without(old, id)`; validity kept |
| UseUnderLiv.CheckForNewAchievements | src/hooks/useUnderLiv.ts:28-43 | the `forEach` loop returns exactly the due catalogue entries, with fresh, distinct ids |
| UseUnderLiv.WashOne | src/hooks/useUnderLiv.ts:59-71 | the garment with the id gains one wash whether or not it is retired |
| UseUnderLiv.WashCopiesDiffer | src/hooks/useUnderLiv.ts:60 | the two copies of wash agree on a garment unless it has the id and is retired |
| UseUnderLiv.UnderLivRegistry.constructor | src/hooks/useUnderLiv.ts:7 | the collection starts empty and valid |
| UseUnderLiv.UnderLivRegistry.Add | src/hooks/useUnderLiv.ts:45-56 | appends and returns the defaulted garment; validity kept |
| UseUnderLiv.UnderLivRegistry.Wash | src/hooks/useUnderLiv.ts:58-72 | every garment is mapped through this copy's `WashOne`; validity kept |
| UseUnderLiv.UnderLivRegistry.Retire | src/hooks/useUnderLiv.ts:74-85 | garments with the id are retired with the date overwritten |
| UseUnderLiv.UnderLivRegistry.Delete | src/hooks/useUnderLiv.ts:87-89 | the collection becomes `Without(old, id)` |
| UndergarmentsBackend.BackendCatalogWellFormed | frontend/src/hooks/useUndergarmentsBackend.ts:43-77 | the hard-coded evaluator's table is the shipped catalogue without its legendary entry, and is well formed |
| UndergarmentsBackend.CheckAchievements | frontend/src/hooks/useUndergarmentsBackend.ts:39-80 | returns exactly the due entries among the three tiers, never a legendary one, with fresh, distinct ids |
| UndergarmentsBackend.BackendUnlocked | frontend/src/hooks/useUndergarmentsBackend.ts:43-77 | the three checks, in order: fresh-prince at ≥10, clean-machine at ≥25, wash-warrior at ≥50, each only if not held |
| UndergarmentsBackend.BackendMissesLegendary | frontend/src/hooks/useUndergarmentsBackend.ts:39-80 | at 75 washes the catalogue evaluator grants immortal-briefs and this one does not |
| UndergarmentsBackend.BackendReached | frontend/src/hooks/useUndergarmentsBackend.ts:43-77 | the reached ids are those of the shipped catalogue without immortal-briefs |
| UndergarmentsBackend.WashOne | frontend/src/hooks/useUndergarmentsBackend.ts:173-185 | the match gains one wash (retired or not); owner and id kept; others unchanged |
| UndergarmentsBackend.Find | frontend/src/hooks/useUndergarmentsBackend.ts:191 | the first garment with the id, or none exactly when no garment has it |
| UndergarmentsBackend.WashEntry | frontend/src/hooks/useUndergarmentsBackend.ts:174-182 | one step of the wash map equals `WashOne` and keeps the garment consistent |
| UndergarmentsBackend.WashNoticeAsWritten | frontend/src/hooks/useUndergarmentsBackend.ts:190-200 | the toast check as written: `checkAchievements` re-run on the merged garment found by id; `WashNoticeAsWrittenNeverFires` proves it is always none |
| UndergarmentsBackend.WashNotice | frontend/src/hooks/useUndergarmentsBackend.ts:190-200 | the corrected toast: the first achievement the wash itself unlocked; `WashNoticeFiresAtThresholds` proves when it fires |
| UndergarmentsBackend.WashNoticeAsWrittenNeverFires | frontend/src/hooks/useUndergarmentsBackend.ts:190-200 | the toast check as written, run on the already-merged garment, never finds an achievement |
| UndergarmentsBackend.WashNoticeFiresAtThresholds | frontend/src/hooks/useUndergarmentsBackend.ts:190-200 | the corrected notice fires exactly when the new count is 10, 25 or 50 |
| UndergarmentsBackend.BackendRegistry.constructor | frontend/src/hooks/useUndergarmentsBackend.ts:83 | starts with no garments |
| UndergarmentsBackend.BackendRegistry.Add | frontend/src/hooks/useUndergarmentsBackend.ts:127-166 | with no signed-in user nothing changes; otherwise the defaulted garment with the user's id is appended |
| UndergarmentsBackend.BackendRegistry.Wash | frontend/src/hooks/useUndergarmentsBackend.ts:168-209 | with no signed-in user nothing changes; otherwise every garment with the id gains one wash and the achievements due at the new count, retired or not, and validity is kept; the notice is the toast check as written, on the merged list, and it is always none |
| UndergarmentsBackend.BackendRegistry.Retire | frontend/src/hooks/useUndergarmentsBackend.ts:211-242 | with no signed-in user nothing changes; otherwise garments with the id are retired with the date overwritten |
| UndergarmentsBackend.BackendRegistry.Delete | frontend/src/hooks/useUndergarmentsBackend.ts:244-265 | with no signed-in user nothing changes; otherwise every garment with the id goes |
| UndergarmentsBackend.GarmentsOf | frontend/src/hooks/useUndergarmentsBackend.ts:13-26 | an undergarment list's garments, in order |
| UndergarmentsBackend.WithoutUndergarment | frontend/src/hooks/useUndergarmentsBackend.ts:249 | deleting keeps exactly the undergarments with another id |
| UndergarmentsBackend.WithoutUndergarmentKeeps | frontend/src/hooks/useUndergarmentsBackend.ts:249 | deleting keeps ids distinct |
| ApiViews.ExactMilestone | api/views.py:116-154 | the milestone whose threshold equals the count, if any; only 10, 25 and 50 have one |
| ApiViews.ThresholdOf | api/views.py:120-154 | each milestone name stands for its count, 10, 25 or 50 |
| ApiViews.Acted | api/views.py:81-94 | the garment after an action: wash adds one, retire sets the flag and date, anything else changes nothing; stated by the three lemmas that follow |
| ApiViews.WashActionCounts | api/views.py:83-88 | the wash action adds one wash, ignores the retired flag and changes nothing else |
| ApiViews.RetireOverwrites | api/views.py:90-93 | retiring twice keeps only the later date and never touches the count |
| ApiViews.OtherActionsChangeNothing | api/views.py:81-95 | any other action, or none, returns the garment unchanged |
| ApiViews.GrantedUpToReached | api/views.py:116-154 | on a count that moves by one, the exact checks grant exactly the reached milestones, in order, once each |
| ApiViews.ExactMissesSkippedCount | api/views.py:121 | a count that skipped 10 (e.g. 12) gets nothing, although a milestone is reached |
| ApiViews.Database.constructor | backend/api/models.py:12-58 | both tables start empty and valid |
| ApiViews.Database.List | api/views.py:54-60 | exactly the requester's garments |
| ApiViews.Database.Leaderboard | api/views.py:108-114 | every garment of every user |
| ApiViews.Database.Create | api/views.py:62-70 | a new garment of the requester with no washes, not retired, under a fresh key; achievements unchanged |
| ApiViews.Database.GetOrCreate | api/views.py:122-130 | the row with that garment and name if there is one, otherwise a new row appended; created exactly when none existed |
| ApiViews.Database.CheckAchievements | api/views.py:116-154 | adds the row of the milestone the count hits exactly, unless it exists; otherwise nothing |
| ApiViews.Database.Wash | api/views.py:83-88 | one more wash; only rows of this garment at its new count are added; every reached milestone keeps its row |
| ApiViews.Database.Retire | api/views.py:90-93 | flag and date set, whether or not already retired; rows unchanged |
| ApiViews.Database.Update | api/views.py:72-95 | 404 with nothing changed unless the garment exists and is the requester's; otherwise the action is applied and the garment returned |
| ApiViews.Database.Delete | api/views.py:97-106 | 404 with nothing changed unless the garment exists and is the requester's; otherwise 204, the garment gone and its rows cascaded |
| ApiViews.Cascade | backend/api/models.py:46 | the surviving rows are those of other garments |
| ApiViews.CascadeKeepsRows | backend/api/models.py:46 | no row of another garment is lost |
| ApiViews.CascadeKeepsKeys | backend/api/models.py:46 | row keys stay distinct |
| ApiViews.ListWithinLeaderboard | api/views.py:54-60 | a user's list is within the leaderboard and holds only their garments |
| ApiViews.LeaderboardIsUnionOfLists | api/views.py:108-114 | every leaderboard garment is in its owner's list |
| Seqs.Filter | src/pages/Index.tsx:14-15 | `filter` keeps exactly the elements satisfying the predicate |
| Seqs.FilterConcat | src/pages/Index.tsx:14-15 | filtering distributes over concatenation |
| Seqs.FilterPartition | src/pages/Index.tsx:14-15 | two complementary filters split a list (length and multiset) |
| Seqs.SumConcat | src/pages/Index.tsx:96 | a summing `reduce` over a concatenation is the sum of the parts |
| Seqs.SumBoundsTerms | src/pages/Index.tsx:96 | a sum of non-negative terms is non-negative and bounds each term |
| Seqs.SumPartition | src/pages/Index.tsx:96 | two complementary filters split the sum |
| Seqs.FilterKeepsPairwise | backend/api/models.py:46 | a relation between earlier and later elements survives filtering |
| Ranking.Insert | frontend/src/components/Leaderboards.tsx:31 | inserting adds exactly one element (as a multiset) |
| Ranking.InsertSorted | frontend/src/components/Leaderboards.tsx:31 | inserting into a descending list keeps it descending |
| Ranking.SortDesc | frontend/src/components/Leaderboards.tsx:31 | the sort is a permutation of its input |
| Ranking.SortDescSorted | frontend/src/components/Leaderboards.tsx:31 | the sort's result is in descending key order |
| Ranking.SortStable | frontend/src/components/Leaderboards.tsx:31 | elements with equal keys keep their input order, as JavaScript's stable sort does |
| Ranking.Take | frontend/src/components/Leaderboards.tsx:32 | `slice(0, n)` is the prefix of length min(n, length) |
| Ranking.TopOfSorted | frontend/src/components/Leaderboards.tsx:30-32 | the top n are sorted, drawn from the input, and no left-out element beats a kept one |
| Ranking.TopSorted | frontend/src/components/Leaderboards.tsx:30-32 | the top n are sorted and at most n |
| Ranking.TopKeeps | frontend/src/components/Leaderboards.tsx:30-32 | a property of every input element holds of every kept one |
| Ranking.GreedyMax | src/components/Leaderboards.tsx:16-19 | the fold finds nothing only on an empty list |
| Ranking.GreedyMaxIsFirstMax | src/components/Leaderboards.tsx:16-19 | the strict-greater fold picks the first element with the largest key |
| Ranking.SortHeadIsFirstMax | frontend/src/components/Leaderboards.tsx:31 | the head of the stable sort is the first element with the largest key |
| Ranking.GreedyMaxIsSortHead | src/components/Leaderboards.tsx:16-19 | the greedy pick is the head of the stable descending sort |
| LeaderboardsFrontend.RatioBudget | frontend/src/components/Leaderboards.tsx:49 | the efficiency denominator: the lifespan, or the custom count with 0 meaning 100; never zero |
| LeaderboardsFrontend.Efficiency | frontend/src/components/Leaderboards.tsx:50 | efficiency times the budget is the wash count |
| LeaderboardsFrontend.AgedList | frontend/src/components/Leaderboards.tsx:35-38 | each garment paired with its age in whole days |
| LeaderboardsFrontend.RatedList | frontend/src/components/Leaderboards.tsx:48-52 | each garment paired with its efficiency |
| LeaderboardsFrontend.MostWashed | frontend/src/components/Leaderboards.tsx:30-32 | copy, stable sort by descending count, first five; stated by `MostWashedRanks` |
| LeaderboardsFrontend.LongestLifespan | frontend/src/components/Leaderboards.tsx:34-40 | active garments with their age in days, stable sort oldest first, first five; stated by `LongestLifespanRanks` |
| LeaderboardsFrontend.LeastWashed | frontend/src/components/Leaderboards.tsx:42-45 | washed active garments, stable sort by ascending count, first five; stated by `LeastWashedRanks` |
| LeaderboardsFrontend.BestRatio | frontend/src/components/Leaderboards.tsx:47-54 | active garments with their efficiency, stable sort by descending efficiency, first five; stated by `BestRatioRanks` |
| LeaderboardsFrontend.MostWashedRanks | frontend/src/components/Leaderboards.tsx:30-32 | the most-washed list includes retired garments, is descending by count, has at most five entries, and no left-out garment has more washes |
| LeaderboardsFrontend.MostWashedOrder | frontend/src/components/Leaderboards.tsx:31 | the most-washed list is descending by count |
| LeaderboardsFrontend.MostWashedBound | frontend/src/components/Leaderboards.tsx:32 | no left-out garment has more washes than a listed one |
| LeaderboardsFrontend.LongestLifespanRanks | frontend/src/components/Leaderboards.tsx:34-40 | exactly min(5, active count) entries, oldest first, each an active garment of the collection with its age; a sub-multiset of the active ages, and no active garment left out is older than a listed one |
| LeaderboardsFrontend.LeastWashedRanks | frontend/src/components/Leaderboards.tsx:42-45 | exactly min(5, washed active count) entries, fewest washes first, each an active garment with at least one wash; a sub-multiset of those, and no washed active garment left out has fewer washes than a listed one |
| LeaderboardsFrontend.BestRatioRanks | frontend/src/components/Leaderboards.tsx:47-54 | exactly min(5, active count) entries, most efficient first, each an active garment with its efficiency; a sub-multiset of the active ratings, and no active garment left out is more efficient than a listed one |
| LeaderboardsFrontend.LongestLifespanBound | frontend/src/components/Leaderboards.tsx:34-40 | the age ranking has the full length, is oldest first, and no active garment left out is older than a listed one |
| LeaderboardsFrontend.LeastWashedBound | frontend/src/components/Leaderboards.tsx:42-45 | the least-washed ranking has the full length, is ascending, and no washed active garment left out has fewer washes than a listed one |
| LeaderboardsFrontend.BestRatioBound | frontend/src/components/Leaderboards.tsx:47-54 | the efficiency ranking has the full length, is descending, and no active garment left out is more efficient than a listed one |
| LeaderboardsFrontend.MostWashedStable | frontend/src/components/Leaderboards.tsx:31 | garments with equal counts keep collection order |
| LeaderboardsFrontend.Stats | frontend/src/components/Leaderboards.tsx:196-211 | the four hall stats: total, active, summed washes, retired; the same four figures on the greedy page (src/components/Leaderboards.tsx:211-226); stated by `StatsAddUp` |
| LeaderboardsFrontend.StatsAddUp | frontend/src/components/Leaderboards.tsx:196-211 | active plus retired is the total; washes are non-negative and bound each garment's count |
| LeaderboardsFrontend.RankEmoji | frontend/src/components/Leaderboards.tsx:59-64 | gold, silver, bronze for places 0, 1, 2; a sports medal otherwise |
| LeaderboardsFrontend.RankEmojiPodium | frontend/src/components/Leaderboards.tsx:59-64 | the podium's three medals differ from each other and from later places |
| LeaderboardsGreedy.GreedyMostWashed | src/components/Leaderboards.tsx:16-19 | the strict `>` fold over all garments; stated by `GreedyMostWashedIsTop` |
| LeaderboardsGreedy.GreedyLongest | src/components/Leaderboards.tsx:21-25 | the strict `>` fold over the active garments' ages; stated by `GreedyLongestIsTop` |
| LeaderboardsGreedy.GreedyLeastWashed | src/components/Leaderboards.tsx:27-31 | the least-washed fold over the active garments; stated by `GreedyLeastCharacterised` and `GreedyLeastWashedVersusRanking` |
| LeaderboardsGreedy.GuardedEfficiency | src/components/Leaderboards.tsx:34-35 | `max ? washCount / max : 0`; stated by `GuardedEfficiencyAgrees` |
| LeaderboardsGreedy.GreedyBestEfficiency | src/components/Leaderboards.tsx:33-38 | the strict `>` fold over the active garments' guarded efficiencies; stated by `GreedyBestEfficiencyIsTop` |
| LeaderboardsGreedy.GreedyLeast | src/components/Leaderboards.tsx:27-31 | the least-washed fold finds nothing only on an empty list |
| LeaderboardsGreedy.GuardedEfficiencyAgrees | src/components/Leaderboards.tsx:34-35 | the zero guard never fires; both pages compute the same efficiency |
| LeaderboardsGreedy.GuardedRatedList | src/components/Leaderboards.tsx:33-38 | each active garment paired with its guarded efficiency |
| LeaderboardsGreedy.GreedyMostWashedIsTop | src/components/Leaderboards.tsx:16-19 | the greedy pick is the first of the most-washed ranking; none only for an empty collection |
| LeaderboardsGreedy.GreedyLongestIsTop | src/components/Leaderboards.tsx:21-25 | the oldest pick is the first of the age ranking; none only with no active garment |
| LeaderboardsGreedy.GreedyBestEfficiencyIsTop | src/components/Leaderboards.tsx:33-38 | the efficiency pick is the first of the efficiency ranking; none only with no active garment |
| LeaderboardsGreedy.GreedyLeastCharacterised | src/components/Leaderboards.tsx:27-31 | the fold picks the first washed garment with the fewest washes, or the first unwashed one if none is washed |
| LeaderboardsGreedy.LeastStepFromUnwashed | src/components/Leaderboards.tsx:28 | the fold's step while only unwashed garments have been seen |
| LeaderboardsGreedy.LeastStepFromWashed | src/components/Leaderboards.tsx:29 | the fold's step once a washed garment has been seen |
| LeaderboardsGreedy.GreedyMaxAppend | src/components/Leaderboards.tsx:16-19 | the fold over one more element keeps the pick unless the new key is strictly larger |
| LeaderboardsGreedy.GreedyLeastWashedVersusRanking | src/components/Leaderboards.tsx:27-31 | with a washed active garment the pick heads the least-washed ranking; otherwise it is the first unwashed active garment, which the ranking leaves out |
| UseLeaderboard.StorageKey | frontend/src/hooks/useLeaderboard.ts:59 | the key is the fixed prefix followed by the user id |
| UseLeaderboard.Tagged | frontend/src/hooks/useLeaderboard.ts:63-70 | each stored garment is kept and tagged with its owner |
| UseLeaderboard.FetchLeaderboard | frontend/src/hooks/useLeaderboard.ts:48-87 | the loop's result is the stable descending sort of everything collected from the three users |
| UseLeaderboard.Contribution | frontend/src/hooks/useLeaderboard.ts:59-74 | one user's tagged list, or nothing for a missing or unparseable entry; stated by `UnreadableUserSkipped` and `NothingFromUnreadable` |
| UseLeaderboard.Collected | frontend/src/hooks/useLeaderboard.ts:58-76 | the contributions of the users in order; stated by `CollectedLength`, `CollectedFromOwners` and `CollectedConcat` |
| UseLeaderboard.CollectedLength | frontend/src/hooks/useLeaderboard.ts:58-76 | the leaderboard is as long as the readable lists together |
| UseLeaderboard.LeaderboardOrdered | frontend/src/hooks/useLeaderboard.ts:79 | descending by count; equal counts keep collection order |
| UseLeaderboard.CollectedFromOwners | frontend/src/hooks/useLeaderboard.ts:58-76 | every entry comes from its owner's parsed list |
| UseLeaderboard.CollectedConcat | frontend/src/hooks/useLeaderboard.ts:58 | collecting from two groups of users is collecting from each in turn |
| UseLeaderboard.UnreadableUserSkipped | frontend/src/hooks/useLeaderboard.ts:60-74 | a missing or unparseable entry contributes nothing and the other users are collected as before |
| UseLeaderboard.NothingFromUnreadable | frontend/src/hooks/useLeaderboard.ts:60-74 | an unreadable user alone gives an empty list |
| Lifespan.Budget | src/components/UnderwearCard.tsx:18-20 | a custom garment's own count (0 means 100, never below 1), otherwise the material lifespan; always at least 1 |
| Lifespan.RawPercent | src/components/UnderLivAvatar.tsx:8-13 | the uncapped percentage times the budget is 100 times the washes |
| Lifespan.CappedPercent | src/components/UnderwearCard.tsx:21 | the capped percentage lies in [0, 100] and never exceeds the raw one |
| Lifespan.RawPercentAtLeast | src/components/UnderLivAvatar.tsx:8-13 | the percentage reaches a cut exactly when 100 × washes reaches cut × budget |
| Lifespan.CappedFullIffBudgetReached | src/components/UnderwearCard.tsx:21 | the capped percentage is 100 exactly when the count reaches the budget |
| Lifespan.PercentMonotone | src/components/UnderwearCard.tsx:21 | one more wash never lowers either percentage |
| UnderwearCard.LifespanColor | src/components/UnderwearCard.tsx:23-28 | green below 25, yellow below 50, orange below 75, red from 75, each band in both directions |
| UnderwearCard.LifespanColorMonotone | src/components/UnderwearCard.tsx:23-28 | the colour never gets milder as the percentage rises |
| UnderwearCard.LifespanText | src/components/UnderwearCard.tsx:30-36 | the five messages, cut at 25, 50, 75, 95 |
| UnderwearCard.LifespanTextMonotone | src/components/UnderwearCard.tsx:30-36 | the message never steps back as the percentage rises; below 75 it matches the colour band |
| UnderwearCard.WashRequest | src/components/UnderwearCard.tsx:63-66 | a retired garment's wash click does nothing; otherwise the garment's id is sent |
| UnderwearCard.Actions | src/components/UnderwearCard.tsx:157-182 | buttons exactly for an active garment; the badge shows the retirement date |
| UnderwearCard.WashDisabledIffWornOut | src/components/UnderwearCard.tsx:164 | the wash button is disabled exactly when the count reaches the budget |
| UnderwearCard.CardBandsOfCount | src/components/UnderwearCard.tsx:21-36 | red exactly from three quarters of the budget; "borrowed time" exactly from 95% |
| UnderLivCard.SeverityOf | src/components/UnderLivCard.tsx:78-82 | danger from 80, warning from 60, info from 40, success below, each in both directions |
| UnderLivCard.SeverityMonotone | src/components/UnderLivCard.tsx:78-82 | the bar never gets milder as the percentage rises |
| UnderLivCard.BarColor | src/components/UnderLivCard.tsx:78-81 | the bar's band of the capped percentage; stated by `BarDangerAtFourFifths` and `SeverityMonotone` |
| UnderLivCard.BarDangerAtFourFifths | src/components/UnderLivCard.tsx:78-82 | the bar is red exactly from four fifths of the budget |
| UnderLivCard.Actions | src/components/UnderLivCard.tsx:89-112 | buttons exactly for an active garment; the badge shows the retirement date |
| UnderLivCard.WashNeverDisabled | src/components/UnderLivCard.tsx:94 | the wash button is never disabled, even for a worn-out garment that the other card disables |
| UnderLivCard.WashGuardShared | src/components/UnderLivCard.tsx:23-26 | the wash guard is the other card's: refused exactly for a retired garment |
| UnderLivAvatar.AvatarGlow | src/components/UnderLivAvatar.tsx:15-23 | retired glow exactly for a retired garment; otherwise the severity band of the uncapped percentage |
| UnderLivAvatar.GetAccessories | src/components/UnderLivAvatar.tsx:25-40 | the user's accessories, then sunglasses from 80%, a hat from 90%, then "retired" for a retired garment |
| UnderLivAvatar.Accessories | src/components/UnderLivAvatar.tsx:25-40 | the list `getAccessories` builds; stated by `AccessoriesShape`, `SunglassesCanRepeat` and `SunglassesAtFourFifths` |
| UnderLivAvatar.AccessoriesShape | src/components/UnderLivAvatar.tsx:25-40 | the user's list is a prefix; a hat comes only with sunglasses; "retired" is last exactly when retired |
| UnderLivAvatar.SunglassesCanRepeat | src/components/UnderLivAvatar.tsx:30-33 | a user's sunglasses and the automatic ones both appear: nothing is de-duplicated |
| UnderLivAvatar.SunglassesAtFourFifths | src/components/UnderLivAvatar.tsx:33 | sunglasses appear exactly from four fifths of the budget |
| UnderwearAvatar.AvatarBudget | src/components/UnderwearAvatar.tsx:9-10 | the denominator by material; stated by `AvatarBudgetIsLifespan` |
| UnderwearAvatar.AvatarBudgetIsLifespan | src/components/UnderwearAvatar.tsx:9-10 | for the three standard materials this equals the lifespan table; a custom garment gets 100 whatever its own count |
| UnderwearAvatar.AvatarPercent | src/components/UnderwearAvatar.tsx:8-12 | the percentage times the budget is 100 times the washes |
| UnderwearAvatar.AvatarGlow | src/components/UnderwearAvatar.tsx:14-21 | retired exactly when retired; otherwise new below 25, worn from 75, used between |
| UnderwearAvatar.GetAccessories | src/components/UnderwearAvatar.tsx:23-34 | holes past 25%, patches past 50%, threads past 75%, then "retired" for a retired garment, in that order |
| UnderwearAvatar.Markers | src/components/UnderwearAvatar.tsx:25-33 | the markers in push order; stated by `MarkersNested` and `HolesPastAQuarter` |
| UnderwearAvatar.MarkersNested | src/components/UnderwearAvatar.tsx:28-31 | threads imply patches imply holes; "retired" is last exactly when retired |
| UnderwearAvatar.HolesPastAQuarter | src/components/UnderwearAvatar.tsx:28 | holes appear exactly past a quarter of the budget |
| IndexPage.ActiveUnderwear | src/pages/Index.tsx:14 | the garments not retired, in order; stated by `ActiveRetiredPartition` |
| IndexPage.RetiredUnderwear | src/pages/Index.tsx:15 | the retired garments, in order; stated by `ActiveRetiredPartition` |
| IndexPage.ActiveRetiredPartition | src/pages/Index.tsx:14-15 | active and retired garments split the collection and both filters commute with concatenation |
| IndexPage.RoundedAverage | src/pages/Index.tsx:110-113 | `Math.round(sum / n) \|\| 0`: the nearest integer, halves rounding up, and 0 for no garments |
| IndexPage.Page | src/pages/Index.tsx:39-120 | the total is the size; hall of fame plus retired is the total; welcome exactly when empty; quick stats exactly when not |
| IndexPage.QuickStatsAddUp | src/pages/Index.tsx:92-120 | the washes and achievements tiles are non-negative, bound each garment's figure and split into active and retired shares |
| IndexPage.AverageOfEqualAges | src/pages/Index.tsx:110-113 | garments all of the same age average to that age |
| IndexPage.RoundedAverageExact | src/pages/Index.tsx:110-113 | averaging n equal values gives that value |
| IndexPage.EqualTermsSum | src/pages/Index.tsx:110-113 | summing n equal ages gives n times that age |
| AddForm.EmptyDraft | src/components/AddUnderwearForm.tsx:25-32 | empty name, cotton, 60 custom washes, no accessories, the given colour and today |
| AddForm.DedupIntoSpec | src/components/AddUnderwearForm.tsx:189 | `Array.from(new Set(...))` keeps first occurrences: same members, no repeats, earlier ones first |
| AddForm.AppendNewKeepsDistinct | src/components/AddUnderwearForm.tsx:189 | appending a new element keeps a list free of repeats |
| AddForm.Toggled | src/components/AddUnderwearForm.tsx:185-191 | checking adds through a set, unchecking filters out; stated by `ToggledSpec`, `CheckThenUncheck` and `UncheckIdempotent` |
| AddForm.ToggledSpec | src/components/AddUnderwearForm.tsx:187-191 | checking makes the accessory present once; unchecking removes every copy and keeps the rest |
| AddForm.CheckAppends | src/components/AddUnderwearForm.tsx:189 | checking a new accessory appends it at the end |
| AddForm.DedupOfDistinct | src/components/AddUnderwearForm.tsx:189 | de-duplicating a repeat-free list changes nothing |
| AddForm.CheckThenUncheck | src/components/AddUnderwearForm.tsx:187-191 | checking then unchecking a new accessory restores the list |
| AddForm.FilterOutAbsent | src/components/AddUnderwearForm.tsx:190 | unchecking an absent accessory changes nothing |
| AddForm.UncheckIdempotent | src/components/AddUnderwearForm.tsx:190 | unchecking twice is unchecking once |
| AddForm.CoercedCustomWashes | src/components/AddUnderwearForm.tsx:174 | an empty field becomes 1; a number is kept |
| AddForm.GeneratedName | src/components/AddUnderwearForm.tsx:65-68 | `${adj} ${noun}` for the picked words; stated by `GeneratedNameNotBlank` |
| AddForm.GeneratedNameNotBlank | src/components/AddUnderwearForm.tsx:52-69 | a generated name (an adjective, a space and a noun from the two fixed lists) always passes the submit check |
| AddForm.Form.constructor | src/components/AddUnderwearForm.tsx:23-32 | closed, with the empty draft in the first preset colour |
| AddForm.Form.Open | src/components/AddUnderwearForm.tsx:74 | opens and keeps the draft |
| AddForm.Form.Close | src/components/AddUnderwearForm.tsx:97 | closes and keeps the draft |
| AddForm.Form.HandleSubmit | src/components/AddUnderwearForm.tsx:34-50 | a blank name changes nothing; otherwise the draft is handed on, the form reset with a preset colour, and closed |
| AddForm.Form.ToggleAccessory | src/components/AddUnderwearForm.tsx:185-206 | the accessories become the toggled list; nothing else changes |
| AddForm.Form.SetCustomWashes | src/components/AddUnderwearForm.tsx:174 | the custom count becomes the coerced entry |
| AddForm.Form.GenerateRandomName | src/components/AddUnderwearForm.tsx:52-69 | the name becomes a generated, non-blank one |
| MockAuth.FindByUsername | frontend/src/hooks/useAuth.ts:75 | the first user with that name, or none exactly when no user has it |
| MockAuth.Accepts | frontend/src/hooks/useAuth.ts:75-78 | a user with that name exists and the stored password matches; stated by `SeedTable`, `AppendKeepsValid` and `Auth.Login` |
| MockAuth.FoundUserIsUnique | frontend/src/hooks/useAuth.ts:75 | in a valid table, any user with the name is the one found |
| MockAuth.AppendKeepsValid | frontend/src/hooks/useAuth.ts:139-146 | adding a user with a new name and email keeps the table valid and accepts the new credentials |
| MockAuth.SeedTable | frontend/src/hooks/useAuth.ts:17-28 | the seed table is valid; admin/admin123 and user2/password123 are accepted, wrong or unknown ones refused |
| MockAuth.Auth.constructor | frontend/src/hooks/useAuth.ts:31-35 | signed out and loading, over the seed tables |
| MockAuth.Auth.CheckAuth | frontend/src/hooks/useAuth.ts:39-64 | signed in exactly when the stored entry parses, as that user; loading ends either way |
| MockAuth.Auth.Login | frontend/src/hooks/useAuth.ts:69-111 | succeeds exactly for a known name with its password; then signed in as that user; otherwise nothing changes |
| MockAuth.Auth.Register | frontend/src/hooks/useAuth.ts:113-173 | a taken name is refused first, then a taken email; otherwise the user is added, signed in, and the credentials accepted |
| MockAuth.Auth.Logout | frontend/src/hooks/useAuth.ts:175-204 | signed out with the stored entry cleared; the tables are kept |
| LocalAuth.DisplayName | src/hooks/useLocalAuth.ts:29 | the trimmed name, or the default name for a blank one |
| LocalAuth.NormalEmail | src/hooks/useLocalAuth.ts:30 | the trimmed email, or none for a missing or blank one |
| LocalAuth.DisplayNameNormal | src/hooks/useLocalAuth.ts:29 | a display name is never blank, needs no trim, and is its own display name |
| LocalAuth.TrimmedNormal | src/hooks/useLocalAuth.ts:29-30 | trimming a non-blank string gives a non-blank one that trims to itself |
| LocalAuth.NormalEmailNormal | src/hooks/useLocalAuth.ts:30 | a normalised email is never blank and normalises to itself |
| LocalAuth.MakeUser | src/hooks/useLocalAuth.ts:27-32 | the record `login` builds from the display name and the normalised email; stated by `MakeUserIdempotent` and `Session.Login` |
| LocalAuth.MakeUserIdempotent | src/hooks/useLocalAuth.ts:26-35 | building a user from a built user's name and email gives the same user |
| LocalAuth.TrimOfDefault | src/hooks/useLocalAuth.ts:29 | the default name is not blank and has nothing to trim |
| LocalAuth.GetStoredUser | src/hooks/useLocalAuth.ts:45-52 | the stored user exactly when the entry parses; otherwise none |
| LocalAuth.Session.constructor | src/hooks/useLocalAuth.ts:15-24 | the user is what the stored entry gives |
| LocalAuth.Session.Login | src/hooks/useLocalAuth.ts:26-35 | the normalised user is stored and signed in, and reading the store gives it back |
| LocalAuth.Session.Logout | src/hooks/useLocalAuth.ts:37-40 | the entry is removed and reading the store gives nothing |
| Text.TrimStart | frontend/src/pages/Login.tsx:49 | drops exactly the leading white space |
| Text.TrimEnd | frontend/src/pages/Login.tsx:49 | drops exactly the trailing white space |
| Text.TrimEmptyIffBlank | frontend/src/pages/Login.tsx:49 | `!s.trim()` holds exactly for blank strings |
| Text.TrimIdempotent | src/hooks/useLocalAuth.ts:29 | trimming twice is trimming once |
| LoginPage.Opener | frontend/src/pages/Login.tsx:28 | always one of the five openers |
| LoginPage.OpenerCycles | frontend/src/pages/Login.tsx:10-31 | the opener repeats every five ticks and changes on every tick |
| LoginPage.SubmitDecision | frontend/src/pages/Login.tsx:44-73 | the guards of `onSubmit` in their order; stated by `SubmitDecisionGuards` |
| LoginPage.SubmitDecisionGuards | frontend/src/pages/Login.tsx:41-73 | in-flight submits are ignored; a blank username or password is refused; a blank email is refused when registering; otherwise register or login is called, each in both directions |
| LoginPage.Page.constructor | frontend/src/pages/Login.tsx:22-39 | empty fields, login mode, not submitting, first opener |
| LoginPage.Page.Tick | frontend/src/pages/Login.tsx:31 | the counter moves by one and the opener changes; nothing else |
| LoginPage.Page.ToggleMode | frontend/src/pages/Login.tsx:159 | switches between login and register; nothing else |
| LoginPage.Page.OnSubmit | frontend/src/pages/Login.tsx:41-88 | follows the submit decision; refused submits change nothing; navigation happens exactly when the call succeeds; submitting ends after a call |
| LoginPage.Call | frontend/src/pages/Login.tsx:71-73 | login succeeds exactly for accepted credentials; a successful register leaves them accepted |

## Left out

- Persistence: `localStorage` and JSON are abstracted. A stored entry is "absent", "unparseable" or "parsed". The registries hold their list directly. Save-on-change effects are not modelled, and neither is the underliv hook's skipping of saves for an empty list (src/hooks/useUnderLiv.ts:22-26).
- Asynchrony: `async` delays, timers, `try`/`catch` around code that cannot throw in the model, toasts, React rendering and navigation are left out. Navigation appears only as a boolean result of `LoginPage.Page.OnSubmit`.
- Clock, ids and randomness are parameters. These are the current time, `Math.random` ids, `crypto.randomUUID`, the random preset colour and the random name words. Registry `Add` requires a fresh id.
- Catalog.Stamp: one clock reading stamps every achievement of an evaluation; the source reads the clock once per achievement.
- LeaderboardsFrontend.AgedList: one clock reading ages every garment; frontend/src/components/Leaderboards.tsx:37 reads `Date.now()` once per garment. The same holds for `LeaderboardsGreedy.GreedyLongest` (src/components/Leaderboards.tsx:22).
- IndexPage.AgeAt: one clock reading ages every garment; src/pages/Index.tsx:111 reads `Date.now()` once per garment.
- Ranking.SortDesc: JavaScript's in-place `Array.prototype.sort` is modelled as a stable insertion sort on values. The copy-then-sort in the source has no aliasing to capture.
- Comparators are modelled as real keys. `b.washCount - a.washCount` and its relatives compare numbers; NaN and floating-point rounding are not modelled, and the percentages and efficiencies are exact reals.
- frontend/src/hooks/useUndergarmentsBackend.ts:95-125 (`fetchUndergarments`) only reads storage, so it is not modelled. The current user's id is a parameter of each operation.
- ApiViews: the list ordering by `-created_at`, the serializers' validation and the register/login/logout/user-info views (api/views.py:13-51) are not modelled. Authentication appears as a requester id.
- ApiViews.Database.CheckAchievements: `get_or_create` is keyed by garment and name as in the source. Concurrent requests and database transactions are not modelled.
- MockAuth.Auth: `MOCK_USERS` and `MOCK_PASSWORDS` are module-level arrays shared by every hook instance; the model makes them fields of one `Auth` object.
- MockAuth.Auth.Register: `Date.now()` as the new id is a parameter.
- MockAuth.Auth.Register: `MOCK_PASSWORDS` is a plain object (frontend/src/hooks/useAuth.ts:24) and the model a map. For the username `__proto__` the assignment at line 147 does not store the password, so the later `login` (lines 76-78) fails; the model claims the new credentials are accepted.
- src/hooks/useAuth.ts and src/pages/Login.tsx are older copies that call a network client; they are not part of this model.
- src/components/Leaderboards.tsx:165-200 renders `mostWashed`, `longestLifespan`, `leastWashed` and `bestRatio`, which that file never defines. The model gives that page only its greedy picks, compared with the frontend page's rankings.
- AddForm.Form: the setters for name, colour, material and purchase date are plain field assignments from inputs and are not modelled. `Number(...)` parsing is modelled only as "empty gives 1, otherwise the number".
- Rendering-only parts are not modelled: the prognosis toast (src/components/UnderwearCard.tsx:38-61), sizes, CSS classes and emoji strings other than the rank medals.

## Findings

| source | as written | input that shows it | evidently intended | confidence | as-written member | corrected member |
|---|---|---|---|---|---|---|
| frontend/src/hooks/useUndergarmentsBackend.ts:190-200 | after a wash, the toast re-runs `checkAchievements` on the garment whose achievements already include the ones just merged, so every entry due is already held | a garment at 9 washes with no achievements is washed: fresh-prince is added at 10, but the re-check finds nothing and no "Achievement Unlocked!" toast appears | announce the first achievement this wash unlocked, so the toast fires exactly when the new count is 10, 25 or 50 | not executed | UndergarmentsBackend.WashNoticeAsWrittenNeverFires | UndergarmentsBackend.WashNoticeFiresAtThresholds |
