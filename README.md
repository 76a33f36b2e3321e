# Student leaderboard ranking, modelled in Dafny

This project models the ranking aggregation of the university dashboard's
student leaderboard: `processStudentData` in
`src/componets/Dashboard/StudentLeaderboard.jsx`. It takes the student records
of the rankings payload and returns the leaderboard. Each student record holds
an id, a first and last name, an email and a list of assessment results. Each
result names a workshop and carries a score made of obtained and total marks.

The aggregation runs in six steps:

1. It drops students whose `assessmentResults` is absent or empty.
2. It groups each remaining student's results by `workshopId` in a dictionary.
3. It averages, per workshop, the percentage `obtainedMarks / totalMarks * 100`.
   When that expression is NaN or 0, the `|| 0` fallback turns it into 0, and
   the result still counts in the divisor.
4. It averages the workshop averages and rounds the mean with `toFixed(2)`.
5. It builds one entry: `id`, `name` (first and last name with a space
   between), `email`, `score`, `assessmentCount` and `workshopCount`.
6. It sorts the entries by score, highest first. `Array.prototype.sort` is
   stable, so ties keep their input order.

Files and modules:

- `js_number.dfy` (`JsNumber`): the JavaScript number arithmetic the score
  touches. It covers the NaN and infinity results of `/`, the `|| 0` fallback,
  and `Number(x.toFixed(2))` on reals.
- `records.dfy` (`Records`): students, results, entries, the percentage of one
  result, and the filter predicate.
- `grouping.dfy` (`Grouping`): the group-by reduce. It is written as a loop
  that updates a map. It is proved equal to declarative grouping functions,
  and those are proved to partition the results.
- `scoring.dfy` (`Scoring`): the per-workshop mean, the mean over workshops
  and the rounding.
- `ranking.dfy` (`Ranking`): the stable descending sort by score.
- `leaderboard.dfy` (`Leaderboard`): `processStudentData` as a whole.
- `plain_object_grouping.dfy` (`PlainObjectGrouping`): the reduce exactly as
  written over `{}`, for the finding below.
- `examples.dfy` (`LeaderboardExamples`): worked inputs with their outputs.
- `wrappers.dfy` (`Wrappers`): an `Option` type for absent fields.

Scores are Dafny `real`s, so there is no floating-point rounding in sums and
quotients. The only rounding is the explicit two-decimal one.

## Model

| member | source | states |
|---|---|---|
| `JsNumber.ToNumber` | src/componets/Dashboard/StudentLeaderboard.jsx:36 | The coercion of a mark operand of `/`: `undefined` becomes NaN, `null` becomes 0, and a number stays as it is. `Records.Percentage` states the effect on one result. |
| `JsNumber.Divide` | src/componets/Dashboard/StudentLeaderboard.jsx:36 | A finite quotient times a finite divisor gives back the dividend, and finite operands give a finite quotient exactly when the divisor is non-zero. The quotient is NaN exactly for a NaN operand, 0/0 or infinity over infinity. A non-zero finite mark over 0 gives an infinity with the mark's sign. |
| `JsNumber.OrZero` | src/componets/Dashboard/StudentLeaderboard.jsx:36 | `x \|\| 0` never yields NaN and keeps the truthiness of x. The only value it changes is NaN, which becomes 0. Infinities are truthy and pass through. |
| `JsNumber.Times100` | src/componets/Dashboard/StudentLeaderboard.jsx:36 | `* 100`: it scales a finite value and leaves NaN and the infinities unchanged. `Records.Percentage` states the effect on one result. |
| `JsNumber.Truthy` | src/componets/Dashboard/StudentLeaderboard.jsx:36 | JavaScript's truthiness of a number: NaN and 0 are falsy, and every other value, infinities included, is truthy. `JsNumber.OrZero` is stated in its terms. |
| `JsNumber.LogicalOr` | src/componets/Dashboard/StudentLeaderboard.jsx:36 | `a \|\| b` on numbers: `a` when it is truthy, otherwise `b`. `JsNumber.OrZero` states its contract for `b` = 0. |
| `JsNumber.ToFixed2` | src/componets/Dashboard/StudentLeaderboard.jsx:42 | `Number(x.toFixed(2))` lies within 1/200 of x and is a whole number of hundredths. It keeps the sign of x. |
| `JsNumber.ToFixed2Monotone` | src/componets/Dashboard/StudentLeaderboard.jsx:42 | Rounding never reverses the order of two scores. |
| `JsNumber.ToFixed2OfTwoDecimals` | src/componets/Dashboard/StudentLeaderboard.jsx:42 | A value that already has two decimals is left unchanged by rounding. |
| `JsNumber.ToFixed2Percent` | src/componets/Dashboard/StudentLeaderboard.jsx:42 | Rounding keeps a value in [0, 100] inside [0, 100]. |
| `Records.Percentage` | src/componets/Dashboard/StudentLeaderboard.jsx:36 | A result's contribution is never NaN. It is 0 for a missing score, a missing mark or 0/0. A null mark counts as 0. It is obtained/total*100 for a non-zero total. It is an infinity for a non-zero mark over a zero or null total, because the fallback does not catch that case. |
| `Grouping.Select` | src/componets/Dashboard/StudentLeaderboard.jsx:25-32 | The results of one workshop in input order: the list the reduce builds under that key. `SelectMembers`, `SelectMultiplicity` and `SelectOfAbsent` describe it. |
| `Grouping.Ids` | src/componets/Dashboard/StudentLeaderboard.jsx:25-32 | The workshop ids in order of first appearance: the keys the reduce creates. `IdsMembership`, `IdsDistinct` and `IdSetIsIds` describe it. |
| `Grouping.Grouped` | src/componets/Dashboard/StudentLeaderboard.jsx:25-32 | The dictionary the reduce returns: each id of `Ids` mapped to its `Select` group. `GroupByWorkshop` and `GroupedSnoc` describe it. |
| `Grouping.GroupByWorkshop` | src/componets/Dashboard/StudentLeaderboard.jsx:25-32 | The loop builds the dictionary of the declarative grouping: keys in order of first appearance, and each key's results in input order. Its key set is exactly the set of workshop ids that occur. |
| `Grouping.GroupedSnoc` | src/componets/Dashboard/StudentLeaderboard.jsx:27-30 | Adding one result creates its workshop's key if that key is missing, appends the result to that key's list, and changes no other key. |
| `Grouping.SelectMembers` | src/componets/Dashboard/StudentLeaderboard.jsx:25-32 | A group holds only input results whose workshop id is the group's key. |
| `Grouping.SelectMultiplicity` | src/componets/Dashboard/StudentLeaderboard.jsx:25-32 | Grouping partitions the results. Each result occurs in its own workshop's group as often as in the input, and in no other group. |
| `Grouping.SelectOfAbsent` | src/componets/Dashboard/StudentLeaderboard.jsx:25-32 | A workshop id that no result carries has an empty group. |
| `Grouping.IdsMembership` | src/componets/Dashboard/StudentLeaderboard.jsx:25-32 | An id is a dictionary key if and only if some result carries it. |
| `Grouping.IdsHaveGroups` | src/componets/Dashboard/StudentLeaderboard.jsx:27-30 | Every key's group is non-empty, so no workshop average divides by zero. |
| `Grouping.IdsDistinct` | src/componets/Dashboard/StudentLeaderboard.jsx:25-32 | No workshop id is listed twice among the keys. |
| `Grouping.IdSetIsIds` | src/componets/Dashboard/StudentLeaderboard.jsx:25-32 | The listed keys are exactly the set of workshop ids among the results. |
| `Grouping.WorkshopCountIsDistinctIds` | src/componets/Dashboard/StudentLeaderboard.jsx:51 | The number of keys equals the number of distinct workshop ids among the results. |
| `Grouping.GroupSizesSum` | src/componets/Dashboard/StudentLeaderboard.jsx:25-32 | The group sizes add up to the number of results. |
| `Scoring.WorkshopTotal` | src/componets/Dashboard/StudentLeaderboard.jsx:35-37 | The sum of the results' percentages, after the `\|\| 0` fallback. `WorkshopTotalBounds`, `WorkshopTotalAppend` and `FallbackCountsInDivisor` describe it. |
| `Scoring.WorkshopScore` | src/componets/Dashboard/StudentLeaderboard.jsx:38 | A workshop's total divided by its number of results. `WorkshopScoreBounds`, `DoubledGroupScore` and `FallbackCountsInDivisor` describe it. |
| `Scoring.ScoreOf` | src/componets/Dashboard/StudentLeaderboard.jsx:34-39 | The average of one workshop's group, taken from the grouping. `Grouping.IdsHaveGroups` shows that the group is non-empty, so the division is defined. |
| `Scoring.WorkshopScores` | src/componets/Dashboard/StudentLeaderboard.jsx:34-39 | The `Object.values(...).map(...)` list: one workshop average per key, in key order. Its contract gives one score per key. `Scoring.OverallScoreBounds` bounds each element in [0, 100] for well-formed marks, and `Scoring.ScoreOfRepeated` shows that repeating one workshop's results leaves every key's score unchanged. |
| `Scoring.Sum` | src/componets/Dashboard/StudentLeaderboard.jsx:42 | The left fold `reduce((sum, score) => sum + score, 0)`. `Scoring.SumBounds` bounds it. |
| `Scoring.MeanOfWorkshops` | src/componets/Dashboard/StudentLeaderboard.jsx:42 | The mean of the workshop scores before rounding. `OverallScoreIsRoundedMean` and `BuildEntryScore` relate it to the entry's score. |
| `Scoring.OverallScore` | src/componets/Dashboard/StudentLeaderboard.jsx:41-43 | The rounded mean of the workshop scores, or 0 without workshops. `OverallScoreIsRoundedMean`, `OverallScoreBounds` and `RepeatingWorkshopKeepsOverall` describe it. |
| `Scoring.OverallScoreIsRoundedMean` | src/componets/Dashboard/StudentLeaderboard.jsx:41-43 | A student with results has at least one workshop, so the `: 0` branch is never taken. The overall score is the rounded mean of the workshop means and lies within 1/200 of that mean. |
| `Scoring.FallbackCountsInDivisor` | src/componets/Dashboard/StudentLeaderboard.jsx:35-38 | A result whose percentage falls back to 0 adds nothing to the workshop total but still raises the divisor by one. |
| `Scoring.PercentageBounds` | src/componets/Dashboard/StudentLeaderboard.jsx:36 | With a positive total and 0 <= obtained <= total, the percentage is finite and lies in [0, 100]. |
| `Scoring.WorkshopTotalBounds` | src/componets/Dashboard/StudentLeaderboard.jsx:35-37 | With well-formed marks, a workshop total lies between 0 and 100 times the number of results. |
| `Scoring.WorkshopScoreBounds` | src/componets/Dashboard/StudentLeaderboard.jsx:34-39 | With well-formed marks, a workshop average lies in [0, 100]. |
| `Scoring.SumBounds` | src/componets/Dashboard/StudentLeaderboard.jsx:42 | A sum of n values that each lie in [0, 100] lies in [0, 100n]. |
| `Scoring.OverallScoreBounds` | src/componets/Dashboard/StudentLeaderboard.jsx:34-43 | With well-formed marks, every workshop average and the overall score lie in [0, 100], rounding included. |
| `Scoring.WorkshopTotalAppend` | src/componets/Dashboard/StudentLeaderboard.jsx:35-37 | The workshop total of two concatenated lists is the sum of their totals. |
| `Grouping.SelectAppend` | src/componets/Dashboard/StudentLeaderboard.jsx:25-32 | Grouping distributes over concatenation of the results. |
| `Grouping.IdsAppendKnown` | src/componets/Dashboard/StudentLeaderboard.jsx:25-32 | Appending results of already-known workshops adds no key. |
| `Grouping.SelectOfSelect` | src/componets/Dashboard/StudentLeaderboard.jsx:25-32 | Grouping one workshop's group again by the same id gives that group back unchanged. |
| `Scoring.DoubledGroupScore` | src/componets/Dashboard/StudentLeaderboard.jsx:34-39 | Repeating every result of a workshop leaves its average unchanged. |
| `Scoring.ScoreOfRepeated` | src/componets/Dashboard/StudentLeaderboard.jsx:34-39 | Submitting all of one workshop's results a second time leaves every workshop's average unchanged, that workshop's included. |
| `Scoring.RepeatingWorkshopKeepsOverall` | src/componets/Dashboard/StudentLeaderboard.jsx:34-43 | A workshop's weight in the overall score does not depend on how many assessments it holds. Submitting all of one workshop's results a second time leaves the overall score unchanged. |
| `Ranking.Insert` | src/componets/Dashboard/StudentLeaderboard.jsx:54 | Places an entry before the first entry whose score is not above its own. `InsertPermutes`, `InsertSorted` and `InsertWithScore` describe it. |
| `Ranking.SortByScore` | src/componets/Dashboard/StudentLeaderboard.jsx:54 | A stable insertion sort by score, highest first. `SortByScoreSorted`, `SortByScoreStable` and `StableSortIsSortByScore` describe it. |
| `Ranking.InsertPermutes` | src/componets/Dashboard/StudentLeaderboard.jsx:54 | Inserting an entry adds exactly that entry. |
| `Ranking.InsertSorted` | src/componets/Dashboard/StudentLeaderboard.jsx:54 | Inserting an entry keeps a descending sequence descending. |
| `Ranking.InsertWithScore` | src/componets/Dashboard/StudentLeaderboard.jsx:54 | An inserted entry goes in front of the entries with the same score, and the order of every other score's entries is unchanged. |
| `Ranking.SortByScoreSorted` | src/componets/Dashboard/StudentLeaderboard.jsx:54 | The sort output is ordered by score, highest first, and is a permutation of its input. |
| `Ranking.SortByScoreStable` | src/componets/Dashboard/StudentLeaderboard.jsx:54 | Entries with equal scores keep their input order. |
| `Ranking.SortedUnique` | src/componets/Dashboard/StudentLeaderboard.jsx:54 | Two descending sequences with the same entries in the same order within every score are equal. |
| `Ranking.StableSortIsSortByScore` | src/componets/Dashboard/StudentLeaderboard.jsx:54 | Every stable descending sort by score yields the same sequence as this one. |
| `Records.HasResults` | src/componets/Dashboard/StudentLeaderboard.jsx:22 | The filter condition: the result list is present and non-empty. `Leaderboard.EligibleMultiplicity` describes the filter built on it. |
| `Leaderboard.Gradable` | src/componets/Dashboard/StudentLeaderboard.jsx:36 | The aggregation's precondition: no result of any student has an infinite percentage. A non-zero mark over a zero or null total breaks it; "Left out" explains why. |
| `Leaderboard.Eligible` | src/componets/Dashboard/StudentLeaderboard.jsx:20-23 | Every kept student has a non-empty result list and comes from the input. |
| `Leaderboard.EligibleMultiplicity` | src/componets/Dashboard/StudentLeaderboard.jsx:20-23 | A student with results is kept as many times as it occurs. A student with an absent or empty list is dropped, not scored as 0. |
| `Leaderboard.BuildEntry` | src/componets/Dashboard/StudentLeaderboard.jsx:45-52 | `id`, `email` and the name (first name, a space, last name) are copied from the student. `assessmentCount` is the number of results and `workshopCount` the number of distinct workshop ids. Both are positive. |
| `Leaderboard.Entries` | src/componets/Dashboard/StudentLeaderboard.jsx:24-53 | There is one entry per kept student. |
| `Leaderboard.BuildEntryCounts` | src/componets/Dashboard/StudentLeaderboard.jsx:50-51 | `assessmentCount` is the total size of the workshop groups, which is the number of results. `workshopCount` is the number of distinct workshop ids. |
| `Leaderboard.BuildEntryScore` | src/componets/Dashboard/StudentLeaderboard.jsx:41-49 | An entry's score is within 1/200 of the mean of its workshop means. With well-formed marks it lies in [0, 100]. |
| `Leaderboard.ProcessStudentData` | src/componets/Dashboard/StudentLeaderboard.jsx:19-55 | The whole aggregation: filter with `Eligible`, one `BuildEntry` per kept student, then `SortByScore`. Its contract states that the leaderboard is ordered by score, highest first. It is a permutation of the kept students' entries, one per kept student. |
| `Leaderboard.ProcessStudentDataStable` | src/componets/Dashboard/StudentLeaderboard.jsx:54 | Entries with equal scores appear in the order of their students in the input. |
| `Leaderboard.ProcessStudentDataEntries` | src/componets/Dashboard/StudentLeaderboard.jsx:19-55 | An entry is on the leaderboard if and only if it is the entry of some input student with results. |
| `Leaderboard.EntryHasStudent` | src/componets/Dashboard/StudentLeaderboard.jsx:24-53 | Every built entry is the entry of an input student with results. |
| `Leaderboard.StudentHasEntry` | src/componets/Dashboard/StudentLeaderboard.jsx:20-53 | Every input student with results has its entry built. |
| `Leaderboard.ProcessStudentDataIsTheStableSort` | src/componets/Dashboard/StudentLeaderboard.jsx:54 | Any stable descending sort of the entries, as `Array.prototype.sort` performs, gives exactly this leaderboard. |
| `PlainObjectGrouping.ReduceAsWritten` | src/componets/Dashboard/StudentLeaderboard.jsx:25-32 | The reduce exactly as written over `{}`, with None where `.push` throws. `ReduceAsWrittenOutcome` and `InheritedIdThrows` describe it. |
| `PlainObjectGrouping.ReduceAsWrittenOutcome` | src/componets/Dashboard/StudentLeaderboard.jsx:25-32 | The reduce over a plain `{}` throws exactly when some workshop id names an inherited `Object.prototype` member. Otherwise it builds the intended groups. |
| `PlainObjectGrouping.InheritedIdThrows` | src/componets/Dashboard/StudentLeaderboard.jsx:27-30 | A single result of workshop "constructor" makes the reduce throw, where one group is intended. |
| `LeaderboardExamples.ZeroTotalExample` | src/componets/Dashboard/StudentLeaderboard.jsx:36-38 | 0/0, a null obtained mark and a missing score each contribute 0. 5/0 and 5/null contribute +Infinity. A 100% result and a 0/0 result average to 50. |
| `LeaderboardExamples.TwoLevelMeanExample` | src/componets/Dashboard/StudentLeaderboard.jsx:34-43 | One workshop at 100% and another with two 0% results score 50, not the 33.33 of a flat mean. |
| `LeaderboardExamples.AnnEntry` | src/componets/Dashboard/StudentLeaderboard.jsx:45-52 | Results 80/100 and 60/100 in one workshop give score 70, 2 assessments and 1 workshop. |
| `LeaderboardExamples.BenEntry` | src/componets/Dashboard/StudentLeaderboard.jsx:45-52 | 100/100 in one workshop and 0/50 in another give score 50, 2 assessments and 2 workshops. |
| `LeaderboardExamples.LeaderboardExample` | src/componets/Dashboard/StudentLeaderboard.jsx:19-55 | For the input [Ben (50), Cal (no results), Ann (70)], the leaderboard is [Ann, Ben], and Cal is excluded. |

## Left out

- The data fetch (`useEffect`, the axios call, the token read from local storage, and the loading and error state) is not modelled. It is asynchronous I/O. It always calls the production URL and ignores the environment-selected base URL.
- All rendering is not modelled: the top-three podium, rank icons, progress bars and navigation on click.
- `LoginPage.jsx` and `workshopService.js` are not part of this model. They are form state, device information and network wrappers.
- IEEE-754 doubles are not modelled. Sums and quotients are exact reals, and there is no signed zero. `toFixed` switching to exponent notation for values of 1e21 and above is not modelled either.
- Leaderboard.ProcessStudentData: requires that no result's percentage is an infinity. In the source, a non-zero mark over a zero or null total yields Infinity, which passes the `|| 0` fallback (`Records.Percentage` models that case). The averages, the rounding to "Infinity" or "NaN", and sorting with a NaN comparator result are not modelled after that point.
- Leaderboard.ProcessStudentData: groups by own key, as `Grouping.GroupByWorkshop` does. For a workshop id that names an inherited `Object.prototype` member, such as "constructor", the model returns an entry for the student. The source's `.push` throws instead, and the fetch then shows "Failed to load rankings" (src/componets/Dashboard/StudentLeaderboard.jsx:74-75). `PlainObjectGrouping.ReduceAsWritten` models that behaviour.
- Student records and results are modelled as well-typed values. The model has no `null` student, no `null` result and no missing `_id`, `firstName`, `lastName` or `email`. In the source, a `null` student throws in the filter at `student.assessmentResults` (src/componets/Dashboard/StudentLeaderboard.jsx:22), and a `null` result throws in the reduce at `result.workshopId` (line 26). Either throw ends in "Failed to load rankings" (lines 74-75). A missing `firstName` or `lastName` is written as "undefined" by the template literal of line 47. A missing `_id` or `email` is copied into the entry as `undefined`.
- Marks are modelled as numbers, `null` or absent. String marks that JavaScript would coerce are not modelled.
- Workshop ids are strings compared for equality. The dictionary's key order is first-appearance order. JavaScript lists integer-like keys first in ascending order, which the model ignores. Sums and counts do not depend on that order.
- Idempotence of the aggregation is not stated as a lemma. The model is a pure function, so equal inputs give equal outputs by construction.
- The sort is modelled as a stable insertion sort on values, not as the engine's in-place `Array.prototype.sort`. `Ranking.StableSortIsSortByScore` shows that every stable descending sort gives the same result.

## Findings

| source | as written | input that shows it | evidently intended | confidence | as-written member | corrected member |
|---|---|---|---|---|---|---|
| src/componets/Dashboard/StudentLeaderboard.jsx:27-30 | The accumulator is a plain `{}`, so `!acc[workshopId]` also finds members inherited from `Object.prototype`. For such an id no own key is created, and `acc[workshopId].push(result)` throws a TypeError. | One result with `workshopId` "constructor" (or "toString", "__proto__", …) | Group the results by their own workshop id, whatever the id string is | low: Mongo ids never collide with these names; not executed | `PlainObjectGrouping.InheritedIdThrows` | `Grouping.GroupByWorkshop` |
