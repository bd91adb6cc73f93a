# HabitTracker in Dafny

A Dafny model of the core of HabitTracker, a browser habit tracker. Friends sign in by email and
define habits worth points, and tick each habit off day by day. They then compete on a leaderboard
ranked by total points and current streak. Groups share one data set through a six-character join
code.

The model covers:

- the scoring engine: the current streak, the longest streak and per-user statistics;
- the calendar helpers;
- the leaderboard ranking and its two top-3 views;
- the page's handlers for users, habits and the entry log;
- the tracker's display rules;
- the group table and its code generator;
- the two input forms: new habit, and sign-in/sign-up.

Modules follow the source files:

| module | source |
|---|---|
| `Types` | `src/types/index.ts`, `AppData` of `src/utils/dataManager.ts` |
| `Text` | JavaScript's `String.prototype.trim` |
| `Sorting` | JavaScript's stable `Array.prototype.sort`, as a descending insertion sort |
| `DateUtils` | `src/utils/dateUtils.ts` |
| `ScoreUtils` | `src/utils/scoreUtils.ts` |
| `Leaderboard` | `src/components/Leaderboard.tsx` |
| `Page` | `src/app/page.tsx` |
| `HabitTracker` | `src/components/HabitTracker.tsx` |
| `GroupManager` | `src/utils/groupManager.ts` |
| `HabitForm` | `src/components/HabitForm.tsx` |
| `UserSetup` | `src/components/UserSetup.tsx` |

**Time.** An entry's date string (`YYYY-MM-DD`) is parsed by JavaScript as UTC midnight. The model
represents it as a day number: day 0 is 1970-01-01. An instant is a number of milliseconds:
`Midnight(d) = d * 86400000`. "Now" is a `Clock(today, msIntoDay)` with
`0 <= msIntoDay < 86400000`. Dafny's `/` with a positive divisor is floor division, so the
source's `Math.floor((now - date) / 86400000)` comes out as exactly `today - d`
(`ScoreUtils.DaysBackFromNow`).

**Sorting.** `Array.prototype.sort` is stable. `Sorting.SortDesc` sorts by a two-part key,
largest first, and keeps equal keys in input order. Ascending sorts use the negated key.

**Stateful code keeps its shape.**

- The two streak walks, the stats map of the page and the code generator are methods with loops.
  Each is proved against a specification function: a recursive one for the walks and the stats
  list, a sequence comprehension over the random picks for the code.
- The page is a class `App` whose handlers reassign its fields.
- The two leaderboard views sort one shared array in place, one after the other. They are methods
  of a class `BoardView` that reassign its `entries`.
- The group table is a class `GroupStore` holding what the storage slot holds.

**The streaks follow the code, not the names.**

- The current-streak walk compares each gap to the *running count*, not to 1:
  - completions on today, yesterday and the day before give a current streak of **2**;
  - completions on today, yesterday and three days ago give **3**.
- Neither walk merges two completions on the same day.
- A completion dated in the future sorts first and makes the streak 0.

## Model

| member | source | states |
|---|---|---|
| `Text.Trim` | src/components/HabitForm.tsx:35-36 | `trim()`: the result neither starts nor ends with white space and is no longer than the input |
| `Text.TrimUnique` | src/components/HabitForm.tsx:32 | the trimmed string is the one substring with white space only outside it and none at its ends |
| `Text.TrimBlank` | src/components/HabitForm.tsx:32 | a string trims to empty exactly when every character is white space |
| `Text.TrimIdempotent` | src/components/HabitForm.tsx:35 | trimming a trimmed string changes nothing |
| `Text.TrimIgnoresPadding` | src/components/UserSetup.tsx:38 | white space added at either end is removed again by trimming |
| `Sorting.SortDesc` | src/components/Leaderboard.tsx:25-30 | the stable sort: the result has the input's length and multiset and is descending by key; equal keys stay in input order (`SortDescStable`) |
| `Sorting.InsertDescending` | src/components/Leaderboard.tsx:25-30 | inserting into a descending list keeps it descending |
| `Sorting.SortDescStable` | src/components/Leaderboard.tsx:25-30 | stability: for every key, the elements carrying it appear in the sorted list in exactly their input order |
| `Sorting.InsertWithKey` | src/components/Leaderboard.tsx:25-30 | inserting an element leaves the input-order sublist of every other key unchanged |
| `Sorting.InsertTagOrdered` | src/components/Leaderboard.tsx:25-30 | an insertion keeps elements of equal key ordered by a secondary tag |
| `Sorting.SortDescKeepsTagOrder` | src/components/Leaderboard.tsx:115-116 | if equal-key elements are ordered by a tag in the input, they stay so ordered after the sort (stability) |
| `Sorting.SortDescOfDescending` | src/components/Leaderboard.tsx:25-30 | sorting an already descending list returns it unchanged |
| `Sorting.SortDescOfAscending` | src/utils/scoreUtils.ts:6 | sorting a strictly ascending list reverses it |
| `Sorting.MapInsert` | src/components/Leaderboard.tsx:25-30 | an insertion adds exactly one element's projection to the multiset of projections |
| `Sorting.MapSortDesc` | src/components/Leaderboard.tsx:25-30 | sorting permutes any projection of the elements |
| `DateUtils.DayOf` | src/utils/dateUtils.ts:1-3 | the UTC day of an instant: the instant lies between that day's midnight and the next |
| `DateUtils.DayOfNow` | src/utils/dateUtils.ts:5-7 | the current instant falls on day `today` |
| `DateUtils.YearOfEra` | src/utils/dateUtils.ts:1-3 | splitting a day of a 400-year era into a year of the era and a day of the year, which recombine to the input |
| `DateUtils.MonthOfYear` | src/utils/dateUtils.ts:1-3 | splitting a day of a March-based year into a month (0-11) and a day of month (1-31), which recombine to the input |
| `DateUtils.DaysFromCivilParts` | src/utils/dateUtils.ts:1-3 | the day number of a date rebuilt from its era, year, month and day |
| `DateUtils.LeapEvery400` | src/utils/dateUtils.ts:1-3 | the leap rule repeats every 400 years |
| `DateUtils.CivilOfEraDayFacts` | src/utils/dateUtils.ts:1-3 | every day of an era decodes to a valid date carrying that day number |
| `DateUtils.YearOfEraUnique` | src/utils/dateUtils.ts:1-3 | a year of an era and a day within that year's length are recovered from the day of the era they make |
| `DateUtils.MonthOfYearUnique` | src/utils/dateUtils.ts:1-3 | a month and a day within its length are recovered from the day of the year they make |
| `DateUtils.EraDayOf` | src/utils/dateUtils.ts:1-3 | every valid date is the decoding of the day of its era that its day number names |
| `DateUtils.CivilRoundTrip` | src/utils/dateUtils.ts:1-3 | decoding the day number of a valid date gives back that date: the calendar conversion is a bijection between day numbers and valid dates |
| `DateUtils.CivilFromDays` | src/utils/dateUtils.ts:1-3 | the proleptic Gregorian date of a day number: a real date (month 1-12, day within the month's length under the 4/100/400 leap rule) that `DaysFromCivil` maps back to the day number |
| `DateUtils.EpochIsFirstOfJanuary1970` | src/utils/dateUtils.ts:1-3 | day 0 is 1970-01-01 |
| `DateUtils.LeapDayOf2000` | src/utils/dateUtils.ts:1-3 | days 11016 and 11017 are 2000-02-29 and 2000-03-01: the 400-year leap rule |
| `DateUtils.YearsOfValidDays` | src/utils/dateUtils.ts:1-3 | every day a JavaScript `Date` can hold has a year of at most six digits |
| `DateUtils.Digits` | src/utils/dateUtils.ts:1-3 | zero-padded decimal of a fixed width: right length, digits only, reads back as the number |
| `DateUtils.JoinedFields` | src/utils/dateUtils.ts:2 | the year, month and day fields of a joined date string sit where their lengths put them |
| `DateUtils.YearFieldReadsBack` | src/utils/dateUtils.ts:1-3 | the year field (`YYYY` for years 0-9999, `+YYYYYY` or `-YYYYYY` otherwise) has 4 or 7 characters and reads back as the year |
| `DateUtils.FullDateReadsBack` | src/utils/dateUtils.ts:1-3 | a date reads back from its year field followed by `-MM-DD` |
| `DateUtils.FormatDay` | src/utils/dateUtils.ts:1-3 | `toISOString().split('T')[0]` of a day's midnight: a `YYYY-MM-DD` string (10 characters, or 13 with an expanded year) that decodes to that day's valid date and reads back as the day |
| `DateUtils.DigitsInjective` | src/utils/dateUtils.ts:1-3 | two digit strings of one length with the same value are equal |
| `DateUtils.YearFieldUnique` | src/utils/dateUtils.ts:1-3 | two accepted year fields with the same year are the same text |
| `DateUtils.FullDateUnique` | src/utils/dateUtils.ts:1-3 | two accepted date strings naming the same date are the same text |
| `DateUtils.FormatDayUnique` | src/utils/dateUtils.ts:1-3 | the formatted text of a day is the only string the decoder reads as that day |
| `DateUtils.IsToday` | src/utils/dateUtils.ts:5-7 | a string is today exactly when it is a date string that reads back as the current day (so only `FormatDay(today)` is) |
| `DateUtils.DaysDifference` | src/utils/dateUtils.ts:9-13 | `getDaysDifference` of two whole-day dates is `d2 - d1` |
| `DateUtils.DaysDifferenceLaws` | src/utils/dateUtils.ts:9-13 | the difference is zero on equal dates, antisymmetric and additive |
| `DateUtils.Weekday` | src/utils/dateUtils.ts:18 | `getDay` lies between 0 (Sunday) and 6 |
| `DateUtils.WeekdaySteps` | src/utils/dateUtils.ts:18 | 1970-01-04 (day 3) is a Sunday, and each next day is the next weekday, wrapping from Saturday to Sunday |
| `DateUtils.SakamotoWeekday` | src/utils/dateUtils.ts:18 | an independent weekday formula on year, month and day (Sakamoto's), always between 0 and 6 |
| `DateUtils.WeekdayMatchesCalendar` | src/utils/dateUtils.ts:18 | the weekday of every day number agrees with Sakamoto's formula on that day's calendar date |
| `DateUtils.WeekdayOfDate` | src/utils/dateUtils.ts:18 | for a valid date and its day number, the day-number weekday equals Sakamoto's formula |
| `DateUtils.MonthOffsetAgrees` | src/utils/dateUtils.ts:18 | the days before a month in a March-based year and Sakamoto's month offset differ by a whole number of weeks (with the leap-day correction for January and February) |
| `DateUtils.GetWeekDates` | src/utils/dateUtils.ts:15-27 | seven consecutive days starting on a Sunday, with today at index `getDay()` |
| `ScoreUtils.UserCompleted` | src/utils/scoreUtils.ts:4-5 | the filter of the user's completed entries never grows the log |
| `ScoreUtils.UserCompletedMembers` | src/utils/scoreUtils.ts:4-5 | an entry survives the filter exactly when it is the user's and completed (from `Types.FilterMultiset`) |
| `ScoreUtils.UserCompletedConcat` | src/utils/scoreUtils.ts:4-5 | filtering distributes over concatenation (from `Types.FilterConcat`) |
| `ScoreUtils.NewestFirstDaysFacts` | src/utils/scoreUtils.ts:4-6 | the sorted dates are the user's completion dates, newest first, as many as the completions |
| `ScoreUtils.StreakFromFacts` | src/utils/scoreUtils.ts:13-23 | continuing the walk from a matching prefix reaches a count satisfying the streak rule |
| `ScoreUtils.CurrentStreakCharacterized` | src/utils/scoreUtils.ts:13-23 | the current streak is the unique count `k` whose first `k` gaps each equal their running count, with the next gap (if any) different |
| `ScoreUtils.DaysBackFromNow` | src/utils/scoreUtils.ts:15 | floor of the milliseconds from midnight of day `d` to now, over a day, is `today - d` |
| `ScoreUtils.CalculateStreak` | src/utils/scoreUtils.ts:3-26 | the loop returns the count satisfying the streak rule over the newest-first completion dates |
| `ScoreUtils.StreakBounds` | src/utils/scoreUtils.ts:8-25 | the streak is at most the number of the user's completions, and 0 without any |
| `ScoreUtils.StreakNeedsToday` | src/utils/scoreUtils.ts:11-17 | a positive streak needs a completion today and none later; a future-dated completion forces 0 |
| `ScoreUtils.SameDayEndsStreak` | src/utils/scoreUtils.ts:4-6 | two completions on the same day are not merged: the walk stops at the second |
| `ScoreUtils.IrrelevantEntryIgnored` | src/utils/scoreUtils.ts:4-5 | inserting another user's entry or an uncompleted entry anywhere leaves the filtered log, and so every statistic, unchanged |
| `ScoreUtils.RunEndingAt` | src/utils/scoreUtils.ts:38-49 | the run counter after position `i` lies between 1 and `i + 1` |
| `ScoreUtils.MaxRun` | src/utils/scoreUtils.ts:45 | the running maximum over the first `n` positions lies between 1 and `n` |
| `ScoreUtils.RunIsConsecutive` | src/utils/scoreUtils.ts:43-48 | the run counter measures a stretch of one-day steps ending at `i` |
| `ScoreUtils.RunIsMaximal` | src/utils/scoreUtils.ts:43-48 | no stretch of one-day steps ending at `i` is longer than the run counter |
| `ScoreUtils.MaxRunIsMaximum` | src/utils/scoreUtils.ts:45 | the running maximum is the largest run counter seen and is attained |
| `ScoreUtils.LongestStreakCharacterized` | src/utils/scoreUtils.ts:28-52 | the longest streak is 0 exactly for no completions; otherwise it is the length of the longest stretch of one-day steps |
| `ScoreUtils.CalculateLongestStreak` | src/utils/scoreUtils.ts:28-52 | returns the longest streak of the user's completions: 0 exactly when there are none, never more than their number |
| `ScoreUtils.LongestWalk` | src/utils/scoreUtils.ts:33-51 | the loop over the oldest-first entries returns the longest streak of their dates: 0 exactly for no entries, never more than their number |
| `ScoreUtils.LongestStreakBounds` | src/utils/scoreUtils.ts:33-51 | the longest streak is at most the number of completions, and 0 exactly when there are none |
| `ScoreUtils.FindHabit` | src/utils/scoreUtils.ts:61 | `habits.find` by id: the first habit with the id, or none |
| `ScoreUtils.HabitPoints` | src/utils/scoreUtils.ts:61-62 | the points of the first habit with the entry's id, or 0 when no habit has it |
| `ScoreUtils.PointsTotalConcat` | src/utils/scoreUtils.ts:60-63 | the `reduce` total over a concatenation is the sum of the parts' totals, and one entry contributes its habit's points |
| `ScoreUtils.LastActive` | src/utils/scoreUtils.ts:69-78 | now when the user has no completions, otherwise midnight of one of their completed dates |
| `ScoreUtils.CalculateUserStats` | src/utils/scoreUtils.ts:54-80 | returns the statistics record specified by `StatsOf`, whose properties are the lemmas below |
| `ScoreUtils.StatsOf` | src/utils/scoreUtils.ts:54-80 | the record carries the user's id and their number of completions; both streaks are at most that number, and the longest is 0 exactly when it is 0 |
| `ScoreUtils.UniformPoints` | src/utils/scoreUtils.ts:59-64 | when every completion earns `p` points, the total is `p` times their number |
| `ScoreUtils.UnknownHabitsEarnNothing` | src/utils/scoreUtils.ts:62-63 | completions of habits that are not in the list earn 0 points |
| `ScoreUtils.LastActiveIsNewest` | src/utils/scoreUtils.ts:69-78 | `lastActive` is midnight of the latest completion date, or now when there is none |
| `ScoreUtils.NoCompletionsNoStats` | src/utils/scoreUtils.ts:54-80 | a user without completions has 0 points, 0 completions and both streaks 0 |
| `ScoreUtils.AllCount` | src/utils/scoreUtils.ts:5 | a log made only of the user's completions passes the filter whole |
| `ScoreUtils.StreakOfThreeDays` | src/utils/scoreUtils.ts:13-23 | newest-first days today, -1, -2 give 2; today, -1, -3 give 3 |
| `ScoreUtils.LongestOfThreeDays` | src/utils/scoreUtils.ts:38-49 | oldest-first days -2, -1, today give 3; -3, -1, today give 2 |
| `ScoreUtils.DatesOfThree` | src/utils/scoreUtils.ts:13-15 | the dates of a three-entry log, and of its reversal |
| `ScoreUtils.DaysOfAscendingLog` | src/utils/scoreUtils.ts:4-31 | three completions on increasing days: the newest-first sort reverses them, the oldest-first sort keeps them |
| `ScoreUtils.DaysOfDescendingLog` | src/utils/scoreUtils.ts:4-31 | three completions on decreasing days: the newest-first sort keeps them, the oldest-first sort reverses them |
| `ScoreUtils.ThreeConsecutiveDaysStreak` | src/utils/scoreUtils.ts:3-26 | completions on the day before yesterday, yesterday and today give a current streak of 2 |
| `ScoreUtils.ThreeConsecutiveDaysLongest` | src/utils/scoreUtils.ts:28-52 | the same log gives a longest streak of 3 |
| `ScoreUtils.GapCountedAsStreak` | src/utils/scoreUtils.ts:3-26 | completions today, yesterday and three days ago give a current streak of 3 |
| `ScoreUtils.GapBreaksLongest` | src/utils/scoreUtils.ts:28-52 | the same log gives a longest streak of 2 |
| `ScoreUtils.TwoCompletionsToday` | src/utils/scoreUtils.ts:3-52 | two completions today give a current and a longest streak of 1 |
| `ScoreUtils.DaysOfSameDayLog` | src/utils/scoreUtils.ts:4-31 | two completions on the same day keep their order under both sorts |
| `Leaderboard.StatsFor` | src/components/Leaderboard.tsx:15-22 | the first statistics record carrying the user's id, or all-zero statistics for that id |
| `Leaderboard.Seed` | src/components/Leaderboard.tsx:13-24 | one unranked entry per user, in `users` order |
| `Leaderboard.Ranked` | src/components/Leaderboard.tsx:31 | each entry's rank becomes its 1-based position, nothing else changes |
| `Leaderboard.BuildLeaderboard` | src/components/Leaderboard.tsx:13-31 | one entry per user, ranks 1 to N by position, ordered by points and then streak, both descending |
| `Leaderboard.BoardUnranked` | src/components/Leaderboard.tsx:25-31 | with the ranks cleared, the board is the stable sort of the unranked entries |
| `Leaderboard.BoardIsPermutationOfUsers` | src/components/Leaderboard.tsx:13-24 | the board's users are a permutation of `users` |
| `Leaderboard.BoardStats` | src/components/Leaderboard.tsx:15-22 | every entry shows its user's first statistics record, or zero statistics |
| `Leaderboard.BoardTiesKeepUserOrder` | src/components/Leaderboard.tsx:25-30 | entries tied on points and streak appear in `users` order |
| `Leaderboard.FirstPlaceIsMaximal` | src/components/Leaderboard.tsx:25-31 | rank 1 has the most points, and the longest streak among those with as many points |
| `Leaderboard.StreakBreaksPointsTie` | src/components/Leaderboard.tsx:25-31 | two users on 50 points with streaks 3 and 5: the streak-5 user is ranked 1 and the other 2 |
| `Leaderboard.Take3` | src/components/Leaderboard.tsx:117 | `.slice(0, 3)`: the first three entries, or all of them when fewer |
| `Leaderboard.TopOfSorted` | src/components/Leaderboard.tsx:116-117 | the first three entries of a descending list are descending, a sub-multiset of it, and outrank none of the entries left out |
| `Leaderboard.BoardView.LongestStreaks` | src/components/Leaderboard.tsx:115-117 | the shared array becomes its stable sort by longest streak; the view is its first three entries |
| `Leaderboard.BoardView.MostCompleted` | src/components/Leaderboard.tsx:137-139 | the shared array becomes its stable sort by completions; the view is its first three entries |
| `Leaderboard.BoardView.Render` | src/components/Leaderboard.tsx:115-139 | the two views of the array as it was before both in-place sorts; the shared array ends sorted by longest streak and then, stably, by completions |
| `Leaderboard.LongestStreakView` | src/components/Leaderboard.tsx:115-117 | the top three of the board by longest streak (all of it when shorter): descending, taken from the board without repetition, and no left-out entry has a longer best streak than one shown |
| `Leaderboard.MostCompletedView` | src/components/Leaderboard.tsx:137-139 | the top three of the board by completions (all of it when shorter): descending, taken from the board without repetition, and no left-out entry has more completions than one shown |
| `Leaderboard.MostCompletedTieBreak` | src/components/Leaderboard.tsx:115-116 | in the Most Completed view, a tie on completions is broken by longest streak, then by rank |
| `Types.FindFirst` | src/app/page.tsx:66 | `findIndex`: the first position whose element satisfies the predicate, or -1 exactly when no element does |
| `Types.Filter` | src/components/HabitTracker.tsx:34-36 | `filter` never lengthens the list |
| `Types.FilterMultiset` | src/components/HabitTracker.tsx:34-37 | `filter` keeps every element satisfying the predicate as often as it occurs, and no other element |
| `Types.FilterConcat` | src/components/HabitTracker.tsx:93 | `filter` distributes over concatenation, so kept elements stay in their input order |
| `Types.FilterCount` | src/components/HabitTracker.tsx:34-38 | the filtered list's length is the number of positions whose element satisfies the predicate |
| `Types.FilterFilter` | src/components/HabitTracker.tsx:34-37 | filtering twice is filtering once by the conjunction |
| `Page.FindUser` | src/app/page.tsx:66 | `findIndex` by id: the first user with the id, or -1 when there is none |
| `Page.WithUser` | src/app/page.tsx:65-74 | the list is unchanged exactly when the id is already known; otherwise the user is appended at the end; either way the id is then present |
| `Page.WithUserFacts` | src/app/page.tsx:65-74 | adding a user keeps ids unique |
| `Page.NewHabit` | src/app/page.tsx:77-81 | the habit is the form's draft plus the fresh id and creation time |
| `Page.FindEntry` | src/app/page.tsx:89-94 | `findIndex` of the (habit, user, date) entry: the first match, or -1 |
| `Page.Flip` | src/app/page.tsx:98-102 | the flag flips; `completedAt` is set when it becomes true and cleared when it becomes false; nothing else changes |
| `Page.Toggled` | src/app/page.tsx:86-115 | with nobody logged in the log is unchanged; otherwise it grows by at most one entry, only an entry matching (habit, user, date) can change, and an appended entry is a completed match added only when none existed |
| `Page.ToggleWithoutUser` | src/app/page.tsx:87 | with nobody logged in, toggling changes nothing |
| `Page.ToggleExisting` | src/app/page.tsx:89-103 | only the first matching entry is flipped; length and all other entries are unchanged |
| `Page.ToggleNew` | src/app/page.tsx:104-114 | with no match, exactly one completed entry for that habit, user and date is appended |
| `Page.ToggleTwice` | src/app/page.tsx:96-114 | toggling twice restores every flag when the entry existed; otherwise it leaves one new entry, uncompleted |
| `Page.ReplaceIrrelevant` | src/app/page.tsx:97-103 | replacing an entry that does not count for a user with another that does not leaves that user's completions unchanged |
| `Page.ToggleLeavesOthersAlone` | src/app/page.tsx:86-115 | a toggle never changes another user's completed entries |
| `Page.StatsList` | src/app/page.tsx:31 | one statistics record per user, in `users` order, each with that user's id |
| `Page.StatsListFacts` | src/app/page.tsx:31 | the record at each position is the statistics of the user at that position |
| `Page.ComputeStats` | src/app/page.tsx:31 | the loop calls `calculateUserStats` once per user, in `users` order |
| `Page.App.constructor` | src/app/page.tsx:19-27 | a first visit: all lists empty and nobody signed in |
| `Page.App.RefreshStats` | src/app/page.tsx:30-33 | the statistics are recomputed from the current lists; nothing else changes |
| `Page.App.HandleUserCreate` | src/app/page.tsx:65-74 | the user list gains the user only when the id is new, and the user becomes current |
| `Page.App.HandleHabitCreate` | src/app/page.tsx:76-84 | exactly one habit is appended; the existing habits are untouched |
| `Page.App.HandleToggleHabit` | src/app/page.tsx:86-115 | the entry log becomes the toggled log; nothing else changes |
| `HabitTracker.IsHabitCompleted` | src/components/HabitTracker.tsx:23-31 | true exactly when some entry of the user for that habit and date is completed |
| `HabitTracker.HabitEntries` | src/components/HabitTracker.tsx:34-36 | every entry of the user for the habit, each as often as in the log, and no other entry |
| `HabitTracker.CompletedOnly` | src/components/HabitTracker.tsx:37 | every completed entry, each as often as in the list, and no other entry |
| `HabitTracker.CompletionCounts` | src/components/HabitTracker.tsx:33-39 | the total is the number of log positions holding the user's entry for the habit, the completed count the number of those that are also completed; so the completed count is at most the total, the rate never exceeds 100, and it is 0 completed when there are no entries |
| `HabitTracker.CountsAreHits` | src/components/HabitTracker.tsx:34-38 | the two `length`s count the matching positions and the matching completed positions of the log |
| `HabitTracker.CompletedCountMeansTicked` | src/components/HabitTracker.tsx:23-39 | the completed count is positive exactly when some day shows as completed |
| `HabitTracker.CategoryIcon` | src/components/HabitTracker.tsx:41-52 | one of the table's icons; the star for an unknown category |
| `HabitTracker.CategoryIcons` | src/components/HabitTracker.tsx:42-51 | the icon of each of the seven categories, all seven different; "Other" shares the star with every unknown category |
| `HabitTracker.ActiveHabits` | src/components/HabitTracker.tsx:93 | every active habit, each as often as in the list, and no inactive one |
| `HabitTracker.ActiveHabitsInOrder` | src/components/HabitTracker.tsx:93 | the active habits are listed in the list's own order: the filter distributes over concatenation and keeps a single habit exactly when it is active |
| `HabitTracker.IsFuture` | src/components/HabitTracker.tsx:119 | midnight of the cell's day is after now exactly when the day is after today |
| `HabitTracker.CanToggle` | src/components/HabitTracker.tsx:119-124 | a click toggles the cell exactly when its day is today or earlier |
| `GroupManager.Stamped` | src/utils/groupManager.ts:40-41 | the stored group keeps its id, name, code and creation time; its data is the caller's with `lastUpdated` set to the stamp |
| `GroupManager.Loaded` | src/utils/groupManager.ts:58-66 | a missing or unparsable slot reads as the empty table |
| `GroupManager.CodeOf` | src/utils/groupManager.ts:68-75 | six characters, each from `A-Z0-9` |
| `GroupManager.GenerateGroupCode` | src/utils/groupManager.ts:68-75 | the loop appends the drawn character at each of six steps |
| `GroupManager.IndexIn` | src/utils/groupManager.ts:72 | the position of an alphabet character |
| `GroupManager.EveryCodeCanBeDrawn` | src/utils/groupManager.ts:68-75 | every six-character code over the alphabet comes from some draw |
| `GroupManager.AlphabetDistinct` | src/utils/groupManager.ts:69 | each character's position gives it back, so the 36 characters are all different |
| `GroupManager.DrawsDetermineCode` | src/utils/groupManager.ts:68-75 | different draws give different codes |
| `GroupManager.CreateThenJoin` | src/utils/groupManager.ts:14-35 | after filing a group, its code finds it, other codes are unaffected, an existing group under the code is overwritten |
| `GroupManager.UpdateTouchesOneGroup` | src/utils/groupManager.ts:37-46 | an update changes only that group's data and stamp; the keys and other groups are unchanged |
| `GroupManager.GroupStore.CreateGroup` | src/utils/groupManager.ts:14-30 | the generated code maps to the new group with the given data, replacing whatever was there |
| `GroupManager.GroupStore.JoinGroup` | src/utils/groupManager.ts:32-35 | the group under the code, or none for an unknown code |
| `GroupManager.GroupStore.UpdateGroupData` | src/utils/groupManager.ts:37-46 | true and a stamped replacement of that group's data exactly when the code is known; otherwise false and no change |
| `GroupManager.GroupStore.GetGroupData` | src/utils/groupManager.ts:48-51 | the group's data, or none for an unknown code |
| `GroupManager.GroupStore.ListUserGroups` | src/utils/groupManager.ts:53-56 | exactly the stored groups: one per code, each present |
| `HabitForm.ClampPoints` | src/components/HabitForm.tsx:133 | at least 1; a number of 1 or more is kept, NaN, 0 and negatives become 1 |
| `HabitForm.ClampKeepsLargeValues` | src/components/HabitForm.tsx:133-135 | values above 100 pass through: only the lower bound is enforced |
| `HabitForm.ApplyEdit` | src/components/HabitForm.tsx:73-133 | each input's handler sets its own field and leaves the other four unchanged; the points field gets the clamped value, at least 1 |
| `HabitForm.PointsStayPositive` | src/components/HabitForm.tsx:133 | no sequence of edits brings the points below 1 |
| `HabitForm.HandleSubmit` | src/components/HabitForm.tsx:29-49 | a blank title saves nothing; otherwise the draft has trimmed title and description, is active and owned by the current user, and the fields reset to the defaults |
| `HabitForm.SavedTitlesAreTrimmed` | src/components/HabitForm.tsx:32-35 | a saved title is non-empty and trimmed; an all-white-space title is refused |
| `HabitForm.SavedPointsArePositive` | src/components/HabitForm.tsx:27-48 | every saved draft reached from the defaults has at least 1 point |
| `UserSetup.FindByEmail` | src/components/UserSetup.tsx:19-29 | the first user whose email equals the typed one exactly, or -1 |
| `UserSetup.Submit` | src/components/UserSetup.tsx:16-44 | login yields the first exact email match or "not found"; sign-up ignores blank fields, rejects a taken untrimmed email, otherwise creates a user with trimmed name and email |
| `UserSetup.SignedUpFieldsAreTrimmed` | src/components/UserSetup.tsx:35-40 | a new user's name and email are non-empty and trimmed |
| `UserSetup.SignUpThenLogIn` | src/components/UserSetup.tsx:19-42 | after a sign-up with an unpadded email, logging in with that email finds the new user |
| `UserSetup.PaddedDuplicateSlipsPast` | src/components/UserSetup.tsx:27-38 | at the handler, an email already in use arriving with a leading U+00A0 (which `trim()` removes) passes the duplicate check and is stored equal to the existing one; the form's `type="email"` validation refuses such a value, so this is a gap in the handler, not a path a conforming browser's form takes |

## Left out

- Time zones: the model works in UTC. `getWeekDates` (src/utils/dateUtils.ts:15-27) takes the weekday and date arithmetic in local time but formats in UTC. The model keeps one UTC day-number calendar and returns the week as day numbers rather than strings.
- `DateUtils.FormatDate`: formats instants through `FormatDay` of their UTC day. Its result is not stated on its own.
- Malformed date strings (NaN dates) are not modelled: every date is a valid day number.
- `getCompletionRate`'s floating-point percentage and `toFixed` are left out. `HabitTracker.CompletionCounts` returns the numerator and denominator.
- `HabitForm.ClampPoints`: `parseInt`'s string parsing is not modelled. The input is the parsed integer, or `None` for NaN.
- The `as 'daily' | 'weekly'` cast of the frequency select is taken at its word: `Frequency` has only those two values.
- The browser storage behind the page and the groups is left out:
  - the `useLocalStorage` hook, `localStorage` and JSON are not modelled;
  - the page's lists are fields of `Page.App`;
  - the group table is `GroupManager.GroupStore.stored`: absent, unreadable, or a table.
- `GroupManager.GroupStore.ListUserGroups`: the order of `Object.values` is not modelled. The contract states the set of groups and their number.
- `GroupManager.GroupStore.UpdateGroupData`: line 41 of the source also writes `lastUpdated` into the caller's own data object. This aliasing is not modelled; the stamped copy is stored.
- Lookups of plain objects also see inherited keys such as "constructor" in the icon table and the group record. The model's maps contain only their own keys.
- `Math.random`, `Date.now()` and `new Date()` become parameters: draws (`picks`), fresh ids and timestamps.
- The browser's validation of the `type="email"` field (src/components/UserSetup.tsx:98-104) is not modelled: `UserSetup.Submit` takes the email as it reaches `handleSubmit`, and `UserSetup.PaddedDuplicateSlipsPast` is a statement about the handler alone, since that validation would refuse its non-ASCII pad.
- The alerts of src/components/UserSetup.tsx become the outcomes `UserNotFound` and `EmailTaken`; the React callbacks become results.
- Left out as rendering and browser plumbing:
  - React rendering and hooks, `getRankIcon`/`getRankColor`, the Navigation and GroupManager components;
  - the group-sharing effects of src/app/page.tsx (lines 35-63);
  - src/utils/dataManager.ts beyond its `AppData` record;
  - the clipboard, the URL and `generateGroupLink`.
- `Types.User`: the optional `avatar` field of the source's `User` is left out. No modelled operation reads or writes it.
- Integer width: JavaScript numbers are unbounded integers in the model. No count here comes near 2^53.
