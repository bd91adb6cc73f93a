/** The scoring engine (src/utils/scoreUtils.ts): current streak, longest streak and per-user
    statistics computed from the completion log. */
module ScoreUtils {
  import opened Types
  import opened Sorting

  // ---------------------------------------------------------------------------------------------
  // The entries a user's statistics are computed from

  /** An entry counts for `userId` when it is theirs and completed. */
  predicate Counts(e: HabitEntry, userId: string) {
    e.userId == userId && e.completed
  }

  /** The test of line 5 for one user. */
  function CountsFor(userId: string): HabitEntry -> bool {
    (e: HabitEntry) => Counts(e, userId)
  }

  /** The user's completed entries, in log order. */
  function UserCompleted(entries: seq<HabitEntry>, userId: string): (r: seq<HabitEntry>)
    ensures |r| <= |entries|
  {
    Filter(entries, CountsFor(userId))
  }

  /** The filter keeps exactly the entries that count. */
  lemma UserCompletedMembers(entries: seq<HabitEntry>, userId: string)
    ensures forall e :: e in UserCompleted(entries, userId) <==> e in entries && Counts(e, userId)
  {
    FilterMultiset(entries, CountsFor(userId));
  }

  lemma UserCompletedConcat(a: seq<HabitEntry>, b: seq<HabitEntry>, userId: string)
    ensures UserCompleted(a + b, userId) == UserCompleted(a, userId) + UserCompleted(b, userId)
  {
    FilterConcat(a, b, CountsFor(userId));
  }

  /** The comparator of lines 6 and 70: newest date first. */
  function NewestFirstKey(e: HabitEntry): SortKey {
    SortKey(e.date, 0)
  }

  /** The comparator of line 31: oldest date first. */
  function OldestFirstKey(e: HabitEntry): SortKey {
    SortKey(-e.date, 0)
  }

  function Dates(s: seq<HabitEntry>): seq<int> {
    seq(|s|, i requires 0 <= i < |s| => s[i].date)
  }

  /** The dates of the user's completed entries, newest first, duplicates kept. */
  function NewestFirstDays(entries: seq<HabitEntry>, userId: string): seq<int> {
    Dates(SortDesc(UserCompleted(entries, userId), NewestFirstKey))
  }

  /** The dates of the user's completed entries, oldest first, duplicates kept. */
  function OldestFirstDays(entries: seq<HabitEntry>, userId: string): seq<int> {
    Dates(SortDesc(UserCompleted(entries, userId), OldestFirstKey))
  }

  lemma {:induction false} NewestFirstDaysFacts(entries: seq<HabitEntry>, userId: string)
    ensures var days := NewestFirstDays(entries, userId);
            && |days| == |UserCompleted(entries, userId)|
            && (forall i, j :: 0 <= i < j < |days| ==> days[j] <= days[i])
            && (forall e :: e in UserCompleted(entries, userId) ==> exists i :: 0 <= i < |days| && days[i] == e.date)
            && (|days| > 0 ==> exists e :: e in UserCompleted(entries, userId) && e.date == days[0])
  {
    var uc := UserCompleted(entries, userId);
    var sorted := SortDesc(uc, NewestFirstKey);
    DatesOfDescending(sorted);
    DatesCover(uc, sorted);
  }

  /** The dates of a list sorted newest first never increase. */
  lemma DatesOfDescending(sorted: seq<HabitEntry>)
    requires Descending(sorted, NewestFirstKey)
    ensures var days := Dates(sorted);
            forall i, j :: 0 <= i < j < |days| ==> days[j] <= days[i]
  {
    var days := Dates(sorted);
    forall i, j | 0 <= i < j < |days| ensures days[j] <= days[i] {
      assert !Above(NewestFirstKey(sorted[j]), NewestFirstKey(sorted[i]));
    }
  }

  /** A rearrangement's dates include the date of every entry, and its first date is one of them. */
  lemma DatesCover(uc: seq<HabitEntry>, sorted: seq<HabitEntry>)
    requires multiset(sorted) == multiset(uc)
    ensures var days := Dates(sorted);
            && (forall e :: e in uc ==> exists i :: 0 <= i < |days| && days[i] == e.date)
            && (|days| > 0 ==> exists e :: e in uc && e.date == days[0])
  {
    var days := Dates(sorted);
    forall e | e in uc ensures exists i :: 0 <= i < |days| && days[i] == e.date {
      assert e in multiset(sorted);
      var i :| 0 <= i < |sorted| && sorted[i] == e;
      assert days[i] == e.date;
    }
    if |days| > 0 {
      assert sorted[0] in multiset(uc);
    }
  }

  // ---------------------------------------------------------------------------------------------
  // Current streak (lines 3-26)

  /** The whole days the walk measures at step `i`: from the previous anchor (now at step 0,
      the (i-1)-th newest date afterwards) back to the i-th newest date. */
  function Gap(days: seq<int>, today: int, i: nat): int
    requires i < |days|
  {
    (if i == 0 then today else days[i - 1]) - days[i]
  }

  /** `k` is what the walk returns: the first `k` gaps each equal the running count, and the
      next one, if any, does not. */
  ghost predicate IsStreak(days: seq<int>, today: int, k: nat) {
    && k <= |days|
    && (forall i :: 0 <= i < k ==> Gap(days, today, i) == i)
    && (k < |days| ==> Gap(days, today, k) != k)
  }

  function StreakFrom(days: seq<int>, today: int, k: nat): (r: nat)
    requires k <= |days|
    decreases |days| - k
  {
    if k == |days| || Gap(days, today, k) != k then 0 else 1 + StreakFrom(days, today, k + 1)
  }

  /** The current streak of a newest-first day list. */
  function CurrentStreak(days: seq<int>, today: int): nat {
    StreakFrom(days, today, 0)
  }

  lemma {:induction false} StreakFromFacts(days: seq<int>, today: int, k: nat)
    requires k <= |days|
    requires forall i :: 0 <= i < k ==> Gap(days, today, i) == i
    ensures IsStreak(days, today, k + StreakFrom(days, today, k))
    decreases |days| - k
  {
    if k < |days| && Gap(days, today, k) == k {
      StreakFromFacts(days, today, k + 1);
    }
  }

  /** `CurrentStreak` is the one value satisfying `IsStreak`. */
  lemma {:induction false} CurrentStreakCharacterized(days: seq<int>, today: int)
    ensures IsStreak(days, today, CurrentStreak(days, today))
    ensures forall k :: IsStreak(days, today, k) ==> k == CurrentStreak(days, today)
  {
    StreakFromFacts(days, today, 0);
    var s := CurrentStreak(days, today);
    forall k | IsStreak(days, today, k) ensures k == s {
    }
  }

  /** The current streak of a user. */
  function StreakOf(entries: seq<HabitEntry>, userId: string, now: Clock): nat {
    CurrentStreak(NewestFirstDays(entries, userId), now.today)
  }

  /** Floor of the elapsed days from the instant `now` back to midnight of day `d`. */
  lemma DaysBackFromNow(now: Clock, d: int)
    ensures (NowInstant(now) - Midnight(d)) / MsPerDay == now.today - d
  {
  }

  /** Between two midnights lie exactly the whole days between their dates. */
  lemma MidnightGap(a: int, b: int)
    ensures (Midnight(a) - Midnight(b)) / MsPerDay == a - b
  {
    assert Midnight(a) - Midnight(b) == MsPerDay * (a - b);
  }

  /** `calculateStreak`. */
  method CalculateStreak(entries: seq<HabitEntry>, userId: string, now: Clock) returns (streak: nat)
    ensures IsStreak(NewestFirstDays(entries, userId), now.today, streak)
    ensures streak == StreakOf(entries, userId, now)
  {
    var userEntries := SortDesc(UserCompleted(entries, userId), NewestFirstKey);
    ghost var days := Dates(userEntries);
    CurrentStreakCharacterized(days, now.today);
    if |userEntries| == 0 {
      return 0;
    }
    streak := 0;
    var currentDate := NowInstant(now);
    var i := 0;
    while i < |userEntries|
      invariant 0 <= i <= |userEntries| && streak == i
      invariant currentDate == if i == 0 then NowInstant(now) else Midnight(days[i - 1])
      invariant forall k :: 0 <= k < i ==> Gap(days, now.today, k) == k
    {
      var entryDate := Midnight(userEntries[i].date);
      var daysDiff := (currentDate - entryDate) / MsPerDay;
      assert daysDiff == Gap(days, now.today, i) by {
        if i == 0 {
          DaysBackFromNow(now, days[i]);
        } else {
          MidnightGap(days[i - 1], days[i]);
        }
      }
      if daysDiff == streak {
        streak := streak + 1;
        currentDate := entryDate;
      } else {
        assert Gap(days, now.today, i) != i;
        break;
      }
      i := i + 1;
    }
  }

  /** The result lies between 0 and the number of the user's completed entries, and is 0 when
      there are none. */
  lemma {:induction false} StreakBounds(entries: seq<HabitEntry>, userId: string, now: Clock)
    ensures StreakOf(entries, userId, now) <= |UserCompleted(entries, userId)|
    ensures UserCompleted(entries, userId) == [] ==> StreakOf(entries, userId, now) == 0
  {
    NewestFirstDaysFacts(entries, userId);
    CurrentStreakCharacterized(NewestFirstDays(entries, userId), now.today);
  }

  /** A positive streak needs a completion dated today and none dated later; in particular a
      future-dated completion sorts first and forces the streak to 0. */
  lemma {:induction false} StreakNeedsToday(entries: seq<HabitEntry>, userId: string, now: Clock)
    ensures StreakOf(entries, userId, now) > 0 ==>
              (exists e :: e in UserCompleted(entries, userId) && e.date == now.today)
    ensures (exists e :: e in UserCompleted(entries, userId) && e.date > now.today) ==>
              StreakOf(entries, userId, now) == 0
  {
    var days := NewestFirstDays(entries, userId);
    NewestFirstDaysFacts(entries, userId);
    CurrentStreakCharacterized(days, now.today);
    if StreakOf(entries, userId, now) > 0 {
      assert Gap(days, now.today, 0) == 0;
      forall e | e in UserCompleted(entries, userId) ensures e.date <= now.today {
        var i :| 0 <= i < |days| && days[i] == e.date;
        assert i == 0 || days[i] <= days[0];
      }
    }
  }

  /** Two completions on the same day are not merged: the second one's gap is 0, which never
      equals the running count, so the walk stops there. */
  lemma {:induction false} SameDayEndsStreak(days: seq<int>, today: int, i: nat)
    requires i + 1 < |days| && days[i] == days[i + 1]
    ensures CurrentStreak(days, today) <= i + 1
  {
    CurrentStreakCharacterized(days, today);
    assert Gap(days, today, i + 1) == 0;
  }

  /** Other users' entries and uncompleted entries never influence any statistic: inserting one
      anywhere in the log leaves the user's completed entries as they were. */
  lemma {:induction false} IrrelevantEntryIgnored(entries: seq<HabitEntry>, i: nat, e: HabitEntry, userId: string)
    requires i <= |entries| && !Counts(e, userId)
    ensures UserCompleted(entries[..i] + [e] + entries[i..], userId) == UserCompleted(entries, userId)
  {
    UserCompletedConcat(entries[..i] + [e], entries[i..], userId);
    UserCompletedConcat(entries[..i], [e], userId);
    UserCompletedConcat(entries[..i], entries[i..], userId);
    assert entries[..i] + entries[i..] == entries;
    assert UserCompleted([e], userId) == [] by {
      assert [e][1..] == [];
    }
  }

  // ---------------------------------------------------------------------------------------------
  // Longest streak (lines 28-52)

  /** The days `lo` to `hi - 1` of an oldest-first list step up by exactly one day each. */
  ghost predicate Consecutive(days: seq<int>, lo: int, hi: int)
    requires 0 <= lo <= hi <= |days|
  {
    forall k :: lo < k < hi ==> days[k] - days[k - 1] == 1
  }

  /** The run counter after position `i`: a gap of exactly one day extends it, any other gap
      (0 for a same-day duplicate) resets it to 1. */
  function RunEndingAt(days: seq<int>, i: nat): (r: nat)
    requires i < |days|
    ensures 1 <= r <= i + 1
  {
    if i == 0 then 1
    else if days[i] - days[i - 1] == 1 then RunEndingAt(days, i - 1) + 1
    else 1
  }

  /** The largest run counter over the first `n` positions. */
  function MaxRun(days: seq<int>, n: nat): (r: nat)
    requires 0 < n <= |days|
    ensures 1 <= r <= n
  {
    if n == 1 then 1
    else
      var m := MaxRun(days, n - 1);
      var c := RunEndingAt(days, n - 1);
      if m >= c then m else c
  }

  /** The longest streak of an oldest-first day list. */
  function LongestStreak(days: seq<int>): nat {
    if days == [] then 0 else MaxRun(days, |days|)
  }

  lemma {:induction false} RunIsConsecutive(days: seq<int>, i: nat)
    requires i < |days|
    ensures Consecutive(days, i + 1 - RunEndingAt(days, i), i + 1)
  {
    if i > 0 && days[i] - days[i - 1] == 1 {
      RunIsConsecutive(days, i - 1);
    }
  }

  lemma {:induction false} RunIsMaximal(days: seq<int>, lo: nat, i: nat)
    requires lo <= i < |days| && Consecutive(days, lo, i + 1)
    ensures i + 1 - lo <= RunEndingAt(days, i)
  {
    if lo < i {
      RunIsMaximal(days, lo, i - 1);
    }
  }

  lemma {:induction false} MaxRunIsMaximum(days: seq<int>, n: nat)
    requires 0 < n <= |days|
    ensures forall i :: 0 <= i < n ==> RunEndingAt(days, i) <= MaxRun(days, n)
    ensures exists i :: 0 <= i < n && RunEndingAt(days, i) == MaxRun(days, n)
  {
    if n > 1 {
      MaxRunIsMaximum(days, n - 1);
    } else {
      assert RunEndingAt(days, 0) == MaxRun(days, 1);
    }
  }

  /** The longest streak is the length of the longest stretch of one-day steps: some stretch has
      that length and none is longer. */
  lemma {:induction false} LongestStreakCharacterized(days: seq<int>)
    ensures days == [] <==> LongestStreak(days) == 0
    ensures days != [] ==> exists lo, hi :: 0 <= lo < hi <= |days| && Consecutive(days, lo, hi)
                                              && hi - lo == LongestStreak(days)
    ensures forall lo, hi :: 0 <= lo < hi <= |days| && Consecutive(days, lo, hi) ==>
              hi - lo <= LongestStreak(days)
  {
    if days != [] {
      var n := |days|;
      MaxRunIsMaximum(days, n);
      var i :| 0 <= i < n && RunEndingAt(days, i) == MaxRun(days, n);
      RunIsConsecutive(days, i);
      assert Consecutive(days, i + 1 - RunEndingAt(days, i), i + 1);
      forall lo, hi | 0 <= lo < hi <= n && Consecutive(days, lo, hi)
        ensures hi - lo <= LongestStreak(days)
      {
        RunIsMaximal(days, lo, hi - 1);
      }
    }
  }

  /** The longest streak of a user. */
  function LongestStreakOf(entries: seq<HabitEntry>, userId: string): nat {
    LongestStreak(OldestFirstDays(entries, userId))
  }

  /** `calculateLongestStreak`: filter, sort oldest first, then walk (lines 28-52). */
  method CalculateLongestStreak(entries: seq<HabitEntry>, userId: string) returns (longestStreak: nat)
    ensures longestStreak == LongestStreakOf(entries, userId)
    ensures UserCompleted(entries, userId) == [] <==> longestStreak == 0
    ensures longestStreak <= |UserCompleted(entries, userId)|
  {
    var userEntries := SortDesc(UserCompleted(entries, userId), OldestFirstKey);
    longestStreak := LongestWalk(userEntries);
  }

  /** The walk of lines 33-50 over the sorted entries: the longest run of dates one day apart. */
  method LongestWalk(userEntries: seq<HabitEntry>) returns (longestStreak: nat)
    ensures longestStreak == LongestStreak(Dates(userEntries))
    ensures userEntries == [] <==> longestStreak == 0
    ensures longestStreak <= |userEntries|
  {
    ghost var days := Dates(userEntries);
    if |userEntries| == 0 {
      return 0;
    }
    longestStreak := 1;
    var currentStreak := 1;
    for i := 1 to |userEntries|
      invariant currentStreak == RunEndingAt(days, i - 1)
      invariant longestStreak == MaxRun(days, i)
    {
      var prevDate := Midnight(userEntries[i - 1].date);
      var currentDate := Midnight(userEntries[i].date);
      var daysDiff := (currentDate - prevDate) / MsPerDay;
      assert daysDiff == days[i] - days[i - 1] by {
        MidnightGap(days[i], days[i - 1]);
      }
      if daysDiff == 1 {
        currentStreak := currentStreak + 1;
        longestStreak := if longestStreak >= currentStreak then longestStreak else currentStreak;
      } else {
        currentStreak := 1;
      }
    }
  }

  // ---------------------------------------------------------------------------------------------
  // Statistics (lines 54-80)

  /** `habits.find(h => h.id === habitId)`, as the position of the habit found, or -1 where
      `find` gives `undefined`. */
  function FindHabit(habits: seq<Habit>, habitId: string): (i: int)
    ensures -1 <= i < |habits|
    ensures i >= 0 ==> habits[i].id == habitId && forall j :: 0 <= j < i ==> habits[j].id != habitId
    ensures i < 0 ==> forall j :: 0 <= j < |habits| ==> habits[j].id != habitId
  {
    FindFirst(habits, (h: Habit) => h.id == habitId)
  }

  /** The points of the first habit with that id, or 0 when there is none. */
  function HabitPoints(habits: seq<Habit>, habitId: string): (r: int)
    ensures (forall j :: 0 <= j < |habits| ==> habits[j].id != habitId) ==> r == 0
    ensures forall j :: 0 <= j < |habits| && habits[j].id == habitId &&
                          (forall k :: 0 <= k < j ==> habits[k].id != habitId) ==>
                          r == habits[j].points
  {
    var i := FindHabit(habits, habitId);
    if i < 0 then 0 else habits[i].points
  }

  /** The `reduce` of lines 61-64, summing from the first entry to the last. */
  function PointsTotal(s: seq<HabitEntry>, habits: seq<Habit>): int {
    if s == [] then 0 else PointsTotal(s[..|s| - 1], habits) + HabitPoints(habits, s[|s| - 1].habitId)
  }

  /** `lastActive`: midnight of the newest completed entry's date, or now when there is none. */
  function LastActive(entries: seq<HabitEntry>, userId: string, now: Clock): (r: int)
    ensures UserCompleted(entries, userId) == [] ==> r == NowInstant(now)
    ensures UserCompleted(entries, userId) != [] ==>
              exists e :: e in UserCompleted(entries, userId) && r == Midnight(e.date)
  {
    var newest := SortDesc(UserCompleted(entries, userId), NewestFirstKey);
    assert newest != [] ==> newest[0] in multiset(UserCompleted(entries, userId)) by {
      if newest != [] {
        assert newest[0] in multiset(newest);
      }
    }
    if newest == [] then NowInstant(now) else Midnight(newest[0].date)
  }

  /** The statistics `calculateUserStats` returns. */
  function StatsOf(entries: seq<HabitEntry>, habits: seq<Habit>, userId: string, now: Clock): (r: UserStats)
    ensures r.userId == userId && r.habitsCompleted == |UserCompleted(entries, userId)|
    ensures r.streak <= r.habitsCompleted && r.longestStreak <= r.habitsCompleted
    ensures r.longestStreak == 0 <==> r.habitsCompleted == 0
  {
    StreakBounds(entries, userId, now);
    LongestStreakBounds(entries, userId);
    var completed := UserCompleted(entries, userId);
    UserStats(
      userId,
      PointsTotal(completed, habits),
      StreakOf(entries, userId, now),
      LongestStreakOf(entries, userId),
      |completed|,
      LastActive(entries, userId, now))
  }

  /** `calculateUserStats`. */
  method CalculateUserStats(entries: seq<HabitEntry>, habits: seq<Habit>, userId: string, now: Clock)
    returns (stats: UserStats)
    ensures stats == StatsOf(entries, habits, userId, now)
  {
    var userEntries := UserCompleted(entries, userId);
    var totalPoints := PointsTotal(userEntries, habits);
    var streak := CalculateStreak(entries, userId, now);
    var longestStreak := CalculateLongestStreak(entries, userId);
    var newestFirst := SortDesc(userEntries, NewestFirstKey);
    var lastActive := if |newestFirst| > 0 then Midnight(newestFirst[0].date) else NowInstant(now);
    stats := UserStats(userId, totalPoints, streak, longestStreak, |userEntries|, lastActive);
  }

  /** The longest streak is at most the number of completions, and 0 exactly when there are none. */
  lemma {:induction false} LongestStreakBounds(entries: seq<HabitEntry>, userId: string)
    ensures LongestStreakOf(entries, userId) <= |UserCompleted(entries, userId)|
    ensures UserCompleted(entries, userId) == [] <==> LongestStreakOf(entries, userId) == 0
  {
    var days := OldestFirstDays(entries, userId);
    LongestStreakCharacterized(days);
    assert |days| == |UserCompleted(entries, userId)|;
  }


  /** The total over a concatenation is the sum of the totals, and one entry earns its habit's
      points: the sum does not depend on how the list is split. */
  lemma {:induction false} PointsTotalConcat(a: seq<HabitEntry>, b: seq<HabitEntry>, habits: seq<Habit>)
    ensures PointsTotal(a + b, habits) == PointsTotal(a, habits) + PointsTotal(b, habits)
    ensures |b| == 1 ==> PointsTotal(b, habits) == HabitPoints(habits, b[0].habitId)
    decreases |b|
  {
    if b == [] {
      assert a + b == a;
    } else {
      var init := b[..|b| - 1];
      assert (a + b)[..|a + b| - 1] == a + init;
      PointsTotalConcat(a, init, habits);
      if |b| == 1 {
        assert init == [];
      }
    }
  }

  /** When every completed entry earns `p` points, the total is `p` times their number. */
  lemma {:induction false} UniformPoints(s: seq<HabitEntry>, habits: seq<Habit>, p: int)
    requires forall i :: 0 <= i < |s| ==> HabitPoints(habits, s[i].habitId) == p
    ensures PointsTotal(s, habits) == p * |s|
  {
    if s != [] {
      var init := s[..|s| - 1];
      assert forall i :: 0 <= i < |init| ==> init[i] == s[i];
      UniformPoints(init, habits, p);
      assert PointsTotal(s, habits) == PointsTotal(init, habits) + p;
    }
  }

  /** Entries referring to no known habit add nothing. */
  lemma {:induction false} UnknownHabitsEarnNothing(s: seq<HabitEntry>, habits: seq<Habit>)
    requires forall e, h :: e in s && h in habits ==> h.id != e.habitId
    ensures PointsTotal(s, habits) == 0
  {
    if s != [] {
      assert forall e :: e in s[..|s| - 1] ==> e in s;
      UnknownHabitsEarnNothing(s[..|s| - 1], habits);
      assert s[|s| - 1] in s;
      assert forall j :: 0 <= j < |habits| ==> habits[j] in habits;
    }
  }

  /** `lastActive` is midnight of the latest completed date, or now when there is none. */
  lemma {:induction false} LastActiveIsNewest(entries: seq<HabitEntry>, userId: string, now: Clock)
    ensures UserCompleted(entries, userId) == [] ==> LastActive(entries, userId, now) == NowInstant(now)
    ensures UserCompleted(entries, userId) != [] ==>
              (exists e :: e in UserCompleted(entries, userId) && Midnight(e.date) == LastActive(entries, userId, now))
              && forall e :: e in UserCompleted(entries, userId) ==> Midnight(e.date) <= LastActive(entries, userId, now)
  {
    NewestFirstDaysFacts(entries, userId);
    var days := NewestFirstDays(entries, userId);
    if UserCompleted(entries, userId) != [] {
      assert LastActive(entries, userId, now) == Midnight(days[0]);
      forall e | e in UserCompleted(entries, userId) ensures Midnight(e.date) <= Midnight(days[0]) {
        var i :| 0 <= i < |days| && days[i] == e.date;
        assert i == 0 || days[i] <= days[0];
      }
    }
  }

  /** A user with no completed entries scores nothing and has no streaks. */
  lemma {:induction false} NoCompletionsNoStats(entries: seq<HabitEntry>, habits: seq<Habit>, userId: string, now: Clock)
    requires UserCompleted(entries, userId) == []
    ensures var s := StatsOf(entries, habits, userId, now);
            s.totalPoints == 0 && s.streak == 0 && s.longestStreak == 0 && s.habitsCompleted == 0
            && s.lastActive == NowInstant(now)
  {
    StreakBounds(entries, userId, now);
    assert OldestFirstDays(entries, userId) == [];
  }

  // ---------------------------------------------------------------------------------------------
  // Worked examples

  /** A log of the user's own completions is kept whole by the filter. */
  lemma {:induction false} AllCount(s: seq<HabitEntry>, userId: string)
    requires forall i :: 0 <= i < |s| ==> Counts(s[i], userId)
    ensures UserCompleted(s, userId) == s
  {
    if s != [] {
      AllCount(s[1..], userId);
      assert s == [s[0]] + s[1..];
    }
  }

  lemma {:induction false} StreakOfThreeDays(t: int)
    ensures CurrentStreak([t, t - 1, t - 2], t) == 2
    ensures CurrentStreak([t, t - 1, t - 3], t) == 3
  {
    var d1, d2 := [t, t - 1, t - 2], [t, t - 1, t - 3];
    assert Gap(d1, t, 0) == 0 && Gap(d1, t, 1) == 1 && Gap(d1, t, 2) == 1;
    CurrentStreakCharacterized(d1, t);
    assert IsStreak(d1, t, 2);
    assert Gap(d2, t, 0) == 0 && Gap(d2, t, 1) == 1 && Gap(d2, t, 2) == 2;
    CurrentStreakCharacterized(d2, t);
    assert IsStreak(d2, t, 3);
  }

  lemma LongestOfThreeDays(t: int)
    ensures LongestStreak([t - 2, t - 1, t]) == 3
    ensures LongestStreak([t - 3, t - 1, t]) == 2
  {
    var d1, d2 := [t - 2, t - 1, t], [t - 3, t - 1, t];
    assert RunEndingAt(d1, 1) == 2 && RunEndingAt(d1, 2) == 3;
    assert RunEndingAt(d2, 1) == 1 && RunEndingAt(d2, 2) == 2;
  }

  /** A log of three of the user's completions dated `d0`, `d1`, `d2` in log order. */
  ghost predicate ThreeCompletions(log: seq<HabitEntry>, userId: string, d0: int, d1: int, d2: int) {
    && |log| == 3
    && (forall i :: 0 <= i < 3 ==> Counts(log[i], userId))
    && log[0].date == d0 && log[1].date == d1 && log[2].date == d2
  }

  /** The dates of a three-entry list, and of its reversal. */
  lemma DatesOfThree(s: seq<HabitEntry>)
    requires |s| == 3
    ensures Dates(s) == [s[0].date, s[1].date, s[2].date]
    ensures Dates(Reversed(s)) == [s[2].date, s[1].date, s[0].date]
  {
    var r := Reversed(s);
    assert r[0] == s[2] && r[1] == s[1] && r[2] == s[0];
  }

  /** Dates strictly increasing along a log order it both ways: newest first reverses it, oldest
      first keeps it. */
  lemma IncreasingDatesKeys(log: seq<HabitEntry>)
    requires forall i, j :: 0 <= i < j < |log| ==> log[i].date < log[j].date
    ensures StrictlyAscending(log, NewestFirstKey) && Descending(log, OldestFirstKey)
  {
  }

  /** Dates strictly decreasing along a log: newest first keeps it, oldest first reverses it. */
  lemma DecreasingDatesKeys(log: seq<HabitEntry>)
    requires forall i, j :: 0 <= i < j < |log| ==> log[i].date > log[j].date
    ensures Descending(log, NewestFirstKey) && StrictlyAscending(log, OldestFirstKey)
  {
  }

  /** A log of three completions on strictly increasing days sorts to those days. */
  lemma {:induction false} DaysOfAscendingLog(log: seq<HabitEntry>, userId: string, d0: int, d1: int, d2: int)
    requires ThreeCompletions(log, userId, d0, d1, d2) && d0 < d1 < d2
    ensures NewestFirstDays(log, userId) == [d2, d1, d0]
    ensures OldestFirstDays(log, userId) == [d0, d1, d2]
  {
    AllCount(log, userId);
    IncreasingDatesKeys(log);
    SortDescOfAscending(log, NewestFirstKey);
    SortDescOfDescending(log, OldestFirstKey);
    DatesOfThree(log);
  }

  /** A log of three completions on strictly decreasing days sorts to those days. */
  lemma {:induction false} DaysOfDescendingLog(log: seq<HabitEntry>, userId: string, d0: int, d1: int, d2: int)
    requires ThreeCompletions(log, userId, d0, d1, d2) && d0 > d1 > d2
    ensures NewestFirstDays(log, userId) == [d0, d1, d2]
    ensures OldestFirstDays(log, userId) == [d2, d1, d0]
  {
    AllCount(log, userId);
    DecreasingDatesKeys(log);
    SortDescOfDescending(log, NewestFirstKey);
    SortDescOfAscending(log, OldestFirstKey);
    DatesOfThree(log);
  }

  /** Completions logged oldest first on the day before yesterday, yesterday and today give a
      current streak of 2, not 3: the third gap is 1 day while the running count is 2. */
  lemma {:induction false} ThreeConsecutiveDaysStreak(log: seq<HabitEntry>, userId: string, now: Clock)
    requires ThreeCompletions(log, userId, now.today - 2, now.today - 1, now.today)
    ensures StreakOf(log, userId, now) == 2
  {
    DaysOfAscendingLog(log, userId, now.today - 2, now.today - 1, now.today);
    StreakOfThreeDays(now.today);
  }

  /** The same log has a longest streak of 3. */
  lemma {:induction false} ThreeConsecutiveDaysLongest(log: seq<HabitEntry>, userId: string, now: Clock)
    requires ThreeCompletions(log, userId, now.today - 2, now.today - 1, now.today)
    ensures LongestStreakOf(log, userId) == 3
  {
    DaysOfAscendingLog(log, userId, now.today - 2, now.today - 1, now.today);
    LongestOfThreeDays(now.today);
  }

  /** Completions logged newest first today, yesterday and three days ago give a current streak
      of 3, because the last gap, 2 days, equals the running count 2. */
  lemma {:induction false} GapCountedAsStreak(log: seq<HabitEntry>, userId: string, now: Clock)
    requires ThreeCompletions(log, userId, now.today, now.today - 1, now.today - 3)
    ensures StreakOf(log, userId, now) == 3
  {
    DaysOfDescendingLog(log, userId, now.today, now.today - 1, now.today - 3);
    StreakOfThreeDays(now.today);
  }

  /** The same log has a longest streak of only 2. */
  lemma {:induction false} GapBreaksLongest(log: seq<HabitEntry>, userId: string, now: Clock)
    requires ThreeCompletions(log, userId, now.today, now.today - 1, now.today - 3)
    ensures LongestStreakOf(log, userId) == 2
  {
    DaysOfDescendingLog(log, userId, now.today, now.today - 1, now.today - 3);
    LongestOfThreeDays(now.today);
  }

  /** Two completions today (of two habits, say) give a current streak of 1 and a longest streak
      of 1: same-day entries are not merged. */
  lemma {:induction false} TwoCompletionsToday(a: HabitEntry, b: HabitEntry, userId: string, now: Clock)
    requires Counts(a, userId) && Counts(b, userId) && a.date == now.today && b.date == now.today
    ensures StreakOf([a, b], userId, now) == 1 && LongestStreakOf([a, b], userId) == 1
  {
    var t := now.today;
    DaysOfSameDayLog([a, b], userId, t);
    var days := [t, t];
    assert Gap(days, t, 0) == 0 && Gap(days, t, 1) == 0;
    CurrentStreakCharacterized(days, t);
    assert IsStreak(days, t, 1);
    assert RunEndingAt(days, 1) == 1;
  }

  /** Two completions on the same day stay as they are under both sorts. */
  lemma {:induction false} DaysOfSameDayLog(log: seq<HabitEntry>, userId: string, t: int)
    requires |log| == 2 && Counts(log[0], userId) && Counts(log[1], userId)
    requires log[0].date == t && log[1].date == t
    ensures NewestFirstDays(log, userId) == [t, t] && OldestFirstDays(log, userId) == [t, t]
  {
    AllCount(log, userId);
    EqualDatesKeys(log);
    SortDescOfDescending(log, NewestFirstKey);
    SortDescOfDescending(log, OldestFirstKey);
    DatesOfTwo(log);
  }

  /** Entries sharing one date are in order under both sorts. */
  lemma EqualDatesKeys(log: seq<HabitEntry>)
    requires |log| == 2 && log[0].date == log[1].date
    ensures Descending(log, NewestFirstKey) && Descending(log, OldestFirstKey)
  {
  }

  lemma DatesOfTwo(s: seq<HabitEntry>)
    requires |s| == 2
    ensures Dates(s) == [s[0].date, s[1].date]
  {
  }
}
