/** The tracker's display rules (src/components/HabitTracker.tsx): which cells show as done, the
    completion counts behind the percentage, the category icons, the list of active habits and
    the guard against toggling future days. */
module HabitTracker {
  import opened Types

  /** An entry of `userId` for `habitId` on `date` (lines 26-28). */
  predicate ForCell(e: HabitEntry, userId: string, habitId: string, date: int) {
    e.habitId == habitId && e.userId == userId && e.date == date
  }

  /** `isHabitCompleted` (lines 23-31): some entry for the cell is completed. */
  function IsHabitCompleted(entries: seq<HabitEntry>, userId: string, habitId: string, date: int): (r: bool)
    ensures r <==> exists i :: 0 <= i < |entries| && ForCell(entries[i], userId, habitId, date) && entries[i].completed
  {
    if entries == [] then false
    else if ForCell(entries[0], userId, habitId, date) && entries[0].completed then true
    else
      var r := IsHabitCompleted(entries[1..], userId, habitId, date);
      assert forall i :: 1 <= i < |entries| ==> entries[i] == entries[1..][i - 1];
      r
  }

  // ---------------------------------------------------------------------------------------------
  // Completion rate (lines 33-39)

  /** The test of lines 34-36: an entry of `userId` for `habitId`, on any day. */
  function OfHabit(userId: string, habitId: string): HabitEntry -> bool {
    (e: HabitEntry) => e.habitId == habitId && e.userId == userId
  }

  /** The test of line 37. */
  predicate IsCompleted(e: HabitEntry) {
    e.completed
  }

  /** `habitEntries` of lines 34-36: the user's entries for the habit, on any day, every copy kept
      and in log order. */
  function HabitEntries(entries: seq<HabitEntry>, userId: string, habitId: string): (r: seq<HabitEntry>)
    ensures |r| <= |entries|
    ensures forall e :: e in r <==> e in entries && e.habitId == habitId && e.userId == userId
    ensures forall e :: multiset(r)[e] == if e.habitId == habitId && e.userId == userId then multiset(entries)[e] else 0
  {
    FilterMultiset(entries, OfHabit(userId, habitId));
    Filter(entries, OfHabit(userId, habitId))
  }

  /** `completedEntries` of line 37: the completed ones, every copy kept and in order. */
  function CompletedOnly(s: seq<HabitEntry>): (r: seq<HabitEntry>)
    ensures |r| <= |s|
    ensures forall e :: e in r <==> e in s && e.completed
    ensures forall e :: multiset(r)[e] == if e.completed then multiset(s)[e] else 0
  {
    FilterMultiset(s, IsCompleted);
    Filter(s, IsCompleted)
  }

  /** The numerator and denominator of `getCompletionRate`: the percentage shown is
      `100 * completed / total`, or 0 when `total` is 0. `total` counts the log positions holding
      an entry of the user for the habit, and `completed` those whose entry is also completed. */
  function CompletionCounts(entries: seq<HabitEntry>, userId: string, habitId: string): (r: (nat, nat))
    ensures r.0 <= r.1
    ensures r.1 == 0 ==> r.0 == 0
    ensures r.1 == |set i | 0 <= i < |entries| && entries[i].habitId == habitId && entries[i].userId == userId|
    ensures r.0 == |set i | 0 <= i < |entries| && entries[i].habitId == habitId && entries[i].userId == userId
                                                && entries[i].completed|
  {
    var habitEntries := HabitEntries(entries, userId, habitId);
    CountsAreHits(entries, userId, habitId);
    (|CompletedOnly(habitEntries)|, |habitEntries|)
  }

  /** The two filters' lengths count the passing log positions. */
  lemma CountsAreHits(entries: seq<HabitEntry>, userId: string, habitId: string)
    ensures |HabitEntries(entries, userId, habitId)|
              == |set i | 0 <= i < |entries| && entries[i].habitId == habitId && entries[i].userId == userId|
    ensures |CompletedOnly(HabitEntries(entries, userId, habitId))|
              == |set i | 0 <= i < |entries| && entries[i].habitId == habitId && entries[i].userId == userId
                                              && entries[i].completed|
  {
    var p := OfHabit(userId, habitId);
    var pq := (e: HabitEntry) => e.habitId == habitId && e.userId == userId && e.completed;
    FilterCount(entries, p);
    assert Hits(entries, p)
             == set i | 0 <= i < |entries| && entries[i].habitId == habitId && entries[i].userId == userId;
    FilterFilter(entries, p, IsCompleted, pq);
    FilterCount(entries, pq);
    assert Hits(entries, pq)
             == set i | 0 <= i < |entries| && entries[i].habitId == habitId && entries[i].userId == userId
                                            && entries[i].completed;
  }

  /** Some day is ticked for the habit exactly when the completed count is positive. */
  lemma {:induction false} CompletedCountMeansTicked(entries: seq<HabitEntry>, userId: string, habitId: string)
    ensures CompletionCounts(entries, userId, habitId).0 > 0 <==>
              exists d :: IsHabitCompleted(entries, userId, habitId, d)
  {
    var done := CompletedOnly(HabitEntries(entries, userId, habitId));
    if |done| > 0 {
      assert done[0] in done;
      var i :| 0 <= i < |entries| && entries[i] == done[0];
      assert IsHabitCompleted(entries, userId, habitId, done[0].date);
    }
    if exists d :: IsHabitCompleted(entries, userId, habitId, d) {
      var d :| IsHabitCompleted(entries, userId, habitId, d);
      var i :| 0 <= i < |entries| && ForCell(entries[i], userId, habitId, d) && entries[i].completed;
      assert entries[i] in done;
    }
  }

  // ---------------------------------------------------------------------------------------------
  // Category icons (lines 41-52)

  /** The icon table of lines 42-50. */
  const Icons: map<string, string> := map[
    "Health & Fitness" := "\U{1F4AA}",
    "Learning" := "\U{1F4DA}",
    "Productivity" := "\U{26A1}",
    "Social" := "\U{1F465}",
    "Hobbies" := "\U{1F3A8}",
    "Mindfulness" := "\U{1F9D8}",
    "Other" := "\U{2B50}"]

  /** The fallback icon, a star. */
  const DefaultIcon: string := "\U{2B50}"

  /** `getCategoryIcon`: the table's icon, or the star for any other category. */
  function CategoryIcon(category: string): (icon: string)
    ensures icon in Icons.Values
    ensures category !in Icons ==> icon == DefaultIcon
  {
    assert Icons["Other"] == DefaultIcon;
    if category in Icons then Icons[category] else DefaultIcon
  }

  /** The seven known categories get their own icons, all different; "Other" shares the star
      with every unknown category. */
  lemma CategoryIcons()
    ensures CategoryIcon("Health & Fitness") == "\U{1F4AA}"
    ensures CategoryIcon("Learning") == "\U{1F4DA}"
    ensures CategoryIcon("Productivity") == "\U{26A1}"
    ensures CategoryIcon("Social") == "\U{1F465}"
    ensures CategoryIcon("Hobbies") == "\U{1F3A8}"
    ensures CategoryIcon("Mindfulness") == "\U{1F9D8}"
    ensures CategoryIcon("Other") == DefaultIcon
    ensures forall c1, c2 :: c1 in Icons && c2 in Icons && c1 != c2 ==> CategoryIcon(c1) != CategoryIcon(c2)
  {
  }

  // ---------------------------------------------------------------------------------------------
  // The habit list (line 93) and the day buttons (lines 117-125)

  predicate IsActive(h: Habit) {
    h.isActive
  }

  /** `habits.filter(habit => habit.isActive)`: the active habits, every copy kept. */
  function ActiveHabits(habits: seq<Habit>): (r: seq<Habit>)
    ensures |r| <= |habits|
    ensures forall h :: h in r <==> h in habits && h.isActive
    ensures forall h :: multiset(r)[h] == if h.isActive then multiset(habits)[h] else 0
  {
    FilterMultiset(habits, IsActive);
    Filter(habits, IsActive)
  }

  /** The active habits are listed in the order of `habits`: the list of a concatenation is the
      concatenation of the lists, and a single habit is listed exactly when it is active. */
  lemma ActiveHabitsInOrder(a: seq<Habit>, b: seq<Habit>)
    ensures ActiveHabits(a + b) == ActiveHabits(a) + ActiveHabits(b)
    ensures |a| == 1 ==> ActiveHabits(a) == if a[0].isActive then a else []
  {
    FilterConcat(a, b, IsActive);
  }

  /** Line 119: midnight of the cell's day lies after the current instant. */
  function IsFuture(date: int, now: Clock): (r: bool)
    ensures r <==> date > now.today
  {
    Midnight(date) > NowInstant(now)
  }

  /** Line 124: a click toggles the cell only when its day is not in the future. */
  function CanToggle(date: int, now: Clock): (r: bool)
    ensures r <==> date <= now.today
  {
    !IsFuture(date, now)
  }
}
