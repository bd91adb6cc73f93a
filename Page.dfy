/** The page's state and handlers (src/app/page.tsx): the user list, habit list and entry log the
    page keeps, the current user, and the per-user statistics it derives from them. */
module Page {
  import opened Types
  import opened Sorting
  import opened ScoreUtils

  // ---------------------------------------------------------------------------------------------
  // Users (lines 65-74)

  /** `users.findIndex(u => u.id === id)`. */
  function FindUser(users: seq<User>, id: string): (i: int)
    ensures -1 <= i < |users|
    ensures i >= 0 ==> users[i].id == id && forall j :: 0 <= j < i ==> users[j].id != id
    ensures i < 0 ==> forall j :: 0 <= j < |users| ==> users[j].id != id
  {
    FindFirst(users, (u: User) => u.id == id)
  }

  /** The user list after `handleUserCreate(user)`: a known id leaves the list as it was (the
      stored record is kept, not replaced); a new one is appended at the end. Either way the id
      is then present. */
  function WithUser(users: seq<User>, user: User): (r: seq<User>)
    ensures r == users <==> exists i :: 0 <= i < |users| && users[i].id == user.id
    ensures r != users ==> r == users + [user]
    ensures exists i :: 0 <= i < |r| && r[i].id == user.id
  {
    var i := FindUser(users, user.id);
    if i >= 0 then
      assert users[i].id == user.id;
      users
    else
      assert (users + [user])[|users|].id == user.id;
      users + [user]
  }

  /** No two users share an id. */
  ghost predicate UniqueIds(users: seq<User>) {
    forall i, j :: 0 <= i < j < |users| ==> users[i].id != users[j].id
  }

  /** Adding a user keeps ids unique. */
  lemma {:induction false} WithUserFacts(users: seq<User>, user: User)
    ensures UniqueIds(users) ==> UniqueIds(WithUser(users, user))
  {
    var i := FindUser(users, user.id);
    if i < 0 {
      var r := users + [user];
      assert forall j :: 0 <= j < |users| ==> r[j] == users[j];
    }
  }

  // ---------------------------------------------------------------------------------------------
  // Habits (lines 76-84)

  /** The draft a habit was built from: everything but its id and creation time. */
  function DraftOf(h: Habit): HabitDraft {
    HabitDraft(h.title, h.description, h.category, h.targetFrequency, h.points, h.createdBy, h.isActive)
  }

  /** The habit `handleHabitCreate` builds from the form's draft, a fresh id and the creation
      time: the draft's fields are carried over unchanged. */
  function NewHabit(draft: HabitDraft, id: string, createdAt: int): (h: Habit)
    ensures h.id == id && h.createdAt == createdAt
    ensures DraftOf(h) == draft
  {
    Habit(id, draft.title, draft.description, draft.category, draft.targetFrequency, draft.points,
          draft.createdBy, createdAt, draft.isActive)
  }

  // ---------------------------------------------------------------------------------------------
  // Toggling a day (lines 86-115)

  /** The entry of `userId` for `habitId` on `date`. */
  predicate Matches(e: HabitEntry, habitId: string, userId: string, date: int) {
    e.habitId == habitId && e.userId == userId && e.date == date
  }

  /** `entries.findIndex(...)` of lines 89-94. */
  function FindEntry(entries: seq<HabitEntry>, habitId: string, userId: string, date: int): (i: int)
    ensures -1 <= i < |entries|
    ensures i >= 0 ==> Matches(entries[i], habitId, userId, date)
                       && forall j :: 0 <= j < i ==> !Matches(entries[j], habitId, userId, date)
    ensures i < 0 ==> forall j :: 0 <= j < |entries| ==> !Matches(entries[j], habitId, userId, date)
  {
    FindFirst(entries, (e: HabitEntry) => Matches(e, habitId, userId, date))
  }

  /** Lines 98-102: the flag flips, and the completion time is `stamp` when it becomes true and
      cleared when it becomes false. */
  function Flip(e: HabitEntry, stamp: int): (r: HabitEntry)
    ensures r.completed == !e.completed
    ensures r.completedAt == if r.completed then Some(stamp) else None
    ensures r.(completed := e.completed, completedAt := e.completedAt) == e
  {
    e.(completed := !e.completed, completedAt := if !e.completed then Some(stamp) else None)
  }

  /** The entry log after `handleToggleHabit(habitId, date)`; `newId` and `stamp` stand for
      `Date.now()` and `new Date()`. */
  function Toggled(entries: seq<HabitEntry>, current: Option<User>, habitId: string, date: int,
                   newId: string, stamp: int): (r: seq<HabitEntry>)
    ensures current.None? ==> r == entries
    ensures |entries| <= |r| <= |entries| + 1
    ensures forall j :: 0 <= j < |entries| && r[j] != entries[j] ==>
                          current.Some? && Matches(entries[j], habitId, current.value.id, date)
    ensures |r| > |entries| ==>
              && current.Some? && Matches(r[|entries|], habitId, current.value.id, date)
              && r[|entries|].completed
              && forall j :: 0 <= j < |entries| ==> !Matches(entries[j], habitId, current.value.id, date)
  {
    if current.None? then entries
    else
      var i := FindEntry(entries, habitId, current.value.id, date);
      if i >= 0 then entries[i := Flip(entries[i], stamp)]
      else entries + [HabitEntry(newId, habitId, current.value.id, date, true, None, Some(stamp))]
  }

  /** With nobody logged in, toggling changes nothing. */
  lemma ToggleWithoutUser(entries: seq<HabitEntry>, habitId: string, date: int, newId: string, stamp: int)
    ensures Toggled(entries, None, habitId, date, newId, stamp) == entries
  {
  }

  /** An existing entry for the key: only the first one is flipped, everything else is kept. */
  lemma {:induction false} ToggleExisting(entries: seq<HabitEntry>, user: User, habitId: string, date: int,
                                          newId: string, stamp: int)
    requires exists k :: 0 <= k < |entries| && Matches(entries[k], habitId, user.id, date)
    ensures var r := Toggled(entries, Some(user), habitId, date, newId, stamp);
            var i := FindEntry(entries, habitId, user.id, date);
            && 0 <= i < |entries| && |r| == |entries|
            && (forall j :: 0 <= j < i ==> !Matches(entries[j], habitId, user.id, date))
            && r[i].completed == !entries[i].completed
            && r[i].completedAt == (if r[i].completed then Some(stamp) else None)
            && r[i].(completed := entries[i].completed, completedAt := entries[i].completedAt) == entries[i]
            && (forall j :: 0 <= j < |r| && j != i ==> r[j] == entries[j])
  {
    var k :| 0 <= k < |entries| && Matches(entries[k], habitId, user.id, date);
    assert FindEntry(entries, habitId, user.id, date) >= 0;
  }

  /** No entry for the key: exactly one completed entry is appended. */
  lemma {:induction false} ToggleNew(entries: seq<HabitEntry>, user: User, habitId: string, date: int,
                                     newId: string, stamp: int)
    requires forall k :: 0 <= k < |entries| ==> !Matches(entries[k], habitId, user.id, date)
    ensures Toggled(entries, Some(user), habitId, date, newId, stamp)
              == entries + [HabitEntry(newId, habitId, user.id, date, true, None, Some(stamp))]
  {
    assert FindEntry(entries, habitId, user.id, date) < 0;
  }

  function Flags(entries: seq<HabitEntry>): seq<bool> {
    Map(entries, (e: HabitEntry) => e.completed)
  }

  /** Toggling the same day twice restores every `completed` flag when the entry existed; when
      it did not, the log keeps one extra, uncompleted entry. */
  lemma {:induction false} ToggleTwice(entries: seq<HabitEntry>, user: User, habitId: string, date: int,
                                       id1: string, stamp1: int, id2: string, stamp2: int)
    ensures var once := Toggled(entries, Some(user), habitId, date, id1, stamp1);
            var twice := Toggled(once, Some(user), habitId, date, id2, stamp2);
            if exists k :: 0 <= k < |entries| && Matches(entries[k], habitId, user.id, date)
            then Flags(twice) == Flags(entries)
            else twice == entries + [HabitEntry(id1, habitId, user.id, date, false, None, None)]
  {
    var once := Toggled(entries, Some(user), habitId, date, id1, stamp1);
    var i := FindEntry(entries, habitId, user.id, date);
    if i >= 0 {
      ToggleExisting(entries, user, habitId, date, id1, stamp1);
      assert Matches(once[i], habitId, user.id, date);
      ToggleExisting(once, user, habitId, date, id2, stamp2);
      assert FindEntry(once, habitId, user.id, date) == i;
    } else {
      ToggleNew(entries, user, habitId, date, id1, stamp1);
      var j := |entries|;
      assert Matches(once[j], habitId, user.id, date);
      forall k | 0 <= k < j ensures !Matches(once[k], habitId, user.id, date) {
        assert once[k] == entries[k];
      }
      ToggleExisting(once, user, habitId, date, id2, stamp2);
      assert FindEntry(once, habitId, user.id, date) == j;
    }
  }

  lemma {:induction false} ReplaceIrrelevant(entries: seq<HabitEntry>, i: nat, x: HabitEntry, userId: string)
    requires i < |entries| && !Counts(entries[i], userId) && !Counts(x, userId)
    ensures UserCompleted(entries[i := x], userId) == UserCompleted(entries, userId)
  {
    var r := entries[i := x];
    assert entries == entries[..i] + [entries[i]] + entries[i + 1..];
    assert r == entries[..i] + [x] + entries[i + 1..];
    UserCompletedConcat(entries[..i] + [entries[i]], entries[i + 1..], userId);
    UserCompletedConcat(entries[..i], [entries[i]], userId);
    UserCompletedConcat(entries[..i] + [x], entries[i + 1..], userId);
    UserCompletedConcat(entries[..i], [x], userId);
    assert UserCompleted([x], userId) == [] by {
      assert [x][1..] == [];
    }
    assert UserCompleted([entries[i]], userId) == [] by {
      assert [entries[i]][1..] == [];
    }
  }

  /** A toggle only ever touches the current user's entries: every other user's statistics
      are unaffected. */
  lemma {:induction false} ToggleLeavesOthersAlone(entries: seq<HabitEntry>, user: User, habitId: string, date: int,
                                                   newId: string, stamp: int, other: string)
    requires other != user.id
    ensures UserCompleted(Toggled(entries, Some(user), habitId, date, newId, stamp), other)
              == UserCompleted(entries, other)
  {
    var i := FindEntry(entries, habitId, user.id, date);
    if i >= 0 {
      ReplaceIrrelevant(entries, i, Flip(entries[i], stamp), other);
    } else {
      var e := HabitEntry(newId, habitId, user.id, date, true, None, Some(stamp));
      IrrelevantEntryIgnored(entries, |entries|, e, other);
      assert entries[..|entries|] + [e] + entries[|entries|..] == entries + [e];
    }
  }

  // ---------------------------------------------------------------------------------------------
  // Statistics (lines 30-33)

  /** `users.map(user => calculateUserStats(entries, habits, user.id))`. */
  function StatsList(users: seq<User>, entries: seq<HabitEntry>, habits: seq<Habit>, now: Clock): (r: seq<UserStats>)
    ensures |r| == |users|
    ensures forall i :: 0 <= i < |r| ==> r[i].userId == users[i].id
  {
    if users == [] then []
    else [StatsOf(entries, habits, users[0].id, now)] + StatsList(users[1..], entries, habits, now)
  }

  /** The record at each position is the statistics of the user at that position. */
  lemma {:induction false} StatsListFacts(users: seq<User>, entries: seq<HabitEntry>, habits: seq<Habit>, now: Clock)
    ensures var r := StatsList(users, entries, habits, now);
            forall i :: 0 <= i < |r| ==> r[i] == StatsOf(entries, habits, users[i].id, now)
  {
    if users != [] {
      StatsListFacts(users[1..], entries, habits, now);
      var r := StatsList(users, entries, habits, now);
      forall i | 1 <= i < |r| ensures r[i] == StatsOf(entries, habits, users[i].id, now) {
        assert r[i] == StatsList(users[1..], entries, habits, now)[i - 1];
        assert users[i] == users[1..][i - 1];
      }
    }
  }

  /** Extending a prefix of `e` by its next element gives the next prefix. */
  lemma AppendStep<T>(a: seq<T>, e: seq<T>, i: int, x: T)
    requires 0 <= i < |e| && a == e[..i] && x == e[i]
    ensures a + [x] == e[..i + 1]
  {
  }

  /** Lines 31-32: `calculateUserStats` called once per user, in `users` order. */
  method ComputeStats(users: seq<User>, entries: seq<HabitEntry>, habits: seq<Habit>, now: Clock)
    returns (stats: seq<UserStats>)
    ensures stats == StatsList(users, entries, habits, now)
  {
    ghost var expected := StatsList(users, entries, habits, now);
    StatsListFacts(users, entries, habits, now);
    stats := [];
    for i := 0 to |users|
      invariant stats == expected[..i]
    {
      var s := CalculateUserStats(entries, habits, users[i].id, now);
      assert s == expected[i];
      AppendStep(stats, expected, i, s);
      stats := stats + [s];
    }
    assert expected[..|users|] == expected;
  }

  // ---------------------------------------------------------------------------------------------
  // The page

  /** The page's state: the three stored collections, the signed-in user and the derived stats. */
  class App {
    var users: seq<User>
    var habits: seq<Habit>
    var entries: seq<HabitEntry>
    var currentUser: Option<User>
    var userStats: seq<UserStats>

    /** A first visit: everything empty, nobody signed in. */
    constructor()
      ensures users == [] && habits == [] && entries == [] && currentUser == None && userStats == []
    {
      users, habits, entries, currentUser, userStats := [], [], [], None, [];
    }

    /** The effect of lines 30-33: recompute every user's statistics. */
    method RefreshStats(now: Clock)
      modifies this
      ensures userStats == StatsList(users, entries, habits, now)
      ensures users == old(users) && habits == old(habits) && entries == old(entries)
      ensures currentUser == old(currentUser)
    {
      var stats := ComputeStats(users, entries, habits, now);
      userStats := stats;
    }

    /** `handleUserCreate`. */
    method HandleUserCreate(user: User)
      modifies this
      ensures users == WithUser(old(users), user)
      ensures currentUser == Some(user)
      ensures habits == old(habits) && entries == old(entries) && userStats == old(userStats)
    {
      var existing := FindUser(users, user.id);
      if existing >= 0 {
        currentUser := Some(user);
      } else {
        users := users + [user];
        currentUser := Some(user);
      }
    }

    /** `handleHabitCreate`: the draft completed with a fresh id and creation time is appended. */
    method HandleHabitCreate(draft: HabitDraft, id: string, createdAt: int)
      modifies this
      ensures habits == old(habits) + [NewHabit(draft, id, createdAt)]
      ensures users == old(users) && entries == old(entries) && currentUser == old(currentUser)
      ensures userStats == old(userStats)
    {
      habits := habits + [NewHabit(draft, id, createdAt)];
    }

    /** `handleToggleHabit`. */
    method HandleToggleHabit(habitId: string, date: int, newId: string, stamp: int)
      modifies this
      ensures entries == Toggled(old(entries), currentUser, habitId, date, newId, stamp)
      ensures users == old(users) && habits == old(habits) && currentUser == old(currentUser)
      ensures userStats == old(userStats)
    {
      if currentUser.None? {
        return;
      }
      var existing := FindEntry(entries, habitId, currentUser.value.id, date);
      if existing >= 0 {
        var e := entries[existing];
        entries := entries[existing := e.(completed := !e.completed,
                                          completedAt := if !e.completed then Some(stamp) else None)];
      } else {
        var entry := HabitEntry(newId, habitId, currentUser.value.id, date, true, None, Some(stamp));
        entries := entries + [entry];
      }
    }
  }
}
