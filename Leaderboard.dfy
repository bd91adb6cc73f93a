/** The leaderboard (src/components/Leaderboard.tsx): every user paired with their statistics,
    ranked by points and then streak, and the two top-3 side views. */
module Leaderboard {
  import opened Types
  import opened Sorting

  // ---------------------------------------------------------------------------------------------
  // The ranking (lines 13-31)

  /** The statistics shown for a user without any: all zero, last active now. */
  function ZeroStats(userId: string, now: Clock): UserStats {
    UserStats(userId, 0, 0, 0, 0, NowInstant(now))
  }

  /** `userStats.find(s => s.userId === user.id) || zero stats`. */
  function StatsFor(userStats: seq<UserStats>, userId: string, now: Clock): (s: UserStats)
    ensures s.userId == userId
    ensures (forall i :: 0 <= i < |userStats| ==> userStats[i].userId != userId) ==> s == ZeroStats(userId, now)
    ensures (exists i :: 0 <= i < |userStats| && userStats[i].userId == userId) ==>
              exists i :: 0 <= i < |userStats| && userStats[i] == s
                          && forall j :: 0 <= j < i ==> userStats[j].userId != userId
  {
    if userStats == [] then ZeroStats(userId, now)
    else if userStats[0].userId == userId then userStats[0]
    else
      var s := StatsFor(userStats[1..], userId, now);
      assert forall i :: 1 <= i < |userStats| ==> userStats[i] == userStats[1..][i - 1];
      s
  }

  /** The unranked entries of lines 13-24, one per user, in `users` order. */
  function Seed(users: seq<User>, userStats: seq<UserStats>, now: Clock): (r: seq<LeaderboardEntry>)
    ensures |r| == |users|
    ensures forall i :: 0 <= i < |r| ==> r[i] == LeaderboardEntry(users[i], StatsFor(userStats, users[i].id, now), 0)
  {
    seq(|users|, i requires 0 <= i < |users| => LeaderboardEntry(users[i], StatsFor(userStats, users[i].id, now), 0))
  }

  /** The comparator of lines 25-30: points descending, then streak descending. */
  function RankKey(e: LeaderboardEntry): SortKey {
    SortKey(e.stats.totalPoints, e.stats.streak)
  }

  /** Line 31: each entry's rank is its 1-based position. */
  function Ranked(s: seq<LeaderboardEntry>): (r: seq<LeaderboardEntry>)
    ensures |r| == |s|
    ensures forall i :: 0 <= i < |s| ==> r[i] == s[i].(rank := i + 1)
  {
    seq(|s|, i requires 0 <= i < |s| => s[i].(rank := i + 1))
  }

  function UserOf(e: LeaderboardEntry): User {
    e.user
  }

  /** `leaderboardEntries`: ranks 1 to N by position, ordered by points and then streak. */
  function BuildLeaderboard(users: seq<User>, userStats: seq<UserStats>, now: Clock): (board: seq<LeaderboardEntry>)
    ensures |board| == |users|
    ensures forall i :: 0 <= i < |board| ==> board[i].rank == i + 1
    ensures forall i, j :: 0 <= i < j < |board| ==> !Above(RankKey(board[j]), RankKey(board[i]))
  {
    var sorted := SortDesc(Seed(users, userStats, now), RankKey);
    var board := Ranked(sorted);
    assert forall i :: 0 <= i < |board| ==> RankKey(board[i]) == RankKey(sorted[i]);
    board
  }

  /** The board with its ranks cleared is the stable sort of the seed. */
  lemma {:induction false} BoardUnranked(users: seq<User>, userStats: seq<UserStats>, now: Clock)
    ensures var board := BuildLeaderboard(users, userStats, now);
            Map(board, (e: LeaderboardEntry) => e.(rank := 0)) == SortDesc(Seed(users, userStats, now), RankKey)
  {
    var seed := Seed(users, userStats, now);
    var sorted := SortDesc(seed, RankKey);
    forall i | 0 <= i < |sorted| ensures sorted[i].rank == 0 {
      assert sorted[i] in multiset(seed);
    }
  }

  /** Every user appears on the board exactly as often as in `users`. */
  lemma {:induction false} BoardIsPermutationOfUsers(users: seq<User>, userStats: seq<UserStats>, now: Clock)
    ensures multiset(Map(BuildLeaderboard(users, userStats, now), UserOf)) == multiset(users)
  {
    var seed := Seed(users, userStats, now);
    var sorted := SortDesc(seed, RankKey);
    MapSortDesc(seed, RankKey, UserOf);
    assert Map(BuildLeaderboard(users, userStats, now), UserOf) == Map(sorted, UserOf);
    assert Map(seed, UserOf) == users;
  }

  /** Each user is shown with the first statistics record carrying their id, or zero statistics. */
  lemma {:induction false} BoardStats(users: seq<User>, userStats: seq<UserStats>, now: Clock)
    ensures var board := BuildLeaderboard(users, userStats, now);
            forall i :: 0 <= i < |board| ==> board[i].stats == StatsFor(userStats, board[i].user.id, now)
  {
    var seed := Seed(users, userStats, now);
    var sorted := SortDesc(seed, RankKey);
    forall i | 0 <= i < |sorted| ensures sorted[i].stats == StatsFor(userStats, sorted[i].user.id, now) {
      assert sorted[i] in multiset(seed);
    }
  }

  /** Stability: the entries tied on points and streak appear in `users` order. */
  lemma {:induction false} BoardTiesKeepUserOrder(users: seq<User>, userStats: seq<UserStats>, now: Clock, k: SortKey)
    ensures var board := BuildLeaderboard(users, userStats, now);
            WithKey(Map(board, (e: LeaderboardEntry) => e.(rank := 0)), RankKey, k)
              == WithKey(Seed(users, userStats, now), RankKey, k)
  {
    BoardUnranked(users, userStats, now);
    SortDescStable(Seed(users, userStats, now), RankKey, k);
  }

  /** The rank-1 entry has the most points, and among those the longest current streak. */
  lemma {:induction false} FirstPlaceIsMaximal(users: seq<User>, userStats: seq<UserStats>, now: Clock)
    ensures var board := BuildLeaderboard(users, userStats, now);
            forall i :: 0 <= i < |board| ==>
              board[i].stats.totalPoints <= board[0].stats.totalPoints
              && (board[i].stats.totalPoints == board[0].stats.totalPoints ==> board[i].stats.streak <= board[0].stats.streak)
  {
    var board := BuildLeaderboard(users, userStats, now);
    forall i | 0 < i < |board|
      ensures board[i].stats.totalPoints <= board[0].stats.totalPoints
      ensures board[i].stats.totalPoints == board[0].stats.totalPoints ==> board[i].stats.streak <= board[0].stats.streak
    {
      assert !Above(RankKey(board[i]), RankKey(board[0]));
    }
  }

  /** Two users with 50 points each rank by streak: with the 3-day streak listed first in `users`,
      the 5-day streak still ranks first and the 3-day one second. */
  lemma {:induction false} StreakBreaksPointsTie(a: User, b: User, userStats: seq<UserStats>, now: Clock)
    requires StatsFor(userStats, a.id, now).totalPoints == 50 && StatsFor(userStats, a.id, now).streak == 3
    requires StatsFor(userStats, b.id, now).totalPoints == 50 && StatsFor(userStats, b.id, now).streak == 5
    ensures var board := BuildLeaderboard([a, b], userStats, now);
            board[0].user == b && board[0].rank == 1 && board[1].user == a && board[1].rank == 2
  {
    var seed := Seed([a, b], userStats, now);
    assert seed == [seed[0], seed[1]];
    assert seed[1..] == [seed[1]];
    assert SortDesc([seed[1]], RankKey) == [seed[1]];
    assert SortDesc(seed, RankKey) == Insert(seed[0], [seed[1]], RankKey);
    assert Insert(seed[0], [seed[1]], RankKey) == [seed[1], seed[0]];
  }

  // ---------------------------------------------------------------------------------------------
  // The side views (lines 115-139)

  /** The comparator of line 116. */
  function LongestKey(e: LeaderboardEntry): SortKey {
    SortKey(e.stats.longestStreak, 0)
  }

  /** The comparator of line 138. */
  function CompletedKey(e: LeaderboardEntry): SortKey {
    SortKey(e.stats.habitsCompleted, 0)
  }

  /** `.slice(0, 3)`. */
  function Take3<T>(s: seq<T>): (r: seq<T>)
    ensures |r| == if |s| < 3 then |s| else 3
    ensures r == s[..|r|]
  {
    s[..if |s| < 3 then |s| else 3]
  }

  /** The board as the two side views leave it: line 116 sorts it in place by longest streak and
      line 138 then sorts that order by completions. */
  class BoardView {
    var entries: seq<LeaderboardEntry>

    constructor(board: seq<LeaderboardEntry>)
      ensures entries == board
    {
      entries := board;
    }

    /** The Longest Streaks view: sorts the shared array and shows its first three entries. */
    method LongestStreaks() returns (top: seq<LeaderboardEntry>)
      modifies this
      ensures entries == SortDesc(old(entries), LongestKey)
      ensures top == Take3(entries)
    {
      entries := SortDesc(entries, LongestKey);
      top := Take3(entries);
    }

    /** The Most Completed view: sorts the shared array again and shows its first three entries. */
    method MostCompleted() returns (top: seq<LeaderboardEntry>)
      modifies this
      ensures entries == SortDesc(old(entries), CompletedKey)
      ensures top == Take3(entries)
    {
      entries := SortDesc(entries, CompletedKey);
      top := Take3(entries);
    }

    /** Rendering both views, in the order the page does. */
    method Render() returns (longest: seq<LeaderboardEntry>, completed: seq<LeaderboardEntry>)
      modifies this
      ensures entries == SortDesc(SortDesc(old(entries), LongestKey), CompletedKey)
      ensures longest == LongestStreakView(old(entries))
      ensures completed == MostCompletedView(old(entries))
    {
      longest := LongestStreaks();
      completed := MostCompleted();
    }
  }

  /** The first three entries of a descending list are descending, taken from it without
      repetition, and no entry left out outranks one of them. */
  lemma TopOfSorted(s: seq<LeaderboardEntry>, key: LeaderboardEntry -> SortKey)
    requires Descending(s, key)
    ensures var r := Take3(s);
            && (forall i, j :: 0 <= i < j < |r| ==> !Above(key(r[j]), key(r[i])))
            && multiset(r) <= multiset(s)
            && (forall e, x :: e in multiset(s) - multiset(r) && x in r ==> !Above(key(e), key(x)))
  {
    var r := Take3(s);
    var rest := s[|r|..];
    assert s == r + rest;
    assert multiset(s) - multiset(r) == multiset(rest);
    forall e, x | e in multiset(rest) && x in r ensures !Above(key(e), key(x)) {
      LeftOutBelow(s, key, |r|, e, x);
    }
  }

  /** In a descending list, nothing after position `k` outranks anything before it. */
  lemma LeftOutBelow(s: seq<LeaderboardEntry>, key: LeaderboardEntry -> SortKey, k: int, e: LeaderboardEntry, x: LeaderboardEntry)
    requires Descending(s, key) && 0 <= k <= |s|
    requires e in multiset(s[k..]) && x in s[..k]
    ensures !Above(key(e), key(x))
  {
    assert e in s[k..];
    var j :| k <= j < |s| && s[j] == e;
    var i :| 0 <= i < k && s[i] == x;
  }

  /** What the Longest Streaks view shows for a board: the three entries (or all, if fewer) with
      the longest best streaks, longest first. */
  function LongestStreakView(board: seq<LeaderboardEntry>): (r: seq<LeaderboardEntry>)
    ensures |r| == if |board| < 3 then |board| else 3
    ensures forall i, j :: 0 <= i < j < |r| ==> r[j].stats.longestStreak <= r[i].stats.longestStreak
    ensures multiset(r) <= multiset(board)
    ensures forall e, x :: e in multiset(board) - multiset(r) && x in r ==>
              e.stats.longestStreak <= x.stats.longestStreak
  {
    var sorted := SortDesc(board, LongestKey);
    TopOfSorted(sorted, LongestKey);
    Take3(sorted)
  }

  /** What the Most Completed view shows for a board, sorted after the Longest Streaks view: the
      three entries (or all, if fewer) with the most completions, most first. */
  function MostCompletedView(board: seq<LeaderboardEntry>): (r: seq<LeaderboardEntry>)
    ensures |r| == if |board| < 3 then |board| else 3
    ensures forall i, j :: 0 <= i < j < |r| ==> r[j].stats.habitsCompleted <= r[i].stats.habitsCompleted
    ensures multiset(r) <= multiset(board)
    ensures forall e, x :: e in multiset(board) - multiset(r) && x in r ==>
              e.stats.habitsCompleted <= x.stats.habitsCompleted
  {
    var first := SortDesc(board, LongestKey);
    var sorted := SortDesc(first, CompletedKey);
    TopOfSorted(sorted, CompletedKey);
    Take3(sorted)
  }

  /** Rank order, as a descending tag: a smaller rank outranks a larger one. */
  function RankTag(e: LeaderboardEntry): SortKey {
    SortKey(-e.rank, 0)
  }

  /** Longest streak first, then rank order. */
  function LongestThenRankTag(e: LeaderboardEntry): SortKey {
    SortKey(e.stats.longestStreak, -e.rank)
  }

  /** Because line 116 sorted the array in place, entries tied on completions appear in the Most
      Completed view by longest streak, and entries tied on that too by rank. */
  lemma {:induction false} MostCompletedTieBreak(board: seq<LeaderboardEntry>)
    requires forall i :: 0 <= i < |board| ==> board[i].rank == i + 1
    ensures var r := MostCompletedView(board);
            forall i, j :: 0 <= i < j < |r| && r[i].stats.habitsCompleted == r[j].stats.habitsCompleted ==>
              r[i].stats.longestStreak > r[j].stats.longestStreak
              || (r[i].stats.longestStreak == r[j].stats.longestStreak && r[i].rank < r[j].rank)
  {
    var first := SortDesc(board, LongestKey);
    assert forall i, j :: 0 <= i < j < |board| ==> Above(RankTag(board[i]), RankTag(board[j]));
    SortDescKeepsTagOrder(board, LongestKey, RankTag);
    forall i, j | 0 <= i < j < |first| ensures Above(LongestThenRankTag(first[i]), LongestThenRankTag(first[j])) {
      assert !Above(LongestKey(first[j]), LongestKey(first[i]));
      if LongestKey(first[i]) == LongestKey(first[j]) {
        assert Above(RankTag(first[i]), RankTag(first[j]));
      }
    }
    SortDescKeepsTagOrder(first, CompletedKey, LongestThenRankTag);
    var sorted := SortDesc(first, CompletedKey);
    var r := MostCompletedView(board);
    assert r == sorted[..|r|];
    forall i, j | 0 <= i < j < |r| && r[i].stats.habitsCompleted == r[j].stats.habitsCompleted
      ensures Above(LongestThenRankTag(r[i]), LongestThenRankTag(r[j]))
    {
      assert r[i] == sorted[i] && r[j] == sorted[j];
      assert CompletedKey(sorted[i]) == CompletedKey(sorted[j]);
    }
  }
}
