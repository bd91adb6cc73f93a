/** Entities of the habit tracker (src/types/index.ts) with every `Date` abstracted to an integer:
    calendar days are day numbers (days since 1970-01-01, UTC) and instants are milliseconds
    since the epoch. */
module Types {

  /** Milliseconds in one calendar day (1000 * 60 * 60 * 24). */
  const MsPerDay: int := 86400000

  /** Milliseconds into the current UTC day. */
  type MsOfDay = ms: int | 0 <= ms < 86400000

  /** The moment `new Date()` denotes: the current UTC day number and how far into it we are. */
  datatype Clock = Clock(today: int, msIntoDay: MsOfDay)

  /** The instant of UTC midnight of day `d`; `new Date("YYYY-MM-DD")` denotes this instant. */
  function Midnight(d: int): int {
    d * MsPerDay
  }

  /** The instant `new Date()` denotes. */
  function NowInstant(now: Clock): int {
    Midnight(now.today) + now.msIntoDay
  }

  datatype Frequency = Daily | Weekly

  datatype User = User(id: string, name: string, email: string, joinedAt: int)

  datatype Habit = Habit(
    id: string,
    title: string,
    description: string,
    category: string,
    targetFrequency: Frequency,
    points: int,
    createdBy: string,
    createdAt: int,
    isActive: bool)

  /** A habit as the form submits it: everything but `id` and `createdAt`. */
  datatype HabitDraft = HabitDraft(
    title: string,
    description: string,
    category: string,
    targetFrequency: Frequency,
    points: int,
    createdBy: string,
    isActive: bool)

  datatype Option<T> = None | Some(value: T)

  /** `filter`: the elements satisfying `p`, every copy kept, in their original order. */
  function Filter<T(!new)>(s: seq<T>, p: T -> bool): (r: seq<T>)
    ensures |r| <= |s|
  {
    if s == [] then []
    else
      var rest := Filter(s[1..], p);
      if p(s[0]) then [s[0]] + rest else rest
  }

  /** Every element passing `p` keeps all its copies; every other element loses all of them. */
  lemma {:induction false} FilterMultiset<T(!new)>(s: seq<T>, p: T -> bool)
    ensures forall e :: multiset(Filter(s, p))[e] == if p(e) then multiset(s)[e] else 0
    ensures forall e :: e in Filter(s, p) <==> e in s && p(e)
  {
    if s != [] {
      assert s == [s[0]] + s[1..];
      FilterMultiset(s[1..], p);
    }
    var r := Filter(s, p);
    assert forall e :: e in r <==> e in multiset(r);
    assert forall e :: e in s <==> e in multiset(s);
  }

  /** Filtering a concatenation filters each part in place: with the one-element case this fixes
      the order of the result. */
  lemma {:induction false} FilterConcat<T(!new)>(a: seq<T>, b: seq<T>, p: T -> bool)
    ensures Filter(a + b, p) == Filter(a, p) + Filter(b, p)
    ensures |a| == 1 ==> Filter(a, p) == if p(a[0]) then a else []
  {
    if a != [] {
      var head := if p(a[0]) then [a[0]] else [];
      assert (a + b)[0] == a[0] && (a + b)[1..] == a[1..] + b;
      assert Filter(a + b, p) == head + Filter(a[1..] + b, p);
      assert Filter(a, p) == head + Filter(a[1..], p);
      FilterConcat(a[1..], b, p);
      if |a| == 1 {
        assert a[1..] == [];
      }
    } else {
      assert a + b == b;
    }
  }

  /** The indices of `s` whose element satisfies `p`. */
  ghost function Hits<T>(s: seq<T>, p: T -> bool): set<int> {
    set i | 0 <= i < |s| && p(s[i])
  }

  /** The positions that pass in a list with one more element: those of the shorter list, plus
      the new last position when its element passes. */
  lemma HitsSnoc<T>(s: seq<T>, p: T -> bool)
    requires s != []
    ensures Hits(s, p) == Hits(s[..|s| - 1], p) + if p(s[|s| - 1]) then {|s| - 1} else {}
    ensures |s| - 1 !in Hits(s[..|s| - 1], p)
  {
    var init := s[..|s| - 1];
    assert forall i :: 0 <= i < |init| ==> s[i] == init[i];
  }

  /** Filtering a list with one more element adds one element exactly when it passes. */
  lemma FilterSnoc<T(!new)>(s: seq<T>, p: T -> bool)
    requires s != []
    ensures |Filter(s, p)| == |Filter(s[..|s| - 1], p)| + if p(s[|s| - 1]) then 1 else 0
  {
    var init := s[..|s| - 1];
    var x := s[|s| - 1];
    assert s == init + [x];
    FilterConcat(init, [x], p);
  }

  /** The length of a filtered list is the number of positions that pass. */
  lemma {:induction false} FilterCount<T(!new)>(s: seq<T>, p: T -> bool)
    ensures |Filter(s, p)| == |Hits(s, p)|
    decreases |s|
  {
    if s != [] {
      FilterCount(s[..|s| - 1], p);
      FilterSnoc(s, p);
      HitsSnoc(s, p);
    }
  }

  /** Filtering twice is filtering once by both conditions. */
  lemma {:induction false} FilterFilter<T(!new)>(s: seq<T>, p: T -> bool, q: T -> bool, pq: T -> bool)
    requires forall x :: pq(x) == (p(x) && q(x))
    ensures Filter(Filter(s, p), q) == Filter(s, pq)
  {
    if s != [] {
      FilterFilter(s[1..], p, q, pq);
      if p(s[0]) {
        assert Filter(s, p) == [s[0]] + Filter(s[1..], p);
        assert Filter(s, p)[1..] == Filter(s[1..], p);
      }
    }
  }

  /** `findIndex`: the position of the first element satisfying `p`, or -1 when none does. */
  function FindFirst<T>(s: seq<T>, p: T -> bool): (i: int)
    ensures -1 <= i < |s|
    ensures i >= 0 ==> p(s[i]) && forall j :: 0 <= j < i ==> !p(s[j])
    ensures i < 0 ==> forall j :: 0 <= j < |s| ==> !p(s[j])
  {
    if s == [] then -1
    else if p(s[0]) then 0
    else
      var i := FindFirst(s[1..], p);
      if i < 0 then -1 else i + 1
  }

  /** `date` is the entry's YYYY-MM-DD day as a day number; `completedAt` an optional instant. */
  datatype HabitEntry = HabitEntry(
    id: string,
    habitId: string,
    userId: string,
    date: int,
    completed: bool,
    notes: Option<string>,
    completedAt: Option<int>)

  /** Derived per-user statistics; `lastActive` is an instant. */
  datatype UserStats = UserStats(
    userId: string,
    totalPoints: int,
    streak: nat,
    longestStreak: nat,
    habitsCompleted: nat,
    lastActive: int)

  datatype LeaderboardEntry = LeaderboardEntry(user: User, stats: UserStats, rank: int)

  /** The bundle exchanged with a group (src/utils/dataManager.ts); `lastUpdated` is an ISO timestamp. */
  datatype AppData = AppData(users: seq<User>, habits: seq<Habit>, entries: seq<HabitEntry>, lastUpdated: string)
}
