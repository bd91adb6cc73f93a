/** Calendar helpers (src/utils/dateUtils.ts) over day numbers: day 0 is 1970-01-01 (UTC). */
module DateUtils {
  import opened Types

  /** The largest day number a JavaScript `Date` can hold: time values lie within 8.64e15 ms
      of the epoch. */
  const MaxDay: int := 100000000

  predicate ValidDay(d: int) {
    -MaxDay <= d <= MaxDay
  }

  predicate ValidInstant(t: int) {
    -MaxDay * MsPerDay <= t <= MaxDay * MsPerDay
  }

  /** The UTC day an instant falls on (`/` is floor division for a positive divisor). */
  function DayOf(t: int): (d: int)
    ensures Midnight(d) <= t < Midnight(d) + MsPerDay
  {
    t / MsPerDay
  }

  lemma DayOfNow(now: Clock)
    ensures DayOf(NowInstant(now)) == now.today
  {
  }

  // ---------------------------------------------------------------------------------------------
  // The proleptic Gregorian calendar

  datatype CivilDate = CivilDate(year: int, month: int, day: int)

  /** The Gregorian leap rule: every fourth year, except centuries not divisible by 400. */
  predicate IsLeap(y: int) {
    y % 4 == 0 && (y % 100 != 0 || y % 400 == 0)
  }

  function DaysInMonth(year: int, month: int): int {
    if month == 2 then (if IsLeap(year) then 29 else 28)
    else if month == 4 || month == 6 || month == 9 || month == 11 then 30
    else 31
  }

  /** A date that exists in the proleptic Gregorian calendar. */
  predicate ValidCivil(c: CivilDate) {
    1 <= c.month <= 12 && 1 <= c.day <= DaysInMonth(c.year, c.month)
  }

  /** Shifting by a multiple of 400 keeps the remainders by 4, 100 and 400. */
  lemma ShiftRemainders(y: int, k: int)
    ensures (y + 400 * k) % 4 == y % 4
    ensures (y + 400 * k) % 100 == y % 100
    ensures (y + 400 * k) % 400 == y % 400
  {
    ShiftRemainder4(y, k);
    ShiftRemainder100(y, k);
    ShiftRemainder400(y, k);
  }

  lemma ShiftRemainder4(y: int, k: int)
    ensures (y + 400 * k) % 4 == y % 4
  {
    assert y + 400 * k == 4 * (y / 4 + 100 * k) + y % 4;
  }

  lemma ShiftRemainder100(y: int, k: int)
    ensures (y + 400 * k) % 100 == y % 100
  {
    assert y + 400 * k == 100 * (y / 100 + 4 * k) + y % 100;
  }

  lemma ShiftRemainder400(y: int, k: int)
    ensures (y + 400 * k) % 400 == y % 400
  {
    assert y + 400 * k == 400 * (y / 400 + k) + y % 400;
  }

  /** The leap rule repeats every 400 years. */
  lemma LeapEvery400(y: int, era: int)
    ensures IsLeap(y + era * 400) == IsLeap(y)
  {
    ShiftRemainders(y, era);
  }

  /** The day number of a calendar date, counting March-based years within 400-year eras. */
  function DaysFromCivil(c: CivilDate): int {
    var y := if c.month <= 2 then c.year - 1 else c.year;
    var era := y / 400;
    var yoe := y - era * 400;
    var mp := if c.month > 2 then c.month - 3 else c.month + 9;
    var doy := (153 * mp + 2) / 5 + c.day - 1;
    var doe := yoe * 365 + yoe / 4 - yoe / 100 + doy;
    era * 146097 + doe - 719468
  }

  /** Splits a day of a 400-year era (counted from 1 March) into the year of the era and the day
      of that March-based year: centuries of 36524 days (the last one 36525), four-year blocks of
      1461 days and years of 365 days (the last of a block taking the leap day). */
  function YearOfEra(doe: int): (r: (int, int))
    requires 0 <= doe < 146097
    ensures 0 <= r.0 < 400 && 0 <= r.1 <= 365
    ensures r.0 * 365 + r.0 / 4 - r.0 / 100 + r.1 == doe
    ensures r.1 == 365 ==> IsLeap(r.0 + 1)
  {
    var cen := if doe / 36524 < 3 then doe / 36524 else 3;
    var rc := doe - 36524 * cen;
    var q := rc / 1461;
    var rq := rc - 1461 * q;
    var y4 := if rq / 365 < 3 then rq / 365 else 3;
    EraSplitBounds(doe, cen, rc, q, rq, y4);
    EraSplitYears(cen, q, y4, rq - 365 * y4);
    (100 * cen + 4 * q + y4, rq - 365 * y4)
  }

  /** The ranges of the century, four-year block and year that `YearOfEra` picks, and where the
      one day past 365 can occur: at the end of a block, and of the last block of a century only
      in the fourth century. */
  lemma EraSplitBounds(doe: int, cen: int, rc: int, q: int, rq: int, y4: int)
    requires 0 <= doe < 146097
    requires cen == (if doe / 36524 < 3 then doe / 36524 else 3) && rc == doe - 36524 * cen
    requires q == rc / 1461 && rq == rc - 1461 * q
    requires y4 == (if rq / 365 < 3 then rq / 365 else 3)
    ensures 0 <= cen <= 3 && 0 <= q <= 24 && 0 <= y4 <= 3
    ensures 0 <= rq - 365 * y4 <= 365 && 36524 * cen + 1461 * q + rq == doe
    ensures rq - 365 * y4 == 365 ==> y4 == 3 && (q == 24 ==> cen == 3)
  {
    assert 0 <= rc <= 36524;
    assert 0 <= q <= 24 && 0 <= rq <= 1460;
  }

  /** The year of the era a century, block and year make, and the leap day closing a block. */
  lemma EraSplitYears(cen: int, q: int, y4: int, doy: int)
    requires 0 <= cen <= 3 && 0 <= q <= 24 && 0 <= y4 <= 3
    requires doy == 365 ==> y4 == 3 && (q == 24 ==> cen == 3)
    ensures var yoe := 100 * cen + 4 * q + y4;
            0 <= yoe < 400 && yoe / 4 == 25 * cen + q && yoe / 100 == cen
    ensures doy == 365 ==> IsLeap(100 * cen + 4 * q + y4 + 1)
  {
    var yoe := 100 * cen + 4 * q + y4;
    assert yoe == 4 * (25 * cen + q) + y4;
    assert yoe == 100 * cen + (4 * q + y4);
    if doy == 365 {
      assert yoe + 1 == 4 * (25 * cen + q + 1) + 0;
      if q == 24 {
        assert yoe + 1 == 400;
      } else {
        assert yoe + 1 == 100 * cen + (4 * q + 4);
      }
    }
  }

  /** The lengths of March to January, the months of a March-based year before February. */
  const MarchMonthLengths: seq<int> := [31, 30, 31, 30, 31, 31, 30, 31, 30, 31, 31]

  /** Splits a day of a March-based year into the month counted from March (0 to 11) and the day
      of that month. */
  function MonthOfYear(doy: int): (r: (int, int))
    requires 0 <= doy <= 365
    ensures 0 <= r.0 <= 11 && 1 <= r.1 <= 31
    ensures (153 * r.0 + 2) / 5 + r.1 - 1 == doy
    ensures r.0 < 11 ==> r.1 <= MarchMonthLengths[r.0]
    ensures r.0 == 11 ==> r.1 == doy - 336
  {
    var mp := (5 * doy + 2) / 153;
    assert 153 * mp <= 5 * doy + 2 < 153 * mp + 153;
    (mp, doy - (153 * mp + 2) / 5 + 1)
  }

  /** Reassembling a date from its era, year of era, March-based month and day of month. */
  lemma {:induction false} DaysFromCivilParts(c: CivilDate, era: int, yoe: int, mp: int)
    requires 0 <= yoe < 400 && 0 <= mp <= 11
    requires c.month == (if mp < 10 then mp + 3 else mp - 9)
    requires c.year == yoe + era * 400 + (if c.month <= 2 then 1 else 0)
    ensures DaysFromCivil(c) == era * 146097 + yoe * 365 + yoe / 4 - yoe / 100 + (153 * mp + 2) / 5 + c.day - 1 - 719468
  {
    var y := yoe + era * 400;
    assert y / 400 == era by {
      assert era * 400 <= y < era * 400 + 400;
    }
  }

  /** The calendar date of day `doe` of era `era`; day 0 of era 0 is 0000-03-01. */
  function CivilOfEraDay(era: int, doe: int): CivilDate
    requires 0 <= doe < 146097
  {
    var yd := YearOfEra(doe);
    var md := MonthOfYear(yd.1);
    var month := if md.0 < 10 then md.0 + 3 else md.0 - 9;
    CivilDate(yd.0 + era * 400 + (if month <= 2 then 1 else 0), month, md.1)
  }

  /** Day `doe` of era `era` is a valid date with that day number. */
  lemma CivilOfEraDayFacts(era: int, doe: int)
    requires 0 <= doe < 146097
    ensures ValidCivil(CivilOfEraDay(era, doe))
    ensures DaysFromCivil(CivilOfEraDay(era, doe)) == era * 146097 + doe - 719468
  {
    var yd := YearOfEra(doe);
    var md := MonthOfYear(yd.1);
    DaysFromCivilParts(CivilOfEraDay(era, doe), era, yd.0, md.0);
    LeapEvery400(yd.0 + 1, era);
  }

  /** The calendar date of a day number; `DaysFromCivil` is its inverse. */
  function CivilFromDays(z: int): (c: CivilDate)
    ensures ValidCivil(c)
    ensures DaysFromCivil(c) == z
  {
    var shifted := z + 719468;  // day 0 becomes 0000-03-01
    var era := shifted / 146097;
    CivilOfEraDayFacts(era, shifted - era * 146097);
    CivilOfEraDay(era, shifted - era * 146097)
  }

  /** Counting days by eras: day `doe` of era `era` is what `CivilFromDays` finds. */
  lemma CivilFromEraDay(era: int, doe: int, z: int)
    requires 0 <= doe < 146097 && z == era * 146097 + doe - 719468
    ensures CivilFromDays(z) == CivilOfEraDay(era, doe)
  {
    assert (z + 719468) / 146097 == era;
  }

  /** The day of a 400-year era on which its March-based year `yoe` starts. */
  function EraYearStart(yoe: int): int {
    yoe * 365 + yoe / 4 - yoe / 100
  }

  /** Within an era, a year is 366 days long when the February it ends with is a leap one. */
  lemma EraYearLength(yoe: int)
    requires 0 <= yoe < 399
    ensures EraYearStart(yoe + 1) == EraYearStart(yoe) + (if IsLeap(yoe + 1) then 366 else 365)
  {
    QuotientStep4(yoe);
    QuotientStep100(yoe);
    assert (yoe + 1) % 400 != 0;
  }

  /** Counting up by one raises the quotient by 4 exactly when the count reaches a multiple of 4. */
  lemma QuotientStep4(n: int)
    ensures (n + 1) / 4 == n / 4 + (if (n + 1) % 4 == 0 then 1 else 0)
  {
    if n % 4 == 3 {
      assert n + 1 == 4 * (n / 4 + 1) + 0;
    } else {
      assert n + 1 == 4 * (n / 4) + (n % 4 + 1);
    }
  }

  lemma QuotientStep100(n: int)
    ensures (n + 1) / 100 == n / 100 + (if (n + 1) % 100 == 0 then 1 else 0)
  {
    if n % 100 == 99 {
      assert n + 1 == 100 * (n / 100 + 1) + 0;
    } else {
      assert n + 1 == 100 * (n / 100) + (n % 100 + 1);
    }
  }

  lemma EraYearStartGrows(a: int, b: int)
    requires 0 <= a < b < 400
    ensures EraYearStart(a + 1) <= EraYearStart(b)
  {
  }

  /** A day of a year within its length is split back into that year and day. */
  lemma YearOfEraUnique(yoe: int, doy: int)
    requires 0 <= yoe < 400 && 0 <= doy <= 365 && (doy == 365 ==> IsLeap(yoe + 1))
    ensures 0 <= EraYearStart(yoe) + doy < 146097
    ensures YearOfEra(EraYearStart(yoe) + doy) == (yoe, doy)
  {
    var doe := EraYearStart(yoe) + doy;
    var r := YearOfEra(doe);
    if r.0 < yoe {
      EraYearLength(r.0);
      EraYearStartGrows(r.0, yoe);
    } else if yoe < r.0 {
      EraYearLength(yoe);
      EraYearStartGrows(yoe, r.0);
    }
  }

  /** Each month of a March-based year starts where the one before it ends. */
  lemma MonthStartStep(m: int)
    requires 0 <= m < 11
    ensures (153 * (m + 1) + 2) / 5 == (153 * m + 2) / 5 + MarchMonthLengths[m]
  {
  }

  /** A day within its month's length is split back into that month and day. */
  lemma MonthOfYearUnique(mp: int, day: int)
    requires 0 <= mp <= 11 && 1 <= day
    requires mp < 11 ==> day <= MarchMonthLengths[mp]
    requires mp == 11 ==> day <= 29
    ensures 0 <= (153 * mp + 2) / 5 + day - 1 <= 365
    ensures MonthOfYear((153 * mp + 2) / 5 + day - 1) == (mp, day)
  {
    var doy := (153 * mp + 2) / 5 + day - 1;
    assert 153 * mp <= 5 * doy + 2 < 153 * mp + 153 by {
      var s := (153 * mp + 2) / 5;
      assert 5 * s <= 153 * mp + 2 < 5 * s + 5;
      assert 5 * (s + day) < 153 * mp + 156 by {
        if mp < 11 {
          MonthStartStep(mp);
        }
      }
    }
    MonthOfYearAt(doy, mp);
  }

  /** The month a day of the year falls in is the one whose 153-day-per-5-months slot holds it. */
  lemma MonthOfYearAt(doy: int, mp: int)
    requires 0 <= doy <= 365 && 153 * mp <= 5 * doy + 2 < 153 * mp + 153
    ensures MonthOfYear(doy) == (mp, doy - (153 * mp + 2) / 5 + 1)
  {
    assert (5 * doy + 2) / 153 == mp;
  }

  /** The months other than February have the lengths listed from March. */
  lemma MonthLengthsAgree(year: int, month: int)
    requires 1 <= month <= 12 && month != 2
    ensures MarchMonthLengths[if month > 2 then month - 3 else month + 9] == DaysInMonth(year, month)
  {
  }

  /** A year of an era, a March-based month and a day within that month's length make up
      the date they name. */
  lemma CivilOfEraParts(c: CivilDate, era: int, yoe: int, mp: int, doe: int)
    requires 0 <= yoe < 400 && 0 <= mp <= 11 && 1 <= c.day
    requires mp < 11 ==> c.day <= MarchMonthLengths[mp]
    requires mp == 11 ==> c.day <= 28 || (c.day == 29 && IsLeap(yoe + 1))
    requires c.month == (if mp < 10 then mp + 3 else mp - 9)
    requires c.year == yoe + era * 400 + (if c.month <= 2 then 1 else 0)
    requires doe == EraYearStart(yoe) + (153 * mp + 2) / 5 + c.day - 1
    ensures 0 <= doe < 146097
    ensures CivilOfEraDay(era, doe) == c
  {
    EraDayParts(yoe, mp, c.day, doe);
  }

  /** The year and the month-and-day that day `doe` of an era splits into. */
  lemma EraDayParts(yoe: int, mp: int, day: int, doe: int)
    requires 0 <= yoe < 400 && 0 <= mp <= 11 && 1 <= day
    requires mp < 11 ==> day <= MarchMonthLengths[mp]
    requires mp == 11 ==> day <= 28 || (day == 29 && IsLeap(yoe + 1))
    requires doe == EraYearStart(yoe) + (153 * mp + 2) / 5 + day - 1
    ensures 0 <= doe < 146097
    ensures YearOfEra(doe).0 == yoe && MonthOfYear(YearOfEra(doe).1) == (mp, day)
  {
    MonthOfYearUnique(mp, day);
    var doy := (153 * mp + 2) / 5 + day - 1;
    YearOfEraUnique(yoe, doy);
  }

  /** Where a valid date lies: its era and its day within that era. */
  lemma EraDayOf(c: CivilDate) returns (era: int, doe: int)
    requires ValidCivil(c)
    ensures 0 <= doe < 146097
    ensures DaysFromCivil(c) == era * 146097 + doe - 719468
    ensures CivilOfEraDay(era, doe) == c
  {
    var y := if c.month <= 2 then c.year - 1 else c.year;
    era := y / 400;
    var yoe := y - era * 400;
    var mp := if c.month > 2 then c.month - 3 else c.month + 9;
    if c.month != 2 {
      MonthLengthsAgree(c.year, c.month);
    } else {
      LeapEvery400(yoe + 1, era);
    }
    doe := EraYearStart(yoe) + (153 * mp + 2) / 5 + c.day - 1;
    CivilOfEraParts(c, era, yoe, mp, doe);
    DaysFromCivilParts(c, era, yoe, mp);
  }

  /** Every valid date is the calendar date of its day number: `DaysFromCivil` is one-to-one on
      valid dates and `CivilFromDays` inverts it. */
  lemma CivilRoundTrip(c: CivilDate, z: int)
    requires ValidCivil(c) && DaysFromCivil(c) == z
    ensures CivilFromDays(z) == c
  {
    var era, doe := EraDayOf(c);
    CivilFromEraDay(era, doe, z);
  }

  lemma EpochIsFirstOfJanuary1970()
    ensures CivilFromDays(0) == CivilDate(1970, 1, 1)
  {
    assert 0 + 719468 == 4 * 146097 + 135080;
    assert YearOfEra(135080) == (369, 306);
    assert MonthOfYear(306) == (10, 1);
  }

  lemma LeapDayOf2000()
    ensures CivilFromDays(11016) == CivilDate(2000, 2, 29)
    ensures CivilFromDays(11017) == CivilDate(2000, 3, 1)
  {
    assert 11016 + 719468 == 4 * 146097 + 146096;
    assert YearOfEra(146096) == (399, 365);
    assert MonthOfYear(365) == (11, 29);
    assert 11017 + 719468 == 5 * 146097;
    assert YearOfEra(0) == (0, 0);
    assert MonthOfYear(0) == (0, 1);
  }

  lemma {:induction false} YearsOfValidDays(d: int)
    requires ValidDay(d)
    ensures -1000000 < CivilFromDays(d).year < 1000000
  {
  }

  // ---------------------------------------------------------------------------------------------
  // Decimal fields

  function Pow10(n: nat): nat {
    if n == 0 then 1 else 10 * Pow10(n - 1)
  }

  /** The decimal value of a string of digits, most significant first. */
  function DigitsValue(s: string): int {
    if s == [] then 0 else 10 * DigitsValue(s[..|s| - 1]) + (s[|s| - 1] as int - '0' as int)
  }

  /** `n` written with exactly `width` decimal digits, zero-padded on the left. */
  function Digits(n: nat, width: nat): (s: string)
    requires n < Pow10(width)
    ensures |s| == width
    ensures forall i :: 0 <= i < |s| ==> '0' <= s[i] <= '9'
    ensures DigitsValue(s) == n
  {
    if width == 0 then ""
    else
      var s := Digits(n / 10, width - 1) + [('0' as int + n % 10) as char];
      assert s[..|s| - 1] == Digits(n / 10, width - 1);
      s
  }

  /** The year field of `toISOString`: four digits for years 0 to 9999, otherwise a sign and six
      digits. */
  function YearField(y: int): (s: string)
    requires -1000000 < y < 1000000
  {
    if 0 <= y <= 9999 then Digits(y, 4)
    else if y < 0 then "-" + Digits(-y, 6)
    else "+" + Digits(y, 6)
  }

  predicate AllDigits(s: string) {
    forall i :: 0 <= i < |s| ==> '0' <= s[i] <= '9'
  }

  /** Reads back a year field: four digits, or a sign and six digits for a year outside 0 to
      9999 (so no year has two fields, and `-000000` is refused). */
  function YearOfField(f: string): Option<int> {
    if |f| == 4 && AllDigits(f) then Some(DigitsValue(f))
    else if |f| == 7 && (f[0] == '+' || f[0] == '-') && AllDigits(f[1..]) then
      var magnitude := DigitsValue(f[1..]);
      var year := if f[0] == '-' then -magnitude else magnitude;
      if 0 <= year <= 9999 then None else Some(year)
    else None
  }

  lemma Pow10Facts()
    ensures Pow10(2) == 100 && Pow10(4) == 10000 && Pow10(6) == 1000000
  {
  }

  /** Every year field reads back as its year. */
  lemma YearFieldReadsBack(y: int)
    requires -1000000 < y < 1000000
    ensures |YearField(y)| == 4 || |YearField(y)| == 7
    ensures YearOfField(YearField(y)) == Some(y)
  {
    Pow10Facts();
    if y < 0 {
      var f := YearField(y);
      assert f == "-" + Digits(-y, 6) && f[1..] == Digits(-y, 6);
    } else if 9999 < y {
      var f := YearField(y);
      assert f == "+" + Digits(y, 6) && f[1..] == Digits(y, 6);
    }
  }

  /** Reads back the calendar date of a string in the form `FormatDay` writes: a year field, then
      `-MM-DD` as its last six characters. */
  function CivilOfFullDate(s: string): Option<CivilDate> {
    if |s| >= 6 && s[|s| - 6] == '-' && s[|s| - 3] == '-'
       && AllDigits(s[|s| - 5..|s| - 3]) && AllDigits(s[|s| - 2..]) then
      match YearOfField(s[..|s| - 6])
      case Some(year) =>
        var c := CivilDate(year, DigitsValue(s[|s| - 5..|s| - 3]), DigitsValue(s[|s| - 2..]));
        if ValidCivil(c) then Some(c) else None
      case None => None
    else
      None
  }

  /** Reads back the day number of a string in the form `FormatDay` writes. */
  function DayOfFullDate(s: string): Option<int> {
    match CivilOfFullDate(s)
    case Some(c) => Some(DaysFromCivil(c))
    case None => None
  }

  /** The fields of `a + "-" + b + "-" + c` sit where their lengths put them. */
  lemma {:induction false} JoinedFields(a: string, b: string, c: string)
    ensures var s := a + "-" + b + "-" + c;
            var j := |a| + 1 + |b|;
            && |s| == j + 1 + |c|
            && s[..|a|] == a && s[|a|] == '-' && s[|a| + 1..j] == b && s[j] == '-' && s[j + 1..] == c
  {
  }

  /** A date reads back from its year field, its two-digit month and its two-digit day. */
  lemma FullDateReadsBack(c: CivilDate)
    requires -1000000 < c.year < 1000000 && ValidCivil(c)
    ensures CivilOfFullDate(YearField(c.year) + "-" + Digits(c.month, 2) + "-" + Digits(c.day, 2)) == Some(c)
  {
    Pow10Facts();
    YearFieldReadsBack(c.year);
    JoinedFields(YearField(c.year), Digits(c.month, 2), Digits(c.day, 2));
  }

  /** A string of digits has a value below ten to the power of its length. */
  lemma {:induction false} DigitsValueRange(s: string)
    requires AllDigits(s)
    ensures 0 <= DigitsValue(s) < Pow10(|s|)
  {
    if s != [] {
      DigitsValueRange(s[..|s| - 1]);
    }
  }

  /** Two digit strings of one length with one value are the same string. */
  lemma {:induction false} DigitsInjective(a: string, b: string)
    requires |a| == |b| && AllDigits(a) && AllDigits(b) && DigitsValue(a) == DigitsValue(b)
    ensures a == b
  {
    if a != [] {
      var n := |a| - 1;
      DigitsInjective(a[..n], b[..n]);
      assert a == a[..n] + [a[n]] && b == b[..n] + [b[n]];
    }
  }

  /** No year has two fields. */
  lemma YearFieldUnique(f: string, g: string)
    requires YearOfField(f).Some? && YearOfField(f) == YearOfField(g)
    ensures f == g
  {
    Pow10Facts();
    if |f| == 4 {
      DigitsValueRange(f);
      DigitsInjective(f, g);
    } else {
      if |g| == 4 {
        DigitsValueRange(g);
        assert false;
      }
      DigitsValueRange(f[1..]);
      DigitsValueRange(g[1..]);
      // the sign is that of the year, which is never 0
      assert f[0] == '-' <==> YearOfField(f).value < 0;
      assert g[0] == '-' <==> YearOfField(g).value < 0;
      DigitsInjective(f[1..], g[1..]);
      assert f == [f[0]] + f[1..] && g == [g[0]] + g[1..];
    }
  }

  /** No date has two strings: the reader accepts one string per date. */
  lemma FullDateUnique(s: string, t: string)
    requires CivilOfFullDate(s).Some? && CivilOfFullDate(s) == CivilOfFullDate(t)
    ensures s == t
  {
    var n, m := |s|, |t|;
    YearFieldUnique(s[..n - 6], t[..m - 6]);
    DigitsInjective(s[n - 5..n - 3], t[m - 5..m - 3]);
    DigitsInjective(s[n - 2..], t[m - 2..]);
    assert s == s[..n - 6] + "-" + s[n - 5..n - 3] + "-" + s[n - 2..];
    assert t == t[..m - 6] + "-" + t[m - 5..m - 3] + "-" + t[m - 2..];
  }

  /** The date part of the ISO timestamp of day `d` (YYYY-MM-DD, the `full-date` of section 5.6 of
      RFC 3339, for years 0 to 9999). It is injective: `DayOfFullDate` recovers `d`. */
  function FormatDay(d: int): (s: string)
    requires ValidDay(d)
    ensures |s| == 10 || |s| == 13
    ensures CivilOfFullDate(s) == Some(CivilFromDays(d))
    ensures DayOfFullDate(s) == Some(d)
  {
    var c := CivilFromDays(d);
    YearsOfValidDays(d);
    FullDateReadsBack(c);
    YearFieldReadsBack(c.year);
    YearField(c.year) + "-" + Digits(c.month, 2) + "-" + Digits(c.day, 2)
  }

  /** `FormatDay` is the only text that reads back as day `d`: every string the decoder
      accepts for `d` is exactly `FormatDay(d)`. */
  lemma FormatDayUnique(d: int, t: string)
    requires ValidDay(d) && DayOfFullDate(t) == Some(d)
    ensures t == FormatDay(d)
  {
    var c := CivilOfFullDate(t).value;
    CivilRoundTrip(c, d);
    FullDateUnique(FormatDay(d), t);
  }

  /** `formatDate`: the UTC calendar date of an instant. */
  function FormatDate(t: int): string
    requires ValidInstant(t)
  {
    FormatDay(DayOf(t))
  }

  /** `isToday`: the string equals today's formatted date, so it is today exactly when it is a
      date string that reads back as the current day. */
  function IsToday(date: string, now: Clock): (r: bool)
    requires ValidInstant(NowInstant(now))
    ensures r <==> DayOfFullDate(date) == Some(now.today)
  {
    DayOfNow(now);
    assert DayOfFullDate(date) == Some(now.today) ==> date == FormatDate(NowInstant(now)) by {
      if DayOfFullDate(date) == Some(now.today) {
        FormatDayUnique(now.today, date);
      }
    }
    date == FormatDate(NowInstant(now))
  }


  /** `getDaysDifference` of two dates parsed as UTC midnight: the floor of the elapsed days. */
  function DaysDifference(d1: int, d2: int): (r: int)
    ensures r == d2 - d1
  {
    (Midnight(d2) - Midnight(d1)) / MsPerDay
  }

  lemma DaysDifferenceLaws(a: int, b: int, c: int)
    ensures DaysDifference(a, a) == 0
    ensures DaysDifference(a, b) == -DaysDifference(b, a)
    ensures DaysDifference(a, b) + DaysDifference(b, c) == DaysDifference(a, c)
  {
  }

  /** `getDay`: 0 for Sunday up to 6 for Saturday; 1970-01-01 was a Thursday. */
  function Weekday(d: int): (w: int)
    ensures 0 <= w < 7
  {
    (d + 4) % 7
  }

  /** 1970-01-04, day 3, was a Sunday, and each day's weekday follows the day before's. */
  lemma WeekdaySteps(d: int)
    ensures Weekday(3) == 0
    ensures Weekday(d + 1) == (Weekday(d) + 1) % 7
  {
    assert d + 5 == 7 * ((d + 4) / 7) + ((d + 4) % 7 + 1);
  }

  /** The month offsets of Sakamoto's day-of-week method, January first. */
  const WeekdayOffsets: seq<int> := [0, 3, 2, 5, 0, 3, 5, 1, 4, 6, 2, 4]

  /** Sakamoto's day-of-week method on a Gregorian date (0 is Sunday): an independent account of
      the weekday that counts leap years directly. */
  function SakamotoWeekday(c: CivilDate): (w: int)
    requires 1 <= c.month <= 12
    ensures 0 <= w < 7
  {
    var y := if c.month < 3 then c.year - 1 else c.year;
    (y + y / 4 - y / 100 + y / 400 + WeekdayOffsets[c.month - 1] + c.day) % 7
  }

  /** Every day's `getDay` is the weekday Sakamoto's method gives for its calendar date. */
  lemma WeekdayMatchesCalendar(d: int)
    ensures Weekday(d) == SakamotoWeekday(CivilFromDays(d))
  {
    WeekdayOfDate(CivilFromDays(d), d);
  }

  lemma WeekdayOfDate(c: CivilDate, d: int)
    requires ValidCivil(c) && d == DaysFromCivil(c)
    ensures Weekday(d) == SakamotoWeekday(c)
  {
    var y := if c.month <= 2 then c.year - 1 else c.year;
    var era := y / 400;
    var yoe := y - era * 400;
    var mp := if c.month > 2 then c.month - 3 else c.month + 9;
    var t := WeekdayOffsets[c.month - 1];
    assert 0 <= yoe < 400;
    assert y / 4 == era * 100 + yoe / 4 by {
      assert y == 4 * (era * 100 + yoe / 4) + yoe % 4;
    }
    assert y / 100 == era * 4 + yoe / 100 by {
      assert y == 100 * (era * 4 + yoe / 100) + yoe % 100;
    }
    var sum := y + y / 4 - y / 100 + y / 400 + t + c.day;
    var k := MonthOffsetAgrees(mp, c.month);
    assert d + 4 == sum + 7 * (era * 20800 + yoe * 52 + k);
    ModShift7(sum, era * 20800 + yoe * 52 + k);
  }

  /** Sakamoto's month offsets agree with the March-based month starts modulo 7. */
  lemma MonthOffsetAgrees(mp: int, month: int) returns (k: int)
    requires 0 <= mp <= 11 && month == (if mp < 10 then mp + 3 else mp - 9)
    ensures (153 * mp + 2) / 5 - 719465 - WeekdayOffsets[month - 1] == 7 * k
  {
    k := ((153 * mp + 2) / 5 - 719465 - WeekdayOffsets[month - 1]) / 7;
  }

  lemma ModShift7(a: int, k: int)
    ensures (a + 7 * k) % 7 == a % 7
  {
    assert a + 7 * k == 7 * (a / 7 + k) + a % 7;
  }

  /** `getWeekDates`: the seven days of the Sunday-to-Saturday week holding today, oldest first. */
  method GetWeekDates(now: Clock) returns (week: seq<int>)
    ensures |week| == 7
    ensures Weekday(week[0]) == 0
    ensures forall i :: 0 <= i < 7 ==> week[i] == week[0] + i
    ensures week[Weekday(now.today)] == now.today
  {
    var startOfWeek := now.today - Weekday(now.today);
    week := [];
    for i := 0 to 7
      invariant |week| == i
      invariant forall k :: 0 <= k < i ==> week[k] == startOfWeek + k
    {
      week := week + [startOfWeek + i];
    }
  }
}
