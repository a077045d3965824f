/**
 * UTC calendar dates of JavaScript time values, as `Date.prototype.toISOString`
 * prints them and as `new Date("YYYY-MM-DD")` reads them back.
 *
 * The reference definitions are those of the ECMAScript language
 * specification (section "Date Objects"): a time value counts milliseconds
 * since 1970-01-01T00:00:00Z, `Day(t)` is `floor(t / msPerDay)`, and a civil
 * date (year, month, day) is the day number `DayFromYear(year)` plus the days
 * of the earlier months plus `day - 1`. `CivilFromDays` inverts that sum in
 * integer arithmetic by splitting a day number into 400-year eras, centuries,
 * four-year cycles, years and months, each counted from 1 March so that the
 * leap day ends its year.
 */
module CivilDate {
  import opened Wrappers
  import opened Decimal
  import JsText

  const MsPerDay: int := 86_400_000

  /** A proleptic Gregorian calendar date; month and day count from 1. */
  datatype Civil = Civil(year: int, month: int, day: int)

  predicate IsLeapYear(y: int) { y % 4 == 0 && (y % 100 != 0 || y % 400 == 0) }

  function DaysInMonth(y: int, m: int): int
    requires 1 <= m <= 12
  {
    if m == 2 then (if IsLeapYear(y) then 29 else 28)
    else if m == 4 || m == 6 || m == 9 || m == 11 then 30
    else 31
  }

  predicate ValidDate(c: Civil) { 1 <= c.month <= 12 && 1 <= c.day <= DaysInMonth(c.year, c.month) }

  /** Calendar order: by year, then month, then day. */
  predicate CivilLess(a: Civil, b: Civil)
  {
    a.year < b.year || (a.year == b.year && (a.month < b.month || (a.month == b.month && a.day < b.day)))
  }

  /** `DayFromYear` of ECMAScript: the day number of 1 January of year y. */
  function DayFromYear(y: int): int
  {
    365 * (y - 1970) + (y - 1969) / 4 - (y - 1901) / 100 + (y - 1601) / 400
  }

  /** Days of year y before the first of month m. */
  function DaysBeforeMonth(y: int, m: int): int
    requires 1 <= m <= 12
  {
    [0, 31, 59, 90, 120, 151, 181, 212, 243, 273, 304, 334][m - 1]
      + (if m > 2 && IsLeapYear(y) then 1 else 0)
  }

  /** The day number (days since 1970-01-01) of a civil date. */
  function DaysFromCivil(c: Civil): int
    requires 1 <= c.month <= 12
  {
    DayFromYear(c.year) + DaysBeforeMonth(c.year, c.month) + c.day - 1
  }

  /** `Day(t)` of ECMAScript: the day a time value falls in, rounding towards minus infinity. */
  function DayOf(t: int): (d: int)
    ensures d * MsPerDay <= t < (d + 1) * MsPerDay
  {
    t / MsPerDay
  }

  // ----- Arithmetic facts about DayFromYear -----

  lemma DivShift4(a: int, n: int) ensures (a + 4 * n) / 4 == a / 4 + n {}
  lemma DivShift100(a: int, n: int) ensures (a + 100 * n) / 100 == a / 100 + n {}
  lemma DivShift400(a: int, n: int) ensures (a + 400 * n) / 400 == a / 400 + n {}
  lemma ModShift4(a: int, n: int) ensures (a + 4 * n) % 4 == a % 4 {}
  lemma ModShift100(a: int, n: int) ensures (a + 100 * n) % 100 == a % 100 {}
  lemma ModShift400(a: int, n: int) ensures (a + 400 * n) % 400 == a % 400 {}

  /** The Gregorian calendar repeats every 400 years, which hold 146097 days. */
  lemma DayFromYearPeriodic(e: int, k: int)
    ensures DayFromYear(400 * e + k) == DayFromYear(k) + 146097 * e
  {
    DivShift4(k - 1969, 100 * e);
    DivShift100(k - 1901, 4 * e);
    DivShift400(k - 1601, e);
  }

  lemma LeapYearPeriodic(e: int, k: int)
    ensures IsLeapYear(400 * e + k) == IsLeapYear(k)
  {
    ModShift4(k, 100 * e);
    ModShift100(k, 4 * e);
    ModShift400(k, e);
  }

  lemma Step4(y: int) ensures (y - 1968) / 4 == (y - 1969) / 4 + (if y % 4 == 0 then 1 else 0) {}
  lemma Step100(y: int) ensures (y - 1900) / 100 == (y - 1901) / 100 + (if y % 100 == 0 then 1 else 0) {}
  lemma Step400(y: int) ensures (y - 1600) / 400 == (y - 1601) / 400 + (if y % 400 == 0 then 1 else 0) {}

  /** A year lasts 366 days if it is a leap year and 365 days otherwise. */
  lemma YearLength(y: int)
    ensures DayFromYear(y + 1) == DayFromYear(y) + 365 + (if IsLeapYear(y) then 1 else 0)
  {
    var a := if y % 4 == 0 then 1 else 0;
    var b := if y % 100 == 0 then 1 else 0;
    var c := if y % 400 == 0 then 1 else 0;
    assert DayFromYear(y + 1) == DayFromYear(y) + 365 + a - b + c by {
      Step4(y);
      Step100(y);
      Step400(y);
    }
    if c == 1 {
      Century400(y);
      Leap100(y);
    } else if b == 1 {
      Leap100(y);
    }
  }

  lemma Century400(y: int)
    requires y % 400 == 0
    ensures y % 100 == 0
  {
    var q := y / 400;
    assert y == 100 * (4 * q);
    ModShift100(0, 4 * q);
  }

  lemma Leap100(y: int)
    requires y % 100 == 0
    ensures y % 4 == 0
  {
    var q := y / 100;
    assert y == 4 * (25 * q);
    ModShift4(0, 25 * q);
  }

  // ----- From day numbers to civil dates -----

  /** Days of the first k years of an era counted from 1 March of its year 0. */
  function EraYearStart(k: int): int { 365 * k + k / 4 - k / 100 }

  /** Days of a March-based year before its month mp (0 = March, ..., 11 = February). */
  function DaysBeforeMarchMonth(mp: int): int { (153 * mp + 2) / 5 }

  /** The day number of 1 March of year y. */
  function MarchFirstDay(y: int): int { DayFromYear(y) + 59 + (if IsLeapYear(y) then 1 else 0) }

  lemma MarchFirstInEra(k: int)
    requires 0 <= k < 400
    ensures MarchFirstDay(k) == EraYearStart(k) - 719468
  {
    YearLength(k);
    assert MarchFirstDay(k) == DayFromYear(k + 1) - 306;
    DivShift4(k, -492);
    DivShift100(k, -19);
    DivShift400(k, -4);
    assert k / 400 == 0;
  }

  lemma EraSplit(doe: int, c: int, q: int, r: int)
    requires 0 <= doe < 146097
    requires c == if doe / 36524 < 3 then doe / 36524 else 3
    requires q == (doe - 36524 * c) / 1461
    requires r == if (doe - 36524 * c - 1461 * q) / 365 < 3 then (doe - 36524 * c - 1461 * q) / 365 else 3
    ensures 0 <= 100 * c + 4 * q + r < 400
    ensures EraYearStart(100 * c + 4 * q + r) == 36524 * c + 1461 * q + 365 * r
    ensures 0 <= doe - EraYearStart(100 * c + 4 * q + r) <= 364 + (if IsLeapYear(100 * c + 4 * q + r + 1) then 1 else 0)
  {
    var yoe := 100 * c + 4 * q + r;
    assert 0 <= c <= 3;
    assert 0 <= q <= 24;
    assert 0 <= r <= 3;
    assert yoe / 4 == 25 * c + q;
    assert yoe / 100 == c;
  }

  /**
   * The year of a 400-year era in which day doe of the era falls: whole
   * centuries of 36524 days (the last one has a day more), then whole four-year
   * cycles of 1461 days, then whole years of 365 days (the last one of a cycle
   * may have a day more).
   */
  function YearOfEra(doe: int): int
  {
    var c := if doe / 36524 < 3 then doe / 36524 else 3;
    var q := (doe - 36524 * c) / 1461;
    var r := if (doe - 36524 * c - 1461 * q) / 365 < 3 then (doe - 36524 * c - 1461 * q) / 365 else 3;
    100 * c + 4 * q + r
  }

  lemma YearOfEraBounds(doe: int)
    requires 0 <= doe < 146097
    ensures 0 <= YearOfEra(doe) < 400
    ensures 0 <= doe - EraYearStart(YearOfEra(doe)) <= 364 + (if IsLeapYear(YearOfEra(doe) + 1) then 1 else 0)
  {
    var c := if doe / 36524 < 3 then doe / 36524 else 3;
    var q := (doe - 36524 * c) / 1461;
    var r := if (doe - 36524 * c - 1461 * q) / 365 < 3 then (doe - 36524 * c - 1461 * q) / 365 else 3;
    assert YearOfEra(doe) == 100 * c + 4 * q + r;
    EraSplit(doe, c, q, r);
  }

  lemma MonthOfMarchYear(doy: int, mp: int)
    requires 0 <= doy <= 365
    requires mp == (5 * doy + 2) / 153
    ensures 0 <= mp <= 11
    ensures DaysBeforeMarchMonth(mp) <= doy
    ensures mp < 11 ==> doy < DaysBeforeMarchMonth(mp + 1)
  {}

  /** The civil date of day doy (counted from 0) of the March-based year y. */
  function MarchCivil(y: int, doy: int): Civil
  {
    var mp := (5 * doy + 2) / 153;
    var d := doy - DaysBeforeMarchMonth(mp) + 1;
    if mp < 10 then Civil(y, mp + 3, d) else Civil(y + 1, mp - 9, d)
  }

  lemma MarchCivilCorrect(y: int, doy: int)
    requires 0 <= doy <= 364 + (if IsLeapYear(y + 1) then 1 else 0)
    ensures ValidDate(MarchCivil(y, doy))
    ensures DaysFromCivil(MarchCivil(y, doy)) == MarchFirstDay(y) + doy
  {
    var mp := (5 * doy + 2) / 153;
    MonthOfMarchYear(doy, mp);
    if mp < 10 {
      MarchToDecember(y, mp);
    } else {
      YearLength(y);
    }
  }

  /** From March to December, a month's offset in the calendar year is its offset in the March-based year plus January and February. */
  lemma MarchToDecember(y: int, mp: int)
    requires 0 <= mp < 10
    ensures DaysBeforeMonth(y, mp + 3) == 59 + (if IsLeapYear(y) then 1 else 0) + DaysBeforeMarchMonth(mp)
  {}

  lemma MarchFirstOfEra(era: int, yoe: int, y: int)
    requires 0 <= yoe < 400 && y == 400 * era + yoe
    ensures MarchFirstDay(y) == 146097 * era + EraYearStart(yoe) - 719468
    ensures IsLeapYear(y + 1) == IsLeapYear(yoe + 1)
  {
    DayFromYearPeriodic(era, yoe);
    LeapYearPeriodic(era, yoe);
    LeapYearPeriodic(era, yoe + 1);
    assert 400 * era + (yoe + 1) == 400 * era + yoe + 1;
    MarchFirstInEra(yoe);
  }

  /** The civil date of day number z; day 0 is 1970-01-01 and 0000-03-01 is day -719468. */
  function CivilFromDays(z: int): (c: Civil)
    ensures ValidDate(c)
    ensures DaysFromCivil(c) == z
  {
    var era := (z + 719468) / 146097;
    var doe := (z + 719468) % 146097;
    var yoe := YearOfEra(doe);
    var y := 400 * era + yoe;
    var doy := doe - EraYearStart(yoe);
    YearOfEraBounds(doe);
    MarchFirstOfEra(era, yoe, y);
    MarchCivilCorrect(y, doy);
    MarchCivil(y, doy)
  }

  // ----- Calendar order is day-number order -----

  lemma {:induction false} DayFromYearGrows(a: int, b: int)
    requires a <= b
    ensures DayFromYear(a) + 365 * (b - a) <= DayFromYear(b)
    decreases b - a
  {
    if a < b {
      DayFromYearGrows(a, b - 1);
      YearLength(b - 1);
    }
  }

  lemma WithinYear(c: Civil)
    requires ValidDate(c)
    ensures 0 <= DaysBeforeMonth(c.year, c.month) + c.day - 1 < 365 + (if IsLeapYear(c.year) then 1 else 0)
  {}

  lemma MonthsInOrder(y: int, m1: int, d1: int, m2: int, d2: int)
    requires ValidDate(Civil(y, m1, d1)) && ValidDate(Civil(y, m2, d2))
    requires m1 < m2 || (m1 == m2 && d1 < d2)
    ensures DaysBeforeMonth(y, m1) + d1 < DaysBeforeMonth(y, m2) + d2
  {}

  /** A later valid date has a larger day number. */
  lemma DaysFromCivilMonotone(a: Civil, b: Civil)
    requires ValidDate(a) && ValidDate(b)
    requires CivilLess(a, b)
    ensures DaysFromCivil(a) < DaysFromCivil(b)
  {
    if a.year < b.year {
      WithinYear(a);
      WithinYear(b);
      YearLength(a.year);
      DayFromYearGrows(a.year + 1, b.year);
    } else {
      MonthsInOrder(a.year, a.month, a.day, b.month, b.day);
    }
  }

  /** Valid dates and day numbers correspond one to one. */
  lemma CivilRoundTrip(c: Civil)
    requires ValidDate(c)
    ensures CivilFromDays(DaysFromCivil(c)) == c
  {
    var c' := CivilFromDays(DaysFromCivil(c));
    if CivilLess(c, c') {
      DaysFromCivilMonotone(c, c');
    } else if CivilLess(c', c) {
      DaysFromCivilMonotone(c', c);
    }
  }

  /** Later days have later civil dates, and conversely. */
  lemma CivilFromDaysOrder(z1: int, z2: int)
    ensures z1 < z2 <==> CivilLess(CivilFromDays(z1), CivilFromDays(z2))
  {
    var c1, c2 := CivilFromDays(z1), CivilFromDays(z2);
    if z1 < z2 && !CivilLess(c1, c2) {
      if c1 != c2 {
        DaysFromCivilMonotone(c2, c1);
      }
    }
    if CivilLess(c1, c2) {
      DaysFromCivilMonotone(c1, c2);
    }
  }

  // ----- Four-digit years -----

  /** Day number of 0000-01-01. */
  const FirstDay: int := -719528
  /** Day number of 10000-01-01, the first day whose ISO year needs more than four digits. */
  const LimitDay: int := 2932897

  /** The time values whose UTC year lies in 0000..9999, where `toISOString` prints a four-digit year. */
  predicate InFourDigitYears(t: int) { FirstDay * MsPerDay <= t < LimitDay * MsPerDay }

  lemma FourDigitYear(z: int)
    requires FirstDay <= z < LimitDay
    ensures 0 <= CivilFromDays(z).year <= 9999
  {
    var c := CivilFromDays(z);
    assert DaysFromCivil(Civil(0, 1, 1)) == FirstDay;
    assert DaysFromCivil(Civil(10000, 1, 1)) == LimitDay;
    if c.year < 0 {
      DaysFromCivilMonotone(c, Civil(0, 1, 1));
    } else if c.year > 9999 {
      if c != Civil(10000, 1, 1) {
        DaysFromCivilMonotone(Civil(10000, 1, 1), c);
      }
    }
  }

  // ----- Printing and parsing ISO dates -----

  /** `YYYY-MM-DD` for a date with a four-digit year. */
  function DateKey(c: Civil): (key: string)
    requires ValidDate(c) && 0 <= c.year <= 9999
    ensures |key| == 10 && 'T' !in key
  {
    Padded(c.year, 4) + ("-" + (Padded(c.month, 2) + ("-" + Padded(c.day, 2))))
  }

  /** `HH:mm:ss.sssZ` for a number of milliseconds into a day. */
  function TimeOfDayText(ms: int): string
    requires 0 <= ms < MsPerDay
  {
    Padded(ms / 3_600_000, 2) + ":" + Padded(ms / 60_000 % 60, 2) + ":"
      + Padded(ms / 1000 % 60, 2) + "." + Padded(ms % 1000, 3) + "Z"
  }

  lemma DayOfFourDigitYears(t: int)
    requires InFourDigitYears(t)
    ensures FirstDay <= DayOf(t) < LimitDay
    ensures 0 <= CivilFromDays(DayOf(t)).year <= 9999
  {
    FourDigitYear(DayOf(t));
  }

  /** `new Date(t).toISOString()`: `YYYY-MM-DDTHH:mm:ss.sssZ` in UTC. */
  function ToIsoString(t: int): string
    requires InFourDigitYears(t)
  {
    DayOfFourDigitYears(t);
    DateKey(CivilFromDays(DayOf(t))) + "T" + TimeOfDayText(t - DayOf(t) * MsPerDay)
  }

  /** `new Date(t).toISOString().split('T')[0]`: the UTC calendar date of t as `YYYY-MM-DD`. */
  function IsoDate(t: int): (key: string)
    requires InFourDigitYears(t)
    ensures 0 <= CivilFromDays(DayOf(t)).year <= 9999
    ensures key == DateKey(CivilFromDays(DayOf(t)))
  {
    DayOfFourDigitYears(t);
    SplitBeforeSeparator(DateKey(CivilFromDays(DayOf(t))), TimeOfDayText(t - DayOf(t) * MsPerDay), 'T');
    JsText.Split(ToIsoString(t), 'T')[0]
  }

  lemma SplitBeforeSeparator(a: string, b: string, sep: char)
    requires sep !in a
    ensures JsText.Split(a + [sep] + b, sep)[0] == a
  {
    var s := a + [sep] + b;
    assert s[|a|] == sep;
    assert s[..|a|] == a;
  }

  /**
   * `new Date(key).getTime()` for a date-only ISO string: UTC midnight of that
   * date, or None (NaN) when key is not `YYYY-MM-DD` naming a real date.
   */
  function ParseDateKey(key: string): Option<int>
  {
    if |key| == 10 && key[4] == '-' && key[7] == '-'
       && AllDigits(key[..4]) && AllDigits(key[5..7]) && AllDigits(key[8..])
    then
      var c := Civil(DigitsValue(key[..4]), DigitsValue(key[5..7]), DigitsValue(key[8..]));
      if ValidDate(c) then Some(DaysFromCivil(c) * MsPerDay) else None
    else None
  }

  lemma ParseDateKeyRoundTrip(c: Civil)
    requires ValidDate(c) && 0 <= c.year <= 9999
    ensures ParseDateKey(DateKey(c)) == Some(DaysFromCivil(c) * MsPerDay)
  {
    var key := DateKey(c);
    assert AllDigits(key[..4]) && DigitsValue(key[..4]) == c.year by {
      assert key[..4] == Padded(c.year, 4);
      PaddedRoundTrip(c.year, 4);
    }
    assert AllDigits(key[5..7]) && DigitsValue(key[5..7]) == c.month by {
      assert key[5..7] == Padded(c.month, 2);
      PaddedRoundTrip(c.month, 2);
    }
    assert AllDigits(key[8..]) && DigitsValue(key[8..]) == c.day by {
      assert key[8..] == Padded(c.day, 2);
      PaddedRoundTrip(c.day, 2);
    }
  }

  /** Reading back the ISO date of a time value gives midnight UTC of its day. */
  lemma IsoDateRoundTrip(t: int)
    requires InFourDigitYears(t)
    ensures ParseDateKey(IsoDate(t)) == Some(DayOf(t) * MsPerDay)
  {
    FourDigitYear(DayOf(t));
    ParseDateKeyRoundTrip(CivilFromDays(DayOf(t)));
  }

  /** Two time values share an ISO date exactly when they fall in the same UTC day. */
  lemma IsoDateSameDay(t1: int, t2: int)
    requires InFourDigitYears(t1) && InFourDigitYears(t2)
    ensures IsoDate(t1) == IsoDate(t2) <==> DayOf(t1) == DayOf(t2)
  {
    IsoDateRoundTrip(t1);
    IsoDateRoundTrip(t2);
  }

  lemma DateKeyOrder(a: Civil, b: Civil)
    requires ValidDate(a) && 0 <= a.year <= 9999
    requires ValidDate(b) && 0 <= b.year <= 9999
    ensures LexLess(DateKey(a), DateKey(b)) <==> CivilLess(a, b)
  {
    PaddedThen(a.year, b.year, 4, "-" + (Padded(a.month, 2) + ("-" + Padded(a.day, 2))),
                                  "-" + (Padded(b.month, 2) + ("-" + Padded(b.day, 2))));
    SameHead('-', Padded(a.month, 2) + ("-" + Padded(a.day, 2)), Padded(b.month, 2) + ("-" + Padded(b.day, 2)));
    PaddedThen(a.month, b.month, 2, "-" + Padded(a.day, 2), "-" + Padded(b.day, 2));
    SameHead('-', Padded(a.day, 2), Padded(b.day, 2));
    PaddedOrder(a.day, b.day, 2);
  }

  /** For four-digit years, string order on ISO dates is chronological order. */
  lemma IsoDateOrder(t1: int, t2: int)
    requires InFourDigitYears(t1) && InFourDigitYears(t2)
    ensures LexLess(IsoDate(t1), IsoDate(t2)) <==> DayOf(t1) < DayOf(t2)
  {
    var z1, z2 := DayOf(t1), DayOf(t2);
    var c1, c2 := CivilFromDays(z1), CivilFromDays(z2);
    DayOfFourDigitYears(t1);
    DayOfFourDigitYears(t2);
    assert IsoDate(t1) == DateKey(c1) && IsoDate(t2) == DateKey(c2);
    DateKeyOrder(c1, c2);
    CivilFromDaysOrder(z1, z2);
  }

  /** The date a key that parses names. */
  function ParsedCivil(key: string): (c: Civil)
    requires ParseDateKey(key).Some?
    ensures ValidDate(c) && 0 <= c.year <= 9999
    ensures key == DateKey(c)
    ensures ParseDateKey(key) == Some(DaysFromCivil(c) * MsPerDay)
  {
    var c := Civil(DigitsValue(key[..4]), DigitsValue(key[5..7]), DigitsValue(key[8..]));
    assert ValidDate(c);
    DigitsPaddedRoundTrip(key[..4]);
    DigitsPaddedRoundTrip(key[5..7]);
    DigitsPaddedRoundTrip(key[8..]);
    KeyFields(key);
    c
  }

  /**
   * The converse of IsoDateRoundTrip: a key that parses is the ISO date of the
   * time it parses to, so only keys in the form `toISOString` prints parse.
   */
  lemma ParseDateKeyPrints(key: string)
    requires ParseDateKey(key).Some?
    ensures InFourDigitYears(ParseDateKey(key).value)
    ensures IsoDate(ParseDateKey(key).value) == key
  {
    var c := ParsedCivil(key);
    var z := DaysFromCivil(c);
    var t := z * MsPerDay;
    assert DayOf(t) == z;
    assert DaysFromCivil(Civil(0, 1, 1)) == FirstDay;
    assert DaysFromCivil(Civil(10000, 1, 1)) == LimitDay;
    if c != Civil(0, 1, 1) {
      DaysFromCivilMonotone(Civil(0, 1, 1), c);
    }
    DaysFromCivilMonotone(c, Civil(10000, 1, 1));
    CivilRoundTrip(c);
  }

  lemma KeyFields(key: string)
    requires |key| == 10 && key[4] == '-' && key[7] == '-'
    ensures key == key[..4] + ("-" + (key[5..7] + ("-" + key[8..])))
  {
    var r := key[..4] + ("-" + (key[5..7] + ("-" + key[8..])));
    assert |r| == 10;
    forall i | 0 <= i < 10 ensures r[i] == key[i] {
      if i < 4 {
      } else if i == 4 {
      } else if i < 7 {
        assert r[i] == key[5..7][i - 5];
      } else if i == 7 {
      } else {
        assert r[i] == key[8..][i - 8];
      }
    }
  }

  /**
   * On keys that parse (four-digit years), string order is the order of the
   * parsed times, and two keys parse to the same time only if they are equal.
   */
  lemma DateKeyTimeOrder(k1: string, k2: string)
    requires ParseDateKey(k1).Some? && ParseDateKey(k2).Some?
    ensures LexLess(k1, k2) <==> ParseDateKey(k1).value < ParseDateKey(k2).value
    ensures k1 == k2 <==> ParseDateKey(k1).value == ParseDateKey(k2).value
  {
    var c1, c2 := ParsedCivil(k1), ParsedCivil(k2);
    DateKeyOrder(c1, c2);
    if CivilLess(c1, c2) {
      DaysFromCivilMonotone(c1, c2);
    } else if CivilLess(c2, c1) {
      DaysFromCivilMonotone(c2, c1);
    } else {
      assert c1 == c2;
    }
  }
}
