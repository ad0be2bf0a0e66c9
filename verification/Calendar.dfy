/**
 * Date arithmetic of section 21.4.1 of ECMA-262: time values, the proleptic
 * Gregorian calendar, MakeDay, MakeTime, MakeDate and TimeClip. Months count
 * from 0. Only what is coarser than a second matters here.
 */
module Calendar {
  import opened Lists

  const MS_PER_MINUTE := 60_000
  const MS_PER_HOUR := 3_600_000
  const MS_PER_DAY := 86_400_000
  const MAX_TIME := 8_640_000_000_000_000

  type TimeValue = t: int | -MAX_TIME <= t <= MAX_TIME

  function TimeClip(t: int): Option<TimeValue> {
    if -MAX_TIME <= t <= MAX_TIME then Some(t) else None
  }

  predicate Leap(y: int) {
    y % 4 == 0 && (y % 100 != 0 || y % 400 == 0)
  }

  function DaysInYear(y: int): int {
    if Leap(y) then 366 else 365
  }

  /** Day number of the first day of a year, counting years from 1970. */
  function DayFromYear(y: int): int
    decreases if y < 1970 then 1970 - y else y - 1970
  {
    if y == 1970 then 0 else if y < 1970 then DayFromYear(y + 1) - DaysInYear(y) else DayFromYear(y - 1) + DaysInYear(y - 1)
  }

  function DayFromYearFormula(y: int): int {
    365 * (y - 1970) + (y - 1969) / 4 - (y - 1901) / 100 + (y - 1601) / 400
  }

  lemma LeapDays(y: int)
    ensures (y - 1968) / 4 - (y - 1969) / 4 == if y % 4 == 0 then 1 else 0
  {
  }

  lemma Centuries(y: int)
    ensures (y - 1900) / 100 - (y - 1901) / 100 == if y % 100 == 0 then 1 else 0
    ensures y % 100 == 0 ==> y % 4 == 0
  {
  }

  lemma FourthCenturies(y: int)
    ensures (y - 1600) / 400 - (y - 1601) / 400 == if y % 400 == 0 then 1 else 0
    ensures y % 400 == 0 ==> y % 100 == 0
  {
  }

  lemma FormulaStep(y: int)
    ensures DayFromYearFormula(y + 1) - DayFromYearFormula(y) == DaysInYear(y)
  {
    LeapDays(y);
    Centuries(y);
    FourthCenturies(y);
  }

  /** The closed form of the standard. */
  lemma {:induction false} DayFromYearIsTheFormula(y: int)
    ensures DayFromYear(y) == DayFromYearFormula(y)
    decreases if y < 1970 then 1970 - y else y - 1970
  {
    if y < 1970 {
      DayFromYearIsTheFormula(y + 1);
      FormulaStep(y);
    } else if y > 1970 {
      DayFromYearIsTheFormula(y - 1);
      FormulaStep(y - 1);
    }
  }

  lemma YearLength(y: int)
    ensures DayFromYear(y + 1) - DayFromYear(y) == DaysInYear(y)
  {
  }

  lemma {:induction false} YearsAscend(a: int, b: int)
    requires a < b
    ensures DayFromYear(a) + 365 * (b - a) <= DayFromYear(b)
    decreases b - a
  {
    YearLength(b - 1);
    if a < b - 1 { YearsAscend(a, b - 1); }
  }

  /** The last year that starts on or before the day. */
  function YearFromDay(day: int): (y: int)
    ensures DayFromYear(y) <= day < DayFromYear(y + 1)
  {
    if day < 0 then YearSearch(day, 1969)
    else
      YearsAscend(1970, 1971 + day / 365);
      YearSearch(day, 1970 + day / 365)
  }

  function YearSearch(day: int, y: int): (r: int)
    requires day < DayFromYear(y + 1)
    ensures DayFromYear(r) <= day < DayFromYear(r + 1)
    decreases DayFromYear(y) - day
  {
    YearLength(y - 1);
    if DayFromYear(y) <= day then y else YearSearch(day, y - 1)
  }

  lemma YearIsUnique(day: int, y: int)
    ensures DayFromYear(y) <= day ==> y <= YearFromDay(day)
    ensures day < DayFromYear(y + 1) ==> YearFromDay(day) <= y
  {
    var r := YearFromDay(day);
    if r < y { if r + 1 < y { YearsAscend(r + 1, y); } }
    if y < r { if y + 1 < r { YearsAscend(y + 1, r); } }
  }

  /** Days of the year before month m; m == 12 is the end of the year. */
  function MonthStart(leap: bool, m: int): int
    requires 0 <= m <= 12
  {
    [0, 31, 59, 90, 120, 151, 181, 212, 243, 273, 304, 334, 365][m] + if leap && m >= 2 then 1 else 0
  }

  lemma MonthsAscend(leap: bool, a: int, b: int)
    requires 0 <= a < b <= 12
    ensures MonthStart(leap, a) + 28 <= MonthStart(leap, a + 1) <= MonthStart(leap, a) + 31
    ensures MonthStart(leap, a + 1) <= MonthStart(leap, b)
  {
  }

  function DaysInMonth(y: int, m: int): int
    requires 0 <= m < 12
  {
    MonthStart(Leap(y), m + 1) - MonthStart(Leap(y), m)
  }

  function MonthFromDay(leap: bool, day: int, m: int): (r: int)
    requires 0 <= m < 12 && MonthStart(leap, m) <= day < MonthStart(leap, 12)
    ensures 0 <= r < 12 && MonthStart(leap, r) <= day < MonthStart(leap, r + 1)
    decreases 12 - m
  {
    if day < MonthStart(leap, m + 1) then m else MonthFromDay(leap, day, m + 1)
  }

  datatype Wall = Wall(year: int, month: int, day: int, hour: int, minute: int)

  predicate OnCalendar(w: Wall) {
    0 <= w.month < 12 && 1 <= w.day <= DaysInMonth(w.year, w.month) && 0 <= w.hour < 24 && 0 <= w.minute < 60
  }

  function DayWithinYear(day: int): (n: int)
    ensures 0 <= n < MonthStart(Leap(YearFromDay(day)), 12)
  {
    YearLength(YearFromDay(day));
    day - DayFromYear(YearFromDay(day))
  }

  function MonthOf(day: int): (m: int)
    ensures 0 <= m < 12
    ensures MonthStart(Leap(YearFromDay(day)), m) <= DayWithinYear(day) < MonthStart(Leap(YearFromDay(day)), m + 1)
  {
    MonthFromDay(Leap(YearFromDay(day)), DayWithinYear(day), 0)
  }

  /** What the UTC getters of a date say of its time value. */
  function WallOf(t: int): Wall {
    var day := t / MS_PER_DAY;
    var y := YearFromDay(day);
    Wall(y, MonthOf(day), DayWithinYear(day) - MonthStart(Leap(y), MonthOf(day)) + 1,
         t / MS_PER_HOUR % 24, t / MS_PER_MINUTE % 60)
  }

  function MakeDay(y: int, m: int, date: int): int {
    DayFromYear(y + m / 12) + MonthStart(Leap(y + m / 12), m % 12) + date - 1
  }

  function MakeTime(hour: int, minute: int): int { hour * MS_PER_HOUR + minute * MS_PER_MINUTE }

  function MakeDate(day: int, time: int): int { day * MS_PER_DAY + time }

  /** The time value of a wall clock reading, on the minute. */
  function TimeOf(w: Wall): int {
    MakeDate(MakeDay(w.year, w.month, w.day), MakeTime(w.hour, w.minute))
  }

  lemma ClockOf(t: int)
    ensures t % MS_PER_DAY == MakeTime(t / MS_PER_HOUR % 24, t / MS_PER_MINUTE % 60) + t % MS_PER_MINUTE
  {
    var minutes := t / MS_PER_MINUTE;
    var hours := minutes / 60;
    assert t / MS_PER_HOUR == hours && t / MS_PER_DAY == hours / 24;
  }

  lemma ClockOfMade(day: int, hour: int, minute: int)
    requires 0 <= hour < 24 && 0 <= minute < 60
    ensures var t := MakeDate(day, MakeTime(hour, minute));
      t / MS_PER_DAY == day && t / MS_PER_HOUR % 24 == hour && t / MS_PER_MINUTE % 60 == minute
  {
    var t := MakeDate(day, MakeTime(hour, minute));
    DayOf(day, MakeTime(hour, minute));
    HourOf(24 * day + hour, minute * MS_PER_MINUTE);
    assert t == (24 * day + hour) * MS_PER_HOUR + minute * MS_PER_MINUTE;
    MinuteOf(60 * (24 * day + hour) + minute);
    assert t == (60 * (24 * day + hour) + minute) * MS_PER_MINUTE;
  }

  lemma DayOf(day: int, rest: int)
    requires 0 <= rest < MS_PER_DAY
    ensures (day * MS_PER_DAY + rest) / MS_PER_DAY == day
  {
  }

  lemma HourOf(hours: int, rest: int)
    requires 0 <= rest < MS_PER_HOUR
    ensures (hours * MS_PER_HOUR + rest) / MS_PER_HOUR == hours
  {
  }

  lemma MinuteOf(minutes: int)
    ensures (minutes * MS_PER_MINUTE) / MS_PER_MINUTE == minutes
  {
  }

  /** Reading a time value and making it again drops the seconds. */
  lemma MakingWhatWasRead(t: int)
    ensures OnCalendar(WallOf(t)) && TimeOf(WallOf(t)) == t - t % MS_PER_MINUTE
  {
    ClockOf(t);
    var w := WallOf(t);
    MakingTheDate(w.year, w.month, w.day, t / MS_PER_DAY);
  }

  lemma MakingTheDate(y: int, m: int, date: int, day: int)
    requires y == YearFromDay(day) && m == MonthOf(day) && date == DayWithinYear(day) - MonthStart(Leap(y), m) + 1
    ensures 1 <= date <= DaysInMonth(y, m) && MakeDay(y, m, date) == day
  {
    assert y + m / 12 == y && m % 12 == m;
  }

  lemma MonthIsUnique(leap: bool, n: int, a: int, b: int)
    requires 0 <= a < 12 && MonthStart(leap, a) <= n < MonthStart(leap, a + 1)
    requires 0 <= b < 12 && MonthStart(leap, b) <= n < MonthStart(leap, b + 1)
    ensures a == b
  {
    if a < b { MonthsAscend(leap, a, b); }
    if b < a { MonthsAscend(leap, b, a); }
  }

  lemma MakingDay(y: int, m: int, date: int)
    requires 0 <= m < 12
    ensures MakeDay(y, m, date) == DayFromYear(y) + MonthStart(Leap(y), m) + date - 1
  {
    assert y + m / 12 == y && m % 12 == m;
  }

  lemma YearOfDay(y: int, n: int)
    requires 0 <= n < MonthStart(Leap(y), 12)
    ensures YearFromDay(DayFromYear(y) + n) == y
  {
    assert MonthStart(Leap(y), 12) == DaysInYear(y);
    var day := DayFromYear(y) + n;
    assert day < DayFromYear(y + 1) by { YearLength(y); }
    YearIsUnique(day, y);
  }

  lemma DayWithinBounds(y: int, m: int, date: int)
    requires 0 <= m < 12 && 1 <= date <= DaysInMonth(y, m)
    ensures 0 <= MonthStart(Leap(y), m) + date - 1 < MonthStart(Leap(y), 12)
  {
    if m < 11 { MonthsAscend(Leap(y), m + 1, 12); }
  }

  lemma YearOfMade(y: int, m: int, date: int)
    requires 0 <= m < 12 && 1 <= date <= DaysInMonth(y, m)
    ensures YearFromDay(MakeDay(y, m, date)) == y
    ensures MakeDay(y, m, date) == DayFromYear(y) + MonthStart(Leap(y), m) + date - 1
  {
    MakingDay(y, m, date);
    DayWithinBounds(y, m, date);
    YearOfDay(y, MonthStart(Leap(y), m) + date - 1);
  }

  lemma DateOfMade(y: int, m: int, date: int)
    requires 0 <= m < 12 && 1 <= date <= DaysInMonth(y, m)
    ensures var day := MakeDay(y, m, date);
      YearFromDay(day) == y && MonthOf(day) == m && DayWithinYear(day) - MonthStart(Leap(y), m) + 1 == date
  {
    var day := MakeDay(y, m, date);
    YearOfMade(y, m, date);
    MonthIsUnique(Leap(y), DayWithinYear(day), MonthOf(day), m);
  }

  /** Making a time value and reading it again. */
  lemma ReadingWhatWasMade(w: Wall)
    requires OnCalendar(w)
    ensures WallOf(TimeOf(w)) == w
  {
    ClockOfMade(MakeDay(w.year, w.month, w.day), w.hour, w.minute);
    DateOfMade(w.year, w.month, w.day);
  }
}
