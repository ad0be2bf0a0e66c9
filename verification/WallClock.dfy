/**
 * Wall clock fields of the billing forms (src/domain/billing.ts): instants
 * printed and parsed as datetime-local values at a fixed offset, and the start
 * of the next month. An ISO string stands for the time value it denotes.
 */
module WallClock {
  import opened Lists
  import opened Calendar
  import opened PolicyText

  /** Date.UTC takes the years 0 to 99 for 1900 to 1999. */
  function FullYear(y: int): int {
    if 0 <= y <= 99 then 1900 + y else y
  }

  function DateUtc(y: int, m: int, date: int, hour: int, minute: int): Option<TimeValue> {
    TimeClip(MakeDate(MakeDay(FullYear(y), m, date), MakeTime(hour, minute)))
  }

  // ---- Datetime-local values -----------------------------------------------------------

  function Pad2(n: nat): string {
    if n < 10 then "0" + Decimal(n) else Decimal(n)
  }

  function YearText(y: int): string {
    if y < 0 then "-" + Decimal(-y) else Decimal(y)
  }

  function Assemble(y: string, m: string, d: string, h: string, i: string): string {
    y + "-" + m + "-" + d + "T" + h + ":" + i
  }

  function Print(w: Wall): string
    requires OnCalendar(w)
  {
    Assemble(YearText(w.year), Pad2(w.month + 1), Pad2(w.day), Pad2(w.hour), Pad2(w.minute))
  }

  /** `at` is what Date.parse makes of the ISO string, if anything. */
  function ToDatetimeLocalValue(at: Option<TimeValue>, offsetMinutes: int): string {
    if at.None? then "" else PrintWall(Shift(at.value, offsetMinutes))
  }

  function Shift(at: int, offsetMinutes: int): int { at + offsetMinutes * MS_PER_MINUTE }

  function PrintWall(wall: int): string {
    if TimeClip(wall).None? then "NaN-NaN-NaNTNaN:NaN"
    else
      MakingWhatWasRead(wall);
      Print(WallOf(wall))
  }

  /** The pattern of a datetime-local value. */
  predicate Matches(s: string) {
    && |s| == 16 && s[4] == '-' && s[7] == '-' && s[10] == 'T' && s[13] == ':'
    && AllDigits(s[..4]) && AllDigits(s[5..7]) && AllDigits(s[8..10]) && AllDigits(s[11..13]) && AllDigits(s[14..])
  }

  function Fields(s: string): Wall
    requires Matches(s)
  {
    Wall(Value(s[..4]), Value(s[5..7]) - 1, Value(s[8..10]), Value(s[11..13]), Value(s[14..]))
  }

  /** toISOString of an instant outside the range of dates throws. */
  datatype Instant = At(time: TimeValue) | Rejected | RangeError

  function FromDatetimeLocalValue(value: string, offsetMinutes: int): Instant {
    if Matches(Trim(value)) then FromReading(Fields(Trim(value)), offsetMinutes) else Rejected
  }

  function FromReading(w: Wall, offsetMinutes: int): Instant {
    var utc := Utc(w);
    if utc.None? then Rejected
    else
      var at := TimeClip(Shift(utc.value, -offsetMinutes));
      if at.None? then RangeError else At(at.value)
  }

  /** The instant a reading denotes at offset 0, unless reading it again gives something else. */
  function Utc(w: Wall): Option<TimeValue> {
    if w.month < 0 || w.month > 11 || w.day < 1 || w.day > 31 || w.hour > 23 || w.minute > 59 then None
    else
      var utc := DateUtc(w.year, w.month, w.day, w.hour, w.minute);
      if utc.None? || WallOf(utc.value) != w then None else utc
  }

  // ---- Digits of a fixed width ---------------------------------------------------------

  function Pow10(k: nat): nat { if k == 0 then 1 else 10 * Pow10(k - 1) }

  lemma {:induction false} ValueBound(s: string)
    requires AllDigits(s)
    ensures Value(s) < Pow10(|s|)
  {
    if s != "" { ValueBound(s[..|s| - 1]); }
  }

  lemma {:induction false} DecimalIsTight(n: nat)
    ensures n >= Pow10(|Decimal(n)| - 1) || n == 0
    ensures n < Pow10(|Decimal(n)|)
  {
    if n >= 10 {
      DecimalIsTight(n / 10);
      assert |Decimal(n)| == |Decimal(n / 10)| + 1;
    }
  }

  lemma {:induction false} NoLeadingZero(s: string)
    requires s != "" && AllDigits(s) && s[0] != '0'
    ensures Value(s) >= Pow10(|s| - 1) >= 1
  {
    var front := s[..|s| - 1];
    if front == "" {
      assert Value(s) == s[0] as int - '0' as int;
    } else {
      NoLeadingZero(front);
    }
  }

  lemma AppendDigit(n: nat, c: char)
    requires n > 0 && IsDigit(c)
    ensures Decimal(10 * n + (c as int - '0' as int)) == Decimal(n) + [c]
  {
    var m := 10 * n + (c as int - '0' as int);
    assert m / 10 == n && m % 10 == c as int - '0' as int;
  }

  lemma OneDigit(c: char)
    requires IsDigit(c)
    ensures Value([c]) == c as int - '0' as int && Decimal(Value([c])) == [c]
  {
    assert [c][..0] == "";
  }

  /** A digit string without a leading zero is the decimal of its value. */
  lemma {:induction false} DecimalOfValue(s: string)
    requires s != "" && AllDigits(s) && (s[0] != '0' || |s| == 1)
    ensures Decimal(Value(s)) == s
  {
    var front, last := s[..|s| - 1], s[|s| - 1];
    assert s == front + [last];
    if front == "" {
      OneDigit(last);
      assert s == [last];
    } else {
      DecimalOfValue(front);
      NoLeadingZero(front);
      AppendDigit(Value(front), last);
    }
  }

  lemma ValueOfTwo(a: char, b: char)
    requires IsDigit(a) && IsDigit(b)
    ensures Value([a, b]) == 10 * (a as int - '0' as int) + (b as int - '0' as int)
  {
    OneDigit(a);
    assert [a, b][..1] == [a];
  }

  lemma Pad2OfValue(s: string)
    requires |s| == 2 && AllDigits(s)
    ensures Pad2(Value(s)) == s && Value(s) < 100
  {
    assert s == [s[0], s[1]];
    ValueOfTwo(s[0], s[1]);
    if s[0] == '0' { OneDigit(s[1]); } else { DecimalOfValue(s); }
  }

  lemma ValueOfPad2(n: nat)
    requires n < 100
    ensures |Pad2(n)| == 2 && AllDigits(Pad2(n)) && Value(Pad2(n)) == n
  {
    DecimalRoundTrip(n);
    if n < 10 {
      var digit := Decimal(n)[0];
      assert Decimal(n) == [digit] && Pad2(n) == ['0', digit];
      OneDigit(digit);
      ValueOfTwo('0', digit);
    } else {
      assert |Decimal(n / 10)| == 1;
    }
  }

  lemma {:induction false} Pow10Grows(a: nat, b: nat)
    requires a <= b
    ensures Pow10(a) <= Pow10(b)
    decreases b
  {
    if a < b { Pow10Grows(a, b - 1); }
  }

  lemma FourDigits(n: nat)
    ensures |Decimal(n)| == 4 <==> 1000 <= n <= 9999
  {
    DecimalIsTight(n);
    assert Pow10(3) == 1000 && Pow10(4) == 10_000;
    if |Decimal(n)| <= 3 { Pow10Grows(|Decimal(n)|, 3); }
    if |Decimal(n)| >= 5 { Pow10Grows(4, |Decimal(n)| - 1); }
  }

  // ---- Printing and matching -----------------------------------------------------------

  lemma AssembledParts(y: string, m: string, d: string, h: string, i: string)
    requires |m| == |d| == |h| == |i| == 2
    ensures var s := Assemble(y, m, d, h, i);
      |s| == |y| + 12 && s[..|y|] == y && (|y| > 0 ==> s[0] == y[0]) && s[|s| - 1] == i[1]
    ensures var s := Assemble(y, m, d, h, i); |y| == 4 ==>
      && s[4] == '-' && s[7] == '-' && s[10] == 'T' && s[13] == ':'
      && s[..4] == y && s[5..7] == m && s[8..10] == d && s[11..13] == h && s[14..] == i
  {
  }

  lemma PrintedParts(w: Wall)
    requires OnCalendar(w)
    ensures var s, y := Print(w), YearText(w.year);
      |s| == |y| + 12 && s[..|y|] == y && s[0] == y[0] && s[|s| - 1] == Pad2(w.minute)[1]
    ensures var s, y := Print(w), YearText(w.year); |y| == 4 ==>
      && s[4] == '-' && s[7] == '-' && s[10] == 'T' && s[13] == ':'
      && s[..4] == y && s[5..7] == Pad2(w.month + 1) && s[8..10] == Pad2(w.day)
      && s[11..13] == Pad2(w.hour) && s[14..] == Pad2(w.minute)
    ensures |Pad2(w.minute)| == 2 && AllDigits(Pad2(w.minute))
  {
    PaddedParts(w);
    AssembledParts(YearText(w.year), Pad2(w.month + 1), Pad2(w.day), Pad2(w.hour), Pad2(w.minute));
  }

  lemma FourDigitYears(w: Wall)
    requires OnCalendar(w) && 1000 <= w.year <= 9999
    ensures Matches(Print(w)) && Fields(Print(w)) == w
  {
    FourDigits(w.year);
    assert AllDigits(YearText(w.year)) && Value(YearText(w.year)) == w.year by { DecimalRoundTrip(w.year); }
    PrintedParts(w);
    PaddedParts(w);
  }

  lemma PaddedParts(w: Wall)
    requires OnCalendar(w)
    ensures |Pad2(w.month + 1)| == 2 && AllDigits(Pad2(w.month + 1)) && Value(Pad2(w.month + 1)) == w.month + 1
    ensures |Pad2(w.day)| == 2 && AllDigits(Pad2(w.day)) && Value(Pad2(w.day)) == w.day
    ensures |Pad2(w.hour)| == 2 && AllDigits(Pad2(w.hour)) && Value(Pad2(w.hour)) == w.hour
    ensures |Pad2(w.minute)| == 2 && AllDigits(Pad2(w.minute)) && Value(Pad2(w.minute)) == w.minute
  {
    ValueOfPad2(w.month + 1);
    ValueOfPad2(w.day);
    ValueOfPad2(w.hour);
    ValueOfPad2(w.minute);
  }

  lemma OtherYears(w: Wall)
    requires OnCalendar(w) && !(1000 <= w.year <= 9999)
    ensures !Matches(Print(w))
  {
    var s := Print(w);
    PrintedParts(w);
    if w.year < 0 {
      assert |s| == 16 ==> s[..4][0] == '-';
    } else {
      FourDigits(w.year);
    }
  }

  /** A reading prints as a datetime-local value exactly in the years of four digits, and then parses back. */
  lemma FieldsOfPrint(w: Wall)
    requires OnCalendar(w)
    ensures Matches(Print(w)) <==> 1000 <= w.year <= 9999
    ensures Matches(Print(w)) ==> Fields(Print(w)) == w
  {
    if 1000 <= w.year <= 9999 { FourDigitYears(w); } else { OtherYears(w); }
  }

  lemma SameParts(s: string, t: string)
    requires |s| == 16 && |t| == 16 && s[4] == t[4] && s[7] == t[7] && s[10] == t[10] && s[13] == t[13]
    requires s[..4] == t[..4] && s[5..7] == t[5..7] && s[8..10] == t[8..10] && s[11..13] == t[11..13] && s[14..] == t[14..]
    ensures s == t
  {
    assert s == s[..4] + [s[4]] + s[5..7] + [s[7]] + s[8..10] + [s[10]] + s[11..13] + [s[13]] + s[14..];
    assert t == t[..4] + [t[4]] + t[5..7] + [t[7]] + t[8..10] + [t[10]] + t[11..13] + [t[13]] + t[14..];
  }

  lemma YearTextOfValue(s: string)
    requires |s| == 4 && AllDigits(s) && Value(s) >= 1000
    ensures YearText(Value(s)) == s
  {
    assert Pow10(3) == 1000;
    if s[0] == '0' { LeadingZero(s); }
    DecimalOfValue(s);
  }

  lemma PrintOfFields(s: string)
    requires Matches(s) && OnCalendar(Fields(s)) && Fields(s).year >= 1000
    ensures Print(Fields(s)) == s
  {
    YearTextOfValue(s[..4]);
    PrintedParts(Fields(s));
    Pad2OfValue(s[5..7]);
    Pad2OfValue(s[8..10]);
    Pad2OfValue(s[11..13]);
    Pad2OfValue(s[14..]);
    SameParts(Print(Fields(s)), s);
  }

  lemma {:induction false} LeadingZero(s: string)
    requires s != "" && AllDigits(s) && s[0] == '0'
    ensures Value(s) < Pow10(|s| - 1)
  {
    if |s| == 1 { OneDigit(s[0]); assert s == [s[0]]; } else { LeadingZero(s[..|s| - 1]); }
  }

  lemma PrintIsTight(w: Wall)
    requires OnCalendar(w)
    ensures Trim(Print(w)) == Print(w)
  {
    PrintedParts(w);
    assert w.year >= 0 ==> IsDigit(YearText(w.year)[0]);
    DigitsArePlain(Pad2(w.minute)[1]);
    TrimIsTight(Print(w));
  }

  // ---- The two conversions are inverse ---------------------------------------------------

  lemma YearAtLeast(y: int, m: int, date: int, hour: int, minute: int)
    requires 0 <= m < 12 && date >= 1 && 0 <= hour && 0 <= minute
    ensures WallOf(MakeDate(MakeDay(y, m, date), MakeTime(hour, minute))).year >= y
  {
    var t := MakeDate(MakeDay(y, m, date), MakeTime(hour, minute));
    MakingDay(y, m, date);
    assert MakeDay(y, m, date) <= t / MS_PER_DAY;
    YearIsUnique(t / MS_PER_DAY, y);
  }

  lemma YearsBeforeTenThousand(y: int)
    requires 0 <= y <= 10_000
    ensures -1_000_000 <= DayFromYear(y) <= 4_000_000
  {
    DayFromYearIsTheFormula(y);
  }

  lemma FourDigitYearsAreDates(w: Wall)
    requires OnCalendar(w) && 0 <= w.year <= 9999
    ensures -MAX_TIME <= TimeOf(w) <= MAX_TIME
  {
    MakingDay(w.year, w.month, w.day);
    YearsBeforeTenThousand(w.year);
  }

  lemma UtcOfGoodReading(w: Wall)
    requires OnCalendar(w) && 100 <= w.year <= 9999
    ensures Utc(w) == Some(TimeOf(w))
  {
    ReadingWhatWasMade(w);
    FourDigitYearsAreDates(w);
    assert DateUtc(w.year, w.month, w.day, w.hour, w.minute) == Some(TimeOf(w));
    assert w.day <= 31 by { MonthsAscend(Leap(w.year), w.month, 12); }
  }

  lemma UtcOfBadReading(w: Wall)
    requires w.year >= 0 && 0 <= w.hour && 0 <= w.minute && !(OnCalendar(w) && w.year >= 100)
    ensures Utc(w) == None
  {
    if 0 <= w.month <= 11 && w.day >= 1 {
      var t := MakeDate(MakeDay(FullYear(w.year), w.month, w.day), MakeTime(w.hour, w.minute));
      if w.year < 100 { YearAtLeast(1900 + w.year, w.month, w.day, w.hour, w.minute); } else { MakingWhatWasRead(t); }
    }
  }

  /** A reading denotes an instant exactly when it is on the calendar, of the year 100 or later. */
  lemma UtcOfReading(w: Wall)
    requires 0 <= w.year <= 9999 && 0 <= w.hour && 0 <= w.minute
    ensures Utc(w) == if OnCalendar(w) && w.year >= 100 then Some(TimeOf(w)) else None
  {
    if OnCalendar(w) && w.year >= 100 { UtcOfGoodReading(w); } else { UtcOfBadReading(w); }
  }

  lemma FieldsAreSmall(s: string)
    requires Matches(s)
    ensures var w := Fields(s); 0 <= w.year <= 9999 && 0 <= w.hour && 0 <= w.minute
  {
    ValueBound(s[..4]);
    assert Pow10(4) == 10_000;
  }

  /** A value that denotes a reading on the calendar, of the year 100 or later. */
  predicate DenotesReading(value: string) {
    Matches(Trim(value)) && OnCalendar(Fields(Trim(value))) && Fields(Trim(value)).year >= 100
  }

  /**
   * Exactly the values that denote no reading are rejected; of the others, those
   * whose instant is out of range throw, and the rest give that instant.
   */
  lemma AcceptsTheCalendar(value: string, offsetMinutes: int)
    ensures FromDatetimeLocalValue(value, offsetMinutes) == Rejected <==> !DenotesReading(value)
    ensures FromDatetimeLocalValue(value, offsetMinutes) == RangeError <==>
      DenotesReading(value) && TimeClip(Shift(TimeOf(Fields(Trim(value))), -offsetMinutes)).None?
    ensures FromDatetimeLocalValue(value, offsetMinutes).At? <==>
      DenotesReading(value) && -MAX_TIME <= Shift(TimeOf(Fields(Trim(value))), -offsetMinutes) <= MAX_TIME
    ensures FromDatetimeLocalValue(value, offsetMinutes).At? ==>
      FromDatetimeLocalValue(value, offsetMinutes).time == Shift(TimeOf(Fields(Trim(value))), -offsetMinutes)
  {
    if Matches(Trim(value)) {
      FieldsAreSmall(Trim(value));
      UtcOfReading(Fields(Trim(value)));
    }
  }

  lemma ShiftBack(t: int, offsetMinutes: int)
    ensures Shift(Shift(t, offsetMinutes), -offsetMinutes) == t
    ensures Shift(Shift(t, -offsetMinutes), offsetMinutes) == t
  {
  }

  lemma AcceptedInstant(w: Wall, offsetMinutes: int)
    requires OnCalendar(w) && 100 <= w.year <= 9999 && FromReading(w, offsetMinutes).At?
    ensures ToDatetimeLocalValue(Some(FromReading(w, offsetMinutes).time), offsetMinutes) == Print(w)
  {
    UtcOfGoodReading(w);
    ShiftBack(TimeOf(w), offsetMinutes);
    assert FromReading(w, offsetMinutes).time == Shift(TimeOf(w), -offsetMinutes);
    PrintedReading(w);
  }

  lemma PrintedReading(w: Wall)
    requires OnCalendar(w) && 0 <= w.year <= 9999
    ensures PrintWall(TimeOf(w)) == Print(w)
  {
    ReadingWhatWasMade(w);
    FourDigitYearsAreDates(w);
  }

  /** A value accepted by the form is printed back as typed, but for white space around it, exactly from the year 1000 on. */
  lemma AcceptedPrintsBack(value: string, offsetMinutes: int)
    requires FromDatetimeLocalValue(value, offsetMinutes).At?
    ensures var at := FromDatetimeLocalValue(value, offsetMinutes).time;
      ToDatetimeLocalValue(Some(at), offsetMinutes) == Trim(value) <==> Fields(Trim(value)).year >= 1000
  {
    var s := Trim(value);
    AcceptsTheCalendar(value, offsetMinutes);
    FieldsAreSmall(s);
    AcceptedInstant(Fields(s), offsetMinutes);
    FieldsOfPrint(Fields(s));
    if Fields(s).year >= 1000 { PrintOfFields(s); }
  }

  lemma InvalidParsesBack(offsetMinutes: int)
    ensures FromDatetimeLocalValue("NaN-NaN-NaNTNaN:NaN", offsetMinutes) == Rejected
  {
    var s := "NaN-NaN-NaNTNaN:NaN";
    TrimIsTight(s);
    assert !IsDigit(s[..4][0]);
  }

  /** The instant of the minute. */
  function ToMinute(at: int): int { at - at % MS_PER_MINUTE }

  lemma ShiftKeepsSeconds(at: int, offsetMinutes: int)
    ensures ToMinute(Shift(at, offsetMinutes)) == Shift(ToMinute(at), offsetMinutes)
    ensures -MAX_TIME <= at <= MAX_TIME ==> -MAX_TIME <= ToMinute(at) <= MAX_TIME
  {
    assert at == MS_PER_MINUTE * (at / MS_PER_MINUTE) + at % MS_PER_MINUTE;
    assert Shift(at, offsetMinutes) == MS_PER_MINUTE * (at / MS_PER_MINUTE + offsetMinutes) + at % MS_PER_MINUTE;
  }

  lemma ReadingOfInstant(at: TimeValue, offsetMinutes: int)
    requires TimeClip(Shift(at, offsetMinutes)).Some? && 100 <= WallOf(Shift(at, offsetMinutes)).year <= 9999
    ensures TimeClip(ToMinute(at)).Some?
    ensures FromReading(WallOf(Shift(at, offsetMinutes)), offsetMinutes) == At(ToMinute(at))
  {
    var wall := Shift(at, offsetMinutes);
    MakingWhatWasRead(wall);
    UtcOfGoodReading(WallOf(wall));
    ShiftKeepsSeconds(at, offsetMinutes);
    ShiftBack(ToMinute(at), offsetMinutes);
  }

  predicate InFourDigitYears(t: int) {
    TimeClip(t).Some? && 1000 <= WallOf(t).year <= 9999
  }

  lemma WallParsesBack(wall: int, offsetMinutes: int)
    ensures FromDatetimeLocalValue(PrintWall(wall), offsetMinutes)
         == if InFourDigitYears(wall) then FromReading(WallOf(wall), offsetMinutes) else Rejected
  {
    if TimeClip(wall).None? {
      InvalidParsesBack(offsetMinutes);
    } else {
      MakingWhatWasRead(wall);
      PrintIsTight(WallOf(wall));
      FieldsOfPrint(WallOf(wall));
    }
  }

  /** Parsing a printed instant gives it back to the minute, exactly in the wall clock years of four digits. */
  lemma PrintedParsesBack(at: TimeValue, offsetMinutes: int)
    ensures var r := FromDatetimeLocalValue(ToDatetimeLocalValue(Some(at), offsetMinutes), offsetMinutes);
      if InFourDigitYears(Shift(at, offsetMinutes)) then r.At? && r.time == ToMinute(at) else r == Rejected
  {
    WallParsesBack(Shift(at, offsetMinutes), offsetMinutes);
    if InFourDigitYears(Shift(at, offsetMinutes)) { ReadingOfInstant(at, offsetMinutes); }
  }

  lemma ValueOfFour(a: char, b: char, c: char, d: char)
    requires IsDigit(a) && IsDigit(b) && IsDigit(c) && IsDigit(d)
    ensures Value([a, b, c, d]) == 100 * Value([a, b]) + Value([c, d])
  {
    assert [a, b, c, d][..3] == [a, b, c] && [a, b, c][..2] == [a, b];
    ValueOfTwo(c, d);
  }

  lemma FieldsOfParts(y: string, m: string, d: string, h: string, i: string)
    requires |y| == 4 && |m| == |d| == |h| == |i| == 2
    requires AllDigits(y) && AllDigits(m) && AllDigits(d) && AllDigits(h) && AllDigits(i)
    ensures var s := Assemble(y, m, d, h, i);
      Matches(s) && Fields(s) == Wall(Value(y), Value(m) - 1, Value(d), Value(h), Value(i)) && Trim(s) == s
  {
    AssembledParts(y, m, d, h, i);
    var s := Assemble(y, m, d, h, i);
    DigitsArePlain(y[0]);
    DigitsArePlain(i[1]);
    TrimIsTight(s);
  }

  lemma FieldsOfEarlyYear()
    ensures var s := "0999-12-31T23:59"; Trim(s) == s && Matches(s) && Fields(s) == Wall(999, 11, 31, 23, 59)
  {
    ValueOfTwo('0', '9'); ValueOfTwo('9', '9'); ValueOfFour('0', '9', '9', '9');
    ValueOfTwo('1', '2'); ValueOfTwo('3', '1'); ValueOfTwo('2', '3'); ValueOfTwo('5', '9');
    FieldsOfParts(['0', '9', '9', '9'], ['1', '2'], ['3', '1'], ['2', '3'], ['5', '9']);
    assert "0999-12-31T23:59" == Assemble(['0', '9', '9', '9'], ['1', '2'], ['3', '1'], ['2', '3'], ['5', '9']);
  }

  /** An accepted value of a year before 1000 prints differently. */
  lemma EarlyYearPrintsDifferently()
    ensures FromDatetimeLocalValue("0999-12-31T23:59", 0).At?
    ensures ToDatetimeLocalValue(Some(FromDatetimeLocalValue("0999-12-31T23:59", 0).time), 0) != "0999-12-31T23:59"
  {
    var s := "0999-12-31T23:59";
    FieldsOfEarlyYear();
    UtcOfGoodReading(Fields(s));
    FourDigitYearsAreDates(Fields(s));
    AcceptedPrintsBack(s, 0);
  }

  // ---- The next month ------------------------------------------------------------------

  /** None is an invalid date. */
  function NextCalendarMonthStart(now: TimeValue, offsetMinutes: int): Option<TimeValue> {
    var wall := Shift(now, offsetMinutes);
    if TimeClip(wall).None? then None
    else
      var utc := DateUtc(WallOf(wall).year, WallOf(wall).month + 1, 1, 0, 0);
      if utc.None? then None else TimeClip(Shift(utc.value, -offsetMinutes))
  }

  /** Midnight of the first day of the month after a reading's. */
  function NextMonth(w: Wall): Wall {
    if w.month == 11 then Wall(w.year + 1, 0, 1, 0, 0) else Wall(w.year, w.month + 1, 1, 0, 0)
  }

  lemma FirstOfNextMonth(y: int, m: int)
    requires 0 <= m < 12
    ensures MakeDay(y, m + 1, 1) == DayFromYear(y) + MonthStart(Leap(y), m + 1)
    ensures MakeDay(y, m + 1, 1) == MakeDay(if m == 11 then y + 1 else y, if m == 11 then 0 else m + 1, 1)
  {
    YearLength(y);
    if m == 11 {
      assert y + 12 / 12 == y + 1 && 12 % 12 == 0;
      MakingDay(y + 1, 0, 1);
    } else {
      MakingDay(y, m + 1, 1);
    }
  }

  lemma OneDayNextMonth(y: int, m: int)
    requires 0 <= m < 12
    ensures TimeOf(NextMonth(Wall(y, m, 1, 0, 0))) == MakeDay(y, m + 1, 1) * MS_PER_DAY
  {
    FirstOfNextMonth(y, m);
  }

  lemma MonthsHaveAFirst(y: int, m: int)
    requires 0 <= m < 12
    ensures OnCalendar(NextMonth(Wall(y, m, 1, 0, 0)))
  {
    if m == 11 { MonthsAscend(Leap(y + 1), 0, 12); } else { MonthsAscend(Leap(y), m + 1, 12); }
  }

  /** How far from day `day` the month after its own starts. */
  lemma NextMonthIsNear(day: int)
    ensures day < MakeDay(YearFromDay(day), MonthOf(day) + 1, 1) <= day + 31
  {
    FirstOfNextMonth(YearFromDay(day), MonthOf(day));
    MonthsAscend(Leap(YearFromDay(day)), MonthOf(day), 12);
  }

  /** 1900 years off, it is far. */
  lemma Far(day: int)
    requires 0 <= YearFromDay(day) <= 99
    ensures MakeDay(YearFromDay(day) + 1900, MonthOf(day) + 1, 1) > day + 600_000
  {
    FirstOfNextMonth(YearFromDay(day) + 1900, MonthOf(day));
    YearsAscend(YearFromDay(day) + 1, YearFromDay(day) + 1900);
  }

  lemma MonthStartInstant(now: TimeValue, offsetMinutes: int)
    requires NextCalendarMonthStart(now, offsetMinutes).Some?
    ensures var w := WallOf(Shift(now, offsetMinutes));
      && 0 <= w.month < 12
      && Shift(NextCalendarMonthStart(now, offsetMinutes).value, offsetMinutes)
         == MakeDay(FullYear(w.year), w.month + 1, 1) * MS_PER_DAY
  {
    var w := WallOf(Shift(now, offsetMinutes));
    ShiftBack(MakeDate(MakeDay(FullYear(w.year), w.month + 1, 1), MakeTime(0, 0)), offsetMinutes);
  }

  /** It is the midnight, by the wall clock, of the first day of the following month; of 1900 years later in the years 0 to 99. */
  lemma NextMonthStartIsMidnight(now: TimeValue, offsetMinutes: int)
    requires NextCalendarMonthStart(now, offsetMinutes).Some?
    ensures var w := WallOf(Shift(now, offsetMinutes));
      WallOf(Shift(NextCalendarMonthStart(now, offsetMinutes).value, offsetMinutes)) == NextMonth(w.(year := FullYear(w.year)))
  {
    var w := WallOf(Shift(now, offsetMinutes));
    var y, m := FullYear(w.year), w.month;
    MonthStartInstant(now, offsetMinutes);
    ReadingNextMonth(y, m);
    assert NextMonth(w.(year := y)) == NextMonth(Wall(y, m, 1, 0, 0));
  }

  lemma ReadingNextMonth(y: int, m: int)
    requires 0 <= m < 12
    ensures WallOf(MakeDay(y, m + 1, 1) * MS_PER_DAY) == NextMonth(Wall(y, m, 1, 0, 0))
  {
    OneDayNextMonth(y, m);
    MonthsHaveAFirst(y, m);
    ReadingWhatWasMade(NextMonth(Wall(y, m, 1, 0, 0)));
  }

  /** It lies strictly after now, and within 31 days exactly when the wall clock is not in the years 0 to 99. */
  lemma NextMonthStartIsNext(now: TimeValue, offsetMinutes: int)
    requires NextCalendarMonthStart(now, offsetMinutes).Some?
    ensures var r := NextCalendarMonthStart(now, offsetMinutes).value;
      now < r && (r <= now + 31 * MS_PER_DAY <==> !(0 <= WallOf(Shift(now, offsetMinutes)).year <= 99))
  {
    var wall, r := Shift(now, offsetMinutes), NextCalendarMonthStart(now, offsetMinutes).value;
    var day := wall / MS_PER_DAY;
    MonthStartInstant(now, offsetMinutes);
    if 0 <= YearFromDay(day) <= 99 { Far(day); } else { NextMonthIsNear(day); }
    DaysApart(wall, Shift(r, offsetMinutes), MakeDay(FullYear(YearFromDay(day)), MonthOf(day) + 1, 1));
    assert Shift(r, offsetMinutes) - wall == r - now;
  }

  /** Comparing an instant with a later midnight is comparing days. */
  lemma DaysApart(t: int, midnight: int, day: int)
    requires midnight == day * MS_PER_DAY
    ensures t / MS_PER_DAY < day ==> t < midnight
    ensures day <= t / MS_PER_DAY + 31 ==> midnight <= t + 31 * MS_PER_DAY
    ensures t / MS_PER_DAY + 32 < day ==> midnight > t + 31 * MS_PER_DAY
  {
  }

  lemma FebruaryByDateUtc(y: int)
    requires 0 <= y <= 99
    ensures var february := Wall(1900 + y, 1, 1, 0, 0);
      DateUtc(y, 1, 1, 0, 0) == Some(TimeOf(february)) && WallOf(TimeOf(february)) == february
  {
    var february := Wall(1900 + y, 1, 1, 0, 0);
    MonthsAscend(Leap(1900 + y), 1, 12);
    FourDigitYearsAreDates(february);
    ReadingWhatWasMade(february);
  }

  lemma NextMonthAtOffsetZero(now: TimeValue)
    ensures var w := WallOf(now); NextCalendarMonthStart(now, 0) == DateUtc(w.year, w.month + 1, 1, 0, 0)
  {
  }

  /** At the start of January of any year from 0 to 99, the "next month" is February, 1900 years later. */
  lemma JanuaryOfEarlyYears(y: int) returns (now: TimeValue)
    requires 0 <= y <= 99
    ensures WallOf(now) == Wall(y, 0, 1, 0, 0) && NextCalendarMonthStart(now, 0).Some?
    ensures WallOf(NextCalendarMonthStart(now, 0).value) == Wall(1900 + y, 1, 1, 0, 0)
  {
    var january := Wall(y, 0, 1, 0, 0);
    FourDigitYearsAreDates(january);
    now := TimeOf(january);
    ReadingWhatWasMade(january);
    NextMonthAtOffsetZero(now);
    FebruaryByDateUtc(y);
  }

  /** An instant whose next month is off by 1900 years. */
  lemma NextMonthOfTheYear50()
    ensures exists now: TimeValue ::
              && WallOf(now) == Wall(50, 0, 1, 0, 0) && NextCalendarMonthStart(now, 0).Some?
              && WallOf(NextCalendarMonthStart(now, 0).value) == Wall(1950, 1, 1, 0, 0)
  {
    var now := JanuaryOfEarlyYears(50);
  }

  // ---- When there is a next month --------------------------------------------------------

  /** Months counted from the year 0. */
  function MonthIndex(y: int, m: int): int { 12 * y + m }

  function MonthOfTime(t: int): int { MonthIndex(WallOf(t).year, WallOf(t).month) }

  lemma MonthStartsInOrder(y: int, m: int, z: int, n: int)
    requires 0 <= m < 12 && 0 <= n < 12 && MonthIndex(y, m) < MonthIndex(z, n)
    ensures DayFromYear(y) + MonthStart(Leap(y), m + 1) <= DayFromYear(z) + MonthStart(Leap(z), n)
  {
    if y == z {
      if m + 1 < n { MonthsAscend(Leap(y), m + 1, n); }
    } else {
      assert y < z;
      YearLength(y);
      if m < 11 { MonthsAscend(Leap(y), m + 1, 12); }
      if y + 1 < z { YearsAscend(y + 1, z); }
      if n > 0 { MonthsAscend(Leap(z), 0, n); }
    }
  }

  lemma StartedOnDay(day: int, y: int, m: int)
    requires 0 <= m < 12
    ensures MakeDay(y, m, 1) <= day <==> MonthIndex(y, m) <= MonthIndex(YearFromDay(day), MonthOf(day))
  {
    var z, n := YearFromDay(day), MonthOf(day);
    MakingDay(y, m, 1);
    if MonthIndex(y, m) < MonthIndex(z, n) {
      MonthStartsInOrder(y, m, z, n);
      MonthsAscend(Leap(y), m, 12);
    } else if MonthIndex(y, m) > MonthIndex(z, n) {
      MonthStartsInOrder(z, n, y, m);
    }
  }

  /** A month has started by an instant exactly when it is not after the instant's own month. */
  lemma StartedByExactly(t: int, y: int, m: int)
    requires 0 <= m < 12
    ensures MakeDay(y, m, 1) * MS_PER_DAY <= t <==> MonthIndex(y, m) <= MonthOfTime(t)
  {
    StartedOnDay(t / MS_PER_DAY, y, m);
    StartedByDay(t, MakeDay(y, m, 1));
  }

  lemma StartedByDay(t: int, day: int)
    ensures day * MS_PER_DAY <= t <==> day <= t / MS_PER_DAY
  {
  }

  /** The last local time that is a date both by the wall clock and at the offset. */
  function LastWall(offsetMinutes: int): int {
    if offsetMinutes >= 0 then MAX_TIME else Shift(MAX_TIME, offsetMinutes)
  }

  /**
   * The result is a date exactly when the wall clock shows one and its month,
   * taken 1900 years later in the years 0 to 99, is before the last one.
   */
  lemma NextMonthExistsExactly(now: TimeValue, offsetMinutes: int)
    ensures NextCalendarMonthStart(now, offsetMinutes).Some? <==>
      && -MAX_TIME <= Shift(now, offsetMinutes) <= MAX_TIME
      && MonthIndex(FullYear(WallOf(Shift(now, offsetMinutes)).year), WallOf(Shift(now, offsetMinutes)).month)
         < MonthOfTime(LastWall(offsetMinutes))
  {
    var wall := Shift(now, offsetMinutes);
    if TimeClip(wall).Some? {
      var y, m := FullYear(WallOf(wall).year), WallOf(wall).month;
      assert 0 <= m < 12 by { MakingWhatWasRead(wall); }
      var start := MakeDay(y, m + 1, 1) * MS_PER_DAY;
      StartIsAfter(wall);
      assert start <= LastWall(offsetMinutes) <==> MonthIndex(y, m) < MonthOfTime(LastWall(offsetMinutes)) by {
        FirstOfNextMonth(y, m);
        if m == 11 { StartedByExactly(LastWall(offsetMinutes), y + 1, 0); } else { StartedByExactly(LastWall(offsetMinutes), y, m + 1); }
      }
      InRange(now, offsetMinutes, start);
    }
  }

  lemma StartIsAfter(wall: int)
    ensures MakeDay(FullYear(WallOf(wall).year), WallOf(wall).month + 1, 1) * MS_PER_DAY > wall
  {
    var day := wall / MS_PER_DAY;
    if 0 <= YearFromDay(day) <= 99 { Far(day); } else { NextMonthIsNear(day); }
  }

  lemma InRange(now: TimeValue, offsetMinutes: int, start: int)
    requires TimeClip(Shift(now, offsetMinutes)).Some? && start > Shift(now, offsetMinutes)
    ensures TimeClip(start).Some? && TimeClip(Shift(start, -offsetMinutes)).Some? <==> start <= LastWall(offsetMinutes)
  {
  }
}
