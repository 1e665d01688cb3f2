/** Gregorian dates: the day number of a date, the date after a date, and their ISO form
    (full-date of section 5.6 and the leap year rule of Appendix C of RFC 3339). */
module CivilDate {

  datatype Date = Date(year: int, month: int, day: int)

  predicate Leap(year: int) {
    (year % 4 == 0 && year % 100 != 0) || year % 400 == 0
  }

  function DaysIn(year: int, month: int): int
    requires 1 <= month <= 12
  {
    if month == 2 then (if Leap(year) then 29 else 28)
    else if month == 4 || month == 6 || month == 9 || month == 11 then 30
    else 31
  }

  predicate Exists(d: Date) {
    1 <= d.month <= 12 && 1 <= d.day <= DaysIn(d.year, d.month)
  }

  // ----- daysFromCivil

  /** Division of the source language, toward zero. */
  function Quotient(a: int, b: int): int
    requires b > 0
  {
    if a >= 0 then a / b else -((-a) / b)
  }

  /** `daysFromCivil`: days since 1970-01-01, counting years from March. */
  function DayNumber(d: Date): int
    requires 1 <= d.month <= 12
  {
    var year := if d.month <= 2 then d.year - 1 else d.year;
    var era := Quotient(if year >= 0 then year else year - 399, 400);
    var yearOfEra := year - era * 400;
    var adjustedMonth := if d.month > 2 then d.month - 3 else d.month + 9;
    var dayOfYear := (153 * adjustedMonth + 2) / 5 + d.day - 1;
    var dayOfEra := yearOfEra * 365 + yearOfEra / 4 - yearOfEra / 100 + dayOfYear;
    era * 146097 + dayOfEra - 719468
  }

  /** Days before the first of March of `year`, without eras. */
  function YearStart(year: int): int {
    365 * year + year / 4 - year / 100 + year / 400
  }

  function MonthStart(month: int): int
    requires 1 <= month <= 12
  {
    (153 * (if month > 2 then month - 3 else month + 9) + 2) / 5
  }

  function MarchYear(d: Date): int {
    if d.month <= 2 then d.year - 1 else d.year
  }

  lemma EraIsFloor(year: int)
    ensures Quotient(if year >= 0 then year else year - 399, 400) == year / 400
  {
  }

  function DaysByYears(d: Date): int
    requires 1 <= d.month <= 12
  {
    YearStart(MarchYear(d)) + MonthStart(d.month) + d.day - 1 - 719468
  }

  lemma DayNumberByYears(d: Date)
    requires 1 <= d.month <= 12
    ensures DayNumber(d) == DaysByYears(d)
  {
    var year := MarchYear(d);
    EraIsFloor(year);
    var era, yearOfEra := year / 400, year % 400;
    assert year == 400 * era + yearOfEra;
    assert year / 4 == 100 * era + yearOfEra / 4;
    assert year / 100 == 4 * era + yearOfEra / 100;
  }

  lemma EveryFourth(year: int)
    ensures year / 4 == (year - 1) / 4 + if year % 4 == 0 then 1 else 0
  {
  }

  lemma EveryHundredth(year: int)
    ensures year / 100 == (year - 1) / 100 + if year % 100 == 0 then 1 else 0
    ensures year % 100 == 0 ==> year % 4 == 0
  {
  }

  lemma EveryFourHundredth(year: int)
    ensures year / 400 == (year - 1) / 400 + if year % 400 == 0 then 1 else 0
    ensures year % 400 == 0 ==> year % 100 == 0
  {
  }

  lemma YearLength(year: int)
    ensures YearStart(year) == YearStart(year - 1) + if Leap(year) then 366 else 365
  {
    EveryFourth(year);
    EveryHundredth(year);
    EveryFourHundredth(year);
  }

  // ----- The next date

  function Next(d: Date): Date
    requires Exists(d)
  {
    if d.day < DaysIn(d.year, d.month) then d.(day := d.day + 1)
    else if d.month < 12 then Date(d.year, d.month + 1, 1)
    else Date(d.year + 1, 1, 1)
  }

  /** The day number of the next date is one more, for every Gregorian date of any year. */
  lemma NextDayNumber(d: Date)
    requires Exists(d)
    ensures Exists(Next(d)) && DayNumber(Next(d)) == DayNumber(d) + 1
  {
    NextByYears(d);
    DayNumberByYears(d);
    DayNumberByYears(Next(d));
  }

  lemma MonthLengths(year: int, month: int)
    requires 1 <= month <= 12 && month != 2
    ensures MonthStart(if month < 12 then month + 1 else 1) == MonthStart(month) + DaysIn(year, month)
  {
  }

  lemma NextByYears(d: Date)
    requires Exists(d)
    ensures Exists(Next(d)) && DaysByYears(Next(d)) == DaysByYears(d) + 1
  {
    if d.day == DaysIn(d.year, d.month) {
      if d.month == 2 {
        YearLength(d.year);
      } else {
        MonthLengths(d.year, d.month);
      }
    }
  }

  // ----- Calendar order and day-number order coincide

  predicate Before(d: Date, e: Date) {
    || d.year < e.year
    || (d.year == e.year && (d.month < e.month || (d.month == e.month && d.day < e.day)))
  }

  /** Positions of dates on a calendar in which every month has 31 days. */
  function Rank(d: Date): int {
    (d.year * 12 + d.month) * 31 + d.day
  }

  lemma NextIsSuccessor(d: Date, e: Date)
    requires Exists(d) && Exists(e) && Before(d, e)
    ensures Next(d) == e || Before(Next(d), e)
    ensures Rank(d) < Rank(Next(d)) <= Rank(e)
  {
  }

  function Later(d: Date, n: nat): (e: Date)
    requires Exists(d)
    ensures Exists(e)
    decreases n
  {
    if n == 0 then d
    else
      NextDayNumber(d);
      Later(Next(d), n - 1)
  }

  lemma {:induction false} LaterDayNumber(d: Date, n: nat)
    requires Exists(d)
    ensures DayNumber(Later(d, n)) == DayNumber(d) + n
    decreases n
  {
    if n > 0 {
      NextDayNumber(d);
      LaterDayNumber(Next(d), n - 1);
    }
  }

  /** Stepping from a date reaches every later date, in as many steps as there are days between
      them. */
  lemma {:induction false} StepsBetween(d: Date, e: Date) returns (n: nat)
    requires Exists(d) && Exists(e) && (d == e || Before(d, e))
    ensures Later(d, n) == e && n == DayNumber(e) - DayNumber(d) && (d != e ==> n > 0)
    decreases Rank(e) - Rank(d)
  {
    if d == e {
      n := 0;
    } else {
      NextIsSuccessor(d, e);
      NextDayNumber(d);
      n := StepsBetween(Next(d), e);
      n := n + 1;
    }
  }

  lemma OrderPreserved(d: Date, e: Date)
    requires Exists(d) && Exists(e)
    ensures Before(d, e) <==> DayNumber(d) < DayNumber(e)
    ensures d == e <==> DayNumber(d) == DayNumber(e)
  {
    if Before(d, e) {
      var n := StepsBetween(d, e);
    } else if d != e {
      var n := StepsBetween(e, d);
    }
  }

  /** Day zero is the first of January 1970. Together with `NextDayNumber` this fixes every day
      number. */
  lemma Epoch()
    ensures DayNumber(Date(1970, 1, 1)) == 0
  {
  }

  /** No gaps: every number is the day number of exactly one date. */
  lemma EveryDayHasOneDate(number: int) returns (d: Date)
    ensures Exists(d) && DayNumber(d) == number
    ensures forall e :: Exists(e) && DayNumber(e) == number ==> e == d
  {
    var early := Date(if number < 0 then number else -number, 1, 1);
    DayNumberByYears(early);
    assert DayNumber(early) <= number;
    var n := number - DayNumber(early);
    d := Later(early, n);
    LaterDayNumber(early, n);
    forall e | Exists(e) && DayNumber(e) == number
      ensures e == d
    {
      OrderPreserved(e, d);
    }
  }

  // ----- ISO text

  predicate IsDigit(c: char) {
    '0' <= c <= '9'
  }

  function Digit(c: char): int {
    c as int - '0' as int
  }

  function DigitChar(n: int): char
    requires 0 <= n <= 9
  {
    ('0' as int + n) as char
  }

  /** Ten characters of the form `dddd-dd-dd`. */
  predicate IsoShaped(s: string) {
    && |s| == 10 && s[4] == '-' && s[7] == '-'
    && IsDigit(s[0]) && IsDigit(s[1]) && IsDigit(s[2]) && IsDigit(s[3])
    && IsDigit(s[5]) && IsDigit(s[6]) && IsDigit(s[8]) && IsDigit(s[9])
  }

  function Parse(s: string): Date
    requires IsoShaped(s)
  {
    Date(Digit(s[0]) * 1000 + Digit(s[1]) * 100 + Digit(s[2]) * 10 + Digit(s[3]),
         Digit(s[5]) * 10 + Digit(s[6]), Digit(s[8]) * 10 + Digit(s[9]))
  }

  function Format(d: Date): (s: string)
    requires 0 <= d.year <= 9999 && 0 <= d.month <= 99 && 0 <= d.day <= 99
  {
    [DigitChar(d.year / 1000), DigitChar(d.year / 100 % 10), DigitChar(d.year / 10 % 10), DigitChar(d.year % 10),
     '-', DigitChar(d.month / 10), DigitChar(d.month % 10), '-', DigitChar(d.day / 10), DigitChar(d.day % 10)]
  }

  lemma ParseFormat(d: Date)
    requires 0 <= d.year <= 9999 && 0 <= d.month <= 99 && 0 <= d.day <= 99
    ensures IsoShaped(Format(d)) && Parse(Format(d)) == d
  {
    DigitsOf(d.year);
    var s := Format(d);
    assert Digit(s[0]) == d.year / 1000 && Digit(s[1]) == d.year / 100 % 10;
    assert Digit(s[2]) == d.year / 10 % 10 && Digit(s[3]) == d.year % 10;
  }

  lemma DigitsOf(n: int)
    ensures n == n / 1000 * 1000 + n / 100 % 10 * 100 + n / 10 % 10 * 10 + n % 10
  {
    assert n == n / 10 * 10 + n % 10;
    assert n / 10 == n / 100 * 10 + n / 10 % 10;
    assert n / 100 == n / 1000 * 10 + n / 100 % 10;
  }

  lemma FourDigits(a: int, b: int, c: int, d: int)
    requires 0 <= a <= 9 && 0 <= b <= 9 && 0 <= c <= 9 && 0 <= d <= 9
    ensures var n := a * 1000 + b * 100 + c * 10 + d;
            n / 1000 == a && n / 100 % 10 == b && n / 10 % 10 == c && n % 10 == d
  {
    var n := a * 1000 + b * 100 + c * 10 + d;
    assert n / 10 == a * 100 + b * 10 + c;
    assert n / 100 == a * 10 + b;
  }

  lemma FormatParse(s: string)
    requires IsoShaped(s)
    ensures Format(Parse(s)) == s
  {
    FourDigits(Digit(s[0]), Digit(s[1]), Digit(s[2]), Digit(s[3]));
    FourDigits(0, 0, Digit(s[5]), Digit(s[6]));
    FourDigits(0, 0, Digit(s[8]), Digit(s[9]));
  }

  /** `validIsoLocalDate`: dates from the year 2000 on. */
  predicate ValidIso(s: string) {
    IsoShaped(s) && Parse(s).year >= 2000 && Exists(Parse(s))
  }

  method WriteDate(output: array<char>, d: Date)
    requires output.Length >= 11 && 0 <= d.year <= 9999 && 0 <= d.month <= 99 && 0 <= d.day <= 99
    modifies output
    ensures output[..10] == Format(d) && output[10] == '\0'
    ensures forall i :: 11 <= i < output.Length ==> output[i] == old(output[i])
  {
    output[0] := DigitChar(d.year / 1000);
    output[1] := DigitChar(d.year / 100 % 10);
    output[2] := DigitChar(d.year / 10 % 10);
    output[3] := DigitChar(d.year % 10);
    output[4] := '-';
    output[5] := DigitChar(d.month / 10);
    output[6] := DigitChar(d.month % 10);
    output[7] := '-';
    output[8] := DigitChar(d.day / 10);
    output[9] := DigitChar(d.day % 10);
    output[10] := '\0';
  }

  /** `nextIsoLocalDateValue`: the text of the next day, refused only for malformed input, a
      buffer that is too small, and the last day of the year 9999. */
  method NextIsoLocalDate(value: string, output: array<char>) returns (ok: bool)
    modifies output
    ensures ok <==> ValidIso(value) && output.Length >= 11 && Parse(value) != Date(9999, 12, 31)
    ensures ok ==> ValidIso(output[..10]) && output[10] == '\0' && Parse(output[..10]) == Next(Parse(value))
    ensures !ok ==> output[..] == old(output[..])
    ensures forall i :: 11 <= i < output.Length ==> output[i] == old(output[i])
  {
    if !ValidIso(value) || output.Length < 11 { return false; }
    var d := Parse(value);
    var year, month, day := d.year, d.month, d.day + 1;
    if day > DaysIn(year, month) {
      day, month := 1, month + 1;
      if month > 12 {
        if year == 9999 { return false; }
        month, year := 1, year + 1;
      }
    }
    var next := Date(year, month, day);
    NextByYears(d);
    ParseFormat(next);
    WriteDate(output, next);
    ok := true;
  }

  /** On valid text the next day is one day later, and no other text is. */
  lemma NextIsoIsNextDay(value: string, next: string)
    requires ValidIso(value) && ValidIso(next) && Parse(next) == Next(Parse(value))
    ensures DayNumber(Parse(next)) == DayNumber(Parse(value)) + 1
    ensures forall other :: ValidIso(other) && DayNumber(Parse(other)) == DayNumber(Parse(value)) + 1 ==> other == next
  {
    NextDayNumber(Parse(value));
    forall other | ValidIso(other) && DayNumber(Parse(other)) == DayNumber(Parse(value)) + 1
      ensures other == next
    {
      OrderPreserved(Parse(other), Parse(next));
      FormatParse(other);
      FormatParse(next);
    }
  }

  /** The usual order of texts: by the first character that differs. */
  ghost predicate TextBefore(s: string, t: string)
    requires |s| == |t|
  {
    exists i :: 0 <= i < |s| && s[..i] == t[..i] && s[i] < t[i]
  }

  lemma {:induction false} TextOrderTotal(s: string, t: string)
    requires |s| == |t| && s != t
    ensures TextBefore(s, t) || TextBefore(t, s)
  {
    var n := |s| - 1;
    assert s == s[..n] + [s[n]] && t == t[..n] + [t[n]];
    if s[..n] != t[..n] {
      TextOrderTotal(s[..n], t[..n]);
      if i :| 0 <= i < n && s[..n][..i] == t[..n][..i] && s[..n][i] < t[..n][i] {
        assert s[..i] == t[..i];
      } else {
        var k :| 0 <= k < n && t[..n][..k] == s[..n][..k] && t[..n][k] < s[..n][k];
        assert t[..k] == s[..k];
      }
    }
  }

  lemma EarlierTextEarlierDate(s: string, t: string)
    requires IsoShaped(s) && IsoShaped(t) && TextBefore(s, t)
    ensures Before(Parse(s), Parse(t))
  {
    var i :| 0 <= i < 10 && s[..i] == t[..i] && s[i] < t[i];
    assert forall k :: 0 <= k < i ==> s[k] == s[..i][k] == t[..i][k] == t[k];
  }

  /** Comparing valid dates as texts compares their days. */
  lemma TextOrderIsDayOrder(s: string, t: string)
    requires ValidIso(s) && ValidIso(t)
    ensures TextBefore(s, t) <==> DayNumber(Parse(s)) < DayNumber(Parse(t))
  {
    OrderPreserved(Parse(s), Parse(t));
    if TextBefore(s, t) {
      EarlierTextEarlierDate(s, t);
    } else if s != t {
      TextOrderTotal(s, t);
      EarlierTextEarlierDate(t, s);
      OrderPreserved(Parse(t), Parse(s));
    }
  }
}
