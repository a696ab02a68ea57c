/** Round dates as the page stores them ("DD/MM/YYYY") and as JavaScript reads
    them back: `Utils.parseDateBR` rebuilds an ISO "YYYY-MM-DD" string and hands
    it to `new Date`, which reads it as midnight UTC of that day. A day is
    represented by its day number (days since 1970-01-01), which is what the
    time value of such a `Date` divided by 86,400,000 is. "Now" is given the same
    way, as the number of the UTC day it falls in, so `date <= now` on `Date`
    objects is `day <= today` on day numbers. */
module Dates {

  // ----- String.prototype.split('/') ----------------------------------------

  /** `s.split('/')`: the pieces between the separators, in order. */
  function Split(s: string): (parts: seq<string>)
    ensures |parts| >= 1
    ensures forall i :: 0 <= i < |parts| ==> '/' !in parts[i]
  {
    if s == [] then [""]
    else
      var rest := Split(s[1..]);
      if s[0] == '/' then [""] + rest
      else [[s[0]] + rest[0]] + rest[1..]
  }

  /** `parts.join('/')`. */
  function Join(parts: seq<string>): string
    requires |parts| >= 1
  {
    if |parts| == 1 then parts[0] else parts[0] + "/" + Join(parts[1..])
  }

  /** Joining the pieces again gives back the original string. */
  lemma {:induction false} JoinSplit(s: string)
    ensures Join(Split(s)) == s
  {
    if s != [] {
      var rest := Split(s[1..]);
      JoinSplit(s[1..]);
      if s[0] == '/' {
        assert Split(s) == [""] + rest;
        assert ([""] + rest)[1..] == rest;
      } else {
        var parts := [[s[0]] + rest[0]] + rest[1..];
        assert Split(s) == parts;
        if |rest| == 1 {
          assert Join(rest) == rest[0];
        } else {
          assert parts[1..] == rest[1..];
          assert Join(rest) == rest[0] + "/" + Join(rest[1..]);
        }
        assert s == [s[0]] + s[1..];
      }
    }
  }

  /** `split('/')` yields more than one piece exactly when there is a '/'. */
  lemma SplitPieces(s: string)
    ensures |Split(s)| >= 2 <==> '/' in s
  {
    if '/' !in s {
      SplitPrefix(s, "");
      assert s + "" == s;
    } else {
      JoinSplit(s);
    }
  }

  /** Splitting a string that starts with a piece free of separators. */
  lemma {:induction false} SplitPrefix(a: string, t: string)
    requires '/' !in a
    ensures Split(a + t) == [a + Split(t)[0]] + Split(t)[1..]
  {
    if a != [] {
      assert (a + t)[1..] == a[1..] + t;
      assert (a + t)[0] == a[0];
      SplitPrefix(a[1..], t);
      assert [a[0]] + (a[1..] + Split(t)[0]) == a + Split(t)[0];
    } else {
      assert a + t == t;
      assert a + Split(t)[0] == Split(t)[0];
      assert [Split(t)[0]] + Split(t)[1..] == Split(t);
    }
  }

  /** Splitting pieces that hold no separator and were joined gives them back. */
  lemma {:induction false} SplitJoin(parts: seq<string>)
    requires |parts| >= 1
    requires forall i :: 0 <= i < |parts| ==> '/' !in parts[i]
    ensures Split(Join(parts)) == parts
  {
    if |parts| == 1 {
      SplitPrefix(parts[0], "");
      assert parts[0] + "" == parts[0];
    } else {
      var rest := Join(parts[1..]);
      SplitJoin(parts[1..]);
      assert Split("/" + rest) == [""] + Split(rest) by {
        assert ("/" + rest)[0] == '/';
        assert ("/" + rest)[1..] == rest;
      }
      assert parts[0] + "/" + rest == parts[0] + ("/" + rest);
      SplitPrefix(parts[0], "/" + rest);
      assert parts[0] + "" == parts[0];
      assert parts == [parts[0]] + parts[1..];
    }
  }

  // ----- decimal digits -----------------------------------------------------

  predicate IsDigit(c: char)
  {
    '0' <= c <= '9'
  }

  predicate IsDigits(s: string)
  {
    forall i :: 0 <= i < |s| ==> IsDigit(s[i])
  }

  lemma DigitsHaveNoSlash(s: string)
    requires IsDigits(s)
    ensures '/' !in s
  {
  }

  /** The value of a string of decimal digits (the empty string reads as 0). */
  function DecimalValue(s: string): nat
    requires IsDigits(s)
  {
    if s == [] then 0
    else DecimalValue(s[..|s| - 1]) * 10 + (s[|s| - 1] - '0') as int
  }

  function Pow10(width: nat): nat
  {
    if width == 0 then 1 else 10 * Pow10(width - 1)
  }

  /** `n` written in decimal with leading zeros to exactly `width` digits. */
  function Decimal(n: nat, width: nat): (s: string)
    requires n < Pow10(width)
    ensures |s| == width && IsDigits(s)
    ensures DecimalValue(s) == n
  {
    if width == 0 then ""
    else
      var init := Decimal(n / 10, width - 1);
      var s := init + [('0' as int + n % 10) as char];
      assert s[..|s| - 1] == init;
      s
  }

  /** Two digit strings of the same length are equal exactly when their
      values are. */
  lemma {:induction false} DecimalValueInjective(s: string, t: string)
    requires IsDigits(s) && IsDigits(t) && |s| == |t|
    requires DecimalValue(s) == DecimalValue(t)
    ensures s == t
  {
    if s != [] {
      var n := |s| - 1;
      assert (s[n] - '0') as int == DecimalValue(s) % 10;
      assert (t[n] - '0') as int == DecimalValue(t) % 10;
      assert DecimalValue(s[..n]) == DecimalValue(s) / 10;
      assert DecimalValue(t[..n]) == DecimalValue(t) / 10;
      DecimalValueInjective(s[..n], t[..n]);
      assert s == s[..n] + [s[n]] && t == t[..n] + [t[n]];
    }
  }

  /** `s.padStart(width, '0')`. */
  function PadStart(s: string, width: nat): (r: string)
    ensures |r| == if |s| >= width then |s| else width
    ensures |s| >= width ==> r == s
    ensures |s| < width ==> r == seq(width - |s|, _ => '0') + s
    decreases width - |s|
  {
    if |s| >= width then s else PadStart("0" + s, width)
  }

  /** Padding with zeros changes neither digit-ness nor the value. */
  lemma {:induction false} PadStartDigits(s: string, width: nat)
    requires IsDigits(s)
    ensures IsDigits(PadStart(s, width)) && DecimalValue(PadStart(s, width)) == DecimalValue(s)
    decreases width - |s|
  {
    if |s| < width {
      LeadingZero(s);
      PadStartDigits("0" + s, width);
    }
  }

  lemma {:induction false} LeadingZero(s: string)
    requires IsDigits(s)
    ensures IsDigits("0" + s) && DecimalValue("0" + s) == DecimalValue(s)
  {
    if s != [] {
      var n := |s| - 1;
      assert ("0" + s)[..|s|] == "0" + s[..n];
      LeadingZero(s[..n]);
    } else {
      assert ("0" + s)[..0] == "";
    }
  }

  // ----- ECMAScript day numbers (section 21.4.1 of ECMA-262) ---------------

  predicate IsLeapYear(y: int)
  {
    y % 4 == 0 && (y % 100 != 0 || y % 400 == 0)
  }

  function DaysInYear(y: int): int
  {
    if IsLeapYear(y) then 366 else 365
  }

  /** DayFromYear: the number of the first day of year `y`. */
  function DayFromYear(y: int): int
  {
    365 * (y - 1970) + (y - 1969) / 4 - (y - 1901) / 100 + (y - 1601) / 400
  }

  function DaysBeforeMonth(y: int, m: int): int
    requires 1 <= m <= 12
  {
    [0, 31, 59, 90, 120, 151, 181, 212, 243, 273, 304, 334][m - 1]
      + (if m > 2 && IsLeapYear(y) then 1 else 0)
  }

  function DaysInMonth(y: int, m: int): int
    requires 1 <= m <= 12
  {
    if m == 2 then (if IsLeapYear(y) then 29 else 28)
    else if m == 4 || m == 6 || m == 9 || m == 11 then 30
    else 31
  }

  /** MakeDay(y, m - 1, d): the day number of day `d` of month `m` of year `y`;
      a day past the end of its month rolls over into the next. */
  function DayNumber(y: int, m: int, d: int): int
    requires 1 <= m <= 12
  {
    DayFromYear(y) + DaysBeforeMonth(y, m) + d - 1
  }

  /** A date that exists in the calendar. */
  predicate IsCalendarDate(y: int, m: int, d: int)
  {
    1 <= m <= 12 && 1 <= d <= DaysInMonth(y, m)
  }

  /** (y1, m1, d1) comes strictly before (y2, m2, d2) in the calendar. */
  predicate CalendarBefore(y1: int, m1: int, d1: int, y2: int, m2: int, d2: int)
  {
    y1 < y2 || (y1 == y2 && (m1 < m2 || (m1 == m2 && d1 < d2)))
  }

  /** Each quotient of `DayFromYear` steps up by one from year `y` to year
      `y + 1` exactly when `y` is a multiple of its divisor. */
  lemma Step4(y: int)
    ensures ((y + 1) - 1969) / 4 == (y - 1969) / 4 + (if y % 4 == 0 then 1 else 0)
  {
  }

  lemma Step100(y: int)
    ensures ((y + 1) - 1901) / 100 == (y - 1901) / 100 + (if y % 100 == 0 then 1 else 0)
  {
  }

  lemma Step400(y: int)
    ensures ((y + 1) - 1601) / 400 == (y - 1601) / 400 + (if y % 400 == 0 then 1 else 0)
  {
  }

  /** Year `y + 1` starts the length of year `y` after year `y`. */
  lemma YearStep(y: int)
    ensures DayFromYear(y + 1) == DayFromYear(y) + DaysInYear(y)
  {
    Step4(y);
    Step100(y);
    Step400(y);
    CenturiesAreMultiplesOf4(y);
    if y % 4 != 0 {
      assert DaysInYear(y) == 365 && y % 100 != 0 && y % 400 != 0;
    } else if y % 100 != 0 {
      assert DaysInYear(y) == 366 && y % 400 != 0;
    } else if y % 400 != 0 {
      assert DaysInYear(y) == 365;
    } else {
      assert DaysInYear(y) == 366;
    }
  }

  /** A multiple of 400 is one of 100, and a multiple of 100 one of 4. */
  lemma CenturiesAreMultiplesOf4(y: int)
    ensures y % 400 == 0 ==> y % 100 == 0
    ensures y % 100 == 0 ==> y % 4 == 0
  {
    if y % 400 == 0 {
      var k := y / 400;
      assert y == 100 * (4 * k);
      MultipleOf100(4 * k);
    }
    if y % 100 == 0 {
      var k := y / 100;
      assert y == 4 * (25 * k);
      MultipleOf4(25 * k);
    }
  }

  lemma MultipleOf100(m: int)
    ensures (100 * m) % 100 == 0
  {
  }

  lemma MultipleOf4(m: int)
    ensures (4 * m) % 4 == 0
  {
  }

  /** Later years start later. */
  lemma {:induction false} DayFromYearIncreasing(y1: int, y2: int)
    requires y1 < y2
    ensures DayFromYear(y1) + DaysInYear(y1) <= DayFromYear(y2)
    decreases y2 - y1
  {
    YearStep(y1);
    if y1 + 1 < y2 {
      DayFromYearIncreasing(y1 + 1, y2);
    }
  }

  /** Month boundaries: the days of month `m` are the days before month m+1. */
  lemma MonthStep(y: int, m: int)
    requires 1 <= m <= 12
    ensures m < 12 ==> DaysBeforeMonth(y, m + 1) == DaysBeforeMonth(y, m) + DaysInMonth(y, m)
    ensures m == 12 ==> DaysBeforeMonth(y, m) + DaysInMonth(y, m) == DaysInYear(y)
  {
  }

  lemma {:induction false} MonthsIncreasing(y: int, m1: int, m2: int)
    requires 1 <= m1 < m2 <= 12
    ensures DaysBeforeMonth(y, m1) + DaysInMonth(y, m1) <= DaysBeforeMonth(y, m2)
    decreases m2 - m1
  {
    MonthStep(y, m1);
    if m1 + 1 < m2 {
      MonthsIncreasing(y, m1 + 1, m2);
    }
  }

  /** On dates of the calendar, day numbers follow the calendar order, so
      comparing `Date` objects compares the dates. */
  lemma {:induction false} DayNumberFollowsCalendar(y1: int, m1: int, d1: int, y2: int, m2: int, d2: int)
    requires IsCalendarDate(y1, m1, d1) && IsCalendarDate(y2, m2, d2)
    ensures CalendarBefore(y1, m1, d1, y2, m2, d2) <==> DayNumber(y1, m1, d1) < DayNumber(y2, m2, d2)
  {
    if y1 < y2 {
      EndOfYear(y1, m1, d1);
      DayFromYearIncreasing(y1, y2);
    } else if y2 < y1 {
      EndOfYear(y2, m2, d2);
      DayFromYearIncreasing(y2, y1);
    } else if m1 < m2 {
      MonthsIncreasing(y1, m1, m2);
    } else if m2 < m1 {
      MonthsIncreasing(y1, m2, m1);
    }
  }

  lemma EndOfYear(y: int, m: int, d: int)
    requires IsCalendarDate(y, m, d)
    ensures DayNumber(y, m, d) < DayFromYear(y) + DaysInYear(y)
  {
    if m < 12 {
      MonthsIncreasing(y, m, 12);
    }
    MonthStep(y, 12);
  }

  // ----- Utils.parseDateBR and Utils.formatDate ---------------------------

  /** The outcome of `Utils.parseDateBR(s)`: a `Date` at midnight UTC of the day
      with the given number, an Invalid Date (its time value is NaN), or a
      TypeError thrown because `s` has no '/' and the month is `undefined`. */
  datatype Parsed = Day(number: int) | InvalidDate | TypeError

  /** A "YYYY-MM-DD" string read by the ECMAScript date-only format: four
      year digits, two month digits in 01..12 and two day digits in 01..31. */
  function ReadIso(year: string, month: string, day: string): (r: Parsed)
    ensures !r.TypeError?
  {
    if IsDigits(year) && |year| == 4 && IsDigits(month) && |month| == 2 && IsDigits(day) && |day| == 2
       && 1 <= DecimalValue(month) <= 12 && 1 <= DecimalValue(day) <= 31
    then Day(DayNumber(DecimalValue(year), DecimalValue(month), DecimalValue(day)))
    else InvalidDate
  }

  /** `Utils.parseDateBR(s)`: the first three pieces of `s.split('/')` are day,
      month and year; day and month are zero-padded to two characters. With
      only two pieces the year reads "undefined"; the model reads that string
      as an Invalid Date. */
  function ParseDateBR(s: string): (r: Parsed)
    ensures r.TypeError? <==> '/' !in s
  {
    SplitPieces(s);
    var parts := Split(s);
    if |parts| < 2 then TypeError
    else if |parts| < 3 then InvalidDate
    else ReadIso(parts[2], PadStart(parts[1], 2), PadStart(parts[0], 2))
  }

  /** `date <= now` for the outcome of parsing: false for an Invalid Date. */
  predicate OnOrBefore(p: Parsed, today: int)
  {
    p.Day? && p.number <= today
  }

  /** A date written the way the page writes it, "DD/MM/YYYY". */
  function FormatBR(y: nat, m: nat, d: nat): string
    requires y < 10000 && 1 <= m <= 12 && 1 <= d <= 31
  {
    Join([Decimal(d, 2), Decimal(m, 2), Decimal(y, 4)])
  }

  /** Reading back a date written as "DD/MM/YYYY" gives its day number. */
  lemma ParseFormatBR(y: nat, m: nat, d: nat)
    requires y < 10000 && 1 <= m <= 12 && 1 <= d <= 31
    ensures ParseDateBR(FormatBR(y, m, d)) == Day(DayNumber(y, m, d))
  {
    var parts := [Decimal(d, 2), Decimal(m, 2), Decimal(y, 4)];
    DigitsHaveNoSlash(parts[0]);
    DigitsHaveNoSlash(parts[1]);
    DigitsHaveNoSlash(parts[2]);
    SplitJoin(parts);
  }

  /** Short forms are accepted too: "5/3/2024" reads as "05/03/2024". */
  lemma ParseUnpadded(y: nat, m: nat, d: nat)
    requires 1000 <= y < 10000 && 1 <= m <= 9 && 1 <= d <= 9
    ensures ParseDateBR(Join([Decimal(d, 1), Decimal(m, 1), Decimal(y, 4)])) == Day(DayNumber(y, m, d))
  {
    var parts := [Decimal(d, 1), Decimal(m, 1), Decimal(y, 4)];
    DigitsHaveNoSlash(parts[0]);
    DigitsHaveNoSlash(parts[1]);
    DigitsHaveNoSlash(parts[2]);
    SplitJoin(parts);
    PadStartDigits(parts[0], 2);
    PadStartDigits(parts[1], 2);
  }

  /** A string without '/' makes `parseDateBR` throw, and only such a string
      does; one with exactly one '/' the model reads as an Invalid Date. */
  lemma ParseErrors(s: string)
    ensures '/' !in s ==> ParseDateBR(s) == TypeError
    ensures '/' in s ==> !ParseDateBR(s).TypeError?
    ensures |Split(s)| == 2 ==> ParseDateBR(s) == InvalidDate
  {
    SplitPieces(s);
  }

  /** `Utils.formatDate(s)`: "A DEFINIR" ("to be decided") when the year piece
      is exactly "2099", the string itself otherwise. */
  function FormatDate(s: string): (r: string)
    ensures r == s || r == "A DEFINIR"
  {
    var parts := Split(s);
    if |parts| >= 3 && parts[2] == "2099" then "A DEFINIR" else s
  }

  /** For a date written as "DD/MM/YYYY", the placeholder is shown exactly for
      the year 2099, and otherwise the date is shown unchanged. */
  lemma FormatDateOfFormatBR(y: nat, m: nat, d: nat)
    requires y < 10000 && 1 <= m <= 12 && 1 <= d <= 31
    ensures FormatDate(FormatBR(y, m, d)) == if y == 2099 then "A DEFINIR" else FormatBR(y, m, d)
  {
    var parts := [Decimal(d, 2), Decimal(m, 2), Decimal(y, 4)];
    DigitsHaveNoSlash(parts[0]);
    DigitsHaveNoSlash(parts[1]);
    DigitsHaveNoSlash(parts[2]);
    SplitJoin(parts);
    Year2099();
  }

  lemma Year2099()
    ensures Decimal(2099, 4) == "2099"
  {
    var t := "2099";
    assert t[..3] == "209" && "209"[..2] == "20" && "20"[..1] == "2" && "2"[..0] == "";
    assert DecimalValue("2") == 2;
    assert DecimalValue("20") == 20;
    assert DecimalValue("209") == 209;
    assert DecimalValue(t) == 2099;
    DecimalValueInjective(Decimal(2099, 4), t);
  }
}
