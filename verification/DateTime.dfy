/** datetime.c: seconds since 1900 as a date and time, counting on by a second, and the text form.
    The reference is the calendar itself: the number of days from 1 January 1900 to a date, with
    the Gregorian leap rule. */
module DateTime {
  import opened Bytes
  import opened Integers

  const SECONDS_PER_DAY := 86400
  const ISO8601_MIN_LEN := 20

  datatype Fields = Fields(year: u16, month: byte, day: byte, hours: byte, minutes: byte, seconds: byte)

  // ----- The calendar -----

  predicate IsLeap(year: int) {
    year % 4 == 0 && (year % 100 != 0 || year % 400 == 0)
  }

  function YearDays(year: int): (r: nat)
    ensures 365 <= r <= 366
  {
    if IsLeap(year) then 366 else 365
  }

  function MonthDays(year: int, month: nat): (r: nat)
    requires 1 <= month <= 12
    ensures 28 <= r <= 31
  {
    if month == 2 then (if IsLeap(year) then 29 else 28)
    else if month == 4 || month == 6 || month == 9 || month == 11 then 30
    else 31
  }

  /** Days from 1 January 1900 to 1 January of a year. */
  function DaysBefore(year: int): (r: nat)
    requires year >= 1900
    decreases year - 1900
  {
    if year == 1900 then 0 else DaysBefore(year - 1) + YearDays(year - 1)
  }

  /** Days from 1 January to the first of a month of the same year. */
  function DaysBeforeMonth(year: int, month: nat): (r: nat)
    requires 1 <= month <= 13
  {
    if month == 1 then 0 else DaysBeforeMonth(year, month - 1) + MonthDays(year, month - 1)
  }

  /** The usual closed form: every fourth year leaps, but not every hundredth, but every 400th. */
  lemma {:induction false} DaysBeforeIs(year: int)
    requires year >= 1900
    ensures DaysBefore(year) == 365 * (year - 1900) + (year - 1) / 4 - (year - 1) / 100 + (year - 1) / 400 - 460
    decreases year - 1900
  {
    if year > 1900 {
      DaysBeforeIs(year - 1);
      DivStep(year - 1, 4);
      DivStep(year - 1, 100);
      DivStep(year - 1, 400);
      Multiples(year - 1);
    }
  }

  /** Division by n goes up by one at its multiples. */
  lemma DivStep(y: int, n: int)
    requires y > 0 && n > 0
    ensures y / n == (y - 1) / n + if y % n == 0 then 1 else 0
  {
    var q, r := (y - 1) / n, (y - 1) % n;
    assert y == n * q + (r + 1);
    if r + 1 < n {
      QuotientIs(y, n, q, r + 1);
    } else {
      assert y == n * (q + 1);
      QuotientIs(y, n, q + 1, 0);
    }
  }

  lemma QuotientIs(y: int, n: int, q: int, r: int)
    requires n > 0 && y == n * q + r && 0 <= r < n
    ensures y / n == q && y % n == r
  {
    var d := y / n - q;
    assert y == n * (y / n) + y % n;
    assert n * d == r - y % n;
    if d >= 1 {
      MulAtLeast(n, d);
    } else if d <= -1 {
      MulAtLeast(n, -d);
    }
  }

  lemma MulAtLeast(n: int, d: int)
    requires n > 0 && d >= 1
    ensures n * d >= n
  {
  }

  lemma Multiples(y: int)
    requires y > 0
    ensures y % 400 == 0 ==> y % 100 == 0
    ensures y % 100 == 0 ==> y % 4 == 0
  {
    if y % 400 == 0 {
      Hundreds(4 * (y / 400));
    }
    if y % 100 == 0 {
      Fours(25 * (y / 100));
    }
  }

  lemma Hundreds(k: int)
    ensures (100 * k) % 100 == 0
  {
  }

  lemma Fours(k: int)
    ensures (4 * k) % 4 == 0
  {
  }

  lemma MonthsMakeYear(year: int)
    ensures DaysBeforeMonth(year, 13) == YearDays(year)
  {
    assert DaysBeforeMonth(year, 2) == 31;
    assert DaysBeforeMonth(year, 3) == 31 + MonthDays(year, 2);
    assert DaysBeforeMonth(year, 5) == DaysBeforeMonth(year, 3) + 61;
    assert DaysBeforeMonth(year, 7) == DaysBeforeMonth(year, 5) + 61;
    assert DaysBeforeMonth(year, 9) == DaysBeforeMonth(year, 7) + 62;
    assert DaysBeforeMonth(year, 11) == DaysBeforeMonth(year, 9) + 61;
    assert DaysBeforeMonth(year, 13) == DaysBeforeMonth(year, 11) + 61;
  }

  /** On which day of the year each month starts, the first day being 0. */
  lemma {:induction false} MonthStarts(year: int, m: nat)
    requires 1 <= m <= 13
    ensures DaysBeforeMonth(year, m)
            == FirstDays()[m - 1] + if m > 2 && year % 4 == 0 && (year % 100 != 0 || year % 400 == 0) then 1 else 0
  {
    if m > 1 {
      MonthStarts(year, m - 1);
    }
  }

  /** The ordinal dates of common years, less one. */
  function FirstDays(): seq<nat> { [0, 31, 59, 90, 120, 151, 181, 212, 243, 273, 304, 334, 365] }

  predicate ValidDate(f: Fields) {
    && 1 <= f.month <= 12 && 1 <= f.day <= MonthDays(f.year, f.month)
    && f.hours < 24 && f.minutes < 60 && f.seconds < 60
  }

  /** Seconds from the start of 1900. */
  function SecondsOf(f: Fields): (r: nat)
    requires ValidDate(f) && f.year >= 1900
  {
    SECONDS_PER_DAY * (DaysBefore(f.year) + DaysBeforeMonth(f.year, f.month) + f.day - 1) + 3600 * f.hours
      + 60 * f.minutes + f.seconds
  }

  lemma {:induction false} YearsInOrder(a: int, b: int)
    requires 1900 <= a < b
    ensures DaysBefore(a) + YearDays(a) <= DaysBefore(b)
    decreases b - a
  {
    if a + 1 < b {
      YearsInOrder(a, b - 1);
    }
  }

  lemma {:induction false} MonthsInOrder(year: int, a: nat, b: nat)
    requires 1 <= a < b <= 13
    ensures DaysBeforeMonth(year, a) + MonthDays(year, a) <= DaysBeforeMonth(year, b)
    decreases b - a
  {
    if a + 1 < b {
      MonthsInOrder(year, a, b - 1);
    }
  }

  /** The seconds of a day run with the clock. */
  lemma SecondsAre(f: Fields)
    requires ValidDate(f) && f.year >= 1900
    ensures var hours: int, minutes: int := f.hours, f.minutes;
            SecondsOf(f) % 86400 == 3600 * hours + 60 * minutes + f.seconds
    ensures SecondsOf(f) / 86400 == DaysBefore(f.year) + DaysBeforeMonth(f.year, f.month) + f.day - 1
  {
    hide DaysBefore, DaysBeforeMonth;
  }

  /** 1 January 1970 is 2208988800 seconds in. */
  lemma UnixEpoch()
    ensures SecondsOf(Fields(1970, 1, 1, 0, 0, 0)) == 2208988800
  {
    hide DaysBefore, DaysBeforeMonth, IsLeap;
    DaysBeforeIs(1970);
    MonthStarts(1970, 1);
    assert DaysBefore(1970) == 25567;
  }

  /** No second has two dates. */
  lemma SecondsUnique(f: Fields, g: Fields)
    requires ValidDate(f) && ValidDate(g) && f.year >= 1900 && g.year >= 1900 && SecondsOf(f) == SecondsOf(g)
    ensures f == g
  {
    var df := DaysBefore(f.year) + DaysBeforeMonth(f.year, f.month) + f.day - 1;
    var dg := DaysBefore(g.year) + DaysBeforeMonth(g.year, g.month) + g.day - 1;
    assert df == dg;
    assert f.hours == g.hours && f.minutes == g.minutes && f.seconds == g.seconds;
    InYear(f);
    InYear(g);
    if f.year < g.year {
      YearsInOrder(f.year, g.year);
    } else if g.year < f.year {
      YearsInOrder(g.year, f.year);
    } else if f.month < g.month {
      MonthsInOrder(f.year, f.month, g.month);
    } else if g.month < f.month {
      MonthsInOrder(f.year, g.month, f.month);
    }
  }

  lemma InYear(f: Fields)
    requires ValidDate(f)
    ensures DaysBeforeMonth(f.year, f.month) + f.day - 1 < YearDays(f.year)
  {
    hide DaysBeforeMonth;
    MonthsMakeYear(f.year);
    MonthsInOrder(f.year, f.month, 13);
  }

  // ----- The datetime structure -----

  /** days_per_month_table. */
  function Table(month: nat): (r: byte)
    requires 1 <= month <= 12
  {
    [31, 28, 31, 30, 31, 30, 31, 31, 30, 31, 30, 31][month - 1]
  }

  lemma TableIs(year: int, month: nat)
    requires 1 <= month <= 12
    ensures MonthDays(year, month) == if month == 2 && IsLeap(year) then 29 else Table(month)
  {
  }

  class DateTime {
    var year: u16
    var month: byte
    var day: byte
    var hours: byte
    var minutes: byte
    var seconds: byte

    constructor ()
      ensures Shown() == Fields(1900, 1, 1, 0, 0, 0)
    {
      seconds, minutes, hours, day, month, year := 0, 0, 0, 1, 1, 1900;
    }

    function Shown(): Fields
      reads this
    {
      Fields(year, month, day, hours, minutes, seconds)
    }

    method GetEpoch()
      modifies this
      ensures Shown() == Fields(1900, 1, 1, 0, 0, 0)
    {
      seconds, minutes, hours, day, month, year := 0, 0, 0, 1, 1, 1900;
    }

    method IsLeapYear() returns (leap: bool)
      ensures leap == IsLeap(year)
    {
      if year % 4 == 0 {
        if year % 100 == 0 {
          if year % 400 == 0 {
            return true;
          } else {
            return false;
          }
        } else {
          return true;
        }
      }
      return false;
    }

    /** The date and time that many seconds after the start of 1900: a valid one, and the count of
        days in 16 bits suffices for every 32-bit number of seconds. */
    method SecondsToDatetime(total: u32)
      modifies this
      ensures ValidDate(Shown()) && 1900 <= year <= 2036 && SecondsOf(Shown()) == total
    {
      hide DaysBeforeMonth, MonthDays, IsLeap, YearDays;
      var days: u16 := total / SECONDS_PER_DAY;
      var dayOfYear, left := FindYear(days, total);
      left := FindMonth(dayOfYear, left);
      hours := left / 3600;
      left := left - hours * 3600;
      minutes := left / 60;
      left := left - minutes * 60;
      seconds := left;
    }

    /** Counts years up to the one that day number `days` is in. */
    method FindYear(days: u16, total: u32) returns (dayOfYear: u16, left: u32)
      requires days == total / SECONDS_PER_DAY
      modifies this
      ensures 1900 <= year <= 2036 && days == DaysBefore(year) + dayOfYear && dayOfYear < YearDays(year)
      ensures left == total - SECONDS_PER_DAY * DaysBefore(year)
    {
      year := 1900 - 1;
      var tempDays: u16 := 0;
      var leap;
      while tempDays <= days
        invariant 1899 <= year <= 2036 && tempDays == DaysBefore(year + 1)
        invariant year >= 1900 ==> DaysBefore(year) <= days
        invariant tempDays >= 365 * (year - 1899)
        decreases 0x10000 - tempDays
      {
        assert DaysBefore(year + 2) == tempDays + YearDays(year + 1);
        year := year + 1;
        tempDays := tempDays + 365;
        leap := IsLeapYear();
        if leap {
          tempDays := tempDays + 1;
        }
      }
      tempDays := tempDays - 365;
      leap := IsLeapYear();
      if leap {
        tempDays := tempDays - 1;
      }
      assert tempDays == DaysBefore(year);
      dayOfYear := days - tempDays;
      left := total - tempDays * SECONDS_PER_DAY;
    }

    /** Counts months up to the one that day number `dayOfYear0` of the year is in. */
    method FindMonth(dayOfYear0: u16, left0: u32) returns (left: u32)
      requires dayOfYear0 < YearDays(year) && left0 / SECONDS_PER_DAY == dayOfYear0
      modifies this`month, this`day
      ensures 1 <= month <= 12 && 1 <= day <= MonthDays(year, month)
      ensures DaysBeforeMonth(year, month) + day - 1 == dayOfYear0 && left == left0 - SECONDS_PER_DAY * dayOfYear0
    {
      var dayOfYear: u16 := dayOfYear0;
      left := left0;
      MonthsMakeYear(year);
      for m := 1 to 13
        invariant dayOfYear + DaysBeforeMonth(year, m) == dayOfYear0
        invariant left == left0 - SECONDS_PER_DAY * DaysBeforeMonth(year, m)
        modifies this`month, this`day
      {
        var daysPerMonth := Table(m);
        var leap := IsLeapYear();
        if m == 2 && leap {
          daysPerMonth := 29;
        }
        TableIs(year, m);
        assert DaysBeforeMonth(year, m + 1) == DaysBeforeMonth(year, m) + daysPerMonth;
        if dayOfYear < daysPerMonth {
          month := m;
          day := dayOfYear + 1;
          left := left - dayOfYear * SECONDS_PER_DAY;
          return;
        }
        dayOfYear := dayOfYear - daysPerMonth;
        left := left - daysPerMonth * SECONDS_PER_DAY;
      }
      assert false;
    }

    /** Counts on by one second, carrying as far as it goes. */
    method IncrementSeconds()
      requires ValidDate(Shown()) && year < 0xffff
      modifies this
      ensures ValidDate(Shown()) && Shown() == Incremented(old(Shown()))
    {
      seconds := seconds + 1;
      if seconds >= 60 {
        seconds := 0;
        minutes := minutes + 1;
        if minutes >= 60 {
          minutes := 0;
          hours := hours + 1;
          if hours >= 24 {
            hours := 0;
            day := day + 1;
            TableIs(year, month);
            var daysPerMonth: byte;
            var leap := IsLeapYear();
            if !(month == 2 && leap) {
              daysPerMonth := Table(month);
            } else {
              daysPerMonth := 29;
            }
            if day > daysPerMonth {
              day := 1;
              month := month + 1;
              if month > 12 {
                year := year + 1;
                month := 1;
              }
            }
          }
        }
      }
    }
  }

  function NextDay(f: Fields): Fields
    requires ValidDate(f) && f.year < 0xffff
  {
    if f.day < MonthDays(f.year, f.month) then f.(day := f.day + 1)
    else if f.month < 12 then f.(day := 1, month := f.month + 1)
    else f.(day := 1, month := 1, year := f.year + 1)
  }

  function Incremented(f: Fields): Fields
    requires ValidDate(f) && f.year < 0xffff
  {
    if f.seconds < 59 then f.(seconds := f.seconds + 1)
    else if f.minutes < 59 then f.(seconds := 0, minutes := f.minutes + 1)
    else if f.hours < 23 then f.(seconds := 0, minutes := 0, hours := f.hours + 1)
    else NextDay(f.(seconds := 0, minutes := 0, hours := 0))
  }

  /** Counting on by a second is one second more. */
  lemma IncrementedIsNext(f: Fields)
    requires ValidDate(f) && 1900 <= f.year < 0xffff
    ensures ValidDate(Incremented(f)) && SecondsOf(Incremented(f)) == SecondsOf(f) + 1
  {
    if f.month == 12 {
      MonthsMakeYear(f.year);
    }
  }

  /** Converting s + 1 is converting s and counting on. */
  method ConvertNext(s: u32) returns (next: DateTime, counted: DateTime)
    requires s < 0xffffffff
    ensures fresh(next) && fresh(counted) && next.Shown() == counted.Shown()
  {
    next := new DateTime();
    counted := new DateTime();
    next.SecondsToDatetime(s + 1);
    counted.SecondsToDatetime(s);
    IncrementedIsNext(counted.Shown());
    counted.IncrementSeconds();
    SecondsUnique(next.Shown(), counted.Shown());
  }

  // ----- ISO 8601 text -----

  /** A number in decimal, as itoa writes it. */
  function Digits(n: nat): (r: seq<byte>)
    requires n < 0x10000
    ensures |r| == if n < 10 then 1 else if n < 100 then 2 else if n < 1000 then 3 else if n < 10000 then 4 else 5
    ensures forall i :: 0 <= i < |r| ==> 48 <= r[i] <= 57
  {
    if n < 10 then [48 + n] else Digits(n / 10) + [48 + n % 10]
  }

  function Two(n: nat): (r: seq<byte>)
    requires n < 100
    ensures |r| == 2
  {
    [48 + n / 10, 48 + n % 10]
  }

  /** The first four bytes after a year is written without padding and `-` put behind them: a short
      year leaves a zero and then what was there before, a long one is cut. */
  function YearText(year: nat, was: seq<byte>): (r: seq<byte>)
    requires year < 0x10000 && |was| >= 4
    ensures |r| == 4
  {
    var d := Digits(year);
    seq(4, i requires 0 <= i < 4 => if i < |d| then d[i] else if i == |d| then 0 else was[i])
  }

  /** yyyy-mm-ddThh:mm:ss and a terminating zero. */
  function TextOf(f: Fields, was: seq<byte>): (r: seq<byte>)
    requires ValidDate(f) && |was| >= 4
    ensures |r| == ISO8601_MIN_LEN
  {
    YearText(f.year, was) + [45] + Two(f.month) + [45] + Two(f.day) + [84]
    + Two(f.hours) + [58] + Two(f.minutes) + [58] + Two(f.seconds) + [0]
  }

  /** A digit's value, as 8-bit arithmetic has it for any character. */
  function Value(c: byte): (r: byte) {
    if c >= 48 then c - 48 else c + 208
  }

  function YearOf(c0: byte, c1: byte, c2: byte, c3: byte): u16 {
    (1000 * Value(c0) + 100 * Value(c1) + 10 * Value(c2) + Value(c3)) % 0x10000
  }

  function PairOf(c0: byte, c1: byte): byte {
    (10 * Value(c0) + Value(c1)) % 0x100
  }

  /** The fields read off fixed positions of a text, whatever is in them. */
  function Parsed(text: seq<byte>): Fields
    requires |text| >= 19
  {
    Fields(YearOf(text[0], text[1], text[2], text[3]), PairOf(text[5], text[6]), PairOf(text[8], text[9]),
           PairOf(text[11], text[12]), PairOf(text[14], text[15]), PairOf(text[17], text[18]))
  }

  /** Any character counts as its distance from '0', in 8 bits; a pair as ten times the first and the
      second. */
  lemma ValueIs(c0: byte, c1: byte)
    ensures (Value(c0) - c0 + 48) % 0x100 == 0
    ensures (PairOf(c0, c1) - (10 * (c0 - 48) + (c1 - 48))) % 0x100 == 0
  {
  }

  /** What digits spell. */
  function Decimal(text: seq<byte>): int {
    if text == [] then 0 else 10 * Decimal(text[..|text| - 1]) + text[|text| - 1] - 48
  }

  predicate AreDigits(text: seq<byte>) {
    forall i :: 0 <= i < |text| ==> 48 <= text[i] <= 57
  }

  /** The text piece by piece: digits that spell the fields, and between them `-`, `-`, `T`, `:`, `:`
      and a zero at the end.  The year needs four digits for that. */
  lemma TextLayout(f: Fields, was: seq<byte>)
    requires ValidDate(f) && |was| >= 4
    ensures var t := TextOf(f, was);
            && |t| == 20 && [t[4], t[7], t[10], t[13], t[16], t[19]] == [0x2d, 0x2d, 0x54, 0x3a, 0x3a, 0]
            && AreDigits(t[5..7]) && Decimal(t[5..7]) == f.month && AreDigits(t[8..10]) && Decimal(t[8..10]) == f.day
            && AreDigits(t[11..13]) && Decimal(t[11..13]) == f.hours
            && AreDigits(t[14..16]) && Decimal(t[14..16]) == f.minutes
            && AreDigits(t[17..19]) && Decimal(t[17..19]) == f.seconds
            && (1000 <= f.year <= 9999 ==> AreDigits(t[..4]) && Decimal(t[..4]) == f.year)
  {
    TwoIs(f.month);
    TwoIs(f.day);
    TwoIs(f.hours);
    TwoIs(f.minutes);
    TwoIs(f.seconds);
    if 1000 <= f.year <= 9999 {
      FourIs(f.year, was);
    }
    hide Two, YearText, AreDigits, Decimal;
    var t := TextOf(f, was);
    assert t[..4] == YearText(f.year, was) && t[5..7] == Two(f.month) && t[8..10] == Two(f.day);
    assert t[11..13] == Two(f.hours) && t[14..16] == Two(f.minutes) && t[17..19] == Two(f.seconds);
  }

  lemma TwoIs(n: nat)
    requires n < 100
    ensures AreDigits(Two(n)) && Decimal(Two(n)) == n
  {
    var q, r := n / 10, n % 10;
    assert [48 + q, 48 + r][..1] == [48 + q] && [48 + q][..0] == [];
    assert Decimal([48 + q]) == q;
  }

  lemma FourIs(year: nat, was: seq<byte>)
    requires 1000 <= year <= 9999 && |was| >= 4
    ensures AreDigits(YearText(year, was)) && Decimal(YearText(year, was)) == year
  {
    assert YearText(year, was) == Digits(year);
    DigitsSpell(year);
  }

  lemma {:induction false} DigitsSpell(n: nat)
    requires n < 0x10000
    ensures AreDigits(Digits(n)) && Decimal(Digits(n)) == n
  {
    if n < 10 {
      assert [48 + n][..0] == [];
    } else {
      DigitsSpell(n / 10);
      assert Digits(n)[..|Digits(n)| - 1] == Digits(n / 10);
    }
  }

  lemma PairBack(n: nat)
    requires n < 100
    ensures PairOf(Two(n)[0], Two(n)[1]) == n
  {
    var q, r := n / 10, n % 10;
    assert n == 10 * q + r;
    ValueOfDigit(q);
    ValueOfDigit(r);
    hide Value;
  }

  lemma ValueOfDigit(d: nat)
    requires d < 10
    ensures Value(48 + d) == d
  {
  }

  lemma DigitsNext(n: nat, d: nat)
    requires 0 < n && d < 10 && 10 * n + d < 0x10000
    ensures Digits(10 * n + d) == Digits(n) + [48 + d]
  {
    assert (10 * n + d) / 10 == n && (10 * n + d) % 10 == d;
  }

  /** A year of two digits comes back as at least 3080. */
  lemma TwoDigitYear(a: nat, b: nat, was: seq<byte>)
    requires 0 < a < 10 && b < 10 && |was| >= 4
    ensures var t := YearText(10 * a + b, was); YearOf(t[0], t[1], t[2], t[3]) != 10 * a + b
  {
    OneDigit(a);
    DigitsNext(a, b);
    ValueOfDigit(a);
    ValueOfDigit(b);
    hide Digits;
  }

  lemma ThreeDigitYear(a: nat, b: nat, c: nat, was: seq<byte>)
    requires 0 < a < 10 && b < 10 && c < 10 && |was| >= 4
    ensures var year := 100 * a + 10 * b + c; var t := YearText(year, was); YearOf(t[0], t[1], t[2], t[3]) != year
  {
    OneDigit(a);
    DigitsNext(a, b);
    DigitsNext(10 * a + b, c);
    ValueOfDigit(a);
    ValueOfDigit(b);
    ValueOfDigit(c);
    hide Digits;
  }

  lemma FourDigitYear(a: nat, b: nat, c: nat, d: nat, was: seq<byte>)
    requires 0 < a < 10 && b < 10 && c < 10 && d < 10 && |was| >= 4
    ensures var year := 1000 * a + 100 * b + 10 * c + d;
            var t := YearText(year, was);
            YearOf(t[0], t[1], t[2], t[3]) == year
  {
    OneDigit(a);
    DigitsNext(a, b);
    DigitsNext(10 * a + b, c);
    DigitsNext(100 * a + 10 * b + c, d);
    ValueOfDigit(a);
    ValueOfDigit(b);
    ValueOfDigit(c);
    ValueOfDigit(d);
    hide Digits;
  }

  lemma OneDigit(a: nat)
    requires a < 10
    ensures Digits(a) == [48 + a]
  {
  }

  /** A year of five digits loses the last. */
  lemma LongYear(n: nat, d: nat, was: seq<byte>)
    requires 1000 <= n && d < 10 && 10 * n + d < 0x8000 && |was| >= 4
    ensures YearText(10 * n + d, was) == YearText(n, was) == Digits(n)
  {
    DigitsNext(n, d);
  }

  /** A year comes back exactly when it has four digits. */
  lemma YearBack(year: nat, was: seq<byte>)
    requires year < 0x8000 && |was| >= 4
    ensures var t := YearText(year, was); YearOf(t[0], t[1], t[2], t[3]) == year <==> 1000 <= year <= 9999
  {
    hide YearOf, YearText, Digits;
    var q, d := year / 10, year % 10;
    var h, c := q / 10, q % 10;
    var k, b := h / 10, h % 10;
    if year < 10 {
      SingleYear(year, was);
    } else if year < 100 {
      TwoDigitYear(q, d, was);
    } else if year < 1000 {
      ThreeDigitYear(h, c, d, was);
    } else if year < 10000 {
      FourDigitYear(k, b, c, d, was);
    } else {
      LongYear(q, d, was);
      FourDigitYear(k / 10, k % 10, b, c, was);
    }
  }

  lemma SingleYear(a: nat, was: seq<byte>)
    requires a < 10 && |was| >= 4
    ensures var t := YearText(a, was); YearOf(t[0], t[1], t[2], t[3]) != a
  {
    ValueOfDigit(a);
  }

  /** Printing and parsing give the same fields back exactly when the year has four digits,
      whatever was in the buffer before. */
  lemma TextBack(f: Fields, was: seq<byte>)
    requires ValidDate(f) && f.year < 0x8000 && |was| >= 4
    ensures Parsed(TextOf(f, was)) == f <==> 1000 <= f.year <= 9999
  {
    hide YearOf, PairOf, YearText, Two;
    YearBack(f.year, was);
    PairBack(f.month);
    PairBack(f.day);
    PairBack(f.hours);
    PairBack(f.minutes);
    PairBack(f.seconds);
  }

  /** itoa: the digits and a terminating zero. */
  method Itoa(buf: array<byte>, at: nat, n: nat)
    requires n < 0x10000 && at + |Digits(n)| < buf.Length
    modifies buf
    ensures forall i :: 0 <= i < buf.Length ==>
                          buf[i] == if at <= i < at + |Digits(n)| then Digits(n)[i - at]
                                    else if i == at + |Digits(n)| then 0 else old(buf[i])
  {
    var d := Digits(n);
    for k := 0 to |d|
      invariant forall i :: 0 <= i < buf.Length ==> buf[i] == if at <= i < at + k then d[i - at] else old(buf[i])
    {
      buf[at + k] := d[k];
    }
    buf[at + |d|] := 0;
  }

  /** A field of two digits.  The zero behind it, if one is written, is for the caller to cover. */
  method PrintTwo(buf: array<byte>, at: nat, n: nat)
    requires n < 100 && at + 2 < buf.Length
    modifies buf
    ensures buf[at] == Two(n)[0] && buf[at + 1] == Two(n)[1]
    ensures forall i :: 0 <= i < buf.Length && (i < at || at + 2 < i) ==> buf[i] == old(buf[i])
  {
    DigitsOfTwo(n);
    Itoa(buf, at, n);
    if n < 10 {
      buf[at + 1] := buf[at];
      buf[at] := 48;
    }
  }

  lemma DigitsOfTwo(n: nat)
    requires n < 100
    ensures Digits(n) == if n < 10 then [48 + n] else Two(n)
  {
  }

  /** The text, byte by byte. */
  lemma TextIs(f: Fields, was: seq<byte>, b: seq<byte>)
    requires ValidDate(f) && |was| >= 4 && |b| == ISO8601_MIN_LEN && b[..4] == YearText(f.year, was)
    requires b[4] == b[7] == 45 && b[10] == 84 && b[13] == b[16] == 58 && b[19] == 0
    requires b[5..7] == Two(f.month) && b[8..10] == Two(f.day)
    requires b[11..13] == Two(f.hours) && b[14..16] == Two(f.minutes) && b[17..19] == Two(f.seconds)
    ensures b == TextOf(f, was)
  {
    hide Two, YearText;
    assert b == b[..4] + [b[4]] + b[5..7] + [b[7]] + b[8..10] + [b[10]]
                + b[11..13] + [b[13]] + b[14..16] + [b[16]] + b[17..19] + [b[19]];
  }

  method ToIso8601(dt: DateTime, buf: array<byte>)
    requires ValidDate(dt.Shown()) && dt.year < 0x8000 && buf.Length >= ISO8601_MIN_LEN
    modifies buf
    ensures buf[..ISO8601_MIN_LEN] == TextOf(dt.Shown(), old(buf[..]))
    ensures forall i :: ISO8601_MIN_LEN <= i < buf.Length ==> buf[i] == old(buf[i])
  {
    hide Digits, Two, TextOf;
    PrintDate(dt, buf);
    ghost var date := buf[..11];
    PrintTime(dt, buf);
    ghost var b := buf[..ISO8601_MIN_LEN];
    assert b[..11] == date;
    assert b[..4] == date[..4] && b[5..7] == date[5..7] && b[8..10] == date[8..10];
    TextIs(dt.Shown(), old(buf[..]), b);
  }

  method PrintDate(dt: DateTime, buf: array<byte>)
    requires ValidDate(dt.Shown()) && dt.year < 0x8000 && buf.Length >= ISO8601_MIN_LEN
    modifies buf
    ensures buf[..4] == YearText(dt.year, old(buf[..])) && buf[4] == buf[7] == 45 && buf[10] == 84
    ensures buf[5..7] == Two(dt.month) && buf[8..10] == Two(dt.day)
    ensures forall i :: 11 <= i < buf.Length ==> buf[i] == old(buf[i])
  {
    hide Digits, Two;
    Itoa(buf, 0, dt.year);
    ghost var year := buf[..4];
    buf[4] := 45;
    PrintTwo(buf, 5, dt.month);
    buf[7] := 45;
    PrintTwo(buf, 8, dt.day);
    buf[10] := 84;
    assert buf[..4] == year;
  }

  method PrintTime(dt: DateTime, buf: array<byte>)
    requires ValidDate(dt.Shown()) && buf.Length >= ISO8601_MIN_LEN
    modifies buf
    ensures buf[13] == buf[16] == 58 && buf[19] == 0
    ensures buf[11..13] == Two(dt.hours) && buf[14..16] == Two(dt.minutes) && buf[17..19] == Two(dt.seconds)
    ensures forall i :: 0 <= i < buf.Length && (i < 11 || i >= ISO8601_MIN_LEN) ==> buf[i] == old(buf[i])
  {
    hide Digits, Two;
    PrintTwo(buf, 11, dt.hours);
    buf[13] := 58;
    PrintTwo(buf, 14, dt.minutes);
    buf[16] := 58;
    PrintTwo(buf, 17, dt.seconds);
    buf[19] := 0;
  }

  /** Two digits into an 8-bit field. */
  method ParseTwo(text: array<byte>, at: nat) returns (field: byte)
    requires at + 1 < text.Length
    ensures field == PairOf(text[at], text[at + 1])
  {
    field := (10 * Value(text[at]) + Value(text[at + 1])) % 0x100;
  }

  method ParseYear(text: array<byte>) returns (year: u16)
    requires text.Length >= 4
    ensures year == YearOf(text[0], text[1], text[2], text[3])
  {
    year := (1000 * Value(text[0]) + 100 * Value(text[1]) + 10 * Value(text[2]) + Value(text[3])) % 0x10000;
  }

  method ParseIso8601(text: array<byte>, len: nat, dt: DateTime)
    requires len <= text.Length
    modifies dt
    ensures dt.Shown() == if len >= ISO8601_MIN_LEN then Parsed(text[..]) else Fields(1900, 1, 1, 0, 0, 0)
  {
    hide YearOf, PairOf;
    dt.GetEpoch();
    if len >= ISO8601_MIN_LEN {
      dt.year := ParseYear(text);
      dt.month := ParseTwo(text, 5);
      dt.day := ParseTwo(text, 8);
      dt.hours := ParseTwo(text, 11);
      dt.minutes := ParseTwo(text, 14);
      dt.seconds := ParseTwo(text, 17);
    }
  }

  /** Every second of the 32-bit range survives being printed and parsed. */
  method SecondsThroughText(s: u32) returns (dt: DateTime)
    ensures ValidDate(dt.Shown()) && dt.year >= 1900 && SecondsOf(dt.Shown()) == s
  {
    var from := new DateTime();
    from.SecondsToDatetime(s);
    var buf := new byte[ISO8601_MIN_LEN];
    ghost var was := buf[..];
    ToIso8601(from, buf);
    TextBack(from.Shown(), was);
    assert buf[..] == buf[..ISO8601_MIN_LEN];
    dt := new DateTime();
    ParseIso8601(buf, ISO8601_MIN_LEN, dt);
  }
}
