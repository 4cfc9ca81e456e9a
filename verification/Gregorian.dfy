/**
 The calendar that names the days of requests (geonode/cephgeo/views.py, create_ftp_folder): the Gregorian calendar,
 counted from the first day of 1970 in both directions, printed as year, month and day.
 */
module Gregorian {
  import opened Text
  import FtpLedger

  datatype Day = Day(year: int, month: nat, day: nat)

  predicate Leap(year: int) {
    year % 4 == 0 && (year % 100 != 0 || year % 400 == 0)
  }

  function MonthLength(year: int, month: nat): (n: nat)
    ensures 28 <= n <= 31
  {
    if month == 2 then (if Leap(year) then 29 else 28) else if month in {4, 6, 9, 11} then 30 else 31
  }

  predicate Valid(d: Day) {
    1 <= d.month <= 12 && 1 <= d.day <= MonthLength(d.year, d.month)
  }

  predicate Before(a: Day, b: Day) {
    a.year < b.year || (a.year == b.year && (a.month < b.month || (a.month == b.month && a.day < b.day)))
  }

  function Next(d: Day): (r: Day)
    requires Valid(d)
    ensures Valid(r) && Before(d, r)
  {
    if d.day < MonthLength(d.year, d.month) then d.(day := d.day + 1)
    else if d.month < 12 then Day(d.year, d.month + 1, 1)
    else Day(d.year + 1, 1, 1)
  }

  function Previous(d: Day): (r: Day)
    requires Valid(d)
    ensures Valid(r) && Before(r, d)
  {
    if d.day > 1 then d.(day := d.day - 1)
    else if d.month > 1 then Day(d.year, d.month - 1, MonthLength(d.year, d.month - 1))
    else Day(d.year - 1, 12, 31)
  }

  /** Forwards and backwards undo each other: no day is passed over. */
  lemma DaysAreAdjacent(d: Day)
    requires Valid(d)
    ensures Previous(Next(d)) == d && Next(Previous(d)) == d
  {
  }

  function DayAt(n: int): (d: Day)
    ensures Valid(d)
    decreases if n < 0 then -n else n
  {
    if n == 0 then Day(1970, 1, 1) else if n > 0 then Next(DayAt(n - 1)) else Previous(DayAt(n + 1))
  }

  lemma {:induction false} DaysInOrder(m: int, n: int)
    requires m < n
    ensures Before(DayAt(m), DayAt(n))
    decreases n - m
  {
    assert Before(DayAt(n - 1), DayAt(n));
    if m < n - 1 {
      DaysInOrder(m, n - 1);
    }
  }

  /**
   The number of a day by a formula of its own, without leap years or lengths of months: years are counted from March,
   so that the leap day is the last of its year.
   */
  function Serial(d: Day): int {
    var y, m := if d.month > 2 then d.year else d.year - 1, (d.month + 9) % 12;
    365 * y + y / 4 - y / 100 + y / 400 + (153 * m + 2) / 5 + d.day - 719469
  }

  /** How many leap days lie between two Marches. */
  lemma MarchToMarch(y: int)
    ensures y / 4 - y / 100 + y / 400 - ((y - 1) / 4 - (y - 1) / 100 + (y - 1) / 400)
         == (if y % 4 == 0 then 1 else 0) - (if y % 100 == 0 then 1 else 0) + (if y % 400 == 0 then 1 else 0)
  {
    Multiples(y, 4);
    Multiples(y, 100);
    Multiples(y, 400);
  }

  lemma Multiples(y: int, n: int)
    requires n in {4, 100, 400}
    ensures y / n - (y - 1) / n == if y % n == 0 then 1 else 0
  {
  }

  lemma SerialOfNext(d: Day)
    requires Valid(d)
    ensures Serial(Next(d)) == Serial(d) + 1
  {
    if d.day == MonthLength(d.year, d.month) {
      if d.month == 2 {
        EndOfFebruary(d);
      } else if d.month < 12 {
        EndOfMonth(d);
      }
    }
  }

  lemma EndOfFebruary(d: Day)
    requires Valid(d) && d.month == 2 && d.day == MonthLength(d.year, 2)
    ensures Serial(Day(d.year, 3, 1)) == Serial(d) + 1
  {
    MarchToMarch(d.year);
    LeapDay(d.year);
  }

  lemma LeapDay(y: int)
    ensures (if Leap(y) then 1 else 0)
         == (if y % 4 == 0 then 1 else 0) - (if y % 100 == 0 then 1 else 0) + (if y % 400 == 0 then 1 else 0)
  {
    Divisible(y, 4, 25);
    Divisible(y, 100, 4);
  }

  lemma Divisible(y: int, m: nat, n: nat)
    requires (m == 4 && n == 25) || (m == 100 && n == 4)
    ensures y % (m * n) == 0 ==> y % m == 0
  {
  }

  lemma EndOfMonth(d: Day)
    requires Valid(d) && d.month < 12 && d.month != 2 && d.day == MonthLength(d.year, d.month)
    ensures Serial(Day(d.year, d.month + 1, 1)) == Serial(d) + 1
  {
    MonthStep(d.month);
  }

  /** From one month to the next, except from February. */
  lemma MonthStep(month: nat)
    requires 1 <= month < 12 && month != 2
    ensures (month + 10) % 12 == (month + 9) % 12 + 1
    ensures (153 * ((month + 9) % 12 + 1) + 2) / 5 - (153 * ((month + 9) % 12) + 2) / 5
         == if month in {4, 6, 9, 11} then 30 else 31
  {
  }

  /** The n-th day of the calendar is the one with that number. */
  lemma {:induction false} SerialExactly(n: int)
    ensures Serial(DayAt(n)) == n
    decreases if n < 0 then -n else n
  {
    if n > 0 {
      SerialExactly(n - 1);
      assert DayAt(n) == Next(DayAt(n - 1));
      SerialOfNext(DayAt(n - 1));
    } else if n < 0 {
      SerialExactly(n + 1);
      assert DayAt(n) == Previous(DayAt(n + 1));
      SerialOfPrevious(DayAt(n + 1));
    }
  }

  lemma SerialOfPrevious(d: Day)
    requires Valid(d)
    ensures Serial(Previous(d)) == Serial(d) - 1
  {
    DaysAreAdjacent(d);
    SerialOfNext(Previous(d));
  }

  function Printed(d: Day): string
    requires Valid(d)
  {
    DecInt(d.year) + "-" + TwoDigits(d.month) + "-" + TwoDigits(d.day)
  }

  lemma PrintedInjective(a: Day, b: Day)
    requires Valid(a) && Valid(b) && Printed(a) == Printed(b)
    ensures a == b
  {
    var p, n := Printed(a), |Printed(a)|;
    assert TwoDigits(a.day) == p[n - 2..] && TwoDigits(b.day) == p[n - 2..];
    assert TwoDigits(a.month) == p[n - 5..n - 3] && TwoDigits(b.month) == p[n - 5..n - 3];
    assert DecInt(a.year) == p[..n - 6] && DecInt(b.year) == p[..n - 6];
    TwoDigitsInjective(a.day, b.day);
    TwoDigitsInjective(a.month, b.month);
    DecIntInjective(a.year, b.year);
  }

  function Date(n: int): string {
    Printed(DayAt(n))
  }

  /** This printing of days meets what the ledger asks of one. */
  lemma GregorianIsCalendar()
    ensures FtpLedger.Calendar(Date)
  {
    forall d, e | Date(d) == Date(e) ensures d == e {
      PrintedInjective(DayAt(d), DayAt(e));
      if d < e {
        DaysInOrder(d, e);
      } else if e < d {
        DaysInOrder(e, d);
      }
    }
    forall d ensures '_' !in Date(d) {
      assert '_' !in DecInt(DayAt(d).year);
    }
  }

  lemma SampleDays()
    ensures Date(0) == "1970-01-01" && Date(1) == "1970-01-02" && Date(-1) == "1969-12-31"
    ensures Next(Day(2000, 2, 28)) == Day(2000, 2, 29) && Next(Day(1900, 2, 28)) == Day(1900, 3, 1)
  {
    assert DayAt(-1) == Previous(DayAt(0)) && DayAt(1) == Next(DayAt(0));
    assert Dec(1970) == "1970" && Dec(1969) == "1969";
  }

  /** Five past two in the afternoon of the second day. */
  lemma SampleName()
    ensures FtpLedger.RequestName(Date, 137100.0) == "ftprequest_1970-01-02_1405"
  {
    SampleDays();
    SampleClock();
    SampleNameOn(Date, "14", "05");
  }

  lemma SampleClock()
    ensures Value("14") == 14 && Value("05") == 5
  {
    TwoDigitsOf("14");
    TwoDigitsOf("05");
  }

  lemma SampleNameOn(date: int -> string, hour: string, minute: string)
    requires date(1) == "1970-01-02" && hour == "14" && minute == "05" && Value(hour) == 14 && Value(minute) == 5
    ensures FtpLedger.RequestName(date, 137100.0) == "ftprequest_1970-01-02_1405"
  {
    assert FtpLedger.SecondOf(1, 14, 5, 0.0) == 137100.0;
    FtpLedger.NameExactly(date, 1, 14, 5, 0.0, hour, minute);
    assert "ftprequest_" + date(1) + "_" + hour + minute == "ftprequest_1970-01-02_1405";
  }

  /** So with the names the server gives, no two requests of any run share one. */
  lemma ServerNamesNeverClash(objects: FtpLedger.Objects, run: seq<FtpLedger.Event>)
    requires FtpLedger.Monotone(run)
    ensures FtpLedger.NamesDiffer(FtpLedger.After(FtpLedger.Fresh(objects), Date, run).ledger.requests)
  {
    GregorianIsCalendar();
    FtpLedger.NamesNeverClash(objects, Date, run);
  }
}
