/** Gregorian dates, ISO 8601 dates as integers, and Julian days, in truncating integer arithmetic. */
module Date {

  /** Division as C++ does it: the quotient is cut off toward zero. */
  function Div(a: int, b: int): int
    requires b > 0
  {
    if a >= 0 then a / b else -((-a) / b)
  }

  function YmdToIso(year: int, mon: int, mday: int): int {
    year * 10000 + mon * 100 + mday
  }

  function YmdToJd(i: int, j: int, k: int): int {
    k - 32075 + Div(1461 * (i + 4800 + Div(j - 14, 12)), 4)
    + Div(367 * (j - 2 - Div(j - 14, 12) * 12), 12)
    - Div(3 * Div(i + 4900 + Div(j - 14, 12), 100), 4)
  }

  function IsoToJd(iso: int): int {
    YmdToJd(Div(iso, 10000), Rem(Div(iso, 100), 100), Rem(iso, 100))
  }

  function Rem(a: int, b: int): int
    requires b > 0
  {
    a - Div(a, b) * b
  }

  /** The three numbers `jd_to_iso` arrives at: first the century `n` and the day `l` in it. */
  function JdToYmd(jd: int): (int, int, int) {
    var l := jd + 68569;
    var n := Div(4 * l, 146097);
    YearStep(n, l - Div(146097 * n + 3, 4))
  }

  /** Then the year `i` in the century. */
  function YearStep(n: int, l: int): (int, int, int) {
    var i := Div(4000 * (l + 1), 1461001);
    MonthStep(n, i, l - Div(1461 * i, 4) + 31)
  }

  /** Then the month and the day, which tell whether the year is still the one that began in March. */
  function MonthStep(n: int, i: int, l: int): (int, int, int) {
    var j := Div(80 * l, 2447);
    var k := l - Div(2447 * j, 80);
    var m := Div(j, 11);
    (100 * (n - 49) + i + m, j + 2 - 12 * m, k)
  }

  function JdToIso(jd: int): int {
    var (i, j, k) := JdToYmd(jd);
    i * 10000 + j * 100 + k
  }

  // ---------------------------------------------------------------- the calendar

  predicate Leap(year: int) {
    year % 4 == 0 && (year % 100 != 0 || year % 400 == 0)
  }

  function DaysIn(year: int, mon: int): int {
    if mon == 2 then (if Leap(year) then 29 else 28)
    else if mon == 4 || mon == 6 || mon == 9 || mon == 11 then 30
    else 31
  }

  /** A date of the proleptic Gregorian calendar, from the year nought on. */
  predicate IsDate(year: int, mon: int, mday: int) {
    year >= 0 && 1 <= mon <= 12 && 1 <= mday <= DaysIn(year, mon)
  }

  function NextDay(year: int, mon: int, mday: int): (int, int, int) {
    if mday < DaysIn(year, mon) then (year, mon, mday + 1)
    else if mon < 12 then (year, mon + 1, 1)
    else (year + 1, 1, 1)
  }

  // ---------------------------------------------------------------- counting from March

  /** January and February count to the year before, which then begins in March. */
  function MarchYear(year: int, mon: int): int {
    if mon <= 2 then year - 1 else year
  }

  /** The month, counted from March as nought. */
  function MarchMonth(mon: int): int {
    if mon <= 2 then mon + 9 else mon - 3
  }

  /** A day of a month counted from March. */
  predicate IsMarchDay(month: int, mday: int) {
    0 <= month <= 11 && 1 <= mday <= if month in {0, 2, 4, 5, 7, 9, 10} then 31 else 30
  }

  /** Days before a month of such a year. */
  function DaysBefore(month: int): int {
    (367 * (month + 1)) / 12 - 30
  }

  /** The day of its century, from nought: `e` years in. */
  function CenturyDay(e: int, month: int, mday: int): int {
    (1461 * e) / 4 + DaysBefore(month) + mday - 1
  }

  /** The Julian day, by century and day of the century. */
  lemma JdByCentury(year: int, mon: int, mday: int)
    requires IsDate(year, mon, mday)
    ensures var z := MarchYear(year, mon) + 4900;
            YmdToJd(year, mon, mday) + 68569 ==
            (146097 * (z / 100) + 3) / 4 + CenturyDay(z % 100, MarchMonth(mon), mday)
  {
    var y, z := MarchYear(year, mon), MarchYear(year, mon) + 4900;
    var c, e := z / 100, z % 100;
    assert Div(mon - 14, 12) == y - year;
    assert mon - 2 - Div(mon - 14, 12) * 12 == MarchMonth(mon) + 1;
    YearsDays(c, e);
    CenturyDays(c);
  }

  lemma YearsDays(c: int, e: int)
    ensures (1461 * (100 * c + e - 100)) / 4 == 36525 * (c - 1) + (1461 * e) / 4
  {
    assert 1461 * (100 * c + e - 100) == 4 * (36525 * (c - 1)) + 1461 * e;
  }

  lemma CenturyDays(c: int)
    ensures 36525 * c - (3 * c) / 4 == (146097 * c + 3) / 4
  {
    var q, r := c / 4, c % 4;
    assert c == 4 * q + r;
    assert (3 * c) / 4 == 3 * q + (3 * r) / 4;
    assert (146097 * c + 3) / 4 == 146097 * q + (146097 * r + 3) / 4;
  }

  /** How long a year from March on is, and how long a century. */
  lemma CenturyDayBounds(year: int, mon: int, mday: int)
    requires IsDate(year, mon, mday)
    ensures var z := MarchYear(year, mon) + 4900;
            var d := CenturyDay(z % 100, MarchMonth(mon), mday);
            && (1461 * (z % 100)) / 4 <= d < (1461 * (z % 100 + 1)) / 4
            && d <= 36524 && (d == 36524 ==> (z / 100) % 4 == 0)
  {
    var z := MarchYear(year, mon) + 4900;
    var c, e := z / 100, z % 100;
    assert z == 100 * c + e;
    MonthDays(year, mon, mday);
    YearLength(e);
    if mon == 2 && mday == 29 {
      LeapCentury(year, c, e);
    }
  }

  /** The day of the year from March on: 365 days, and one more when it ends in a leap February. */
  lemma MonthDays(year: int, mon: int, mday: int)
    requires IsDate(year, mon, mday)
    ensures 0 <= DaysBefore(MarchMonth(mon)) + mday - 1 <= 365
    ensures DaysBefore(MarchMonth(mon)) + mday - 1 == 365 ==> mon == 2 && mday == 29 && Leap(year)
  {
    if mon == 1 {
    } else if mon == 2 {
    } else if mon == 3 {
    } else if mon == 4 {
    } else if mon == 5 {
    } else if mon == 6 {
    } else if mon == 7 {
    } else if mon == 8 {
    } else if mon == 9 {
    } else if mon == 10 {
    } else if mon == 11 {
    } else {
    }
  }

  lemma YearLength(e: int)
    ensures (1461 * (e + 1)) / 4 - (1461 * e) / 4 == if (e + 1) % 4 == 0 then 366 else 365
  {
    assert 1461 * e == 4 * (365 * e) + e;
    assert 1461 * (e + 1) == 4 * (365 * (e + 1)) + (e + 1);
  }

  lemma LeapCentury(year: int, c: int, e: int)
    requires Leap(year) && year - 1 + 4900 == 100 * c + e && 0 <= e < 100
    ensures (e + 1) % 4 == 0 && (e == 99 ==> c % 4 == 0)
  {
    if e == 99 {
      assert year == 100 * (c - 48);
      assert year % 400 == 0;
    }
  }

  // ---------------------------------------------------------------- and back

  /** The first two steps back find the century and the day in it. */
  lemma FindCentury(c: int, d: int)
    requires c >= 0 && 0 <= d <= 36524 && (d == 36524 ==> c % 4 == 0)
    ensures (4 * ((146097 * c + 3) / 4 + d)) / 146097 == c
  {
    var l := (146097 * c + 3) / 4;
    assert 4 * l == 146097 * c + (if c % 4 == 0 then 0 else 4 - c % 4);
    assert 146097 * c <= 4 * (l + d) < 146097 * (c + 1);
  }

  /** The next two find the year in the century and the day in it. */
  lemma FindYear(e: int, d: int)
    requires 0 <= e < 100 && (1461 * e) / 4 <= d < (1461 * (e + 1)) / 4
    ensures (4000 * (d + 1)) / 1461001 == e
  {
    assert 1461001 * e <= 4000 * (d + 1) < 1461001 * (e + 1);
  }

  /** And the last ones the month and the day in it. */
  lemma FindMonth(month: int, mday: int)
    requires IsMarchDay(month, mday)
    ensures var l := DaysBefore(month) + 30 + mday;
            (80 * l) / 2447 == month + 1 && l - (2447 * (month + 1)) / 80 == mday
  {
    if month == 0 {
    } else if month == 1 {
    } else if month == 2 {
    } else if month == 3 {
    } else if month == 4 {
    } else if month == 5 {
    } else if month == 6 {
    } else if month == 7 {
    } else if month == 8 {
    } else if month == 9 {
    } else if month == 10 {
    } else {
    }
  }

  /** The steps of `jd_to_iso`, from the day's number built up of century, year, month and day. */
  lemma Back(c: int, e: int, month: int, mday: int)
    requires c >= 0 && 0 <= e < 100 && IsMarchDay(month, mday)
    requires var d := CenturyDay(e, month, mday);
             (1461 * e) / 4 <= d < (1461 * (e + 1)) / 4 && d <= 36524 && (d == 36524 ==> c % 4 == 0)
    ensures JdToYmd((146097 * c + 3) / 4 + CenturyDay(e, month, mday) - 68569) ==
            (100 * (c - 49) + e + (month + 1) / 11, month + 3 - 12 * ((month + 1) / 11), mday)
  {
    hide DaysBefore, YearStep;
    var d := CenturyDay(e, month, mday);
    FindCentury(c, d);
    YearBack(c, e, month, mday);
  }

  lemma YearBack(c: int, e: int, month: int, mday: int)
    requires 0 <= e < 100 && IsMarchDay(month, mday)
    requires (1461 * e) / 4 <= CenturyDay(e, month, mday) < (1461 * (e + 1)) / 4
    ensures YearStep(c, CenturyDay(e, month, mday)) ==
            (100 * (c - 49) + e + (month + 1) / 11, month + 3 - 12 * ((month + 1) / 11), mday)
  {
    hide DaysBefore, MonthStep;
    FindYear(e, CenturyDay(e, month, mday));
    MonthBack(c, e, month, mday);
  }

  lemma MonthBack(c: int, e: int, month: int, mday: int)
    requires IsMarchDay(month, mday)
    ensures MonthStep(c, e, DaysBefore(month) + 30 + mday) ==
            (100 * (c - 49) + e + (month + 1) / 11, month + 3 - 12 * ((month + 1) / 11), mday)
    ensures 0 <= DaysBefore(month)
  {
    FindMonth(month, mday);
  }

  /** Converting a date to its Julian day and back gives the date. */
  lemma JdToYmdInverts(year: int, mon: int, mday: int)
    requires IsDate(year, mon, mday)
    ensures JdToYmd(YmdToJd(year, mon, mday)) == (year, mon, mday)
  {
    hide YmdToJd, JdToYmd, CenturyDay;
    var z := MarchYear(year, mon) + 4900;
    JdByCentury(year, mon, mday);
    CenturyDayBounds(year, mon, mday);
    Back(z / 100, z % 100, MarchMonth(mon), mday);
  }

  /** Each calendar day is one Julian day after the one before. */
  lemma NextDayIsNext(year: int, mon: int, mday: int)
    requires IsDate(year, mon, mday)
    ensures var (y, m, d) := NextDay(year, mon, mday);
            IsDate(y, m, d) && YmdToJd(y, m, d) == YmdToJd(year, mon, mday) + 1
  {
    hide YmdToJd;
    var (y, m, d) := NextDay(year, mon, mday);
    var z := MarchYear(year, mon) + 4900;
    JdByCentury(year, mon, mday);
    JdByCentury(y, m, d);
    if mday == DaysIn(year, mon) {
      if mon == 2 {
        YearTurns(z / 100, z % 100, year);
        assert z == 100 * (z / 100) + z % 100;
      } else {
        MonthTurns(year, mon);
      }
    }
  }

  lemma MonthTurns(year: int, mon: int)
    requires 1 <= mon <= 12 && mon != 2
    ensures var m := if mon == 12 then 1 else mon + 1;
            DaysBefore(MarchMonth(m)) == DaysBefore(MarchMonth(mon)) + DaysIn(year, mon)
    ensures var (y, m) := if mon == 12 then (year + 1, 1) else (year, mon + 1); MarchYear(y, m) == MarchYear(year, mon)
  {
    if mon == 1 {
    } else if mon == 3 {
    } else if mon == 4 {
    } else if mon == 5 {
    } else if mon == 6 {
    } else if mon == 7 {
    } else if mon == 8 {
    } else if mon == 9 {
    } else if mon == 10 {
    } else if mon == 11 {
    } else {
    }
  }

  /** From the last day of a February to the first of March, perhaps of another century. */
  lemma YearTurns(c: int, e: int, year: int)
    requires year - 1 + 4900 == 100 * c + e && 0 <= e < 100
    ensures var z := year + 4900;
            (146097 * (z / 100) + 3) / 4 + CenturyDay(z % 100, 0, 1) ==
            (146097 * c + 3) / 4 + CenturyDay(e, 11, DaysIn(year, 2)) + 1
  {
    var z := year + 4900;
    assert z == 100 * c + e + 1;
    YearLength(e);
    if e < 99 {
      assert z / 100 == c && z % 100 == e + 1;
      LeapWithin(year, c, e);
    } else {
      assert z / 100 == c + 1 && z % 100 == 0;
      assert year == 100 * (c - 48);
      LeapAtCentury(year, c);
      CenturyLength(c);
    }
  }

  lemma LeapWithin(year: int, c: int, e: int)
    requires year == 100 * (c - 49) + e + 1 && 0 <= e < 99
    ensures Leap(year) <==> (e + 1) % 4 == 0
  {
    hide Leap;
    Hundreds(year, c - 49, e + 1);
    Fours(year, 25 * (c - 49), e + 1);
    LeapIs(year);
  }

  lemma LeapAtCentury(year: int, c: int)
    requires year == 100 * (c - 48)
    ensures Leap(year) <==> c % 4 == 0
  {
    hide Leap;
    Hundreds(year, c - 48, 0);
    Fours(year, 25 * (c - 48), 0);
    FourHundreds(year, c);
    LeapIs(year);
  }

  lemma LeapIs(year: int)
    ensures Leap(year) <==> year % 4 == 0 && (year % 100 != 0 || year % 400 == 0)
  {
  }

  lemma Hundreds(x: int, q: int, r: int)
    requires x == 100 * q + r && 0 <= r < 100
    ensures x % 100 == r
  {
  }

  lemma Fours(x: int, q: int, r: int)
    requires x == 4 * q + r
    ensures x % 4 == r % 4
  {
  }

  lemma FourHundreds(x: int, c: int)
    requires x == 100 * (c - 48)
    ensures x % 400 == 0 <==> c % 4 == 0
  {
    assert x == 400 * (c / 4 - 12) + 100 * (c % 4);
  }

  lemma CenturyLength(c: int)
    ensures (146097 * (c + 1) + 3) / 4 - (146097 * c + 3) / 4 == if c % 4 == 0 then 36525 else 36524
  {
    var q, r := c / 4, c % 4;
    assert c == 4 * q + r;
    assert (146097 * c + 3) / 4 == 146097 * q + (146097 * r + 3) / 4;
    assert (146097 * (c + 1) + 3) / 4 == 146097 * q + (146097 * (r + 1) + 3) / 4;
  }

  // ---------------------------------------------------------------- ISO dates

  /** The decimal form of a date is taken apart again. */
  lemma IsoToJdIs(year: int, mon: int, mday: int)
    requires IsDate(year, mon, mday)
    ensures IsoToJd(YmdToIso(year, mon, mday)) == YmdToJd(year, mon, mday)
  {
    hide YmdToJd, Rem, Div;
    var iso := YmdToIso(year, mon, mday);
    Hundredths(iso, 100 * year + mon, mday);
    Hundredths(100 * year + mon, year, mon);
    TenThousandth(iso, year, 100 * mon + mday);
  }

  lemma Hundredths(x: int, q: int, r: int)
    requires x == 100 * q + r && 0 <= r < 100 && q >= 0
    ensures Div(x, 100) == q && Rem(x, 100) == r
  {
  }

  lemma TenThousandth(x: int, q: int, r: int)
    requires x == 10000 * q + r && 0 <= r < 10000 && q >= 0
    ensures Div(x, 10000) == q
  {
  }

  /** The two conversions undo each other. */
  lemma RoundTrips(year: int, mon: int, mday: int)
    requires IsDate(year, mon, mday)
    ensures JdToIso(YmdToJd(year, mon, mday)) == YmdToIso(year, mon, mday)
    ensures JdToIso(IsoToJd(YmdToIso(year, mon, mday))) == YmdToIso(year, mon, mday)
    ensures IsoToJd(JdToIso(YmdToJd(year, mon, mday))) == YmdToJd(year, mon, mday)
  {
    hide YmdToJd, JdToYmd, IsoToJd;
    JdToYmdInverts(year, mon, mday);
    IsoToJdIs(year, mon, mday);
  }

  /** So every Julian day from the first of January of the year nought on is some date's. */
  lemma {:induction false} EveryDayHasADate(jd: int) returns (year: int, mon: int, mday: int)
    requires jd >= YmdToJd(0, 1, 1)
    ensures IsDate(year, mon, mday) && YmdToJd(year, mon, mday) == jd
    decreases jd - YmdToJd(0, 1, 1)
  {
    hide YmdToJd;
    if jd == YmdToJd(0, 1, 1) {
      year, mon, mday := 0, 1, 1;
    } else {
      var y, m, d := EveryDayHasADate(jd - 1);
      NextDayIsNext(y, m, d);
      var next := NextDay(y, m, d);
      year, mon, mday := next.0, next.1, next.2;
    }
  }

  // ---------------------------------------------------------------- order

  /** One date is earlier than another: by year, then by month, then by day. */
  predicate Earlier(a: (int, int, int), b: (int, int, int)) {
    a.0 < b.0 || (a.0 == b.0 && (a.1 < b.1 || (a.1 == b.1 && a.2 < b.2)))
  }

  /** The calendar runs forward: `n` days on from a date is a date no earlier. */
  lemma {:induction false} DaysOn(year: int, mon: int, mday: int, n: nat) returns (y: int, m: int, d: int)
    requires IsDate(year, mon, mday)
    ensures IsDate(y, m, d) && YmdToJd(y, m, d) == YmdToJd(year, mon, mday) + n
    ensures !Earlier((y, m, d), (year, mon, mday))
  {
    hide YmdToJd, DaysIn;
    y, m, d := year, mon, mday;
    if n > 0 {
      y, m, d := DaysOn(year, mon, mday, n - 1);
      NextDayIsNext(y, m, d);
      NextDayIsLater(y, m, d);
      var next := NextDay(y, m, d);
      y, m, d := next.0, next.1, next.2;
    }
  }

  lemma NextDayIsLater(year: int, mon: int, mday: int)
    requires IsDate(year, mon, mday)
    ensures Earlier((year, mon, mday), NextDay(year, mon, mday))
  {
  }

  /** Julian days are in the order of their dates. */
  lemma JdInOrder(y: int, m: int, d: int, y': int, m': int, d': int)
    requires IsDate(y, m, d) && IsDate(y', m', d')
    ensures YmdToJd(y, m, d) < YmdToJd(y', m', d') <==> Earlier((y, m, d), (y', m', d'))
  {
    hide YmdToJd, JdToYmd, IsDate;
    var jd, jd' := YmdToJd(y, m, d), YmdToJd(y', m', d');
    JdToYmdInverts(y, m, d);
    JdToYmdInverts(y', m', d');
    if jd < jd' {
      var a, b, c := DaysOn(y, m, d, jd' - jd);
      JdToYmdInverts(a, b, c);
    } else {
      var a, b, c := DaysOn(y', m', d', jd - jd');
      JdToYmdInverts(a, b, c);
    }
  }

  /** And so are the ISO numbers of dates, so that these sort as the dates do. */
  lemma IsoInOrder(y: int, m: int, d: int, y': int, m': int, d': int)
    requires IsDate(y, m, d) && IsDate(y', m', d')
    ensures YmdToIso(y, m, d) < YmdToIso(y', m', d') <==> Earlier((y, m, d), (y', m', d'))
    ensures YmdToIso(y, m, d) < YmdToIso(y', m', d') <==> YmdToJd(y, m, d) < YmdToJd(y', m', d')
  {
    hide YmdToJd;
    JdInOrder(y, m, d, y', m', d');
  }

  /** Where the count of Julian days starts: the first of January 1978 is day 2443510. */
  lemma JdAnchored()
    ensures YmdToJd(1978, 1, 1) == 2443510 && JdToIso(2443510) == 19780101
  {
    assert YmdToJd(1978, 1, 1) == 2443510;
    RoundTrips(1978, 1, 1);
  }

  // ---------------------------------------------------------------- thirty-two bits

  /** Up to the year 214748, the last one that an ISO date fits, no intermediate result overflows. */
  lemma NoOverflow(year: int, mon: int, mday: int)
    requires IsDate(year, mon, mday) && year <= 214748
    ensures YmdToIso(214749, 1, 1) >= 0x8000_0000
    ensures 0 <= YmdToIso(year, mon, mday) < 0x8000_0000 && 0 <= 1461 * (year + 4800) < 0x8000_0000
    ensures var l := YmdToJd(year, mon, mday) + 68569;
            var n := (4 * l) / 146097;
            var l2 := l - (146097 * n + 3) / 4;
            0 <= 4 * l < 0x8000_0000 && 0 <= 146097 * n + 3 < 0x8000_0000 && 0 <= 4000 * (l2 + 1) < 0x8000_0000
  {
    hide YmdToJd, CenturyDay;
    var z := MarchYear(year, mon) + 4900;
    JdByCentury(year, mon, mday);
    CenturyDayBounds(year, mon, mday);
    FindCentury(z / 100, CenturyDay(z % 100, MarchMonth(mon), mday));
  }
}
