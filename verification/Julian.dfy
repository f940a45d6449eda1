/** Calendar dates and Julian day numbers, as stored in DateTime fields. */
module Julian {

  /** A date of the proleptic Gregorian calendar; year 0 is the year before year 1. */
  datatype Date = Date(year: int, month: int, day: int)

  predicate IsLeap(y: int) {
    y % 4 == 0 && (y % 100 != 0 || y % 400 == 0)
  }

  function DaysIn(y: int, m: int): int {
    if m == 2 then (if IsLeap(y) then 29 else 28)
    else if m == 4 || m == 6 || m == 9 || m == 11 then 30
    else 31
  }

  predicate IsDate(d: Date) {
    1 <= d.month <= 12 && 1 <= d.day <= DaysIn(d.year, d.month)
  }

  /** The calendar's own notion of the day after. */
  function NextDay(d: Date): Date {
    if d.day < DaysIn(d.year, d.month) then Date(d.year, d.month, d.day + 1)
    else if d.month < 12 then Date(d.year, d.month + 1, 1)
    else Date(d.year + 1, 1, 1)
  }

  /** Day number of a date. All divisions are of numbers that are not negative. */
  function Encode(d: Date): int {
    var a := (14 - d.month) / 12;
    var y2 := d.year + 4800 - a;
    var m2 := d.month + 12 * a - 3;
    d.day + (153 * m2 + 2) / 5 + 365 * y2 + y2 / 4 - y2 / 100 + y2 / 400 - 32045
  }

  /** Date of a day number. */
  function Decode(day: nat): Date {
    var a := day + 32044;
    var b := (4 * a + 3) / 146097;
    var c := a - (146097 * b) / 4;
    var d := (4 * c + 3) / 1461;
    var e := c - (1461 * d) / 4;
    var m := (5 * e + 2) / 153;
    Date(100 * b + d - 4800 + m / 10, m + 3 - 12 * (m / 10), e - (153 * m + 2) / 5 + 1)
  }

  // ---------------------------------------------------------------- the calendar in March years

  /** Days before century b, before year r of a century, and before month m of a year that begins in March. */
  function Century(b: int): int { 146097 * b / 4 }
  function YearStart(r: int): int { 1461 * r / 4 }
  function MonthStart(m: int): int { (153 * m + 2) / 5 }

  /** Each of the three divisions in Decode finds the period a day falls into. */
  lemma CenturyOf(a: int, b: int)
    requires a >= 0 && b >= 0
    ensures (4 * a + 3) / 146097 == b <==> Century(b) <= a < Century(b + 1)
  {
  }

  lemma YearOf(c: int, r: int)
    requires c >= 0 && r >= 0
    ensures (4 * c + 3) / 1461 == r <==> YearStart(r) <= c < YearStart(r + 1)
  {
  }

  lemma MonthOf(e: int, m: int)
    requires e >= 0 && m >= 0
    ensures (5 * e + 2) / 153 == m <==> MonthStart(m) <= e < MonthStart(m + 1)
  {
  }

  /** A day as century, year of the century, month from March and day of the month from 0. */
  datatype March = March(b: int, r: int, m: int, k: int)

  /** The length of a month in a year that begins in March; the last month has the leap day. */
  function MarchLength(b: int, r: int, m: int): int {
    if m == 11 then (if LeapEnd(b, r) then 29 else 28)
    else if m == 1 || m == 3 || m == 6 || m == 8 then 30
    else 31
  }

  predicate LeapEnd(b: int, r: int) {
    r % 4 == 3 && (r != 99 || b % 4 == 3)
  }

  predicate IsMarch(x: March) {
    0 <= x.b && 0 <= x.r < 100 && 0 <= x.m < 12 && 0 <= x.k < MarchLength(x.b, x.r, x.m)
  }

  function DayOf(x: March): int {
    Century(x.b) + YearStart(x.r) + MonthStart(x.m) + x.k
  }

  function ToMarch(d: Date): March {
    var a := (14 - d.month) / 12;
    var y2 := d.year + 4800 - a;
    March(y2 / 100, y2 % 100, d.month + 12 * a - 3, d.day - 1)
  }

  function FromMarch(x: March): Date {
    Date(100 * x.b + x.r - 4800 + x.m / 10, x.m + 3 - 12 * (x.m / 10), x.k + 1)
  }

  lemma MarchMonths(m: int)
    requires 0 <= m < 12
    ensures MonthStart(m + 1) - MonthStart(m) == if m == 11 then 30 else MarchLength(0, 0, m)
  {
  }

  lemma MarchYears(b: int, r: int)
    requires 0 <= b && 0 <= r < 100
    ensures YearStart(r + 1) - YearStart(r) == if r % 4 == 3 then 366 else 365
    ensures Century(b + 1) - Century(b) == if b % 4 == 3 then 36525 else 36524
    ensures YearStart(100) == 36525 && YearStart(99) == 36159
  {
  }

  /** The four parts of a day are found again from its number. */
  lemma PartsFound(x: March)
    requires IsMarch(x)
    ensures var a := DayOf(x);
      && a >= 0 && (4 * a + 3) / 146097 == x.b
      && (4 * (a - Century(x.b)) + 3) / 1461 == x.r
      && (5 * (a - Century(x.b) - YearStart(x.r)) + 2) / 153 == x.m
  {
    MarchYears(x.b, x.r);
    MarchMonths(x.m);
    var e := MonthStart(x.m) + x.k;
    InsideYear(x);
    var c := YearStart(x.r) + e;
    MonthOf(e, x.m);
    YearOf(c, x.r);
    InsideCentury(x.b, x.r, e);
    CenturyOf(DayOf(x), x.b);
  }

  lemma InsideYear(x: March)
    requires IsMarch(x)
    ensures MonthStart(x.m) <= MonthStart(x.m) + x.k < MonthStart(x.m + 1)
    ensures 0 <= MonthStart(x.m) + x.k < if LeapEnd(x.b, x.r) then 366 else 365
  {
    MarchMonths(x.m);
  }

  lemma InsideCentury(b: int, r: int, e: int)
    requires 0 <= b && 0 <= r < 100 && 0 <= e < if LeapEnd(b, r) then 366 else 365
    ensures 0 <= YearStart(r) + e < Century(b + 1) - Century(b)
    ensures YearStart(r) + e < YearStart(r + 1)
  {
    MarchYears(b, r);
    if r < 98 {
      assert YearStart(r) <= 1461 * 97 / 4;
    }
  }

  /** Every day number has such parts. */
  lemma PartsExist(a: nat) returns (x: March)
    ensures IsMarch(x) && DayOf(x) == a
    ensures x.b == (4 * a + 3) / 146097 && x.r == (4 * (a - Century(x.b)) + 3) / 1461
    ensures x.m == (5 * (a - Century(x.b) - YearStart(x.r)) + 2) / 153
  {
    var b := (4 * a + 3) / 146097;
    CenturyOf(a, b);
    var c := a - Century(b);
    MarchYears(b, 0);
    var r := (4 * c + 3) / 1461;
    YearOf(c, r);
    MarchYears(b, r);
    var e := c - YearStart(r);
    var m := (5 * e + 2) / 153;
    MonthOf(e, m);
    MarchMonths(m);
    x := March(b, r, m, e - MonthStart(m));
  }

  /** Dates and their March form say the same. */
  lemma MarchForm(d: Date)
    requires IsDate(d) && d.year >= -4799
    ensures IsMarch(ToMarch(d)) && FromMarch(ToMarch(d)) == d && Encode(d) == DayOf(ToMarch(d)) - 32044
  {
    hide IsDate, IsMarch, Century, YearStart;
    MonthRange(d);
    MarchIsMarch(d);
    YearsBefore(d.year + 4800 - (14 - d.month) / 12);
  }

  lemma YearsBefore(y: int)
    requires y >= 0
    ensures 365 * y + y / 4 - y / 100 + y / 400 == Century(y / 100) + YearStart(y % 100)
  {
    var b, r := y / 100, y % 100;
    InCentury(b, r);
    assert y == 100 * b + r;
    assert Century(b) == 36524 * b + b / 4;
    assert YearStart(r) == 365 * r + r / 4;
  }

  lemma InCentury(b: int, r: int)
    requires b >= 0 && 0 <= r < 100
    ensures (100 * b + r) / 4 == 25 * b + r / 4
    ensures (100 * b + r) / 100 == b && (100 * b + r) % 100 == r
    ensures (100 * b + r) / 400 == b / 4
  {
  }

  lemma MonthRange(d: Date)
    requires IsDate(d)
    ensures 1 <= d.month <= 12
  {
  }

  lemma MarchIsMarch(d: Date)
    requires IsDate(d) && d.year >= -4799
    ensures IsMarch(ToMarch(d)) && FromMarch(ToMarch(d)) == d
  {
    if d.month == 2 {
      LeapFebruary(d.year);
    }
  }

  lemma LeapFebruary(y: int)
    ensures IsLeap(y) <==> LeapEnd((y + 4799) / 100, (y + 4799) % 100)
  {
    var b, r := (y + 4799) / 100, (y + 4799) % 100;
    assert y + 4800 == 100 * b + r + 1;
  }

  lemma DateForm(x: March)
    requires IsMarch(x)
    ensures IsDate(FromMarch(x)) && ToMarch(FromMarch(x)) == x
  {
    InCentury(x.b, x.r);
    if x.m == 11 {
      LeapEndMeans(x.b, x.r);
    }
  }

  lemma LeapEndMeans(b: int, r: int)
    requires b >= 0 && 0 <= r < 100
    ensures LeapEnd(b, r) <==> IsLeap(100 * b + r - 4799)
  {
    var y := 100 * b + r - 4799;
    assert (y + 4799) / 100 == b && (y + 4799) % 100 == r;
    LeapFebruary(y);
  }

  /** Day 0 lies in year -4713, so the shift by 4800 years keeps all divisions of naturals. */
  lemma YearRange(x: March)
    requires IsMarch(x) && DayOf(x) >= 32044
    ensures FromMarch(x).year >= -4799
  {
    MarchYears(x.b, x.r);
  }

  // ---------------------------------------------------------------- the properties

  /** Decoding an encoded date gives the date back. */
  lemma DecodeEncode(d: Date)
    requires IsDate(d) && d.year >= 1
    ensures Encode(d) >= 0 && Decode(Encode(d)) == d
  {
    hide IsMarch, IsDate, Encode, Decode, Century, YearStart, MonthStart, FromMarch;
    var x := ToMarch(d);
    MarchForm(d);
    PartsFound(x);
    FromYearOne(d);
    NotBeforeYearOne(x);
    DecodeParts(Encode(d), x);
  }

  lemma FromYearOne(d: Date)
    requires IsDate(d) && d.year >= 1
    ensures 100 * ToMarch(d).b + ToMarch(d).r >= 4800
  {
  }

  /** The date of a day whose century, year, month and day are known. */
  lemma DecodeParts(day: nat, x: March)
    requires DayOf(x) == day + 32044 && x.b == (4 * (day + 32044) + 3) / 146097
    requires x.r == (4 * (day + 32044 - Century(x.b)) + 3) / 1461
    requires x.m == (5 * (day + 32044 - Century(x.b) - YearStart(x.r)) + 2) / 153
    ensures Decode(day) == FromMarch(x)
  {
  }

  lemma NotBeforeYearOne(x: March)
    requires IsMarch(x) && 100 * x.b + x.r >= 4800
    ensures DayOf(x) >= 32044
  {
    MarchYears(x.b, x.r);
  }

  /** Encoding a decoded day number gives the number back, and what is decoded is a date. */
  lemma EncodeDecode(day: nat)
    ensures IsDate(Decode(day)) && Encode(Decode(day)) == day
  {
    hide IsMarch, IsDate, ToMarch, FromMarch, Encode, Decode, DayOf;
    var x := PartsExist(day + 32044);
    DateForm(x);
    DecodeParts(day, x);
    YearRange(x);
    MarchForm(Decode(day));
  }

  /** The day after has the next number. */
  lemma NextDayEncodes(d: Date)
    requires IsDate(d) && d.year >= 1
    ensures IsDate(NextDay(d)) && Encode(NextDay(d)) == Encode(d) + 1
  {
    hide Encode, ToMarch, DayOf;
    MarchForm(d);
    MarchForm(NextDay(d));
    NextInMarch(d);
    NextMarchDay(ToMarch(d));
  }

  function NextMarch(x: March): March {
    if x.k + 1 < MarchLength(x.b, x.r, x.m) then x.(k := x.k + 1)
    else if x.m < 11 then March(x.b, x.r, x.m + 1, 0)
    else if x.r < 99 then March(x.b, x.r + 1, 0, 0)
    else March(x.b + 1, 0, 0, 0)
  }

  lemma NextMarchDay(x: March)
    requires IsMarch(x)
    ensures DayOf(NextMarch(x)) == DayOf(x) + 1
  {
    MarchMonths(x.m);
    MarchYears(x.b, x.r);
  }

  lemma NextInMarch(d: Date)
    requires IsDate(d) && d.year >= 1
    ensures ToMarch(NextDay(d)) == NextMarch(ToMarch(d))
  {
    hide DaysIn, MarchLength;
    MonthLength(d);
  }

  lemma MonthLength(d: Date)
    requires 1 <= d.month <= 12
    ensures var x := ToMarch(d);
      MarchLength(x.b, x.r, x.m) == DaysIn(d.year, d.month)
  {
    if d.month == 2 {
      LeapFebruary(d.year);
    }
  }

  // ---------------------------------------------------------------- time of day

  datatype Clock = Clock(hour: nat, minute: nat, second: nat, milli: nat)

  predicate IsClock(t: Clock) {
    t.hour < 24 && t.minute < 60 && t.second < 60 && t.milli < 1000
  }

  function EncodeClock(t: Clock): nat {
    t.hour * 3600000 + t.minute * 60000 + t.second * 1000 + t.milli
  }

  function DecodeClock(ms: nat): Clock {
    var total := ms / 1000;
    Clock(total / 3600, total % 3600 / 60, total % 60, ms % 1000)
  }

  /** Milliseconds since midnight and the time of day determine each other. */
  lemma ClockRoundTrip(t: Clock)
    requires IsClock(t)
    ensures EncodeClock(t) < 86400000 && DecodeClock(EncodeClock(t)) == t
  {
    var total := t.hour * 3600 + t.minute * 60 + t.second;
    assert EncodeClock(t) == total * 1000 + t.milli;
    assert EncodeClock(t) / 1000 == total && EncodeClock(t) % 1000 == t.milli;
    assert total / 3600 == t.hour && total % 3600 == t.minute * 60 + t.second;
    assert total % 60 == t.second;
  }

  lemma ClockOfMillis(ms: nat)
    requires ms < 86400000
    ensures IsClock(DecodeClock(ms)) && EncodeClock(DecodeClock(ms)) == ms
  {
    var total := ms / 1000;
    assert total % 60 == total % 3600 % 60;
  }

  /** Where counting starts: 1 January 2000 is day 2451545, and midnight is 0. */
  lemma Epoch(d: Date, t: Clock)
    requires d.year == 2000 && d.month == 1 && d.day == 1 && t.hour == t.minute == t.second == t.milli == 0
    ensures Encode(d) == 2451545 && EncodeClock(t) == 0
  {
  }

  /** One millisecond later. */
  function NextTick(t: Clock): Clock {
    if t.milli < 999 then t.(milli := t.milli + 1)
    else if t.second < 59 then Clock(t.hour, t.minute, t.second + 1, 0)
    else if t.minute < 59 then Clock(t.hour, t.minute + 1, 0, 0)
    else Clock(t.hour + 1, 0, 0, 0)
  }

  lemma NextTickEncodes(t: Clock)
    requires IsClock(t)
    ensures EncodeClock(NextTick(t)) == EncodeClock(t) + 1
  {
  }
}
