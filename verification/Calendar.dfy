/** The proleptic Gregorian calendar and the integer-only conversion from day numbers. */
module Calendar {
  import opened Words

  datatype Date = Date(year: int, month: int, day: int)

  predicate Leap(y: int)
  {
    y % 4 == 0 && (y % 100 != 0 || y % 400 == 0)
  }

  function MonthLength(y: int, m: int): (n: int)
  {
    if m == 2 then (if Leap(y) then 29 else 28)
    else if m == 4 || m == 6 || m == 9 || m == 11 then 30
    else 31
  }

  predicate ValidDate(d: Date)
  {
    1 <= d.month <= 12 && 1 <= d.day <= MonthLength(d.year, d.month)
  }

  /** The day after. */
  function Next(d: Date): (n: Date)
  {
    if d.day < MonthLength(d.year, d.month) then Date(d.year, d.month, d.day + 1)
    else if d.month < 12 then Date(d.year, d.month + 1, 1)
    else Date(d.year + 1, 1, 1)
  }

  /** The conversion, step by step in the widths of the source: every subtraction below is
      checked to stay within its unsigned type. */
  function CivilFromDays(days: i32): (d: Date)
    requires days + 719468 < TWO31
  {
    var z: i32 := days + 719468;
    var shifted: i32 := if z >= 0 then z else z - 146096;
    var era: i32 := CDiv(shifted, 146097);
    var eraDays: i32 := era * 146097;
    var doe: u32 := z - eraDays;
    EraBounds(z);
    var yoe: u32 := YearOfEra(doe);
    YearOfEraBracket(doe);
    var y: i32 := yoe + era * 400;
    var doy: u32 := doe - (365 * yoe + yoe / 4 - yoe / 100);
    FromMarchYear(y, doy)
  }

  /** The second half: a day of a year that starts on 1 March. */
  function FromMarchYear(y: int, doy: u32): (d: Date)
    requires doy <= 365
  {
    var mp: u32 := (5 * doy + 2) / 153;
    var day: u8 := doy - (153 * mp + 2) / 5 + 1;
    var m: u8 := if mp < 10 then mp + 3 else mp - 9;
    Date(y + (if m <= 2 then 1 else 0), m, day)
  }

  function YearOfEra(doe: u32): (yoe: u32)
    requires doe <= 146096
  {
    var a: u32 := doe - doe / 1460;
    var b: u32 := a + doe / 36524 - doe / 146096;
    b / 365
  }

  lemma EraBounds(z: i32)
    requires z >= -TWO31 + 719468
    ensures CDiv(if z >= 0 then z else z - 146096, 146097) == z / 146097
    ensures 0 <= z - z / 146097 * 146097 <= 146096
  {
  }

  /** An era day split into centuries, four-year cycles, years and days; only the last day of
      the era overflows its century. */
  lemma SplitEraDay(doe: u32) returns (c: int, q: int, t: int, s: int)
    requires doe <= 146096
    ensures 0 <= c <= 3 && 0 <= q <= 24 && 0 <= t <= 3 && 0 <= s <= 365
    ensures doe == 36524 * c + 1461 * q + 365 * t + s
    ensures s == 365 ==> t == 3 && (q == 24 ==> c == 3)
    ensures c == doe / 36524 - doe / 146096
  {
    c := if doe == 146096 then 3 else doe / 36524;
    var r := doe - 36524 * c;
    q := r / 1461;
    var d := r - 1461 * q;
    t := if d == 1460 then 3 else d / 365;
    s := d - 365 * t;
  }

  lemma YearOfEraSplit(doe: u32, c: int, q: int, t: int, s: int)
    requires doe <= 146096
    requires 0 <= c <= 3 && 0 <= q <= 24 && 0 <= t <= 3 && 0 <= s <= 365 && (s == 365 ==> t == 3)
    requires doe == 36524 * c + 1461 * q + 365 * t + s
    requires c == doe / 36524 - doe / 146096
    ensures YearOfEra(doe) == 100 * c + 4 * q + t
  {
    var d := 365 * t + s;
    var e := if 24 * c + q + d >= 1460 then 1 else 0;
    assert doe / 1460 == 25 * c + q + e by {
      assert doe == 1460 * (25 * c + q + e) + (24 * c + q + d - 1460 * e);
    }
    assert YearOfEra(doe) == (36500 * c + 1460 * q + d - e) / 365;
    assert 36500 * c + 1460 * q + d - e == 365 * (100 * c + 4 * q + t) + (s - e);
    assert 0 <= s - e < 365;
  }

  lemma YearParts(c: int, q: int, t: int)
    requires 0 <= c <= 3 && 0 <= q <= 24 && 0 <= t <= 3
    ensures (100 * c + 4 * q + t) / 4 == 25 * c + q && (100 * c + 4 * q + t) / 100 == c
  {
  }

  lemma YearOfEraBracket(doe: u32)
    requires doe <= 146096
    ensures var yoe := YearOfEra(doe);
            yoe <= 399 && 0 <= doe - (365 * yoe + yoe / 4 - yoe / 100) <= (if Leap(yoe + 1) then 365 else 364)
  {
    var c, q, t, s := SplitEraDay(doe);
    YearOfEraSplit(doe, c, q, t, s);
    var yoe := 100 * c + 4 * q + t;
    YearParts(c, q, t);
    hide YearOfEra;
  }

  // --- The calendar counted out -----------------------------------------------------------

  /** Days from 1 January of year 0 to 1 January of year y. */
  function DaysBeforeYear(y: int): (n: int)
  {
    365 * y + (y + 3) / 4 - (y + 99) / 100 + (y + 399) / 400
  }

  lemma Ceilings(y: int)
    ensures (y + 3) / 4 == y / 4 + if y % 4 == 0 then 0 else 1
    ensures (y + 99) / 100 == y / 100 + if y % 100 == 0 then 0 else 1
    ensures (y + 399) / 400 == y / 400 + if y % 400 == 0 then 0 else 1
  {
  }

  lemma Floors(y: int)
    ensures (y + 1 + 3) / 4 == y / 4 + 1
    ensures (y + 1 + 99) / 100 == y / 100 + 1
    ensures (y + 1 + 399) / 400 == y / 400 + 1
  {
  }

  lemma Divisibility(y: int)
    ensures y % 100 == 0 ==> y % 4 == 0
    ensures y % 400 == 0 ==> y % 100 == 0
  {
  }

  lemma YearLength(y: int)
    ensures DaysBeforeYear(0) == 0
    ensures DaysBeforeYear(y + 1) - DaysBeforeYear(y) == if Leap(y) then 366 else 365
  {
    Ceilings(y);
    Floors(y);
    Divisibility(y);
  }

  lemma ShiftBy4(y: int, e: int)
    ensures (y + e * 400) / 4 == y / 4 + 100 * e && (y + e * 400) % 4 == y % 4
  {
  }

  lemma ShiftBy100(y: int, e: int)
    ensures (y + e * 400) / 100 == y / 100 + 4 * e && (y + e * 400) % 100 == y % 100
  {
  }

  lemma ShiftBy400(y: int, e: int)
    ensures (y + e * 400) / 400 == y / 400 + e && (y + e * 400) % 400 == y % 400
  {
  }

  lemma FourCenturies(y: int, era: int)
    ensures Leap(y + era * 400) == Leap(y)
    ensures DaysBeforeYear(y + era * 400) == DaysBeforeYear(y) + 146097 * era
  {
    ShiftBy4(y, era);
    ShiftBy100(y, era);
    ShiftBy400(y, era);
    ShiftBy4(y + 3, era);
    ShiftBy100(y + 99, era);
    ShiftBy400(y + 399, era);
  }

  function DaysBeforeMonth(y: int, m: int): (n: int)
    decreases m
  {
    if m <= 1 then 0 else DaysBeforeMonth(y, m - 1) + MonthLength(y, m - 1)
  }

  lemma MonthTable(y: int)
    ensures var f := if Leap(y) then 1 else 0;
            && DaysBeforeMonth(y, 1) == 0 && DaysBeforeMonth(y, 2) == 31
            && DaysBeforeMonth(y, 3) == 59 + f && DaysBeforeMonth(y, 4) == 90 + f
            && DaysBeforeMonth(y, 5) == 120 + f && DaysBeforeMonth(y, 6) == 151 + f
            && DaysBeforeMonth(y, 7) == 181 + f && DaysBeforeMonth(y, 8) == 212 + f
            && DaysBeforeMonth(y, 9) == 243 + f && DaysBeforeMonth(y, 10) == 273 + f
            && DaysBeforeMonth(y, 11) == 304 + f && DaysBeforeMonth(y, 12) == 334 + f
  {
  }

  /** Days since 1 January 1970. */
  function DayNumber(d: Date): (n: int)
  {
    DaysBeforeYear(d.year) + DaysBeforeMonth(d.year, d.month) + d.day - 1 - 719528
  }

  predicate Before(a: Date, b: Date)
  {
    a.year < b.year || (a.year == b.year && (a.month < b.month || (a.month == b.month && a.day < b.day)))
  }

  lemma {:induction false} YearsOrdered(y: int, y': int)
    requires y < y'
    ensures DaysBeforeYear(y) + (if Leap(y) then 366 else 365) <= DaysBeforeYear(y')
    decreases y' - y
  {
    YearLength(y);
    if y + 1 < y' {
      YearsOrdered(y + 1, y');
    }
  }

  lemma {:induction false} MonthsOrdered(y: int, m: int, m': int)
    requires 1 <= m < m' <= 13
    ensures DaysBeforeMonth(y, m) + MonthLength(y, m) <= DaysBeforeMonth(y, m')
    decreases m' - m
  {
    if m + 1 < m' {
      MonthsOrdered(y, m + 1, m');
    }
  }

  /** Day numbers follow the calendar order. */
  lemma DayNumberOrdered(a: Date, b: Date)
    requires ValidDate(a) && ValidDate(b) && Before(a, b)
    ensures DayNumber(a) < DayNumber(b)
  {
    if a.year < b.year {
      YearsOrdered(a.year, b.year);
      MonthTable(a.year);
      if a.month < 12 { MonthsOrdered(a.year, a.month, 12); }
      if b.month > 1 { MonthsOrdered(b.year, 1, b.month); }
    } else if a.month < b.month {
      MonthsOrdered(a.year, a.month, b.month);
    }
  }

  lemma NextDay(d: Date)
    requires ValidDate(d)
    ensures ValidDate(Next(d)) && DayNumber(Next(d)) == DayNumber(d) + 1
  {
    hide DaysBeforeYear;
    if d.month < 12 {
      MonthStep(d.year, d.month);
      hide DaysBeforeMonth;
    } else {
      YearLength(d.year);
      MonthTable(d.year);
      MonthTable(d.year + 1);
      hide DaysBeforeMonth;
    }
  }

  lemma MonthStep(y: int, m: int)
    requires 1 <= m
    ensures DaysBeforeMonth(y, m + 1) == DaysBeforeMonth(y, m) + MonthLength(y, m)
  {
  }

  // --- Main results ---------------------------------------------------------------------------

  lemma MarchFirst(era: int, yoe: int)
    requires 0 <= yoe <= 399
    ensures var y := yoe + era * 400;
            DaysBeforeYear(y) + (if Leap(y) then 60 else 59) == 146097 * era + (365 * yoe + yoe / 4 - yoe / 100) + 60
  {
    FourCenturies(yoe, era);
    Ceilings(yoe);
    Divisibility(yoe);
  }

  lemma MonthFromDay(doy: int)
    requires 0 <= doy <= 365
    ensures var mp := (5 * doy + 2) / 153;
            0 <= mp <= 11 && (153 * mp + 2) / 5 <= doy && (mp < 11 ==> doy < (153 * (mp + 1) + 2) / 5)
  {
  }

  /** Taking a day number apart into era, year of the era and day of the March year. */
  lemma Decompose(z: i32) returns (era: int, yoe: int, doy: int)
    requires z + 719468 < TWO31
    ensures 0 <= yoe <= 399 && 0 <= doy <= if Leap(yoe + 1) then 365 else 364
    ensures z + 719468 == 146097 * era + (365 * yoe + yoe / 4 - yoe / 100) + doy
    ensures CivilFromDays(z) == FromMarchYear(yoe + era * 400, doy)
  {
    hide YearOfEra, FromMarchYear;
    var s := z + 719468;
    EraBounds(s);
    era := s / 146097;
    var doe := s - era * 146097;
    YearOfEraBracket(doe);
    yoe := YearOfEra(doe);
    doy := doe - (365 * yoe + yoe / 4 - yoe / 100);
  }

  lemma MarchYearMeaning(y: int, doy: int)
    requires 0 <= doy <= if Leap(y + 1) then 365 else 364
    ensures ValidDate(FromMarchYear(y, doy))
    ensures DayNumber(FromMarchYear(y, doy)) + 719528 == DaysBeforeYear(y) + (if Leap(y) then 60 else 59) + doy
  {
    hide DaysBeforeYear, DaysBeforeMonth, Leap;
    MonthFromDay(doy);
    var mp := (5 * doy + 2) / 153;
    var d := FromMarchYear(y, doy);
    MonthTable(d.year);
    if mp >= 10 {
      YearLength(y);
    }
  }

  /** The conversion always yields a real date, and it is the date of that day number. */
  lemma CivilMeaning(z: i32)
    requires z + 719468 < TWO31
    ensures ValidDate(CivilFromDays(z)) && DayNumber(CivilFromDays(z)) == z
  {
    hide CivilFromDays, FromMarchYear;
    var era, yoe, doy := Decompose(z);
    MarchFirst(era, yoe);
    FourCenturies(yoe + 1, era);
    MarchYearMeaning(yoe + era * 400, doy);
  }

  /** Distinct valid dates have distinct day numbers. */
  lemma DayNumberInjective(a: Date, b: Date)
    requires ValidDate(a) && ValidDate(b) && DayNumber(a) == DayNumber(b)
    ensures a == b
  {
    if Before(a, b) { DayNumberOrdered(a, b); }
    if Before(b, a) { DayNumberOrdered(b, a); }
  }

  /** Every valid date in range is reached, from its own day number only. */
  lemma CivilInverse(d: Date)
    requires ValidDate(d) && -TWO31 <= DayNumber(d) && DayNumber(d) + 719468 < TWO31
    ensures CivilFromDays(DayNumber(d)) == d
  {
    hide CivilFromDays;
    CivilMeaning(DayNumber(d));
    DayNumberInjective(CivilFromDays(DayNumber(d)), d);
  }

  lemma Epoch()
    ensures CivilFromDays(0) == Date(1970, 1, 1)
  {
  }

  /** Each further day is the calendar successor, leap years included. */
  lemma CivilSuccessor(z: i32)
    requires z + 1 + 719468 < TWO31
    ensures CivilFromDays(z + 1) == Next(CivilFromDays(z))
  {
    hide CivilFromDays;
    CivilMeaning(z);
    CivilMeaning(z + 1);
    NextDay(CivilFromDays(z));
    DayNumberInjective(CivilFromDays(z + 1), Next(CivilFromDays(z)));
  }

  /** Later days have later dates; in particular no two days share a date. */
  lemma CivilOrdered(z: i32, z': i32)
    requires z + 719468 < TWO31 && z' + 719468 < TWO31
    ensures z < z' <==> Before(CivilFromDays(z), CivilFromDays(z'))
    ensures z == z' <==> CivilFromDays(z) == CivilFromDays(z')
  {
    hide CivilFromDays;
    CivilMeaning(z);
    CivilMeaning(z');
    var a, b := CivilFromDays(z), CivilFromDays(z');
    if Before(a, b) { DayNumberOrdered(a, b); }
    if Before(b, a) { DayNumberOrdered(b, a); }
  }
}
