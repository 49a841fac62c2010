/** Reading timestamps back, and comparing them as text. */
module TimestampReading {
  import opened Digits
  import opened Words
  import opened Options
  import opened Calendar
  import opened Timestamp

  // --- A strict reader of YYYY-MM-DDTHH:MM:SS.mmmZ ------------------------------------------

  function TakeDec(s: string, w: nat): (r: Option<(nat, string)>)
  {
    if |s| < w || !AllDigits(s[..w], 10) then None else Some((Read(s[..w], 10), s[w..]))
  }

  function Expect(s: string, c: char): (r: Option<string>)
  {
    if s == "" || s[0] != c then None else Some(s[1..])
  }

  function ReadDate(s: string): (r: Option<(Date, string)>)
  {
    var (y, s1) :- TakeDec(s, 4);
    var s2 :- Expect(s1, '-');
    var (m, s3) :- TakeDec(s2, 2);
    var s4 :- Expect(s3, '-');
    var (d, s5) :- TakeDec(s4, 2);
    if ValidDate(Date(y, m, d)) then Some((Date(y, m, d), s5)) else None
  }

  function ReadClock(s: string): (r: Option<(nat, string)>)
  {
    var (h, s1) :- TakeDec(s, 2);
    var s2 :- Expect(s1, ':');
    var (m, s3) :- TakeDec(s2, 2);
    var s4 :- Expect(s3, ':');
    var (sec, s5) :- TakeDec(s4, 2);
    var s6 :- Expect(s5, '.');
    var (ms, s7) :- TakeDec(s6, 3);
    var s8 :- Expect(s7, 'Z');
    if h < 24 && m < 60 && sec < 60 then Some((((h * 60 + m) * 60 + sec) * 1000 + ms, s8)) else None
  }

  /** Milliseconds since the epoch named by a timestamp. */
  function ReadTimestamp(s: string): (r: Option<int>)
  {
    var (d, s1) :- ReadDate(s);
    var s2 :- Expect(s1, 'T');
    var (clock, s3) :- ReadClock(s2);
    if s3 == "" then Some(DayNumber(d) * DAY_MS + clock) else None
  }

  // --- Round trip --------------------------------------------------------------------------------

  lemma SmallPowers()
    ensures Pow(10, 2) == 100 && Pow(10, 3) == 1000 && Pow(10, 4) == 10_000
  {
  }

  lemma DecField(n: nat, w: nat, rest: string)
    requires w >= 1 && n < Pow(10, w)
    ensures |Dec(n, w)| == w
    ensures TakeDec(Dec(n, w) + rest, w) == Some((n, rest))
  {
    hide Text, Read, Pow;
    TextLength(n, 10, false, w);
    ReadPadded(n, 10, w, false);
    assert (Dec(n, w) + rest)[..w] == Dec(n, w);
    assert (Dec(n, w) + rest)[w..] == rest;
  }

  lemma ExpectSeparator(c: char, rest: string)
    ensures Expect([c] + rest, c) == Some(rest)
  {
  }

  /** Instants of the years 0000 to 9999. */
  predicate InYears(ms: int)
  {
    -62_167_219_200_000 <= ms < 253_402_300_800_000
  }

  lemma InYearsInRange(ms: int)
    requires InYears(ms)
    ensures DayInRange(ms) && HasDate(ms) && DayOf(ms) == ms / DAY_MS
  {
  }

  lemma YearRange(ms: int)
    requires DayInRange(ms)
    ensures HasDate(ms) && (InYears(ms) <==> 0 <= DateOf(ms).year <= 9999)
  {
    DayInRangeIsDay(ms);
    hide CivilFromDays, ToI32;
    CivilMeaning(ms / DAY_MS);
    var d := DateOf(ms);
    var first, last := Date(0, 1, 1), Date(10_000, 1, 1);
    assert DayNumber(first) == -719_528 && DayNumber(last) == 2_932_897;
    assert InYears(ms) <==> -719_528 <= ms / DAY_MS < 2_932_897;
    if Before(d, first) { DayNumberOrdered(d, first); }
    if Before(first, d) { DayNumberOrdered(first, d); }
    if Before(d, last) { DayNumberOrdered(d, last); }
    if Before(last, d) { DayNumberOrdered(last, d); }
  }

  lemma DateReads(d: Date, rest: string)
    requires ValidDate(d) && 0 <= d.year <= 9999
    ensures |DateText(d)| == 10
    ensures ReadDate(DateText(d) + rest) == Some((d, rest))
  {
    hide Dec, TakeDec, Pow;
    SmallPowers();
    var s4 := Dec(d.day, 2) + rest;
    var s3 := "-" + s4;
    var s2 := Dec(d.month, 2) + s3;
    var s1 := "-" + s2;
    assert DateText(d) + rest == Dec(d.year, 4) + s1;
    DecField(d.year, 4, s1);
    ExpectSeparator('-', s2);
    DecField(d.month, 2, s3);
    ExpectSeparator('-', s4);
    DecField(d.day, 2, rest);
  }

  lemma ClockReads(r: nat)
    requires r < DAY_MS
    ensures |ClockText(r)| == 13
    ensures ReadClock(ClockText(r)) == Some((r, ""))
  {
    hide Dec, TakeDec, Pow;
    SmallPowers();
    var h, m, sec, ms := r / 3_600_000, r / 60_000 % 60, r / 1000 % 60, r % 1000;
    ClockRejoins(r);
    var s6 := Dec(ms, 3) + "Z";
    var s5 := "." + s6;
    var s4 := Dec(sec, 2) + s5;
    var s3 := ":" + s4;
    var s2 := Dec(m, 2) + s3;
    DecField(h, 2, ":" + s2);
    ExpectSeparator(':', s2);
    DecField(m, 2, s3);
    ExpectSeparator(':', s4);
    DecField(sec, 2, s5);
    ExpectSeparator('.', s6);
    DecField(ms, 3, "Z");
    assert "Z"[1..] == "";
  }

  lemma ClockRejoins(r: nat)
    requires r < DAY_MS
    ensures r / 3_600_000 < 24
    ensures ((r / 3_600_000 * 60 + r / 60_000 % 60) * 60 + r / 1000 % 60) * 1000 + r % 1000 == r
  {
    var s := r / 1000;
    assert r / 60_000 == s / 60 && r / 3_600_000 == s / 3600;
    var m := s / 60;
    assert s / 3600 == m / 60;
  }

  /** Every instant of the years 0000 to 9999, before 1970 too, reads back to its millisecond. */
  lemma TimestampReadsBack(ms: int)
    requires InYears(ms)
    ensures HasDate(ms)
    ensures |TimestampText(ms)| == 24
    ensures ReadTimestamp(TimestampText(ms)) == Some(ms)
  {
    hide DateText, ClockText, ReadDate, ReadClock, CivilFromDays, ToI32;
    InYearsInRange(ms);
    YearRange(ms);
    CivilMeaning(ms / DAY_MS);
    var d, clock := DateOf(ms), ClockText(ms % DAY_MS);
    DateReads(d, "T" + clock);
    ExpectSeparator('T', clock);
    ClockReads(ms % DAY_MS);
  }

  lemma ClockLength(r: nat)
    requires r < DAY_MS
    ensures |ClockText(r)| == 13
  {
    ClockReads(r);
  }

  /** Four digits hold the year exactly for the years 0000 to 9999; any other year, a negative
      one being printed as a huge unsigned number, makes the text longer. */
  lemma TimestampLength(ms: int)
    requires HasDate(ms)
    ensures |TimestampText(ms)| == 24 <==> 0 <= DateOf(ms).year <= 9999
    ensures DayInRange(ms) ==> (|TimestampText(ms)| == 24 <==> InYears(ms))
  {
    hide ClockText, CivilFromDays, Pow, Text, ToI32;
    if DayInRange(ms) {
      YearRange(ms);
    }
    ClockLength(ms % DAY_MS);
    CivilMeaning(DayOf(ms));
    var d := DateOf(ms);
    SmallPowers();
    YearCast(ms);
    TextLength(ToU32(d.year), 10, false, 4);
    DecField(d.month, 2, "");
    DecField(d.day, 2, "");
  }

  lemma YearCast(ms: int)
    requires HasDate(ms)
    ensures ToU32(DateOf(ms).year) < 10_000 <==> 0 <= DateOf(ms).year <= 9999
  {
    hide CivilFromDays, ToI32;
    CivilMeaning(DayOf(ms));
    var d := DateOf(ms);
    assert -7_000_000 <= d.year <= 7_000_000 by {
      var first, last := Date(-7_000_000, 1, 1), Date(7_000_000, 1, 1);
      if Before(d, first) { DayNumberOrdered(d, first); }
      if Before(last, d) { DayNumberOrdered(last, d); }
    }
  }

  /** The instant that the 32-bit day stands for. */
  function Wrapped(ms: int): (w: int)
  {
    DAY_MS * DayOf(ms) + ms % DAY_MS
  }

  /** With one part asked for, the text is that part of the default text: ten characters of date, or
      what follows the T. Asking for both parts, or for neither, gives the default text. */
  lemma PartsOfText(ms: int)
    requires InYears(ms)
    ensures HasDate(ms) && |TimestampText(ms)| == 24 && TimestampText(ms)[10] == 'T'
    ensures TimePointText(ms, false, true) == TimestampText(ms)[..10]
    ensures TimePointText(ms, true, false) == TimestampText(ms)[11..]
    ensures TimePointText(ms, true, true) == TimestampText(ms) == TimePointText(ms, false, false)
  {
    hide DateText, ClockText, CivilFromDays, ToI32, ReadDate, ReadTimestamp;
    InYearsInRange(ms);
    YearRange(ms);
    TimestampReadsBack(ms);
    DateReads(DateOf(ms), "");
    var date, clock := DateText(DateOf(ms)), ClockText(ms % DAY_MS);
    assert TimestampText(ms) == date + ("T" + clock);
    assert (date + ("T" + clock))[11..] == clock;
  }

  /** An instant prints as the one its 32-bit day stands for. */
  lemma WrappedText(ms: int)
    requires HasDate(ms)
    ensures DayInRange(Wrapped(ms)) && HasDate(Wrapped(ms))
    ensures TimestampText(ms) == TimestampText(Wrapped(ms))
    ensures Wrapped(ms) == ms <==> DayOf(ms) == ms / DAY_MS
  {
    hide DateText, ClockText, CivilFromDays, ToI32;
    DayUnique(DayOf(ms), ms % DAY_MS);
    DayInRangeIsDay(Wrapped(ms));
  }

  /** A year of more than four digits leaves a digit where the separator should be. */
  lemma LongYearUnread(d: Date, rest: string)
    requires ValidDate(d) && ToU32(d.year) >= 10_000
    ensures ReadDate(DateText(d) + rest).None?
  {
    var y := ToU32(d.year);
    hide Text, Read, Pow, ToU32;
    SmallPowers();
    TextLength(y, 10, false, 4);
    TextIsDigits(y, 10, false);
    var year := Dec(y, 4);
    assert year == Text(y, 10) && |year| > 4;
    var s := DateText(d) + rest;
    assert s[..|year|] == year;
    assert s[4] == year[4] && IsDigit(year[4], 10);
    assert s[4..][0] == s[4];
  }

  /** A timestamp reads back to its instant if and only if that lies in the years 0000 to 9999. */
  lemma ReadsBackIff(ms: int)
    requires HasDate(ms)
    ensures ReadTimestamp(TimestampText(ms)) == Some(ms) <==> InYears(ms)
  {
    hide DateText, ClockText, ReadDate, ReadClock, CivilFromDays, ToI32, ToU32;
    var w := Wrapped(ms);
    WrappedText(ms);
    if InYears(ms) {
      TimestampReadsBack(ms);
    } else if InYears(w) {
      TimestampReadsBack(w);
    } else {
      YearRange(w);
      YearCast(w);
      LongYearUnread(DateOf(w), "T" + ClockText(w % DAY_MS));
    }
  }

  /** The first instant of the year 10000 has a longer text, which is not read. */
  lemma LateYearExample()
    ensures HasDate(253_402_300_800_000) && DateOf(253_402_300_800_000) == Date(10_000, 1, 1)
    ensures |TimestampText(253_402_300_800_000)| != 24
    ensures ReadTimestamp(TimestampText(253_402_300_800_000)) != Some(253_402_300_800_000)
  {
    var t := 253_402_300_800_000;
    assert DayOf(t) == 2_932_897;
    hide CivilFromDays, DateText, ClockText, ToI32, ReadTimestamp;
    LateYearDay();
    CivilInverse(Date(10_000, 1, 1));
    TimestampLength(t);
    ReadsBackIff(t);
  }

  lemma LateYearDay()
    ensures DayNumber(Date(10_000, 1, 1)) == 2_932_897
  {
  }

  /** An instant whose day number does not fit 32 bits prints as the epoch. */
  lemma CastExample()
    ensures HasDate(TWO32 * DAY_MS) && HasDate(0) && TimestampText(TWO32 * DAY_MS) == TimestampText(0)
  {
    assert DayOf(0) == 0 && DayOf(TWO32 * DAY_MS) == 0 && TWO32 * DAY_MS % DAY_MS == 0;
    hide CivilFromDays, DateText, ClockText, ToI32;
  }

  // --- Text order --------------------------------------------------------------------------------

  /** Lexicographic order of strings. */
  predicate LexLess(s: string, t: string)
  {
    t != "" && (s == "" || s[0] < t[0] || (s[0] == t[0] && LexLess(s[1..], t[1..])))
  }

  lemma {:induction false} LexConcat(a: string, b: string, c: string, d: string)
    requires |a| == |b|
    ensures LexLess(a + c, b + d) <==> LexLess(a, b) || (a == b && LexLess(c, d))
  {
    if a == "" {
      assert a + c == c && b + d == d;
    } else {
      LexConcat(a[1..], b[1..], c, d);
      assert (a + c)[1..] == a[1..] + c && (b + d)[1..] == b[1..] + d;
      assert a == b <==> a[0] == b[0] && a[1..] == b[1..] by {
        assert a == [a[0]] + a[1..] && b == [b[0]] + b[1..];
      }
    }
  }

  lemma {:induction false} LexTotal(a: string, b: string)
    requires |a| == |b| && !LexLess(a, b) && !LexLess(b, a)
    ensures a == b
  {
    if a != "" {
      LexTotal(a[1..], b[1..]);
      assert a == [a[0]] + a[1..] && b == [b[0]] + b[1..];
    }
  }

  /** Digit strings of one length compare as the numbers they name. */
  lemma {:induction false} LexDigits(a: string, b: string)
    requires |a| == |b| && AllDigits(a, 10) && AllDigits(b, 10)
    ensures LexLess(a, b) <==> Read(a, 10) < Read(b, 10)
    decreases |a|
  {
    if a != "" {
      var n := |a| - 1;
      var a', b' := a[..n], b[..n];
      LexDigits(a', b');
      LexDigits(b', a');
      assert a == a' + [a[n]] && b == b' + [b[n]];
      LexConcat(a', b', [a[n]], [b[n]]);
      assert IsDigit(a[n], 10) && IsDigit(b[n], 10);
      if Read(a', 10) == Read(b', 10) {
        LexTotal(a', b');
      }
    }
  }

  lemma FieldOrder(x: nat, y: nat, w: nat, c: string, d: string)
    requires w >= 1 && x < Pow(10, w) && y < Pow(10, w)
    ensures LexLess(Dec(x, w) + c, Dec(y, w) + d) <==> x < y || (x == y && LexLess(c, d))
  {
    hide Text, LexLess, Pow;
    DecField(x, w, "");
    DecField(y, w, "");
    ReadPadded(x, 10, w, false);
    ReadPadded(y, 10, w, false);
    LexConcat(Dec(x, w), Dec(y, w), c, d);
    LexDigits(Dec(x, w), Dec(y, w));
  }

  lemma SeparatorOrder(s: char, c: string, d: string)
    ensures LexLess([s] + c, [s] + d) <==> LexLess(c, d)
  {
    assert ([s] + c)[1..] == c && ([s] + d)[1..] == d;
  }

  lemma DateOrder(a: Date, b: Date, c: string, d: string)
    requires ValidDate(a) && ValidDate(b) && 0 <= a.year <= 9999 && 0 <= b.year <= 9999
    ensures LexLess(DateText(a) + c, DateText(b) + d) <==> Before(a, b) || (a == b && LexLess(c, d))
  {
    hide Dec, LexLess, Pow;
    SmallPowers();
    var a3, b3 := Dec(a.day, 2) + c, Dec(b.day, 2) + d;
    var a2, b2 := Dec(a.month, 2) + ("-" + a3), Dec(b.month, 2) + ("-" + b3);
    assert DateText(a) + c == Dec(a.year, 4) + ("-" + a2);
    assert DateText(b) + d == Dec(b.year, 4) + ("-" + b2);
    FieldOrder(a.year, b.year, 4, "-" + a2, "-" + b2);
    SeparatorOrder('-', a2, b2);
    FieldOrder(a.month, b.month, 2, "-" + a3, "-" + b3);
    SeparatorOrder('-', a3, b3);
    FieldOrder(a.day, b.day, 2, c, d);
  }

  lemma ClockOrder(r: nat, q: nat)
    requires r < DAY_MS && q < DAY_MS
    ensures LexLess(ClockText(r), ClockText(q)) <==> r < q
  {
    hide Dec, LexLess, Pow;
    SmallPowers();
    ClockRejoins(r);
    ClockRejoins(q);
    var rm, qm := r / 60_000 % 60, q / 60_000 % 60;
    var rs, qs := r / 1000 % 60, q / 1000 % 60;
    var r4, q4 := Dec(r % 1000, 3) + "Z", Dec(q % 1000, 3) + "Z";
    var r3, q3 := Dec(rs, 2) + ("." + r4), Dec(qs, 2) + ("." + q4);
    var r2, q2 := Dec(rm, 2) + (":" + r3), Dec(qm, 2) + (":" + q3);
    FieldOrder(r / 3_600_000, q / 3_600_000, 2, ":" + r2, ":" + q2);
    SeparatorOrder(':', r2, q2);
    FieldOrder(rm, qm, 2, ":" + r3, ":" + q3);
    SeparatorOrder(':', r3, q3);
    FieldOrder(rs, qs, 2, "." + r4, "." + q4);
    SeparatorOrder('.', r4, q4);
    FieldOrder(r % 1000, q % 1000, 3, "Z", "Z");
    LexIrreflexive("Z");
  }

  lemma LexIrreflexive(s: string)
    ensures !LexLess(s, s)
  {
  }

  /** Sorting timestamps as text sorts the instants. */
  lemma TimestampOrder(a: int, b: int)
    requires InYears(a) && InYears(b)
    ensures HasDate(a) && HasDate(b)
    ensures LexLess(TimestampText(a), TimestampText(b)) <==> a < b
    ensures TimestampText(a) == TimestampText(b) <==> a == b
  {
    hide DateText, ClockText, CivilFromDays, LexLess, ToI32;
    InYearsInRange(a);
    InYearsInRange(b);
    YearRange(a);
    YearRange(b);
    var ca, cb := ClockText(a % DAY_MS), ClockText(b % DAY_MS);
    DateOrder(DateOf(a), DateOf(b), "T" + ca, "T" + cb);
    SeparatorOrder('T', ca, cb);
    ClockOrder(a % DAY_MS, b % DAY_MS);
    CivilOrdered(a / DAY_MS, b / DAY_MS);
    TimestampReadsBack(a);
    TimestampReadsBack(b);
  }
}
