/** UTC timestamps: the system-clock formatter and the text it writes. */
module Timestamp {
  import opened Digits
  import opened Words
  import opened Output
  import opened Integers
  import opened Calendar

  const DAY_MS: int := 86_400_000

  /** Milliseconds since the epoch, rounded down, of `count` ticks of num/den seconds. */
  function Millis(count: int, num: nat, den: nat): (ms: int)
    requires den > 0
  {
    (count * num * 1000) / den
  }

  /** The day number of an instant, cast to 32 bits. */
  function DayOf(ms: int): (day: i32)
  {
    ToI32(ms / DAY_MS)
  }

  /** The conversion of that day to a date starts with an addition that must not overflow. */
  predicate HasDate(ms: int)
  {
    DayOf(ms) + 719468 < TWO31
  }

  /** Instants for which the cast changes nothing. */
  predicate DayInRange(ms: int)
  {
    -TWO31 <= ms / DAY_MS && ms / DAY_MS + 719468 < TWO31
  }

  lemma DayInRangeIsDay(ms: int)
    requires DayInRange(ms)
    ensures HasDate(ms) && DayOf(ms) == ms / DAY_MS
  {
  }

  function Dec(n: nat, w: nat): (s: string)
  {
    Padded(n, 10, w)
  }

  function DateText(d: Date): (s: string)
    requires ValidDate(d)
  {
    Dec(ToU32(d.year), 4) + ("-" + (Dec(d.month, 2) + ("-" + Dec(d.day, 2))))
  }

  function ClockText(r: nat): (s: string)
  {
    Dec(r / 3_600_000, 2) + (":" + (Dec(r / 60_000 % 60, 2) + (":" + (Dec(r / 1000 % 60, 2) + ("." + (Dec(r % 1000, 3) + "Z"))))))
  }

  function DateOf(ms: int): (d: Date)
    requires HasDate(ms)
    ensures ValidDate(d)
  {
    CivilMeaning(DayOf(ms));
    CivilFromDays(DayOf(ms))
  }

  function TimestampText(ms: int): (s: string)
    requires HasDate(ms)
  {
    DateText(DateOf(ms)) + ("T" + ClockText(ms % DAY_MS))
  }

  /** Asking for both parts is the same as asking for neither. */
  predicate WantsDate(timeOnly: bool, dateOnly: bool)
  {
    dateOnly || !timeOnly
  }

  function TimePointText(ms: int, timeOnly: bool, dateOnly: bool): (s: string)
    requires WantsDate(timeOnly, dateOnly) ==> HasDate(ms)
  {
    if timeOnly == dateOnly then TimestampText(ms)
    else if dateOnly then DateText(DateOf(ms))
    else ClockText(ms % DAY_MS)
  }

  method WriteDec(out: Sink<char>, n: u64, w: nat)
    modifies out
    ensures out.text == old(out.text) + Dec(n, w)
  {
    hide Padded;
    FormatUnsigned(out, Decimal, n, false, w);
  }

  /** Splitting off whole seconds first loses nothing. */
  lemma MillisSplit(n: int, den: nat)
    requires den > 0
    ensures n * 1000 / den == n / den * 1000 + (n - n / den * den) * 1000 / den
    ensures 0 <= (n - n / den * den) * 1000 / den < 1000
  {
    var q := n / den;
    var r := n - q * den;
    assert 0 <= r < den;
    var k, t := r * 1000 / den, r * 1000 % den;
    assert r * 1000 == k * den + t;
    assert 0 <= k by { if k < 0 { MulMonotone(k, -1, den); } }
    assert k < 1000 by { if k >= 1000 { MulMonotone(1000, k, den); } }
    QuotientUnique(n * 1000, den, q * 1000 + k, t);
  }

  /** The fields of a clock reading given by its parts. */
  lemma ClockFields(h: int, m: int, s: int, sub: int)
    requires 0 <= h < 24 && 0 <= m < 60 && 0 <= s < 60 && 0 <= sub < 1000
    ensures var r := 3_600_000 * h + 60_000 * m + 1000 * s + sub;
            0 <= r < DAY_MS && r / 3_600_000 == h && r / 60_000 == 60 * h + m && r / 1000 == 3600 * h + 60 * m + s
            && r % 1000 == sub
    ensures (60 * h + m) % 60 == m && (3600 * h + 60 * m + s) % 60 == s
  {
  }

  lemma SecondFields(rem: int) returns (h: int, m: int, s: int)
    requires 0 <= rem < 86400
    ensures h == rem / 3600 && m == rem % 3600 / 60 && s == rem % 60
    ensures 0 <= h < 24 && 0 <= m < 60 && 0 <= s < 60 && rem == 3600 * h + 60 * m + s
  {
    h, m, s := rem / 3600, rem % 3600 / 60, rem % 60;
    var t := rem % 3600;
    assert rem == 3600 * h + t;
    assert t % 60 == s;
  }

  lemma ClockSplit(rem: int, sub: int)
    requires 0 <= rem < 86400 && 0 <= sub < 1000
    ensures var r := rem * 1000 + sub;
            r / 3_600_000 == rem / 3600 && r / 60_000 % 60 == rem % 3600 / 60 && r / 1000 % 60 == rem % 60
            && r % 1000 == sub && 0 <= r < DAY_MS
  {
    var h, m, s := SecondFields(rem);
    ClockFields(h, m, s, sub);
    assert rem * 1000 + sub == 3_600_000 * h + 60_000 * m + 1000 * s + sub;
  }

  lemma DaySplit(total: int, sub: int)
    requires 0 <= sub < 1000
    ensures var ms, r := total * 1000 + sub, total % 86400 * 1000 + sub;
            0 <= r < DAY_MS && ms / DAY_MS == total / 86400 && ms % DAY_MS == r
  {
    var q, rem := total / 86400, total % 86400;
    assert total == 86400 * q + rem && 0 <= rem < 86400;
    DayUnique(q, rem * 1000 + sub);
  }

  lemma DayUnique(day: int, r: int)
    requires 0 <= r < DAY_MS
    ensures (DAY_MS * day + r) / DAY_MS == day && (DAY_MS * day + r) % DAY_MS == r
  {
  }

  /** Truncating division followed by the correction is floor division. */
  lemma FloorFix(total: int)
    ensures var rem := CMod(total, 86400);
            (if rem < 0 then rem + 86400 else rem) == total % 86400
            && (if rem < 0 then CDiv(total, 86400) - 1 else CDiv(total, 86400)) == total / 86400
  {
  }

  /** Whole seconds, rounded down, and the milliseconds left. */
  method SplitTicks(count: int, num: nat, den: nat) returns (totalSecs: int, sub: int)
    requires den > 0
    ensures Millis(count, num, den) == totalSecs * 1000 + sub && 0 <= sub < 1000
    ensures var ms := totalSecs * 1000 + sub; ms * den <= count * num * 1000 < (ms + 1) * den
  {
    var ticks := count * num;
    totalSecs := ticks / den;
    sub := (ticks - totalSecs * den) * 1000 / den;
    MillisSplit(ticks, den);
    DivFacts(ticks * 1000, den);
    ghost var ms := totalSecs * 1000 + sub;
    assert (ms + 1) * den == ms * den + den;
  }

  /** The arithmetic half of the formatter: the fields of an instant. */
  method SplitInstant(count: int, num: nat, den: nat) returns (days: i32, hours: u32, mins: u32, secs: u32, subMs: u32)
    requires den > 0
    ensures var ms := Millis(count, num, den);
            days == DayOf(ms) && hours == ms % DAY_MS / 3_600_000 && mins == ms % DAY_MS / 60_000 % 60
            && secs == ms % DAY_MS / 1000 % 60 && subMs == ms % DAY_MS % 1000
  {
    hide Millis, ToI32;
    var totalSecs, sub := SplitTicks(count, num, den);
    var dayCount, remSecs := SplitSeconds(totalSecs);
    DaySplit(totalSecs, sub);
    ClockSplit(remSecs, sub);
    var h, m, s := SecondFields(remSecs);
    days := ToI32(dayCount);
    hours, mins, secs, subMs := remSecs / 3600, remSecs % 3600 / 60, remSecs % 60, sub;
  }

  method SplitSeconds(totalSecs: int) returns (dayCount: int, remSecs: i32)
    ensures dayCount == totalSecs / 86400 && remSecs == totalSecs % 86400
  {
    FloorFix(totalSecs);
    dayCount := CDiv(totalSecs, 86400);
    remSecs := CMod(totalSecs, 86400);
    if remSecs < 0 {
      remSecs := remSecs + 86400;
      dayCount := dayCount - 1;
    }
  }

  method FormatTimePoint(out: Sink<char>, count: int, num: nat, den: nat, timeOnly: bool, dateOnly: bool)
    requires den > 0 && (WantsDate(timeOnly, dateOnly) ==> HasDate(Millis(count, num, den)))
    modifies out
    ensures out.text == old(out.text) + TimePointText(Millis(count, num, den), timeOnly, dateOnly)
  {
    hide Padded, CivilFromDays, DateText, Millis, ToI32;
    var days, hours, mins, secs, subMs := SplitInstant(count, num, den);
    var wantTimeOnly := timeOnly && !dateOnly;
    var wantDateOnly := dateOnly && !timeOnly;
    if !wantTimeOnly {
      WriteDate(out, days);
    }
    if !wantDateOnly && !wantTimeOnly {
      out.Put('T');
    }
    if !wantDateOnly {
      WriteClock(out, hours, mins, secs, subMs);
    }
  }

  method WriteDate(out: Sink<char>, days: i32)
    requires days + 719468 < TWO31
    modifies out
    ensures ValidDate(CivilFromDays(days))
    ensures out.text == old(out.text) + DateText(CivilFromDays(days))
  {
    hide Padded, CivilFromDays;
    CivilMeaning(days);
    var date := CivilFromDays(days);
    WriteDec(out, ToU32(date.year), 4);
    out.Put('-');
    WriteDec(out, date.month, 2);
    out.Put('-');
    WriteDec(out, date.day, 2);
  }

  method WriteClock(out: Sink<char>, hours: u32, mins: u32, secs: u32, subMs: u32)
    modifies out
    ensures out.text == old(out.text)
                      + (Dec(hours, 2) + (":" + (Dec(mins, 2) + (":" + (Dec(secs, 2) + ("." + (Dec(subMs, 3) + "Z")))))))
  {
    hide Padded;
    WriteDec(out, hours, 2);
    out.Put(':');
    WriteDec(out, mins, 2);
    out.Put(':');
    WriteDec(out, secs, 2);
    out.Put('.');
    WriteDec(out, subMs, 3);
    out.Put('Z');
  }
}
