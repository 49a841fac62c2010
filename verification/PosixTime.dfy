/** POSIX times: `struct timespec` and `struct timeval` as seconds with a truncated fraction. */
module PosixTime {
  import opened Words
  import opened Options
  import opened Output
  import opened Digits
  import opened Integers
  import opened Decimals

  /** Nanoseconds in a timespec, microseconds in a timeval. */
  datatype Kind = Timespec | Timeval

  function PerSecond(t: Kind): (n: int)
  {
    if t == Timespec then 1_000_000_000 else 1_000_000
  }

  /** Fraction digits printed for a precision setting. */
  function Shown(t: Kind, precision: nat): (k: nat)
  {
    if precision == 3 then 3 else if t == Timeval || precision == 6 then 6 else 9
  }

  /** Sub-second units per printed digit. */
  function Dropped(t: Kind, precision: nat): (d: int)
    ensures 0 < d <= 1_000_000
  {
    match (t, Shown(t, precision))
    case (Timespec, 3) => 1_000_000
    case (Timespec, 6) => 1000
    case (Timeval, 3) => 1000
    case _ => 1
  }

  /** Seconds and sub-seconds printed for a time: those of its magnitude, in 32-bit arithmetic. */
  function Adjusted(t: Kind, sec: int, sub: int): (r: (nat, u32))
  {
    var u := ToU32(sub);
    if sec >= 0 then (sec, u)
    else if u > 0 then (-(sec + 1), ToU32(PerSecond(t) - u))
    else (-(sec + 1) + 1, 0)
  }

  function PosixText(t: Kind, sec: int, sub: int, precision: nat, unit: bool): (s: string)
  {
    var (whole, rest) := Adjusted(t, sec, sub);
    FixedText(sec < 0, whole, rest / Dropped(t, precision), Shown(t, precision), unit)
  }

  /** Sign and whole seconds; a negative count with a fraction is one second nearer to zero. */
  method WriteSeconds(out: Sink<char>, t: Kind, tvSec: i64, tvSub: i64) returns (sub: u32)
    modifies out
    ensures sub == Adjusted(t, tvSec, tvSub).1
    ensures out.text == old(out.text) + (if tvSec < 0 then "-" else "") + Text(Adjusted(t, tvSec, tvSub).0, 10)
  {
    hide Text, ToU32;
    sub := ToU32(tvSub);
    if tvSec < 0 {
      out.Put('-');
      var magnitude: u64 := -(tvSec + 1);
      if sub > 0 {
        sub := ToU32(PerSecond(t) - sub);
      } else {
        magnitude := magnitude + 1;
      }
      WriteDecimal(out, magnitude);
    } else {
      WriteDecimal(out, tvSec);
    }
  }

  method WriteSubseconds(out: Sink<char>, t: Kind, sub: u32, precision: u8, showUnit: bool)
    modifies out
    ensures out.text == old(out.text) + ("." + Padded(sub / Dropped(t, precision), 10, Shown(t, precision))
                                         + (if showUnit then "s" else ""))
  {
    hide Padded;
    if t == Timespec {
      if precision == 3 {
        WriteFraction(out, sub / 1_000_000, 3, showUnit);
      } else if precision == 6 {
        WriteFraction(out, sub / 1000, 6, showUnit);
      } else {
        WriteFraction(out, sub, 9, showUnit);
      }
    } else if precision == 3 {
      WriteFraction(out, sub / 1000, 3, showUnit);
    } else {
      WriteFraction(out, sub, 6, showUnit);
    }
  }

  method FormatPosix(out: Sink<char>, t: Kind, tvSec: i64, tvSub: i64, precision: u8, showUnit: bool)
    modifies out
    ensures out.text == old(out.text) + PosixText(t, tvSec, tvSub, precision, showUnit)
  {
    hide Text, Padded, Adjusted, Dropped;
    var sub := WriteSeconds(out, t, tvSec, tvSub);
    WriteSubseconds(out, t, sub, precision, showUnit);
  }

  lemma ShownPowers()
    ensures Pow(10, 3) == 1000 && Pow(10, 6) == 1_000_000 && Pow(10, 9) == 1_000_000_000
  {
  }

  /** A printed digit is worth its share of a second. */
  lemma ScaleFits(t: Kind, precision: nat)
    ensures Pow(10, Shown(t, precision)) * Dropped(t, precision) == PerSecond(t)
  {
    ShownPowers();
  }

  /** The magnitude's whole seconds and kept digits are its quotient by the dropped digits. */
  lemma MagnitudeQuotient(t: Kind, precision: nat, whole: nat, rest: nat)
    requires rest < PerSecond(t)
    ensures rest / Dropped(t, precision) < Pow(10, Shown(t, precision))
    ensures whole * Pow(10, Shown(t, precision)) + rest / Dropped(t, precision)
         == (whole * PerSecond(t) + rest) / Dropped(t, precision)
  {
    hide Pow, Shown, PerSecond, Dropped;
    ScaleFits(t, precision);
    KeptDigits(whole, rest, Pow(10, Shown(t, precision)), Dropped(t, precision), PerSecond(t));
  }

  lemma KeptDigits(whole: nat, rest: nat, p: nat, d: nat, unit: nat)
    requires d > 0 && p * d == unit && rest < unit
    ensures rest / d < p && whole * p + rest / d == (whole * unit + rest) / d
  {
    DivBelow(rest, d, p);
    DivFacts(rest, d);
    var x, y := rest / d, rest % d;
    MulRearrange(whole, p, x, d);
    QuotientUnique(whole * unit + rest, d, whole * p + x, y);
  }

  /** The magnitude of a time whose printed sub-seconds are below one second. */
  lemma AdjustedMagnitude(t: Kind, sec: int, sub: int)
    requires Adjusted(t, sec, sub).1 < PerSecond(t)
    ensures var (whole, rest) := Adjusted(t, sec, sub);
            var x := sec * PerSecond(t) + ToU32(sub);
            whole * PerSecond(t) + rest == (if sec < 0 then -x else x) && (sec < 0 ==> x <= 0)
  {
  }

  lemma FittingReads(t: Kind, sec: int, sub: int, precision: nat, unit: bool)
    requires Adjusted(t, sec, sub).1 < PerSecond(t)
    ensures ReadFixed(PosixText(t, sec, sub, precision, unit))
         == Some(Fixed(CDiv(sec * PerSecond(t) + ToU32(sub), Dropped(t, precision)), Shown(t, precision)))
  {
    hide FixedText, ReadFixed, Pow, Shown, Dropped, Adjusted, ToU32, PerSecond;
    var (whole, rest) := Adjusted(t, sec, sub);
    var x, d := sec * PerSecond(t) + ToU32(sub), Dropped(t, precision);
    AdjustedMagnitude(t, sec, sub);
    MagnitudeQuotient(t, precision, whole, rest);
    FixedReadsBack(sec < 0, whole, rest / d, Shown(t, precision), unit);
    TruncatedMagnitude(x, d, sec < 0);
  }

  lemma TruncatedMagnitude(x: int, d: int, negative: bool)
    requires d > 0 && (if negative then x <= 0 else x >= 0)
    ensures CDiv(x, d) == if negative then 0 - (-x) / d else x / d
  {
    DivFacts(0, d);
  }

  /** Otherwise too many digits are printed. */
  lemma WideUnread(t: Kind, sec: int, sub: int, precision: nat, unit: bool, m: int)
    requires Adjusted(t, sec, sub).1 >= PerSecond(t)
    ensures ReadFixed(PosixText(t, sec, sub, precision, unit)) != Some(Fixed(m, Shown(t, precision)))
  {
    hide FixedText, ReadFixed, Pow, Dropped, Adjusted;
    var (whole, rest) := Adjusted(t, sec, sub);
    var p, d := Pow(10, Shown(t, precision)), Dropped(t, precision);
    ScaleFits(t, precision);
    DivBelow(rest, d, p);
    assert rest / d >= p;
    WideFraction(sec < 0, whole, rest / d, Shown(t, precision), unit);
  }

  /** Numbers far apart have different truncated quotients. */
  lemma QuotientsApart(x: int, y: int, d: int)
    requires d > 0 && x + 2 * d <= y
    ensures CDiv(x, d) != CDiv(y, d)
  {
    var p, q := CDiv(x, d), CDiv(y, d);
    TruncatedBounds(x, d);
    TruncatedBounds(y, d);
    hide CDiv;
    assert p * d < x + d && y - d < q * d;
  }

  lemma TruncatedBounds(x: int, d: int)
    requires d > 0
    ensures x - d < CDiv(x, d) * d < x + d
  {
    var n := if x >= 0 then x else -x;
    DivFacts(n, d);
    assert x < 0 ==> CDiv(x, d) * d == -(n / d * d);
  }

  /** The sub-seconds that the formatters are meant for; a full second also works below zero. */
  predicate Normal(t: Kind, sec: int, sub: int)
  {
    0 <= sub < PerSecond(t) || (sec < 0 && sub == PerSecond(t))
  }

  lemma SubsecondsFit(t: Kind, sec: int, sub: int)
    ensures Normal(t, sec, sub) <==> ToU32(sub) == sub && Adjusted(t, sec, sub).1 < PerSecond(t)
    ensures ToU32(sub) == sub || sub + TWO32 <= ToU32(sub) || ToU32(sub) + TWO32 <= sub
  {
  }

  /** The text is seconds plus fraction truncated toward zero at the chosen precision, negative
      seconds included, exactly for these sub-seconds. */
  lemma PosixReadsBack(t: Kind, sec: int, sub: int, precision: nat, unit: bool)
    ensures ReadFixed(PosixText(t, sec, sub, precision, unit))
            == Some(Fixed(CDiv(sec * PerSecond(t) + sub, Dropped(t, precision)), Shown(t, precision)))
       <==> Normal(t, sec, sub)
  {
    SubsecondsFit(t, sec, sub);
    hide PosixText, ReadFixed, CDiv, Normal, Adjusted, Shown, ToU32;
    var x, d := sec * PerSecond(t), Dropped(t, precision);
    if Adjusted(t, sec, sub).1 >= PerSecond(t) {
      WideUnread(t, sec, sub, precision, unit, CDiv(x + sub, d));
    } else {
      FittingReads(t, sec, sub, precision, unit);
      if sub + TWO32 <= ToU32(sub) {
        QuotientsApart(x + sub, x + ToU32(sub), d);
      } else if ToU32(sub) + TWO32 <= sub {
        QuotientsApart(x + ToU32(sub), x + sub, d);
      }
    }
  }

  /** One second and a thousand million nanoseconds: too many digits are printed. */
  lemma UnnormalisedExample()
    ensures ReadFixed(PosixText(Timespec, 1, 1_000_000_000, 9, true)) != Some(Fixed(2_000_000_000, 9))
  {
    hide PosixText, ReadFixed;
    PosixReadsBack(Timespec, 1, 1_000_000_000, 9, true);
  }

  /** The digits shown: three, six or nine for a timespec, three or six for a timeval. */
  lemma DigitsShown(t: Kind, sec: int, sub: int, precision: nat, unit: bool)
    requires Normal(t, sec, sub)
    ensures ReadFixed(PosixText(t, sec, sub, precision, unit)) == Some(
              if t == Timespec then
                if precision == 3 then Fixed(CDiv(sec * 1_000_000_000 + sub, 1_000_000), 3)
                else if precision == 6 then Fixed(CDiv(sec * 1_000_000_000 + sub, 1000), 6)
                else Fixed(sec * 1_000_000_000 + sub, 9)
              else if precision == 3 then Fixed(CDiv(sec * 1_000_000 + sub, 1000), 3)
              else Fixed(sec * 1_000_000 + sub, 6))
  {
    hide PosixText, ReadFixed, Normal;
    PosixReadsBack(t, sec, sub, precision, unit);
    ByOne(sec * PerSecond(t) + sub);
    hide CDiv;
  }

  lemma ByOne(x: int)
    ensures CDiv(x, 1) == x
  {
  }
}
