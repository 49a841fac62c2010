/** Decimal text of scaled values: sign, integer part, a fixed number of fraction digits, and an
    optional unit, with the reader that inverts it. */
module Decimals {
  import opened Words
  import opened Options
  import opened Digits
  import opened Output
  import opened Integers

  /** The number mantissa / 10^decimals. */
  datatype Fixed = Fixed(mantissa: int, decimals: nat)

  function FixedText(negative: bool, whole: nat, frac: nat, k: nat, unit: bool): (s: string)
  {
    (if negative then "-" else "") + Text(whole, 10)
    + ((if k > 0 then "." + Padded(frac, 10, k) else "") + (if unit then "s" else ""))
  }

  /** The tail of such a text. */
  method WriteFraction(out: Sink<char>, frac: u64, k: nat, unit: bool)
    modifies out
    ensures out.text == old(out.text)
                        + ((if k > 0 then "." + Padded(frac, 10, k) else "") + (if unit then "s" else ""))
  {
    hide Padded;
    if k > 0 {
      out.Put('.');
      FormatUnsigned(out, Decimal, frac, false, k);
    }
    if unit {
      out.Put('s');
    }
  }

  /** Digits without an excess leading zero, and what follows them. */
  function ReadUnsigned(u: string): (r: Option<Fixed>)
  {
    var a := DigitRun(u);
    if a == 0 || (a > 1 && u[0] == '0') then None else ReadTail(u[..a], u[a..])
  }

  /** What may follow the digits of the whole part. */
  function ReadTail(whole: string, rest: string): (r: Option<Fixed>)
  {
    if rest == "" || rest == "s" then Some(Fixed(Read(whole, 10), 0))
    else if rest[0] != '.' then None
    else
      var b := DigitRun(rest[1..]);
      var end := rest[1..][b..];
      if b == 0 || (end != "" && end != "s") then None
      else Some(Fixed(Read(whole + rest[1..][..b], 10), b))
  }

  function ReadFixed(s: string): (r: Option<Fixed>)
  {
    if s != "" && s[0] == '-' then
      var f :- ReadUnsigned(s[1..]);
      Some(Fixed(0 - f.mantissa, f.decimals))
    else ReadUnsigned(s)
  }

  lemma PaddedLength(n: nat, k: nat)
    requires k >= 1 && n < Pow(10, k)
    ensures |Padded(n, 10, k)| == k
  {
    hide Text;
    TextLength(n, 10, false, k);
  }

  /** How many fraction digits are printed: a fraction too long for its field is not cut. */
  function PrintedPlaces(frac: nat, k: nat): (w: nat)
  {
    if k == 0 then 0 else |Padded(frac, 10, k)|
  }

  lemma WholeReads(t: string, rest: string)
    requires t != "" && AllDigits(t, 10) && (rest == "" || !IsDigit(rest[0], 10))
    requires |t| > 1 ==> t[0] != '0'
    ensures ReadUnsigned(t + rest) == ReadTail(t, rest)
  {
    hide DigitRun, ReadTail, AllDigits;
    DigitRunExact(t, rest);
    assert (t + rest)[..|t|] == t && (t + rest)[|t|..] == rest;
  }

  lemma TailReads(t: string, p: string, end: string)
    requires p != "" && AllDigits(p, 10) && (end == "" || end == "s")
    ensures ReadTail(t, "." + (p + end)) == Some(Fixed(Read(t + p, 10), |p|))
  {
    hide Read, DigitRun, AllDigits;
    DigitRunExact(p, end);
    assert ("." + (p + end))[1..] == p + end;
    assert (p + end)[..|p|] == p && (p + end)[|p|..] == end;
  }

  /** Digits, a point, digits, and perhaps the unit. */
  lemma PointReads(t: string, p: string, end: string)
    requires t != "" && p != "" && AllDigits(t, 10) && AllDigits(p, 10) && (end == "" || end == "s")
    requires |t| > 1 ==> t[0] != '0'
    ensures ReadUnsigned(t + ("." + (p + end))) == Some(Fixed(Read(t, 10) * Pow(10, |p|) + Read(p, 10), |p|))
  {
    hide Read, Pow, ReadUnsigned, ReadTail, AllDigits;
    WholeReads(t, "." + (p + end));
    TailReads(t, p, end);
    ReadConcat(t, p, 10);
  }

  lemma UnsignedReads(whole: nat, frac: nat, k: nat, unit: bool)
    ensures ReadUnsigned(FixedText(false, whole, frac, k, unit))
         == Some(Fixed(whole * Pow(10, PrintedPlaces(frac, k)) + (if k == 0 then 0 else frac), PrintedPlaces(frac, k)))
    ensures FixedText(false, whole, frac, k, unit)[0] != '-'
  {
    hide Text, Padded, Read, Pow, ReadUnsigned, AllDigits;
    var t, end := Text(whole, 10), if unit then "s" else "";
    TextIsDigits(whole, 10, false);
    ReadText(whole, 10, false);
    NoLeadingZero(whole, 10, false);
    TextStep(whole, 10, false);
    FirstIsDigit(t);
    if k == 0 {
      PowZero();
      WholeReads(t, end);
      assert FixedText(false, whole, frac, k, unit) == t + end;
      assert ReadTail(t, end) == Some(Fixed(Read(t, 10), 0));
    } else {
      var p := Padded(frac, 10, k);
      ReadPadded(frac, 10, k, false);
      PaddedNotEmpty(frac, k);
      PointReads(t, p, end);
      assert FixedText(false, whole, frac, k, unit) == t + ("." + (p + end));
    }
  }

  lemma FirstIsDigit(t: string)
    requires t != "" && AllDigits(t, 10)
    ensures t[0] != '-'
  {
    assert IsDigit(t[0], 10);
  }

  lemma PaddedNotEmpty(n: nat, k: nat)
    ensures Padded(n, 10, k) != ""
  {
  }

  lemma PowZero()
    ensures Pow(10, 0) == 1
  {
  }

  lemma FixedReads(negative: bool, whole: nat, frac: nat, k: nat, unit: bool)
    ensures var w := PrintedPlaces(frac, k);
            var m := whole * Pow(10, w) + (if k == 0 then 0 else frac);
            ReadFixed(FixedText(negative, whole, frac, k, unit)) == Some(Fixed(if negative then 0 - m else m, w))
  {
    hide ReadUnsigned, Pow, PrintedPlaces;
    UnsignedReads(whole, frac, k, unit);
    var u := FixedText(false, whole, frac, k, unit);
    if negative {
      hide Text, Padded;
      assert FixedText(true, whole, frac, k, unit) == "-" + u;
      assert ("-" + u)[1..] == u;
    }
  }

  /** The text names exactly the sign, the whole part and the fraction digits it was built from. */
  lemma FixedReadsBack(negative: bool, whole: nat, frac: nat, k: nat, unit: bool)
    requires frac < Pow(10, k)
    ensures var m := whole * Pow(10, k) + frac;
            ReadFixed(FixedText(negative, whole, frac, k, unit)) == Some(Fixed(if negative then 0 - m else m, k))
  {
    hide ReadFixed, FixedText, Pow, Padded;
    FixedReads(negative, whole, frac, k, unit);
    if k == 0 {
      PowZero();
    } else {
      PaddedLength(frac, k);
    }
  }

  /** A fraction too long for its field reads as having more places. */
  lemma WideFraction(negative: bool, whole: nat, frac: nat, k: nat, unit: bool)
    requires k >= 1 && frac >= Pow(10, k)
    ensures ReadFixed(FixedText(negative, whole, frac, k, unit)).Some?
    ensures ReadFixed(FixedText(negative, whole, frac, k, unit)).value.decimals > k
  {
    hide ReadFixed, FixedText, Pow, Text;
    FixedReads(negative, whole, frac, k, unit);
    TextLength(frac, 10, false, k);
  }
}
