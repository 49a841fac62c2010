/** FreeBSD binary times: a 64 by 64 bit multiply-high from 32-bit halves, and the texts of
    `struct bintime` and `sbintime_t`. */
module BinaryTime {
  import opened Words
  import opened Options
  import opened Output
  import opened Digits
  import opened Integers
  import opened Decimals

  datatype Precision = Sec | Ms | Us | Ns | Ps

  function Places(p: Precision): (k: nat)
  {
    match p case Sec => 0 case Ms => 3 case Us => 6 case Ns => 9 case Ps => 12
  }

  // --- The wide product ------------------------------------------------------------------------

  lemma HalfProduct(a: u32, b: u32)
    ensures 0 <= a * b <= (TWO32 - 1) * (TWO32 - 1)
  {
    MulMonotone(a, TWO32 - 1, b);
    MulMonotone(b, TWO32 - 1, TWO32 - 1);
  }

  /** The upper 64 bits of a 128-bit product, in 64-bit steps none of which overflows. */
  function MulHigh(frac: u64, multiplier: u64): (r: u64)
    ensures r == frac * multiplier / TWO64
  {
    var fracLow: u32 := frac % TWO32;
    var fracHigh: u32 := frac / TWO32;
    var multiplierLow: u32 := multiplier % TWO32;
    var multiplierHigh: u32 := multiplier / TWO32;
    HalfProduct(fracLow, multiplierLow);
    HalfProduct(fracHigh, multiplierLow);
    HalfProduct(fracLow, multiplierHigh);
    HalfProduct(fracHigh, multiplierHigh);
    var lowProduct: u64 := fracLow * multiplierLow;
    var middle: u64 := fracHigh * multiplierLow + lowProduct / TWO32;
    var middleLow: u64 := middle % TWO32;
    var middleHigh: u64 := middle / TWO32;
    var cross: u64 := middleLow + fracLow * multiplierHigh;
    MulHighValue(frac, multiplier);
    fracHigh * multiplierHigh + middleHigh + cross / TWO32
  }

  lemma MulHighValue(f: u64, m: u64)
    ensures var fl, fh, ml, mh := f % TWO32, f / TWO32, m % TWO32, m / TWO32;
            var middle := fh * ml + fl * ml / TWO32;
            fh * mh + middle / TWO32 + (middle % TWO32 + fl * mh) / TWO32 == f * m / TWO64
  {
    MulHighParts(f, m, f % TWO32, f / TWO32, m % TWO32, m / TWO32);
  }

  lemma MulHighParts(f: int, m: int, fl: nat, fh: nat, ml: nat, mh: nat)
    requires f == fh * TWO32 + fl && m == mh * TWO32 + ml
    ensures var middle := fh * ml + fl * ml / TWO32;
            fh * mh + middle / TWO32 + (middle % TWO32 + fl * mh) / TWO32 == f * m / TWO64
  {
    Expand(f, m, fl, fh, ml, mh);
    Carry(fh * mh, fh * ml, fl * mh, fl * ml);
  }

  lemma Expand(f: int, m: int, fl: int, fh: int, ml: int, mh: int)
    requires f == fh * TWO32 + fl && m == mh * TWO32 + ml
    ensures f * m == (fh * mh) * TWO64 + (fh * ml + fl * mh) * TWO32 + fl * ml
  {
    var b := TWO32;
    calc {
      f * m;
      (fh * b + fl) * (mh * b + ml);
      (fh * b) * (mh * b) + (fh * b) * ml + fl * (mh * b) + fl * ml;
      { assert (fh * b) * (mh * b) == (fh * mh) * (b * b);
        assert (fh * b) * ml == (fh * ml) * b;
        assert fl * (mh * b) == (fl * mh) * b; }
      (fh * mh) * (b * b) + (fh * ml) * b + (fl * mh) * b + fl * ml;
    }
  }

  /** Adding the partial products with carries is adding them at once. */
  lemma Carry(hh: nat, hl: nat, lh: nat, ll: nat)
    ensures var middle := hl + ll / TWO32;
            hh + middle / TWO32 + (middle % TWO32 + lh) / TWO32
            == (hh * TWO64 + (hl + lh) * TWO32 + ll) / TWO64
  {
    var q, r := ll / TWO32, ll % TWO32;
    var middle := hl + q;
    var c, d := (middle % TWO32 + lh) / TWO32, (middle % TWO32 + lh) % TWO32;
    var total := hh * TWO64 + (hl + lh) * TWO32 + ll;
    assert total == (hh + middle / TWO32 + c) * TWO64 + (d * TWO32 + r);
    assert 0 <= d * TWO32 + r < TWO64;
  }

  lemma PowerFits(k: nat)
    requires k <= 18
    ensures Pow(10, k) < TWO64
  {
    assert Pow(10, 6) == 1_000_000;
    assert Pow(10, 12) == 1_000_000_000_000;
    assert Pow(10, 18) == 1_000_000_000_000_000_000;
    PowerMonotone(k, 18);
  }

  lemma FractionBound(frac: nat, m: nat, full: nat)
    requires frac < full && m > 0
    ensures frac * m / full < m
  {
    MulMonotone(frac + 1, full, m);
    DivBelow(frac * m, full, m);
  }

  /** The decimal digits of a binary fraction: exact truncation, and no more digits than asked. */
  function FracToDecimal(frac: u64, p: Precision): (r: u64)
    ensures r == frac * Pow(10, Places(p)) / TWO64 && r < Pow(10, Places(p))
  {
    PowerFits(Places(p));
    FractionBound(frac, Pow(10, Places(p)), TWO64);
    if p == Sec then 0 else MulHigh(frac, Pow(10, Places(p)))
  }

  // --- Specifications --------------------------------------------------------------------------

  /** The precision a letter selects, if any; only `struct bintime` knows picoseconds. */
  function LetterPrecision(c: char, pico: bool): (p: Option<Precision>)
  {
    if c == 'm' || c == '3' then Some(Ms)
    else if c == 'u' || c == '6' then Some(Us)
    else if c == 'n' || c == '9' then Some(Ns)
    else if pico && (c == 'p' || c == '1') then Some(Ps)
    else None
  }

  /** The last precision letter decides. */
  function LastPrecision(spec: string, pico: bool, default: Precision): (p: Precision)
  {
    if spec == "" then default
    else
      var last := LetterPrecision(spec[|spec| - 1], pico);
      if last.Some? then last.value else LastPrecision(spec[..|spec| - 1], pico, default)
  }

  method ParseSpec(spec: string, pico: bool, default: Precision) returns (precision: Precision, showUnit: bool)
    ensures precision == LastPrecision(spec, pico, default)
    ensures showUnit <==> 'r' !in spec && 'R' !in spec
  {
    precision, showUnit := default, true;
    for i := 0 to |spec|
      invariant precision == LastPrecision(spec[..i], pico, default)
      invariant showUnit <==> 'r' !in spec[..i] && 'R' !in spec[..i]
    {
      var c := spec[i];
      if c == 'm' || c == '3' {
        precision := Ms;
      } else if c == 'u' || c == '6' {
        precision := Us;
      } else if c == 'n' || c == '9' {
        precision := Ns;
      } else if pico && (c == 'p' || c == '1') {
        precision := Ps;
      } else if c == 'r' || c == 'R' {
        showUnit := false;
      }
      assert spec[..i + 1][..i] == spec[..i];
      assert spec[..i + 1] == spec[..i] + [c];
    }
    assert spec[..|spec|] == spec;
  }

  /** Without the picosecond letters no specification selects picoseconds. */
  lemma {:induction false} NoPicoseconds(spec: string, default: Precision)
    requires default != Ps
    ensures LastPrecision(spec, false, default) != Ps
  {
    if spec != "" { NoPicoseconds(spec[..|spec| - 1], default); }
  }

  // --- struct bintime --------------------------------------------------------------------------

  /** The negation of the smallest second count is not representable, so it is excluded. */
  method FormatBintime(out: Sink<char>, sec: i64, frac: u64, precision: Precision, showUnit: bool)
    requires sec > -TWO63
    modifies out
    ensures out.text == old(out.text)
                        + FixedText(sec < 0, Magnitude(sec), FracToDecimal(frac, precision), Places(precision), showUnit)
  {
    hide Text, Padded, FracToDecimal;
    if sec < 0 {
      out.Put('-');
      WriteDecimal(out, -sec);
    } else {
      WriteDecimal(out, sec);
    }
    WriteFraction(out, FracToDecimal(frac, precision), Places(precision), showUnit);
  }

  /** The time sec + frac / 2^64 in units of 10^-k seconds, truncated toward zero. */
  function BintimeScaled(sec: int, frac: u64, k: nat): (v: int)
  {
    CDiv((sec * TWO64 + frac) * Pow(10, k), TWO64)
  }

  lemma ScaledNonnegative(sec: nat, frac: u64, p: nat)
    ensures (sec * TWO64 + frac) * p / TWO64 == sec * p + frac * p / TWO64
  {
    var x, r := frac * p / TWO64, frac * p % TWO64;
    assert (sec * TWO64 + frac) * p == (sec * p) * TWO64 + frac * p;
    assert (sec * TWO64 + frac) * p == (sec * p + x) * TWO64 + r;
  }

  /** For a negative second count the fraction counts the other way. */
  lemma ScaledNegative(n: nat, frac: u64, p: nat)
    requires n >= 1 && p >= 1
    ensures CDiv((0 - n * TWO64 + frac) * p, TWO64) == 0 - (n * p + frac * p / TWO64) <==> frac == 0
  {
    var big := n * TWO64 - frac;
    var q, r := frac * p / TWO64, frac * p % TWO64;
    assert frac * p == q * TWO64 + r;
    assert big * p == (n * p) * TWO64 - frac * p;
    assert big * p >= 0;
    assert (0 - n * TWO64 + frac) * p == 0 - big * p;
    if frac == 0 {
      assert frac * p == 0;
    } else {
      MulMonotone(1, p, frac);
      assert frac * p >= 1;
      var up := if r == 0 then q else q + 1;
      assert up >= 1;
      assert big * p / TWO64 == n * p - up by {
        assert big * p == (n * p - up) * TWO64 + (up * TWO64 - frac * p);
        assert 0 <= up * TWO64 - frac * p < TWO64;
      }
    }
  }

  lemma MantissaExact(sec: int, frac: u64, k: nat)
    ensures var m := Magnitude(sec) * Pow(10, k) + frac * Pow(10, k) / TWO64;
            (if sec < 0 then 0 - m else m) == BintimeScaled(sec, frac, k) <==> (sec >= 0 || frac == 0)
  {
    hide Pow;
    var p := Pow(10, k);
    if sec >= 0 {
      ScaledNonnegative(sec, frac, p);
      assert (sec * TWO64 + frac) * p >= 0;
    } else {
      var n := 0 - sec;
      assert sec * TWO64 == 0 - n * TWO64;
      ScaledNegative(n, frac, p);
    }
  }

  function BintimeText(sec: int, frac: u64, precision: Precision, unit: bool): (s: string)
  {
    FixedText(sec < 0, Magnitude(sec), FracToDecimal(frac, precision), Places(precision), unit)
  }

  /** The text is the time truncated toward zero exactly when the second count is not negative or
      there is no fraction: a negative count is printed with its fraction unadjusted. */
  lemma BintimeReadsBack(sec: int, frac: u64, precision: Precision, unit: bool)
    ensures ReadFixed(BintimeText(sec, frac, precision, unit))
            == Some(Fixed(BintimeScaled(sec, frac, Places(precision)), Places(precision)))
       <==> (sec >= 0 || frac == 0)
  {
    hide FixedText, ReadFixed, BintimeScaled, Pow, Magnitude;
    var k := Places(precision);
    FixedReadsBack(sec < 0, Magnitude(sec), FracToDecimal(frac, precision), k, unit);
    MantissaExact(sec, frac, k);
  }

  // --- sbintime_t ------------------------------------------------------------------------------

  /** Every precision but milliseconds and microseconds is scaled to nanoseconds. */
  function SbtMultiplier(p: Precision): (m: nat)
  {
    match p case Ms => 1000 case Us => 1_000_000 case _ => 1_000_000_000
  }

  function SbtFracToDecimal(frac32: u32, p: Precision): (r: u32)
    ensures r == frac32 * SbtMultiplier(p) / TWO32 && r < SbtMultiplier(p)
  {
    FractionBound(frac32, SbtMultiplier(p), TWO32);
    var product: u64 := frac32 * SbtMultiplier(p);
    product / TWO32
  }

  function SbintimeText(val: int, p: Precision, unit: bool): (s: string)
  {
    FixedText(val < 0, Magnitude(val) / TWO32, SbtFracToDecimal(Magnitude(val) % TWO32, p), Places(p), unit)
  }

  method FormatSbintime(out: Sink<char>, val: i64, precision: Precision, showUnit: bool)
    modifies out
    ensures out.text == old(out.text) + SbintimeText(val, precision, showUnit)
  {
    hide Text, Padded, SbtFracToDecimal;
    var magnitude := WriteSign(out, val);
    hide Magnitude;
    var sec := magnitude / TWO32;
    var frac: u32 := magnitude % TWO32;
    WriteDecimal(out, sec);
    WriteFraction(out, SbtFracToDecimal(frac, precision), Places(precision), showUnit);
  }

  method WriteSign(out: Sink<char>, val: i64) returns (magnitude: u64)
    modifies out
    ensures magnitude == Magnitude(val) && out.text == old(out.text) + if val < 0 then "-" else ""
  {
    if val < 0 {
      out.Put('-');
      var low: i64 := -(val + 1);
      magnitude := low + 1;
    } else {
      magnitude := val;
    }
  }

  lemma SbtMantissa(m: nat, p: nat)
    ensures m / TWO32 * p + m % TWO32 * p / TWO32 == m * p / TWO32
  {
    var q, r := m / TWO32, m % TWO32;
    var x, y := r * p / TWO32, r * p % TWO32;
    assert m * p == (q * TWO32) * p + r * p by { assert m == q * TWO32 + r; }
    assert (q * TWO32) * p == (q * p) * TWO32;
    assert m * p == (q * p + x) * TWO32 + y;
  }

  lemma SbtPowers()
    ensures Pow(10, 0) == 1 && Pow(10, 3) == 1000 && Pow(10, 6) == 1_000_000
    ensures Pow(10, 9) == 1_000_000_000 && Pow(10, 12) == 1_000_000_000_000
  {
  }

  /** The nanosecond digits stand for the picosecond digits only when there is no fraction. */
  lemma PicosecondGap(frac: u32)
    ensures frac * 1_000_000_000 / TWO32 == frac * 1_000_000_000_000 / TWO32 <==> frac == 0
  {
  }

  /** The mantissa that a text holds, against the value truncated toward zero. */
  lemma SbtExact(m: nat, p: Precision)
    ensures var d, k := SbtFracToDecimal(m % TWO32, p), Pow(10, Places(p));
            (p == Sec ==> d < 1_000_000_000) && (p != Sec ==> d < k)
    ensures var shown := if p == Sec then 0 else SbtFracToDecimal(m % TWO32, p);
            m / TWO32 * Pow(10, Places(p)) + shown == m * Pow(10, Places(p)) / TWO32
            <==> (p != Ps || m % TWO32 == 0)
  {
    SbtPowers();
    SbtMantissa(m, Pow(10, Places(p)));
    PicosecondGap(m % TWO32);
  }

  /** The printed number is the value over 2^32 truncated toward zero, with exactly as many fraction
      digits as the precision has, for every precision a specification can select; picoseconds,
      which only a direct assignment could select, would be right for whole seconds only. */
  lemma SbintimeReadsBack(val: int, p: Precision, unit: bool)
    ensures ReadFixed(SbintimeText(val, p, unit)) == Some(Fixed(CDiv(val * Pow(10, Places(p)), TWO32), Places(p)))
       <==> (p != Ps || Magnitude(val) % TWO32 == 0)
  {
    hide FixedText, ReadFixed, Pow, SbtFracToDecimal;
    var m, k := Magnitude(val), Places(p);
    var shown := if p == Sec then 0 else SbtFracToDecimal(m % TWO32, p);
    SbtExact(m, p);
    SbtPowers();
    WithoutDigits(val < 0, m / TWO32, SbtFracToDecimal(m % TWO32, p), unit);
    FixedReadsBack(val < 0, m / TWO32, shown, k, unit);
    SignedScale(val, Pow(10, k));
  }

  lemma WithoutDigits(negative: bool, whole: nat, frac: nat, unit: bool)
    ensures FixedText(negative, whole, frac, 0, unit) == FixedText(negative, whole, 0, 0, unit)
  {
  }

  lemma SignedScale(val: int, p: nat)
    ensures CDiv(val * p, TWO32) == if val < 0 then 0 - Magnitude(val) * p / TWO32 else Magnitude(val) * p / TWO32
  {
    var m := Magnitude(val);
    assert m * p >= 0;
    if val < 0 {
      assert val * p == 0 - m * p;
    }
  }

  /** Half a second after minus one second prints as minus one and a half. */
  lemma NegativeExample()
    ensures BintimeScaled(-1, TWO63, 3) == -500
    ensures ReadFixed(BintimeText(-1, TWO63, Ms, true)) != Some(Fixed(-500, 3))
  {
    assert Pow(10, 3) == 1000;
    assert BintimeScaled(-1, TWO63, 3) == -500;
    hide BintimeText, ReadFixed, Pow, BintimeScaled;
    BintimeReadsBack(-1, TWO63, Ms, true);
  }

  /** Half a second with twelve places is scaled as if it had nine. */
  lemma PicosecondExample()
    ensures ReadFixed(SbintimeText(TWO31, Ps, true)) != Some(Fixed(CDiv(TWO31 * Pow(10, 12), TWO32), 12))
  {
    hide SbintimeText, ReadFixed, Pow;
    SbintimeReadsBack(TWO31, Ps, true);
  }

  /** The decimals a letter asks for, where it asks for any. */
  function LetterPlaces(c: char, pico: bool): (k: nat)
  {
    match c
    case 'm' => 3
    case '3' => 3
    case 'u' => 6
    case '6' => 6
    case 'n' => 9
    case '9' => 9
    case 'p' => if pico then 12 else 0
    case '1' => if pico then 12 else 0
    case _ => 0
  }

  predicate NoLetters(s: string, pico: bool)
  {
    forall i :: 0 <= i < |s| ==> LetterPlaces(s[i], pico) == 0
  }

  lemma {:induction false} LastLetterDecides(a: string, c: char, b: string, pico: bool, default: Precision)
    requires LetterPlaces(c, pico) > 0 && NoLetters(b, pico)
    ensures Places(LastPrecision(a + [c] + b, pico, default)) == LetterPlaces(c, pico)
    decreases |b|
  {
    var s := a + [c] + b;
    if b == "" {
      assert s == a + [c];
    } else {
      var n := |b| - 1;
      LastLetterDecides(a, c, b[..n], pico, default);
      assert s[..|s| - 1] == a + [c] + b[..n] && s[|s| - 1] == b[n];
      assert LetterPlaces(b[n], pico) == 0;
    }
  }

  lemma {:induction false} NoLetterKeepsDefault(b: string, pico: bool, default: Precision)
    requires NoLetters(b, pico)
    ensures LastPrecision(b, pico, default) == default
  {
    if b != "" {
      var n := |b| - 1;
      assert LetterPlaces(b[n], pico) == 0;
      NoLetterKeepsDefault(b[..n], pico, default);
    }
  }

  /** From the text of a specification to the number printed: the last letter gives the decimals, and
      the time is truncated to them. */
  lemma SpecifiedDecimals(a: string, c: char, b: string, sec: nat, frac: u64, val: int, unit: bool)
    ensures LetterPlaces(c, true) > 0 && NoLetters(b, true) ==>
              ReadFixed(BintimeText(sec, frac, LastPrecision(a + [c] + b, true, Ns), unit))
              == Some(Fixed((sec * TWO64 + frac) * Pow(10, LetterPlaces(c, true)) / TWO64, LetterPlaces(c, true)))
    ensures LetterPlaces(c, false) > 0 && NoLetters(b, false) ==>
              ReadFixed(SbintimeText(val, LastPrecision(a + [c] + b, false, Ns), unit))
              == Some(Fixed(CDiv(val * Pow(10, LetterPlaces(c, false)), TWO32), LetterPlaces(c, false)))
  {
    hide BintimeText, SbintimeText, ReadFixed, Pow, LastPrecision, LetterPlaces, NoLetters, Places, Magnitude;
    if LetterPlaces(c, true) > 0 && NoLetters(b, true) {
      LastLetterDecides(a, c, b, true, Ns);
      BintimeReadsBack(sec, frac, LastPrecision(a + [c] + b, true, Ns), unit);
      ScaledUp(sec, frac, LetterPlaces(c, true));
    }
    if LetterPlaces(c, false) > 0 && NoLetters(b, false) {
      LastLetterDecides(a, c, b, false, Ns);
      NoPicoseconds(a + [c] + b, Ns);
      SbintimeReadsBack(val, LastPrecision(a + [c] + b, false, Ns), unit);
    }
  }

  lemma ScaledUp(sec: nat, frac: u64, k: nat)
    ensures BintimeScaled(sec, frac, k) == (sec * TWO64 + frac) * Pow(10, k) / TWO64
  {
    hide Pow;
    MulMonotone(0, sec * TWO64 + frac, Pow(10, k));
  }
}
