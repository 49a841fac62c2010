/** The fixed-point view: a raw integer over a scale, printed with a fixed number of decimals. */
module FixedPoint {
  import opened Words
  import opened Options
  import opened Output
  import opened Digits
  import opened Integers
  import opened Decimals
  import opened BinaryTime

  method CtPow10(exp: nat) returns (result: u64)
    requires exp <= 18
    ensures result == Pow(10, exp)
  {
    result := 1;
    for i := 0 to exp
      invariant result == Pow(10, i)
    {
      PowerFits(i + 1);
      result := result * 10;
    }
  }

  /** Whole units in a raw value. */
  function Whole(raw: int, scale: nat): (q: nat)
    requires scale > 0
    ensures q <= Magnitude(raw)
  {
    DivFacts(Magnitude(raw), scale);
    MulMonotone(1, scale, Magnitude(raw) / scale);
    Magnitude(raw) / scale
  }

  /** What remains, below one unit. */
  function Remainder(raw: int, scale: nat): (r: nat)
    requires scale > 0
    ensures r < scale && r <= Magnitude(raw)
  {
    DivFacts(Magnitude(raw), scale);
    MulMonotone(0, Magnitude(raw) / scale, scale);
    Magnitude(raw) % scale
  }

  /** The remainder scaled to decimals, computed in 64 bits. */
  function FracPart(raw: int, scale: nat, decimals: nat): (f: u64)
    requires scale > 0
  {
    if decimals == 0 then 0 else Wrapped(Remainder(raw, scale) * Pow(10, decimals), scale)
  }

  function Wrapped(n: nat, scale: nat): (f: u64)
    requires scale > 0
  {
    DivFacts(ToU64(n), scale);
    MulMonotone(1, scale, ToU64(n) / scale);
    ToU64(n) / scale
  }

  function FixedPointText(raw: int, scale: nat, decimals: nat): (s: string)
    requires scale > 0
  {
    var whole, frac := Whole(raw, scale), FracPart(raw, scale, decimals);
    FixedText(raw < 0 && (whole > 0 || frac > 0), whole, frac, decimals, false)
  }

  /** Any raw value of a signed or unsigned type of up to 64 bits. */
  method FormatFixedPoint(out: Sink<char>, raw: int, scale: u64, decimals: nat)
    requires -TWO63 <= raw < TWO64 && scale > 0 && decimals <= 18
    modifies out
    ensures out.text == old(out.text) + FixedPointText(raw, scale, decimals)
  {
    hide Whole, FracPart, FixedText;
    var isNegative, absRaw := Split(raw);
    var integerPart: u64 := Whole(absRaw, scale);
    var fracPart := Fraction(absRaw, scale, decimals);
    SameMagnitude(absRaw, raw, scale, decimals);
    WriteSigned(out, isNegative, integerPart, fracPart, decimals);
  }

  /** Sign and magnitude, without negating the minimum. */
  method Split(raw: int) returns (isNegative: bool, absRaw: u64)
    requires -TWO63 <= raw < TWO64
    ensures isNegative == (raw < 0) && absRaw == Magnitude(raw)
  {
    hide ToU64;
    isNegative := raw < 0;
    if isNegative {
      UnsignedNegation(raw);
      absRaw := ToU64(0 - ToU64(raw) as int);
    } else {
      absRaw := raw;
    }
  }

  method Fraction(absRaw: u64, scale: u64, decimals: nat) returns (fracPart: u64)
    requires scale > 0 && decimals <= 18
    ensures fracPart == FracPart(absRaw, scale, decimals)
  {
    hide Remainder, Wrapped, Pow;
    var remainder := Remainder(absRaw, scale);
    var targetMult := CtPow10(decimals);
    fracPart := 0;
    if decimals > 0 {
      fracPart := Wrapped(remainder * targetMult, scale);
    }
  }

  lemma SameMagnitude(m: nat, raw: int, scale: nat, decimals: nat)
    requires m == Magnitude(raw) && scale > 0
    ensures Whole(m, scale) == Whole(raw, scale) && FracPart(m, scale, decimals) == FracPart(raw, scale, decimals)
  {
    hide Wrapped, Pow;
  }

  method WriteSigned(out: Sink<char>, isNegative: bool, integerPart: u64, fracPart: u64, decimals: nat)
    modifies out
    ensures out.text == old(out.text)
                        + FixedText(isNegative && (integerPart > 0 || fracPart > 0), integerPart, fracPart, decimals, false)
  {
    hide Text, Padded;
    if isNegative && (integerPart > 0 || fracPart > 0) {
      out.Put('-');
    }
    WriteDecimal(out, integerPart);
    WriteFraction(out, fracPart, decimals, false);
  }

  // --- When the text is right -----------------------------------------------------------------

  lemma FracBelow(raw: int, scale: u64, decimals: nat)
    requires scale > 0
    ensures FracPart(raw, scale, decimals) < Pow(10, decimals)
  {
    hide Pow, Remainder;
    var r, p := Remainder(raw, scale), Pow(10, decimals);
    if decimals > 0 {
      assert ToU64(r * p) <= r * p;
      HornerBound(r, scale, p, 0);
      DivBelow(ToU64(r * p), scale, p);
    }
  }

  lemma SplitProduct(q: nat, s: nat, r: nat, p: nat, x: nat, y: nat)
    requires r * p == x * s + y
    ensures (q * s + r) * p == (q * p + x) * s + y
  {
    MulRearrange(q, s, r, p);
    MulRearrange(q, p, x, s);
    assert q * (p * s) == q * (s * p);
  }

  lemma WholeAndFraction(raw: int, scale: nat, p: nat)
    requires scale > 0
    ensures Magnitude(raw) * p / scale == Whole(raw, scale) * p + Remainder(raw, scale) * p / scale
  {
    DivFacts(Magnitude(raw), scale);
    ProductQuotient(Magnitude(raw), Whole(raw, scale), Remainder(raw, scale), p, scale);
  }

  lemma ProductQuotient(m: nat, q: nat, r: nat, p: nat, scale: nat)
    requires scale > 0 && m == q * scale + r
    ensures m * p / scale == q * p + r * p / scale
  {
    var n: nat := r * p;
    DivFacts(n, scale);
    var x, y := n / scale, n % scale;
    SplitProduct(q, scale, r, p, x, y);
    QuotientUnique(m * p, scale, q * p + x, y);
  }

  /** Wrapping around 2^64 always changes the quotient. */
  lemma WrapShows(n: nat, scale: u64)
    requires scale > 0
    ensures Wrapped(n, scale) == n / scale <==> n < TWO64
  {
    var w := ToU64(n);
    DivFacts(w, scale);
    DivFacts(n, scale);
    if n >= TWO64 {
      assert n >= w + TWO64;
      assert n - n % scale > w - w % scale;
    }
  }

  lemma FracExact(raw: int, scale: u64, decimals: nat)
    requires scale > 0
    ensures var r := Remainder(raw, scale) * Pow(10, decimals);
            FracPart(raw, scale, decimals) == r / scale <==> (decimals == 0 || r < TWO64)
  {
    hide Pow, Remainder, Wrapped;
    if decimals == 0 {
      PowZero();
      QuotientUnique(Remainder(raw, scale), scale, 0, Remainder(raw, scale));
    } else {
      WrapShows(Remainder(raw, scale) * Pow(10, decimals), scale);
    }
  }

  /** The mantissa shown, and the value over the scale truncated toward zero. */
  function Shown(raw: int, scale: nat, decimals: nat): (m: nat)
    requires scale > 0
  {
    Whole(raw, scale) * Pow(10, decimals) + FracPart(raw, scale, decimals)
  }

  lemma ShownExact(raw: int, scale: u64, decimals: nat)
    requires scale > 0
    ensures Shown(raw, scale, decimals) == Magnitude(raw) * Pow(10, decimals) / scale
       <==> (decimals == 0 || Remainder(raw, scale) * Pow(10, decimals) < TWO64)
  {
    hide Pow, Whole, Remainder, FracPart;
    FracExact(raw, scale, decimals);
    WholeAndFraction(raw, scale, Pow(10, decimals));
  }

  lemma ShownZero(raw: int, scale: nat, decimals: nat)
    requires scale > 0
    ensures Shown(raw, scale, decimals) == 0 <==> Whole(raw, scale) == 0 && FracPart(raw, scale, decimals) == 0
  {
    hide Whole, FracPart;
    MulMonotone(1, Pow(10, decimals), Whole(raw, scale));
  }

  /** The text is the raw value over the scale truncated toward zero, exactly when the scaled
      remainder fits 64 bits. */
  lemma FixedPointReadsBack(raw: int, scale: u64, decimals: nat)
    requires scale > 0
    ensures ReadFixed(FixedPointText(raw, scale, decimals))
            == Some(Fixed(CDiv(raw * Pow(10, decimals), scale), decimals))
       <==> (decimals == 0 || Remainder(raw, scale) * Pow(10, decimals) < TWO64)
  {
    hide FixedText, ReadFixed, FracPart, Whole, Remainder, Pow, CDiv;
    var whole, frac := Whole(raw, scale), FracPart(raw, scale, decimals);
    FracBelow(raw, scale, decimals);
    ShownExact(raw, scale, decimals);
    ShownZero(raw, scale, decimals);
    FixedReadsBack(raw < 0 && (whole > 0 || frac > 0), whole, frac, decimals, false);
    SignedQuotient(raw, Pow(10, decimals), scale);
  }

  lemma SignedQuotient(raw: int, p: nat, scale: nat)
    requires scale > 0
    ensures CDiv(raw * p, scale) == if raw < 0 then 0 - Magnitude(raw) * p / scale else Magnitude(raw) * p / scale
  {
    assert Magnitude(raw) * p >= 0;
    if raw < 0 {
      assert raw * p == 0 - Magnitude(raw) * p;
    }
  }

  /** With a decimal scale nothing is truncated: the mantissa is the raw value itself. */
  lemma DecimalScaleInvertible(raw: int, decimals: nat)
    requires decimals <= 18
    ensures var p := Pow(10, decimals);
            ReadFixed(FixedPointText(raw, p, decimals)) == Some(Fixed(raw, decimals))
            <==> (decimals == 0 || Remainder(raw, p) * p < TWO64)
  {
    hide FixedPointText, ReadFixed, Pow, Remainder;
    PowerFits(decimals);
    var p := Pow(10, decimals);
    FixedPointReadsBack(raw, p, decimals);
    SignedQuotient(raw, p, p);
    QuotientUnique(Magnitude(raw) * p, p, Magnitude(raw), 0);
  }

  /** With ten or more decimals a decimal scale can lose: one half at eighteen decimals does not
      read back. */
  lemma OverflowExample()
    ensures Remainder(500_000_000_000_000_000, Pow(10, 18)) * Pow(10, 18) >= TWO64
    ensures ReadFixed(FixedPointText(500_000_000_000_000_000, Pow(10, 18), 18))
         != Some(Fixed(500_000_000_000_000_000, 18))
  {
    BigPower();
    assert Remainder(500_000_000_000_000_000, Pow(10, 18)) * Pow(10, 18) >= TWO64;
    hide Pow, FixedPointText, ReadFixed, Remainder;
    DecimalScaleInvertible(500_000_000_000_000_000, 18);
  }

  lemma BigPower()
    ensures Pow(10, 18) == 1_000_000_000_000_000_000
  {
    assert Pow(10, 6) == 1_000_000;
    assert Pow(10, 12) == 1_000_000_000_000;
  }

  /** A minus sign is written exactly when the number written is below zero. */
  lemma NoNegativeZero(raw: int, scale: u64, decimals: nat)
    requires scale > 0
    ensures var text := FixedPointText(raw, scale, decimals);
            && text != "" && ReadFixed(text).Some?
            && (text[0] == '-' <==> ReadFixed(text).value.mantissa < 0)
  {
    hide Whole, FracPart, FixedText, ReadFixed, Pow;
    var whole, frac := Whole(raw, scale), FracPart(raw, scale, decimals);
    FracBelow(raw, scale, decimals);
    var negative := raw < 0 && (whole > 0 || frac > 0);
    FixedReadsBack(negative, whole, frac, decimals, false);
    SignShows(negative, whole, frac, decimals);
    if whole > 0 {
      MulMonotone(1, whole, Pow(10, decimals));
    }
  }

  lemma SignShows(negative: bool, whole: nat, frac: nat, k: nat)
    ensures FixedText(negative, whole, frac, k, false) != ""
    ensures FixedText(negative, whole, frac, k, false)[0] == '-' <==> negative
  {
    TextIsDigits(whole, 10, false);
    hide Text, Padded;
    var t := Text(whole, 10);
    assert IsDigit(t[0], 10);
  }
}
