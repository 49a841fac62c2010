/** Positional numerals: the digit-by-digit definition that every integer printer
    of the library is measured against, and the reader that inverts it. */
module Digits {
  /** Digit d of the hexadecimal tables; the first ten are also the decimal digits. */
  function DigitChar(d: nat, upper: bool): (c: char)
    requires d < 16
  {
    if d < 10 then ('0' as int + d) as char
    else if upper then ('A' as int + d - 10) as char
    else ('a' as int + d - 10) as char
  }

  /** The value of a digit character in either case; 99 for any other character. */
  function DigitValue(c: char): (d: nat)
  {
    if '0' <= c <= '9' then c as int - '0' as int
    else if 'a' <= c <= 'f' then c as int - 'a' as int + 10
    else if 'A' <= c <= 'F' then c as int - 'A' as int + 10
    else 99
  }

  predicate IsDigit(c: char, b: nat)
  {
    DigitValue(c) < b
  }

  predicate AllDigits(s: string, b: nat)
  {
    forall i :: 0 <= i < |s| ==> IsDigit(s[i], b)
  }

  lemma DigitInverse(d: nat, upper: bool)
    requires d < 16
    ensures DigitValue(DigitChar(d, upper)) == d
  {
  }

  /** Most significant digit first, no excess leading zero, "0" for zero. */
  function Text(n: nat, b: nat, upper: bool := false): (s: string)
    requires 2 <= b <= 16
    ensures |s| >= 1
    decreases n
  {
    if n < b then [DigitChar(n, upper)]
    else
      DivSmaller(n, b);
      Text(n / b, b, upper) + [DigitChar(n % b, upper)]
  }

  /** Horner evaluation of a digit string. */
  function Read(s: string, b: nat): (n: nat)
  {
    if s == "" then 0 else Read(s[..|s| - 1], b) * b + DigitValue(s[|s| - 1])
  }

  function Pow(b: nat, k: nat): (p: nat)
    ensures b > 0 ==> p > 0
  {
    if k == 0 then 1 else b * Pow(b, k - 1)
  }

  function Repeated<T>(c: T, k: nat): (s: seq<T>)
    ensures |s| == k && forall i :: 0 <= i < k ==> s[i] == c
  {
    seq(k, _ => c)
  }

  function Zeros(k: nat): (s: string)
  {
    Repeated('0', k)
  }

  /** Text left-padded with zeros to at least w characters. */
  function Padded(n: nat, b: nat, w: int, upper: bool := false): (s: string)
    requires 2 <= b <= 16
  {
    var t := Text(n, b, upper);
    Zeros(if w > |t| then w - |t| else 0) + t
  }

  // --- Arithmetic --------------------------------------------------------------------------

  lemma DivFacts(n: int, b: nat)
    requires b >= 1
    ensures n == n / b * b + n % b && 0 <= n % b < b && (n >= 0 ==> n / b >= 0)
  {
  }

  lemma DivSmaller(n: nat, b: nat)
    requires 2 <= b <= n
    ensures 0 < n / b < n
  {
    DivFacts(n, b);
    MulMonotone(2, b, n / b);
  }

  lemma MulMonotone(x: int, y: int, b: nat)
    requires x <= y
    ensures x * b <= y * b
  {
  }

  lemma MulRearrange(x: nat, p: nat, r: nat, b: nat)
    ensures (x * p + r) * b == x * (b * p) + r * b
  {
    calc {
      (x * p + r) * b;
      (x * p) * b + r * b;
      { assert (x * p) * b == x * (p * b); }
      x * (p * b) + r * b;
    }
  }

  /** One more digit d below the base keeps a number below one more power. */
  lemma HornerBound(x: int, p: int, b: nat, d: nat)
    requires x < p && d < b
    ensures x * b + d < b * p
  {
    MulMonotone(x + 1, p, b);
    assert (x + 1) * b == x * b + b;
  }

  lemma QuotientUnique(n: int, d: nat, q: int, r: nat)
    requires d >= 1 && r < d && n == q * d + r
    ensures n / d == q && n % d == r
  {
    DivFacts(n, d);
    var q', r' := n / d, n % d;
    if q' < q {
      HornerBound(q', q, d, r');
    }
    if q < q' {
      HornerBound(q, q', d, r);
    }
  }

  lemma DivBelow(n: nat, b: nat, p: nat)
    requires b >= 1
    ensures n / b < p <==> n < b * p
  {
    DivFacts(n, b);
    var q := n / b;
    if q < p {
      HornerBound(q, p, b, n % b);
    } else {
      MulMonotone(p, q, b);
    }
  }

  lemma DivDiv(n: nat, b: nat, p: nat)
    requires b >= 1 && p >= 1
    ensures b * p >= 1 && n / b / p == n / (b * p)
  {
    var q, c := n / b, n % b;
    DivFacts(n, b);
    DivFacts(q, p);
    var q2, a := q / p, q % p;
    MulRearrange(q2, p, a, b);
    HornerBound(a, p, b, c);
    QuotientUnique(n, b * p, q2, a * b + c);
  }

  lemma TextStep(n: nat, b: nat, upper: bool)
    requires 2 <= b <= 16
    ensures n >= b ==> Text(n, b, upper) == Text(n / b, b, upper) + [DigitChar(n % b, upper)]
    ensures n < b ==> Text(n, b, upper) == [DigitChar(n, upper)]
  {
  }

  lemma {:induction false} TextIsDigits(n: nat, b: nat, upper: bool)
    requires 2 <= b <= 16
    ensures AllDigits(Text(n, b, upper), b)
    decreases n
  {
    if n < b {
      DigitInverse(n, upper);
    } else {
      DivSmaller(n, b);
      TextIsDigits(n / b, b, upper);
      DigitInverse(n % b, upper);
    }
  }

  /** Digits above nine are letters of the case asked for. */
  predicate Cased(c: char, b: nat, upper: bool)
  {
    '0' <= c <= '9' || (b > 10 && if upper then 'A' <= c <= 'F' else 'a' <= c <= 'f')
  }

  lemma {:induction false} TextCase(n: nat, b: nat, upper: bool)
    requires 2 <= b <= 16
    ensures forall i :: 0 <= i < |Text(n, b, upper)| ==> Cased(Text(n, b, upper)[i], b, upper)
    decreases n
  {
    TextStep(n, b, upper);
    if n >= b {
      DivSmaller(n, b);
      TextCase(n / b, b, upper);
    }
  }

  /** Reading a printed number gives the number. */
  lemma {:induction false} ReadText(n: nat, b: nat, upper: bool)
    requires 2 <= b <= 16
    ensures Read(Text(n, b, upper), b) == n
    decreases n
  {
    var t := Text(n, b, upper);
    if n < b {
      DigitInverse(n, upper);
      assert t[..0] == "";
    } else {
      DivSmaller(n, b);
      DivFacts(n, b);
      ReadText(n / b, b, upper);
      DigitInverse(n % b, upper);
      assert t[..|t| - 1] == Text(n / b, b, upper);
    }
  }

  /** No excess leading zero. */
  lemma {:induction false} NoLeadingZero(n: nat, b: nat, upper: bool)
    requires 2 <= b <= 16
    ensures Text(n, b, upper)[0] == '0' <==> n == 0
    decreases n
  {
    if n < b {
      DigitInverse(n, upper);
      DigitInverse(0, upper);
    } else {
      DivSmaller(n, b);
      NoLeadingZero(n / b, b, upper);
    }
  }

  /** A string of k digits names a number below b^k. */
  lemma {:induction false} ReadBound(s: string, b: nat)
    requires 2 <= b && AllDigits(s, b)
    ensures Read(s, b) < Pow(b, |s|)
  {
    if s != "" {
      var h := s[..|s| - 1];
      ReadBound(h, b);
      assert IsDigit(s[|s| - 1], b);
      HornerBound(Read(h, b), Pow(b, |h|), b, DigitValue(s[|s| - 1]));
    }
  }

  /** Reading a concatenation shifts the front by the length of the back. */
  lemma {:induction false} ReadConcat(s: string, t: string, b: nat)
    ensures Read(s + t, b) == Read(s, b) * Pow(b, |t|) + Read(t, b)
  {
    if t == "" {
      assert s + t == s;
    } else {
      var h := t[..|t| - 1];
      ReadConcat(s, h, b);
      assert (s + t)[..|s + t| - 1] == s + h;
      MulRearrange(Read(s, b), Pow(b, |h|), Read(h, b), b);
    }
  }

  lemma {:induction false} ReadZeros(k: nat, b: nat)
    ensures Read(Zeros(k), b) == 0
  {
    if k > 0 {
      ReadZeros(k - 1, b);
      assert Zeros(k)[..k - 1] == Zeros(k - 1);
    }
  }

  /** Leading zeros do not change the number read. */
  lemma ReadZeroPadded(k: nat, t: string, b: nat)
    ensures Read(Zeros(k) + t, b) == Read(t, b)
  {
    ReadConcat(Zeros(k), t, b);
    ReadZeros(k, b);
  }

  lemma ReadPadded(n: nat, b: nat, w: int, upper: bool)
    requires 2 <= b <= 16
    ensures Read(Padded(n, b, w, upper), b) == n
    ensures AllDigits(Padded(n, b, w, upper), b)
  {
    hide Text, Read;
    var t := Text(n, b, upper);
    var k := if w > |t| then w - |t| else 0;
    ReadZeroPadded(k, t, b);
    ReadText(n, b, upper);
    TextIsDigits(n, b, upper);
    assert AllDigits(Zeros(k), b);
  }

  /** A number needs at most k digits exactly when it is below b^k. */
  lemma {:induction false} TextLength(n: nat, b: nat, upper: bool, k: nat)
    requires 2 <= b <= 16 && k >= 1
    ensures |Text(n, b, upper)| <= k <==> n < Pow(b, k)
    decreases k
  {
    if k == 1 {
      assert Pow(b, 1) == b * Pow(b, 0);
      if n >= b { DivSmaller(n, b); }
    } else {
      var p := Pow(b, k - 1);
      if n < b {
        assert b * p >= b;
      } else {
        DivSmaller(n, b);
        TextLength(n / b, b, upper, k - 1);
        DivBelow(n, b, p);
      }
    }
  }

  lemma {:induction false} PowerMonotone(i: nat, j: nat)
    requires i <= j
    ensures Pow(10, i) <= Pow(10, j)
  {
    if i < j { PowerMonotone(i, j - 1); }
  }

  /** Each character of a numeral is the digit of its own place. */
  lemma {:induction false} DigitAt(n: nat, b: nat, upper: bool, j: nat)
    requires 2 <= b <= 16 && j < |Text(n, b, upper)|
    ensures Text(n, b, upper)[j] == DigitChar(n / Pow(b, |Text(n, b, upper)| - 1 - j) % b, upper)
    decreases n
  {
    TextStep(n, b, upper);
    var k := |Text(n, b, upper)| - 1 - j;
    if k == 0 {
      if n < b { QuotientUnique(n, b, 0, n); }
    } else {
      DivSmaller(n, b);
      DigitAt(n / b, b, upper, j);
      DivDiv(n, b, Pow(b, k - 1));
    }
  }

  /** Length of the longest prefix of decimal digits. */
  function DigitRun(s: string): (k: nat)
    ensures k <= |s| && (k < |s| ==> !IsDigit(s[k], 10))
  {
    if s == "" || !IsDigit(s[0], 10) then 0 else 1 + DigitRun(s[1..])
  }

  lemma {:induction false} DigitRunExact(d: string, t: string)
    requires AllDigits(d, 10) && (t == "" || !IsDigit(t[0], 10))
    ensures DigitRun(d + t) == |d|
  {
    if d == "" {
      assert d + t == t;
    } else {
      assert IsDigit(d[0], 10);
      assert (d + t)[1..] == d[1..] + t;
      DigitRunExact(d[1..], t);
    }
  }
}
