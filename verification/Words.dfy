/** Machine integers as ranges of the unbounded ones. */
module Words {
  import opened Digits

  const TWO16: int := 0x1_0000
  const TWO31: int := 0x8000_0000
  const TWO32: int := 0x1_0000_0000
  const TWO63: int := 0x8000_0000_0000_0000
  const TWO64: int := 0x1_0000_0000_0000_0000

  type u8 = x: int | 0 <= x < 0x100
  type u16 = x: int | 0 <= x < TWO16
  type u32 = x: int | 0 <= x < TWO32
  type u64 = x: int | 0 <= x < TWO64
  type i32 = x: int | -TWO31 <= x < TWO31
  type i64 = x: int | -TWO63 <= x < TWO63

  /** Division truncating toward zero, as the C++ operator does it. */
  function CDiv(a: int, b: int): (q: int)
    requires b != 0
  {
    if a >= 0 then a / b else -((-a) / b)
  }

  /** Remainder with the sign of the dividend. */
  function CMod(a: int, b: int): (r: int)
    requires b != 0
  {
    a - CDiv(a, b) * b
  }

  /** static_cast to a 64-bit unsigned type. */
  function ToU64(a: int): (r: u64)
  {
    a % TWO64
  }

  /** static_cast to a 64-bit signed type. */
  function ToI64(a: int): (r: i64)
  {
    var m := a % TWO64;
    if m < TWO63 then m else m - TWO64
  }

  /** static_cast to a 32-bit unsigned type. */
  function ToU32(a: int): (r: u32)
  {
    a % TWO32
  }

  /** static_cast to a 32-bit signed type. */
  function ToI32(a: int): (r: i32)
  {
    var m := a % TWO32;
    if m < TWO31 then m else m - TWO32
  }

  /** What truncation toward zero means: the product does not pass the dividend, what is left is
      smaller than the divisor, and it has the sign of the dividend. */
  lemma Truncates(a: int, b: int)
    requires b != 0
    ensures var q := CDiv(a, b);
            && (a >= 0 ==> 0 <= q * b <= a && a - q * b < (if b > 0 then b else 0 - b))
            && (a <= 0 ==> a <= q * b <= 0 && q * b - a < (if b > 0 then b else 0 - b))
  {
    var n, d: nat := if a >= 0 then a else 0 - a, if b > 0 then b else 0 - b;
    DivFacts(n, d);
    MulMonotone(0, n / d, d);
    SignedDivision(n, d);
    var m := n / d * d;
    assert CDiv(a, b) * b == (if a >= 0 then m else 0 - m) by {
      Signs(n / d, d);
    }
  }

  lemma SignedDivision(n: nat, d: nat)
    requires d >= 1
    ensures n / (0 - d) == 0 - n / d
  {
    DivFacts(n, d);
    var q := n / d;
    assert (0 - q) * (0 - d) == q * d;
  }

  lemma Signs(q: int, d: int)
    ensures (0 - q) * d == 0 - q * d && q * (0 - d) == 0 - q * d && (0 - q) * (0 - d) == q * d
  {
  }

  /** A cast keeps what fits; one more than the largest is the smallest. */
  lemma CastKeeps(a: int)
    requires -TWO63 <= a <= TWO63
    ensures ToI64(a) == if a == TWO63 then -TWO63 else a
  {
  }

  /** A cast keeps the number modulo the size of the type. */
  lemma CastsWrap(a: int)
    ensures ToU64(a) == a - a / TWO64 * TWO64 && ToU32(a) == a - a / TWO32 * TWO32
    ensures ToI64(a) == ToU64(a) || ToI64(a) == ToU64(a) - TWO64
    ensures ToI32(a) == ToU32(a) || ToI32(a) == ToU32(a) - TWO32
  {
  }
}
