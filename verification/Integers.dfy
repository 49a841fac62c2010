/** The integer printers: staged decimal and hexadecimal, bit-by-bit binary, and the backward
    printers behind the `{}` integer formatter. */
module Integers {
  import opened Digits
  import opened Words
  import opened Output

  datatype Radix = Binary | Decimal | Hex

  function BaseOf(r: Radix): (b: nat)
    ensures 2 <= b <= 16
  {
    match r case Binary => 2 case Decimal => 10 case Hex => 16
  }

  /** Sign, then zeros up to the width, then the digits. */
  function Assembled(digits: string, negative: bool, w: int): (s: string)
  {
    var content := |digits| + if negative then 1 else 0;
    (if negative then "-" else "") + Zeros(if w > content then w - content else 0) + digits
  }

  function SignedText(n: nat, negative: bool, b: nat, w: int, upper: bool := false): (s: string)
    requires 2 <= b <= 16
  {
    Assembled(Text(n, b, upper), negative, w)
  }

  /** Reads an optional minus sign and digits. */
  function ReadSigned(s: string, b: nat): (v: int)
  {
    if s != "" && s[0] == '-' then 0 - Read(s[1..], b) else Read(s, b)
  }

  /** A printed number reads back, and is as wide as asked unless its own digits need more. */
  lemma SignedTextMeaning(n: nat, negative: bool, b: nat, w: int, upper: bool)
    requires 2 <= b <= 16
    ensures ReadSigned(SignedText(n, negative, b, w, upper), b) == if negative then 0 - n else n
    ensures var content := |Text(n, b, upper)| + (if negative then 1 else 0);
            |SignedText(n, negative, b, w, upper)| == if w > content then w else content
  {
    hide Text, Read;
    var t := SignedText(n, negative, b, w, upper);
    var p := Padded(n, b, if negative then w - 1 else w, upper);
    ReadPadded(n, b, if negative then w - 1 else w, upper);
    assert t == if negative then ['-'] + p else p;
    assert IsDigit(p[0], b);
  }

  // --- Digits of 64-bit values -------------------------------------------------------------

  lemma PowerFacts()
    ensures Pow(10, 19) < TWO64 <= Pow(10, 20)
    ensures Pow(16, 16) == TWO64 == Pow(2, 64)
  {
    TenPowers();
    SixteenPowers();
    TwoPowers();
    hide Pow;
  }

  lemma TenPowers()
    ensures Pow(10, 19) < TWO64 <= Pow(10, 20)
  {
    assert Pow(10, 5) == 100_000;
    assert Pow(10, 10) == 10_000_000_000;
    assert Pow(10, 15) == 1_000_000_000_000_000;
  }

  lemma SixteenPowers()
    ensures Pow(16, 16) == TWO64
  {
    assert Pow(16, 4) == 0x1_0000;
    assert Pow(16, 8) == 0x1_0000_0000;
    assert Pow(16, 12) == 0x1_0000_0000_0000;
  }

  lemma TwoPowers()
    ensures Pow(2, 64) == TWO64
  {
    TwoPowersLow();
    assert Pow(2, 40) == 0x100_0000_0000;
    assert Pow(2, 48) == 0x1_0000_0000_0000;
    assert Pow(2, 56) == 0x100_0000_0000_0000;
  }

  lemma TwoPowersLow()
    ensures Pow(2, 32) == 0x1_0000_0000
  {
    assert Pow(2, 8) == 256;
    assert Pow(2, 16) == 0x1_0000;
    assert Pow(2, 24) == 0x100_0000;
  }

  lemma LengthBounds(n: u64, upper: bool)
    ensures |Text(n, 10, upper)| <= 20
    ensures |Text(n, 16, upper)| <= 16
    ensures |Text(n, 2, upper)| <= 64
  {
    PowerFacts();
    TextLength(n, 10, upper, 20);
    TextLength(n, 16, upper, 16);
    TextLength(n, 2, upper, 64);
  }

  /** Entry 2r and 2r+1 of the two-digit lookup table. */
  function Lut(i: nat): (c: char)
    requires i < 200
  {
    var r := i / 2;
    if i % 2 == 0 then ('0' as int + r / 10) as char else ('0' as int + r % 10) as char
  }

  /** Writes one character in front of a stretch of the buffer. */
  method PutDigit(buf: array<char>, ptr: nat, end: nat, c: char)
    requires ptr + 1 <= end <= buf.Length
    modifies buf
    ensures buf[ptr..end] == [c] + old(buf[ptr + 1..end])
    ensures buf[..ptr] == old(buf[..ptr]) && buf[end..] == old(buf[end..])
  {
    buf[ptr] := c;
  }

  /** Writes the two characters of a table entry in front of a stretch of the buffer. */
  method PutPair(buf: array<char>, ptr: nat, end: nat, rem: nat)
    requires ptr + 2 <= end <= buf.Length && rem < 100
    modifies buf
    ensures buf[ptr..end] == [Lut(2 * rem), Lut(2 * rem + 1)] + old(buf[ptr + 2..end])
    ensures buf[..ptr] == old(buf[..ptr]) && buf[end..] == old(buf[end..])
  {
    hide Lut;
    buf[ptr] := Lut(2 * rem);
    buf[ptr + 1] := Lut(2 * rem + 1);
  }

  lemma LutDigits(r: nat, upper: bool)
    requires r < 100
    ensures Lut(2 * r) == DigitChar(r / 10, upper)
    ensures Lut(2 * r + 1) == DigitChar(r % 10, upper)
  {
    DigitInverse(r / 10, upper);
    DigitInverse(r % 10, upper);
  }

  lemma SplitHundred(n: nat)
    ensures n / 10 / 10 == n / 100
    ensures n % 100 / 10 == n / 10 % 10
    ensures n % 100 % 10 == n % 10
  {
  }

  lemma TwoDigits(n: nat, upper: bool)
    requires n >= 10
    ensures n >= 100 ==>
              Text(n, 10, upper) == Text(n / 100, 10, upper) + [Lut(2 * (n % 100)), Lut(2 * (n % 100) + 1)]
    ensures n < 100 ==> Text(n, 10, upper) == [Lut(2 * n), Lut(2 * n + 1)]
  {
    hide Text, Lut;
    TextStep(n, 10, upper);
    TextStep(n / 10, 10, upper);
    SplitHundred(n);
    LutDigits(n % 100, upper);
    hide DigitChar;
    if n >= 100 {
      var head, a, b := Text(n / 100, 10, upper), DigitChar(n / 10 % 10, upper), DigitChar(n % 10, upper);
      assert head + [a] + [b] == head + [a, b];
    }
  }

  // --- The staged printer ------------------------------------------------------------------

  /** Fills the decimal staging buffer from its end, two digits at a time. */
  method StageDecimal(buf: array<char>, value: u64) returns (idx: nat)
    requires buf.Length == 21
    modifies buf
    ensures 1 <= idx <= 21 && buf[idx..21] == Text(value, 10)
  {
    hide Text, Lut;
    var val := value;
    LengthBounds(value, false);
    idx := 21;
    while val >= 100
      invariant 0 <= val < TWO64 && 0 <= idx <= 21
      invariant Text(value, 10) == Text(val, 10) + buf[idx..21]
    {
      TwoDigits(val, false);
      var rem := val % 100;
      val := val / 100;
      idx := idx - 2;
      PutPair(buf, idx, 21, rem);
    }
    if val < 10 {
      TextStep(val, 10, false);
      idx := idx - 1;
      PutDigit(buf, idx, 21, ('0' as int + val) as char);
    } else {
      TwoDigits(val, false);
      idx := idx - 2;
      PutPair(buf, idx, 21, val);
    }
  }

  /** Fills the hexadecimal staging buffer from its end, one nibble at a time. */
  method StageHex(buf: array<char>, value: u64, uppercase: bool) returns (idx: nat)
    requires buf.Length == 16 && value > 0
    modifies buf
    ensures idx <= 16 && buf[idx..16] == Text(value, 16, uppercase)
  {
    hide Text;
    var val := value;
    ghost var whole := Text(value, 16, uppercase);
    LengthBounds(value, uppercase);
    idx := 16;
    while val > 0
      invariant 0 <= val < TWO64 && 0 <= idx <= 16
      invariant val > 0 ==> whole == Text(val, 16, uppercase) + buf[idx..16]
      invariant val == 0 ==> whole == buf[idx..16]
    {
      TextStep(val, 16, uppercase);
      idx := idx - 1;
      PutDigit(buf, idx, 16, DigitChar(val % 16, uppercase));
      val := val / 16;
    }
  }

  /** The staging step for either radix, with zero handled apart. */
  method Stage(radix: Radix, value: u64, uppercase: bool) returns (buf: array<char>, idx: nat)
    requires radix != Binary
    ensures fresh(buf) && idx <= buf.Length
    ensures radix == Hex ==> buf[idx..] == Text(value, 16, uppercase)
    ensures radix == Decimal ==> 1 <= idx && buf[idx..] == Text(value, 10)
  {
    buf := new char[if radix == Hex then 16 else 21];
    if value == 0 {
      idx := buf.Length - 1;
      buf[idx] := '0';
    } else if radix == Hex {
      idx := StageHex(buf, value, uppercase);
    } else {
      idx := StageDecimal(buf, value);
    }
  }

  /** Writes staged digits: the sign goes into the buffer when there is no padding to put between. */
  method WriteStaged(out: Sink<char>, buf: array<char>, start: nat, isNegative: bool, minWidth: int)
    requires start <= buf.Length && (isNegative ==> start >= 1)
    modifies out, buf
    ensures out.text == old(out.text) + Assembled(old(buf[start..]), isNegative, minWidth)
  {
    var idx := start;
    ghost var digits := buf[start..];
    if isNegative && minWidth <= 0 {
      idx := idx - 1;
      buf[idx] := '-';
      assert buf[idx..] == ['-'] + digits;
    }
    var digitsLen := buf.Length - idx;
    if minWidth > 0 {
      var totalNeeded := digitsLen + if isNegative then 1 else 0;
      if isNegative {
        out.Put('-');
      }
      if minWidth > totalNeeded {
        PutRepeated(out, '0', minWidth - totalNeeded);
      }
    }
    out.Write(buf[idx..]);
  }

  method FormatIntegerCore(out: Sink<char>, radix: Radix, value: u64, isNegative: bool, uppercase: bool, minWidth: int)
    requires radix != Binary && (radix == Hex ==> !isNegative)
    modifies out
    ensures out.text == old(out.text) + if radix == Hex then SignedText(value, false, 16, minWidth, uppercase)
                                        else SignedText(value, isNegative, 10, minWidth)
  {
    var buf, idx := Stage(radix, value, uppercase);
    WriteStaged(out, buf, idx, isNegative, minWidth);
  }

  method PutRepeated(out: Sink<char>, c: char, count: nat)
    modifies out
    ensures out.text == old(out.text) + Repeated(c, count)
  {
    for i := 0 to count
      invariant out.text == old(out.text) + Repeated(c, i)
    {
      out.Put(c);
    }
  }

  // --- Binary, most significant bit first --------------------------------------------------

  /** Number of significant bits, at least one. */
  method BitLength(value: u64) returns (bits: nat)
    ensures bits == |Text(value, 2)|
  {
    hide Text;
    TextStep(value, 2, false);
    bits := 1;
    var v := value / 2;
    while v != 0
      invariant 0 <= v && |Text(value, 2)| == bits + if v == 0 then 0 else |Text(v, 2)|
    {
      TextStep(v, 2, false);
      bits := bits + 1;
      v := v / 2;
    }
  }

  method FormatBinary(out: Sink<char>, value: u64, minWidth: int)
    modifies out
    ensures out.text == old(out.text) + SignedText(value, false, 2, minWidth)
  {
    hide Text;
    var bits := BitLength(value);
    PutRepeated(out, '0', if minWidth > bits then minWidth - bits else 0);
    ghost var lead, whole := out.text, Text(value, 2);
    var i: int := bits - 1;
    while i >= 0
      invariant -1 <= i < bits
      invariant out.text == lead + whole[..bits - 1 - i]
    {
      DigitAt(value, 2, false, bits - 1 - i);
      out.Put(('0' as int + value / Pow(2, i) % 2) as char);
      i := i - 1;
    }
  }

  lemma UnsignedText(n: nat, b: nat, w: int, upper: bool)
    requires 2 <= b <= 16
    ensures SignedText(n, false, b, w, upper) == Padded(n, b, w, upper)
    ensures w <= 1 ==> Padded(n, b, w, upper) == Text(n, b, upper)
  {
    hide Text;
  }

  /** Every unsigned value in any radix and width: the digits, zero-padded. */
  method FormatUnsigned(out: Sink<char>, radix: Radix, value: u64, uppercase: bool, minWidth: int)
    modifies out
    ensures out.text == old(out.text) + Padded(value, BaseOf(radix), minWidth, uppercase && radix == Hex)
  {
    hide Padded, SignedText;
    if radix == Binary {
      FormatBinary(out, value, minWidth);
    } else {
      FormatIntegerCore(out, radix, value, false, uppercase, minWidth);
    }
    UnsignedText(value, BaseOf(radix), minWidth, uppercase && radix == Hex);
  }

  /** Decimal without a width. */
  method WriteDecimal(out: Sink<char>, value: u64)
    modifies out
    ensures out.text == old(out.text) + Text(value, 10)
  {
    hide Text, Padded;
    FormatUnsigned(out, Decimal, value, false, 0);
    UnsignedText(value, 10, 0, false);
  }

  function Magnitude(v: int): (m: nat)
  {
    if v < 0 then -v else v
  }

  /** Negating in unsigned arithmetic gives the magnitude, of the minimum too. */
  lemma UnsignedNegation(v: int)
    requires -TWO63 <= v < 0
    ensures ToU64(0 - ToU64(v) as int) == Magnitude(v)
  {
  }

  /** Magnitude of a signed value without ever negating the minimum. */
  method FormatSigned(out: Sink<char>, value: i64, minWidth: int)
    modifies out
    ensures out.text == old(out.text) + SignedText(Magnitude(value), value < 0, 10, minWidth)
  {
    if value < 0 {
      var low: i64 := -(value + 1);
      var mag: u64 := low + 1;
      FormatIntegerCore(out, Decimal, mag, true, false, minWidth);
    } else {
      FormatIntegerCore(out, Decimal, value, false, false, minWidth);
    }
  }

  // --- Backward printers into a caller's buffer -----------------------------------------------

  method FormatDecBackward(buf: array<char>, end: nat, value: u64) returns (ptr: nat)
    requires |Text(value, 10)| <= end <= buf.Length
    modifies buf
    ensures ptr <= end && buf[ptr..end] == Text(value, 10)
    ensures buf[..ptr] == old(buf[..ptr]) && buf[end..] == old(buf[end..])
  {
    hide Text, Lut;
    var val := value;
    ptr := end;
    while val >= 100
      invariant 0 <= val < TWO64 && 0 <= ptr <= end
      invariant Text(value, 10) == Text(val, 10) + buf[ptr..end]
      invariant buf[..ptr] == old(buf[..ptr]) && buf[end..] == old(buf[end..])
    {
      TwoDigits(val, false);
      var rem := val % 100;
      val := val / 100;
      ptr := ptr - 2;
      PutPair(buf, ptr, end, rem);
    }
    if val < 10 {
      TextStep(val, 10, false);
      ptr := ptr - 1;
      PutDigit(buf, ptr, end, ('0' as int + val) as char);
    } else {
      TwoDigits(val, false);
      ptr := ptr - 2;
      PutPair(buf, ptr, end, val);
    }
  }

  method FormatHexBackward(buf: array<char>, end: nat, value: u64, uppercase: bool) returns (ptr: nat)
    requires |Text(value, 16, uppercase)| <= end <= buf.Length
    modifies buf
    ensures ptr <= end && buf[ptr..end] == Text(value, 16, uppercase)
    ensures buf[..ptr] == old(buf[..ptr]) && buf[end..] == old(buf[end..])
  {
    hide Text;
    var val := value;
    ghost var whole := Text(value, 16, uppercase);
    ptr := end;
    if val == 0 {
      TextStep(0, 16, uppercase);
      ptr := ptr - 1;
      PutDigit(buf, ptr, end, '0');
      return;
    }
    while val > 0
      invariant 0 <= val < TWO64 && 0 <= ptr <= end
      invariant val > 0 ==> whole == Text(val, 16, uppercase) + buf[ptr..end]
      invariant val == 0 ==> whole == buf[ptr..end]
      invariant buf[..ptr] == old(buf[..ptr]) && buf[end..] == old(buf[end..])
    {
      TextStep(val, 16, uppercase);
      ptr := ptr - 1;
      PutDigit(buf, ptr, end, DigitChar(val % 16, uppercase));
      val := val / 16;
    }
  }
}
