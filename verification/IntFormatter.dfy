/** The `{}` integer formatter: its format specification and its output. */
module IntFormatter {
  import opened Digits
  import opened Words
  import opened Output
  import opened Integers

  datatype IntSpec = IntSpec(width: u16, alt: bool, zeroPad: bool, hex: bool, upper: bool, bin: bool)
  {
    function Base(): (b: nat)
      ensures 2 <= b <= 16
    {
      if bin then 2 else if hex then 16 else 10
    }

    function Prefix(): (p: string)
    {
      if !alt then "" else if bin then "0b" else if hex then (if upper then "0X" else "0x") else ""
    }
  }

  // --- The format specification: flags in either order, width, type -----------------------

  /** Takes each of '#' and '0' at most once from the front. */
  function TakeFlags(s: string, alt: bool, zeroPad: bool): (r: (bool, bool, string))
  {
    if s != "" && s[0] == '#' && !alt then TakeFlags(s[1..], true, zeroPad)
    else if s != "" && s[0] == '0' && !zeroPad then TakeFlags(s[1..], alt, true)
    else (alt, zeroPad, s)
  }

  function Saturate(n: nat): (w: u16)
    ensures w == n || (w == 0xFFFF && n > 0xFFFF)
  {
    if n > 0xFFFF then 0xFFFF else n
  }

  /** The grammar: flags, then a width clamped to sixteen bits, then a type letter; the rest is ignored. */
  function ParsedSpec(s: string): (r: IntSpec)
  {
    var (alt, zeroPad, rest) := TakeFlags(s, false, false);
    var k := DigitRun(rest);
    var letter := if k < |rest| then rest[k] else ' ';
    IntSpec(Saturate(Read(rest[..k], 10)), alt, zeroPad, letter == 'x' || letter == 'X', letter == 'X', letter == 'b')
  }

  method ParseFlags(spec: string) returns (alt: bool, zeroPad: bool, i: nat)
    ensures i <= |spec| && TakeFlags(spec, false, false) == (alt, zeroPad, spec[i..])
  {
    alt, zeroPad, i := false, false, 0;
    while i < |spec| && ((spec[i] == '#' && !alt) || (spec[i] == '0' && !zeroPad))
      invariant i <= |spec|
      invariant TakeFlags(spec, false, false) == TakeFlags(spec[i..], alt, zeroPad)
    {
      if spec[i] == '#' {
        alt := true;
      } else {
        zeroPad := true;
      }
      assert spec[i..][1..] == spec[i + 1..];
      i := i + 1;
    }
  }

  lemma WidthStep(s: string, i: nat)
    requires i < |s| && IsDigit(s[i], 10)
    ensures Read(s[..i + 1], 10) == Read(s[..i], 10) * 10 + DigitValue(s[i])
    ensures DigitRun(s[i..]) == 1 + DigitRun(s[i + 1..])
  {
    assert s[..i + 1][..i] == s[..i];
    assert s[i..][1..] == s[i + 1..];
  }

  method ParseWidth(s: string) returns (width: nat, i: nat)
    ensures i == DigitRun(s) && width == Saturate(Read(s[..i], 10))
  {
    width, i := 0, 0;
    ghost var exact := 0;
    while i < |s| && '0' <= s[i] <= '9'
      invariant i <= |s| && exact == Read(s[..i], 10) && width == Saturate(exact)
      invariant DigitRun(s) == i + DigitRun(s[i..])
    {
      WidthStep(s, i);
      exact := exact * 10 + DigitValue(s[i]);
      var next := width * 10 + (s[i] as int - '0' as int);
      width := if next > 0xFFFF then 0xFFFF else next;
      i := i + 1;
    }
  }

  method ParseSpec(spec: string) returns (r: IntSpec)
    ensures r == ParsedSpec(spec)
  {
    var alt, zeroPad, start := ParseFlags(spec);
    var width, run := ParseWidth(spec[start..]);
    var i := start + run;
    var hex, upper, bin := false, false, false;
    if i < |spec| {
      if spec[i] == 'x' {
        hex := true;
      } else if spec[i] == 'X' {
        hex, upper := true, true;
      } else if spec[i] == 'b' {
        bin := true;
      }
    }
    r := IntSpec(width, alt, zeroPad, hex, upper, bin);
  }

  /** How a specification is written in a format string. */
  function SpecText(s: IntSpec): (t: string)
  {
    (if s.alt then "#" else "") + (if s.zeroPad then "0" else "") + WidthAndType(s)
  }

  function WidthAndType(s: IntSpec): (t: string)
  {
    (if s.width > 0 then Text(s.width, 10) else "")
    + if s.hex then (if s.upper then "X" else "x") else if s.bin then "b" else ""
  }

  lemma FlagsTaken(alt: bool, zeroPad: bool, tail: string)
    requires tail != "" ==> tail[0] != '#' && tail[0] != '0'
    ensures TakeFlags((if alt then "#" else "") + (if zeroPad then "0" else "") + tail, false, false)
         == (alt, zeroPad, tail)
  {
    var z := (if zeroPad then "0" else "") + tail;
    var whole := (if alt then "#" else "") + (if zeroPad then "0" else "") + tail;
    assert if zeroPad then z[1..] == tail else z == tail;
    assert TakeFlags(z, alt, false) == (alt, zeroPad, tail);
    assert if alt then whole[1..] == z else whole == z;
  }

  /** Every combination of flags, width and type can be asked for, and is understood as asked. */
  lemma SpecRoundTrip(s: IntSpec)
    requires !(s.hex && s.bin) && (s.upper ==> s.hex)
    ensures ParsedSpec(SpecText(s)) == s
  {
    hide Text, DigitRun, TakeFlags;
    var digits := if s.width > 0 then Text(s.width, 10) else "";
    var letter := if s.hex then (if s.upper then "X" else "x") else if s.bin then "b" else "";
    var tail := digits + letter;
    TextIsDigits(s.width, 10, false);
    ReadText(s.width, 10, false);
    NoLeadingZero(s.width, 10, false);
    DigitRunExact(digits, letter);
    FlagsTaken(s.alt, s.zeroPad, tail);
    assert tail[..|digits|] == digits;
  }

  // --- The output --------------------------------------------------------------------------

  function Emitted(digits: string, negative: bool, prefix: string, width: nat, zeroPad: bool): (s: string)
  {
    var sign := if negative then "-" else "";
    var content := |digits| + |prefix| + |sign|;
    var pad := if width > content then width - content else 0;
    if zeroPad then sign + prefix + Zeros(pad) + digits
    else Repeated(' ', pad) + sign + prefix + digits
  }

  method WriteSignPrefix(out: Sink<char>, isNegative: bool, prefix: string)
    modifies out
    ensures out.text == old(out.text) + (if isNegative then "-" else "") + prefix
  {
    if isNegative {
      out.Put('-');
    }
    if prefix != "" {
      out.Write(prefix);
    }
  }

  method EmitFormattedInt(out: Sink<char>, digits: string, isNegative: bool, prefix: string, width: u16, zeroPad: bool)
    modifies out
    ensures out.text == old(out.text) + Emitted(digits, isNegative, prefix, width, zeroPad)
  {
    hide Repeated;
    var totalContentLen := |digits| + |prefix| + if isNegative then 1 else 0;
    var padLen := if width > totalContentLen then width - totalContentLen else 0;
    ghost var text, sign := out.text, if isNegative then "-" else "";
    if zeroPad {
      WriteSignPrefix(out, isNegative, prefix);
      PutRepeated(out, '0', padLen);
      Regroup(text, sign, prefix, Repeated('0', padLen), digits);
    } else {
      PutRepeated(out, ' ', padLen);
      WriteSignPrefix(out, isNegative, prefix);
      Regroup(text, Repeated(' ', padLen), sign, prefix, digits);
    }
    out.Write(digits);
  }

  lemma Regroup(text: string, a: string, b: string, c: string, d: string)
    ensures text + a + b + c + d == text + (a + b + c + d)
  {
  }

  function FormattedInt(spec: IntSpec, v: int): (s: string)
  {
    Emitted(Text(Magnitude(v), spec.Base(), spec.upper), v < 0, spec.Prefix(), spec.width, spec.zeroPad)
  }

  /** One bit at a time from the end of the buffer, at least one. */
  method FormatBinBackward(buffer: array<char>, value: u64, ghost upper: bool) returns (start: nat)
    requires buffer.Length == 64
    modifies buffer
    ensures start <= 64 && buffer[start..64] == Text(value, 2, upper)
  {
    hide Text;
    LengthBounds(value, upper);
    ghost var whole := Text(value, 2, upper);
    TextStep(value, 2, upper);
    var uval := value;
    start := 63;
    PutDigit(buffer, start, 64, ('0' as int + uval % 2) as char);
    uval := uval / 2;
    while uval != 0
      invariant 0 <= uval < TWO64 && start <= 64
      invariant uval > 0 ==> whole == Text(uval, 2, upper) + buffer[start..64]
      invariant uval == 0 ==> whole == buffer[start..64]
    {
      TextStep(uval, 2, upper);
      start := start - 1;
      PutDigit(buffer, start, 64, ('0' as int + uval % 2) as char);
      uval := uval / 2;
    }
  }

  /** The digits of a 64-bit magnitude in the base the specification asks for. */
  method BackwardDigits(spec: IntSpec, value: u64) returns (digits: string)
    ensures digits == Text(value, spec.Base(), spec.upper)
  {
    hide Text;
    var buffer := new char[64];
    var start := 64;
    LengthBounds(value, spec.upper);
    if spec.bin {
      start := FormatBinBackward(buffer, value, spec.upper);
    } else if spec.hex {
      start := FormatHexBackward(buffer, 64, value, spec.upper);
    } else {
      DecimalCaseless(value, spec.upper);
      start := FormatDecBackward(buffer, 64, value);
    }
    digits := buffer[start..64];
  }

  lemma {:induction false} DecimalCaseless(n: nat, upper: bool)
    ensures Text(n, 10, upper) == Text(n, 10)
  {
    TextStep(n, 10, upper);
    TextStep(n, 10, false);
    if n >= 10 {
      DecimalCaseless(n / 10, upper);
    }
  }

  /** Any value of a signed or unsigned 64-bit type. */
  method FormatIntImpl(out: Sink<char>, spec: IntSpec, value: int)
    requires -TWO63 <= value < TWO64
    modifies out
    ensures out.text == old(out.text) + FormattedInt(spec, value)
  {
    hide Text, Emitted, IntSpec.Base, IntSpec.Prefix, ToU64;
    var isNegative := value < 0;
    var uval: u64 := 0;
    if isNegative {
      UnsignedNegation(value);
      uval := ToU64(0 - ToU64(value) as int);
    } else {
      uval := value;
    }
    var digits := BackwardDigits(spec, uval);
    EmitFormattedInt(out, digits, isNegative, spec.Prefix(), spec.width, spec.zeroPad);
  }

  function SkipSpaces(s: string): (t: string)
  {
    if s != "" && s[0] == ' ' then SkipSpaces(s[1..]) else s
  }

  /** Reads padding, sign, prefix and digits. */
  function ReadFormatted(s: string, prefix: string, b: nat): (v: int)
  {
    var t := SkipSpaces(s);
    var negative := t != "" && t[0] == '-';
    var u := if negative then t[1..] else t;
    var n := if |u| < |prefix| then 0 else Read(u[|prefix|..], b);
    if negative then 0 - n else n
  }

  lemma {:induction false} SkipsSpaces(k: nat, t: string)
    requires t == "" || t[0] != ' '
    ensures SkipSpaces(Repeated(' ', k) + t) == t
  {
    if k == 0 {
      assert Repeated(' ', 0) + t == t;
    } else {
      SkipsSpaces(k - 1, t);
      assert (Repeated(' ', k) + t)[1..] == Repeated(' ', k - 1) + t;
    }
  }

  lemma ReadsBody(pad: nat, negative: bool, prefix: string, tail: string, b: nat)
    requires prefix + tail != "" && (prefix + tail)[0] != ' ' && (prefix + tail)[0] != '-'
    ensures ReadFormatted(Repeated(' ', pad) + (if negative then "-" else "") + prefix + tail, prefix, b)
         == if negative then 0 - Read(tail, b) else Read(tail, b)
  {
    var u := prefix + tail;
    var body := if negative then ['-'] + u else u;
    assert Repeated(' ', pad) + (if negative then "-" else "") + prefix + tail == Repeated(' ', pad) + body;
    SkipsSpaces(pad, body);
    assert (if negative then body[1..] else body) == u;
    assert u[|prefix|..] == tail;
  }

  lemma EmittedShape(digits: string, negative: bool, prefix: string, width: nat, zeroPad: bool)
    returns (spaces: nat, zeros: nat)
    ensures Emitted(digits, negative, prefix, width, zeroPad)
         == Repeated(' ', spaces) + (if negative then "-" else "") + prefix + (Zeros(zeros) + digits)
    ensures var content := |digits| + |prefix| + if negative then 1 else 0;
            |Emitted(digits, negative, prefix, width, zeroPad)| == if width > content then width else content
  {
    var content := |digits| + |prefix| + if negative then 1 else 0;
    var pad := if width > content then width - content else 0;
    spaces, zeros := if zeroPad then 0 else pad, if zeroPad then pad else 0;
  }

  lemma EmittedReads(digits: string, negative: bool, prefix: string, width: nat, zeroPad: bool, b: nat)
    requires digits != "" && digits[0] != ' ' && digits[0] != '-'
    requires prefix != "" ==> prefix[0] == '0'
    ensures ReadFormatted(Emitted(digits, negative, prefix, width, zeroPad), prefix, b)
         == if negative then 0 - Read(digits, b) else Read(digits, b)
  {
    var spaces, zeros := EmittedShape(digits, negative, prefix, width, zeroPad);
    ReadsBody(spaces, negative, prefix, Zeros(zeros) + digits, b);
    ReadZeroPadded(zeros, digits, b);
  }

  /** Whatever the flags, base, width and sign, the printed integer reads back, and it is
      exactly as wide as asked unless sign, prefix and digits need more. */
  lemma FormattedIntReadsBack(spec: IntSpec, v: int)
    ensures ReadFormatted(FormattedInt(spec, v), spec.Prefix(), spec.Base()) == v
    ensures var content := |Text(Magnitude(v), spec.Base(), spec.upper)| + |spec.Prefix()| + if v < 0 then 1 else 0;
            |FormattedInt(spec, v)| == if spec.width > content then spec.width else content
  {
    var b, prefix := spec.Base(), spec.Prefix();
    var digits := Text(Magnitude(v), b, spec.upper);
    TextIsDigits(Magnitude(v), b, spec.upper);
    assert IsDigit(digits[0], b);
    EmittedReads(digits, v < 0, prefix, spec.width, spec.zeroPad, b);
    ReadText(Magnitude(v), b, spec.upper);
    var _, _ := EmittedShape(digits, v < 0, prefix, spec.width, spec.zeroPad);
  }

  /** The text, from the specification alone: sign, prefix and digits, padded on the left with spaces
      or, after sign and prefix, with zeros. The prefix tells the base when the alternate form is
      asked for, the digits read back to the magnitude in that base without an excess zero, and
      letters are of the case asked for. */
  lemma FormattedLayout(spec: IntSpec, v: int) returns (digits: string)
    ensures var head := (if v < 0 then "-" else "")
                        + (if !spec.alt then "" else if spec.bin then "0b"
                           else if !spec.hex then "" else if spec.upper then "0X" else "0x");
            LaidOut(FormattedInt(spec, v), head, digits, spec.width, spec.zeroPad)
            && LaidOut(FormattedInt(spec.(width := 0), v), head, digits, 0, spec.zeroPad)
    ensures Read(digits, if spec.bin then 2 else if spec.hex then 16 else 10) == if v < 0 then 0 - v else v
    ensures digits != "" && (digits[0] == '0' ==> v == 0 && digits == "0")
    ensures forall i :: 0 <= i < |digits| ==>
              '0' <= digits[i] <= '9'
              || (spec.hex && !spec.bin && if spec.upper then 'A' <= digits[i] <= 'F' else 'a' <= digits[i] <= 'f')
  {
    var b, n := spec.Base(), Magnitude(v);
    digits := Text(n, b, spec.upper);
    DigitsLayout(n, b, spec.upper);
    hide Text, Read, Emitted, LaidOut;
    EmittedLayout(digits, v < 0, spec.Prefix(), spec.width, spec.zeroPad);
    EmittedLayout(digits, v < 0, spec.Prefix(), 0, spec.zeroPad);
  }

  /** Zeros between head and digits, or spaces before both, up to the width. */
  ghost predicate LaidOut(text: string, head: string, digits: string, width: nat, zeroPad: bool)
  {
    var size := |head| + |digits|;
    var pad := if width > size then width - size else 0;
    if zeroPad then text == head + Repeated('0', pad) + digits
    else text == Repeated(' ', pad) + (head + digits)
  }

  lemma EmittedLayout(digits: string, negative: bool, prefix: string, width: nat, zeroPad: bool)
    ensures LaidOut(Emitted(digits, negative, prefix, width, zeroPad), (if negative then "-" else "") + prefix,
                    digits, width, zeroPad)
  {
    hide Repeated;
    var sign := if negative then "-" else "";
    var size := |sign + prefix| + |digits|;
    var pad := if width > size then width - size else 0;
    assert Repeated(' ', pad) + sign + prefix + digits == Repeated(' ', pad) + (sign + prefix + digits);
  }

  lemma DigitsLayout(n: nat, b: nat, upper: bool)
    requires 2 <= b <= 16
    ensures var t := Text(n, b, upper);
            && Read(t, b) == n && t != "" && (t[0] == '0' ==> n == 0 && t == "0")
            && forall i :: 0 <= i < |t| ==> Cased(t[i], b, upper)
  {
    ReadText(n, b, upper);
    NoLeadingZero(n, b, upper);
    TextStep(n, b, upper);
    TextCase(n, b, upper);
    hide Text, Read;
  }

  /** Flags, a width and a letter, as they are found in a format string. */
  predicate Flags(flags: string)
  {
    flags == "" || flags == "#" || flags == "0" || flags == "#0" || flags == "0#"
  }

  /** What each part of a specification asks for. The digits of the width follow the flags, so they
      do not begin with a zero unless the zero flag is there; anything may follow them. */
  lemma SpecMeaning(flags: string, digits: string, tail: string)
    requires Flags(flags) && AllDigits(digits, 10) && (tail == "" || !IsDigit(tail[0], 10))
    requires digits != "" && digits[0] == '0' ==> '0' in flags
    requires digits == "" && tail != "" && tail[0] == '#' ==> '#' in flags
    ensures var r := ParsedSpec(flags + digits + tail);
            && (r.alt <==> '#' in flags) && (r.zeroPad <==> '0' in flags)
            && r.width == (if Read(digits, 10) > 65535 then 65535 else Read(digits, 10))
            && (r.hex <==> tail != "" && (tail[0] == 'x' || tail[0] == 'X'))
            && (r.upper <==> tail != "" && tail[0] == 'X')
            && (r.bin <==> tail != "" && tail[0] == 'b')
  {
    hide TakeFlags, DigitRun, Read, Flags;
    var rest := digits + tail;
    assert flags + digits + tail == flags + rest;
    assert digits != "" ==> rest[0] == digits[0];
    assert digits == "" ==> rest == tail;
    assert rest[..|digits|] == digits && (tail != "" ==> rest[|digits|] == tail[0]);
    DigitRunExact(digits, tail);
    FlagsFound(flags, rest);
  }

  lemma FlagsFound(flags: string, rest: string)
    requires Flags(flags)
    requires rest != "" && rest[0] == '0' ==> '0' in flags
    requires rest != "" && rest[0] == '#' ==> '#' in flags
    ensures TakeFlags(flags + rest, false, false) == ('#' in flags, '0' in flags, rest)
  {
    hide TakeFlags;
    if flags == "" {
      TakeNone(rest, false, false);
      assert flags + rest == rest;
    } else if |flags| == 1 {
      TakeOne(flags[0], rest, false, false);
      assert flags + rest == [flags[0]] + rest;
      TakeNone(rest, flags[0] == '#', flags[0] == '0');
    } else {
      TakeOne(flags[0], [flags[1]] + rest, false, false);
      assert flags + rest == [flags[0]] + ([flags[1]] + rest);
      TakeOne(flags[1], rest, flags[0] == '#', flags[0] == '0');
      TakeNone(rest, true, true);
    }
  }

  lemma TakeNone(rest: string, alt: bool, zeroPad: bool)
    requires rest != "" ==> (rest[0] == '#' ==> alt) && (rest[0] == '0' ==> zeroPad)
    ensures TakeFlags(rest, alt, zeroPad) == (alt, zeroPad, rest)
  {
  }

  lemma TakeOne(c: char, rest: string, alt: bool, zeroPad: bool)
    requires (c == '#' && !alt) || (c == '0' && !zeroPad)
    ensures TakeFlags([c] + rest, alt, zeroPad) == TakeFlags(rest, alt || c == '#', zeroPad || c == '0')
  {
    assert ([c] + rest)[1..] == rest;
  }

  /** Zero-padded without prefix, the backward printers give the text of the staged ones. */
  lemma PrintersAgree(w: u16, hex: bool, upper: bool, bin: bool, v: int)
    ensures var spec := IntSpec(w, false, true, hex, upper, bin);
            FormattedInt(spec, v) == SignedText(Magnitude(v), v < 0, spec.Base(), w, upper)
  {
    hide Text, Zeros;
  }
}
