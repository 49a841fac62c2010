/** JSON strings: the escaping that the writers apply, and the reading of section 7 of RFC 8259.
    One character stands for one byte. */
module JsonStrings {
  import opened Options
  import opened Digits
  import opened Output

  // --- Escaping ----------------------------------------------------------------------------------

  function EscapedChar(c: char): (s: string)
  {
    if c == '"' then "\\\""
    else if c == '\\' then "\\\\"
    else if c == '\U{08}' then "\\b"
    else if c == '\U{0C}' then "\\f"
    else if c == '\n' then "\\n"
    else if c == '\r' then "\\r"
    else if c == '\t' then "\\t"
    else if c < ' ' then "\\u00" + [DigitChar(c as int / 16 % 16, true), DigitChar(c as int % 16, true)]
    else [c]
  }

  function Escaped(s: string): (t: string)
  {
    if s == "" then "" else EscapedChar(s[0]) + Escaped(s[1..])
  }

  function Quoted(s: string): (t: string)
  {
    "\"" + Escaped(s) + "\""
  }

  method WriteEscapedChar(out: Sink<char>, c: char)
    modifies out
    ensures out.text == old(out.text) + EscapedChar(c)
  {
    match c
    case '"' => out.Write("\\\"");
    case '\\' => out.Write("\\\\");
    case '\U{08}' => out.Write("\\b");
    case '\U{0C}' => out.Write("\\f");
    case '\n' => out.Write("\\n");
    case '\r' => out.Write("\\r");
    case '\t' => out.Write("\\t");
    case _ =>
      if c < ' ' {
        out.Write("\\u00");
        var b := c as int;
        out.Put(DigitChar(b / 16 % 16, true));
        out.Put(DigitChar(b % 16, true));
      } else {
        out.Put(c);
      }
  }

  method WriteEscapedString(out: Sink<char>, str: string)
    modifies out
    ensures out.text == old(out.text) + Quoted(str)
  {
    hide EscapedChar;
    out.Put('"');
    ghost var goal := out.text + Escaped(str);
    assert str[0..] == str;
    for i := 0 to |str|
      invariant out.text + Escaped(str[i..]) == goal
    {
      assert str[i..][1..] == str[i + 1..];
      WriteEscapedChar(out, str[i]);
    }
    assert str[|str|..] == "" && out.text == goal;
    out.Put('"');
  }

  // --- Reading -------------------------------------------------------------------------------------

  /** UTF-8 for a code point outside the surrogates, up to three bytes. */
  function Utf8(code: nat): (s: string)
    requires code < 0x1_0000
  {
    if code < 0x80 then [code as char]
    else if code < 0x800 then [(0xC0 + code / 0x40) as char, (0x80 + code % 0x40) as char]
    else [(0xE0 + code / 0x1000) as char, (0x80 + code / 0x40 % 0x40) as char, (0x80 + code % 0x40) as char]
  }

  /** What follows a backslash: the characters it stands for and the rest. */
  function ReadEscape(s: string): (r: Option<(string, string)>)
    ensures r.Some? ==> |r.value.1| < |s|
  {
    if s == "" then None
    else if s[0] == '"' || s[0] == '\\' || s[0] == '/' then Some(([s[0]], s[1..]))
    else if s[0] == 'b' then Some(("\U{08}", s[1..]))
    else if s[0] == 'f' then Some(("\U{0C}", s[1..]))
    else if s[0] == 'n' then Some(("\n", s[1..]))
    else if s[0] == 'r' then Some(("\r", s[1..]))
    else if s[0] == 't' then Some(("\t", s[1..]))
    else if s[0] == 'u' && |s| >= 5 && AllDigits(s[1..5], 16) then
      var code := Read(s[1..5], 16);
      if code >= 0x1_0000 || 0xD800 <= code < 0xE000 then None else Some((Utf8(code), s[5..]))
    else None
  }

  /** The characters up to the closing quote, and the rest; raw control characters are refused. */
  function ReadChars(s: string): (r: Option<(string, string)>)
    ensures r.Some? ==> |r.value.1| < |s|
    decreases |s|
  {
    if s == "" then None
    else if s[0] == '"' then Some(("", s[1..]))
    else if s[0] == '\\' then
      var (c, s1) :- ReadEscape(s[1..]);
      var (t, s2) :- ReadChars(s1);
      Some((c + t, s2))
    else if s[0] < ' ' then None
    else
      var (t, s1) :- ReadChars(s[1..]);
      Some(([s[0]] + t, s1))
  }

  function ReadString(s: string): (r: Option<(string, string)>)
    ensures r.Some? ==> |r.value.1| < |s|
  {
    if s == "" || s[0] != '"' then None else ReadChars(s[1..])
  }

  lemma UnicodeEscape(c: char, rest: string)
    requires c < ' '
    ensures ReadEscape("u00" + [DigitChar(c as int / 16 % 16, true), DigitChar(c as int % 16, true)] + rest)
         == Some(([c], rest))
  {
    var h, l := DigitChar(c as int / 16 % 16, true), DigitChar(c as int % 16, true);
    var s := "u00" + [h, l] + rest;
    var four := "00" + [h, l];
    FourDigits(c);
    hide Read, DigitChar;
    assert s[1..5] == four && s[5..] == rest;
    assert AllDigits(four, 16);
  }

  lemma FourDigits(c: char)
    requires c < ' '
    ensures var h, l := DigitChar(c as int / 16 % 16, true), DigitChar(c as int % 16, true);
            IsDigit(h, 16) && IsDigit(l, 16) && IsDigit('0', 16) && Read("00" + [h, l], 16) == c as int
  {
    var h, l := DigitChar(c as int / 16 % 16, true), DigitChar(c as int % 16, true);
    DigitInverse(c as int / 16 % 16, true);
    DigitInverse(c as int % 16, true);
    hide DigitChar;
    var four := "00" + [h, l];
    assert four[..3] == "00" + [h] && four[..3][..2] == "00" && "00"[..1] == "0" && "0"[..0] == "";
    assert Read("0", 16) == 0;
    assert Read("00", 16) == 0;
    assert Read("00" + [h], 16) == c as int / 16 % 16;
  }

  function Prefixed(c: char, r: Option<(string, string)>): (q: Option<(string, string)>)
  {
    match r
    case None => None
    case Some((t, rest)) => Some(([c] + t, rest))
  }

  lemma ReadSequence(c: char, e: string, rest: string)
    requires ReadEscape(e + rest) == Some(([c], rest))
    ensures ReadChars("\\" + e + rest) == Prefixed(c, ReadChars(rest))
  {
    hide ReadEscape;
    assert ("\\" + e + rest)[1..] == e + rest;
  }

  lemma ReadPlain(c: char, rest: string)
    requires c != '\\' && c != '"' && c >= ' '
    ensures ReadChars([c] + rest) == Prefixed(c, ReadChars(rest))
  {
    hide ReadEscape;
    assert ([c] + rest)[1..] == rest;
  }

  lemma ReadLetter(c: char, rest: string)
    requires |EscapedChar(c)| == 2
    ensures ReadEscape(EscapedChar(c)[1..] + rest) == Some(([c], rest))
  {
    hide AllDigits, Read, Utf8;
    assert (EscapedChar(c)[1..] + rest)[1..] == rest;
  }

  /** One escaped character reads as that character. */
  lemma ReadOne(c: char, rest: string)
    ensures ReadChars(EscapedChar(c) + rest) == Prefixed(c, ReadChars(rest))
  {
    hide ReadChars, ReadEscape;
    var e := EscapedChar(c);
    if |e| == 1 {
      ReadPlain(c, rest);
    } else {
      assert e == "\\" + e[1..];
      if |e| == 2 {
        ReadLetter(c, rest);
      } else {
        UnicodeEscape(c, rest);
        assert e[1..] == "u00" + [DigitChar(c as int / 16 % 16, true), DigitChar(c as int % 16, true)];
      }
      ReadSequence(c, e[1..], rest);
    }
  }

  /** Escaped text followed by a quote reads back to the original bytes. */
  lemma {:induction false} ReadEscaped(s: string, rest: string)
    ensures ReadChars(Escaped(s) + "\"" + rest) == Some((s, rest))
  {
    hide EscapedChar, ReadEscape;
    if s == "" {
      assert Escaped(s) + "\"" + rest == "\"" + rest;
    } else {
      ReadEscaped(s[1..], rest);
      ReadOne(s[0], Escaped(s[1..]) + "\"" + rest);
      assert Escaped(s) + "\"" + rest == EscapedChar(s[0]) + (Escaped(s[1..]) + "\"" + rest);
      assert [s[0]] + s[1..] == s;
    }
  }

  lemma QuotedReadsBack(s: string, rest: string)
    ensures ReadString(Quoted(s) + rest) == Some((s, rest))
  {
    hide Escaped, ReadChars;
    ReadEscaped(s, rest);
    var tail := Escaped(s) + "\"" + rest;
    assert Quoted(s) + rest == "\"" + tail;
    assert ("\"" + tail)[1..] == tail;
  }

  // --- No shorter text ------------------------------------------------------------------------------

  lemma {:induction false} EscapedAppend(a: string, b: string)
    ensures |Escaped(a + b)| == |Escaped(a)| + |Escaped(b)|
  {
    hide EscapedChar;
    if a == "" {
      assert a + b == b;
    } else {
      EscapedAppend(a[1..], b);
      assert (a + b)[1..] == a[1..] + b && (a + b)[0] == a[0];
    }
  }

  lemma EscapedOne(c: char)
    ensures Escaped([c]) == EscapedChar(c)
    ensures |EscapedChar(c)| == 1 || |EscapedChar(c)| == 2 || |EscapedChar(c)| == 6
    ensures c >= ' ' && c != '"' && c != '\\' ==> EscapedChar(c) == [c]
  {
    assert [c][1..] == "";
  }

  /** What an escape stands for needs no more characters than the escape. */
  lemma EscapeNotShorter(u: string)
    requires ReadEscape(u).Some?
    ensures |Escaped(ReadEscape(u).value.0)| + |ReadEscape(u).value.1| <= |u| + 1
  {
    hide AllDigits, Read;
    var (c, rest) := ReadEscape(u).value;
    if u[0] == 'u' {
      var code := Read(u[1..5], 16);
      EscapedCode(code);
    } else {
      EscapedOne(c[0]);
      assert c == [c[0]];
    }
  }

  lemma EscapedCode(code: nat)
    requires code < 0x1_0000
    ensures |Escaped(Utf8(code))| <= 6
  {
    hide EscapedChar, Escaped;
    var s := Utf8(code);
    if |s| == 1 {
      EscapedOne(s[0]);
      assert s == [s[0]];
    } else {
      HighUnescaped(s);
    }
  }

  lemma {:induction false} HighUnescaped(s: string)
    requires forall i :: 0 <= i < |s| ==> s[i] >= '\U{80}'
    ensures Escaped(s) == s
  {
    if s != "" {
      EscapedOne(s[0]);
      HighUnescaped(s[1..]);
      assert s == [s[0]] + s[1..];
    }
  }

  /** No text that reads as s up to its closing quote is shorter than the one written for s. */
  lemma {:induction false} ShortestEscapes(t: string, s: string, rest: string)
    requires ReadChars(t) == Some((s, rest))
    ensures |Escaped(s)| + 1 + |rest| <= |t|
    decreases |t|
  {
    hide EscapedChar, ReadEscape, Escaped;
    if t[0] == '"' {
      NothingEscaped();
    } else if t[0] == '\\' {
      var (c, s1) := ReadEscape(t[1..]).value;
      var (more, s2) := ReadChars(s1).value;
      EscapeNotShorter(t[1..]);
      ShortestEscapes(s1, more, s2);
      EscapedAppend(c, more);
    } else {
      var (more, s1) := ReadChars(t[1..]).value;
      ShortestEscapes(t[1..], more, s1);
      EscapedOne(t[0]);
      EscapedAppend([t[0]], more);
    }
  }

  lemma NothingEscaped()
    ensures Escaped("") == ""
  {
  }

  /** Where six characters are needed, the two digits are upper case. */
  lemma EscapeCase(c: char)
    requires |EscapedChar(c)| == 6
    ensures EscapedChar(c)[..4] == "\\u00" && Cased(EscapedChar(c)[4], 16, true) && Cased(EscapedChar(c)[5], 16, true)
  {
  }
}
