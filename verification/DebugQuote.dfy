/** Debug quoting of text: escaping of bytes, and reading the quoted form back.
    One character stands for one byte. */
module DebugQuote {
  import opened Options
  import opened Digits
  import opened Output
  import opened Integers

  predicate Bytes(s: string)
  {
    forall i :: 0 <= i < |s| ==> s[i] < '\U{100}'
  }

  predicate Printable(s: string)
  {
    forall i :: 0 <= i < |s| ==> ' ' <= s[i] <= '~'
  }

  /** The letter after the backslash for the bytes that have one. */
  function Letter(c: char): (l: Option<char>)
  {
    match c
    case '\0' => Some('0')
    case '\U{07}' => Some('a')
    case '\U{08}' => Some('b')
    case '\t' => Some('t')
    case '\n' => Some('n')
    case '\U{0B}' => Some('v')
    case '\U{0C}' => Some('f')
    case '\r' => Some('r')
    case '\\' => Some('\\')
    case _ => None
  }

  function EscapedChar(c: char, quote: char, escapeQuote: bool := true): (s: string)
  {
    if Letter(c).Some? then ['\\', Letter(c).value]
    else if c == quote then (if escapeQuote then ['\\', c] else [c])
    else if ' ' <= c <= '~' then [c]
    else "\\x" + Padded(c as int, 16, 2)
  }

  function Escaped(s: string, quote: char): (t: string)
  {
    if s == "" then "" else EscapedChar(s[0], quote) + Escaped(s[1..], quote)
  }

  function Quoted(s: string, quote: char): (t: string)
  {
    [quote] + Escaped(s, quote) + [quote]
  }

  method WriteEscapedChar(out: Sink<char>, c: char, quote: char, escapeQuote: bool)
    requires c < '\U{100}'
    modifies out
    ensures out.text == old(out.text) + EscapedChar(c, quote, escapeQuote)
  {
    hide Padded;
    match c
    case '\0' => out.Write("\\0"); return;
    case '\U{07}' => out.Write("\\a"); return;
    case '\U{08}' => out.Write("\\b"); return;
    case '\t' => out.Write("\\t"); return;
    case '\n' => out.Write("\\n"); return;
    case '\U{0B}' => out.Write("\\v"); return;
    case '\U{0C}' => out.Write("\\f"); return;
    case '\r' => out.Write("\\r"); return;
    case '\\' => out.Write("\\\\"); return;
    case _ =>
      if c == quote {
        if escapeQuote {
          out.Put('\\');
        }
        out.Put(quote);
        return;
      }
      if ' ' <= c <= '~' {
        out.Put(c);
        return;
      }
      out.Write("\\x");
      FormatUnsigned(out, Hex, c as int, false, 2);
  }

  method WriteDebugQuoted(out: Sink<char>, data: string, quote: char)
    requires Bytes(data)
    modifies out
    ensures out.text == old(out.text) + Quoted(data, quote)
  {
    hide EscapedChar;
    out.Put(quote);
    ghost var goal := out.text + Escaped(data, quote);
    assert data[0..] == data;
    for i := 0 to |data|
      invariant out.text + Escaped(data[i..], quote) == goal
    {
      assert data[i..][1..] == data[i + 1..];
      WriteEscapedChar(out, data[i], quote, true);
    }
    assert data[|data|..] == "" && out.text == goal;
    out.Put(quote);
  }

  /** The debug form of a single character. */
  method FormatCharDebug(out: Sink<char>, c: char)
    requires c < '\U{100}'
    modifies out
    ensures out.text == old(out.text) + Quoted([c], '\'')
  {
    hide EscapedChar;
    out.Put('\'');
    WriteEscapedChar(out, c, '\'', true);
    out.Put('\'');
    assert [c][1..] == "" && Escaped([c], '\'') == EscapedChar(c, '\'');
  }

  // --- Reading ------------------------------------------------------------------------------------

  function Unletter(l: char): (c: Option<char>)
  {
    match l
    case '0' => Some('\0')
    case 'a' => Some('\U{07}')
    case 'b' => Some('\U{08}')
    case 't' => Some('\t')
    case 'n' => Some('\n')
    case 'v' => Some('\U{0B}')
    case 'f' => Some('\U{0C}')
    case 'r' => Some('\r')
    case _ => if l == '\\' || l == '"' || l == '\'' then Some(l) else None
  }

  /** What follows a backslash: the byte it stands for and the rest. */
  function ReadEscape(s: string): (r: Option<(char, string)>)
    ensures r.Some? ==> |r.value.1| < |s|
  {
    if s == "" then None
    else if s[0] == 'x' then
      if |s| >= 3 && IsDigit(s[1], 16) && IsDigit(s[2], 16)
      then Some(((16 * DigitValue(s[1]) + DigitValue(s[2])) as char, s[3..]))
      else None
    else
      var c :- Unletter(s[0]);
      Some((c, s[1..]))
  }

  /** The bytes up to the first quote that no backslash precedes, and what comes after it. */
  function ReadBody(s: string, quote: char): (r: Option<(string, string)>)
    decreases |s|
  {
    if s == "" then None
    else if s[0] == quote then Some(("", s[1..]))
    else if s[0] == '\\' then
      var (c, s1) :- ReadEscape(s[1..]);
      var (t, s2) :- ReadBody(s1, quote);
      Some(([c] + t, s2))
    else
      var (t, s1) :- ReadBody(s[1..], quote);
      Some(([s[0]] + t, s1))
  }

  function ReadQuoted(s: string, quote: char): (r: Option<(string, string)>)
  {
    if s == "" || s[0] != quote then None else ReadBody(s[1..], quote)
  }

  predicate IsQuote(c: char)
  {
    c == '"' || c == '\''
  }

  lemma HexPair(n: nat)
    requires n < 256
    ensures Padded(n, 16, 2) == [DigitChar(n / 16, false), DigitChar(n % 16, false)]
  {
    if n >= 16 {
      assert Text(n / 16, 16) == [DigitChar(n / 16, false)];
    } else {
      assert Zeros(1) == "0";
    }
  }

  lemma HexEscapeReads(c: char, rest: string)
    requires c < '\U{100}'
    ensures ReadEscape("x" + Padded(c as int, 16, 2) + rest) == Some((c, rest))
    ensures Printable(Padded(c as int, 16, 2))
  {
    var n := c as int;
    HexPair(n);
    DigitInverse(n / 16, false);
    DigitInverse(n % 16, false);
    var s := "x" + Padded(n, 16, 2) + rest;
    hide Padded;
    assert s[1] == DigitChar(n / 16, false) && s[2] == DigitChar(n % 16, false) && s[3..] == rest;
  }

  function Prefixed(c: char, r: Option<(string, string)>): (q: Option<(string, string)>)
  {
    match r
    case None => None
    case Some((t, rest)) => Some(([c] + t, rest))
  }

  /** A backslash sequence reads as the byte it stands for. */
  lemma ReadSequence(c: char, e: string, quote: char, rest: string)
    requires IsQuote(quote) && ReadEscape(e + rest) == Some((c, rest))
    ensures ReadBody("\\" + e + rest, quote) == Prefixed(c, ReadBody(rest, quote))
  {
    hide ReadEscape;
    assert ("\\" + e + rest)[1..] == e + rest;
  }

  lemma ReadPlain(c: char, quote: char, rest: string)
    requires c != '\\' && c != quote
    ensures ReadBody([c] + rest, quote) == Prefixed(c, ReadBody(rest, quote))
  {
    hide ReadEscape;
    assert ([c] + rest)[1..] == rest;
  }

  lemma ReadLetter(c: char, l: char, rest: string)
    requires l != 'x' && Unletter(l) == Some(c)
    ensures ReadEscape([l] + rest) == Some((c, rest))
  {
    assert ([l] + rest)[1..] == rest;
  }

  lemma ReadOne(c: char, quote: char, rest: string)
    requires IsQuote(quote) && c < '\U{100}'
    ensures ReadBody(EscapedChar(c, quote) + rest, quote) == Prefixed(c, ReadBody(rest, quote))
    ensures Printable(EscapedChar(c, quote))
  {
    hide Padded, ReadEscape, ReadBody;
    if Letter(c).Some? || c == quote {
      var l := if Letter(c).Some? then Letter(c).value else c;
      ReadLetter(c, l, rest);
      ReadSequence(c, [l], quote, rest);
      assert EscapedChar(c, quote) == "\\" + [l];
    } else if ' ' <= c <= '~' {
      ReadPlain(c, quote, rest);
    } else {
      HexEscapeReads(c, rest);
      var e := "x" + Padded(c as int, 16, 2);
      ReadSequence(c, e, quote, rest);
      assert EscapedChar(c, quote) == "\\" + e;
    }
  }

  lemma {:induction false} ReadEscaped(s: string, quote: char, rest: string)
    requires IsQuote(quote) && Bytes(s)
    ensures ReadBody(Escaped(s, quote) + [quote] + rest, quote) == Some((s, rest))
    ensures Printable(Escaped(s, quote))
  {
    if s == "" {
      assert Escaped(s, quote) + [quote] + rest == [quote] + rest;
    } else {
      hide EscapedChar, ReadBody, Printable;
      ReadEscaped(s[1..], quote, rest);
      var e, more := EscapedChar(s[0], quote), Escaped(s[1..], quote);
      ReadOne(s[0], quote, more + [quote] + rest);
      assert Escaped(s, quote) + [quote] + rest == e + (more + [quote] + rest);
      assert [s[0]] + s[1..] == s;
      PrintableConcat(e, more);
    }
  }

  lemma PrintableConcat(a: string, b: string)
    requires Printable(a) && Printable(b)
    ensures Printable(a + b)
  {
  }

  /** The quoted text is printable ASCII; its closing quote is the first unescaped one, whatever
      follows; and what stands between reads back as the original bytes. */
  lemma QuotedReadsBack(s: string, quote: char, rest: string)
    requires IsQuote(quote) && Bytes(s)
    ensures Printable(Quoted(s, quote))
    ensures ReadQuoted(Quoted(s, quote) + rest, quote) == Some((s, rest))
  {
    ReadEscaped(s, quote, rest);
    hide Escaped, ReadBody;
    assert (Quoted(s, quote) + rest)[1..] == Escaped(s, quote) + [quote] + rest;
  }

  // --- No shorter text ------------------------------------------------------------------------------

  lemma {:induction false} EscapedAppend(a: string, b: string, quote: char)
    ensures |Escaped(a + b, quote)| == |Escaped(a, quote)| + |Escaped(b, quote)|
  {
    hide EscapedChar;
    if a == "" {
      assert a + b == b;
    } else {
      EscapedAppend(a[1..], b, quote);
      assert (a + b)[1..] == a[1..] + b && (a + b)[0] == a[0];
    }
  }

  lemma EscapedOne(c: char, quote: char)
    requires IsQuote(quote) && c < '\U{100}'
    ensures Escaped([c], quote) == EscapedChar(c, quote)
    ensures |EscapedChar(c, quote)| <= 4 && (Letter(c).Some? || c == quote ==> |EscapedChar(c, quote)| == 2)
    ensures ' ' <= c <= '~' && c != quote && c != '\\' ==> EscapedChar(c, quote) == [c]
  {
    HexPair(c as int);
    hide Padded;
    assert [c][1..] == "";
  }

  /** What an escape stands for needs no more characters than the escape. */
  lemma EscapeNotShorter(u: string, quote: char)
    requires IsQuote(quote) && Printable(u) && ReadEscape(u).Some?
    ensures var (c, rest) := ReadEscape(u).value;
            c < '\U{100}' && |EscapedChar(c, quote)| + |rest| <= |u| + 1 && Printable(rest)
  {
    hide EscapedChar, Letter;
    var (c, rest) := ReadEscape(u).value;
    if u[0] == 'x' {
      EscapedOne(c, quote);
    } else {
      LetterOrPlain(u[0], c);
      EscapedOne(c, quote);
    }
  }

  lemma LetterOrPlain(l: char, c: char)
    requires Unletter(l) == Some(c)
    ensures Letter(c).Some? || c == '"' || c == '\''
  {
  }

  /** No printable text that reads as s up to its closing quote is shorter than the one written. */
  lemma {:induction false} ShortestEscapes(t: string, quote: char, s: string, rest: string)
    requires IsQuote(quote) && Printable(t) && ReadBody(t, quote) == Some((s, rest))
    ensures |Escaped(s, quote)| + 1 + |rest| <= |t|
    decreases |t|
  {
    hide EscapedChar, ReadEscape, Escaped, Letter;
    if t[0] == quote {
      NothingEscaped(quote);
    } else if t[0] == '\\' {
      var (c, s1) := ReadEscape(t[1..]).value;
      var (more, s2) := ReadBody(s1, quote).value;
      EscapeNotShorter(t[1..], quote);
      ShortestEscapes(s1, quote, more, s2);
      EscapedOne(c, quote);
      EscapedAppend([c], more, quote);
    } else {
      var (more, s1) := ReadBody(t[1..], quote).value;
      ShortestEscapes(t[1..], quote, more, s1);
      EscapedOne(t[0], quote);
      EscapedAppend([t[0]], more, quote);
    }
  }

  lemma NothingEscaped(quote: char)
    ensures Escaped("", quote) == ""
  {
  }

  /** Hexadecimal escapes have two digits in lower case. Without escaping of the quote, the quote is
      itself and nothing else changes. */
  lemma EscapeForms(c: char, quote: char)
    requires IsQuote(quote) && c < '\U{100}'
    ensures var e := EscapedChar(c, quote);
            |e| > 2 ==> |e| == 4 && e[..2] == "\\x" && Cased(e[2], 16, false) && Cased(e[3], 16, false)
    ensures EscapedChar(c, quote, false) == if c == quote then [c] else EscapedChar(c, quote)
  {
    HexPair(c as int);
    hide Padded;
  }
}
