/** The generator that embeds a script in a header: each line of output is a C++ string literal that
    holds an assembler .ascii directive. */
module EmbeddedHeader {
  import opened Options

  const CHUNK_SIZE: nat := 96

  // --- Emitting -----------------------------------------------------------------------------------

  function GasEscapeChar(c: char): (s: string)
  {
    if c == '\\' then "\\\\" else if c == '"' then "\\\"" else if c == '\n' then "\\n" else [c]
  }

  /** str.replace of one character. */
  function Replaced(s: string, c: char, replacement: string): (t: string)
  {
    if s == "" then "" else (if s[0] == c then replacement else [s[0]]) + Replaced(s[1..], c, replacement)
  }

  /** First the backslashes, then the quotes. */
  function CppEscape(s: string): (t: string)
  {
    Replaced(Replaced(s, '\\', "\\\\"), '"', "\\\"")
  }

  function Token(c: char): (t: string)
  {
    CppEscape(GasEscapeChar(c))
  }

  function Tokens(s: string): (t: string)
  {
    if s == "" then "" else Token(s[0]) + Tokens(s[1..])
  }

  const LINE_HEAD: string := "    \".ascii \\\""
  const LINE_TAIL: string := "\\\"\\n\"\n"

  function Line(piece: string): (s: string)
  {
    LINE_HEAD + piece + LINE_TAIL
  }

  /** The text cut every CHUNK_SIZE characters. */
  function Lines(s: string): (ls: seq<string>)
    decreases |s|
  {
    if s == "" then []
    else if |s| <= CHUNK_SIZE then [Line(Tokens(s))]
    else [Line(Tokens(s[..CHUNK_SIZE]))] + Lines(s[CHUNK_SIZE..])
  }

  function Joined(ts: seq<string>): (t: string)
  {
    if ts == [] then "" else ts[0] + Joined(ts[1..])
  }

  lemma {:induction false} JoinedTokens(ts: seq<string>, s: string)
    requires |ts| == |s| && forall i :: 0 <= i < |s| ==> ts[i] == Token(s[i])
    ensures Joined(ts) == Tokens(s)
  {
    if s != "" {
      JoinedTokens(ts[1..], s[1..]);
    }
  }

  method EmitAsciiLines(raw: string) returns (lines: seq<string>)
    ensures lines == Lines(raw)
  {
    hide Line, Tokens, Token, Joined;
    var tokens := seq(|raw|, i requires 0 <= i < |raw| => Token(raw[i]));
    lines := [];
    var i := 0;
    assert raw[0..] == raw;
    while i < |tokens|
      invariant 0 <= i
      invariant i <= |raw| ==> lines + Lines(raw[i..]) == Lines(raw)
      invariant i > |raw| ==> lines == Lines(raw)
    {
      var end := if i + CHUNK_SIZE < |tokens| then i + CHUNK_SIZE else |tokens|;
      assert raw[i..end] == if |raw[i..]| <= CHUNK_SIZE then raw[i..] else raw[i..][..CHUNK_SIZE];
      assert i + CHUNK_SIZE <= |raw| ==> raw[i..][CHUNK_SIZE..] == raw[i + CHUNK_SIZE..];
      JoinedTokens(tokens[i..end], raw[i..end]);
      lines := lines + [Line(Joined(tokens[i..end]))];
      i := i + CHUNK_SIZE;
    }
  }

  // --- Reading ------------------------------------------------------------------------------------

  /** A string up to its closing quote, in C++ or in the assembler: the escapes for backslash, quote
      and newline, and no raw newline. */
  function ReadString(s: string): (r: Option<(string, string)>)
    decreases |s|
  {
    if s == "" || s[0] == '\n' then None
    else if s[0] == '"' then Some(("", s[1..]))
    else if s[0] != '\\' then Prefixed([s[0]], ReadString(s[1..]))
    else if |s| < 2 then None
    else if s[1] == '\\' || s[1] == '"' then Prefixed([s[1]], ReadString(s[2..]))
    else if s[1] == 'n' then Prefixed("\n", ReadString(s[2..]))
    else None
  }

  function Prefixed(p: string, r: Option<(string, string)>): (q: Option<(string, string)>)
  {
    match r
    case None => None
    case Some((t, rest)) => Some((p + t, rest))
  }

  const LITERAL_HEAD: string := "    \""
  const DIRECTIVE_HEAD: string := ".ascii \""

  /** One line as the compiler and then the assembler read it. */
  function DecodeLine(line: string): (r: Option<string>)
  {
    if !(LITERAL_HEAD <= line) then None
    else
      var (directive, end) :- ReadString(line[|LITERAL_HEAD|..]);
      if end != "\n" || !(DIRECTIVE_HEAD <= directive) then None
      else
        var (text, rest) :- ReadString(directive[|DIRECTIVE_HEAD|..]);
        if rest != "\n" then None else Some(text)
  }

  function DecodeLines(ls: seq<string>): (r: Option<string>)
  {
    if ls == [] then Some("")
    else
      var first :- DecodeLine(ls[0]);
      var rest :- DecodeLines(ls[1..]);
      Some(first + rest)
  }

  function GasEscape(s: string): (t: string)
  {
    if s == "" then "" else GasEscapeChar(s[0]) + GasEscape(s[1..])
  }

  lemma {:induction false} ReplacedConcat(a: string, b: string, c: char, t: string)
    ensures Replaced(a + b, c, t) == Replaced(a, c, t) + Replaced(b, c, t)
  {
    if a == "" {
      assert a + b == b;
    } else {
      ReplacedConcat(a[1..], b, c, t);
      assert (a + b)[1..] == a[1..] + b;
      var head := if a[0] == c then t else [a[0]];
      var x, y := Replaced(a[1..], c, t), Replaced(b, c, t);
      assert Replaced(a + b, c, t) == head + (x + y);
      assert head + (x + y) == head + x + y;
    }
  }

  lemma CppEscapeConcat(a: string, b: string)
    ensures CppEscape(a + b) == CppEscape(a) + CppEscape(b)
  {
    ReplacedConcat(a, b, '\\', "\\\\");
    ReplacedConcat(Replaced(a, '\\', "\\\\"), Replaced(b, '\\', "\\\\"), '"', "\\\"");
  }

  lemma CppEscapeChar(c: char)
    ensures CppEscape([c]) == if c == '\\' then "\\\\" else if c == '"' then "\\\"" else [c]
  {
    assert [c][1..] == "";
    if c == '\\' {
      assert Replaced([c], '\\', "\\\\") == "\\\\";
      assert "\\\\"[1..] == "\\";
    }
  }

  /** Escaping a text token by token is escaping the whole. */
  lemma {:induction false} TokensAreEscapes(s: string)
    ensures Tokens(s) == CppEscape(GasEscape(s))
  {
    if s != "" {
      TokensAreEscapes(s[1..]);
      CppEscapeConcat(GasEscapeChar(s[0]), GasEscape(s[1..]));
    }
  }

  lemma PrefixedNothing(r: Option<(string, string)>)
    ensures Prefixed("", r) == r
  {
    if r.Some? {
      assert "" + r.value.0 == r.value.0;
    }
  }

  lemma ReadOne(c: char, e: string, tail: string)
    requires || (e == ['\\', c] && (c == '\\' || c == '"'))
             || (e == "\\n" && c == '\n')
             || (e == [c] && c != '\\' && c != '"' && c != '\n')
    ensures ReadString(e + tail) == Prefixed([c], ReadString(tail))
  {
    hide Prefixed;
    assert (e + tail)[|e|..] == tail;
  }

  /** A C++ literal gives back the text that was escaped into it. */
  lemma {:induction false} CppReads(g: string, rest: string)
    requires '\n' !in g
    ensures ReadString(CppEscape(g) + rest) == Prefixed(g, ReadString(rest))
  {
    if g == "" {
      hide ReadString;
      assert CppEscape(g) + rest == rest;
      PrefixedNothing(ReadString(rest));
    } else {
      hide CppEscape, ReadString, Prefixed;
      CppReads(g[1..], rest);
      CppStep(g[0], g[1..], rest);
      assert [g[0]] + g[1..] == g;
    }
  }

  lemma CppStep(c: char, more: string, rest: string)
    requires c != '\n' && ReadString(CppEscape(more) + rest) == Prefixed(more, ReadString(rest))
    ensures ReadString(CppEscape([c] + more) + rest) == Prefixed([c] + more, ReadString(rest))
  {
    hide CppEscape, ReadString, Prefixed;
    CppEscapeConcat([c], more);
    CppEscapeChar(c);
    var e, x := CppEscape([c]), CppEscape(more);
    assert e + x + rest == e + (x + rest);
    ReadOne(c, e, x + rest);
    PrefixedTwice(c, more, ReadString(rest));
  }

  lemma PrefixedTwice(c: char, p: string, r: Option<(string, string)>)
    ensures Prefixed([c], Prefixed(p, r)) == Prefixed([c] + p, r)
  {
    if r.Some? {
      assert [c] + (p + r.value.0) == [c] + p + r.value.0;
    }
  }

  /** The assembler gives back the script text. */
  lemma {:induction false} GasReads(s: string, rest: string)
    ensures ReadString(GasEscape(s) + rest) == Prefixed(s, ReadString(rest))
    ensures '\n' !in GasEscape(s)
  {
    if s == "" {
      assert GasEscape(s) + rest == rest;
      PrefixedNothing(ReadString(rest));
    } else {
      GasReads(s[1..], rest);
      var e, tail := GasEscapeChar(s[0]), GasEscape(s[1..]) + rest;
      hide ReadString;
      assert GasEscape(s) + rest == e + tail;
      ReadOne(s[0], e, tail);
      PrefixedTwice(s[0], s[1..], ReadString(rest));
      assert [s[0]] + s[1..] == s;
    }
  }

  function Directive(gas: string): (s: string)
  {
    DIRECTIVE_HEAD + gas + "\""
  }

  lemma LineLayout(s: string)
    ensures Line(Tokens(s)) == LITERAL_HEAD + (CppEscape(Directive(GasEscape(s))) + "\\n\"\n")
  {
    TokensAreEscapes(s);
    DirectiveLiteral(GasEscape(s));
    hide CppEscape, GasEscape, Tokens;
    var literal := CppEscape(Directive(GasEscape(s)));
    assert LINE_TAIL == "\\\"" + "\\n\"\n";
    assert Line(Tokens(s)) == LINE_HEAD + Tokens(s) + "\\\"" + "\\n\"\n";
    assert LITERAL_HEAD + literal + "\\n\"\n" == LITERAL_HEAD + (literal + "\\n\"\n");
  }

  lemma DirectiveReads(s: string)
    ensures ReadString(CppEscape(Directive(GasEscape(s))) + "\\n\"\n") == Some((Directive(GasEscape(s)) + "\n", "\n"))
  {
    GasReads(s, "");
    hide CppEscape, GasEscape, ReadString;
    CppReads(Directive(GasEscape(s)), "\\n\"\n");
    LiteralEnd();
  }

  lemma AsciiReads(s: string)
    ensures ReadString(GasEscape(s) + "\"\n") == Some((s, "\n"))
  {
    GasReads(s, "\"\n");
    hide GasEscape, ReadString;
    ClosingQuote();
    assert s + "" == s;
  }

  /** Every emitted line stands on its own: it decodes to exactly its piece of the text. */
  lemma LineDecodes(s: string)
    ensures DecodeLine(Line(Tokens(s))) == Some(s)
  {
    LineLayout(s);
    DirectiveReads(s);
    AsciiReads(s);
    hide CppEscape, GasEscape, Tokens, ReadString, Line;
    var gas := GasEscape(s);
    var literal := CppEscape(Directive(gas)) + "\\n\"\n";
    assert (LITERAL_HEAD + literal)[|LITERAL_HEAD|..] == literal;
    assert Directive(gas) + "\n" == DIRECTIVE_HEAD + (gas + "\"\n");
    assert (DIRECTIVE_HEAD + (gas + "\"\n"))[|DIRECTIVE_HEAD|..] == gas + "\"\n";
  }

  lemma ClosingQuote()
    ensures ReadString("\"\n") == Some(("", "\n"))
  {
    assert "\"\n"[1..] == "\n";
  }

  lemma LiteralEnd()
    ensures ReadString("\\n\"\n") == Some(("\n", "\n"))
  {
    assert "\\n\"\n"[2..] == "\"\n" && "\"\n"[1..] == "\n" && "\n" + "" == "\n";
  }

  lemma DirectiveLiteral(gas: string)
    ensures LITERAL_HEAD + CppEscape(DIRECTIVE_HEAD + gas + "\"") == LINE_HEAD + CppEscape(gas) + "\\\""
  {
    hide CppEscape;
    HeadEscapes();
    CppEscapeConcat(DIRECTIVE_HEAD + gas, "\"");
    CppEscapeConcat(DIRECTIVE_HEAD, gas);
    CppEscapeChar('"');
  }

  lemma HeadEscapes()
    ensures CppEscape(DIRECTIVE_HEAD) == ".ascii \\\""
  {
    hide CppEscape;
    assert DIRECTIVE_HEAD == ".ascii " + "\"";
    CppEscapeConcat(".ascii ", "\"");
    CppEscapeChar('"');
    PlainEscapes(".ascii ");
  }

  lemma {:induction false} PlainEscapes(s: string)
    requires '\\' !in s && '"' !in s
    ensures CppEscape(s) == s
  {
    if s != "" {
      PlainEscapes(s[1..]);
      assert s == [s[0]] + s[1..];
      CppEscapeConcat([s[0]], s[1..]);
      CppEscapeChar(s[0]);
    }
  }

  /** Decoding every line and joining gives back the text. */
  lemma {:induction false} LinesDecode(s: string)
    ensures DecodeLines(Lines(s)) == Some(s)
    decreases |s|
  {
    hide DecodeLine, Line, Tokens;
    if s == "" {
    } else if |s| <= CHUNK_SIZE {
      LineDecodes(s);
      assert Lines(s)[1..] == [] && s + "" == s;
    } else {
      LineDecodes(s[..CHUNK_SIZE]);
      LinesDecode(s[CHUNK_SIZE..]);
      assert Lines(s)[1..] == Lines(s[CHUNK_SIZE..]);
      assert s[..CHUNK_SIZE] + s[CHUNK_SIZE..] == s;
    }
  }

  /** There is a line for every 96 characters begun, and line i holds those from 96 * i on. */
  lemma {:induction false} LineHolds(s: string, i: nat)
    ensures |Lines(s)| == (|s| + 95) / 96
    ensures i < |Lines(s)| ==> 96 * i < |s| && DecodeLine(Lines(s)[i]) == Some(Slice(s, 96 * i))
    decreases |s|
  {
    hide DecodeLine, Line, Tokens, Slice;
    if s == "" {
    } else if |s| <= CHUNK_SIZE {
      LineDecodes(s);
      SliceFirst(s);
    } else {
      LineDecodes(s[..CHUNK_SIZE]);
      SliceFirst(s);
      var rest := s[CHUNK_SIZE..];
      LineHolds(rest, if i > 0 then i - 1 else 0);
      if i > 0 && i - 1 < |Lines(rest)| {
        SliceLater(s, 96 * (i - 1));
        assert 96 * (i - 1) + 96 == 96 * i;
      }
    }
  }

  /** Ninety-six characters from a place on, or as many as there are. */
  function Slice(s: string, from: nat): (t: string)
    requires from <= |s|
  {
    if from + 96 <= |s| then s[from..from + 96] else s[from..]
  }

  lemma SliceFirst(s: string)
    ensures Slice(s, 0) == if |s| <= 96 then s else s[..96]
  {
  }

  lemma SliceLater(s: string, from: nat)
    requires |s| >= 96 && from <= |s[96..]|
    ensures Slice(s[96..], from) == Slice(s, from + 96)
  {
  }
}
