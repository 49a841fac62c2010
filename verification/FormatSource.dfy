/** Writing format strings: any mix of text and fields, put in writing with the braces of the text
    doubled, prints as intended on both paths. */
module FormatSource {
  import opened Words
  import opened Options
  import opened Digits
  import opened Search
  import opened FormatString
  import opened FormatPaths
  import opened FormatFields

  /** Text to print as it is, or an argument: with or without a number, with or without a colon and
      a specification. */
  datatype Token = Literal(text: string) | Field(index: Option<nat>, spec: Option<string>)

  /** A specification cannot hold the brace that closes its field. */
  predicate Writable(ts: seq<Token>)
  {
    forall i :: 0 <= i < |ts| && ts[i].Field? && ts[i].spec.Some? ==> '}' !in ts[i].spec.value
  }

  function Pre(index: Option<nat>): (s: string)
  {
    if index.None? then "" else Text(index.value, 10)
  }

  function Body(index: Option<nat>, spec: Option<string>): (s: string)
  {
    Pre(index) + (match spec case None => "" case Some(p) => ":" + p)
  }

  function Source(ts: seq<Token>): (s: string)
  {
    if ts == [] then ""
    else
      match ts[0]
      case Literal(text) => Doubled(text) + Source(ts[1..])
      case Field(index, spec) => "{" + Body(index, spec) + "}" + Source(ts[1..])
  }

  /** What is to be printed: unnumbered fields take the arguments in turn, and a number is one of
      64 bits or the largest. */
  function Printed(ts: seq<Token>, auto: nat, render: Renderer): (s: string)
  {
    if ts == [] then ""
    else
      match ts[0]
      case Literal(text) => text + Printed(ts[1..], auto, render)
      case Field(None, spec) => render(auto, Spec(spec)) + Printed(ts[1..], auto + 1, render)
      case Field(Some(n), spec) =>
        render(if n < TWO64 then n else TWO64 - 1, Spec(spec)) + Printed(ts[1..], auto, render)
  }

  function Spec(spec: Option<string>): (s: string)
  {
    match spec case None => "" case Some(p) => p
  }

  function Written(c: char): (s: string)
  {
    if c == '{' || c == '}' then [c, c] else [c]
  }

  lemma CharFirst(c: char, more: string, auto: nat)
    ensures Reading(Written(c) + more, auto) == [Ch(c)] + Reading(more, auto)
    ensures RuntimeReading(Written(c) + more, auto) == [Ch(c)] + RuntimeReading(more, auto)
  {
    hide Find, FieldAtom, NextAuto;
    assert (Written(c) + more)[|Written(c)|..] == more;
  }

  lemma {:induction false} LiteralFirst(t: string, rest: string, auto: nat)
    ensures Reading(Doubled(t) + rest, auto) == Chars(t) + Reading(rest, auto)
    ensures RuntimeReading(Doubled(t) + rest, auto) == Chars(t) + RuntimeReading(rest, auto)
  {
    hide Reading, RuntimeReading;
    if t == "" {
      assert Doubled(t) + rest == rest;
    } else {
      var more := Doubled(t[1..]) + rest;
      LiteralFirst(t[1..], rest, auto);
      CharFirst(t[0], more, auto);
      assert Doubled(t) + rest == Written(t[0]) + more;
      CharsFirst(t);
      hide Chars;
      Regroup([Ch(t[0])], Chars(t[1..]), Reading(rest, auto));
      Regroup([Ch(t[0])], Chars(t[1..]), RuntimeReading(rest, auto));
    }
  }

  lemma CharsFirst(t: string)
    requires t != ""
    ensures Chars(t) == [Ch(t[0])] + Chars(t[1..])
  {
  }

  lemma FieldFirst(body: string, rest: string, auto: nat)
    requires '}' !in body && (body == "" || body[0] != '{')
    ensures var s := "{" + body + "}" + rest;
            && Reading(s, auto) == [FieldAtom(body, auto)] + Reading(rest, NextAuto(body, auto))
            && RuntimeReading(s, auto) == [FieldAtom(body, auto)] + RuntimeReading(rest, NextAuto(body, auto))
  {
    var s := "{" + body + "}" + rest;
    FindExact(body, '}', "}" + rest);
    hide Find, FieldAtom, NextAuto;
    assert s[1..] == body + ("}" + rest);
    assert s[1..][..|body|] == body && s[|body| + 2..] == rest;
    assert s[1] == if body == "" then '}' else body[0];
  }

  lemma NumeralBefore(index: Option<nat>)
    ensures ':' !in Pre(index) && '}' !in Pre(index) && '{' !in Pre(index)
    ensures Numeral(Pre(index)) <==> index.Some?
    ensures index.Some? ==> Read(Pre(index), 10) == index.value
  {
    if index.Some? {
      TextIsDigits(index.value, 10, false);
      ReadText(index.value, 10, false);
      hide Text;
      var t := Text(index.value, 10);
      assert forall i :: 0 <= i < |t| ==> IsDigit(t[i], 10);
    }
  }

  lemma BodyMeaning(index: Option<nat>, spec: Option<string>, auto: nat)
    requires spec.Some? ==> '}' !in spec.value
    ensures var body := Body(index, spec);
            '}' !in body && (body == "" || body[0] != '{') && NextAuto(body, auto) == (if index.None? then auto + 1 else auto)
    ensures FieldAtom(Body(index, spec), auto)
         == Arg(if index.None? then auto else if index.value < TWO64 then index.value else TWO64 - 1, Spec(spec))
  {
    hide Pre, FieldAtom, Positional, IndexText, Numeral;
    NumeralBefore(index);
    CutMeaning(Body(index, spec), Pre(index), spec, auto);
  }

  /** Text and fields, however mixed, print as intended when compiled and when interpreted. */
  lemma {:induction false} SourcePrints(ts: seq<Token>, auto: nat, render: Renderer)
    requires Writable(ts)
    ensures Rendered(Reading(Source(ts), auto), render) == Printed(ts, auto, render)
    ensures Rendered(RuntimeReading(Source(ts), auto), render) == Printed(ts, auto, render)
  {
    hide Rendered, Reading, RuntimeReading, Body, FieldAtom, NextAuto, Chars;
    if ts == [] {
      NothingRead(auto, render);
    } else {
      var rest := Source(ts[1..]);
      match ts[0]
      case Literal(t) =>
        SourcePrints(ts[1..], auto, render);
        LiteralFirst(t, rest, auto);
        RenderedAppend(Chars(t), Reading(rest, auto), render);
        RenderedAppend(Chars(t), RuntimeReading(rest, auto), render);
        RenderedChars(t, render);
      case Field(index, spec) =>
        var next := if index.None? then auto + 1 else auto;
        SourcePrints(ts[1..], next, render);
        BodyMeaning(index, spec, auto);
        FieldFirst(Body(index, spec), rest, auto);
        RenderFirst(FieldAtom(Body(index, spec), auto), Reading(rest, next), render);
        RenderFirst(FieldAtom(Body(index, spec), auto), RuntimeReading(rest, next), render);
    }
  }

  lemma NothingRead(auto: nat, render: Renderer)
    ensures Rendered(Reading("", auto), render) == "" && Rendered(RuntimeReading("", auto), render) == ""
  {
  }

  /** Text without an opening brace and without two closing ones in a row prints as it is: a closing
      brace on its own is text. */
  lemma {:induction false} LoneBracesAreText(s: string, auto: nat)
    requires '{' !in s && forall i :: 0 <= i < |s| - 1 ==> !(s[i] == '}' && s[i + 1] == '}')
    ensures Reading(s, auto) == Chars(s) == RuntimeReading(s, auto)
    decreases |s|
  {
    hide Find, FieldAtom, NextAuto;
    if s != "" {
      LoneBracesAreText(s[1..], auto);
      CharsFirst(s);
    }
  }

  /** A field that is never closed takes the rest of the string when compiled; at run time its brace
      is text. */
  lemma OpenField(body: string, pre: string, post: Option<string>, auto: nat)
    requires '}' !in body && (body == "" || body[0] != '{') && Cut(body, pre, post)
    ensures Reading("{" + body, auto)
         == [Arg(if !Numeral(pre) then auto else if Read(pre, 10) < TWO64 then Read(pre, 10) else TWO64 - 1, Spec(post))]
    ensures RuntimeReading("{" + body, auto) == [Ch('{')] + RuntimeReading(body, auto)
  {
    var s := "{" + body;
    assert s[1..] == body;
    FindExact(body, '}', "");
    assert body + "" == body && body[..|body|] == body;
    CutMeaning(body, pre, post, auto);
    hide Find, FieldAtom, NextAuto, Numeral, Cut, Read;
  }
}
