/** Rendering: the compiled path, the interpreted path, and when they agree. */
module FormatPaths {
  import opened Options
  import opened Output
  import opened Digits
  import opened Search
  import opened FormatString

  /** Renders the argument with a given number under a given specification. */
  type Renderer = (nat, string) -> string

  function RenderAtom(a: Atom, render: Renderer): (s: string)
  {
    match a
    case Ch(c) => [c]
    case Arg(index, spec) => render(index, spec)
  }

  function Rendered(atoms: seq<Atom>, render: Renderer): (s: string)
  {
    if atoms == [] then "" else RenderAtom(atoms[0], render) + Rendered(atoms[1..], render)
  }

  lemma {:induction false} RenderedAppend(a: seq<Atom>, b: seq<Atom>, render: Renderer)
    ensures Rendered(a + b, render) == Rendered(a, render) + Rendered(b, render)
  {
    hide RenderAtom;
    if a == [] {
      assert a + b == b;
    } else {
      RenderedAppend(a[1..], b, render);
      assert (a + b)[1..] == a[1..] + b && (a + b)[0] == a[0];
      var first := RenderAtom(a[0], render);
      assert Rendered(a, render) == first + Rendered(a[1..], render);
      assert Rendered(a + b, render) == first + (Rendered(a[1..], render) + Rendered(b, render));
    }
  }

  lemma {:induction false} RenderedChars(s: string, render: Renderer)
    ensures Rendered(Chars(s), render) == s
  {
    if s != "" {
      RenderedChars(s[1..], render);
      assert Chars(s)[1..] == Chars(s[1..]);
      assert s == [s[0]] + s[1..];
    }
  }

  // --- The compiled path ------------------------------------------------------------------------

  method EmitPieces(out: Sink<char>, pieces: seq<Piece>, render: Renderer)
    modifies out
    ensures out.text == old(out.text) + Rendered(Atoms(pieces), render)
  {
    hide Rendered, Atoms, PieceAtoms;
    NothingRendered(render);
    assert pieces[..0] == [];
    for i := 0 to |pieces|
      invariant out.text == old(out.text) + Rendered(Atoms(pieces[..i]), render)
    {
      var piece := pieces[i];
      if !piece.isArg {
        out.Write(piece.literal);
      } else {
        out.Write(render(piece.argIndex, piece.spec));
      }
      assert pieces[..i + 1] == pieces[..i] + [piece];
      AtomsAppend(pieces[..i], piece);
      RenderedAppend(Atoms(pieces[..i]), PieceAtoms(piece), render);
      PieceRendered(piece, render);
    }
    assert pieces[..|pieces|] == pieces;
  }

  lemma NothingRendered(render: Renderer)
    ensures Rendered([], render) == "" && Atoms([]) == []
  {
  }

  lemma PieceRendered(p: Piece, render: Renderer)
    ensures Rendered(PieceAtoms(p), render) == if p.isArg then render(p.argIndex, p.spec) else p.literal
  {
    if p.isArg {
      assert PieceAtoms(p)[1..] == [];
    } else {
      RenderedChars(p.literal, render);
    }
  }

  /** Compiling a format string and emitting its pieces in order prints what a direct reading of
      the string says, for every renderer. */
  method FormatCompiled(out: Sink<char>, str: string, render: Renderer)
    modifies out
    ensures out.text == old(out.text) + Rendered(Reading(str, 0), render)
  {
    var pieces, count := Compile(str);
    EmitPieces(out, pieces[..count], render);
  }

  // --- The interpreted path ---------------------------------------------------------------------

  /** An argument given at run time; None is a null pointer or a null function. */
  type Argument = Option<string -> string>

  function Dynamic(args: seq<Argument>): (r: Renderer)
  {
    (i: nat, spec: string) => if i >= |args| then "{MISSING}" else if args[i].None? then "" else args[i].value(spec)
  }

  method VFormatTo(out: Sink<char>, fmt: string, args: seq<Argument>)
    modifies out
    ensures out.text == old(out.text) + Rendered(RuntimeReading(fmt, 0), Dynamic(args))
  {
    hide Rendered, RuntimeReading, Dynamic;
    var argIdx, i := 0, 0;
    ghost var render := Dynamic(args);
    ghost var goal := out.text + Rendered(RuntimeReading(fmt, 0), render);
    assert fmt[0..] == fmt;
    while i < |fmt|
      invariant 0 <= i <= |fmt|
      invariant out.text + Rendered(RuntimeReading(fmt[i..], argIdx), render) == goal
    {
      i, argIdx := RuntimeRound(out, fmt, i, argIdx, args);
    }
    assert fmt[|fmt|..] == "";
    EmptyReading(render, argIdx);
  }

  /** One round of the interpreter: a doubled brace, a field, or a character. */
  method RuntimeRound(out: Sink<char>, fmt: string, i: nat, argIdx: nat, args: seq<Argument>)
    returns (next: nat, nextIdx: nat)
    requires i < |fmt|
    modifies out
    ensures i < next <= |fmt|
    ensures out.text + Rendered(RuntimeReading(fmt[next..], nextIdx), Dynamic(args))
         == old(out.text) + Rendered(RuntimeReading(fmt[i..], argIdx), Dynamic(args))
  {
    hide Rendered, RuntimeReading, ArgIndex, NextAuto, SpecText, Find, Dynamic;
    var c := fmt[i];
    RuntimeStep(fmt, i, argIdx, Dynamic(args));
    nextIdx := argIdx;
    if i + 1 < |fmt| && fmt[i + 1] == c && (c == '{' || c == '}') {
      out.Put(c);
      return i + 2, argIdx;
    }
    if c == '{' {
      var closePos := FindClose(fmt, i + 1);
      if closePos < |fmt| {
        var replacement := fmt[i + 1..closePos];
        var piece;
        piece, nextIdx := ParseField(replacement, argIdx);
        FieldParts(piece, replacement, argIdx);
        WriteArgument(out, args, piece.argIndex, piece.spec);
        return closePos + 1, nextIdx;
      }
    }
    out.Put(c);
    return i + 1, argIdx;
  }

  method WriteArgument(out: Sink<char>, args: seq<Argument>, selected: nat, spec: string)
    modifies out
    ensures out.text == old(out.text) + Dynamic(args)(selected, spec)
    ensures selected >= |args| ==> out.text == old(out.text) + "{MISSING}"
    ensures selected < |args| && args[selected].None? ==> out.text == old(out.text)
    ensures selected < |args| && args[selected].Some? ==> out.text == old(out.text) + args[selected].value(spec)
  {
    if selected < |args| {
      if args[selected].Some? {
        out.Write(args[selected].value(spec));
      }
    } else {
      out.Write("{MISSING}");
    }
  }

  lemma FieldParts(p: Piece, field: string, auto: nat)
    requires p.isArg && PieceAtoms(p) == [FieldAtom(field, auto)]
    ensures p.argIndex == ArgIndex(field, auto) && p.spec == SpecText(field)
  {
    assert PieceAtoms(p)[0] == FieldAtom(field, auto);
  }

  lemma EmptyReading(render: Renderer, auto: nat)
    ensures Rendered(RuntimeReading("", auto), render) == ""
  {
  }

  lemma RenderFirst(a: Atom, rest: seq<Atom>, render: Renderer)
    ensures Rendered([a] + rest, render) == RenderAtom(a, render) + Rendered(rest, render)
  {
    assert ([a] + rest)[1..] == rest;
  }

  /** One turn of the interpreter's loop. */
  lemma RuntimeStep(fmt: string, i: nat, auto: nat, render: Renderer)
    requires i < |fmt|
    ensures var now := Rendered(RuntimeReading(fmt[i..], auto), render);
            var end := i + 1 + Find(fmt[i + 1..], '}');
            if i + 1 < |fmt| && fmt[i + 1] == fmt[i] && (fmt[i] == '{' || fmt[i] == '}') then
              now == [fmt[i]] + Rendered(RuntimeReading(fmt[i + 2..], auto), render)
            else if fmt[i] == '{' && end < |fmt| then
              var field := fmt[i + 1..end];
              now == render(ArgIndex(field, auto), SpecText(field))
                     + Rendered(RuntimeReading(fmt[end + 1..], NextAuto(field, auto)), render)
            else now == [fmt[i]] + Rendered(RuntimeReading(fmt[i + 1..], auto), render)
  {
    hide Rendered, ArgIndex, NextAuto, SpecText, Find;
    var t := fmt[i..];
    assert t[1..] == fmt[i + 1..];
    if i + 1 < |fmt| && fmt[i + 1] == fmt[i] && (fmt[i] == '{' || fmt[i] == '}') {
      assert t[2..] == fmt[i + 2..];
      RenderFirst(Ch(fmt[i]), RuntimeReading(fmt[i + 2..], auto), render);
    } else {
      var k := Find(t[1..], '}');
      var field := t[1..][..k];
      if fmt[i] == '{' && k < |t[1..]| {
        assert field == fmt[i + 1..i + 1 + k];
        assert t[k + 2..] == fmt[i + 1 + k + 1..];
        RenderFirst(FieldAtom(field, auto), RuntimeReading(t[k + 2..], NextAuto(field, auto)), render);
      } else {
        RenderFirst(Ch(fmt[i]), RuntimeReading(fmt[i + 1..], auto), render);
      }
    }
  }

  // --- When the two paths agree -----------------------------------------------------------------

  /** The text after the last closing brace. */
  function AfterLast(s: string): (t: string)
  {
    if '}' in s then AfterLast(s[1..]) else s
  }

  /** Opening braces only in pairs. */
  predicate Paired(s: string)
    decreases |s|
  {
    s == "" || (if s[0] == '{' then |s| > 1 && s[1] == '{' && Paired(s[2..]) else Paired(s[1..]))
  }

  /** No field is left open: after the last closing brace, opening braces come in pairs. */
  predicate Terminated(s: string)
  {
    Paired(AfterLast(s))
  }

  lemma {:induction false} AfterLastDrop(s: string, j: nat)
    requires j < |s| && s[j] == '}'
    ensures AfterLast(s) == AfterLast(s[j + 1..])
  {
    assert '}' in s;
    if j == 0 {
    } else {
      AfterLastDrop(s[1..], j - 1);
      assert s[1..][j..] == s[j + 1..];
    }
  }

  /** A first character that is no closing brace only matters when no closing brace follows. */
  lemma AfterLastSkip(s: string)
    requires s != "" && s[0] != '}'
    ensures AfterLast(s) == if '}' in s[1..] then AfterLast(s[1..]) else s
    ensures '}' in s <==> '}' in s[1..]
  {
    assert s == [s[0]] + s[1..];
  }

  lemma NoneIsAll(s: string)
    requires '}' !in s
    ensures AfterLast(s) == s
  {
  }

  lemma SameTail(a: Atom, x: seq<Atom>, y: seq<Atom>)
    ensures [a] + x == [a] + y <==> x == y
  {
    assert ([a] + x)[1..] == x && ([a] + y)[1..] == y;
  }

  lemma TerminatedDoubled(s: string)
    requires |s| > 1 && s[0] == s[1] && (s[0] == '{' || s[0] == '}')
    ensures Terminated(s) <==> Terminated(s[2..])
  {
    if s[0] == '}' {
      AfterLastDrop(s, 1);
    } else {
      AfterLastSkip(s);
      AfterLastSkip(s[1..]);
      assert s[1..][1..] == s[2..];
      if '}' !in s[2..] {
        NoneIsAll(s[2..]);
      }
    }
  }

  lemma TerminatedPlain(s: string)
    requires s != "" && s[0] != '{'
    ensures Terminated(s) <==> Terminated(s[1..])
  {
    if s[0] == '}' {
      AfterLastDrop(s, 0);
    } else {
      AfterLastSkip(s);
      if '}' !in s[1..] {
        NoneIsAll(s[1..]);
      }
    }
  }

  lemma TerminatedField(s: string)
    requires s != "" && s[0] == '{' && !(|s| > 1 && s[1] == '{')
    ensures var k := Find(s[1..], '}');
            if k < |s[1..]| then Terminated(s) <==> Terminated(s[k + 2..]) else !Terminated(s)
  {
    var k := Find(s[1..], '}');
    if k < |s[1..]| {
      AfterLastDrop(s, k + 1);
    } else {
      assert s[1..][..k] == s[1..];
      AfterLastSkip(s);
    }
  }

  /** The compiled and the interpreted reading are the same exactly when no field is left open. */
  lemma {:induction false} PathsAgree(s: string, auto: nat)
    ensures Reading(s, auto) == RuntimeReading(s, auto) <==> Terminated(s)
    decreases |s|
  {
    hide Terminated, Find, FieldAtom, NextAuto;
    if s == "" {
      EmptyTerminated();
    } else if |s| > 1 && s[0] == s[1] && (s[0] == '{' || s[0] == '}') {
      TerminatedDoubled(s);
      PathsAgree(s[2..], auto);
      SameTail(Ch(s[0]), Reading(s[2..], auto), RuntimeReading(s[2..], auto));
    } else if s[0] == '{' {
      TerminatedField(s);
      var k := Find(s[1..], '}');
      var field := s[1..][..k];
      if k < |s[1..]| {
        PathsAgree(s[k + 2..], NextAuto(field, auto));
        SameTail(FieldAtom(field, auto), Reading(s[k + 2..], NextAuto(field, auto)),
                 RuntimeReading(s[k + 2..], NextAuto(field, auto)));
      } else {
        assert Reading(s, auto)[0] == FieldAtom(field, auto);
        assert RuntimeReading(s, auto)[0] == Ch('{');
        FieldIsArg(field, auto);
      }
    } else {
      TerminatedPlain(s);
      PathsAgree(s[1..], auto);
      SameTail(Ch(s[0]), Reading(s[1..], auto), RuntimeReading(s[1..], auto));
    }
  }

  lemma EmptyTerminated()
    ensures Terminated("")
  {
  }

  lemma FieldIsArg(field: string, auto: nat)
    ensures FieldAtom(field, auto).Arg?
  {
  }

  // --- A renderer that tells them apart -----------------------------------------------------------

  function Long(n: nat): (r: Renderer)
  {
    (i: nat, spec: string) => Repeated('x', n)
  }

  lemma {:induction false} OpenTextIsShort(s: string, auto: nat, n: nat)
    requires '}' !in s
    ensures |Rendered(RuntimeReading(s, auto), Long(n))| <= |s|
    decreases |s|
  {
    hide Rendered, FieldAtom, NextAuto;
    if s == "" {
      EmptyReading(Long(n), auto);
    } else if |s| > 1 && s[0] == s[1] && s[0] == '{' {
      OpenTextIsShort(s[2..], auto, n);
      RenderFirst(Ch('{'), RuntimeReading(s[2..], auto), Long(n));
    } else {
      assert s[0] == '{' ==> Find(s[1..], '}') == |s[1..]|;
      OpenTextIsShort(s[1..], auto, n);
      RenderFirst(Ch(s[0]), RuntimeReading(s[1..], auto), Long(n));
    }
  }

  lemma {:induction false} LengthsDiffer(s: string, auto: nat, n: nat)
    requires !Terminated(s) && n > |s|
    ensures |Rendered(Reading(s, auto), Long(n))| > |Rendered(RuntimeReading(s, auto), Long(n))|
    decreases |s|
  {
    hide Rendered, Terminated, FieldAtom, NextAuto;
    var r := Long(n);
    if s == "" {
      EmptyTerminated();
      assert false;
    } else if |s| > 1 && s[0] == s[1] && (s[0] == '{' || s[0] == '}') {
      TerminatedDoubled(s);
      LengthsDiffer(s[2..], auto, n);
      RenderFirst(Ch(s[0]), Reading(s[2..], auto), r);
      RenderFirst(Ch(s[0]), RuntimeReading(s[2..], auto), r);
    } else if s[0] == '{' {
      TerminatedField(s);
      var k := Find(s[1..], '}');
      var field := s[1..][..k];
      FieldIsArg(field, auto);
      if k < |s[1..]| {
        var next := NextAuto(field, auto);
        LengthsDiffer(s[k + 2..], next, n);
        RenderFirst(FieldAtom(field, auto), Reading(s[k + 2..], next), r);
        RenderFirst(FieldAtom(field, auto), RuntimeReading(s[k + 2..], next), r);
      } else {
        assert s[1..][..k] == s[1..];
        OpenTextIsShort(s[1..], auto, n);
        RenderFirst(FieldAtom(field, auto), [], r);
        RenderFirst(Ch('{'), RuntimeReading(s[1..], auto), r);
      }
    } else {
      TerminatedPlain(s);
      LengthsDiffer(s[1..], auto, n);
      RenderFirst(Ch(s[0]), Reading(s[1..], auto), r);
      RenderFirst(Ch(s[0]), RuntimeReading(s[1..], auto), r);
    }
  }

  /** The two entry points print the same text for every renderer exactly when no field is left open. */
  lemma SameTextIffTerminated(s: string)
    ensures (forall render: Renderer :: Rendered(Reading(s, 0), render) == Rendered(RuntimeReading(s, 0), render))
       <==> Terminated(s)
  {
    hide Rendered, Reading, RuntimeReading, Terminated;
    PathsAgree(s, 0);
    if !Terminated(s) {
      LengthsDiffer(s, 0, |s| + 1);
      assert Rendered(Reading(s, 0), Long(|s| + 1)) != Rendered(RuntimeReading(s, 0), Long(|s| + 1));
    }
  }

  /** A string on which they differ. */
  lemma UnterminatedExample()
    ensures !Terminated("a{") && Reading("a{", 0) == [Ch('a'), Arg(0, "")]
    ensures RuntimeReading("a{", 0) == [Ch('a'), Ch('{')]
  {
    assert "a{"[1..] == "{" && "{"[1..] == "";
    assert Positional("") == None;
  }
}
