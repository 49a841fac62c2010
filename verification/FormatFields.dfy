/** The fields of a format string: their numbering, and text that has none. */
module FormatFields {
  import opened Words
  import opened Options
  import opened Digits
  import opened Search
  import opened FormatString
  import opened FormatPaths

  /** The replacement fields in order, as written between the braces. */
  function Fields(s: string): (fs: seq<string>)
    decreases |s|
  {
    if s == "" then []
    else if |s| > 1 && s[0] == s[1] && (s[0] == '{' || s[0] == '}') then Fields(s[2..])
    else if s[0] == '{' then
      var k := Find(s[1..], '}');
      [s[1..][..k]] + if k < |s[1..]| then Fields(s[k + 2..]) else []
    else Fields(s[1..])
  }

  /** The argument insertions of a reading, in order. */
  function Args(atoms: seq<Atom>): (r: seq<Atom>)
  {
    if atoms == [] then []
    else (if atoms[0].Arg? then [atoms[0]] else []) + Args(atoms[1..])
  }

  /** How many of the fields carry no positional index. */
  function AutomaticCount(fs: seq<string>): (n: nat)
  {
    if fs == [] then 0 else (if Positional(IndexText(fs[0])).None? then 1 else 0) + AutomaticCount(fs[1..])
  }

  lemma ArgsOfChar(c: char, rest: seq<Atom>)
    ensures Args([Ch(c)] + rest) == Args(rest)
  {
    assert ([Ch(c)] + rest)[1..] == rest;
  }

  lemma ArgsOfArg(a: Atom, rest: seq<Atom>)
    requires a.Arg?
    ensures Args([a] + rest) == [a] + Args(rest)
  {
    assert ([a] + rest)[1..] == rest;
  }

  lemma CountFirst(field: string, more: seq<string>, auto: nat)
    ensures auto + AutomaticCount([field] + more) == NextAuto(field, auto) + AutomaticCount(more)
    ensures AutomaticCount([]) == 0
  {
    assert ([field] + more)[1..] == more;
  }

  /** Field j gets its own number when it has one, and otherwise the count of automatic fields
      before it: 0, 1, 2, ... whatever positional fields stand between. */
  lemma {:induction false} FieldNumbering(s: string, auto: nat, j: nat)
    requires j < |Fields(s)|
    ensures j < |Args(Reading(s, auto))|
    ensures Args(Reading(s, auto))[j] == FieldAtom(Fields(s)[j], auto + AutomaticCount(Fields(s)[..j]))
    decreases |s|
  {
    hide Args, Find, FieldAtom, NextAuto, AutomaticCount, Reading;
    if |s| > 1 && s[0] == s[1] && (s[0] == '{' || s[0] == '}') {
      ReadDoubled(s, auto);
      ArgsOfChar(s[0], Reading(s[2..], auto));
      FieldNumbering(s[2..], auto, j);
    } else if s[0] == '{' {
      var k := Find(s[1..], '}');
      var field := s[1..][..k];
      var rest := if k < |s[1..]| then Reading(s[k + 2..], NextAuto(field, auto)) else [];
      ReadField(s, auto);
      FieldIsArg(field, auto);
      ArgsOfArg(FieldAtom(field, auto), rest);
      if j == 0 {
        CountFirst(field, [], auto);
        assert Fields(s)[..0] == [];
      } else {
        FieldNumbering(s[k + 2..], NextAuto(field, auto), j - 1);
        CountFirst(field, Fields(s[k + 2..])[..j - 1], auto);
        assert Fields(s)[..j] == [field] + Fields(s[k + 2..])[..j - 1];
      }
    } else {
      ReadPlain(s, auto);
      ArgsOfChar(s[0], Reading(s[1..], auto));
      FieldNumbering(s[1..], auto, j);
    }
  }

  // --- What a field asks for, from its text alone --------------------------------------------------

  /** A field cut at its first colon; post is None when it has no colon. */
  predicate Cut(field: string, pre: string, post: Option<string>)
  {
    ':' !in pre && field == pre + (match post case None => "" case Some(p) => ":" + p)
  }

  predicate Numeral(pre: string)
  {
    pre != "" && forall i :: 0 <= i < |pre| ==> '0' <= pre[i] <= '9'
  }

  /** How many of the fields have something other than a numeral before their colon. */
  function Unnumbered(fs: seq<string>): (n: nat)
  {
    if fs == [] then 0
    else (if Numeral(fs[0][..Find(fs[0], ':')]) then 0 else 1) + Unnumbered(fs[1..])
  }

  lemma CutMeaning(field: string, pre: string, post: Option<string>, auto: nat)
    requires Cut(field, pre, post)
    ensures FieldAtom(field, auto) == Arg(if !Numeral(pre) then auto
                                          else if Read(pre, 10) < TWO64 then Read(pre, 10) else TWO64 - 1,
                                          match post case None => "" case Some(p) => p)
    ensures Positional(IndexText(field)).Some? <==> Numeral(pre)
  {
    var tail := match post case None => "" case Some(p) => ":" + p;
    FindExact(pre, ':', tail);
    hide Find, Read;
    assert field[..|pre|] == pre;
    assert post.Some? ==> field[|pre| + 1..] == post.value;
    assert AllDigits(pre, 10) <==> forall i :: 0 <= i < |pre| ==> '0' <= pre[i] <= '9' by {
      assert forall i :: 0 <= i < |pre| ==> (IsDigit(pre[i], 10) <==> '0' <= pre[i] <= '9');
    }
  }

  lemma CutAtColon(field: string) returns (pre: string, post: Option<string>)
    ensures pre == field[..Find(field, ':')] && Cut(field, pre, post)
  {
    var k := Find(field, ':');
    pre, post := field[..k], if k < |field| then Some(field[k + 1..]) else None;
    assert field == field[..k] + field[k..];
    assert k < |field| ==> field[k..] == ":" + field[k + 1..];
  }

  lemma {:induction false} UnnumberedAreAutomatic(fs: seq<string>)
    ensures Unnumbered(fs) == AutomaticCount(fs)
  {
    if fs != [] {
      var pre, post := CutAtColon(fs[0]);
      CutMeaning(fs[0], pre, post, 0);
      hide Find, Numeral, Positional, IndexText;
      UnnumberedAreAutomatic(fs[1..]);
    }
  }

  /** Field j, cut at its first colon, takes the argument named by the numeral before the colon,
      clamped to 64 bits, or else the one numbered by the unnumbered fields before it; what follows
      the colon is its specification. */
  lemma FieldMeaning(s: string, j: nat, pre: string, post: Option<string>)
    requires j < |Fields(s)| && Cut(Fields(s)[j], pre, post)
    ensures j < |Args(Reading(s, 0))|
    ensures Args(Reading(s, 0))[j] ==
            Arg(if !Numeral(pre) then Unnumbered(Fields(s)[..j])
                else if Read(pre, 10) < TWO64 then Read(pre, 10) else TWO64 - 1,
                match post case None => "" case Some(p) => p)
  {
    hide Fields, Args, Reading, FieldAtom, Numeral, AutomaticCount, Unnumbered, Cut, Read;
    FieldNumbering(s, 0, j);
    UnnumberedAreAutomatic(Fields(s)[..j]);
    CutMeaning(Fields(s)[j], pre, post, Unnumbered(Fields(s)[..j]));
  }

  lemma {:induction false} NoFieldsLeft(s: string, auto: nat)
    requires '}' !in s
    ensures Args(RuntimeReading(s, auto)) == []
    decreases |s|
  {
    hide Args, FieldAtom, NextAuto;
    if s == "" {
      NoArgs();
    } else if |s| > 1 && s[0] == s[1] && s[0] == '{' {
      NoFieldsLeft(s[2..], auto);
      ArgsOfChar(s[0], RuntimeReading(s[2..], auto));
    } else {
      assert s[0] == '{' ==> Find(s[1..], '}') == |s[1..]|;
      NoFieldsLeft(s[1..], auto);
      ArgsOfChar(s[0], RuntimeReading(s[1..], auto));
    }
  }

  function DropLast(r: seq<Atom>): (q: seq<Atom>)
  {
    if r == [] then [] else r[..|r| - 1]
  }

  /** At run time the fields are the same ones, without the last if it is left open. */
  lemma {:induction false} RuntimeFields(s: string, auto: nat)
    ensures Args(RuntimeReading(s, auto))
         == if Terminated(s) then Args(Reading(s, auto)) else DropLast(Args(Reading(s, auto)))
    ensures !Terminated(s) ==> Fields(s) != []
    decreases |s|
  {
    hide Args, FieldAtom, NextAuto, Terminated;
    if s == "" {
      EmptyTerminated();
    } else if |s| > 1 && s[0] == s[1] && (s[0] == '{' || s[0] == '}') {
      hide Find;
      TerminatedDoubled(s);
      RuntimeFields(s[2..], auto);
      ArgsOfChar(s[0], Reading(s[2..], auto));
      ArgsOfChar(s[0], RuntimeReading(s[2..], auto));
    } else if s[0] == '{' {
      TerminatedField(s);
      var k := Find(s[1..], '}');
      var field := s[1..][..k];
      FieldIsArg(field, auto);
      if k < |s[1..]| {
        var next := NextAuto(field, auto);
        hide Find;
        RuntimeFields(s[k + 2..], next);
        FieldCount(s[k + 2..], next);
        ArgsOfArg(FieldAtom(field, auto), Reading(s[k + 2..], next));
        ArgsOfArg(FieldAtom(field, auto), RuntimeReading(s[k + 2..], next));
      } else {
        assert s[1..][..k] == s[1..];
        hide Find;
        NoFieldsLeft(s[1..], auto);
        NoArgs();
        ArgsOfArg(FieldAtom(field, auto), []);
        ArgsOfChar('{', RuntimeReading(s[1..], auto));
      }
    } else {
      hide Find;
      TerminatedPlain(s);
      RuntimeFields(s[1..], auto);
      ArgsOfChar(s[0], Reading(s[1..], auto));
      ArgsOfChar(s[0], RuntimeReading(s[1..], auto));
    }
  }

  /** The same meaning at run time, for every field that is closed. */
  lemma RuntimeFieldMeaning(s: string, j: nat, pre: string, post: Option<string>)
    requires j + (if Terminated(s) then 0 else 1) < |Fields(s)| && Cut(Fields(s)[j], pre, post)
    ensures j < |Args(RuntimeReading(s, 0))|
    ensures Args(RuntimeReading(s, 0))[j] ==
            Arg(if !Numeral(pre) then Unnumbered(Fields(s)[..j])
                else if Read(pre, 10) < TWO64 then Read(pre, 10) else TWO64 - 1,
                match post case None => "" case Some(p) => p)
  {
    hide Fields, Args, Reading, RuntimeReading, Numeral, Unnumbered, Cut, Read, Terminated;
    FieldMeaning(s, j, pre, post);
    FieldCount(s, 0);
    RuntimeFields(s, 0);
  }

  // --- Counting -----------------------------------------------------------------------------------

  lemma {:induction false} FieldCount(s: string, auto: nat)
    ensures |Args(Reading(s, auto))| == |Fields(s)|
    decreases |s|
  {
    hide Args, Find, FieldAtom, NextAuto;
    if s == "" {
      NoArgs();
    } else if |s| > 1 && s[0] == s[1] && (s[0] == '{' || s[0] == '}') {
      ArgsOfChar(s[0], Reading(s[2..], auto));
      FieldCount(s[2..], auto);
    } else if s[0] == '{' {
      var k := Find(s[1..], '}');
      var field := s[1..][..k];
      FieldIsArg(field, auto);
      NoArgs();
      if k < |s[1..]| {
        FieldCount(s[k + 2..], NextAuto(field, auto));
        ArgsOfArg(FieldAtom(field, auto), Reading(s[k + 2..], NextAuto(field, auto)));
      } else {
        ArgsOfArg(FieldAtom(field, auto), []);
      }
    } else {
      ArgsOfChar(s[0], Reading(s[1..], auto));
      FieldCount(s[1..], auto);
    }
  }

  lemma NoArgs()
    ensures Args([]) == []
  {
  }

  // --- Literal text ----------------------------------------------------------------------------

  /** Every brace written twice. */
  function Doubled(t: string): (s: string)
  {
    if t == "" then ""
    else (if t[0] == '{' || t[0] == '}' then [t[0], t[0]] else [t[0]]) + Doubled(t[1..])
  }

  /** Doubling the braces of any text makes a format string that prints that text, on either path. */
  lemma {:induction false} DoubledIsLiteral(t: string, auto: nat)
    ensures Reading(Doubled(t), auto) == Chars(t)
    ensures RuntimeReading(Doubled(t), auto) == Chars(t)
  {
    var s := Doubled(t);
    if t != "" {
      DoubledIsLiteral(t[1..], auto);
      if t[0] == '{' || t[0] == '}' {
        assert s[2..] == Doubled(t[1..]);
      } else {
        assert s[1..] == Doubled(t[1..]);
      }
      assert Chars(t) == [Ch(t[0])] + Chars(t[1..]);
    }
  }

  lemma DoubledPrintsText(t: string, render: Renderer)
    ensures Rendered(Reading(Doubled(t), 0), render) == t
    ensures Rendered(RuntimeReading(Doubled(t), 0), render) == t
  {
    DoubledIsLiteral(t, 0);
    RenderedChars(t, render);
  }
}
