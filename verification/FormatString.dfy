/** Format strings: the one-pass compiler and the direct readings of the text that it and the
    run-time interpreter are measured against. */
module FormatString {
  import opened Words
  import opened Options
  import opened Digits
  import opened Search

  /** What a format string asks for: single characters and argument insertions. */
  datatype Atom = Ch(c: char) | Arg(index: nat, spec: string)

  const MAX_SIZE: nat := TWO64 - 1

  // --- Replacement fields ----------------------------------------------------------------------

  function Clamped(n: nat): (r: u64)
  {
    if n > MAX_SIZE then MAX_SIZE else n
  }

  /** A non-empty digit string is a positional index, clamped to the largest size. */
  function Positional(text: string): (r: Option<u64>)
  {
    if text == "" || !AllDigits(text, 10) then None else Some(Clamped(Read(text, 10)))
  }

  method ParsePositionalIndex(text: string) returns (ok: bool, index: u64)
    ensures ok == Positional(text).Some?
    ensures ok ==> index == Positional(text).value
  {
    index := 0;
    if text == "" {
      return false, 0;
    }
    for i := 0 to |text|
      invariant AllDigits(text[..i], 10) && index == Clamped(Read(text[..i], 10))
    {
      var c := text[i];
      if c < '0' || c > '9' {
        assert !IsDigit(text[i], 10);
        return false, 0;
      }
      var digit := c as int - '0' as int;
      assert text[..i + 1][..i] == text[..i];
      if index > (MAX_SIZE - digit) / 10 {
        index := MAX_SIZE;
      } else {
        index := index * 10 + digit;
      }
    }
    assert text[..|text|] == text;
    ok := true;
  }

  function IndexText(field: string): (s: string)
  {
    field[..Find(field, ':')]
  }

  function SpecText(field: string): (s: string)
  {
    if Find(field, ':') < |field| then field[Find(field, ':') + 1..] else ""
  }

  function ArgIndex(field: string, auto: nat): (i: nat)
  {
    match Positional(IndexText(field)) case Some(n) => n case None => auto
  }

  function NextAuto(field: string, auto: nat): (n: nat)
  {
    if Positional(IndexText(field)).Some? then auto else auto + 1
  }

  function FieldAtom(field: string, auto: nat): (a: Atom)
  {
    Arg(ArgIndex(field, auto), SpecText(field))
  }

  // --- The direct reading ----------------------------------------------------------------------

  /** Doubled braces are one brace, a lone closing brace is itself, a field runs to the first
      closing brace, and an unterminated field takes the rest. */
  function Reading(s: string, auto: nat): (r: seq<Atom>)
    decreases |s|
  {
    if s == "" then []
    else if s[0] == '{' && |s| > 1 && s[1] == '{' then [Ch('{')] + Reading(s[2..], auto)
    else if s[0] == '{' then
      var k := Find(s[1..], '}');
      var field := s[1..][..k];
      [FieldAtom(field, auto)]
      + if k < |s[1..]| then Reading(s[k + 2..], NextAuto(field, auto)) else []
    else if s[0] == '}' && |s| > 1 && s[1] == '}' then [Ch('}')] + Reading(s[2..], auto)
    else [Ch(s[0])] + Reading(s[1..], auto)
  }

  /** The interpreter's reading: the same, except that an unterminated opening brace is itself. */
  function RuntimeReading(s: string, auto: nat): (r: seq<Atom>)
    decreases |s|
  {
    if s == "" then []
    else if s[0] == '{' && |s| > 1 && s[1] == '{' then [Ch('{')] + RuntimeReading(s[2..], auto)
    else if s[0] == '{' then
      var k := Find(s[1..], '}');
      var field := s[1..][..k];
      if k < |s[1..]| then [FieldAtom(field, auto)] + RuntimeReading(s[k + 2..], NextAuto(field, auto))
      else [Ch('{')] + RuntimeReading(s[1..], auto)
    else if s[0] == '}' && |s| > 1 && s[1] == '}' then [Ch('}')] + RuntimeReading(s[2..], auto)
    else [Ch(s[0])] + RuntimeReading(s[1..], auto)
  }

  // --- The compiler ----------------------------------------------------------------------------

  datatype Piece = Piece(literal: string, spec: string, argIndex: nat, isArg: bool)

  function Chars(s: string): (r: seq<Atom>)
    ensures |r| == |s|
  {
    seq(|s|, i requires 0 <= i < |s| => Ch(s[i]))
  }

  function PieceAtoms(p: Piece): (r: seq<Atom>)
  {
    if p.isArg then [Arg(p.argIndex, p.spec)] else Chars(p.literal)
  }

  function Atoms(ps: seq<Piece>): (r: seq<Atom>)
  {
    if ps == [] then [] else Atoms(ps[..|ps| - 1]) + PieceAtoms(ps[|ps| - 1])
  }

  lemma AtomsAppend(ps: seq<Piece>, p: Piece)
    ensures Atoms(ps + [p]) == Atoms(ps) + PieceAtoms(p)
  {
    assert (ps + [p])[..|ps + [p]| - 1] == ps;
  }

  lemma CharsAppend(s: string, t: string)
    ensures Chars(s + t) == Chars(s) + Chars(t)
  {
  }

  method Push(pieces: array<Piece>, count: nat, p: Piece) returns (next: nat)
    requires count < pieces.Length
    modifies pieces
    ensures next == count + 1
    ensures pieces[..next] == old(pieces[..count]) + [p]
    ensures Atoms(pieces[..next]) == Atoms(old(pieces[..count])) + PieceAtoms(p)
  {
    pieces[count] := p;
    next := count + 1;
    AtomsAppend(old(pieces[..count]), p);
    assert pieces[..next] == old(pieces[..count]) + [p];
  }

  /** The literal text since lit_start becomes a piece when there is any. */
  method Flush(pieces: array<Piece>, count: nat, literal: string) returns (next: nat)
    requires count + (if literal == "" then 0 else 1) <= pieces.Length
    modifies pieces
    ensures next == count + if literal == "" then 0 else 1
    ensures Atoms(pieces[..next]) == Atoms(old(pieces[..count])) + Chars(literal)
  {
    next := count;
    if literal != "" {
      next := Push(pieces, count, Piece(literal, "", 0, false));
    }
  }

  /** What is still to come when the compiler stands at position i. */
  ghost function Remaining(s: string, litStart: nat, i: nat, auto: nat): (r: seq<Atom>)
  {
    if litStart <= i <= |s| then Chars(s[litStart..i]) + Reading(s[i..], auto) else []
  }

  lemma ReadPlain(t: string, auto: nat)
    requires t != "" && t[0] != '{' && !(t[0] == '}' && |t| > 1 && t[1] == '}')
    ensures Reading(t, auto) == [Ch(t[0])] + Reading(t[1..], auto)
  {
  }

  lemma ReadDoubled(t: string, auto: nat)
    requires |t| > 1 && t[0] == t[1] && (t[0] == '{' || t[0] == '}')
    ensures Reading(t, auto) == [Ch(t[0])] + Reading(t[2..], auto)
  {
  }

  lemma ReadField(t: string, auto: nat)
    requires t != "" && t[0] == '{' && !(|t| > 1 && t[1] == '{')
    ensures var k := Find(t[1..], '}');
            var field := t[1..][..k];
            Reading(t, auto) == [FieldAtom(field, auto)]
                                + if k < |t[1..]| then Reading(t[k + 2..], NextAuto(field, auto)) else []
  {
    hide FieldAtom, NextAuto, Find;
  }

  lemma PlainStep(s: string, litStart: nat, i: nat, auto: nat)
    requires litStart <= i < |s| && s[i] != '{' && !(s[i] == '}' && i + 1 < |s| && s[i + 1] == '}')
    ensures Remaining(s, litStart, i, auto) == Remaining(s, litStart, i + 1, auto)
  {
    hide Chars, Reading;
    ReadPlain(s[i..], auto);
    assert s[i..][1..] == s[i + 1..];
    assert s[litStart..i + 1] == s[litStart..i] + [s[i]];
    CharsAppend(s[litStart..i], [s[i]]);
    OneChar(s[i]);
  }

  lemma OneChar(c: char)
    ensures Chars([c]) == [Ch(c)] && Chars("") == []
  {
    assert [c][1..] == "";
  }

  lemma DoubledStep(s: string, litStart: nat, i: nat, auto: nat)
    requires litStart <= i && i + 1 < |s| && s[i] == s[i + 1] && (s[i] == '{' || s[i] == '}')
    ensures Remaining(s, litStart, i, auto) == Chars(s[litStart..i]) + [Ch(s[i])] + Remaining(s, i + 2, i + 2, auto)
  {
    hide Chars;
    assert s[i..][2..] == s[i + 2..];
    assert s[i + 2..i + 2] == "";
    OneChar(s[i]);
  }

  lemma FieldStep(s: string, litStart: nat, i: nat, auto: nat, end: nat)
    requires litStart <= i < |s| && s[i] == '{' && !(i + 1 < |s| && s[i + 1] == '{')
    requires end == i + 1 + Find(s[i + 1..], '}')
    ensures end <= |s|
    ensures Remaining(s, litStart, i, auto)
         == Chars(s[litStart..i]) + [FieldAtom(s[i + 1..end], auto)]
            + Remaining(s, end + 1, end + 1, NextAuto(s[i + 1..end], auto))
  {
    hide Chars, FieldAtom, NextAuto, Reading, Find, Remaining;
    FieldRead(s, i, auto, end);
    var field := s[i + 1..end];
    var next := NextAuto(field, auto);
    RemainingParts(s, litStart, i, auto);
    RemainingAt(s, end + 1, next);
    Regroup(Chars(s[litStart..i]), [FieldAtom(field, auto)], Remaining(s, end + 1, end + 1, next));
  }

  lemma Regroup(a: seq<Atom>, b: seq<Atom>, c: seq<Atom>)
    ensures a + (b + c) == a + b + c
  {
  }

  lemma RemainingParts(s: string, litStart: nat, i: nat, auto: nat)
    requires litStart <= i <= |s|
    ensures Remaining(s, litStart, i, auto) == Chars(s[litStart..i]) + Reading(s[i..], auto)
  {
    hide Chars, Reading;
  }

  lemma RemainingAt(s: string, i: nat, auto: nat)
    ensures Remaining(s, i, i, auto) == if i <= |s| then Reading(s[i..], auto) else []
  {
    hide Reading;
    if i <= |s| {
      assert s[i..i] == "" && Chars("") == [];
    }
  }

  /** The reading at the start of a field. */
  lemma FieldRead(s: string, i: nat, auto: nat, end: nat)
    requires i < |s| && s[i] == '{' && !(i + 1 < |s| && s[i + 1] == '{')
    requires end == i + 1 + Find(s[i + 1..], '}')
    ensures end <= |s|
    ensures Reading(s[i..], auto)
         == [FieldAtom(s[i + 1..end], auto)]
            + if end < |s| then Reading(s[end + 1..], NextAuto(s[i + 1..end], auto)) else []
  {
    hide FieldAtom, NextAuto, Find;
    var t := s[i..];
    ReadField(t, auto);
    hide Reading;
    assert t[1..] == s[i + 1..];
    var k := Find(t[1..], '}');
    assert t[1..][..k] == s[i + 1..end];
    if end < |s| {
      assert t[k + 2..] == s[end + 1..];
    }
  }

  /** The end of a field: the first closing brace, or the end of the string. */
  method FindClose(s: string, start: nat) returns (end: nat)
    requires start <= |s|
    ensures end == start + Find(s[start..], '}')
  {
    end := start;
    while end < |s| && s[end] != '}'
      invariant start <= end <= |s|
      invariant start + Find(s[start..], '}') == end + Find(s[end..], '}')
    {
      assert s[end..][1..] == s[end + 1..];
      end := end + 1;
    }
  }

  /** Splits a replacement field at its colon and numbers it. */
  method ParseField(replacement: string, argIdx: nat) returns (piece: Piece, nextIdx: nat)
    ensures piece.isArg && PieceAtoms(piece) == [FieldAtom(replacement, argIdx)]
    ensures nextIdx == NextAuto(replacement, argIdx)
  {
    var colon := Find(replacement, ':');
    var index := if colon == |replacement| then replacement else replacement[..colon];
    var spec := if colon == |replacement| then "" else replacement[colon + 1..];
    assert index == IndexText(replacement);
    var ok, n := ParsePositionalIndex(index);
    var pieceArgIndex: nat := if ok then n else argIdx;
    nextIdx := if ok then argIdx else argIdx + 1;
    piece := Piece("", spec, pieceArgIndex, true);
  }

  /** A doubled brace at i: the pending literal, then one brace as a literal of its own. */
  method CompileDoubled(str: string, litStart: nat, i: nat, ghost auto: nat, pieces: array<Piece>, count: nat)
    returns (next: nat)
    requires litStart <= i && i + 1 < |str| && str[i] == str[i + 1] && (str[i] == '{' || str[i] == '}')
    requires count + 2 <= pieces.Length
    modifies pieces
    ensures next == count + (if litStart < i then 2 else 1)
    ensures Atoms(pieces[..next]) + Remaining(str, i + 2, i + 2, auto)
         == Atoms(old(pieces[..count])) + Remaining(str, litStart, i, auto)
  {
    hide Reading, Atoms, Chars, PieceAtoms, Remaining;
    DoubledStep(str, litStart, i, auto);
    next := Flush(pieces, count, str[litStart..i]);
    next := Push(pieces, next, Piece(str[i..i + 1], "", 0, false));
    LiteralAtoms(str[i]);
    assert str[i..i + 1] == [str[i]];
  }

  /** A replacement field at i: the pending literal, then the argument. */
  method CompileField(str: string, litStart: nat, i: nat, auto: nat, pieces: array<Piece>, count: nat)
    returns (end: nat, nextAuto: nat, next: nat)
    requires litStart <= i < |str| && str[i] == '{' && !(i + 1 < |str| && str[i + 1] == '{')
    requires count + (if litStart < i then 2 else 1) <= pieces.Length
    modifies pieces
    ensures i < end <= |str| && next == count + (if litStart < i then 2 else 1)
    ensures Atoms(pieces[..next]) + Remaining(str, end + 1, end + 1, nextAuto)
         == Atoms(old(pieces[..count])) + Remaining(str, litStart, i, auto)
  {
    hide Reading, Atoms, Chars, PieceAtoms, FieldAtom, NextAuto, Find, Remaining;
    next := Flush(pieces, count, str[litStart..i]);
    end := FindClose(str, i + 1);
    FieldStep(str, litStart, i, auto, end);
    var piece;
    piece, nextAuto := ParseField(str[i + 1..end], auto);
    next := Push(pieces, next, piece);
  }

  /** The compiled pieces fit the array of size + 1, at most size of them are used, and they mean
      exactly the direct reading of the string. */
  method Compile(str: string) returns (pieces: array<Piece>, count: nat)
    ensures fresh(pieces) && pieces.Length == |str| + 1 && count <= |str|
    ensures Atoms(pieces[..count]) == Reading(str, 0)
  {
    hide Reading, Atoms, PieceAtoms, Remaining;
    pieces := new Piece[|str| + 1];
    count := 0;
    var argIdx, litStart, i := 0, 0, 0;
    StartReading(str);
    assert pieces[..0] == [];
    while i < |str|
      invariant litStart <= i <= |str| + 1 && (i == |str| + 1 ==> litStart == i)
      invariant count + (if litStart < i then 1 else 0) <= i && count <= |str|
      invariant Atoms(pieces[..count]) + Remaining(str, litStart, i, argIdx) == Reading(str, 0)
    {
      if i + 1 < |str| && str[i + 1] == str[i] && (str[i] == '{' || str[i] == '}') {
        count := CompileDoubled(str, litStart, i, argIdx, pieces, count);
        i := i + 2;
        litStart := i;
      } else if str[i] == '{' {
        var end;
        end, argIdx, count := CompileField(str, litStart, i, argIdx, pieces, count);
        i := end + 1;
        litStart := i;
      } else {
        PlainStep(str, litStart, i, argIdx);
        i := i + 1;
      }
    }
    EndReading(str, litStart, i, argIdx);
    if litStart < |str| {
      count := Push(pieces, count, Piece(str[litStart..], "", 0, false));
    }
  }

  lemma StartReading(s: string)
    ensures Atoms([]) == [] && Remaining(s, 0, 0, 0) == Reading(s, 0)
  {
    assert s[0..0] == "" && s[0..] == s;
  }

  lemma LiteralAtoms(c: char)
    ensures PieceAtoms(Piece([c], "", 0, false)) == [Ch(c)]
  {
    OneChar(c);
  }

  lemma EndReading(s: string, litStart: nat, i: nat, auto: nat)
    requires litStart <= i && |s| <= i <= |s| + 1 && (i == |s| + 1 ==> litStart == i)
    ensures Remaining(s, litStart, i, auto)
         == if litStart < |s| then PieceAtoms(Piece(s[litStart..], "", 0, false)) else []
  {
    if i == |s| {
      assert s[i..] == "" && s[litStart..i] == s[litStart..];
    }
  }
}
