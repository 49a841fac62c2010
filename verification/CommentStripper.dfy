/** Removing C++ comments from a text by searching for the next opener or closer. */
module CommentStripper {
  import opened Digits
  import opened Search

  // --- A three-state automaton --------------------------------------------------------------------

  datatype State = Code | Line | Block

  predicate Starts(s: string, a: char, b: char)
  {
    |s| >= 2 && s[0] == a && s[1] == b
  }

  predicate Opens(s: string)
  {
    Starts(s, '/', '/') || Starts(s, '/', '*')
  }

  function Blank(c: char): (b: char)
  {
    if c == '\n' then c else ' '
  }

  /** Code is kept, openers and line comments are dropped, block comments are blanked up to and with
      their closer; a newline survives everywhere. */
  function Stripped(s: string, state: State): (t: string)
    decreases |s|
  {
    if s == "" then ""
    else match state
      case Code =>
        if Starts(s, '/', '/') then Stripped(s[2..], Line)
        else if Starts(s, '/', '*') then Stripped(s[2..], Block)
        else [s[0]] + Stripped(s[1..], Code)
      case Line =>
        if s[0] == '\n' then "\n" + Stripped(s[1..], Code) else Stripped(s[1..], Line)
      case Block =>
        if Starts(s, '*', '/') then "  " + Stripped(s[2..], Code)
        else [Blank(s[0])] + Stripped(s[1..], Block)
  }

  /** The state after a text without newline, carried over to the next line. */
  function Carried(s: string, state: State): (next: State)
    decreases |s|
  {
    if s == "" then (if state == Block then Block else Code)
    else match state
      case Code =>
        if Starts(s, '/', '/') then Carried(s[2..], Line)
        else if Starts(s, '/', '*') then Carried(s[2..], Block)
        else Carried(s[1..], Code)
      case Line => Carried(s[1..], Line)
      case Block => if Starts(s, '*', '/') then Carried(s[2..], Code) else Carried(s[1..], Block)
  }

  // --- Its rounds ---------------------------------------------------------------------------------

  /** What becomes of a character of a line: code is copied, the inside of a block comment and its
      closer are blanked, block openers go, line comments go with their opener. */
  datatype Role = Copied | Erased | BlockOpener | LineComment

  predicate Kept(r: Role)
  {
    r == Copied || r == Erased
  }

  /** The characters that the automaton reads at once, their role, and the state after them. */
  datatype Round = Round(width: nat, role: Role, next: State)

  function FirstRound(s: string, state: State): (r: Round)
    requires s != ""
    ensures 1 <= r.width <= |s|
  {
    match state
    case Code =>
      if Starts(s, '/', '/') then Round(2, LineComment, Line)
      else if Starts(s, '/', '*') then Round(2, BlockOpener, Block)
      else Round(1, Copied, Code)
    case Line => Round(1, LineComment, Line)
    case Block => if Starts(s, '*', '/') then Round(2, Erased, Code) else Round(1, Erased, Block)
  }

  /** What a round writes. */
  function Emitted(s: string, r: Role): (t: string)
    ensures |t| == if Kept(r) then |s| else 0
  {
    match r
    case Copied => s
    case Erased => Repeated(' ', |s|)
    case _ => ""
  }

  lemma StrippedRound(s: string, state: State)
    requires s != "" && s[0] != '\n'
    ensures var r := FirstRound(s, state);
            Stripped(s, state) == Emitted(s[..r.width], r.role) + Stripped(s[r.width..], r.next)
  {
    assert s[..1] == [s[0]];
    assert Repeated(' ', 1) == " " && Repeated(' ', 2) == "  ";
  }

  // --- The search-based stripper ------------------------------------------------------------------

  predicate Matches(text: string, pattern: string, k: nat)
  {
    k <= |text| && pattern <= text[k..]
  }

  /** str.find from a position: the first match, or -1. */
  function FindFrom(text: string, pattern: string, i: nat): (r: int)
    ensures r == -1 ==> forall k: nat :: k >= i ==> !Matches(text, pattern, k)
    ensures r != -1 ==> r >= i && Matches(text, pattern, r)
    ensures forall k: nat :: i <= k < r ==> !Matches(text, pattern, k)
    decreases if i <= |text| then |text| - i + 1 else 0
  {
    if i > |text| then -1 else if Matches(text, pattern, i) then i else FindFrom(text, pattern, i + 1)
  }

  function Blanked(s: string): (t: string)
    ensures |t| == |s| && forall i :: 0 <= i < |s| ==> t[i] == Blank(s[i])
  {
    seq(|s|, i requires 0 <= i < |s| => Blank(s[i]))
  }

  lemma {:induction false} CodeUpTo(s: string, k: nat)
    requires k <= |s| && forall j :: 0 <= j < k ==> !Opens(s[j..])
    ensures Stripped(s, Code) == s[..k] + Stripped(s[k..], Code)
    decreases k
  {
    if k == 0 {
      assert s[0..] == s;
    } else {
      assert s[0..] == s;
      forall j | 0 <= j < k - 1 ensures !Opens(s[1..][j..]) {
        assert s[1..][j..] == s[j + 1..];
      }
      CodeUpTo(s[1..], k - 1);
      assert s[1..][k - 1..] == s[k..];
      assert s[..k] == [s[0]] + s[1..][..k - 1];
    }
  }

  lemma {:induction false} LineUpTo(s: string, k: nat)
    requires k <= |s| && '\n' !in s[..k]
    ensures Stripped(s, Line) == Stripped(s[k..], Line)
    decreases k
  {
    if k == 0 {
      assert s[0..] == s;
    } else {
      assert s[..k][0] == s[0] && s[1..][..k - 1] == s[..k][1..];
      LineUpTo(s[1..], k - 1);
      assert s[1..][k - 1..] == s[k..];
    }
  }

  lemma {:induction false} BlockUpTo(s: string, k: nat)
    requires k <= |s| && forall j :: 0 <= j < k ==> !Starts(s[j..], '*', '/')
    ensures Stripped(s, Block) == Blanked(s[..k]) + Stripped(s[k..], Block)
    decreases k
  {
    if k == 0 {
      assert s[0..] == s;
    } else {
      assert s[0..] == s;
      forall j | 0 <= j < k - 1 ensures !Starts(s[1..][j..], '*', '/') {
        assert s[1..][j..] == s[j + 1..];
      }
      BlockUpTo(s[1..], k - 1);
      assert s[1..][k - 1..] == s[k..];
      assert Blanked(s[..k]) == [Blank(s[0])] + Blanked(s[1..][..k - 1]);
    }
  }

  lemma BlockCloses(text: string, i: nat, end: nat)
    requires i <= end <= |text| && Starts(text[end..], '*', '/')
    ensures Blanked(text[i..end]) + Stripped(text[end..], Block)
         == Blanked(text[i..end + 2]) + Stripped(text[end + 2..], Code)
  {
    assert text[end..][2..] == text[end + 2..];
    assert text[end..][0] == text[end] && text[end..][1] == text[end + 1];
    assert Blanked(text[i..end + 2]) == Blanked(text[i..end]) + "  ";
  }

  method BlockStep(text: string, i: nat) returns (part: string, next: nat, inBlock: bool)
    requires i < |text|
    ensures i < next <= |text|
    ensures Stripped(text[i..], Block) == part + Stripped(text[next..], if inBlock then Block else Code)
  {
    hide FindFrom, Matches, Stripped, Blanked;
    var end := FindFrom(text, "*/", i);
    if end == -1 {
      NoCloser(text, i, |text|);
      assert text[i..|text|] == text[i..];
      return Blanked(text[i..]), |text|, true;
    }
    PairMatches(text, '*', '/', end);
    NoCloser(text, i, end);
    BlockCloses(text, i, end);
    return Blanked(text[i..end + 2]), end + 2, false;
  }

  lemma NoCloser(text: string, i: nat, end: nat)
    requires i <= end <= |text| && forall k: nat :: i <= k < end ==> !Matches(text, "*/", k)
    ensures Stripped(text[i..], Block) == Blanked(text[i..end]) + Stripped(text[end..], Block)
  {
    hide Stripped, Matches, Blanked;
    var rest := text[i..];
    forall j | 0 <= j < end - i ensures !Starts(rest[j..], '*', '/') {
      assert rest[j..] == text[i + j..];
      PairMatches(text, '*', '/', i + j);
    }
    BlockUpTo(rest, end - i);
    assert rest[..end - i] == text[i..end] && rest[end - i..] == text[end..];
  }

  method StripComments(text: string) returns (out: string)
    ensures out == Stripped(text, Code)
  {
    hide Stripped;
    out := "";
    var i := 0;
    var inBlock := false;
    assert text[0..] == text;
    while i < |text|
      invariant i <= |text|
      invariant out + Stripped(text[i..], if inBlock then Block else Code) == Stripped(text, Code)
      decreases |text| - i
    {
      var part;
      if inBlock {
        part, i, inBlock := BlockStep(text, i);
      } else {
        part, i, inBlock := CodeStep(text, i);
      }
      out := out + part;
    }
    NothingLeft(if inBlock then Block else Code);
    assert text[i..] == "";
  }

  lemma PairMatches(text: string, a: char, b: char, k: nat)
    ensures Matches(text, [a, b], k) <==> k <= |text| && Starts(text[k..], a, b)
  {
    if k <= |text| && Starts(text[k..], a, b) {
      assert text[k..] == [a, b] + text[k..][2..];
    }
  }

  lemma NewlineMatches(text: string, k: nat)
    ensures Matches(text, "\n", k) <==> k < |text| && text[k] == '\n'
  {
    if k < |text| && text[k] == '\n' {
      assert text[k..] == "\n" + text[k..][1..];
    }
  }

  lemma NothingLeft(state: State)
    ensures Stripped("", state) == ""
  {
  }

  method CodeStep(text: string, i: nat) returns (part: string, next: nat, inBlock: bool)
    requires i < |text|
    ensures i < next <= |text|
    ensures Stripped(text[i..], Code) == part + Stripped(text[next..], if inBlock then Block else Code)
  {
    hide FindFrom, Matches, Stripped;
    var lineStart := FindFrom(text, "//", i);
    var blockStart := FindFrom(text, "/*", i);
    if lineStart == -1 && blockStart == -1 {
      NoOpener(text, i, |text|);
      NothingLeft(Code);
      assert text[|text|..] == "";
      return text[i..], |text|, false;
    }
    if blockStart != -1 && (lineStart == -1 || blockStart < lineStart) {
      PairMatches(text, '/', '*', blockStart);
      NoOpener(text, i, blockStart);
      BlockOpens(text, blockStart);
      return text[i..blockStart], blockStart + 2, true;
    }
    PairMatches(text, '/', '/', lineStart);
    NoOpener(text, i, lineStart);
    var newline := FindFrom(text, "\n", lineStart);
    LineDropped(text, i, lineStart, newline);
    if newline == -1 {
      return text[i..lineStart], |text|, false;
    }
    return text[i..lineStart] + text[newline..newline + 1], newline + 1, false;
  }

  lemma LineDropped(text: string, i: nat, start: nat, newline: int)
    requires i <= start <= |text| && Starts(text[start..], '/', '/') && newline == FindFrom(text, "\n", start)
    requires Stripped(text[i..], Code) == text[i..start] + Stripped(text[start..], Code)
    ensures newline == -1 ==> Stripped(text[i..], Code) == text[i..start] + Stripped(text[|text|..], Code)
    ensures newline != -1 ==> newline < |text|
    ensures newline != -1 ==>
              (Stripped(text[i..], Code)
               == text[i..start] + text[newline..newline + 1] + Stripped(text[newline + 1..], Code))
  {
    hide FindFrom, Stripped, Starts;
    LineOpens(text, start);
    LineEnds(text, start, newline);
    NothingLeft(Code);
    assert text[|text|..] == "";
  }

  lemma BlockOpens(text: string, k: nat)
    requires k <= |text| && Starts(text[k..], '/', '*')
    ensures Stripped(text[k..], Code) == Stripped(text[k + 2..], Block)
  {
    assert text[k..][2..] == text[k + 2..];
  }

  lemma LineOpens(text: string, k: nat)
    requires k <= |text| && Starts(text[k..], '/', '/')
    ensures Stripped(text[k..], Code) == Stripped(text[k + 2..], Line)
  {
    assert text[k..][2..] == text[k + 2..];
  }

  lemma NoOpener(text: string, i: nat, end: nat)
    requires i <= end <= |text|
    requires forall k: nat :: i <= k < end ==> !Matches(text, "//", k) && !Matches(text, "/*", k)
    ensures Stripped(text[i..], Code) == text[i..end] + Stripped(text[end..], Code)
  {
    hide Stripped, Matches;
    var rest := text[i..];
    forall j | 0 <= j < end - i ensures !Opens(rest[j..]) {
      assert rest[j..] == text[i + j..];
      PairMatches(text, '/', '/', i + j);
      PairMatches(text, '/', '*', i + j);
    }
    CodeUpTo(rest, end - i);
    assert rest[..end - i] == text[i..end] && rest[end - i..] == text[end..];
  }

  /** Where a line comment ends, by the search. */
  lemma LineEnds(text: string, start: nat, newline: int)
    requires start <= |text| && Starts(text[start..], '/', '/') && newline == FindFrom(text, "\n", start)
    ensures newline == -1 ==> Stripped(text[start + 2..], Line) == ""
    ensures newline != -1 ==> newline < |text|
    ensures newline != -1 ==>
              Stripped(text[start + 2..], Line) == text[newline..newline + 1] + Stripped(text[newline + 1..], Code)
  {
    hide Stripped, FindFrom, Matches;
    var rest := text[start + 2..];
    var end := if newline == -1 then |text| else newline;
    forall k: nat | start <= k < end ensures k < |text| ==> text[k] != '\n' {
      NewlineMatches(text, k);
    }
    if newline != -1 {
      NewlineMatches(text, newline);
    }
    assert text[start..][0] == text[start] && text[start..][1] == text[start + 1];
    assert end >= start + 2;
    LineUpTo(rest, end - start - 2);
    assert rest[end - start - 2..] == text[end..];
    if newline == -1 {
      NothingLeft(Line);
      assert text[end..] == "";
    } else {
      LineCloses(text, newline);
    }
  }

  lemma LineCloses(text: string, k: nat)
    requires k < |text| && text[k] == '\n'
    ensures Stripped(text[k..], Line) == text[k..k + 1] + Stripped(text[k + 1..], Code)
  {
    assert text[k..][1..] == text[k + 1..];
  }

  // --- What becomes of each kind of comment ----------------------------------------------------------

  predicate OpensAt(s: string, k: nat)
  {
    k + 1 < |s| && s[k] == '/' && (s[k + 1] == '/' || s[k + 1] == '*')
  }

  predicate ClosesAt(s: string, k: nat)
  {
    k + 1 < |s| && s[k] == '*' && s[k + 1] == '/'
  }

  /** Text before the first opener is kept. */
  lemma BeforeOpener(s: string, n: nat)
    requires n <= |s| && forall k: nat :: k < n ==> !OpensAt(s, k)
    ensures Stripped(s, Code) == s[..n] + Stripped(s[n..], Code)
  {
    hide Stripped;
    forall j | 0 <= j < n ensures !Opens(s[j..]) {
      assert !OpensAt(s, j);
    }
    CodeUpTo(s, n);
  }

  /** A text without comments is itself. */
  lemma NoComment(s: string)
    requires forall k: nat :: !OpensAt(s, k)
    ensures Stripped(s, Code) == s
  {
    BeforeOpener(s, |s|);
    NothingLeft(Code);
    assert s[|s|..] == "" && s[..|s|] == s;
  }

  /** A line comment goes, up to the newline or the end. */
  lemma LineCommentGoes(a: string, b: string, rest: string)
    requires '\n' !in b && (rest == "" || rest[0] == '\n')
    requires forall k: nat :: k < |a| ==> !OpensAt(a + "//" + b + rest, k)
    ensures Stripped(a + "//" + b + rest, Code) == a + Stripped(rest, Code)
  {
    hide Stripped;
    var s, n := a + "//" + b + rest, |a|;
    BeforeOpener(s, n);
    assert s[..n] == a && s[n] == '/' && s[n + 1] == '/' && s[n + 2..] == b + rest;
    LineOpens(s, n);
    LineUpTo(b + rest, |b|);
    assert (b + rest)[..|b|] == b && (b + rest)[|b|..] == rest;
    NewlineEnds(rest);
  }

  lemma NewlineEnds(rest: string)
    requires rest == "" || rest[0] == '\n'
    ensures Stripped(rest, Line) == Stripped(rest, Code)
  {
  }

  function Blanks(b: string): (r: string)
    ensures |r| == |b| && forall i :: 0 <= i < |b| ==> r[i] == if b[i] == '\n' then '\n' else ' '
  {
    seq(|b|, i requires 0 <= i < |b| => if b[i] == '\n' then '\n' else ' ')
  }

  lemma CommentText(b: string, rest: string)
    requires forall k: nat :: k < |b| ==> !ClosesAt(b + rest, k)
    ensures Stripped(b + rest, Block) == Blanks(b) + Stripped(rest, Block)
  {
    hide Stripped;
    var s := b + rest;
    forall j | 0 <= j < |b| ensures !Starts(s[j..], '*', '/') {
      assert !ClosesAt(s, j);
    }
    BlockUpTo(s, |b|);
    assert s[..|b|] == b && s[|b|..] == rest && Blanked(b) == Blanks(b);
  }

  /** A block comment loses its opener; its text and its closer become blanks, newlines stay. */
  lemma BlockCommentBlanked(a: string, b: string, rest: string)
    requires forall k: nat :: k < |a| ==> !OpensAt(a + "/*" + b + "*/" + rest, k)
    requires forall k: nat :: k < |b| ==> !ClosesAt(b + "*/" + rest, k)
    ensures Stripped(a + "/*" + b + "*/" + rest, Code) == a + Blanks(b) + "  " + Stripped(rest, Code)
  {
    var s, n := a + "/*" + b + "*/" + rest, |a|;
    BeforeOpener(s, n);
    var inner := b + ("*/" + rest);
    assert b + "*/" + rest == inner;
    assert s[..n] == a && s[n] == '/' && s[n + 1] == '*' && s[n + 2..] == inner;
    BlockOpens(s, n);
    CommentText(b, "*/" + rest);
    CloserBlanked(rest);
    hide Stripped;
    var x, y := Blanks(b), Stripped(rest, Code);
    assert a + (x + ("  " + y)) == a + x + "  " + y;
  }

  lemma CloserBlanked(rest: string)
    ensures Stripped("*/" + rest, Block) == "  " + Stripped(rest, Code)
  {
    assert ("*/" + rest)[2..] == rest;
  }

  /** A block comment that is never closed is blanked to the end. */
  lemma OpenCommentBlanked(a: string, b: string)
    requires forall k: nat :: k < |a| ==> !OpensAt(a + "/*" + b, k)
    requires forall k: nat :: !ClosesAt(b, k)
    ensures Stripped(a + "/*" + b, Code) == a + Blanks(b)
  {
    var s, n := a + "/*" + b, |a|;
    BeforeOpener(s, n);
    assert s[..n] == a && s[n] == '/' && s[n + 1] == '*' && s[n + 2..] == b;
    BlockOpens(s, n);
    assert b + "" == b;
    CommentText(b, "");
    NothingLeft(Block);
  }

  // --- Lines --------------------------------------------------------------------------------------

  /** The text cut at its newlines. */
  function Lines(s: string): (ls: seq<string>)
    ensures |ls| >= 1
  {
    if s == "" then [""]
    else
      var rest := Lines(s[1..]);
      if s[0] == '\n' then [""] + rest else [[s[0]] + rest[0]] + rest[1..]
  }

  /** Each line stripped on its own, the state carried from line to line. */
  function StrippedLines(ls: seq<string>, state: State): (r: seq<string>)
    ensures |r| == |ls|
  {
    if ls == [] then [] else [Stripped(ls[0], state)] + StrippedLines(ls[1..], Carried(ls[0], state))
  }

  lemma {:induction false} LinesJoin(a: string, b: string)
    requires '\n' !in a
    ensures Lines(a + "\n" + b) == [a] + Lines(b)
  {
    var s := a + "\n" + b;
    if a == "" {
      assert s[1..] == b;
    } else {
      LinesJoin(a[1..], b);
      assert s[1..] == a[1..] + "\n" + b;
      assert [a[0]] + a[1..] == a;
    }
  }

  lemma {:induction false} LinesSingle(a: string)
    requires '\n' !in a
    ensures Lines(a) == [a]
  {
    if a != "" {
      LinesSingle(a[1..]);
      assert [a[0]] + a[1..] == a;
    }
  }

  /** A line strips to a line. */
  lemma {:induction false} StrippedLine(a: string, state: State)
    requires '\n' !in a
    ensures '\n' !in Stripped(a, state)
    decreases |a|
  {
    hide Stripped, FirstRound;
    if a == "" {
      NothingLeft(state);
    } else {
      var r := FirstRound(a, state);
      StrippedRound(a, state);
      StrippedLine(a[r.width..], r.next);
    }
  }

  /** Stripping past a newline starts afresh in the carried state. */
  lemma {:induction false} StrippedSplit(a: string, b: string, state: State)
    requires '\n' !in a
    ensures Stripped(a + "\n" + b, state) == Stripped(a, state) + "\n" + Stripped(b, Carried(a, state))
    decreases |a|
  {
    hide Stripped, FirstRound, Carried, Emitted;
    if a == "" {
      NewlineFirst(b, state);
      assert a + "\n" + b == "\n" + b;
    } else {
      var r := FirstRound(a, state);
      var head, tail := Emitted(a[..r.width], r.role), Stripped(a[r.width..], r.next);
      StrippedSplit(a[r.width..], b, r.next);
      SameRound(a, b, state);
      StrippedRound(a, state);
      StrippedRound(a + "\n" + b, state);
      var more := "\n" + Stripped(b, Carried(a, state));
      assert head + (tail + more) == head + tail + more;
    }
  }

  lemma NewlineFirst(b: string, state: State)
    ensures Stripped("\n" + b, state) == "\n" + Stripped(b, Carried("", state)) && Stripped("", state) == ""
  {
    assert ("\n" + b)[1..] == b;
  }

  /** A round does not look beyond the newline. */
  lemma SameRound(a: string, b: string, state: State)
    requires a != ""
    ensures FirstRound(a + "\n" + b, state) == FirstRound(a, state)
    ensures var r := FirstRound(a, state);
            Carried(a, state) == Carried(a[r.width..], r.next)
            && (a + "\n" + b)[..r.width] == a[..r.width] && (a + "\n" + b)[r.width..] == a[r.width..] + "\n" + b
  {
    SameStart(a, b, '/', '/');
    SameStart(a, b, '/', '*');
    SameStart(a, b, '*', '/');
    CarriedRound(a, state);
    hide Starts, Carried;
    var n := FirstRound(a, state).width;
    hide FirstRound;
    assert (a + "\n" + b)[..n] == a[..n];
    assert (a + "\n" + b)[n..] == a[n..] + "\n" + b;
  }

  lemma SameStart(a: string, b: string, x: char, y: char)
    requires a != "" && y != '\n'
    ensures Starts(a + "\n" + b, x, y) == Starts(a, x, y)
  {
    var s := a + "\n" + b;
    assert s[0] == a[0] && s[1] == if |a| == 1 then '\n' else a[1];
  }

  lemma CarriedRound(a: string, state: State)
    requires a != ""
    ensures var r := FirstRound(a, state); Carried(a, state) == Carried(a[r.width..], r.next)
  {
  }

  /** Line k of the output is line k of the input, stripped in the state its predecessors leave. */
  lemma {:induction false} LinesStripped(s: string, state: State)
    ensures Lines(Stripped(s, state)) == StrippedLines(Lines(s), state)
    decreases |s|
  {
    hide Stripped, Carried, Lines;
    var k := Find(s, '\n');
    var a := s[..k];
    StrippedLine(a, state);
    if k == |s| {
      assert a == s;
      LinesSingle(s);
      LinesSingle(Stripped(s, state));
      assert [s][1..] == [];
    } else {
      var b := s[k + 1..];
      assert s == a + "\n" + b;
      StrippedSplit(a, b, state);
      LinesJoin(a, b);
      LinesJoin(Stripped(a, state), Stripped(b, Carried(a, state)));
      LinesStripped(b, Carried(a, state));
      assert ([a] + Lines(b))[1..] == Lines(b);
    }
  }

  lemma {:induction false} NeverLonger(s: string, state: State)
    ensures |Stripped(s, state)| <= |s|
    decreases |s|
  {
    hide Stripped, FirstRound;
    if s == "" {
      NothingLeft(state);
    } else if s[0] == '\n' {
      assert "\n" + s[1..] == s;
      NewlineFirst(s[1..], state);
      hide Carried;
      NeverLonger(s[1..], Carried("", state));
    } else {
      var r := FirstRound(s, state);
      StrippedRound(s, state);
      NeverLonger(s[r.width..], r.next);
    }
  }

  /** Any opener shortens the output; without one, nothing changes. */
  lemma {:induction false} LengthKept(s: string)
    ensures |Stripped(s, Code)| == |s| <==> forall k :: 0 <= k < |s| ==> !Opens(s[k..])
    ensures |Stripped(s, Code)| == |s| ==> Stripped(s, Code) == s
    decreases |s|
  {
    if s != "" {
      assert s[0..] == s;
      if Opens(s) {
        NeverLonger(s[2..], Line);
        NeverLonger(s[2..], Block);
      } else {
        LengthKept(s[1..]);
        OpenersBelow(s);
        assert [s[0]] + s[1..] == s;
      }
    }
  }

  lemma OpenersBelow(s: string)
    requires s != "" && !Opens(s)
    ensures (forall k :: 0 <= k < |s| ==> !Opens(s[k..])) <==> (forall k :: 0 <= k < |s[1..]| ==> !Opens(s[1..][k..]))
  {
    assert s[0..] == s;
    forall k | 0 <= k < |s[1..]| ensures s[1..][k..] == s[k + 1..] {
    }
    if forall k :: 0 <= k < |s[1..]| ==> !Opens(s[1..][k..]) {
      forall k | 0 <= k < |s| ensures !Opens(s[k..]) {
        assert k > 0 ==> s[1..][k - 1..] == s[k..];
      }
    }
  }
}
