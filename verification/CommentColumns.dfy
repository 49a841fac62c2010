/** Where stripping comments leaves the code of a line: each kept character's column in the output,
    and exactly when it is the column in the input. */
module CommentColumns {
  import opened Digits
  import opened CommentStripper

  function Roles(s: string, state: State): (rs: seq<Role>)
    ensures |rs| == |s|
    decreases |s|
  {
    if s == "" then []
    else
      var r := FirstRound(s, state);
      Repeated(r.role, r.width) + Roles(s[r.width..], r.next)
  }

  /** The output column of what comes after characters with these roles. */
  function Column(rs: seq<Role>): (c: nat)
  {
    if rs == [] then 0 else Column(rs[..|rs| - 1]) + if Kept(rs[|rs| - 1]) then 1 else 0
  }

  lemma {:induction false} ColumnAppend(a: seq<Role>, b: seq<Role>)
    ensures Column(a + b) == Column(a) + Column(b)
    decreases |b|
  {
    if b == [] {
      assert a + b == a;
    } else {
      var n := |b| - 1;
      ColumnAppend(a, b[..n]);
      assert (a + b)[..|a| + n] == a + b[..n];
    }
  }

  lemma {:induction false} ColumnUniform(r: Role, n: nat)
    ensures Column(Repeated(r, n)) == if Kept(r) then n else 0
  {
    if n > 0 {
      ColumnUniform(r, n - 1);
      assert Repeated(r, n)[..n - 1] == Repeated(r, n - 1);
    }
  }

  /** Where the k-th character of a line stands in the output. */
  ghost predicate Placed(s: string, state: State, k: nat)
    requires k < |s|
  {
    var rs := Roles(s, state);
    var c := Column(rs[..k]);
    Kept(rs[k]) ==> c < |Stripped(s, state)| && Stripped(s, state)[c] == if rs[k] == Copied then s[k] else ' '
  }

  lemma PlacedInFirst(s: string, state: State, k: nat)
    requires s != "" && '\n' !in s && k < FirstRound(s, state).width
    ensures Placed(s, state, k)
  {
    var r := FirstRound(s, state);
    StrippedRound(s, state);
    ColumnUniform(r.role, k);
    assert Roles(s, state)[..k] == Repeated(r.role, k);
    assert Roles(s, state)[k] == r.role;
    hide Stripped, FirstRound, Roles, Column;
  }

  lemma RolesInRest(s: string, state: State, k: nat)
    requires s != "" && FirstRound(s, state).width <= k < |s|
    ensures var r := FirstRound(s, state);
            Roles(s, state)[k] == Roles(s[r.width..], r.next)[k - r.width]
    ensures var r := FirstRound(s, state);
            Column(Roles(s, state)[..k]) ==
            (if Kept(r.role) then r.width else 0) + Column(Roles(s[r.width..], r.next)[..k - r.width])
  {
    var r := FirstRound(s, state);
    hide FirstRound, Column;
    var n, j := r.width, k - r.width;
    var head, rest := Repeated(r.role, n), Roles(s[n..], r.next);
    assert Roles(s, state) == head + rest;
    hide Roles;
    assert (head + rest)[..k] == head + rest[..j];
    ColumnAppend(head, rest[..j]);
    ColumnUniform(r.role, n);
  }

  lemma PlacedInRest(s: string, state: State, k: nat)
    requires s != "" && '\n' !in s && FirstRound(s, state).width <= k < |s|
    requires var r := FirstRound(s, state); Placed(s[r.width..], r.next, k - r.width)
    ensures Placed(s, state, k)
  {
    hide Stripped, FirstRound, Roles, Column, Emitted;
    StrippedRound(s, state);
    RolesInRest(s, state, k);
  }

  /** The roles are what stripping does: one output place for each kept character, holding the
      character if it is code and a blank otherwise. */
  lemma {:induction false} RolesMeaning(s: string, state: State)
    requires '\n' !in s
    ensures |Stripped(s, state)| == Column(Roles(s, state))
    ensures forall k :: 0 <= k < |s| ==> Placed(s, state, k)
    decreases |s|
  {
    if s != "" {
      var r := FirstRound(s, state);
      StrippedRound(s, state);
      RolesMeaning(s[r.width..], r.next);
      ColumnAppend(Repeated(r.role, r.width), Roles(s[r.width..], r.next));
      ColumnUniform(r.role, r.width);
      forall k | 0 <= k < |s| ensures Placed(s, state, k) {
        hide Placed, Stripped, FirstRound, Roles, Column;
        if k < r.width {
          PlacedInFirst(s, state, k);
        } else {
          PlacedInRest(s, state, k);
        }
      }
      hide Placed, Stripped, FirstRound, Column;
    }
  }

  // --- The shift of a column ----------------------------------------------------------------------

  function Openers(rs: seq<Role>): (n: nat)
    ensures n == 0 <==> BlockOpener !in rs
  {
    if rs == [] then 0 else Openers(rs[..|rs| - 1]) + if rs[|rs| - 1] == BlockOpener then 1 else 0
  }

  lemma {:induction false} ColumnAndOpeners(rs: seq<Role>)
    requires LineComment !in rs
    ensures Column(rs) + Openers(rs) == |rs|
  {
    if rs != [] {
      ColumnAndOpeners(rs[..|rs| - 1]);
    }
  }

  lemma {:induction false} LineStays(s: string)
    ensures Roles(s, Line) == Repeated(LineComment, |s|)
  {
    if s != "" {
      LineStays(s[1..]);
    }
  }

  /** Nothing is kept after the opener of a line comment. */
  lemma {:induction false} NothingAfterLine(s: string, state: State, k: nat)
    requires k < |s| && Kept(Roles(s, state)[k])
    ensures LineComment !in Roles(s, state)[..k]
    decreases |s|
  {
    var r := FirstRound(s, state);
    var n := r.width;
    if r.role == LineComment {
      LineStays(s[n..]);
    } else if k >= n {
      NothingAfterLine(s[n..], r.next, k - n);
      assert Roles(s, state)[..k] == Repeated(r.role, n) + Roles(s[n..], r.next)[..k - n];
    }
  }

  /** A kept character moves left by the characters of the block openers before it on its line. */
  lemma ColumnShift(s: string, state: State, k: nat)
    requires k < |s| && Kept(Roles(s, state)[k])
    ensures Column(Roles(s, state)[..k]) == k - Openers(Roles(s, state)[..k])
  {
    NothingAfterLine(s, state, k);
    ColumnAndOpeners(Roles(s, state)[..k]);
  }

  /** Code on a line after a block comment that opened on it. */
  predicate CodeAfterBlock(rs: seq<Role>)
  {
    exists p, q :: 0 <= p < q < |rs| && rs[p] == BlockOpener && rs[q] == Copied
  }

  ghost predicate ColumnsKept(rs: seq<Role>)
  {
    forall k :: 0 <= k < |rs| && rs[k] == Copied ==> Column(rs[..k]) == k
  }

  /** All code of a line keeps its column if and only if no code follows a block comment opened on it. */
  lemma LineColumns(s: string, state: State)
    ensures ColumnsKept(Roles(s, state)) <==> !CodeAfterBlock(Roles(s, state))
  {
    hide Roles, Column, Openers;
    var rs := Roles(s, state);
    forall k | 0 <= k < |rs| && rs[k] == Copied
      ensures Column(rs[..k]) == k <==> forall p :: 0 <= p < k ==> rs[p] != BlockOpener
    {
      ColumnShift(s, state, k);
      assert forall p :: 0 <= p < k ==> rs[..k][p] == rs[p];
    }
    if CodeAfterBlock(rs) {
      var p, q :| 0 <= p < q < |rs| && rs[p] == BlockOpener && rs[q] == Copied;
      assert Column(rs[..q]) != q;
    }
  }

  // --- Whole texts --------------------------------------------------------------------------------

  /** The state in which line n begins. */
  function StateAt(ls: seq<string>, state: State, n: nat): (st: State)
    requires n < |ls|
  {
    if n == 0 then state else StateAt(ls[1..], Carried(ls[0], state), n - 1)
  }

  lemma {:induction false} StrippedLineAt(ls: seq<string>, state: State, n: nat)
    requires n < |ls|
    ensures StrippedLines(ls, state)[n] == Stripped(ls[n], StateAt(ls, state, n))
  {
    if n > 0 {
      StrippedLineAt(ls[1..], Carried(ls[0], state), n - 1);
    }
  }

  lemma {:induction false} LinesAreLines(s: string, n: nat)
    requires n < |Lines(s)|
    ensures '\n' !in Lines(s)[n]
  {
    if s != "" {
      LinesAreLines(s[1..], 0);
      if s[0] == '\n' {
        if n > 0 {
          LinesAreLines(s[1..], n - 1);
        }
      } else {
        LinesAreLines(s[1..], n);
      }
    }
  }

  ghost function LineRoles(text: string, n: nat): (rs: seq<Role>)
    requires n < |Lines(text)|
    ensures |rs| == |Lines(text)[n]|
  {
    Roles(Lines(text)[n], StateAt(Lines(text), Code, n))
  }

  /** Code character k of line n of the text is character Column(...) of line n of the output. */
  lemma CodeIsFound(text: string, n: nat, k: nat)
    requires n < |Lines(text)| && k < |Lines(text)[n]| && LineRoles(text, n)[k] == Copied
    ensures |Lines(Stripped(text, Code))| == |Lines(text)|
    ensures var c := Column(LineRoles(text, n)[..k]);
            c < |Lines(Stripped(text, Code))[n]| && Lines(Stripped(text, Code))[n][c] == Lines(text)[n][k]
  {
    hide Roles, Column, Stripped, Lines, StateAt;
    LinesStripped(text, Code);
    StrippedLineAt(Lines(text), Code, n);
    LinesAreLines(text, n);
    var line, state := Lines(text)[n], StateAt(Lines(text), Code, n);
    RolesMeaning(line, state);
    assert Placed(line, state, k);
  }

  /** Every code character of a text keeps its line, and all keep their columns if and only if on no
      line code follows a block comment opened on that line. */
  lemma TextColumns(text: string)
    ensures (forall n: nat :: n < |Lines(text)| ==> ColumnsKept(LineRoles(text, n)))
       <==> (forall n: nat :: n < |Lines(text)| ==> !CodeAfterBlock(LineRoles(text, n)))
  {
    hide Roles, Lines, ColumnsKept, CodeAfterBlock;
    forall n: nat | n < |Lines(text)|
      ensures ColumnsKept(LineRoles(text, n)) <==> !CodeAfterBlock(LineRoles(text, n))
    {
      LineColumns(Lines(text)[n], StateAt(Lines(text), Code, n));
    }
  }

  lemma OneCopied(c: char)
    ensures Roles([c], Code) == [Copied] && Stripped([c], Code) == [c]
  {
    assert [c][1..] == "";
  }

  /** The code x stands in column 4, and in column 2 of the output. */
  lemma ShiftedExample()
    ensures Stripped("/**/x", Code) == "  x"
    ensures CodeAfterBlock(Roles("/**/x", Code)) && !ColumnsKept(Roles("/**/x", Code))
  {
    var s := "/**/x";
    OneCopied('x');
    assert s[2..] == "*/x" && "*/x"[2..] == "x";
    var rs := Roles(s, Code);
    assert rs == Repeated(BlockOpener, 2) + (Repeated(Erased, 2) + [Copied]);
    hide Roles, Stripped, Column;
    assert rs[0] == BlockOpener && rs[4] == Copied;
    LineColumns(s, Code);
  }

  /** A line comment moves nothing. */
  lemma UnmovedExample()
    ensures Stripped("a//b", Code) == "a" && ColumnsKept(Roles("a//b", Code))
  {
    var s := "a//b";
    LineStays("b");
    assert s[1..] == "//b" && "//b"[2..] == "b" && "b"[1..] == "";
    var rs := Roles(s, Code);
    assert rs == [Copied] + (Repeated(LineComment, 2) + Roles("b", Line));
    assert Stripped("//b", Code) == "";
    hide Roles, Stripped, Column;
    assert forall i :: 0 < i < 4 ==> rs[i] == LineComment;
    LineColumns(s, Code);
  }
}
