/** JSON documents as the writers print them, and a reader after sections 3 to 7 of RFC 8259.
    The reader is stricter than the grammar: no whitespace, and numbers are integers. */
module JsonDocuments {
  import opened Options
  import opened Digits
  import opened Integers
  import opened JsonStrings
  import opened WriterRuns

  datatype Scalar = Str(text: string) | Num(v: int) | Bool(b: bool) | Null

  type JsonDoc = Doc<string, Scalar>
  type JsonMember = Member<string, Scalar>

  function NumberText(v: int): (s: string)
  {
    (if v < 0 then "-" else "") + Text(Magnitude(v), 10)
  }

  function ScalarText(s: Scalar): (t: string)
  {
    match s
    case Str(text) => Quoted(text)
    case Num(v) => NumberText(v)
    case Bool(b) => if b then "true" else "false"
    case Null => "null"
  }

  function JsonFormat(): (f: Format<string, Scalar, char>)
  {
    Format((s: Scalar) => ScalarText(s), (k: string) => Quoted(k) + ":",
           (isMap: bool) => if isMap then "{" else "[", (isMap: bool) => if isMap then "}" else "]", ",")
  }

  function Json(d: JsonDoc): (s: string)
  {
    Print(JsonFormat(), d)
  }

  function JsonMemberText(m: JsonMember): (s: string)
  {
    PrintMember(JsonFormat(), m)
  }

  // --- Reading -----------------------------------------------------------------------------------

  /** An integer without excess leading zeros and not followed by a fraction or an exponent. */
  function ReadNumber(s: string): (r: Option<(int, string)>)
    ensures r.Some? ==> |r.value.1| < |s|
  {
    if s != "" && s[0] == '-' then
      var (n, rest) :- ReadDigits(s[1..]);
      Some((0 - n, rest))
    else
      var (n, rest) :- ReadDigits(s);
      Some((n, rest))
  }

  /** Digits without a leading zero, not going on as a fraction or an exponent. */
  function ReadDigits(u: string): (r: Option<(nat, string)>)
    ensures r.Some? ==> |r.value.1| < |u|
  {
    var k := DigitRun(u);
    if k == 0 || (u[0] == '0' && k > 1) then None
    else if k < |u| && u[k] in ".eE" then None
    else Some((Read(u[..k], 10), u[k..]))
  }

  function ReadLiteral(s: string, word: string, d: JsonDoc): (r: Option<(JsonDoc, string)>)
    ensures r.Some? && word != "" ==> |r.value.1| < |s|
  {
    if word <= s then Some((d, s[|word|..])) else None
  }

  /** One value and what follows it. */
  function ReadValue(s: string): (r: Option<(JsonDoc, string)>)
    ensures r.Some? ==> |r.value.1| < |s|
    decreases |s|, 1
  {
    if s == "" then None
    else if s[0] == '{' then
      if |s| > 1 && s[1] == '}' then Some((Obj([]), s[2..]))
      else
        var (ms, rest) :- ReadMembers(s[1..]);
        Some((Obj(ms), rest))
    else if s[0] == '[' then
      if |s| > 1 && s[1] == ']' then Some((Arr([]), s[2..]))
      else
        var (ds, rest) :- ReadItems(s[1..]);
        Some((Arr(ds), rest))
    else if s[0] == '"' then
      var (text, rest) :- ReadString(s);
      Some((Leaf(Str(text)), rest))
    else if s[0] == 't' then ReadLiteral(s, "true", Leaf(Bool(true)))
    else if s[0] == 'f' then ReadLiteral(s, "false", Leaf(Bool(false)))
    else if s[0] == 'n' then ReadLiteral(s, "null", Leaf(Null))
    else
      var (v, rest) :- ReadNumber(s);
      Some((Leaf(Num(v)), rest))
  }

  /** One or more members separated by commas, up to the closing brace. */
  function ReadMembers(s: string): (r: Option<(seq<JsonMember>, string)>)
    ensures r.Some? ==> |r.value.1| < |s|
    decreases |s|, 2
  {
    var (key, s1) :- ReadString(s);
    if s1 == "" || s1[0] != ':' then None else
      var (value, s2) :- ReadValue(s1[1..]);
      if s2 == "" then None
      else if s2[0] == '}' then Some(([Member(key, value)], s2[1..]))
      else if s2[0] == ',' then
        var (ms, s3) :- ReadMembers(s2[1..]);
        Some(([Member(key, value)] + ms, s3))
      else None
  }

  function ReadItems(s: string): (r: Option<(seq<JsonDoc>, string)>)
    ensures r.Some? ==> |r.value.1| < |s|
    decreases |s|, 2
  {
    var (d, s1) :- ReadValue(s);
    if s1 == "" then None
    else if s1[0] == ']' then Some(([d], s1[1..]))
    else if s1[0] == ',' then
      var (ds, s2) :- ReadItems(s1[1..]);
      Some(([d] + ds, s2))
    else None
  }

  // --- Round trip ------------------------------------------------------------------------------------

  /** Text that cannot continue a number. */
  predicate EndsNumber(rest: string)
  {
    rest == "" || (!IsDigit(rest[0], 10) && rest[0] !in ".eE")
  }

  lemma NumberReadsBack(v: int, rest: string)
    requires EndsNumber(rest)
    ensures ReadNumber(NumberText(v) + rest) == Some((v, rest))
    ensures NumberText(v)[0] == '-' || IsDigit(NumberText(v)[0], 10)
  {
    hide Text, ReadDigits;
    var t := Text(Magnitude(v), 10);
    DigitsReadBack(Magnitude(v), rest);
    if v < 0 {
      assert (NumberText(v) + rest)[1..] == t + rest;
    } else {
      assert NumberText(v) + rest == t + rest && (t + rest)[0] == t[0];
    }
  }

  lemma DigitsReadBack(n: nat, rest: string)
    requires EndsNumber(rest)
    ensures ReadDigits(Text(n, 10) + rest) == Some((n, rest))
    ensures IsDigit(Text(n, 10)[0], 10)
  {
    hide Text, Read, DigitRun;
    var t := Text(n, 10);
    TextIsDigits(n, 10, false);
    ReadText(n, 10, false);
    NoLeadingZero(n, 10, false);
    TextStep(n, 10, false);
    assert IsDigit(t[0], 10);
    DigitRunExact(t, rest);
    assert (t + rest)[..|t|] == t && (t + rest)[|t|..] == rest;
  }

  /** The rest of a list once its first element is read. */
  function MoreMembers(ms: seq<JsonMember>): (s: string)
  {
    if ms == [] then "" else "," + JsonMemberText(ms[0]) + MoreMembers(ms[1..])
  }

  function MoreItems(ds: seq<JsonDoc>): (s: string)
  {
    if ds == [] then "" else "," + Json(ds[0]) + MoreItems(ds[1..])
  }

  lemma {:induction false} MembersFromFront(ms: seq<JsonMember>)
    requires ms != []
    ensures PrintMembers(JsonFormat(), ms) == JsonMemberText(ms[0]) + MoreMembers(ms[1..])
    decreases |ms|
  {
    hide PrintMember;
    var n := |ms| - 1;
    if n == 0 {
      assert ms[..0] == [] && ms[1..] == [];
    } else {
      MembersFromFront(ms[..n]);
      MoreMembersAppend(ms[..n][1..], ms[n]);
      assert ms[..n][1..] + [ms[n]] == ms[1..];
    }
  }

  lemma {:induction false} MoreMembersAppend(ms: seq<JsonMember>, m: JsonMember)
    ensures MoreMembers(ms + [m]) == MoreMembers(ms) + "," + JsonMemberText(m)
  {
    hide JsonMemberText;
    if ms == [] {
      assert ms + [m] == [m] && [m][1..] == [];
    } else {
      MoreMembersAppend(ms[1..], m);
      assert (ms + [m])[1..] == ms[1..] + [m];
    }
  }

  lemma {:induction false} ItemsFromFront(ds: seq<JsonDoc>)
    requires ds != []
    ensures PrintItems(JsonFormat(), ds) == Json(ds[0]) + MoreItems(ds[1..])
    decreases |ds|
  {
    hide Print;
    var n := |ds| - 1;
    if n == 0 {
      assert ds[..0] == [] && ds[1..] == [];
    } else {
      ItemsFromFront(ds[..n]);
      MoreItemsAppend(ds[..n][1..], ds[n]);
      assert ds[..n][1..] + [ds[n]] == ds[1..];
    }
  }

  lemma {:induction false} MoreItemsAppend(ds: seq<JsonDoc>, d: JsonDoc)
    ensures MoreItems(ds + [d]) == MoreItems(ds) + "," + Json(d)
  {
    hide Json;
    if ds == [] {
      assert ds + [d] == [d] && [d][1..] == [];
    } else {
      MoreItemsAppend(ds[1..], d);
      assert (ds + [d])[1..] == ds[1..] + [d];
    }
  }

  lemma ScalarReads(s: Scalar, rest: string)
    requires EndsNumber(rest)
    ensures ReadValue(ScalarText(s) + rest) == Some((Leaf(s), rest))
  {
    hide Quoted, ReadString, ReadNumber, NumberText;
    match s
    case Str(text) =>
      QuotedReadsBack(text, rest);
      QuoteFirst(text);
    case Num(v) =>
      NumberReadsBack(v, rest);
    case Bool(b) =>
      assert (ScalarText(s) + rest)[|ScalarText(s)|..] == rest;
    case Null =>
      assert (ScalarText(s) + rest)[|ScalarText(s)|..] == rest;
  }

  lemma QuoteFirst(text: string)
    ensures |Quoted(text)| >= 1 && Quoted(text)[0] == '"'
  {
  }

  /** What opens a value is never what closes a container. */
  lemma FirstChar(d: JsonDoc)
    ensures |Json(d)| >= 1 && Json(d)[0] != ']'
  {
    hide ScalarText, PrintItems, PrintMembers;
    if d.Leaf? {
      ScalarFirst(d.s);
    }
  }

  lemma ScalarFirst(s: Scalar)
    ensures |ScalarText(s)| >= 1 && ScalarText(s)[0] != ']'
  {
    hide NumberText, Quoted, ReadNumber;
    match s
    case Str(text) => QuoteFirst(text);
    case Num(v) =>
      NumberReadsBack(v, "");
      NumberNotEmpty(v);
    case _ =>
  }

  lemma NumberNotEmpty(v: int)
    ensures |NumberText(v)| >= 1
  {
    hide Text;
  }

  predicate PlainMembers(ms: seq<JsonMember>)
  {
    forall i :: 0 <= i < |ms| ==> PlainMember(ms[i])
  }

  predicate PlainItems(ds: seq<JsonDoc>)
  {
    forall i :: 0 <= i < |ds| ==> Plain(ds[i])
  }

  lemma PlainFirst(ms: seq<JsonMember>, ds: seq<JsonDoc>)
    ensures PlainMembers([]) && PlainItems([])
    ensures ms != [] ==> (PlainMembers(ms) <==> PlainMember(ms[0]) && PlainMembers(ms[1..]))
    ensures ds != [] ==> (PlainItems(ds) <==> Plain(ds[0]) && PlainItems(ds[1..]))
  {
    hide Plain, PlainMember;
    assert forall i :: 0 < i < |ms| ==> ms[i] == ms[1..][i - 1];
    assert forall i :: 0 < i < |ds| ==> ds[i] == ds[1..][i - 1];
  }

  /** A printed document is a well-formed value if and only if each of its keys has a value, at
      every depth; it then reads back to itself, members in order, and ends where it ends. */
  lemma {:induction false} JsonReadsBack(d: JsonDoc, rest: string)
    requires EndsNumber(rest)
    ensures ReadValue(Json(d) + rest) == if Plain(d) then Some((d, rest)) else None
    decreases d, 3
  {
    match d
    case Leaf(x) =>
      ScalarReads(x, rest);
    case Obj(ms) =>
      hide ReadValue, Json, Plain;
      if ms != [] {
        MembersReadBack(ms, rest);
      }
      ObjectReads(ms, rest);
    case Arr(ds) =>
      hide ReadValue, Json, Plain;
      if ds != [] {
        ItemsReadBack(ds, rest);
      }
      ArrayReads(ds, rest);
  }

  lemma ObjectReads(ms: seq<JsonMember>, rest: string)
    requires ms != [] ==> ReadMembers(JsonMemberText(ms[0]) + MoreMembers(ms[1..]) + "}" + rest)
                          == if PlainMembers(ms) then Some((ms, rest)) else None
    ensures ReadValue(Json(Obj(ms)) + rest) == if Plain(Obj(ms)) then Some((Obj(ms), rest)) else None
  {
    hide PrintMembers, ReadMembers, ReadItems, MoreMembers, JsonMemberText, PlainMember;
    var s := Json(Obj(ms)) + rest;
    if ms == [] {
      NoChildren();
      assert s == "{}" + rest && s[2..] == rest;
    } else {
      MembersFromFront(ms);
      var body := JsonMemberText(ms[0]) + MoreMembers(ms[1..]) + "}" + rest;
      assert s == "{" + body && s[1..] == body;
      MemberFirst(ms[0]);
    }
  }

  lemma ArrayReads(ds: seq<JsonDoc>, rest: string)
    requires ds != [] ==> ReadItems(Json(ds[0]) + MoreItems(ds[1..]) + "]" + rest)
                          == if PlainItems(ds) then Some((ds, rest)) else None
    ensures ReadValue(Json(Arr(ds)) + rest) == if Plain(Arr(ds)) then Some((Arr(ds), rest)) else None
  {
    hide PrintItems, ReadMembers, ReadItems, MoreItems;
    var s := Json(Arr(ds)) + rest;
    if ds == [] {
      NoChildren();
      assert s == "[]" + rest && s[2..] == rest;
    } else {
      ItemsFromFront(ds);
      var body := Json(ds[0]) + MoreItems(ds[1..]) + "]" + rest;
      assert s == "[" + body && s[1..] == body;
      FirstChar(ds[0]);
    }
  }

  lemma NoChildren()
    ensures PrintMembers(JsonFormat(), []) == "" && PrintItems(JsonFormat(), []) == ""
  {
  }

  lemma MemberFirst(m: JsonMember)
    ensures |JsonMemberText(m)| >= 1 && JsonMemberText(m)[0] == '"'
  {
    hide Print, Escaped;
  }

  lemma {:induction false} MemberReadsBack(m: JsonMember, rest: string)
    requires m.Member? && EndsNumber(rest)
    ensures ReadString(JsonMemberText(m) + rest) == Some((m.key, ":" + (Json(m.value) + rest)))
    ensures ReadValue(Json(m.value) + rest) == if Plain(m.value) then Some((m.value, rest)) else None
    decreases m, 4
  {
    hide Print, ReadString, Quoted, ReadValue, Plain;
    assert JsonMemberText(m) + rest == Quoted(m.key) + (":" + (Json(m.value) + rest));
    QuotedReadsBack(m.key, ":" + (Json(m.value) + rest));
    JsonReadsBack(m.value, rest);
  }

  /** After a key without a value comes a comma or the closing brace, and neither begins a value. */
  lemma LooseUnread(k: string, tail: string)
    requires tail != "" && (tail[0] == ',' || tail[0] == '}')
    ensures ReadMembers(JsonMemberText(Loose(k)) + tail).None?
  {
    hide ReadString, Quoted;
    NoValue(tail);
    hide ReadValue;
    assert JsonMemberText(Loose(k)) + tail == Quoted(k) + (":" + tail);
    QuotedReadsBack(k, ":" + tail);
    assert (":" + tail)[1..] == tail;
  }

  lemma NoValue(tail: string)
    requires tail != "" && (tail[0] == ',' || tail[0] == '}')
    ensures ReadValue(tail).None?
  {
    hide ReadMembers, ReadItems, ReadString;
  }

  lemma {:induction false} MembersReadBack(ms: seq<JsonMember>, rest: string)
    requires ms != []
    ensures ReadMembers(JsonMemberText(ms[0]) + MoreMembers(ms[1..]) + "}" + rest)
         == if PlainMembers(ms) then Some((ms, rest)) else None
    decreases ms, 2
  {
    hide JsonMemberText, MoreMembers, ReadMembers, ReadString, ReadValue, Json, Plain, PlainMembers;
    var m, more := ms[0], ms[1..];
    var tail := MoreMembers(more) + "}" + rest;
    MembersTail(more, rest);
    PlainFirst(ms, []);
    assert JsonMemberText(m) + MoreMembers(more) + "}" + rest == JsonMemberText(m) + tail;
    assert ms == [m] + more;
    if m.Loose? {
      LooseUnread(m.key, tail);
    } else {
      MemberReadsBack(m, tail);
      ReadFirstMember(m, tail);
      if more == [] {
        assert ms == [m] && PlainMembers(more);
      } else {
        MembersReadBack(more, rest);
      }
    }
  }

  lemma ReadFirstMember(m: JsonMember, tail: string)
    requires m.Member? && tail != ""
    requires ReadString(JsonMemberText(m) + tail) == Some((m.key, ":" + (Json(m.value) + tail)))
    requires ReadValue(Json(m.value) + tail) == if Plain(m.value) then Some((m.value, tail)) else None
    ensures !Plain(m.value) ==> ReadMembers(JsonMemberText(m) + tail).None?
    ensures Plain(m.value) && tail[0] == '}' ==> ReadMembers(JsonMemberText(m) + tail) == Some(([m], tail[1..]))
    ensures Plain(m.value) && tail[0] == ',' ==>
              ReadMembers(JsonMemberText(m) + tail) == MemberThen(m, ReadMembers(tail[1..]))
  {
    hide JsonMemberText, ReadString, ReadValue, Json, Plain;
    assert (":" + (Json(m.value) + tail))[1..] == Json(m.value) + tail;
  }

  function MemberThen(m: JsonMember, r: Option<(seq<JsonMember>, string)>): (q: Option<(seq<JsonMember>, string)>)
  {
    match r
    case None => None
    case Some((ms, rest)) => Some(([m] + ms, rest))
  }

  /** After a member comes the closing brace, or a comma and the next member. */
  lemma MembersTail(more: seq<JsonMember>, rest: string)
    ensures var tail := MoreMembers(more) + "}" + rest;
            tail != "" && EndsNumber(tail)
            && (if more == [] then tail[0] == '}' && tail[1..] == rest
                else tail[0] == ',' && tail[1..] == JsonMemberText(more[0]) + MoreMembers(more[1..]) + "}" + rest)
  {
    hide JsonMemberText;
    if more == [] {
      assert MoreMembers(more) + "}" + rest == "}" + rest;
    } else {
      var next := JsonMemberText(more[0]) + MoreMembers(more[1..]) + "}" + rest;
      assert MoreMembers(more) + "}" + rest == "," + next;
    }
  }

  lemma {:induction false} ItemsReadBack(ds: seq<JsonDoc>, rest: string)
    requires ds != []
    ensures ReadItems(Json(ds[0]) + MoreItems(ds[1..]) + "]" + rest)
         == if PlainItems(ds) then Some((ds, rest)) else None
    decreases ds, 2
  {
    hide Json, MoreItems, ReadItems, ReadValue, Plain, PlainItems;
    var d, more := ds[0], ds[1..];
    var tail := MoreItems(more) + "]" + rest;
    ItemsTail(more, rest);
    PlainFirst([], ds);
    JsonReadsBack(d, tail);
    ReadFirstItem(d, tail);
    assert Json(d) + MoreItems(more) + "]" + rest == Json(d) + tail;
    assert ds == [d] + more;
    if more == [] {
      assert ds == [d] && PlainItems(more);
    } else {
      ItemsReadBack(more, rest);
    }
  }

  lemma ReadFirstItem(d: JsonDoc, tail: string)
    requires tail != "" && ReadValue(Json(d) + tail) == if Plain(d) then Some((d, tail)) else None
    ensures !Plain(d) ==> ReadItems(Json(d) + tail).None?
    ensures Plain(d) && tail[0] == ']' ==> ReadItems(Json(d) + tail) == Some(([d], tail[1..]))
    ensures Plain(d) && tail[0] == ',' ==> ReadItems(Json(d) + tail) == ItemThen(d, ReadItems(tail[1..]))
  {
    hide ReadValue, Json, Plain;
  }

  function ItemThen(d: JsonDoc, r: Option<(seq<JsonDoc>, string)>): (q: Option<(seq<JsonDoc>, string)>)
  {
    match r
    case None => None
    case Some((ds, rest)) => Some(([d] + ds, rest))
  }

  lemma ItemsTail(more: seq<JsonDoc>, rest: string)
    ensures var tail := MoreItems(more) + "]" + rest;
            tail != "" && EndsNumber(tail)
            && (if more == [] then tail[0] == ']' && tail[1..] == rest
                else tail[0] == ',' && tail[1..] == Json(more[0]) + MoreItems(more[1..]) + "]" + rest)
  {
    hide Json;
    if more == [] {
      assert MoreItems(more) + "]" + rest == "]" + rest;
    } else {
      var next := Json(more[0]) + MoreItems(more[1..]) + "]" + rest;
      assert MoreItems(more) + "]" + rest == "," + next;
    }
  }
}
