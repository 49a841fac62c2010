/** The streaming JSON writers: scoped object and array writers that share one sink, put commas
    between children, close themselves once, and may be moved. */
module JsonWriter {
  import opened Words
  import opened Options
  import opened Output
  import opened Digits
  import opened Integers
  import opened JsonStrings
  import opened JsonDocuments
  import opened WriterRuns

  /** Numbers come from 64-bit types. */
  predicate Fits(s: Scalar)
  {
    s.Num? ==> -TWO63 <= s.v < TWO64
  }

  method WriteInteger(out: Sink<char>, value: int)
    requires -TWO63 <= value < TWO64
    modifies out
    ensures out.text == old(out.text) + NumberText(value)
  {
    hide Text, ToU64;
    if value < 0 {
      out.Put('-');
      UnsignedNegation(value);
      var magnitude := ToU64(0 - ToU64(value) as int);
      WriteDecimal(out, magnitude);
    } else {
      WriteDecimal(out, value);
    }
  }

  method WriteScalar(out: Sink<char>, s: Scalar)
    requires Fits(s)
    modifies out
    ensures out.text == old(out.text) + ScalarText(s)
  {
    match s
    case Str(text) => WriteEscapedString(out, text);
    case Num(v) => WriteInteger(out, v);
    case Bool(b) => out.Write(if b then "true" else "false");
    case Null => out.Write("null");
  }

  /** A C string; the null pointer is written as null. */
  method WriteCString(out: Sink<char>, p: Option<string>)
    modifies out
    ensures out.text == old(out.text) + ScalarText(if p.None? then Null else Str(p.value))
  {
    if p.None? {
      out.Write("null");
    } else {
      WriteEscapedString(out, p.value);
    }
  }

  function Comma(first: bool): (s: string)
  {
    Prefix(JsonFormat(), first)
  }

  lemma KeyFirst(text: string, comma: string, key: string, value: string)
    ensures text + comma + key + value == text + comma + (key + value)
  {
  }

  class ObjectWriter {
    const out: Sink<char>
    var first: bool
    var closed: bool

    ghost function State(): (w: Writer)
      reads this
    {
      Writer(true, first, closed)
    }

    constructor (sink: Sink<char>)
      modifies sink
      ensures out == sink && first && !closed
      ensures sink.text == old(sink.text) + "{"
      ensures Starts(JsonFormat(), old(sink.text), Op<string, Scalar>.Create(0, true), sink.text, State())
    {
      CreateStarts<string, Scalar, char>(JsonFormat(), sink.text, true);
      out := sink;
      first, closed := true, false;
      new;
      out.Put('{');
    }

    constructor Move(other: ObjectWriter)
      modifies other
      ensures out == other.out && first == old(other.first) && closed == old(other.closed) && other.closed
      ensures Makes(JsonFormat(), out.text, old(other.State()), Op<string, Scalar>.Move(0, 1), out.text,
                    other.State(), State())
    {
      MoveMakes<string, Scalar, char>(JsonFormat(), other.out.text, other.State());
      out := other.out;
      first, closed := other.first, other.closed;
      new;
      other.closed := true;
    }

    method PutPrefix()
      modifies this, out
      ensures !first && closed == old(closed)
      ensures out.text == old(out.text) + Comma(old(first))
    {
      if !first {
        out.Put(',');
      }
      first := false;
    }

    method Key(k: string)
      requires !closed
      modifies this, out
      ensures !first && !closed
      ensures out.text == old(out.text) + Comma(old(first)) + JsonFormat().key(k)
      ensures Does(JsonFormat(), old(out.text), old(State()), Op<string, Scalar>.KeyOnly(0, k), out.text, State())
    {
      KeyDoes<string, Scalar, char>(JsonFormat(), out.text, first, k);
      PutPrefix();
      WriteEscapedString(out, k);
      out.Put(':');
    }

    method Kv(k: string, s: Scalar)
      requires !closed && Fits(s)
      modifies this, out
      ensures !first && !closed
      ensures out.text == old(out.text) + Comma(old(first)) + (JsonFormat().key(k) + ScalarText(s))
      ensures Does(JsonFormat(), old(out.text), old(State()), Op<string, Scalar>.Kv(0, k, s), out.text, State())
    {
      KvDoes(JsonFormat(), out.text, first, k, s);
      hide ScalarText, Does;
      Key(k);
      WriteScalar(out, s);
    }

    method KvCString(k: string, p: Option<string>)
      requires !closed
      modifies this, out
      ensures !first && !closed
      ensures out.text == old(out.text) + Comma(old(first))
                        + (JsonFormat().key(k) + ScalarText(if p.None? then Null else Str(p.value)))
      ensures Does(JsonFormat(), old(out.text), old(State()), Op<string, Scalar>.Kv(0, k, if p.None? then Null else Str(p.value)),
                   out.text, State())
    {
      hide ScalarText, Does;
      ghost var s := if p.None? then Null else Str(p.value);
      KvDoes(JsonFormat(), out.text, first, k, s);
      KeyFirst(out.text, Comma(first), JsonFormat().key(k), ScalarText(s));
      Key(k);
      WriteCString(out, p);
    }

    method NestedObject(k: string) returns (w: ObjectWriter)
      requires !closed
      modifies this, out
      ensures fresh(w) && w.out == out && w.first && !w.closed && !first && !closed
      ensures out.text == old(out.text) + Comma(old(first)) + (JsonFormat().key(k) + "{")
      ensures Makes(JsonFormat(), old(out.text), old(State()), Op<string, Scalar>.Nest(0, Some(k), 1, true), out.text,
                    State(), w.State())
    {
      NestMakes<string, Scalar, char>(JsonFormat(), out.text, first, Some(k), true);
      Key(k);
      w := new ObjectWriter(out);
    }

    method NestedArray(k: string) returns (w: ArrayWriter)
      requires !closed
      modifies this, out
      ensures fresh(w) && w.out == out && w.first && !w.closed && !first && !closed
      ensures out.text == old(out.text) + Comma(old(first)) + (JsonFormat().key(k) + "[")
      ensures Makes(JsonFormat(), old(out.text), old(State()), Op<string, Scalar>.Nest(0, Some(k), 1, false), out.text,
                    State(), w.State())
    {
      NestMakes<string, Scalar, char>(JsonFormat(), out.text, first, Some(k), false);
      Key(k);
      w := new ArrayWriter(out);
    }

    /** Also what the destructor writes. */
    method End()
      modifies this, out
      ensures closed && first == old(first)
      ensures out.text == old(out.text) + if old(closed) then "" else "}"
      ensures Does(JsonFormat(), old(out.text), old(State()), Op<string, Scalar>.End(0), out.text, State())
    {
      EndDoes<string, Scalar, char>(JsonFormat(), out.text, State());
      if !closed {
        out.Put('}');
        closed := true;
      }
    }
  }

  class ArrayWriter {
    const out: Sink<char>
    var first: bool
    var closed: bool

    ghost function State(): (w: Writer)
      reads this
    {
      Writer(false, first, closed)
    }

    constructor (sink: Sink<char>)
      modifies sink
      ensures out == sink && first && !closed
      ensures sink.text == old(sink.text) + "["
      ensures Starts(JsonFormat(), old(sink.text), Op<string, Scalar>.Create(0, false), sink.text, State())
    {
      CreateStarts<string, Scalar, char>(JsonFormat(), sink.text, false);
      out := sink;
      first, closed := true, false;
      new;
      out.Put('[');
    }

    constructor Move(other: ArrayWriter)
      modifies other
      ensures out == other.out && first == old(other.first) && closed == old(other.closed) && other.closed
      ensures Makes(JsonFormat(), out.text, old(other.State()), Op<string, Scalar>.Move(0, 1), out.text,
                    other.State(), State())
    {
      MoveMakes<string, Scalar, char>(JsonFormat(), other.out.text, other.State());
      out := other.out;
      first, closed := other.first, other.closed;
      new;
      other.closed := true;
    }

    method PutPrefix()
      modifies this, out
      ensures !first && closed == old(closed)
      ensures out.text == old(out.text) + Comma(old(first))
    {
      if !first {
        out.Put(',');
      }
      first := false;
    }

    method Val(s: Scalar)
      requires !closed && Fits(s)
      modifies this, out
      ensures !first && !closed
      ensures out.text == old(out.text) + Comma(old(first)) + ScalarText(s)
      ensures Does(JsonFormat(), old(out.text), old(State()), Op<string, Scalar>.Val(0, s), out.text, State())
    {
      ValDoes<string, Scalar, char>(JsonFormat(), out.text, first, s);
      hide ScalarText, Does;
      PutPrefix();
      WriteScalar(out, s);
    }

    method ValCString(p: Option<string>)
      requires !closed
      modifies this, out
      ensures !first && !closed
      ensures out.text == old(out.text) + Comma(old(first)) + ScalarText(if p.None? then Null else Str(p.value))
      ensures Does(JsonFormat(), old(out.text), old(State()), Op<string, Scalar>.Val(0, if p.None? then Null else Str(p.value)),
                   out.text, State())
    {
      ValDoes<string, Scalar, char>(JsonFormat(), out.text, first, if p.None? then Null else Str(p.value));
      hide ScalarText, Does;
      PutPrefix();
      WriteCString(out, p);
    }

    method Obj() returns (w: ObjectWriter)
      requires !closed
      modifies this, out
      ensures fresh(w) && w.out == out && w.first && !w.closed && !first && !closed
      ensures out.text == old(out.text) + Comma(old(first)) + "{"
      ensures Makes(JsonFormat(), old(out.text), old(State()), Op<string, Scalar>.Nest(0, None, 1, true), out.text,
                    State(), w.State())
    {
      NestMakes<string, Scalar, char>(JsonFormat(), out.text, first, None, true);
      PutPrefix();
      w := new ObjectWriter(out);
    }

    method End()
      modifies this, out
      ensures closed && first == old(first)
      ensures out.text == old(out.text) + if old(closed) then "" else "]"
      ensures Does(JsonFormat(), old(out.text), old(State()), Op<string, Scalar>.End(0), out.text, State())
    {
      EndDoes<string, Scalar, char>(JsonFormat(), out.text, State());
      if !closed {
        out.Put(']');
        closed := true;
      }
    }
  }

  /** For every disciplined run, whatever its nesting and however its writers were moved, ended or
      destroyed, the output is a well-formed value if and only if no key was written alone, and it
      is then one value that reads back to the document written. */
  lemma RunReadsBack(ops: seq<Op<string, Scalar>>, document: JsonDoc)
    requires Run(JsonFormat(), Start(), ops).Some?
    requires Written(Nothing(), ops) == Some(Builder([], Some(document)))
    ensures var out := Run(JsonFormat(), Start(), ops).value.out;
            ReadValue(out) == if Plain(document) then Some((document, "")) else None
    ensures ReadValue(Run(JsonFormat(), Start(), ops).value.out).Some? <==> Plain(document)
  {
    hide ReadValue, Plain, Print, Run, Written;
    RunPrintsDocument(JsonFormat(), ops, document);
    JsonReadsBack(document, "");
    assert Json(document) + "" == Json(document);
  }

  // --- Any document, written through the objects -----------------------------------------------

  /** What the calls of the writers can express: 64-bit numbers, and arrays nest objects only. */
  predicate Expressible(d: JsonDoc)
    decreases d, 1
  {
    match d
    case Leaf(s) => Fits(s)
    case Arr(items) => forall i :: 0 <= i < |items| ==> !items[i].Arr? && Expressible(items[i])
    case Obj(members) => forall i :: 0 <= i < |members| ==> ExpressibleMember(members[i])
  }

  predicate ExpressibleMember(m: JsonMember)
    decreases m, 2
  {
    m.Member? ==> Expressible(m.value)
  }

  lemma PrintMembersStep(ms: seq<JsonMember>, i: nat)
    requires i < |ms|
    ensures PrintMembers(JsonFormat(), ms[..i + 1])
         == PrintMembers(JsonFormat(), ms[..i]) + (Comma(i == 0) + PrintMember(JsonFormat(), ms[i]))
  {
    hide PrintMember;
    assert ms[..i + 1][..i] == ms[..i];
  }

  lemma PrintItemsStep(ds: seq<JsonDoc>, i: nat)
    requires i < |ds|
    ensures PrintItems(JsonFormat(), ds[..i + 1])
         == PrintItems(JsonFormat(), ds[..i]) + (Comma(i == 0) + Print(JsonFormat(), ds[i]))
  {
    hide Print;
    assert ds[..i + 1][..i] == ds[..i];
  }

  method WriteMembers(w: ObjectWriter, ms: seq<JsonMember>)
    requires !w.closed && w.first && forall i :: 0 <= i < |ms| ==> ExpressibleMember(ms[i])
    modifies w, w.out
    ensures !w.closed && w.out.text == old(w.out.text) + PrintMembers(JsonFormat(), ms)
    decreases ms, 0
  {
    hide PrintMembers, PrintMember, Comma;
    assert PrintMembers(JsonFormat(), ms[..0]) == "" by { NoChildren(); }
    for i := 0 to |ms|
      invariant !w.closed && w.first == (i == 0)
      invariant w.out.text == old(w.out.text) + PrintMembers(JsonFormat(), ms[..i])
    {
      PrintMembersStep(ms, i);
      WriteMember(w, ms[i]);
    }
    assert ms[..|ms|] == ms;
  }

  method WriteMember(w: ObjectWriter, m: JsonMember)
    requires !w.closed && ExpressibleMember(m)
    modifies w, w.out
    ensures !w.closed && !w.first
    ensures w.out.text == old(w.out.text) + (Comma(old(w.first)) + PrintMember(JsonFormat(), m))
    decreases m, 2
  {
    MemberText(m);
    hide PrintMembers, PrintItems, PrintMember, Print, ScalarText, Comma, JsonFormat;
    ghost var text, comma := w.out.text, Comma(w.first);
    match m
    case Loose(k) =>
      w.Key(k);
    case Member(k, Leaf(s)) =>
      w.Kv(k, s);
    case Member(k, Obj(members)) =>
      var child := w.NestedObject(k);
      WriteMembers(child, members);
      child.End();
      Regroup(text, comma, JsonFormat().key(k), "{", PrintMembers(JsonFormat(), members), "}");
    case Member(k, Arr(items)) =>
      var child := w.NestedArray(k);
      WriteItems(child, items);
      child.End();
      Regroup(text, comma, JsonFormat().key(k), "[", PrintItems(JsonFormat(), items), "]");
  }

  lemma MemberText(m: JsonMember)
    ensures PrintMember(JsonFormat(), m) ==
            match m
            case Loose(k) => JsonFormat().key(k)
            case Member(k, Leaf(s)) => JsonFormat().key(k) + ScalarText(s)
            case Member(k, Obj(members)) => JsonFormat().key(k) + ("{" + PrintMembers(JsonFormat(), members) + "}")
            case Member(k, Arr(items)) => JsonFormat().key(k) + ("[" + PrintItems(JsonFormat(), items) + "]")
  {
    hide PrintMembers, PrintItems;
  }

  lemma Regroup(text: string, comma: string, key: string, open: string, body: string, close: string)
    ensures text + comma + (key + open) + body + close == text + (comma + (key + (open + body + close)))
  {
  }

  method WriteItems(w: ArrayWriter, ds: seq<JsonDoc>)
    requires !w.closed && w.first && forall i :: 0 <= i < |ds| ==> !ds[i].Arr? && Expressible(ds[i])
    modifies w, w.out
    ensures !w.closed && w.out.text == old(w.out.text) + PrintItems(JsonFormat(), ds)
    decreases ds, 0
  {
    hide PrintItems, Print, Comma;
    assert PrintItems(JsonFormat(), ds[..0]) == "" by { NoChildren(); }
    for i := 0 to |ds|
      invariant !w.closed && w.first == (i == 0)
      invariant w.out.text == old(w.out.text) + PrintItems(JsonFormat(), ds[..i])
    {
      PrintItemsStep(ds, i);
      WriteItem(w, ds[i]);
    }
    assert ds[..|ds|] == ds;
  }

  method WriteItem(w: ArrayWriter, d: JsonDoc)
    requires !w.closed && !d.Arr? && Expressible(d)
    modifies w, w.out
    ensures !w.closed && !w.first
    ensures w.out.text == old(w.out.text) + (Comma(old(w.first)) + Print(JsonFormat(), d))
    decreases d, 1
  {
    hide PrintMembers, ScalarText, Comma;
    match d
    case Leaf(s) =>
      w.Val(s);
    case Obj(members) =>
      var child := w.Obj();
      WriteMembers(child, members);
      child.End();
  }

  /** A document written with the writer objects, from an object or an array down, reads back to
      what was written if each key has its value, and is no JSON value otherwise. */
  method WriteDocument(document: JsonDoc) returns (out: Sink<char>)
    requires Expressible(document) && !document.Leaf?
    ensures fresh(out) && ReadValue(out.text) == if Plain(document) then Some((document, "")) else None
  {
    hide PrintMembers, PrintItems, ReadValue, Plain;
    out := new Sink<char>();
    match document {
      case Obj(members) =>
        var w := new ObjectWriter(out);
        WriteMembers(w, members);
        w.End();
      case Arr(items) =>
        var w := new ArrayWriter(out);
        WriteItems(w, items);
        w.End();
    }
    assert out.text == Json(document);
    JsonReadsBack(document, "");
    assert out.text + "" == out.text;
  }

  /** A key left without a value makes the object unreadable. */
  lemma KeyAloneUnread(k: string)
    ensures Run(JsonFormat(), Start(), KeyAlone<string, Scalar>(k)).Some?
    ensures ReadValue(Run(JsonFormat(), Start(), KeyAlone<string, Scalar>(k)).value.out).None?
  {
    KeysRun<string, Scalar, char>(JsonFormat(), k, k);
    KeysWritten<string, Scalar>(k, k);
    hide Run, Written, ReadValue;
    RunReadsBack(KeyAlone(k), Obj([Loose(k)]));
    assert !PlainMember([Member<string, Scalar>.Loose(k)][0]);
  }
}
