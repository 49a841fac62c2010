/** Whole runs of streaming container writers. A run is any sequence of calls on any number of
    writers over one sink: creation, entries, nesting, moves, explicit ends and destruction. It
    is disciplined when a nested writer is closed before its parent is used again. The output
    format is a parameter, so that the CBOR and the JSON writers share one argument. */
module WriterRuns {
  import opened Options

  /** What is written: scalars, arrays, and maps with their members in order. A key may also have
      been written without a value. */
  datatype Doc<K, S> = Leaf(s: S) | Arr(items: seq<Doc<K, S>>) | Obj(members: seq<Member<K, S>>)
  datatype Member<K, S> = Member(key: K, value: Doc<K, S>) | Loose(key: K)

  /** How each part looks in the output; `comma` stands between the children of a container. */
  datatype Format<!K, !S, !T> = Format(scalar: S -> seq<T>, key: K -> seq<T>,
                                       opener: bool -> seq<T>, closer: bool -> seq<T>, comma: seq<T>)

  function Print<K, S, T>(f: Format<K, S, T>, d: Doc<K, S>): (r: seq<T>)
    decreases d, 1
  {
    match d
    case Leaf(s) => f.scalar(s)
    case Arr(items) => f.opener(false) + PrintItems(f, items) + f.closer(false)
    case Obj(members) => f.opener(true) + PrintMembers(f, members) + f.closer(true)
  }

  function PrintItems<K, S, T>(f: Format<K, S, T>, ds: seq<Doc<K, S>>): (r: seq<T>)
    decreases ds, 0
  {
    if ds == [] then []
    else PrintItems(f, ds[..|ds| - 1]) + (if |ds| == 1 then [] else f.comma) + Print(f, ds[|ds| - 1])
  }

  function PrintMember<K, S, T>(f: Format<K, S, T>, m: Member<K, S>): (r: seq<T>)
    decreases m, 2
  {
    match m
    case Member(k, v) => f.key(k) + Print(f, v)
    case Loose(k) => f.key(k)
  }

  function PrintMembers<K, S, T>(f: Format<K, S, T>, ms: seq<Member<K, S>>): (r: seq<T>)
    decreases ms, 0
  {
    if ms == [] then []
    else PrintMembers(f, ms[..|ms| - 1]) + (if |ms| == 1 then [] else f.comma) + PrintMember(f, ms[|ms| - 1])
  }

  /** Every key has its value. */
  predicate Plain<K, S>(d: Doc<K, S>)
    decreases d, 1
  {
    match d
    case Leaf(_) => true
    case Arr(items) => forall i :: 0 <= i < |items| ==> Plain(items[i])
    case Obj(members) => forall i :: 0 <= i < |members| ==> PlainMember(members[i])
  }

  predicate PlainMember<K, S>(m: Member<K, S>)
    decreases m, 2
  {
    m.Member? && Plain(m.value)
  }

  // --- What the writers do ------------------------------------------------------------------------

  datatype Op<K, S> =
    | Create(id: nat, isMap: bool)
    | KeyOnly(id: nat, k: K)
    | Kv(id: nat, k: K, s: S)
    | Val(id: nat, s: S)
    | Nest(id: nat, key: Option<K>, child: nat, isMap: bool)
    | End(id: nat)
    | Destroy(id: nat)
    | Move(id: nat, to: nat)

  datatype Writer = Writer(isMap: bool, first: bool, closed: bool)

  /** The sink and the writers alive, by name. */
  datatype Machine<T> = Machine(out: seq<T>, writers: map<nat, Writer>)

  predicate Alive<T>(m: Machine<T>, id: nat, isMap: bool)
  {
    id in m.writers && m.writers[id].isMap == isMap && !m.writers[id].closed
  }

  /** The receiver may be used: the typestate that the writers declare. */
  predicate Callable<K, S, T>(m: Machine<T>, op: Op<K, S>)
  {
    match op
    case Create(id, _) => id !in m.writers
    case KeyOnly(id, _) => Alive(m, id, true)
    case Kv(id, _, _) => Alive(m, id, true)
    case Val(id, _) => Alive(m, id, false)
    case Nest(id, key, child, _) => child !in m.writers && Alive(m, id, key.Some?)
    case End(id) => id in m.writers
    case Destroy(id) => id in m.writers
    case Move(id, to) => id in m.writers && to !in m.writers
  }

  function KeyText<K, S, T>(f: Format<K, S, T>, key: Option<K>): (r: seq<T>)
  {
    if key.Some? then f.key(key.value) else []
  }

  /** Output before the next child of a writer. */
  function Prefix<K, S, T>(f: Format<K, S, T>, first: bool): (r: seq<T>)
  {
    if first then [] else f.comma
  }

  function Used(w: map<nat, Writer>, id: nat): (r: map<nat, Writer>)
    requires id in w
  {
    w[id := w[id].(first := false)]
  }

  function Ended(w: map<nat, Writer>, id: nat): (r: map<nat, Writer>)
    requires id in w
  {
    w[id := w[id].(closed := true)]
  }

  function EndText<K, S, T>(f: Format<K, S, T>, w: Writer): (r: seq<T>)
  {
    if w.closed then [] else f.closer(w.isMap)
  }

  /** The effect of one call. */
  function Step<K, S, T>(f: Format<K, S, T>, m: Machine<T>, op: Op<K, S>): (r: Machine<T>)
    requires Callable(m, op)
  {
    match op
    case Create(id, isMap) => Machine(m.out + f.opener(isMap), m.writers[id := Writer(isMap, true, false)])
    case KeyOnly(id, k) => Machine(m.out + Prefix(f, m.writers[id].first) + f.key(k), Used(m.writers, id))
    case Kv(id, k, s) =>
      Machine(m.out + Prefix(f, m.writers[id].first) + (f.key(k) + f.scalar(s)), Used(m.writers, id))
    case Val(id, s) => Machine(m.out + Prefix(f, m.writers[id].first) + f.scalar(s), Used(m.writers, id))
    case Nest(id, key, child, isMap) =>
      Machine(m.out + Prefix(f, m.writers[id].first) + (KeyText(f, key) + f.opener(isMap)),
              Used(m.writers, id)[child := Writer(isMap, true, false)])
    case End(id) => Machine(m.out + EndText(f, m.writers[id]), Ended(m.writers, id))
    case Destroy(id) => Machine(m.out + EndText(f, m.writers[id]), m.writers - {id})
    case Move(id, to) => m.(writers := Ended(m.writers, id)[to := m.writers[id]])
  }

  /** A call on one writer, number 0: sink and writer before it, sink and writer after it. */
  ghost predicate Does<K, S, T>(f: Format<K, S, T>, text: seq<T>, w: Writer, op: Op<K, S>, text': seq<T>, w': Writer)
  {
    var m := Machine(text, map[0 := w]);
    Callable(m, op) && Step(f, m, op) == Machine(text', map[0 := w'])
  }

  /** A call that also brings writer number 1 to life. */
  ghost predicate Makes<K, S, T>(f: Format<K, S, T>, text: seq<T>, w: Writer, op: Op<K, S>, text': seq<T>, w': Writer,
                                 made: Writer)
  {
    var m := Machine(text, map[0 := w]);
    Callable(m, op) && Step(f, m, op) == Machine(text', map[0 := w', 1 := made])
  }

  /** A call that brings writer number 0 to life on a sink. */
  ghost predicate Starts<K, S, T>(f: Format<K, S, T>, text: seq<T>, op: Op<K, S>, text': seq<T>, made: Writer)
  {
    var m := Machine(text, map[]);
    Callable(m, op) && Step(f, m, op) == Machine(text', map[0 := made])
  }

  lemma CreateStarts<K, S, T>(f: Format<K, S, T>, text: seq<T>, isMap: bool)
    ensures Starts(f, text, Op<K, S>.Create(0, isMap), text + f.opener(isMap), Writer(isMap, true, false))
  {
  }

  lemma KeyDoes<K, S, T>(f: Format<K, S, T>, text: seq<T>, first: bool, k: K)
    ensures Does(f, text, Writer(true, first, false), Op<K, S>.KeyOnly(0, k),
                 text + Prefix(f, first) + f.key(k), Writer(true, false, false))
  {
  }

  lemma KvDoes<K, S, T>(f: Format<K, S, T>, text: seq<T>, first: bool, k: K, s: S)
    ensures Does(f, text, Writer(true, first, false), Kv(0, k, s),
                 text + Prefix(f, first) + (f.key(k) + f.scalar(s)), Writer(true, false, false))
  {
  }

  lemma ValDoes<K, S, T>(f: Format<K, S, T>, text: seq<T>, first: bool, s: S)
    ensures Does(f, text, Writer(false, first, false), Val(0, s),
                 text + Prefix(f, first) + f.scalar(s), Writer(false, false, false))
  {
  }

  lemma EndDoes<K, S, T>(f: Format<K, S, T>, text: seq<T>, w: Writer)
    ensures Does(f, text, w, Op<K, S>.End(0), text + EndText(f, w), w.(closed := true))
  {
  }

  lemma NestMakes<K, S, T>(f: Format<K, S, T>, text: seq<T>, first: bool, key: Option<K>, isMap: bool)
    ensures Makes(f, text, Writer(key.Some?, first, false), Nest(0, key, 1, isMap),
                  text + Prefix(f, first) + (KeyText(f, key) + f.opener(isMap)),
                  Writer(key.Some?, false, false), Writer(isMap, true, false))
  {
  }

  lemma MoveMakes<K, S, T>(f: Format<K, S, T>, text: seq<T>, w: Writer)
    ensures Makes(f, text, w, Op<K, S>.Move(0, 1), text, w.(closed := true), w)
  {
  }

  /** The same call on another writer; what it brings to life gets another number too. */
  function On<K, S>(op: Op<K, S>, id: nat, made: nat): (r: Op<K, S>)
  {
    match op
    case Create(_, isMap) => Create(id, isMap)
    case KeyOnly(_, k) => KeyOnly(id, k)
    case Kv(_, k, s) => Kv(id, k, s)
    case Val(_, s) => Val(id, s)
    case Nest(_, key, _, isMap) => Nest(id, key, made, isMap)
    case End(_) => End(id)
    case Destroy(_) => Destroy(id)
    case Move(_, _) => Move(id, made)
  }

  /** What a call does to its writer alone, it does to that writer among any others. */
  lemma DoesAmong<K, S, T>(f: Format<K, S, T>, m: Machine<T>, id: nat, op: Op<K, S>, text': seq<T>, w': Writer)
    requires id in m.writers && (op.KeyOnly? || op.Kv? || op.Val? || op.End?) && op.id == 0
    requires Does(f, m.out, m.writers[id], op, text', w')
    ensures Callable(m, On(op, id, 0)) && Step(f, m, On(op, id, 0)) == Machine(text', m.writers[id := w'])
  {
    var alone := map[0 := m.writers[id]];
    assert alone[0] == m.writers[id];
    var after := Step(f, Machine(m.out, alone), op);
    assert after.writers[0] == w';
  }

  lemma MakesAmong<K, S, T>(f: Format<K, S, T>, m: Machine<T>, id: nat, op: Op<K, S>, text': seq<T>, w': Writer,
                            made: nat, child: Writer)
    requires id in m.writers && made !in m.writers && (op.Nest? || op.Move?) && op.id == 0
    requires (op.Nest? ==> op.child == 1) && (op.Move? ==> op.to == 1)
    requires Makes(f, m.out, m.writers[id], op, text', w', child)
    ensures Callable(m, On(op, id, made))
    ensures Step(f, m, On(op, id, made)) == Machine(text', m.writers[id := w'][made := child])
  {
    var alone := map[0 := m.writers[id]];
    assert alone[0] == m.writers[id];
    var after := Step(f, Machine(m.out, alone), op);
    assert after.writers[0] == w' && after.writers[1] == child;
  }

  lemma StartsAmong<K, S, T>(f: Format<K, S, T>, m: Machine<T>, id: nat, op: Op<K, S>, text': seq<T>, w: Writer)
    requires id !in m.writers && op.Create? && op.id == 0 && Starts(f, m.out, op, text', w)
    ensures Callable(m, On(op, id, 0)) && Step(f, m, On(op, id, 0)) == Machine(text', m.writers[id := w])
  {
    var after := Step(f, Machine(m.out, map[]), op);
    assert after.writers[0] == w;
  }

  /** A destructor ends its writer, which is then gone. */
  lemma DestroyEnds<K, S, T>(f: Format<K, S, T>, m: Machine<T>, id: nat)
    requires id in m.writers
    ensures var ended := Step(f, m, Op<K, S>.End(id));
            Step(f, m, Op<K, S>.Destroy(id)) == Machine(ended.out, ended.writers - {id})
  {
  }

  // --- What the calls mean --------------------------------------------------------------------------

  /** A container under construction: its writer, the key it will have in its parent, what it holds. */
  datatype Frame<K, S> = Frame(id: nat, key: Option<K>, partial: Doc<K, S>)

  /** Open containers from the outermost, and the finished document. */
  datatype Builder<K, S> = Builder(stack: seq<Frame<K, S>>, result: Option<Doc<K, S>>)

  function EmptyContainer<K, S>(isMap: bool): (d: Doc<K, S>)
  {
    if isMap then Obj([]) else Arr([])
  }

  function Added<K, S>(partial: Doc<K, S>, key: Option<K>, value: Doc<K, S>): (d: Doc<K, S>)
  {
    if partial.Obj? && key.Some? then Obj(partial.members + [Member(key.value, value)])
    else if partial.Arr? then Arr(partial.items + [value])
    else partial
  }

  function AddedKey<K, S>(partial: Doc<K, S>, k: K): (d: Doc<K, S>)
  {
    if partial.Obj? then Obj(partial.members + [Loose(k)]) else partial
  }

  function Top<K, S>(b: Builder<K, S>): (f: Frame<K, S>)
    requires b.stack != []
  {
    b.stack[|b.stack| - 1]
  }

  function WithTop<K, S>(b: Builder<K, S>, f: Frame<K, S>): (r: Builder<K, S>)
    requires b.stack != []
  {
    b.(stack := b.stack[..|b.stack| - 1] + [f])
  }

  /** Finishing the innermost container hands it to its parent. */
  function Closed<K, S>(b: Builder<K, S>): (r: Builder<K, S>)
    requires b.stack != []
  {
    var f, rest := Top(b), b.stack[..|b.stack| - 1];
    if rest == [] then Builder([], Some(f.partial))
    else
      var p := rest[|rest| - 1];
      b.(stack := rest[..|rest| - 1] + [p.(partial := Added(p.partial, f.key, f.partial))])
  }

  predicate Open<K, S>(b: Builder<K, S>, id: nat)
  {
    exists i :: 0 <= i < |b.stack| && b.stack[i].id == id
  }

  function Renamed<K, S>(stack: seq<Frame<K, S>>, id: nat, to: nat): (r: seq<Frame<K, S>>)
    ensures |r| == |stack|
    ensures forall i :: 0 <= i < |stack| ==> r[i] == if stack[i].id == id then stack[i].(id := to) else stack[i]
  {
    seq(|stack|, i requires 0 <= i < |stack| => if stack[i].id == id then stack[i].(id := to) else stack[i])
  }

  function Finish<K, S>(b: Builder<K, S>, id: nat): (r: Option<Builder<K, S>>)
  {
    if b.stack != [] && Top(b).id == id then Some(Closed(b))
    else if Open(b, id) then None
    else Some(b)
  }

  /** The meaning of a disciplined call: only the innermost open container may be written to or
      closed, and calls that only touch closed writers mean nothing. */
  function Meaning<K, S>(b: Builder<K, S>, op: Op<K, S>): (r: Option<Builder<K, S>>)
  {
    match op
    case Create(id, isMap) =>
      if b.stack == [] && b.result.None? then Some(Builder([Frame(id, None, EmptyContainer(isMap))], None)) else None
    case KeyOnly(id, k) =>
      if b.stack != [] && Top(b).id == id
      then Some(WithTop(b, Top(b).(partial := AddedKey(Top(b).partial, k)))) else None
    case Kv(id, k, s) =>
      if b.stack != [] && Top(b).id == id
      then Some(WithTop(b, Top(b).(partial := Added(Top(b).partial, Some(k), Leaf(s))))) else None
    case Val(id, s) =>
      if b.stack != [] && Top(b).id == id
      then Some(WithTop(b, Top(b).(partial := Added(Top(b).partial, None, Leaf(s))))) else None
    case Nest(id, key, child, isMap) =>
      if b.stack != [] && Top(b).id == id
      then Some(b.(stack := b.stack + [Frame(child, key, EmptyContainer(isMap))])) else None
    case End(id) => Finish(b, id)
    case Destroy(id) => Finish(b, id)
    case Move(id, to) => Some(b.(stack := Renamed(b.stack, id, to)))
  }

  // --- Runs ------------------------------------------------------------------------------------------

  function Start<T>(): (m: Machine<T>)
  {
    Machine([], map[])
  }

  function Nothing<K, S>(): (b: Builder<K, S>)
  {
    Builder([], None)
  }

  /** The machine after a run; None when some call was not available. */
  function Run<K, S, T>(f: Format<K, S, T>, m: Machine<T>, ops: seq<Op<K, S>>): (r: Option<Machine<T>>)
    decreases |ops|
  {
    if ops == [] then Some(m)
    else if Callable(m, ops[0]) then Run(f, Step(f, m, ops[0]), ops[1..])
    else None
  }

  /** The document after a run; None when the run was not disciplined. */
  function Written<K, S>(b: Builder<K, S>, ops: seq<Op<K, S>>): (r: Option<Builder<K, S>>)
    decreases |ops|
  {
    if ops == [] then Some(b)
    else
      var b' :- Meaning(b, ops[0]);
      Written(b', ops[1..])
  }

  // --- The invariant ----------------------------------------------------------------------------------

  predicate Childless<K, S>(d: Doc<K, S>)
  {
    d == Obj([]) || d == Arr([])
  }

  function Body<K, S, T>(f: Format<K, S, T>, partial: Doc<K, S>): (r: seq<T>)
  {
    match partial
    case Obj(members) => PrintMembers(f, members)
    case Arr(items) => PrintItems(f, items)
    case Leaf(_) => []
  }

  /** An open container as printed so far: separator, key, opening, children. */
  function FrameText<K, S, T>(f: Format<K, S, T>, first: bool, x: Frame<K, S>): (r: seq<T>)
  {
    Prefix(f, first) + (KeyText(f, x.key) + f.opener(x.partial.Obj?) + Body(f, x.partial))
  }

  function StackText<K, S, T>(f: Format<K, S, T>, stack: seq<Frame<K, S>>): (r: seq<T>)
  {
    if stack == [] then []
    else
      var rest := stack[..|stack| - 1];
      StackText(f, rest)
      + FrameText(f, rest == [] || Childless(rest[|rest| - 1].partial), stack[|stack| - 1])
  }

  function Pending<K, S, T>(f: Format<K, S, T>, b: Builder<K, S>): (r: seq<T>)
  {
    if b.stack == [] && b.result.Some? then Print(f, b.result.value) else StackText(f, b.stack)
  }

  ghost predicate Sound<K, S>(stack: seq<Frame<K, S>>)
  {
    && (forall i :: 0 <= i < |stack| ==> !stack[i].partial.Leaf?)
    && (forall i :: 0 < i < |stack| ==> stack[i].key.Some? == stack[i - 1].partial.Obj?)
    && (|stack| > 0 ==> stack[0].key.None?)
    && (forall i, j :: 0 <= i < j < |stack| ==> stack[i].id != stack[j].id)
  }

  ghost predicate FrameAgrees<K, S, T>(m: Machine<T>, x: Frame<K, S>, top: bool)
  {
    x.id in m.writers && m.writers[x.id].isMap == x.partial.Obj?
    && m.writers[x.id].first == (top && Childless(x.partial))
  }

  ghost predicate Agrees<K, S, T>(m: Machine<T>, b: Builder<K, S>)
  {
    && (forall id :: id in m.writers ==> (!m.writers[id].closed <==> Open(b, id)))
    && (forall i :: 0 <= i < |b.stack| ==> FrameAgrees(m, b.stack[i], i == |b.stack| - 1))
  }

  ghost predicate Invariant<K, S, T>(f: Format<K, S, T>, m: Machine<T>, b: Builder<K, S>)
  {
    m.out == Pending(f, b) && Sound(b.stack) && Agrees(m, b) && (b.stack != [] ==> b.result.None?)
  }

  // --- Every call keeps it -----------------------------------------------------------------------------

  lemma MembersAppend<K, S, T>(f: Format<K, S, T>, ms: seq<Member<K, S>>, m: Member<K, S>)
    ensures PrintMembers(f, ms + [m]) == PrintMembers(f, ms) + Prefix(f, ms == []) + PrintMember(f, m)
  {
    hide PrintMember;
    assert (ms + [m])[..|ms + [m]| - 1] == ms;
  }

  lemma ItemsAppend<K, S, T>(f: Format<K, S, T>, ds: seq<Doc<K, S>>, d: Doc<K, S>)
    ensures PrintItems(f, ds + [d]) == PrintItems(f, ds) + Prefix(f, ds == []) + Print(f, d)
  {
    hide Print;
    assert (ds + [d])[..|ds + [d]| - 1] == ds;
  }

  lemma BodyAdded<K, S, T>(f: Format<K, S, T>, partial: Doc<K, S>, key: Option<K>, value: Doc<K, S>)
    requires !partial.Leaf? && key.Some? == partial.Obj?
    ensures Body(f, Added(partial, key, value))
         == Body(f, partial) + Prefix(f, Childless(partial)) + (KeyText(f, key) + Print(f, value))
    ensures var p := Added(partial, key, value); !Childless(p) && p.Obj? == partial.Obj? && !p.Leaf?
  {
    hide Print, PrintMembers, PrintItems;
    if partial.Obj? {
      MembersAppend(f, partial.members, Member(key.value, value));
    } else {
      ItemsAppend(f, partial.items, value);
      assert [] + Print(f, value) == Print(f, value);
    }
  }

  /** Adding a child to a container appends the separator and the child. */
  lemma AddedText<K, S, T>(f: Format<K, S, T>, first: bool, x: Frame<K, S>, key: Option<K>, value: Doc<K, S>)
    requires !x.partial.Leaf? && key.Some? == x.partial.Obj?
    ensures FrameText(f, first, x.(partial := Added(x.partial, key, value)))
         == FrameText(f, first, x) + (Prefix(f, Childless(x.partial)) + (KeyText(f, key) + Print(f, value)))
    ensures var p := Added(x.partial, key, value); !Childless(p) && p.Obj? == x.partial.Obj? && !p.Leaf?
  {
    hide Print, Body, KeyText, Prefix, Added;
    BodyAdded(f, x.partial, key, value);
  }

  function First<K, S>(rest: seq<Frame<K, S>>): (b: bool)
  {
    rest == [] || Childless(rest[|rest| - 1].partial)
  }

  lemma StackTop<K, S, T>(f: Format<K, S, T>, rest: seq<Frame<K, S>>, x: Frame<K, S>)
    ensures StackText(f, rest + [x]) == StackText(f, rest) + FrameText(f, First(rest), x)
    ensures StackText(f, []) == []
  {
    assert (rest + [x])[..|rest + [x]| - 1] == rest;
  }

  /** Replacing the innermost container by one with more text. */
  lemma TopGrows<K, S, T>(f: Format<K, S, T>, b: Builder<K, S>, x: Frame<K, S>, more: seq<T>)
    requires b.stack != []
    requires var first := First(b.stack[..|b.stack| - 1]);
             FrameText(f, first, x) == FrameText(f, first, Top(b)) + more
    ensures Pending(f, WithTop(b, x)) == Pending(f, b) + more
  {
    hide FrameText, StackText;
    var rest := b.stack[..|b.stack| - 1];
    assert b.stack == rest + [Top(b)];
    StackTop(f, rest, Top(b));
    StackTop(f, rest, x);
  }

  lemma WithTopSound<K, S>(b: Builder<K, S>, x: Frame<K, S>)
    requires Sound(b.stack) && b.stack != []
    requires x.id == Top(b).id && x.key == Top(b).key && !x.partial.Leaf?
    ensures Sound(WithTop(b, x).stack)
    ensures forall id :: Open(b, id) <==> Open(WithTop(b, x), id)
  {
    var t := WithTop(b, x).stack;
    assert forall i :: 0 <= i < |b.stack| - 1 ==> t[i] == b.stack[i];
    assert forall i :: 0 <= i < |b.stack| ==> t[i].id == b.stack[i].id;
  }

  /** A container that has grown by a separator and some more output. */
  ghost predicate Grown<K, S, T>(f: Format<K, S, T>, first: bool, x: Frame<K, S>, p: Doc<K, S>, more: seq<T>)
  {
    && FrameText(f, first, x.(partial := p)) == FrameText(f, first, x) + (Prefix(f, Childless(x.partial)) + more)
    && !Childless(p) && p.Obj? == x.partial.Obj? && !p.Leaf?
  }

  lemma GrowKeeps<K, S, T>(f: Format<K, S, T>, m: Machine<T>, b: Builder<K, S>, p: Doc<K, S>, more: seq<T>)
    requires Invariant(f, m, b) && b.stack != []
    requires Grown(f, First(b.stack[..|b.stack| - 1]), Top(b), p, more)
    ensures Top(b).id in m.writers
    ensures Invariant(f, Machine(m.out + Prefix(f, m.writers[Top(b).id].first) + more, Used(m.writers, Top(b).id)),
                      WithTop(b, Top(b).(partial := p)))
  {
    hide FrameText, StackText, Sound, Open;
    var n, x := |b.stack| - 1, Top(b);
    assert FrameAgrees(m, b.stack[n], true);
    TopDistinct(b);
    var y := x.(partial := p);
    TopGrows(f, b, y, Prefix(f, Childless(x.partial)) + more);
    WithTopSound(b, y);
    var b', w := WithTop(b, y), Used(m.writers, x.id);
    var m' := Machine(m.out + Prefix(f, m.writers[x.id].first) + more, w);
    forall i | 0 <= i < |b'.stack| ensures FrameAgrees(m', b'.stack[i], i == n) {
      assert FrameAgrees(m, b.stack[i], i == n);
    }
  }

  lemma AddKeeps<K, S, T>(f: Format<K, S, T>, m: Machine<T>, b: Builder<K, S>, key: Option<K>, s: S)
    requires Invariant(f, m, b) && b.stack != [] && key.Some? == Top(b).partial.Obj?
    ensures Top(b).id in m.writers
    ensures Invariant(f, Machine(m.out + Prefix(f, m.writers[Top(b).id].first) + (KeyText(f, key) + f.scalar(s)),
                                 Used(m.writers, Top(b).id)),
                      WithTop(b, Top(b).(partial := Added(Top(b).partial, key, Leaf(s)))))
  {
    SoundTop(b);
    AddedText(f, First(b.stack[..|b.stack| - 1]), Top(b), key, Leaf(s));
    hide Invariant, FrameText, Added, First;
    GrowKeeps(f, m, b, Added(Top(b).partial, key, Leaf(s)), KeyText(f, key) + f.scalar(s));
  }

  lemma KeyGrows<K, S, T>(f: Format<K, S, T>, first: bool, x: Frame<K, S>, k: K)
    requires x.partial.Obj?
    ensures Grown(f, first, x, AddedKey(x.partial, k), f.key(k))
  {
    hide PrintMembers, KeyText;
    MembersAppend(f, x.partial.members, Loose(k));
    var head, body := Prefix(f, first) + (KeyText(f, x.key) + f.opener(true)), Body(f, x.partial);
    var more := Prefix(f, Childless(x.partial)) + f.key(k);
    assert FrameText(f, first, x) == head + body;
    assert Body(f, AddedKey(x.partial, k)) == body + more;
    assert FrameText(f, first, x.(partial := AddedKey(x.partial, k))) == head + (body + more);
  }

  lemma KeyKeeps<K, S, T>(f: Format<K, S, T>, m: Machine<T>, b: Builder<K, S>, k: K)
    requires Invariant(f, m, b) && b.stack != [] && Top(b).partial.Obj?
    ensures Top(b).id in m.writers
    ensures Invariant(f, Machine(m.out + Prefix(f, m.writers[Top(b).id].first) + f.key(k), Used(m.writers, Top(b).id)),
                      WithTop(b, Top(b).(partial := AddedKey(Top(b).partial, k))))
  {
    hide Invariant, Grown, AddedKey;
    KeyGrows(f, First(b.stack[..|b.stack| - 1]), Top(b), k);
    GrowKeeps(f, m, b, AddedKey(Top(b).partial, k), f.key(k));
  }

  lemma SoundTop<K, S>(b: Builder<K, S>)
    requires Sound(b.stack) && b.stack != []
    ensures !Top(b).partial.Leaf?
  {
  }

  lemma TopDistinct<K, S>(b: Builder<K, S>)
    requires Sound(b.stack) && b.stack != []
    ensures forall i :: 0 <= i < |b.stack| - 1 ==> b.stack[i].id != Top(b).id
  {
  }

  lemma PushedSound<K, S>(stack: seq<Frame<K, S>>, x: Frame<K, S>)
    requires Sound(stack) && !x.partial.Leaf?
    requires forall i :: 0 <= i < |stack| ==> stack[i].id != x.id
    requires if stack == [] then x.key.None? else x.key.Some? == stack[|stack| - 1].partial.Obj?
    ensures Sound(stack + [x])
  {
    var t := stack + [x];
    assert forall i :: 0 <= i < |stack| ==> t[i] == stack[i];
  }

  lemma PushedOpen<K, S>(b: Builder<K, S>, x: Frame<K, S>, result: Option<Doc<K, S>>, id: nat)
    ensures Open(Builder(b.stack + [x], result), id) <==> Open(b, id) || id == x.id
  {
    var t := b.stack + [x];
    assert forall i :: 0 <= i < |b.stack| ==> t[i] == b.stack[i];
    if Open(b, id) {
      var i :| 0 <= i < |b.stack| && b.stack[i].id == id;
      assert t[i].id == id;
    }
    assert t[|b.stack|] == x;
  }

  /** The writers once the innermost one has been given a child. */
  function Touched<K, S, T>(m: Machine<T>, b: Builder<K, S>): (w: map<nat, Writer>)
  {
    if b.stack != [] && Top(b).id in m.writers then Used(m.writers, Top(b).id) else m.writers
  }

  lemma PushedAgrees<K, S, T>(m: Machine<T>, b: Builder<K, S>, key: Option<K>, child: nat, isMap: bool, out: seq<T>)
    requires Sound(b.stack) && Agrees(m, b) && child !in m.writers
    ensures Agrees(Machine(out, Touched(m, b)[child := Writer(isMap, true, false)]),
                   Builder(b.stack + [Frame(child, key, EmptyContainer(isMap))], None))
  {
    hide Sound, Open;
    var n := |b.stack| - 1;
    if b.stack != [] {
      assert FrameAgrees(m, b.stack[n], true);
      TopDistinct(b);
    }
    var x: Frame<K, S> := Frame(child, key, EmptyContainer(isMap));
    var b' := Builder(b.stack + [x], None);
    var m' := Machine(out, Touched(m, b)[child := Writer(isMap, true, false)]);
    forall id | id in m'.writers ensures !m'.writers[id].closed <==> Open(b', id) {
      PushedOpen(b, x, None, id);
      if id == child { assert !m'.writers[id].closed; }
    }
    forall i | 0 <= i < |b'.stack| ensures FrameAgrees(m', b'.stack[i], i == n + 1) {
      if i <= n { assert FrameAgrees(m, b.stack[i], i == n); }
    }
  }

  /** Opening a container, at the root or inside the innermost one. */
  lemma OpenKeeps<K, S, T>(f: Format<K, S, T>, m: Machine<T>, b: Builder<K, S>, key: Option<K>, child: nat, isMap: bool)
    requires Invariant(f, m, b) && child !in m.writers
    requires if b.stack == [] then b.result.None? && key.None? else key.Some? == Top(b).partial.Obj?
    ensures b.stack != [] ==> Top(b).id in m.writers && m.writers[Top(b).id].first == First(b.stack)
    ensures Invariant(f, Machine(m.out + Prefix(f, First(b.stack)) + (KeyText(f, key) + f.opener(isMap)),
                                 Touched(m, b)[child := Writer(isMap, true, false)]),
                      Builder(b.stack + [Frame(child, key, EmptyContainer(isMap))], None))
  {
    hide StackText, KeyText, Sound, Agrees;
    var out := m.out + Prefix(f, First(b.stack)) + (KeyText(f, key) + f.opener(isMap));
    var x: Frame<K, S> := Frame(child, key, EmptyContainer(isMap));
    KnownFrames(m, b);
    PushedAgrees(m, b, key, child, isMap, out);
    PushedSound(b.stack, x);
    StackTop(f, b.stack, x);
    assert FrameText(f, First(b.stack), x) == Prefix(f, First(b.stack)) + (KeyText(f, key) + f.opener(isMap));
  }

  lemma KnownFrames<K, S, T>(m: Machine<T>, b: Builder<K, S>)
    requires Agrees(m, b)
    ensures forall i :: 0 <= i < |b.stack| ==> b.stack[i].id in m.writers
    ensures b.stack != [] ==> m.writers[Top(b).id].isMap == Top(b).partial.Obj?
    ensures b.stack != [] ==> m.writers[Top(b).id].first == First(b.stack)
  {
    forall i | 0 <= i < |b.stack| ensures b.stack[i].id in m.writers {
      assert FrameAgrees(m, b.stack[i], i == |b.stack| - 1);
    }
    if b.stack != [] { assert FrameAgrees(m, b.stack[|b.stack| - 1], true); }
  }

  /** A finished container is its separator, its key and its whole text. */
  lemma FinishedText<K, S, T>(f: Format<K, S, T>, first: bool, x: Frame<K, S>)
    requires !x.partial.Leaf?
    ensures FrameText(f, first, x) + f.closer(x.partial.Obj?)
         == Prefix(f, first) + (KeyText(f, x.key) + Print(f, x.partial))
  {
    hide PrintMembers, PrintItems, KeyText, Prefix;
    assert Print(f, x.partial) == f.opener(x.partial.Obj?) + Body(f, x.partial) + f.closer(x.partial.Obj?);
  }

  lemma ClosedText<K, S, T>(f: Format<K, S, T>, b: Builder<K, S>)
    requires b.stack != [] && Sound(b.stack) && b.result.None?
    ensures Pending(f, Closed(b)) == Pending(f, b) + f.closer(Top(b).partial.Obj?)
  {
    hide Print, FrameText, StackText, Prefix, Added;
    var x, rest := Top(b), b.stack[..|b.stack| - 1];
    assert b.stack == rest + [x];
    StackTop(f, rest, x);
    FinishedText(f, First(rest), x);
    if rest == [] {
      assert b.stack[0] == x;
      FirstPrefix(f);
      assert [] + ([] + Print(f, x.partial)) == Print(f, x.partial);
      assert Pending(f, b) == FrameText(f, true, x);
    } else {
      var p := rest[|rest| - 1];
      assert rest == rest[..|rest| - 1] + [p];
      assert p == b.stack[|rest| - 1] && x == b.stack[|rest|];
      StackTop(f, rest[..|rest| - 1], p);
      AddedText(f, First(rest[..|rest| - 1]), p, x.key, x.partial);
      StackTop(f, rest[..|rest| - 1], p.(partial := Added(p.partial, x.key, x.partial)));
    }
  }

  lemma FirstPrefix<K, S, T>(f: Format<K, S, T>)
    ensures Prefix(f, true) == []
  {
  }

  /** Closing leaves the outer frames' names, keys and kinds alone; the parent has a child now. */
  lemma ClosedShape<K, S>(b: Builder<K, S>)
    requires b.stack != [] && Sound(b.stack)
    ensures |Closed(b).stack| == |b.stack| - 1
    ensures forall i :: 0 <= i < |b.stack| - 2 ==> Closed(b).stack[i] == b.stack[i]
    ensures |b.stack| >= 2 ==>
              var n := |b.stack| - 2;
              var p, q := b.stack[n], Closed(b).stack[n];
              q.id == p.id && q.key == p.key && q.partial.Obj? == p.partial.Obj? && !q.partial.Leaf? && !Childless(q.partial)
    ensures Sound(Closed(b).stack)
    ensures Closed(b).stack != [] ==> Closed(b).result == b.result
  {
    if |b.stack| >= 2 {
      var n := |b.stack| - 2;
      assert b.stack[n + 1].key.Some? == b.stack[n].partial.Obj?;
    }
  }

  lemma ClosedOpen<K, S>(b: Builder<K, S>, id: nat)
    requires b.stack != [] && Sound(b.stack)
    ensures Open(Closed(b), id) <==> Open(b, id) && id != Top(b).id
  {
    ClosedShape(b);
    hide Closed;
    var s, n := Closed(b).stack, |b.stack| - 1;
    assert forall i :: 0 <= i < n ==> s[i].id == b.stack[i].id;
    assert Top(b) == b.stack[n];
    if Open(b, id) && id != Top(b).id {
      var i :| 0 <= i < |b.stack| && b.stack[i].id == id;
      assert s[i].id == id;
    }
    if Open(Closed(b), id) {
      var i :| 0 <= i < |s| && s[i].id == id;
      assert b.stack[i].id == id && b.stack[i].id != b.stack[n].id;
    }
  }

  lemma TopOpen<K, S>(b: Builder<K, S>)
    requires b.stack != []
    ensures Open(b, Top(b).id)
  {
    assert b.stack[|b.stack| - 1] == Top(b);
  }

  lemma ClosedAgrees<K, S, T>(m: Machine<T>, b: Builder<K, S>, out: seq<T>, destroyed: bool)
    requires Agrees(m, b) && Sound(b.stack) && b.stack != [] && Top(b).id in m.writers
    ensures var id := Top(b).id;
            Agrees(Machine(out, if destroyed then m.writers - {id} else Ended(m.writers, id)), Closed(b))
  {
    hide Sound, Closed, Open;
    var id, n := Top(b).id, |b.stack| - 1;
    var w := if destroyed then m.writers - {id} else Ended(m.writers, id);
    var b', m' := Closed(b), Machine(out, w);
    ClosedShape(b);
    TopDistinct(b);
    forall x | x in w ensures !w[x].closed <==> Open(b', x) {
      ClosedOpen(b, x);
    }
    forall i | 0 <= i < |b'.stack| ensures FrameAgrees(m', b'.stack[i], i == |b'.stack| - 1) {
      assert FrameAgrees(m, b.stack[i], false);
    }
  }

  lemma CloseKeeps<K, S, T>(f: Format<K, S, T>, m: Machine<T>, b: Builder<K, S>, destroyed: bool)
    requires Invariant(f, m, b) && b.stack != []
    ensures var id := Top(b).id;
            id in m.writers && !m.writers[id].closed
            && Invariant(f, Machine(m.out + EndText(f, m.writers[id]),
                                    if destroyed then m.writers - {id} else Ended(m.writers, id)), Closed(b))
  {
    hide Pending, Sound, Closed;
    var id := Top(b).id;
    KnownFrames(m, b);
    TopOpen(b);
    assert !m.writers[id].closed;
    ClosedText(f, b);
    ClosedShape(b);
    ClosedAgrees(m, b, m.out + EndText(f, m.writers[id]), destroyed);
  }

  /** Ending or destroying a writer that is already closed, or was moved from, changes nothing. */
  lemma HuskKeeps<K, S, T>(f: Format<K, S, T>, m: Machine<T>, b: Builder<K, S>, id: nat, destroyed: bool)
    requires Invariant(f, m, b) && id in m.writers && !Open(b, id)
    ensures m.writers[id].closed
    ensures Invariant(f, Machine(m.out + EndText(f, m.writers[id]),
                                 if destroyed then m.writers - {id} else Ended(m.writers, id)), b)
  {
    hide Pending, Sound;
    var w := if destroyed then m.writers - {id} else Ended(m.writers, id);
    forall i | 0 <= i < |b.stack| ensures FrameAgrees(Machine(m.out, w), b.stack[i], i == |b.stack| - 1) {
      assert FrameAgrees(m, b.stack[i], i == |b.stack| - 1);
      assert Open(b, b.stack[i].id);
    }
  }

  lemma FinishKeeps<K, S, T>(f: Format<K, S, T>, m: Machine<T>, b: Builder<K, S>, id: nat, destroyed: bool)
    requires Invariant(f, m, b) && id in m.writers && Finish(b, id).Some?
    ensures Invariant(f, Machine(m.out + EndText(f, m.writers[id]),
                                 if destroyed then m.writers - {id} else Ended(m.writers, id)), Finish(b, id).value)
  {
    hide Invariant, Closed, Open;
    if b.stack != [] && Top(b).id == id {
      CloseKeeps(f, m, b, destroyed);
    } else {
      HuskKeeps(f, m, b, id, destroyed);
    }
  }

  lemma {:induction false} RenamedText<K, S, T>(f: Format<K, S, T>, stack: seq<Frame<K, S>>, id: nat, to: nat)
    ensures StackText(f, Renamed(stack, id, to)) == StackText(f, stack)
    decreases |stack|
  {
    hide StackText, FrameText, Renamed, First;
    if stack == [] {
      assert Renamed(stack, id, to) == stack;
    } else {
      RenamedText(f, stack[..|stack| - 1], id, to);
      RenamedStep(f, stack, id, to);
    }
  }

  lemma RenamedStep<K, S, T>(f: Format<K, S, T>, stack: seq<Frame<K, S>>, id: nat, to: nat)
    requires stack != []
    requires var rest := stack[..|stack| - 1]; StackText(f, Renamed(rest, id, to)) == StackText(f, rest)
    ensures StackText(f, Renamed(stack, id, to)) == StackText(f, stack)
  {
    hide StackText, FrameText, Renamed, First;
    var rest, x := stack[..|stack| - 1], stack[|stack| - 1];
    var y := RenamedTop(stack, id, to);
    assert stack == rest + [x];
    StackTop(f, rest, x);
    StackTop(f, Renamed(rest, id, to), y);
    NameUnseen(f, First(rest), x, y);
  }

  lemma RenamedTop<K, S>(stack: seq<Frame<K, S>>, id: nat, to: nat) returns (y: Frame<K, S>)
    requires stack != []
    ensures var rest, x := stack[..|stack| - 1], stack[|stack| - 1];
            Renamed(stack, id, to) == Renamed(rest, id, to) + [y] && y.key == x.key && y.partial == x.partial
            && First(Renamed(rest, id, to)) == First(rest)
  {
    var n := |stack| - 1;
    y := Renamed(stack, id, to)[n];
  }

  lemma NameUnseen<K, S, T>(f: Format<K, S, T>, first: bool, x: Frame<K, S>, y: Frame<K, S>)
    requires x.key == y.key && x.partial == y.partial
    ensures FrameText(f, first, x) == FrameText(f, first, y)
  {
  }

  lemma RenamedOpen<K, S>(b: Builder<K, S>, id: nat, to: nat, x: nat)
    requires !Open(b, to)
    ensures Open(b.(stack := Renamed(b.stack, id, to)), x)
       <==> if x == to then Open(b, id) else x != id && Open(b, x)
  {
    var r := Renamed(b.stack, id, to);
    if Open(b, id) {
      var i :| 0 <= i < |b.stack| && b.stack[i].id == id;
      assert r[i].id == to;
    }
    if x != id && Open(b, x) {
      var i :| 0 <= i < |b.stack| && b.stack[i].id == x;
      assert r[i].id == x;
    }
  }

  lemma RenamedSound<K, S>(b: Builder<K, S>, id: nat, to: nat)
    requires Sound(b.stack) && !Open(b, to)
    ensures Sound(Renamed(b.stack, id, to))
  {
    forall i | 0 <= i < |b.stack| ensures b.stack[i].id != to {
      assert Open(b, b.stack[i].id);
    }
  }

  /** Moving a writer only changes which object is responsible for the closing text. */
  lemma MoveKeeps<K, S, T>(f: Format<K, S, T>, m: Machine<T>, b: Builder<K, S>, id: nat, to: nat)
    requires Invariant(f, m, b) && id in m.writers && to !in m.writers
    ensures Invariant(f, m.(writers := Ended(m.writers, id)[to := m.writers[id]]),
                      b.(stack := Renamed(b.stack, id, to)))
  {
    hide StackText, Open, Sound;
    var w := Ended(m.writers, id)[to := m.writers[id]];
    var b', m' := b.(stack := Renamed(b.stack, id, to)), m.(writers := w);
    RenamedText(f, b.stack, id, to);
    NewIsNotOpen(m, b, to);
    RenamedSound(b, id, to);
    forall x | x in w ensures !w[x].closed <==> Open(b', x) {
      RenamedOpen(b, id, to, x);
    }
    forall i | 0 <= i < |b'.stack| ensures FrameAgrees(m', b'.stack[i], i == |b'.stack| - 1) {
      assert FrameAgrees(m, b.stack[i], i == |b.stack| - 1);
    }
  }

  lemma NewIsNotOpen<K, S, T>(m: Machine<T>, b: Builder<K, S>, to: nat)
    requires Agrees(m, b) && to !in m.writers
    ensures !Open(b, to)
  {
    KnownFrames(m, b);
  }

  lemma TopFacts<K, S, T>(f: Format<K, S, T>, m: Machine<T>, b: Builder<K, S>)
    requires Invariant(f, m, b)
    ensures b.stack != [] ==>
              b.result.None? && Top(b).id in m.writers && m.writers[Top(b).id].isMap == Top(b).partial.Obj?
  {
    if b.stack != [] { KnownFrames(m, b); }
  }

  /** Every disciplined call keeps the output equal to the document so far. */
  lemma StepKeeps<K, S, T>(f: Format<K, S, T>, m: Machine<T>, b: Builder<K, S>, op: Op<K, S>)
    requires Invariant(f, m, b) && Callable(m, op) && Meaning(b, op).Some?
    ensures Invariant(f, Step(f, m, op), Meaning(b, op).value)
  {
    hide Invariant, Added, AddedKey, Finish;
    TopFacts(f, m, b);
    match op
    case Create(id, isMap) =>
      OpenKeeps(f, m, b, None, id, isMap);
      assert m.out + Prefix(f, true) + (KeyText(f, None) + f.opener(isMap)) == m.out + f.opener(isMap);
      assert b.stack + [Frame(id, None, EmptyContainer(isMap))] == [Frame(id, None, EmptyContainer(isMap))];
    case KeyOnly(id, k) =>
      KeyKeeps(f, m, b, k);
    case Kv(id, k, s) =>
      AddKeeps(f, m, b, Some(k), s);
    case Val(id, s) =>
      AddKeeps(f, m, b, None, s);
      assert KeyText(f, None) + f.scalar(s) == f.scalar(s);
    case Nest(id, key, child, isMap) =>
      OpenKeeps(f, m, b, key, child, isMap);
    case End(id) =>
      FinishKeeps(f, m, b, id, false);
    case Destroy(id) =>
      FinishKeeps(f, m, b, id, true);
    case Move(id, to) =>
      MoveKeeps(f, m, b, id, to);
  }

  lemma {:induction false} RunKeeps<K, S, T>(f: Format<K, S, T>, m: Machine<T>, b: Builder<K, S>, ops: seq<Op<K, S>>)
    requires Invariant(f, m, b) && Run(f, m, ops).Some? && Written(b, ops).Some?
    ensures Invariant(f, Run(f, m, ops).value, Written(b, ops).value)
    decreases |ops|
  {
    hide Invariant, Step, Meaning;
    if ops != [] {
      StepKeeps(f, m, b, ops[0]);
      RunKeeps(f, Step(f, m, ops[0]), Meaning(b, ops[0]).value, ops[1..]);
    }
  }

  /** A disciplined run that closes its document leaves exactly that document in the sink: every
      container closed once, however its writer was ended, moved or destroyed. */
  lemma RunPrintsDocument<K, S, T>(f: Format<K, S, T>, ops: seq<Op<K, S>>, document: Doc<K, S>)
    requires Run(f, Start(), ops).Some?
    requires Written(Nothing(), ops) == Some(Builder([], Some(document)))
    ensures Run(f, Start(), ops).value.out == Print(f, document)
  {
    hide Print, Run, Written;
    assert Invariant(f, Start(), Nothing<K, S>());
    RunKeeps(f, Start(), Nothing(), ops);
  }

  /** An object closed right after a key, and one closed after two. */
  function KeyAlone<K, S>(k: K): (ops: seq<Op<K, S>>)
  {
    [Create(0, true), KeyOnly(0, k), End(0)]
  }

  function TwoKeys<K, S>(a: K, b: K): (ops: seq<Op<K, S>>)
  {
    [Create(0, true), KeyOnly(0, a), KeyOnly(0, b), End(0)]
  }

  lemma KeysRun<K, S, T>(f: Format<K, S, T>, a: K, b: K)
    ensures Run(f, Start(), KeyAlone<K, S>(a)).Some? && Run(f, Start(), TwoKeys<K, S>(a, b)).Some?
  {
    var m1 := Step(f, Start(), Op<K, S>.Create(0, true));
    var m2 := Step(f, m1, Op<K, S>.KeyOnly(0, a));
    var m3 := Step(f, m2, Op<K, S>.KeyOnly(0, b));
    RunOne(f, Start(), KeyAlone<K, S>(a));
    RunOne(f, m1, KeyAlone<K, S>(a)[1..]);
    RunOne(f, m2, KeyAlone<K, S>(a)[1..][1..]);
    RunOne(f, Start(), TwoKeys<K, S>(a, b));
    RunOne(f, m1, TwoKeys<K, S>(a, b)[1..]);
    RunOne(f, m2, TwoKeys<K, S>(a, b)[1..][1..]);
    RunOne(f, m3, TwoKeys<K, S>(a, b)[1..][1..][1..]);
  }

  lemma RunOne<K, S, T>(f: Format<K, S, T>, m: Machine<T>, ops: seq<Op<K, S>>)
    requires ops != [] && Callable(m, ops[0])
    ensures Run(f, m, ops) == Run(f, Step(f, m, ops[0]), ops[1..])
    ensures |ops| == 1 ==> Run(f, m, ops).Some?
  {
  }

  lemma KeysWritten<K, S>(a: K, b: K)
    ensures Written(Nothing(), KeyAlone<K, S>(a)) == Some(Builder([], Some(Obj([Loose(a)]))))
    ensures Written(Nothing(), TwoKeys<K, S>(a, b)) == Some(Builder([], Some(Obj([Loose(a), Loose(b)]))))
  {
    var b1: Builder<K, S> := Builder([Frame(0, None, Obj([]))], None);
    var b2: Builder<K, S> := Builder([Frame(0, None, Obj([Loose(a)]))], None);
    var b3: Builder<K, S> := Builder([Frame(0, None, Obj([Loose(a), Loose(b)]))], None);
    var one, two := KeyAlone<K, S>(a), TwoKeys<K, S>(a, b);
    assert one[1..] == [KeyOnly(0, a), End(0)] && one[1..][1..] == [End(0)];
    assert two[1..] == [KeyOnly(0, a), KeyOnly(0, b), End(0)] && two[1..][1..] == [KeyOnly(0, b), End(0)];
    assert [] + [Loose(a)] == [Member<K, S>.Loose(a)] && [Loose(a)] + [Loose(b)] == [Member<K, S>.Loose(a), Loose(b)];
    assert b1.stack[..0] + [b2.stack[0]] == b2.stack && b2.stack[..0] + [b3.stack[0]] == b3.stack;
    assert Meaning(b1, KeyOnly(0, a)) == Some(b2) && Meaning(b2, KeyOnly(0, b)) == Some(b3);
    assert Written(b2, [End(0)]) == Some(Builder([], Some(Obj([Loose(a)]))));
    assert Written(b3, [End(0)]) == Some(Builder([], Some(Obj([Loose(a), Loose(b)]))));
    assert Written(b2, [KeyOnly(0, b), End(0)]) == Written(b3, [KeyOnly(0, b), End(0)][1..]);
    assert [KeyOnly(0, b), End(0)][1..] == [Op<K, S>.End(0)];
  }
}
