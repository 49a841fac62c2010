/** The streaming CBOR writers: scoped map and array writers that share one sink, close
    themselves once, and may be moved. */
module CborWriter {
  import opened Words
  import opened Options
  import opened Output
  import opened Cbor
  import opened CborItems
  import Runs = WriterRuns

  // --- Scalars: one case per overload of kv and val --------------------------------------------

  type Number = v: int | -TWO63 <= v < TWO64

  datatype Scalar =
    | TextView(text: Blob)
    | CString(chars: Option<Blob>)  // None is the null pointer
    | ByteSpan(bytes: Blob)
    | Boolean(b: bool)
    | NullPtr
    | Integer(v: Number)

  datatype Key = TextKey(text: Blob) | IntKey(k: u32)

  function IntItem(v: Number): (t: Item)
  {
    if v < 0 then NInt(-1 - v) else UInt(v)
  }

  /** The data item that a scalar stands for. */
  function ItemOf(s: Scalar): (t: Item)
  {
    match s
    case TextView(text) => TextString(text)
    case CString(Some(text)) => TextString(text)
    case CString(None) => Null
    case ByteSpan(bytes) => ByteString(bytes)
    case Boolean(b) => Bool(b)
    case NullPtr => Null
    case Integer(v) => IntItem(v)
  }

  function KeyItem(k: Key): (t: Item)
  {
    match k
    case TextKey(text) => TextString(text)
    case IntKey(n) => UInt(n)
  }

  /** The data items that may stand for what a caller passes, told from the items themselves. */
  predicate Stands(s: Scalar, t: Item)
  {
    match s
    case TextView(text) => t == TextString(text)
    case CString(Some(text)) => t == TextString(text)
    case CString(None) => t == Null
    case ByteSpan(bytes) => t == ByteString(bytes)
    case Boolean(b) => t == Bool(b)
    case NullPtr => t == Null
    case Integer(v) => IntegerValue(t) == Some(v)
  }

  predicate KeyStands(k: Key, t: Item)
  {
    match k
    case TextKey(text) => t == TextString(text)
    case IntKey(n) => IntegerValue(t) == Some(n)
  }

  lemma ItemsStand(s: Scalar, k: Key)
    ensures Stands(s, ItemOf(s)) && KeyStands(k, KeyItem(k))
  {
  }

  method WriteScalar(out: Sink<u8>, s: Scalar)
    modifies out
    ensures out.text == old(out.text) + Encode(ItemOf(s)) && Stands(s, ItemOf(s))
  {
    hide Header;
    match s
    case TextView(text) =>
      EncodeHeader(out, MT_TEXT, |text|);
      out.Write(text);
    case CString(None) =>
      out.Put(MT_SIMPLE + 22);
    case CString(Some(text)) =>
      EncodeHeader(out, MT_TEXT, |text|);
      out.Write(text);
    case ByteSpan(bytes) =>
      EncodeHeader(out, MT_BYTES, |bytes|);
      ghost var before := out.text;
      for i := 0 to |bytes|
        invariant out.text == before + bytes[..i]
      {
        out.Put(bytes[i]);
      }
      assert bytes[..|bytes|] == bytes;
    case Boolean(b) =>
      out.Put(MT_SIMPLE + if b then 21 else 20);
    case NullPtr =>
      out.Put(MT_SIMPLE + 22);
    case Integer(v) =>
      if v < 0 {
        EncodeHeader(out, MT_NEGATIVE, -1 - v);
      } else {
        EncodeHeader(out, MT_UNSIGNED, v);
      }
  }

  method WriteKey(out: Sink<u8>, k: Key)
    modifies out
    ensures out.text == old(out.text) + Encode(KeyItem(k)) && KeyStands(k, KeyItem(k))
  {
    hide Header;
    match k
    case TextKey(text) =>
      EncodeHeader(out, MT_TEXT, |text|);
      out.Write(text);
    case IntKey(n) =>
      EncodeHeader(out, MT_UNSIGNED, n);
  }

  type CborOp = Runs.Op<Key, Scalar>

  function Opener(isMap: bool): (b: u8)
  {
    if isMap then MT_MAP + 31 else MT_ARRAY + 31
  }

  function CborFormat(): (f: Runs.Format<Key, Scalar, u8>)
  {
    Runs.Format((s: Scalar) => Encode(ItemOf(s)), (k: Key) => Encode(KeyItem(k)),
                (isMap: bool) => [Opener(isMap)], (isMap: bool) => [BREAK_BYTE], [])
  }

  /** The machine steps of a writer, which keeps no comma state of its own. */
  ghost predicate Steps(text: Bytes, isMap: bool, closed: bool, op: CborOp, text': Bytes, closed': bool)
  {
    forall first: bool :: Runs.Does(CborFormat(), text, Runs.Writer(isMap, first, closed), op, text',
                                    Runs.Writer(isMap, first && op.End?, closed'))
  }

  ghost predicate Nests(text: Bytes, isMap: bool, op: CborOp, text': Bytes, childIsMap: bool)
  {
    forall first: bool :: Runs.Makes(CborFormat(), text, Runs.Writer(isMap, first, false), op, text',
                                     Runs.Writer(isMap, false, false), Runs.Writer(childIsMap, true, false))
  }

  ghost predicate Moves(text: Bytes, isMap: bool, closed: bool)
  {
    forall first: bool :: Runs.Makes(CborFormat(), text, Runs.Writer(isMap, first, closed), CborOp.Move(0, 1), text,
                                     Runs.Writer(isMap, first, true), Runs.Writer(isMap, first, closed))
  }

  lemma NoComma(text: Bytes, first: bool, more: Bytes)
    ensures text + Runs.Prefix(CborFormat(), first) + more == text + more
  {
  }

  lemma KeyStep(text: Bytes, k: Key)
    ensures Steps(text, true, false, CborOp.KeyOnly(0, k), text + Encode(KeyItem(k)), false)
  {
    hide Encode, Runs.Does, Runs.Prefix;
    forall first: bool ensures Runs.Does(CborFormat(), text, Runs.Writer(true, first, false), CborOp.KeyOnly(0, k),
                                         text + Encode(KeyItem(k)), Runs.Writer(true, false, false)) {
      Runs.KeyDoes<Key, Scalar, u8>(CborFormat(), text, first, k);
      NoComma(text, first, Encode(KeyItem(k)));
    }
  }

  lemma KvStep(text: Bytes, k: Key, v: Scalar)
    ensures Steps(text, true, false, CborOp.Kv(0, k, v), text + EncodeEntry(Entry(KeyItem(k), ItemOf(v))), false)
  {
    hide Encode, Runs.Does, Runs.Prefix;
    var both := EncodeEntry(Entry(KeyItem(k), ItemOf(v)));
    forall first: bool ensures Runs.Does(CborFormat(), text, Runs.Writer(true, first, false), CborOp.Kv(0, k, v),
                                         text + both, Runs.Writer(true, false, false)) {
      Runs.KvDoes(CborFormat(), text, first, k, v);
      NoComma(text, first, both);
    }
  }

  lemma ValStep(text: Bytes, v: Scalar)
    ensures Steps(text, false, false, CborOp.Val(0, v), text + Encode(ItemOf(v)), false)
  {
    hide Encode, Runs.Does, Runs.Prefix;
    forall first: bool ensures Runs.Does(CborFormat(), text, Runs.Writer(false, first, false), CborOp.Val(0, v),
                                         text + Encode(ItemOf(v)), Runs.Writer(false, false, false)) {
      Runs.ValDoes<Key, Scalar, u8>(CborFormat(), text, first, v);
      NoComma(text, first, Encode(ItemOf(v)));
    }
  }

  lemma EndStep(text: Bytes, isMap: bool, closed: bool)
    ensures Steps(text, isMap, closed, CborOp.End(0), text + (if closed then [] else [BREAK_BYTE]), true)
  {
    hide Runs.Does;
    var after := text + (if closed then [] else [BREAK_BYTE]);
    forall first: bool ensures Runs.Does(CborFormat(), text, Runs.Writer(isMap, first, closed), CborOp.End(0), after,
                                         Runs.Writer(isMap, first, true)) {
      Runs.EndDoes<Key, Scalar, u8>(CborFormat(), text, Runs.Writer(isMap, first, closed));
    }
  }

  lemma NestStep(text: Bytes, key: Option<Key>, childIsMap: bool)
    ensures Nests(text, key.Some?, CborOp.Nest(0, key, 1, childIsMap),
                  text + (Runs.KeyText(CborFormat(), key) + [Opener(childIsMap)]), childIsMap)
  {
    hide Encode, Runs.Makes, Runs.Prefix, Runs.KeyText;
    var more := Runs.KeyText(CborFormat(), key) + [Opener(childIsMap)];
    forall first: bool
      ensures Runs.Makes(CborFormat(), text, Runs.Writer(key.Some?, first, false), CborOp.Nest(0, key, 1, childIsMap),
                         text + more, Runs.Writer(key.Some?, false, false), Runs.Writer(childIsMap, true, false)) {
      Runs.NestMakes<Key, Scalar, u8>(CborFormat(), text, first, key, childIsMap);
      NoComma(text, first, more);
    }
  }

  lemma NestText(text: Bytes, key: Option<Key>, childIsMap: bool)
    ensures text + (Runs.KeyText(CborFormat(), key) + [Opener(childIsMap)])
         == text + (if key.Some? then Encode(KeyItem(key.value)) else []) + [Opener(childIsMap)]
  {
    hide Encode;
  }

  lemma MoveStep(text: Bytes, isMap: bool, closed: bool)
    ensures Moves(text, isMap, closed)
  {
    hide Runs.Makes;
    forall first: bool
      ensures Runs.Makes(CborFormat(), text, Runs.Writer(isMap, first, closed), CborOp.Move(0, 1), text,
                         Runs.Writer(isMap, first, true), Runs.Writer(isMap, first, closed)) {
      Runs.MoveMakes<Key, Scalar, u8>(CborFormat(), text, Runs.Writer(isMap, first, closed));
    }
  }

  // --- The writers ----------------------------------------------------------------------------------

  class MapWriter {
    const out: Sink<u8>
    var closed: bool

    constructor (sink: Sink<u8>)
      modifies sink
      ensures out == sink && !closed
      ensures sink.text == old(sink.text) + [MT_MAP + 31]
      ensures Runs.Starts(CborFormat(), old(sink.text), CborOp.Create(0, true), sink.text, Runs.Writer(true, true, false))
    {
      Runs.CreateStarts<Key, Scalar, u8>(CborFormat(), sink.text, true);
      out := sink;
      closed := false;
      new;
      out.Put(MT_MAP + 31);
    }

    /** Move construction: the source keeps nothing to close. */
    constructor Move(other: MapWriter)
      modifies other
      ensures out == other.out && closed == old(other.closed) && other.closed
      ensures Moves(out.text, true, old(other.closed))
    {
      MoveStep(other.out.text, true, other.closed);
      hide Moves;
      out := other.out;
      closed := other.closed;
      new;
      other.closed := true;
    }

    method PutKey(k: Key)
      requires !closed
      modifies out
      ensures out.text == old(out.text) + Encode(KeyItem(k))
      ensures Steps(old(out.text), true, false, CborOp.KeyOnly(0, k), out.text, closed)
    {
      hide Encode, Steps;
      KeyStep(out.text, k);
      WriteKey(out, k);
    }

    method Kv(k: Key, v: Scalar)
      requires !closed
      requires k.IntKey? ==> v.Integer?
      modifies out
      ensures out.text == old(out.text) + EncodeEntry(Entry(KeyItem(k), ItemOf(v)))
      ensures KeyStands(k, KeyItem(k)) && Stands(v, ItemOf(v))
      ensures Steps(old(out.text), true, false, CborOp.Kv(0, k, v), out.text, closed)
    {
      hide Encode, Steps;
      KvStep(out.text, k, v);
      WriteKey(out, k);
      WriteScalar(out, v);
    }

    method NestedMap(k: Blob) returns (w: MapWriter)
      requires !closed
      modifies out
      ensures fresh(w) && w.out == out && !w.closed
      ensures out.text == old(out.text) + Encode(TextString(k)) + [MT_MAP + 31]
      ensures Nests(old(out.text), true, CborOp.Nest(0, Some(TextKey(k)), 1, true), out.text, true)
    {
      hide Encode, Nests, Runs.KeyText;
      NestStep(out.text, Some(TextKey(k)), true);
      NestText(out.text, Some(TextKey(k)), true);
      WriteKey(out, TextKey(k));
      w := new MapWriter(out);
    }

    method NestedArray(k: Blob) returns (w: ArrayWriter)
      requires !closed
      modifies out
      ensures fresh(w) && w.out == out && !w.closed
      ensures out.text == old(out.text) + Encode(TextString(k)) + [MT_ARRAY + 31]
      ensures Nests(old(out.text), true, CborOp.Nest(0, Some(TextKey(k)), 1, false), out.text, false)
    {
      hide Encode, Nests, Runs.KeyText;
      NestStep(out.text, Some(TextKey(k)), false);
      NestText(out.text, Some(TextKey(k)), false);
      WriteKey(out, TextKey(k));
      w := new ArrayWriter(out);
    }

    /** Also what the destructor does. */
    method End()
      modifies this, out
      ensures closed
      ensures out.text == old(out.text) + if old(closed) then [] else [BREAK_BYTE]
      ensures Steps(old(out.text), true, old(closed), CborOp.End(0), out.text, closed)
    {
      hide Steps;
      EndStep(out.text, true, closed);
      if !closed {
        out.Put(BREAK_BYTE);
        closed := true;
      }
    }
  }

  class ArrayWriter {
    const out: Sink<u8>
    var closed: bool

    constructor (sink: Sink<u8>)
      modifies sink
      ensures out == sink && !closed
      ensures sink.text == old(sink.text) + [MT_ARRAY + 31]
      ensures Runs.Starts(CborFormat(), old(sink.text), CborOp.Create(0, false), sink.text, Runs.Writer(false, true, false))
    {
      Runs.CreateStarts<Key, Scalar, u8>(CborFormat(), sink.text, false);
      out := sink;
      closed := false;
      new;
      out.Put(MT_ARRAY + 31);
    }

    constructor Move(other: ArrayWriter)
      modifies other
      ensures out == other.out && closed == old(other.closed) && other.closed
      ensures Moves(out.text, false, old(other.closed))
    {
      MoveStep(other.out.text, false, other.closed);
      hide Moves;
      out := other.out;
      closed := other.closed;
      new;
      other.closed := true;
    }

    method Val(v: Scalar)
      requires !closed
      modifies out
      ensures out.text == old(out.text) + Encode(ItemOf(v)) && Stands(v, ItemOf(v))
      ensures Steps(old(out.text), false, false, CborOp.Val(0, v), out.text, closed)
    {
      hide Encode, Steps;
      ValStep(out.text, v);
      WriteScalar(out, v);
    }

    method Map() returns (w: MapWriter)
      requires !closed
      modifies out
      ensures fresh(w) && w.out == out && !w.closed
      ensures out.text == old(out.text) + [MT_MAP + 31]
      ensures Nests(old(out.text), false, CborOp.Nest(0, None, 1, true), out.text, true)
    {
      hide Nests, Runs.KeyText;
      NestStep(out.text, None, true);
      NestText(out.text, None, true);
      assert out.text + [] == out.text;
      w := new MapWriter(out);
    }

    method End()
      modifies this, out
      ensures closed
      ensures out.text == old(out.text) + if old(closed) then [] else [BREAK_BYTE]
      ensures Steps(old(out.text), false, old(closed), CborOp.End(0), out.text, closed)
    {
      hide Steps;
      EndStep(out.text, false, closed);
      if !closed {
        out.Put(BREAK_BYTE);
        closed := true;
      }
    }
  }
}
