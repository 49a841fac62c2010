/** Decoding: a reader of the well-formed data items that the writers use, after sections 3,
    3.1, 3.2.1 and 3.2.2 of RFC 8949, and the proof that it inverts the encoding. */
module CborItems {
  import opened Words
  import opened Options
  import opened Digits
  import opened Cbor

  // --- Headers ----------------------------------------------------------------------------------

  /** Major type, additional information, argument and the bytes that follow. */
  datatype Head = Head(major: nat, info: nat, arg: nat, rest: Bytes)

  function ArgumentSize(info: nat): (k: nat)
  {
    if info == 24 then 1 else if info == 25 then 2 else if info == 26 then 4 else if info == 27 then 8 else 0
  }

  function FromBigEndian(b: Bytes): (v: nat)
  {
    if b == [] then 0 else FromBigEndian(b[..|b| - 1]) * 256 + b[|b| - 1]
  }

  /** Information values 28 to 30 are reserved; 31 carries no argument. */
  function DecodeHead(b: Bytes): (r: Option<Head>)
    ensures r.Some? ==> |r.value.rest| < |b|
  {
    if b == [] then None else
      var major, info := b[0] / 32, b[0] % 32;
      var k := ArgumentSize(info);
      if 28 <= info <= 30 || |b| < 1 + k then None
      else Some(Head(major, info, if info < 24 then info else FromBigEndian(b[1..1 + k]), b[1 + k..]))
  }

  lemma {:induction false} BigEndianInverse(v: nat, k: nat)
    requires v < Pow(256, k)
    ensures FromBigEndian(BigEndian(v, k)) == v
  {
    if k > 0 {
      DivBelow(v, 256, Pow(256, k - 1));
      BigEndianInverse(v / 256, k - 1);
      assert BigEndian(v, k)[..k - 1] == BigEndian(v / 256, k - 1);
    }
  }

  lemma PowersOf256()
    ensures Pow(256, 1) == 0x100 && Pow(256, 2) == 0x1_0000 && Pow(256, 4) == 0x1_0000_0000 && Pow(256, 8) == TWO64
  {
    assert Pow(256, 3) == 0x100_0000;
    assert Pow(256, 5) == 0x100_0000_0000;
    assert Pow(256, 6) == 0x1_0000_0000_0000;
  }

  lemma WideHead(major: u8, info: nat, v: nat, rest: Bytes)
    requires major <= MT_SIMPLE && major % 32 == 0 && 24 <= info <= 27 && v < Pow(256, ArgumentSize(info))
    ensures DecodeHead([major + info] + BigEndian(v, ArgumentSize(info)) + rest)
         == Some(Head(major / 32, info, v, rest))
  {
    hide Pow, BigEndian, FromBigEndian;
    var k := ArgumentSize(info);
    var b := [major + info] + BigEndian(v, k) + rest;
    assert b[0] / 32 == major / 32 && b[0] % 32 == info;
    assert b[1..1 + k] == BigEndian(v, k);
    assert b[1 + k..] == rest;
    BigEndianInverse(v, k);
  }

  /** Every header decodes to its major type and its full 64-bit argument. */
  lemma HeaderRoundTrip(major: u8, v: u64, rest: Bytes)
    requires major <= MT_SIMPLE && major % 32 == 0
    ensures var r := DecodeHead(Header(major, v) + rest);
            r.Some? && r.value == Head(major / 32, r.value.info, v, rest) && r.value.info <= 27
            && (r.value.info < 24 <==> v < 24)
  {
    hide Pow, BigEndian, FromBigEndian;
    PowersOf256();
    if v < 24 {
      var b := Header(major, v) + rest;
      assert b[0] == major + v && b[1..] == rest;
    } else {
      WideHead(major, if v <= 0xFF then 24 else if v <= 0xFFFF then 25 else if v <= 0xFFFF_FFFF then 26 else 27, v, rest);
    }
  }

  lemma {:induction false} FromBigEndianBound(b: Bytes)
    ensures FromBigEndian(b) < Pow(256, |b|)
  {
    if b != [] {
      FromBigEndianBound(b[..|b| - 1]);
    }
  }

  /** No header for the same major type and argument is shorter. */
  lemma HeaderShortest(major: u8, v: u64, h: Bytes)
    requires major <= MT_SIMPLE && major % 32 == 0
    requires DecodeHead(h).Some? && DecodeHead(h).value.info <= 27
    requires DecodeHead(h).value.major == major / 32 && DecodeHead(h).value.arg == v
    ensures |Header(major, v)| <= |h|
  {
    hide Pow, BigEndian, FromBigEndian;
    PowersOf256();
    var info := h[0] % 32;
    var k := ArgumentSize(info);
    FromBigEndianBound(h[1..1 + k]);
  }

  // --- Data items ---------------------------------------------------------------------------------

  datatype Item =
    | UInt(n: u64)
    | NInt(m: u64)
    | ByteString(bytes: Blob)
    | TextString(text: Blob)
    | Bool(b: bool)
    | Null
    | Array(items: seq<Item>)
    | Map(entries: seq<Entry>)

  datatype Entry = Entry(key: Item, value: Item)

  /** Section 3.1 of RFC 8949: major type 0 is its argument, major type 1 is -1 less its argument. */
  function IntegerValue(t: Item): (v: Option<int>)
  {
    match t
    case UInt(n) => Some(n)
    case NInt(m) => Some(-1 - m)
    case _ => None
  }

  function Encode(t: Item): (b: Bytes)
    decreases t, 1
  {
    match t
    case UInt(n) => Header(MT_UNSIGNED, n)
    case NInt(m) => Header(MT_NEGATIVE, m)
    case ByteString(s) => Header(MT_BYTES, |s|) + s
    case TextString(s) => Header(MT_TEXT, |s|) + s
    case Bool(b) => [MT_SIMPLE + (if b then 21 else 20)]
    case Null => [MT_SIMPLE + 22]
    case Array(items) => [MT_ARRAY + 31] + EncodeItems(items) + [BREAK_BYTE]
    case Map(entries) => [MT_MAP + 31] + EncodeEntries(entries) + [BREAK_BYTE]
  }

  function EncodeItems(ts: seq<Item>): (b: Bytes)
    decreases ts, 0
  {
    if ts == [] then [] else Encode(ts[0]) + EncodeItems(ts[1..])
  }

  function EncodeEntry(e: Entry): (b: Bytes)
    decreases e, 2
  {
    Encode(e.key) + Encode(e.value)
  }

  function EncodeEntries(es: seq<Entry>): (b: Bytes)
    decreases es, 0
  {
    if es == [] then [] else EncodeEntry(es[0]) + EncodeEntries(es[1..])
  }

  /** Reads one data item and returns the bytes after it. */
  function Decode(b: Bytes): (r: Option<(Item, Bytes)>)
    ensures r.Some? ==> |r.value.1| < |b|
    decreases |b|, 1
  {
    var h :- DecodeHead(b);
    if h.info == 31 then
      if h.major == 4 then
        var (items, rest) :- DecodeItems(h.rest);
        Some((Array(items), rest))
      else if h.major == 5 then
        var (entries, rest) :- DecodeEntries(h.rest);
        Some((Map(entries), rest))
      else None
    else if h.arg >= TWO64 then None
    else if h.major == 0 then Some((UInt(h.arg), h.rest))
    else if h.major == 1 then Some((NInt(h.arg), h.rest))
    else if h.major == 2 && h.arg <= |h.rest| then Some((ByteString(h.rest[..h.arg]), h.rest[h.arg..]))
    else if h.major == 3 && h.arg <= |h.rest| then Some((TextString(h.rest[..h.arg]), h.rest[h.arg..]))
    else if h.major == 7 && (h.info == 20 || h.info == 21) then Some((Bool(h.info == 21), h.rest))
    else if h.major == 7 && h.info == 22 then Some((Null, h.rest))
    else None
  }

  /** Items up to and including the break byte. */
  function DecodeItems(b: Bytes): (r: Option<(seq<Item>, Bytes)>)
    ensures r.Some? ==> |r.value.1| < |b|
    decreases |b|, 2
  {
    if b == [] then None
    else if b[0] == BREAK_BYTE then Some(([], b[1..]))
    else
      var (t, r1) :- Decode(b);
      var (ts, r2) :- DecodeItems(r1);
      Some(([t] + ts, r2))
  }

  function DecodeEntries(b: Bytes): (r: Option<(seq<Entry>, Bytes)>)
    ensures r.Some? ==> |r.value.1| < |b|
    decreases |b|, 2
  {
    if b == [] then None
    else if b[0] == BREAK_BYTE then Some(([], b[1..]))
    else
      var (k, r1) :- Decode(b);
      var (v, r2) :- Decode(r1);
      var (es, r3) :- DecodeEntries(r2);
      Some(([Entry(k, v)] + es, r3))
  }

  lemma FirstByte(t: Item)
    ensures Encode(t) != [] && Encode(t)[0] != BREAK_BYTE
  {
  }

  /** Section 3.1 and 3.2 of RFC 8949: the top three bits of an item are its major type; false, true, null
      and the brackets of indefinite containers are single bytes. */
  lemma InitialByte(t: Item)
    ensures var b := Encode(t);
            b != [] && match t
                       case UInt(_) => b[0] / 32 == 0
                       case NInt(_) => b[0] / 32 == 1
                       case ByteString(_) => b[0] / 32 == 2
                       case TextString(_) => b[0] / 32 == 3
                       case Bool(v) => b == [if v then 0xF5 else 0xF4]
                       case Null => b == [0xF6]
                       case Array(_) => b[0] == 0x9F && b[|b| - 1] == 0xFF
                       case Map(_) => b[0] == 0xBF && b[|b| - 1] == 0xFF
  {
    hide BigEndian, EncodeItems, EncodeEntries;
  }

  lemma StringDecodes(major: u8, s: Blob, rest: Bytes)
    requires major == MT_BYTES || major == MT_TEXT
    ensures Decode(Header(major, |s|) + s + rest)
         == Some((if major == MT_BYTES then ByteString(s) else TextString(s), rest))
  {
    hide Header, DecodeHead;
    HeaderRoundTrip(major, |s|, s + rest);
    assert Header(major, |s|) + s + rest == Header(major, |s|) + (s + rest);
    assert (s + rest)[..|s|] == s && (s + rest)[|s|..] == rest;
  }

  lemma IntegerDecodes(major: u8, v: u64, rest: Bytes)
    requires major == MT_UNSIGNED || major == MT_NEGATIVE
    ensures Decode(Header(major, v) + rest) == Some((if major == MT_UNSIGNED then UInt(v) else NInt(v), rest))
  {
    hide Header, DecodeHead;
    HeaderRoundTrip(major, v, rest);
  }

  /** A byte that is a whole header by itself. */
  lemma OneByteHead(byte: u8, rest: Bytes)
    requires byte % 32 < 24 || byte % 32 == 31
    ensures var r := DecodeHead([byte] + rest);
            r.Some? && r.value == Head(byte / 32, byte % 32, r.value.arg, rest) && r.value.arg < 24
  {
    assert ([byte] + rest)[1..] == rest;
  }

  /** Decoding inverts encoding and leaves every following byte untouched. */
  lemma {:induction false} DecodeEncode(t: Item, rest: Bytes)
    ensures Decode(Encode(t) + rest) == Some((t, rest))
    decreases t, 1
  {
    match t
    case Array(items) =>
      hide Decode;
      DecodeEncodeItems(items, rest);
      ArrayDecodes(items, rest);
    case Map(entries) =>
      hide Decode;
      DecodeEncodeEntries(entries, rest);
      MapDecodes(entries, rest);
    case _ =>
      hide Decode;
      ScalarDecodes(t, rest);
  }

  lemma ScalarDecodes(t: Item, rest: Bytes)
    requires !t.Array? && !t.Map?
    ensures Decode(Encode(t) + rest) == Some((t, rest))
  {
    hide Header, DecodeHead, DecodeItems, DecodeEntries;
    match t
    case UInt(n) => IntegerDecodes(MT_UNSIGNED, n, rest);
    case NInt(m) => IntegerDecodes(MT_NEGATIVE, m, rest);
    case ByteString(s) => StringDecodes(MT_BYTES, s, rest);
    case TextString(s) => StringDecodes(MT_TEXT, s, rest);
    case Bool(b) => OneByteHead(MT_SIMPLE + if b then 21 else 20, rest);
    case Null => OneByteHead(MT_SIMPLE + 22, rest);
  }

  lemma ArrayDecodes(items: seq<Item>, rest: Bytes)
    requires DecodeItems(EncodeItems(items) + [BREAK_BYTE] + rest) == Some((items, rest))
    ensures Decode(Encode(Array(items)) + rest) == Some((Array(items), rest))
  {
    hide DecodeHead, EncodeItems, DecodeItems, DecodeEntries;
    var body := EncodeItems(items) + [BREAK_BYTE] + rest;
    assert Encode(Array(items)) + rest == [MT_ARRAY + 31] + body;
    OneByteHead(MT_ARRAY + 31, body);
  }

  lemma MapDecodes(entries: seq<Entry>, rest: Bytes)
    requires DecodeEntries(EncodeEntries(entries) + [BREAK_BYTE] + rest) == Some((entries, rest))
    ensures Decode(Encode(Map(entries)) + rest) == Some((Map(entries), rest))
  {
    hide DecodeHead, EncodeEntries, DecodeItems, DecodeEntries;
    var body := EncodeEntries(entries) + [BREAK_BYTE] + rest;
    assert Encode(Map(entries)) + rest == [MT_MAP + 31] + body;
    OneByteHead(MT_MAP + 31, body);
  }

  lemma {:induction false} DecodeEncodeItems(ts: seq<Item>, rest: Bytes)
    ensures DecodeItems(EncodeItems(ts) + [BREAK_BYTE] + rest) == Some((ts, rest))
    decreases ts, 0
  {
    hide Encode, Decode;
    var tail := [BREAK_BYTE] + rest;
    var b := EncodeItems(ts) + [BREAK_BYTE] + rest;
    if ts == [] {
      assert b == tail && tail[1..] == rest;
    } else {
      var more := EncodeItems(ts[1..]) + [BREAK_BYTE] + rest;
      assert b == Encode(ts[0]) + more;
      FirstByte(ts[0]);
      DecodeEncode(ts[0], more);
      DecodeEncodeItems(ts[1..], rest);
      assert [ts[0]] + ts[1..] == ts;
    }
  }

  lemma {:induction false} DecodeEncodeEntries(es: seq<Entry>, rest: Bytes)
    ensures DecodeEntries(EncodeEntries(es) + [BREAK_BYTE] + rest) == Some((es, rest))
    decreases es, 0
  {
    hide Encode, Decode;
    var tail := [BREAK_BYTE] + rest;
    var b := EncodeEntries(es) + [BREAK_BYTE] + rest;
    if es == [] {
      assert b == tail && tail[1..] == rest;
    } else {
      var e := es[0];
      var more := EncodeEntries(es[1..]) + [BREAK_BYTE] + rest;
      assert b == EncodeEntry(e) + more;
      assert EncodeEntry(e) + more == Encode(e.key) + (Encode(e.value) + more);
      FirstByte(e.key);
      DecodeEncodeEntry(e, more);
      DecodeEncodeEntries(es[1..], rest);
      assert [e] + es[1..] == es;
    }
  }

  lemma {:induction false} DecodeEncodeEntry(e: Entry, more: Bytes)
    ensures Decode(Encode(e.key) + (Encode(e.value) + more)) == Some((e.key, Encode(e.value) + more))
    ensures Decode(Encode(e.value) + more) == Some((e.value, more))
    decreases e, 2
  {
    hide Encode, Decode;
    DecodeEncode(e.key, Encode(e.value) + more);
    DecodeEncode(e.value, more);
  }
}
