/** Whole runs of the CBOR writers: what they leave in the sink decodes to what was written. */
module CborRuns {
  import opened Words
  import opened Options
  import opened Output
  import opened Cbor
  import opened CborItems
  import opened CborWriter
  import opened WriterRuns

  type CborDoc = Doc<Key, Scalar>

  type CborMember = Member<Key, Scalar>

  // --- What the bytes of a document decode to -----------------------------------------------------

  /** The data item of a document: in a map, keys and values pair up in the order they were
      written, a key written alone taking one place. None when a map has an item left over. */
  function Decoded(d: CborDoc): (r: Option<Item>)
    decreases d, 1
  {
    match d
    case Leaf(s) => Some(ItemOf(s))
    case Arr(items) =>
      var ts :- DecodedAll(items);
      Some(Array(ts))
    case Obj(members) =>
      var es :- Paired(members, None);
      Some(Map(es))
  }

  function DecodedAll(ds: seq<CborDoc>): (r: Option<seq<Item>>)
    decreases ds, 0
  {
    if ds == [] then Some([])
    else
      var t :- Decoded(ds[0]);
      var ts :- DecodedAll(ds[1..]);
      Some([t] + ts)
  }

  function DecodedValue(m: CborMember): (r: Option<Item>)
    requires m.Member?
    decreases m, 2
  {
    Decoded(m.value)
  }

  /** The entries of the members after an item that still waits for its partner. */
  function Paired(ms: seq<CborMember>, waiting: Option<Item>): (r: Option<seq<Entry>>)
    decreases ms, 0
  {
    if ms == [] then (if waiting.None? then Some([]) else None)
    else if ms[0].Loose? then WithKey(KeyItem(ms[0].key), waiting, Paired(ms[1..], AfterKey(KeyItem(ms[0].key), waiting)))
    else
      var v :- DecodedValue(ms[0]);
      WithBoth(KeyItem(ms[0].key), v, waiting, Paired(ms[1..], if waiting.None? then None else Some(v)))
  }

  function AfterKey(k: Item, waiting: Option<Item>): (w: Option<Item>)
  {
    if waiting.None? then Some(k) else None
  }

  function WithKey(k: Item, waiting: Option<Item>, es: Option<seq<Entry>>): (r: Option<seq<Entry>>)
  {
    if waiting.None? || es.None? then es else Some([Entry(waiting.value, k)] + es.value)
  }

  function WithBoth(k: Item, v: Item, waiting: Option<Item>, es: Option<seq<Entry>>): (r: Option<seq<Entry>>)
  {
    if es.None? then None
    else Some([if waiting.None? then Entry(k, v) else Entry(waiting.value, k)] + es.value)
  }

  // --- When there is such an item -----------------------------------------------------------------

  function LooseKeys(ms: seq<CborMember>): (n: nat)
  {
    if ms == [] then 0 else (if ms[0].Loose? then 1 else 0) + LooseKeys(ms[1..])
  }

  /** Every map, at every depth, holds an even number of keys written alone. */
  predicate Balanced(d: CborDoc)
    decreases d, 1
  {
    match d
    case Leaf(_) => true
    case Arr(items) => forall i :: 0 <= i < |items| ==> Balanced(items[i])
    case Obj(members) => LooseKeys(members) % 2 == 0 && forall i :: 0 <= i < |members| ==> BalancedMember(members[i])
  }

  predicate BalancedMember(m: CborMember)
    decreases m, 2
  {
    m.Member? ==> Balanced(m.value)
  }

  lemma {:induction false} DecodedIff(d: CborDoc)
    ensures Decoded(d).Some? <==> Balanced(d)
    decreases d, 1
  {
    hide DecodedAll, Paired, LooseKeys, BalancedMember;
    match d
    case Leaf(_) =>
    case Arr(items) => DecodedAllIff(items);
    case Obj(members) => PairedIff(members, None);
  }

  lemma {:induction false} DecodedAllIff(ds: seq<CborDoc>)
    ensures DecodedAll(ds).Some? <==> forall i :: 0 <= i < |ds| ==> Balanced(ds[i])
    decreases ds, 0
  {
    hide Decoded, Balanced;
    if ds != [] {
      DecodedIff(ds[0]);
      DecodedAllIff(ds[1..]);
      assert forall i :: 0 < i < |ds| ==> ds[i] == ds[1..][i - 1];
    }
  }

  lemma {:induction false} DecodedValueIff(m: CborMember)
    requires m.Member?
    ensures DecodedValue(m).Some? <==> BalancedMember(m)
    decreases m, 2
  {
    hide Decoded, Balanced;
    DecodedIff(m.value);
  }

  lemma {:induction false} PairedIff(ms: seq<CborMember>, waiting: Option<Item>)
    ensures Paired(ms, waiting).Some? <==>
            (LooseKeys(ms) + (if waiting.Some? then 1 else 0)) % 2 == 0
            && forall i :: 0 <= i < |ms| ==> BalancedMember(ms[i])
    decreases ms, 0
  {
    hide DecodedValue, Balanced;
    if ms != [] {
      assert forall i :: 0 < i < |ms| ==> ms[i] == ms[1..][i - 1];
      if ms[0].Loose? {
        PairedIff(ms[1..], AfterKey(KeyItem(ms[0].key), waiting));
        hide KeyItem;
        assert BalancedMember(ms[0]);
      } else {
        DecodedValueIff(ms[0]);
        hide KeyItem, BalancedMember;
        if DecodedValue(ms[0]).Some? {
          PairedIff(ms[1..], if waiting.None? then None else Some(DecodedValue(ms[0]).value));
        }
      }
    }
  }

  // --- The decoder agrees -------------------------------------------------------------------------

  function Tagged<T>(r: Option<T>, rest: Bytes): (q: Option<(T, Bytes)>)
  {
    if r.None? then None else Some((r.value, rest))
  }

  function ItemsText(ds: seq<CborDoc>): (b: Bytes)
  {
    if ds == [] then [] else Print(CborFormat(), ds[0]) + ItemsText(ds[1..])
  }

  function MembersText(ms: seq<CborMember>): (b: Bytes)
  {
    if ms == [] then [] else PrintMember(CborFormat(), ms[0]) + MembersText(ms[1..])
  }

  lemma {:induction false} ItemsTextAppend(ds: seq<CborDoc>, d: CborDoc)
    ensures ItemsText(ds + [d]) == ItemsText(ds) + Print(CborFormat(), d)
  {
    hide Print;
    if ds == [] {
      assert ds + [d] == [d] && [d][1..] == [];
    } else {
      ItemsTextAppend(ds[1..], d);
      assert (ds + [d])[1..] == ds[1..] + [d];
    }
  }

  lemma {:induction false} MembersTextAppend(ms: seq<CborMember>, m: CborMember)
    ensures MembersText(ms + [m]) == MembersText(ms) + PrintMember(CborFormat(), m)
  {
    hide PrintMember;
    if ms == [] {
      assert ms + [m] == [m] && [m][1..] == [];
    } else {
      MembersTextAppend(ms[1..], m);
      assert (ms + [m])[1..] == ms[1..] + [m];
    }
  }

  lemma {:induction false} ItemsFromFront(ds: seq<CborDoc>)
    ensures PrintItems(CborFormat(), ds) == ItemsText(ds)
    decreases |ds|
  {
    hide Print;
    if ds != [] {
      var n := |ds| - 1;
      ItemsFromFront(ds[..n]);
      ItemsTextAppend(ds[..n], ds[n]);
      assert ds[..n] + [ds[n]] == ds;
      hide ItemsText;
    }
  }

  lemma {:induction false} MembersFromFront(ms: seq<CborMember>)
    ensures PrintMembers(CborFormat(), ms) == MembersText(ms)
    decreases |ms|
  {
    hide PrintMember;
    if ms != [] {
      var n := |ms| - 1;
      MembersFromFront(ms[..n]);
      MembersTextAppend(ms[..n], ms[n]);
      assert ms[..n] + [ms[n]] == ms;
      hide MembersText;
    }
  }

  /** The break byte begins no data item. */
  lemma BreakIsNoItem(b: Bytes)
    requires b != [] && b[0] == BREAK_BYTE
    ensures Decode(b).None?
  {
    hide DecodeItems, DecodeEntries;
  }

  lemma DocFirstByte(d: CborDoc)
    ensures Print(CborFormat(), d) != [] && Print(CborFormat(), d)[0] != BREAK_BYTE
  {
    hide Encode, PrintItems, PrintMembers;
    if d.Leaf? {
      FirstByte(ItemOf(d.s));
    }
  }

  /** The bytes of every document decode to its item, or not at all, whatever follows. */
  lemma {:induction false} DocDecodes(d: CborDoc, rest: Bytes)
    ensures Decode(Print(CborFormat(), d) + rest) == Tagged(Decoded(d), rest)
    decreases d, 1
  {
    hide Encode, Decode, DecodedAll, Paired, PrintItems, PrintMembers;
    match d
    case Leaf(s) =>
      DecodeEncode(ItemOf(s), rest);
    case Arr(items) =>
      ItemsDecode(items, rest);
      ItemsFromFront(items);
      ArrayHead(items, rest);
    case Obj(members) =>
      MembersDecode(members, None, rest);
      MembersFromFront(members);
      MapHead(members, rest);
  }

  lemma ArrayHead(items: seq<CborDoc>, rest: Bytes)
    requires PrintItems(CborFormat(), items) == ItemsText(items)
    ensures var r := DecodeItems(ItemsText(items) + [BREAK_BYTE] + rest);
            Decode(Print(CborFormat(), Arr(items)) + rest)
            == if r.None? then None else Some((Array(r.value.0), r.value.1))
  {
    hide DecodeHead, PrintItems, ItemsText, DecodeItems, DecodeEntries;
    var body := ItemsText(items) + [BREAK_BYTE] + rest;
    assert Print(CborFormat(), Arr(items)) + rest == [MT_ARRAY + 31] + body;
    OneByteHead(MT_ARRAY + 31, body);
  }

  lemma MapHead(members: seq<CborMember>, rest: Bytes)
    requires PrintMembers(CborFormat(), members) == MembersText(members)
    ensures var r := DecodeEntries(MembersText(members) + [BREAK_BYTE] + rest);
            Decode(Print(CborFormat(), Obj(members)) + rest)
            == if r.None? then None else Some((Map(r.value.0), r.value.1))
  {
    hide DecodeHead, PrintMembers, MembersText, DecodeItems, DecodeEntries;
    var body := MembersText(members) + [BREAK_BYTE] + rest;
    assert Print(CborFormat(), Obj(members)) + rest == [MT_MAP + 31] + body;
    OneByteHead(MT_MAP + 31, body);
  }

  lemma {:induction false} ItemsDecode(ds: seq<CborDoc>, rest: Bytes)
    ensures DecodeItems(ItemsText(ds) + [BREAK_BYTE] + rest) == Tagged(DecodedAll(ds), rest)
    decreases ds, 0
  {
    hide Print, Decode, Decoded;
    if ds == [] {
      assert ItemsText(ds) + [BREAK_BYTE] + rest == [BREAK_BYTE] + rest;
    } else {
      var tail := ItemsText(ds[1..]) + [BREAK_BYTE] + rest;
      DocDecodes(ds[0], tail);
      DocFirstByte(ds[0]);
      ItemsDecode(ds[1..], rest);
      assert ItemsText(ds) + [BREAK_BYTE] + rest == Print(CborFormat(), ds[0]) + tail;
    }
  }

  /** Entries when the first item has been read already. */
  function DecodePartner(k: Item, b: Bytes): (r: Option<(seq<Entry>, Bytes)>)
  {
    var (v, r1) :- Decode(b);
    var (es, r2) :- DecodeEntries(r1);
    Some(([Entry(k, v)] + es, r2))
  }

  /** Entries, with or without an item read ahead. */
  function DecodeRest(waiting: Option<Item>, b: Bytes): (r: Option<(seq<Entry>, Bytes)>)
  {
    if waiting.None? then DecodeEntries(b) else DecodePartner(waiting.value, b)
  }

  /** Reading one item, which begins an entry or completes one. */
  lemma RestStep(waiting: Option<Item>, t: Item, first: Bytes, tail: Bytes)
    requires first != [] && first[0] != BREAK_BYTE && Decode(first + tail) == Some((t, tail))
    ensures DecodeRest(waiting, first + tail) ==
            var r := DecodeRest(AfterKey(t, waiting), tail);
            if waiting.None? || r.None? then r else Some(([Entry(waiting.value, t)] + r.value.0, r.value.1))
  {
    hide Decode;
  }

  lemma RestFails(waiting: Option<Item>, b: Bytes)
    requires b != [] && Decode(b).None?
    ensures b[0] != BREAK_BYTE || waiting.Some? ==> DecodeRest(waiting, b).None?
  {
    hide Decode;
  }

  lemma {:induction false} MembersDecode(ms: seq<CborMember>, waiting: Option<Item>, rest: Bytes)
    ensures DecodeRest(waiting, MembersText(ms) + [BREAK_BYTE] + rest) == Tagged(Paired(ms, waiting), rest)
    decreases ms, 0
  {
    hide DecodedValue, DecodeRest, PrintMember, Decode;
    if ms == [] {
      NoMoreMembers(waiting, rest);
      assert MembersText(ms) + [BREAK_BYTE] + rest == [BREAK_BYTE] + rest;
    } else {
      var m, more := ms[0], ms[1..];
      var k, tail := KeyItem(m.key), MembersText(more) + [BREAK_BYTE] + rest;
      assert MembersText(ms) + [BREAK_BYTE] + rest == PrintMember(CborFormat(), m) + tail;
      if m.Loose? {
        hide KeyItem;
        MembersDecode(more, AfterKey(k, waiting), rest);
        LooseDecodes(m.key, waiting, tail);
      } else {
        ValueDecodes(m, tail);
        hide KeyItem;
        MemberDecodes(m, waiting, tail);
        if DecodedValue(m).Some? {
          MembersDecode(more, if waiting.None? then None else Some(DecodedValue(m).value), rest);
        }
      }
    }
  }

  lemma NoMoreMembers(waiting: Option<Item>, rest: Bytes)
    ensures DecodeRest(waiting, [BREAK_BYTE] + rest) == if waiting.None? then Some(([], rest)) else None
  {
    hide Decode;
    BreakIsNoItem([BREAK_BYTE] + rest);
    assert ([BREAK_BYTE] + rest)[1..] == rest;
  }

  lemma LooseDecodes(key: Key, waiting: Option<Item>, tail: Bytes)
    ensures DecodeRest(waiting, PrintMember(CborFormat(), Loose(key)) + tail) ==
            var r := DecodeRest(AfterKey(KeyItem(key), waiting), tail);
            if waiting.None? || r.None? then r else Some(([Entry(waiting.value, KeyItem(key))] + r.value.0, r.value.1))
  {
    hide DecodeRest, Decode, Encode, KeyItem;
    FirstByte(KeyItem(key));
    DecodeEncode(KeyItem(key), tail);
    RestStep(waiting, KeyItem(key), Encode(KeyItem(key)), tail);
  }

  lemma {:induction false} ValueDecodes(m: CborMember, tail: Bytes)
    requires m.Member?
    ensures Decode(Print(CborFormat(), m.value) + tail) == Tagged(DecodedValue(m), tail)
    decreases m, 2
  {
    hide Decode, Print, Decoded;
    DocDecodes(m.value, tail);
  }

  /** A key and a value: the two items of an entry, or the end of one and the start of another. */
  lemma MemberDecodes(m: CborMember, waiting: Option<Item>, tail: Bytes)
    requires m.Member? && Decode(Print(CborFormat(), m.value) + tail) == Tagged(DecodedValue(m), tail)
    ensures DecodedValue(m).None? ==> DecodeRest(waiting, PrintMember(CborFormat(), m) + tail).None?
    ensures DecodedValue(m).Some? ==>
              DecodeRest(waiting, PrintMember(CborFormat(), m) + tail) ==
              var r := DecodeRest(if waiting.None? then None else Some(DecodedValue(m).value), tail);
              if r.None? then None
              else Some(([if waiting.None? then Entry(KeyItem(m.key), DecodedValue(m).value)
                          else Entry(waiting.value, KeyItem(m.key))] + r.value.0, r.value.1))
  {
    hide DecodeRest, Decode, Encode, KeyItem, DecodedValue, Print;
    var k, value := KeyItem(m.key), Print(CborFormat(), m.value);
    var inner := AfterKey(k, waiting);
    LooseDecodes(m.key, waiting, value + tail);
    assert PrintMember(CborFormat(), m) + tail == PrintMember(CborFormat(), Loose(m.key)) + (value + tail);
    DocFirstByte(m.value);
    if DecodedValue(m).None? {
      RestFails(inner, value + tail);
    } else {
      RestStep(inner, DecodedValue(m).value, value, tail);
    }
  }

  // --- Documents whose keys all have values -------------------------------------------------------

  /** The data item that such a document stands for. */
  function ItemOfDoc(d: CborDoc): (t: Item)
    requires Plain(d)
    decreases d, 1
  {
    match d
    case Leaf(s) => ItemOf(s)
    case Arr(items) => Array(ItemsOf(items))
    case Obj(members) => Map(EntriesOf(members))
  }

  function ItemsOf(ds: seq<CborDoc>): (ts: seq<Item>)
    requires forall i :: 0 <= i < |ds| ==> Plain(ds[i])
    ensures |ts| == |ds|
    decreases ds, 0
  {
    if ds == [] then [] else [ItemOfDoc(ds[0])] + ItemsOf(ds[1..])
  }

  function EntryOf(m: CborMember): (e: Entry)
    requires PlainMember(m)
    decreases m, 2
  {
    Entry(KeyItem(m.key), ItemOfDoc(m.value))
  }

  function EntriesOf(ms: seq<CborMember>): (es: seq<Entry>)
    requires forall i :: 0 <= i < |ms| ==> PlainMember(ms[i])
    ensures |es| == |ms|
    decreases ms, 0
  {
    if ms == [] then [] else [EntryOf(ms[0])] + EntriesOf(ms[1..])
  }

  /** Members stay entries, and the bytes are the encoding of the item. */
  lemma {:induction false} PrintIsEncode(d: CborDoc)
    requires Plain(d)
    ensures Decoded(d) == Some(ItemOfDoc(d)) && Print(CborFormat(), d) == Encode(ItemOfDoc(d))
    decreases d, 1
  {
    hide EncodeItems, EncodeEntries, PrintItems, PrintMembers, ItemsOf, EntriesOf, DecodedAll, Paired, PlainMember;
    match d
    case Leaf(s) =>
    case Arr(items) =>
      ItemsFromFront(items);
      ItemsAreEncoded(items);
    case Obj(members) =>
      MembersFromFront(members);
      MembersAreEncoded(members);
  }

  lemma {:induction false} ItemsAreEncoded(ds: seq<CborDoc>)
    requires forall i :: 0 <= i < |ds| ==> Plain(ds[i])
    ensures DecodedAll(ds) == Some(ItemsOf(ds)) && ItemsText(ds) == EncodeItems(ItemsOf(ds))
    decreases ds, 0
  {
    hide Print, Encode, ItemOfDoc, Decoded, Plain;
    if ds != [] {
      PrintIsEncode(ds[0]);
      ItemsAreEncoded(ds[1..]);
      assert ([ItemOfDoc(ds[0])] + ItemsOf(ds[1..]))[1..] == ItemsOf(ds[1..]);
    }
  }

  lemma {:induction false} MemberIsEncoded(m: CborMember)
    requires PlainMember(m)
    ensures DecodedValue(m) == Some(EntryOf(m).value)
    ensures PrintMember(CborFormat(), m) == EncodeEntry(EntryOf(m))
    decreases m, 2
  {
    hide Print, Encode, ItemOfDoc, Decoded;
    PrintIsEncode(m.value);
  }

  lemma {:induction false} MembersAreEncoded(ms: seq<CborMember>)
    requires forall i :: 0 <= i < |ms| ==> PlainMember(ms[i])
    ensures Paired(ms, None) == Some(EntriesOf(ms)) && MembersText(ms) == EncodeEntries(EntriesOf(ms))
    decreases ms, 0
  {
    hide PrintMember, EncodeEntry, DecodedValue, Plain;
    if ms != [] {
      MemberIsEncoded(ms[0]);
      MembersAreEncoded(ms[1..]);
      assert ([EntryOf(ms[0])] + EntriesOf(ms[1..]))[1..] == EntriesOf(ms[1..]);
    }
  }

  // --- What the item says ---------------------------------------------------------------------------

  /** The keys and values of a map in the order of its bytes. */
  function Flat(es: seq<Entry>): (ts: seq<Item>)
  {
    if es == [] then [] else [es[0].key, es[0].value] + Flat(es[1..])
  }

  /** The item says what was written: scalars and keys one by one, in order, a key alone being one
      item of its map and a key with a value two. */
  predicate Says(d: CborDoc, t: Item)
    decreases d, 1
  {
    match d
    case Leaf(s) => Stands(s, t)
    case Arr(items) => t.Array? && SaysAll(items, t.items)
    case Obj(members) => t.Map? && SaysMembers(members, Flat(t.entries))
  }

  predicate SaysAll(ds: seq<CborDoc>, ts: seq<Item>)
    decreases ds, 0
  {
    if ds == [] then ts == [] else ts != [] && Says(ds[0], ts[0]) && SaysAll(ds[1..], ts[1..])
  }

  predicate SaysValue(m: CborMember, t: Item)
    requires m.Member?
    decreases m, 2
  {
    Says(m.value, t)
  }

  predicate SaysMembers(ms: seq<CborMember>, ts: seq<Item>)
    decreases ms, 0
  {
    if ms == [] then ts == []
    else if ms[0].Loose? then ts != [] && KeyStands(ms[0].key, ts[0]) && SaysMembers(ms[1..], ts[1..])
    else |ts| >= 2 && KeyStands(ms[0].key, ts[0]) && SaysValue(ms[0], ts[1]) && SaysMembers(ms[1..], ts[2..])
  }

  lemma {:induction false} DecodedSays(d: CborDoc)
    requires Decoded(d).Some?
    ensures Says(d, Decoded(d).value)
    decreases d, 1
  {
    hide DecodedAll, Paired, SaysAll, SaysMembers, Stands;
    match d
    case Leaf(s) => ItemsStand(s, TextKey([]));
    case Arr(items) => DecodedAllSays(items);
    case Obj(members) => PairedSays(members, None, Paired(members, None).value);
  }

  lemma {:induction false} DecodedAllSays(ds: seq<CborDoc>)
    requires DecodedAll(ds).Some?
    ensures SaysAll(ds, DecodedAll(ds).value)
    decreases ds, 0
  {
    hide Decoded, Says;
    if ds != [] {
      DecodedSays(ds[0]);
      DecodedAllSays(ds[1..]);
      var t, ts := Decoded(ds[0]).value, DecodedAll(ds[1..]).value;
      assert ([t] + ts)[1..] == ts;
    }
  }

  lemma {:induction false} ValueSays(m: CborMember)
    requires m.Member? && DecodedValue(m).Some?
    ensures SaysValue(m, DecodedValue(m).value)
    decreases m, 2
  {
    hide Decoded, Says;
    DecodedSays(m.value);
  }

  function Ahead(waiting: Option<Item>): (ts: seq<Item>)
  {
    if waiting.None? then [] else [waiting.value]
  }

  lemma {:induction false} PairedSays(ms: seq<CborMember>, waiting: Option<Item>, es: seq<Entry>)
    requires Paired(ms, waiting) == Some(es)
    ensures var k := |Ahead(waiting)|;
            k <= |Flat(es)| && Flat(es)[..k] == Ahead(waiting) && SaysMembers(ms, Flat(es)[k..])
    decreases ms, 0
  {
    hide DecodedValue, KeyStands;
    var k := |Ahead(waiting)|;
    if ms != [] {
      var m, more, key := ms[0], ms[1..], KeyItem(ms[0].key);
      ItemsStand(NullPtr, m.key);
      hide KeyItem;
      if m.Loose? {
        var next := AfterKey(key, waiting);
        var rest := Paired(more, next).value;
        PairedSays(more, next, rest);
        hide Paired, SaysMembers;
        FlatKey(key, waiting, rest, es);
        SaysLoose(ms, Flat(es)[k..]);
      } else {
        var v := DecodedValue(m).value;
        var next: Option<Item> := if waiting.None? then None else Some(v);
        var rest := Paired(more, next).value;
        ValueSays(m);
        PairedSays(more, next, rest);
        hide Paired, SaysMembers, SaysValue;
        FlatBoth(key, v, waiting, rest, es);
        SaysMember(ms, Flat(es)[k..]);
      }
    }
  }

  lemma SaysLoose(ms: seq<CborMember>, ts: seq<Item>)
    requires ms != [] && ms[0].Loose? && ts != [] && KeyStands(ms[0].key, ts[0]) && SaysMembers(ms[1..], ts[1..])
    ensures SaysMembers(ms, ts)
  {
  }

  lemma SaysMember(ms: seq<CborMember>, ts: seq<Item>)
    requires ms != [] && ms[0].Member? && |ts| >= 2 && KeyStands(ms[0].key, ts[0])
    requires SaysValue(ms[0], ts[1]) && SaysMembers(ms[1..], ts[2..])
    ensures SaysMembers(ms, ts)
  {
  }

  /** One item more: it waits for its partner, or it is the partner of the one that waits. */
  lemma FlatKey(key: Item, waiting: Option<Item>, rest: seq<Entry>, es: seq<Entry>)
    requires WithKey(key, waiting, Some(rest)) == Some(es)
    requires var n := |Ahead(AfterKey(key, waiting))|;
             n <= |Flat(rest)| && Flat(rest)[..n] == Ahead(AfterKey(key, waiting))
    ensures var k, n := |Ahead(waiting)|, |Ahead(AfterKey(key, waiting))|;
            && k < |Flat(es)| && Flat(es)[..k] == Ahead(waiting) && Flat(es)[k..][0] == key
            && Flat(es)[k..][1..] == Flat(rest)[n..]
  {
    if waiting.Some? {
      assert es[1..] == rest;
      assert Flat(es) == [waiting.value, key] + Flat(rest);
      assert Flat(rest)[0..] == Flat(rest);
    } else {
      assert Flat(es)[0..] == Flat(es) && Flat(rest)[0] == key;
    }
  }

  lemma FlatBoth(key: Item, v: Item, waiting: Option<Item>, rest: seq<Entry>, es: seq<Entry>)
    requires WithBoth(key, v, waiting, Some(rest)) == Some(es)
    requires var next: Option<Item> := if waiting.None? then None else Some(v);
             |Ahead(next)| <= |Flat(rest)| && Flat(rest)[..|Ahead(next)|] == Ahead(next)
    ensures var k := |Ahead(waiting)|;
            && k + 2 <= |Flat(es)| && Flat(es)[..k] == Ahead(waiting)
            && Flat(es)[k..][0] == key && Flat(es)[k..][1] == v
            && Flat(es)[k..][2..] == Flat(rest)[k..]
  {
    assert es[1..] == rest;
    if waiting.None? {
      assert Flat(es) == [key, v] + Flat(rest);
      assert Flat(rest)[0..] == Flat(rest) && Flat(es)[0..] == Flat(es);
    } else {
      assert Flat(es) == [waiting.value, key] + Flat(rest);
      assert Flat(rest)[..1][0] == v;
      assert Flat(es)[1..][2..] == Flat(rest)[1..];
    }
  }

  // --- Runs -----------------------------------------------------------------------------------------

  /** For every disciplined run, whatever its nesting and however its writers were moved, ended or
      destroyed, the sink decodes if and only if every map was given an even number of keys alone.
      It then decodes to the keys and values paired up in the order written, an item that says what
      was written, which is exactly the tree written when every key has its value; and following
      bytes are left untouched. */
  lemma RunDecodes(ops: seq<CborOp>, document: CborDoc, rest: Bytes)
    requires Run(CborFormat(), Start(), ops).Some?
    requires Written(Nothing(), ops) == Some(Builder([], Some(document)))
    ensures var out := Run(CborFormat(), Start(), ops).value.out;
            Decode(out + rest) == Tagged(Decoded(document), rest)
    ensures Decode(Run(CborFormat(), Start(), ops).value.out + rest).Some? <==> Balanced(document)
    ensures var r := Decode(Run(CborFormat(), Start(), ops).value.out + rest);
            r.Some? ==> Says(document, r.value.0)
    ensures Plain(document) ==> Decoded(document) == Some(ItemOfDoc(document))
    ensures Plain(document) ==> Run(CborFormat(), Start(), ops).value.out == Encode(ItemOfDoc(document))
  {
    hide Print, Encode, Decode, Run, Written, Decoded, Balanced, Plain, ItemOfDoc, Says;
    RunPrintsDocument(CborFormat(), ops, document);
    DocDecodes(document, rest);
    DecodedIff(document);
    if Decoded(document).Some? {
      DecodedSays(document);
    }
    if Plain(document) {
      PrintIsEncode(document);
    }
  }

  /** A map closed after one key does not decode. */
  lemma KeyAloneUndecoded(k: Key)
    ensures Run(CborFormat(), Start(), KeyAlone<Key, Scalar>(k)).Some?
    ensures Decode(Run(CborFormat(), Start(), KeyAlone<Key, Scalar>(k)).value.out).None?
  {
    KeysRun<Key, Scalar, u8>(CborFormat(), k, k);
    KeysWritten<Key, Scalar>(k, k);
    OneLoose(k);
    hide Run, Written, Decode, Balanced;
    RunDecodes(KeyAlone(k), Obj([Loose(k)]), []);
    var out := Run(CborFormat(), Start(), KeyAlone<Key, Scalar>(k)).value.out;
    assert out + [] == out;
  }

  lemma OneLoose(k: Key)
    ensures !Balanced(Obj([Loose(k)]))
  {
    assert [CborMember.Loose(k)][1..] == [];
    assert LooseKeys([Loose(k)]) == 1;
  }

  /** A map closed after two keys has them as an entry. */
  lemma TwoKeysDecoded(a: Key, b: Key)
    ensures Run(CborFormat(), Start(), TwoKeys<Key, Scalar>(a, b)).Some?
    ensures Decode(Run(CborFormat(), Start(), TwoKeys<Key, Scalar>(a, b)).value.out)
         == Some((Map([Entry(KeyItem(a), KeyItem(b))]), []))
  {
    KeysRun<Key, Scalar, u8>(CborFormat(), a, b);
    KeysWritten<Key, Scalar>(a, b);
    TwoLoose(a, b);
    hide Run, Written, Decode, Decoded;
    RunDecodes(TwoKeys(a, b), Obj([Loose(a), Loose(b)]), []);
    var out := Run(CborFormat(), Start(), TwoKeys<Key, Scalar>(a, b)).value.out;
    assert out + [] == out;
  }

  lemma TwoLoose(a: Key, b: Key)
    ensures Decoded(Obj([Loose(a), Loose(b)])) == Some(Map([Entry(KeyItem(a), KeyItem(b))]))
  {
    var ms := [CborMember.Loose(a), Loose(b)];
    assert ms[1..] == [Loose(b)] && ms[1..][1..] == [];
    var none: seq<CborMember> := [];
    assert Paired(none, None) == Some([]);
    assert [Entry(KeyItem(a), KeyItem(b))] + [] == [Entry(KeyItem(a), KeyItem(b))];
    assert Paired([Loose(b)], Some(KeyItem(a))) == Some([Entry(KeyItem(a), KeyItem(b))]);
  }

  // --- Any document, written through the objects -----------------------------------------------

  /** What the calls of the writers can express: integer keys go with integers, nested containers
      have text keys, and an array nests maps only. */
  predicate Expressible(d: CborDoc)
    decreases d, 1
  {
    match d
    case Leaf(_) => true
    case Arr(items) => forall i :: 0 <= i < |items| ==> !items[i].Arr? && Expressible(items[i])
    case Obj(members) => forall i :: 0 <= i < |members| ==> ExpressibleMember(members[i])
  }

  predicate ExpressibleMember(m: CborMember)
    decreases m, 2
  {
    m.Member? ==> (m.key.IntKey? ==> m.value.Leaf? && m.value.s.Integer?) && Expressible(m.value)
  }

  lemma PrintMembersStep(ms: seq<CborMember>, i: nat)
    requires i < |ms|
    ensures PrintMembers(CborFormat(), ms[..i + 1])
         == PrintMembers(CborFormat(), ms[..i]) + PrintMember(CborFormat(), ms[i])
  {
    hide PrintMember;
    assert ms[..i + 1][..i] == ms[..i];
  }

  lemma PrintItemsStep(ds: seq<CborDoc>, i: nat)
    requires i < |ds|
    ensures PrintItems(CborFormat(), ds[..i + 1]) == PrintItems(CborFormat(), ds[..i]) + Print(CborFormat(), ds[i])
  {
    hide Print;
    assert ds[..i + 1][..i] == ds[..i];
  }

  method WriteMembers(w: MapWriter, ms: seq<CborMember>)
    requires !w.closed && forall i :: 0 <= i < |ms| ==> ExpressibleMember(ms[i])
    modifies w.out
    ensures w.out.text == old(w.out.text) + PrintMembers(CborFormat(), ms)
    decreases ms, 0
  {
    hide PrintMembers, PrintMember;
    assert PrintMembers(CborFormat(), ms[..0]) == [] by { NoMembers(); }
    for i := 0 to |ms|
      invariant w.out.text == old(w.out.text) + PrintMembers(CborFormat(), ms[..i])
    {
      PrintMembersStep(ms, i);
      WriteMember(w, ms[i]);
    }
    assert ms[..|ms|] == ms;
  }

  lemma NoMembers()
    ensures PrintMembers(CborFormat(), []) == []
    ensures PrintItems(CborFormat(), []) == []
  {
  }

  method WriteMember(w: MapWriter, m: CborMember)
    requires !w.closed && ExpressibleMember(m)
    modifies w.out
    ensures w.out.text == old(w.out.text) + PrintMember(CborFormat(), m)
    decreases m, 2
  {
    hide PrintMembers, PrintItems, Encode;
    match m
    case Loose(k) =>
      w.PutKey(k);
    case Member(k, Leaf(s)) =>
      w.Kv(k, s);
    case Member(k, Obj(members)) =>
      var child := w.NestedMap(k.text);
      WriteMembers(child, members);
      child.End();
    case Member(k, Arr(items)) =>
      var child := w.NestedArray(k.text);
      WriteItems(child, items);
      child.End();
  }

  method WriteItems(w: ArrayWriter, ds: seq<CborDoc>)
    requires !w.closed && forall i :: 0 <= i < |ds| ==> !ds[i].Arr? && Expressible(ds[i])
    modifies w.out
    ensures w.out.text == old(w.out.text) + PrintItems(CborFormat(), ds)
    decreases ds, 0
  {
    hide PrintItems, Print;
    assert PrintItems(CborFormat(), ds[..0]) == [] by { NoMembers(); }
    for i := 0 to |ds|
      invariant w.out.text == old(w.out.text) + PrintItems(CborFormat(), ds[..i])
    {
      PrintItemsStep(ds, i);
      WriteItem(w, ds[i]);
    }
    assert ds[..|ds|] == ds;
  }

  method WriteItem(w: ArrayWriter, d: CborDoc)
    requires !w.closed && !d.Arr? && Expressible(d)
    modifies w.out
    ensures w.out.text == old(w.out.text) + Print(CborFormat(), d)
    decreases d, 1
  {
    hide PrintMembers, Encode;
    match d
    case Leaf(s) =>
      w.Val(s);
    case Obj(members) =>
      var child := w.Map();
      WriteMembers(child, members);
      child.End();
  }

  /** A document written with the writer objects, from a map or an array down, decodes to its item if
      it has one: to what was written if each key has its value. */
  method WriteDocument(document: CborDoc) returns (out: Sink<u8>)
    requires Expressible(document) && !document.Leaf?
    ensures fresh(out) && Decode(out.text) == Tagged(Decoded(document), [])
    ensures Decode(out.text).Some? ==> Says(document, Decode(out.text).value.0)
    ensures Plain(document) ==> Decode(out.text) == Some((ItemOfDoc(document), []))
  {
    hide PrintMembers, PrintItems, Decode, Decoded, Plain, ItemOfDoc, Says;
    if Decoded(document).Some? {
      DecodedSays(document);
    }
    out := new Sink<u8>();
    match document {
      case Obj(members) =>
        var w := new MapWriter(out);
        WriteMembers(w, members);
        w.End();
      case Arr(items) =>
        var w := new ArrayWriter(out);
        WriteItems(w, items);
        w.End();
    }
    assert out.text == Print(CborFormat(), document);
    DocDecodes(document, []);
    assert out.text + [] == out.text;
    if Plain(document) {
      PrintIsEncode(document);
    }
  }
}
