/** IPv6 text: the longest zero run, its compression, and the groups around it. */
module Ipv6 {
  import opened Words
  import opened Output
  import opened Digits
  import opened Integers

  type Address = w: seq<u16> | |w| == 8 witness [0, 0, 0, 0, 0, 0, 0, 0]

  // --- The zero run to compress ----------------------------------------------------------------

  predicate ZeroRun(w: Address, start: nat, length: nat)
  {
    start + length <= 8 && forall i :: start <= i < start + length ==> w[i] == 0
  }

  /** Section 4.2 of RFC 5952: the leftmost of the longest zero runs, and none shorter than two. */
  ghost predicate IsBest(w: Address, start: nat, length: nat)
  {
    && (if length == 0 then start == 8 else length >= 2 && ZeroRun(w, start, length))
    && forall a: nat, m: nat :: m >= 2 && ZeroRun(w, a, m) ==> m <= length && (m == length ==> start <= a)
  }

  /** Nothing is compressed exactly when no two zero words are neighbours. Otherwise the compressed
      words are zero and cannot be extended, and any other stretch of zero words is shorter or later. */
  lemma BestRun(w: Address, start: nat, length: nat, a: nat, m: nat)
    requires IsBest(w, start, length)
    ensures length == 0 <==> forall i :: 0 <= i < 7 ==> w[i] != 0 || w[i + 1] != 0
    ensures length > 0 ==> start + length <= 8 && forall i :: start <= i < start + length ==> w[i] == 0
    ensures length > 0 && start > 0 ==> w[start - 1] != 0
    ensures length > 0 && start + length < 8 ==> w[start + length] != 0
    ensures length > 0 && a + m <= 8 && (forall i :: a <= i < a + m ==> w[i] == 0) ==> m < length || (m == length && start <= a)
  {
    if length == 0 {
      forall i | 0 <= i < 7 ensures w[i] != 0 || w[i + 1] != 0 {
        assert w[i] == 0 && w[i + 1] == 0 ==> ZeroRun(w, i, 2);
      }
    } else {
      assert w[start] == 0 && w[start + 1] == 0;
      assert start > 0 && w[start - 1] == 0 ==> ZeroRun(w, start - 1, length + 1);
      assert start + length < 8 && w[start + length] == 0 ==> ZeroRun(w, start, length + 1);
      assert m >= 2 && a + m <= 8 && (forall i :: a <= i < a + m ==> w[i] == 0) ==> ZeroRun(w, a, m);
    }
  }

  lemma BestIsUnique(w: Address, s: nat, l: nat, s': nat, l': nat)
    requires IsBest(w, s, l) && IsBest(w, s', l')
    ensures s == s' && l == l'
  {
  }

  /** Among the runs that end at or before `limit`. */
  ghost predicate BestBefore(w: Address, limit: nat, start: nat, length: nat)
  {
    && (if length == 0 then start == 8 else length >= 2 && ZeroRun(w, start, length) && start + length <= limit)
    && forall a: nat, m: nat :: m >= 2 && a + m <= limit && ZeroRun(w, a, m) ==> m <= length && (m == length ==> start <= a)
  }

  method FindBestRun(w: Address) returns (start: nat, length: nat)
    ensures IsBest(w, start, length)
  {
    start, length := 8, 0;
    var index := 0;
    while index < 8
      invariant 0 <= index <= 8
      invariant BestBefore(w, index, start, length)
      invariant 0 < index < 8 ==> w[index - 1] != 0 || w[index] != 0
    {
      if w[index] != 0 {
        NoRunEndsHere(w, index, start, length);
        index := index + 1;
      } else {
        var first := index;
        while index < 8 && w[index] == 0
          invariant first <= index <= 8 && ZeroRun(w, first, index - first)
        {
          index := index + 1;
        }
        var run := index - first;
        RunEndsHere(w, first, index, start, length);
        if run >= 2 && run > length {
          start, length := first, run;
        }
      }
    }
  }

  lemma NoRunEndsHere(w: Address, index: nat, start: nat, length: nat)
    requires index < 8 && w[index] != 0 && BestBefore(w, index, start, length)
    ensures BestBefore(w, index + 1, start, length)
  {
    forall a: nat, m: nat | m >= 2 && a + m <= index + 1 && ZeroRun(w, a, m) ensures a + m <= index {
      assert w[a + m - 1] == 0;
    }
  }

  /** A maximal run is compared once; shorter pieces of it are no better. */
  lemma RunEndsHere(w: Address, first: nat, index: nat, start: nat, length: nat)
    requires first < index <= 8 && ZeroRun(w, first, index - first)
    requires first == 0 || w[first - 1] != 0
    requires BestBefore(w, first, start, length)
    ensures var run := index - first;
            if run >= 2 && run > length then BestBefore(w, index, first, run) else BestBefore(w, index, start, length)
  {
    assert first == 0 || w[first - 1] != 0;
  }

  // --- Printing ------------------------------------------------------------------------------------

  function Group(v: u16): (s: string)
  {
    Text(v, 16)
  }

  /** Section 4.1 and 4.3 of RFC 5952: no leading zero, lower case, at most four digits. */
  lemma GroupIsCanonical(v: u16)
    ensures 1 <= |Group(v)| <= 4 && (Group(v)[0] == '0' ==> Group(v) == "0")
    ensures forall i :: 0 <= i < |Group(v)| ==> '0' <= Group(v)[i] <= '9' || 'a' <= Group(v)[i] <= 'f'
    ensures Read(Group(v), 16) == v
    ensures AllDigits(Group(v), 16)
  {
    assert Pow(16, 4) == TWO16;
    TextLength(v, 16, false, 4);
    NoLeadingZero(v, 16, false);
    TextStep(v, 16, false);
    ReadText(v, 16, false);
    TextIsDigits(v, 16, false);
    TextCase(v, 16, false);
  }

  /** Groups with a colon before each but the first. */
  function Joined(w: seq<u16>): (s: string)
  {
    if w == [] then "" else Joined(w[..|w| - 1]) + (if |w| == 1 then "" else ":") + Group(w[|w| - 1])
  }

  function AddressText(w: Address, start: nat, length: nat): (s: string)
    requires length == 0 || start + length <= 8
  {
    if length == 0 then Joined(w) else Joined(w[..start]) + "::" + Joined(w[start + length..])
  }

  function ZoneText(scope: u32): (s: string)
  {
    if scope == 0 then "" else "%" + Text(scope, 10)
  }

  /** The text written once the loop stands at index. */
  function Partial(w: Address, start: nat, length: nat, index: nat): (s: string)
    requires index <= 8 && (length == 0 || start + length <= 8)
    requires length == 0 || index <= start || start + length <= index
  {
    if length == 0 || index <= start then Joined(w[..index])
    else Joined(w[..start]) + "::" + Joined(w[start + length..index])
  }

  lemma PartialStep(w: Address, start: nat, length: nat, index: nat)
    requires index < 8 && (if length == 0 then start == 8 else start + length <= 8)
    requires length == 0 || index < start || start + length <= index
    ensures Partial(w, start, length, index + 1)
         == Partial(w, start, length, index)
            + (if index != 0 && index != start + length then ":" else "") + Group(w[index])
  {
    hide Group;
    if length == 0 || index < start {
      assert w[..index + 1][..index] == w[..index];
    } else {
      assert w[start + length..index + 1][..index - start - length] == w[start + length..index];
    }
  }

  method WriteAddress(out: Sink<char>, w: Address, start: nat, length: nat)
    requires if length == 0 then start == 8 else length >= 2 && start + length <= 8
    modifies out
    ensures out.text == old(out.text) + AddressText(w, start, length)
  {
    hide Joined, Text, Group, Partial;
    var index := 0;
    PartialEnds(w, start, length);
    while index < 8
      invariant 0 <= index <= 8 && (length == 0 || index <= start || start + length <= index)
      invariant out.text == old(out.text) + Partial(w, start, length, index)
    {
      if index == start {
        out.Write("::");
        index := index + length;
      } else {
        PartialStep(w, start, length, index);
        if index != 0 && index != start + length {
          out.Put(':');
        }
        WriteGroup(out, w[index]);
        index := index + 1;
      }
    }
  }

  method WriteGroup(out: Sink<char>, v: u16)
    modifies out
    ensures out.text == old(out.text) + Group(v)
  {
    hide Text, Padded;
    FormatUnsigned(out, Hex, v, false, 0);
    UnsignedText(v, 16, 0, false);
  }

  lemma PartialEnds(w: Address, start: nat, length: nat)
    requires if length == 0 then start == 8 else length >= 2 && start + length <= 8
    ensures Partial(w, start, length, 0) == ""
    ensures Partial(w, start, length, 8) == AddressText(w, start, length)
    ensures length > 0 ==> Partial(w, start, length, start + length) == Partial(w, start, length, start) + "::"
  {
    assert w[..8] == w;
    assert length > 0 ==> w[start + length..8] == w[start + length..] && w[start + length..start + length] == [];
  }

  /** Eight words from sixteen bytes, the high byte of each first. */
  lemma HighLow(high: int, low: int)
    requires 0 <= high < 256 && 0 <= low < 256
    ensures var v := (high * 256 + low) % TWO16;
            0 <= v < TWO16 && v / 256 == high && v % 256 == low
  {
  }

  method WordsOf(bytes: seq<u8>) returns (w: Address)
    requires |bytes| == 16
    ensures forall i :: 0 <= i < 8 ==> w[i] / 256 == bytes[2 * i] && w[i] % 256 == bytes[2 * i + 1]
  {
    var words := new u16[8];
    for index := 0 to 8
      invariant forall i :: 0 <= i < index ==> words[i] / 256 == bytes[2 * i] && words[i] % 256 == bytes[2 * i + 1]
    {
      var high: int := bytes[index * 2];
      var low := bytes[index * 2 + 1];
      HighLow(high, low);
      words[index] := (high * 256 + low) % TWO16;
    }
    w := words[..];
  }

  method WriteZone(out: Sink<char>, scope: u32)
    modifies out
    ensures out.text == old(out.text) + ZoneText(scope)
  {
    hide Text;
    if scope != 0 {
      out.Put('%');
      WriteDecimal(out, scope);
    }
  }

  lemma BestShape(w: Address, start: nat, length: nat)
    requires IsBest(w, start, length)
    ensures if length == 0 then start == 8 else length >= 2 && start + length <= 8
  {
  }
}
