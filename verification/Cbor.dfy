/** CBOR headers: the initial byte and the argument of section 3 of RFC 8949. */
module Cbor {
  import opened Words
  import opened Output
  import opened Digits

  type Bytes = seq<u8>
  /** A string whose size is a 64-bit number. */
  type Blob = s: seq<u8> | |s| < TWO64

  const MT_UNSIGNED: u8 := 0x00
  const MT_NEGATIVE: u8 := 0x20
  const MT_BYTES: u8 := 0x40
  const MT_TEXT: u8 := 0x60
  const MT_ARRAY: u8 := 0x80
  const MT_MAP: u8 := 0xA0
  const MT_SIMPLE: u8 := 0xE0
  const BREAK_BYTE: u8 := 0xFF

  // --- Headers ----------------------------------------------------------------------------------

  /** The k low-order bytes of v, most significant first. */
  function BigEndian(v: nat, k: nat): (b: Bytes)
    ensures |b| == k
  {
    if k == 0 then [] else BigEndian(v / 256, k - 1) + [v % 256]
  }

  function Header(major: u8, v: u64): (b: Bytes)
    requires major <= MT_SIMPLE && major % 32 == 0
  {
    if v < 24 then [major + v]
    else if v <= 0xFF then [major + 24] + BigEndian(v, 1)
    else if v <= 0xFFFF then [major + 25] + BigEndian(v, 2)
    else if v <= 0xFFFF_FFFF then [major + 26] + BigEndian(v, 4)
    else [major + 27] + BigEndian(v, 8)
  }

  lemma {:induction false} BigEndianByte(v: nat, k: nat, i: nat)
    requires i < k
    ensures BigEndian(v, k)[i] == v / Pow(256, k - 1 - i) % 256
  {
    if i < k - 1 {
      BigEndianByte(v / 256, k - 1, i);
      DivDiv(v, 256, Pow(256, k - 2 - i));
    }
  }

  lemma NestedDivision(v: nat)
    ensures v / 256 / 256 == v / 0x1_0000
    ensures v / 256 / 256 / 256 == v / 0x100_0000
  {
  }

  lemma FourBytes(v: nat, v1: nat, v2: nat, v3: nat)
    requires v1 == v / 256 && v2 == v1 / 256 && v3 == v2 / 256
    ensures BigEndian(v, 1) == [v % 256]
    ensures BigEndian(v, 2) == [v1 % 256, v % 256]
    ensures BigEndian(v, 4) == [v3 % 256, v2 % 256, v1 % 256, v % 256]
  {
    assert BigEndian(v3, 1) == [v3 % 256];
    assert BigEndian(v2, 2) == [v3 % 256, v2 % 256];
    assert BigEndian(v1, 3) == [v3 % 256, v2 % 256, v1 % 256];
  }

  lemma ShortBigEndian(v: nat)
    ensures BigEndian(v, 1) == [v % 256]
    ensures BigEndian(v, 2) == [v / 0x100 % 256, v % 256]
    ensures BigEndian(v, 4) == [v / 0x100_0000 % 256, v / 0x1_0000 % 256, v / 0x100 % 256, v % 256]
  {
    hide BigEndian;
    NestedDivision(v);
    FourBytes(v, v / 256, v / 0x1_0000, v / 0x100_0000);
  }

  method PutShifted(out: Sink<u8>, val: u64)
    modifies out
    ensures out.text == old(out.text) + BigEndian(val, 8)
  {
    var i := 8;
    while i > 0
      invariant 0 <= i <= 8
      invariant out.text == old(out.text) + BigEndian(val, 8)[..8 - i]
    {
      i := i - 1;
      BigEndianByte(val, 8, 7 - i);
      out.Put(val / Pow(256, i) % 0x100);
    }
  }

  method EncodeHeader(out: Sink<u8>, major: u8, val: u64)
    requires major <= MT_SIMPLE && major % 32 == 0
    modifies out
    ensures out.text == old(out.text) + Header(major, val)
  {
    hide Header, BigEndian;
    HeaderParts(major, val);
    if val < 24 {
      out.Put(major + val);
    } else if val <= 0xFF {
      out.Put(major + 24);
      out.Put(val);
    } else if val <= 0xFFFF {
      out.Put(major + 25);
      PutTwo(out, val);
    } else if val <= 0xFFFF_FFFF {
      out.Put(major + 26);
      PutFour(out, val);
    } else {
      out.Put(major + 27);
      PutShifted(out, val);
    }
  }

  lemma HeaderParts(major: u8, v: u64)
    requires major <= MT_SIMPLE && major % 32 == 0
    ensures v < 24 ==> Header(major, v) == [major + v]
    ensures 24 <= v <= 0xFF ==> Header(major, v) == [major + 24] + [v]
    ensures 0xFF < v <= 0xFFFF ==> Header(major, v) == [major + 25] + BigEndian(v, 2)
    ensures 0xFFFF < v <= 0xFFFF_FFFF ==> Header(major, v) == [major + 26] + BigEndian(v, 4)
    ensures v > 0xFFFF_FFFF ==> Header(major, v) == [major + 27] + BigEndian(v, 8)
  {
    hide BigEndian;
    ShortBigEndian(v);
  }

  method PutTwo(out: Sink<u8>, val: u64)
    modifies out
    ensures out.text == old(out.text) + BigEndian(val, 2)
  {
    hide BigEndian;
    ShortBigEndian(val);
    out.Put(val / 0x100 % 0x100);
    out.Put(val % 0x100);
  }

  method PutFour(out: Sink<u8>, val: u64)
    modifies out
    ensures out.text == old(out.text) + BigEndian(val, 4)
  {
    hide BigEndian;
    ShortBigEndian(val);
    out.Put(val / 0x100_0000 % 0x100);
    out.Put(val / 0x1_0000 % 0x100);
    out.Put(val / 0x100 % 0x100);
    out.Put(val % 0x100);
  }
}
