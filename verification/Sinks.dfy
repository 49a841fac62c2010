/** The bounded sinks: what a buffer holds depends only on the bytes written since the last reset,
    never on how they were cut into writes. */
module Sinks {
  import opened Words

  /** The part of a text that fits in n places. */
  function Kept(s: string, n: nat): (r: string)
    ensures r <= s && |r| <= n && (|r| < n ==> r == s)
  {
    if |s| <= n then s else s[..n]
  }

  lemma KeptAppend(a: string, b: string, n: nat)
    ensures Kept(a + b, n) == Kept(a, n) + Kept(b, n - |Kept(a, n)|)
  {
  }

  function Joined(chunks: seq<string>): (s: string)
  {
    if chunks == [] then "" else Joined(chunks[..|chunks| - 1]) + chunks[|chunks| - 1]
  }

  /** The buffer after writing chunk by chunk, each cut to the room that is left. */
  function Filled(chunks: seq<string>, n: nat): (s: string)
    ensures |s| <= n
  {
    if chunks == [] then ""
    else
      var before := Filled(chunks[..|chunks| - 1], n);
      before + Kept(chunks[|chunks| - 1], n - |before|)
  }

  lemma {:induction false} ChunkingIsInvisible(chunks: seq<string>, n: nat)
    ensures Filled(chunks, n) == Kept(Joined(chunks), n)
  {
    if chunks != [] {
      var k := |chunks| - 1;
      ChunkingIsInvisible(chunks[..k], n);
      KeptAppend(Joined(chunks[..k]), chunks[k], n);
    }
  }

  /** Copies the first n characters of a view to a place in a buffer. */
  method CopyN(sv: string, n: nat, dst: array<char>, at: nat)
    requires n <= |sv| && at + n <= dst.Length
    modifies dst
    ensures dst[..] == old(dst[..at]) + sv[..n] + old(dst[at + n..])
  {
    var i := 0;
    while i < n
      invariant 0 <= i <= n
      invariant forall k :: 0 <= k < at ==> dst[k] == old(dst[k])
      invariant forall k :: 0 <= k < i ==> dst[at + k] == sv[k]
      invariant forall k :: at + i <= k < dst.Length ==> dst[k] == old(dst[k])
    {
      dst[at + i] := sv[i];
      i := i + 1;
    }
  }

  /** span_sink and buffer_sink: a fixed buffer and a write position. */
  class BoundedSink {
    const buf: array<char>
    var pos: nat
    ghost var written: string

    ghost predicate Valid()
      reads this, buf
    {
      pos <= buf.Length && buf[..pos] == Kept(written, buf.Length)
    }

    constructor (buf: array<char>)
      ensures Valid() && this.buf == buf && pos == 0 && written == ""
    {
      this.buf := buf;
      pos := 0;
      written := "";
    }

    /** The view is always the longest prefix, of everything written since the reset, that fits. */
    method Write(sv: string)
      requires Valid()
      modifies this, buf
      ensures Valid() && written == old(written) + sv
      ensures buf[..pos] == Kept(old(written) + sv, buf.Length)
      ensures buf[pos..] == old(buf[..])[pos..]
    {
      KeptAppend(written, sv, buf.Length);
      var avail := if pos < buf.Length then buf.Length - pos else 0;
      var n := if |sv| < avail then |sv| else avail;
      if n > 0 {
        CopyN(sv, n, buf, pos);
        pos := pos + n;
      }
      written := written + sv;
      assert buf[..pos] == old(buf[..pos]) + sv[..n];
    }

    method View() returns (s: string)
      requires Valid()
      ensures s == Kept(written, buf.Length)
    {
      s := buf[..pos];
    }

    method Reset()
      modifies this
      ensures Valid() && pos == 0 && written == ""
    {
      pos := 0;
      written := "";
    }
  }

  /** counting_sink: a size_t total. */
  class CountingSink {
    var count: nat
    ghost var written: string

    ghost predicate Valid()
      reads this
    {
      count == |written| % TWO64
    }

    constructor ()
      ensures Valid() && written == ""
    {
      count := 0;
      written := "";
    }

    method Write(sv: string)
      requires Valid() && |sv| < TWO64
      modifies this
      ensures Valid() && written == old(written) + sv
    {
      count := (count + |sv|) % TWO64;
      written := written + sv;
    }

    method Reset()
      modifies this
      ensures Valid() && written == ""
    {
      count := 0;
      written := "";
    }
  }

  /** The characters before the first NUL. */
  function CString(s: string): (r: string)
  {
    if s == "" || s[0] == '\0' then "" else [s[0]] + CString(s[1..])
  }

  lemma {:induction false} TerminatedReads(s: string, rest: string)
    requires '\0' !in s
    ensures CString(s + ['\0'] + rest) == s
  {
    if s == "" {
      assert s + ['\0'] + rest == ['\0'] + rest;
    } else {
      TerminatedReads(s[1..], rest);
      assert (s + ['\0'] + rest)[1..] == s[1..] + ['\0'] + rest;
    }
  }

  lemma {:induction false} CutAtNul(s: string, rest: string)
    requires '\0' in s
    ensures |CString(s + rest)| < |s|
  {
    if s[0] != '\0' {
      CutAtNul(s[1..], rest);
      assert (s + rest)[1..] == s[1..] + rest;
    }
  }

  /** c_string_sink: one place is kept for the terminator. */
  class CStringSink {
    const data: array<char>
    const maxPayload: nat
    var pos: nat
    ghost var written: string

    ghost predicate Valid()
      reads this, data
    {
      && maxPayload + 1 == data.Length
      && pos <= maxPayload
      && data[..pos] == Kept(written, maxPayload)
      && data[pos] == '\0'
    }

    constructor (size: nat)
      requires size > 0
      ensures Valid() && fresh(data) && data.Length == size && written == ""
    {
      data := new char[size](_ => '\0');
      maxPayload := size - 1;
      pos := 0;
      written := "";
    }

    method Write(sv: string)
      requires Valid()
      modifies this, data
      ensures Valid() && written == old(written) + sv
    {
      KeptAppend(written, sv, maxPayload);
      var avail := if pos < maxPayload then maxPayload - pos else 0;
      var n := if |sv| < avail then |sv| else avail;
      if n > 0 {
        CopyN(sv, n, data, pos);
        assert data[..pos + n] == old(data[..pos]) + sv[..n];
        pos := pos + n;
        data[pos] := '\0';
      }
      written := written + sv;
      assert data[..pos] == old(data[..pos]) + sv[..n];
    }

    method Reset()
      requires Valid()
      modifies this, data
      ensures Valid() && written == ""
    {
      pos := 0;
      data[0] := '\0';
      written := "";
    }

    /** Read as a C string, the buffer is the prefix that fits if and only if that has no NUL. */
    lemma ReadsAsPrefix()
      requires Valid()
      ensures data.Length > 0
      ensures CString(data[..]) == Kept(written, data.Length - 1) <==> '\0' !in Kept(written, data.Length - 1)
    {
      if '\0' in data[..pos] {
        CutAtNul(data[..pos], data[pos..]);
        assert data[..] == data[..pos] + data[pos..];
      } else {
        TerminatedReads(data[..pos], data[pos + 1..]);
        assert data[..] == data[..pos] + ['\0'] + data[pos + 1..];
      }
    }
  }

  /** The destination of format_to_n: a buffer that may be absent, and the length in a 64-bit word. */
  class BoundedBuffer {
    const data: array?<char>
    const capacity: nat
    var size: nat
    ghost var written: string

    ghost predicate Valid()
      reads this, data
    {
      && size == |written| % TWO64
      && (data != null ==> capacity <= data.Length)
      && (data != null && |written| < TWO64 ==> data[..Min(|written|, capacity)] == Kept(written, capacity))
    }

    constructor (data: array?<char>, capacity: nat)
      requires data != null ==> capacity <= data.Length
      ensures Valid() && this.data == data && this.capacity == capacity && written == ""
    {
      this.data, this.capacity := data, capacity;
      size := 0;
      written := "";
    }

    method Write(sv: string)
      requires Valid() && |sv| < TWO64
      modifies this, data
      ensures Valid() && written == old(written) + sv
      ensures data != null ==> data[capacity..] == old(data[..])[capacity..]
      ensures data != null && |written| < TWO64 ==>
                data[Min(|written|, capacity)..] == old(data[..])[Min(|written|, capacity)..]
    {
      LengthWraps(|written|, |sv|);
      if data != null {
        CopyBounded(data, size, capacity, sv, written);
        assert data[..][capacity..] == data[capacity..];
        assert |written| + |sv| < TWO64 ==>
            var m := Min(|written + sv|, capacity); data[..][..m] == data[..m] && data[..][m..] == data[m..];
      }
      hide Kept, Min;
      size := (size + |sv|) % TWO64;
      written := written + sv;
    }
  }

  /** Copies what fits after the characters kept so far. */
  method CopyBounded(data: array<char>, size: nat, capacity: nat, sv: string, ghost written: string)
    requires capacity <= data.Length && (|written| < TWO64 ==> size == |written|)
    requires |written| < TWO64 ==> data[..Min(|written|, capacity)] == Kept(written, capacity)
    modifies data
    ensures data[..][capacity..] == old(data[..])[capacity..]
    ensures |written| < TWO64 ==> Holds(old(data[..]), data[..], written + sv, capacity)
  {
    if size < capacity {
      var available := capacity - size;
      var toCopy := if |sv| < available then |sv| else available;
      CopyN(sv, toCopy, data, size);
      if |written| < TWO64 {
        PrefixGrows(old(data[..]), data[..], written, sv, capacity, toCopy);
      }
      hide Holds;
    } else if |written| < TWO64 {
      PrefixFull(data[..], written, sv, capacity);
    }
  }

  lemma LengthWraps(a: nat, b: nat)
    ensures (a % TWO64 + b) % TWO64 == (a + b) % TWO64
    ensures a < TWO64 ==> a % TWO64 == a
  {
  }

  /** What a buffer keeps: the prefix that fits, and beyond it what was there. */
  ghost predicate Holds(before: string, after: string, written: string, capacity: nat)
  {
    var m := Min(|written|, capacity);
    m <= |before| == |after| && after[..m] == Kept(written, capacity) && after[m..] == before[m..]
  }

  lemma PrefixGrows(before: string, after: string, written: string, sv: string, capacity: nat, k: nat)
    requires |written| < capacity <= |before| && before[..|written|] == Kept(written, capacity)
    requires k == Min(|sv|, capacity - |written|)
    requires after == before[..|written|] + sv[..k] + before[|written| + k..]
    ensures Holds(before, after, written + sv, capacity)
  {
    KeptAppend(written, sv, capacity);
    assert Min(|written + sv|, capacity) == |written| + k;
    assert after[..|written| + k] == before[..|written|] + sv[..k];
  }

  lemma PrefixFull(before: string, written: string, sv: string, capacity: nat)
    requires capacity <= |written| && capacity <= |before| && before[..capacity] == Kept(written, capacity)
    ensures Holds(before, before, written + sv, capacity)
  {
    KeptAppend(written, sv, capacity);
  }

  function Min(a: nat, b: nat): (m: nat)
    ensures m <= a && m <= b && (m == a || m == b)
  {
    if a < b then a else b
  }

  /** format_to_n over any sequence of writes: the prefix that fits, where it ends, and the full
      length, as long as that is a 64-bit number; nothing beyond the capacity changes in any case. */
  method FormatToN(data: array?<char>, n: nat, chunks: seq<string>) returns (written: nat, size: nat)
    requires data != null ==> n <= data.Length
    requires forall i :: 0 <= i < |chunks| ==> |chunks[i]| < TWO64
    modifies data
    ensures size == |Joined(chunks)| % TWO64 && written == Min(size, n)
    ensures data != null ==> data[n..] == old(data[..])[n..]
    ensures |Joined(chunks)| < TWO64 ==> size == |Joined(chunks)|
    ensures data != null && |Joined(chunks)| < TWO64 ==> data[..written] == Kept(Joined(chunks), n)
    ensures data != null && |Joined(chunks)| < TWO64 ==> data[written..] == old(data[..])[written..]
  {
    var state := new BoundedBuffer(data, n);
    var i := 0;
    while i < |chunks|
      invariant 0 <= i <= |chunks|
      invariant state.Valid() && state.written == Joined(chunks[..i])
      invariant data != null ==> data[n..] == old(data[..])[n..]
      invariant data != null && |state.written| < TWO64 ==>
                  data[Min(|state.written|, n)..] == old(data[..])[Min(|state.written|, n)..]
      modifies state, data
    {
      assert chunks[..i + 1][..i] == chunks[..i];
      state.Write(chunks[i]);
      i := i + 1;
    }
    assert chunks[..i] == chunks;
    size := state.size;
    written := if size < n then size else n;
  }
}
