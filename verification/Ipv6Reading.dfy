/** Reading IPv6 text back. */
module Ipv6Reading {
  import opened Words
  import opened Options
  import opened Digits
  import opened Search
  import opened Output
  import opened Ipv6

  // --- The reader -------------------------------------------------------------------------------

  predicate ValidGroup(g: string)
  {
    1 <= |g| <= 4 && AllDigits(g, 16)
  }

  /** One or more groups separated by single colons. */
  function ReadGroups(s: string): (r: Option<seq<nat>>)
    decreases |s|
  {
    var k := Find(s, ':');
    if !ValidGroup(s[..k]) then None
    else if k == |s| then Some([Read(s, 16)])
    else
      var rest :- ReadGroups(s[k + 1..]);
      Some([Read(s[..k], 16)] + rest)
  }

  function ReadSide(s: string): (r: Option<seq<nat>>)
  {
    if s == "" then Some([]) else ReadGroups(s)
  }

  /** Position of the first double colon, or the length when there is none. */
  function FindPair(s: string): (p: nat)
    ensures p <= |s| && (p < |s| ==> p + 1 < |s| && s[p] == ':' && s[p + 1] == ':')
  {
    if s == "" then 0
    else if |s| > 1 && s[0] == ':' && s[1] == ':' then 0
    else 1 + FindPair(s[1..])
  }

  /** Eight groups, or fewer with one double colon standing for the missing zeros. */
  function ReadAddress(s: string): (r: Option<seq<nat>>)
  {
    var p := FindPair(s);
    if p == |s| then
      var groups :- ReadGroups(s);
      if |groups| == 8 then Some(groups) else None
    else
      var left :- ReadSide(s[..p]);
      var right :- ReadSide(s[p + 2..]);
      if |left| + |right| < 8 then Some(left + seq(8 - |left| - |right|, _ => 0) + right) else None
  }

  /** An address with an optional numeric zone. */
  function ReadScoped(s: string): (r: Option<(seq<nat>, nat)>)
  {
    var k := Find(s, '%');
    var w :- ReadAddress(s[..k]);
    if k == |s| then Some((w, 0))
    else if k + 1 < |s| && AllDigits(s[k + 1..], 10) then Some((w, Read(s[k + 1..], 10)))
    else None
  }

  // --- Round trip ----------------------------------------------------------------------------------

  lemma GroupChars(v: u16, c: char)
    requires c == ':' || c == '%'
    ensures c !in Group(v) && Group(v) != ""
  {
    GroupIsCanonical(v);
  }

  lemma {:induction false} JoinedFront(w: seq<u16>)
    requires w != []
    ensures Joined(w) == Group(w[0]) + if |w| == 1 then "" else ":" + Joined(w[1..])
    decreases |w|
  {
    hide Group;
    var n := |w| - 1;
    if n == 0 {
      assert w[..0] == [];
    } else if n == 1 {
      JoinedFront(w[..1]);
      JoinedFront(w[1..]);
    } else {
      JoinedFront(w[..n]);
      assert w[1..][..n - 1] == w[..n][1..];
      Appended(Group(w[0]), Joined(w[..n][1..]), Group(w[n]));
    }
  }

  lemma Appended(first: string, middle: string, last: string)
    ensures first + (":" + middle) + ":" + last == first + (":" + (middle + ":" + last))
  {
  }

  lemma {:induction false} GroupsReadBack(w: seq<u16>)
    requires w != []
    ensures ReadGroups(Joined(w)) == Some(w)
    decreases |w|
  {
    hide Joined, Group, Find, Read;
    JoinedFront(w);
    GroupIsCanonical(w[0]);
    GroupChars(w[0], ':');
    var g, rest := Group(w[0]), if |w| == 1 then "" else ":" + Joined(w[1..]);
    var s := Joined(w);
    FindExact(g, ':', rest);
    assert s[..|g|] == g;
    if |w| == 1 {
      assert s == g && w == [w[0]];
    } else {
      GroupsReadBack(w[1..]);
      assert s[|g| + 1..] == Joined(w[1..]);
      assert w == [w[0]] + w[1..];
    }
  }

  lemma {:induction false} SkipPlain(a: string, s: string)
    requires ':' !in a
    ensures FindPair(a + s) == |a| + FindPair(s)
  {
    if a == "" {
      assert a + s == s;
    } else {
      SkipPlain(a[1..], s);
      assert (a + s)[1..] == a[1..] + s;
    }
  }

  lemma JoinedStart(w: seq<u16>)
    requires w != []
    ensures Joined(w) != "" && Joined(w)[0] != ':'
  {
    hide Group, Joined;
    JoinedFront(w);
    GroupChars(w[0], ':');
    assert Joined(w)[0] == Group(w[0])[0];
  }

  lemma Regroup(g: string, j: string, tail: string)
    ensures g + (":" + j) + tail == g + (":" + (j + tail))
  {
  }

  lemma PairAtEnd(tail: string)
    requires tail == "" || (|tail| > 1 && tail[0] == ':' && tail[1] == ':')
    ensures FindPair(tail) == 0
  {
  }

  lemma SkipColon(more: string)
    requires more != "" && more[0] != ':'
    ensures FindPair(":" + more) == 1 + FindPair(more)
  {
    assert (":" + more)[1..] == more;
  }

  /** Joined groups hold no double colon and do not end in a colon. */
  lemma {:induction false} PairAfterJoined(w: seq<u16>, tail: string)
    requires tail == "" || (|tail| > 1 && tail[0] == ':' && tail[1] == ':')
    ensures FindPair(Joined(w) + tail) == |Joined(w)|
    decreases |w|
  {
    hide Group;
    if w == [] {
      assert Joined(w) + tail == tail;
    } else {
      hide Joined, FindPair;
      JoinedFront(w);
      GroupChars(w[0], ':');
      var g := Group(w[0]);
      PairAtEnd(tail);
      if |w| == 1 {
        SkipPlain(g, tail);
        assert Joined(w) + tail == g + tail;
      } else {
        var more := Joined(w[1..]) + tail;
        PairAfterJoined(w[1..], tail);
        JoinedStart(w[1..]);
        SkipPlain(g, ":" + more);
        Regroup(g, Joined(w[1..]), tail);
        assert more[0] == Joined(w[1..])[0];
        SkipColon(more);
      }
    }
  }

  lemma SideReadsBack(w: seq<u16>)
    ensures ReadSide(Joined(w)) == Some(w)
  {
    hide Joined, ReadGroups;
    if w == [] {
      JoinedNothing();
    } else {
      JoinedStart(w);
      GroupsReadBack(w);
    }
  }

  lemma JoinedNothing()
    ensures Joined([]) == ""
  {
  }

  /** The printed text reads back to the same words, and its double colon stands for the run: the
      words before it are those on its left, and the words after it those on its right. */
  lemma AddressReadsBack(w: Address, start: nat, length: nat)
    requires IsBest(w, start, length)
    ensures length == 0 || start + length <= 8
    ensures ReadAddress(AddressText(w, start, length)) == Some(w)
    ensures var s := AddressText(w, start, length);
            if length == 0 then FindPair(s) == |s| && ReadGroups(s) == Some(w)
            else FindPair(s) + 2 <= |s| && ReadSide(s[..FindPair(s)]) == Some(w[..start])
                 && ReadSide(s[FindPair(s) + 2..]) == Some(w[start + length..])
  {
    hide Joined, FindPair, ReadGroups, ReadSide;
    if length == 0 {
      PairAfterJoined(w, "");
      assert Joined(w) + "" == Joined(w);
      GroupsReadBack(w);
    } else {
      var left, right := w[..start], w[start + length..];
      var s := AddressText(w, start, length);
      var tail := "::" + Joined(right);
      PairAfterJoined(left, tail);
      assert s == Joined(left) + tail;
      var p := |Joined(left)|;
      assert s[..p] == Joined(left) && s[p + 2..] == Joined(right);
      SideReadsBack(left);
      SideReadsBack(right);
      ZerosFill(w, start, length);
    }
  }

  lemma ZerosFill(w: Address, start: nat, length: nat)
    requires ZeroRun(w, start, length)
    ensures w[..start] + seq(length, _ => 0) + w[start + length..] == w
  {
  }

  lemma {:induction false} JoinedHasNoZone(w: seq<u16>)
    ensures '%' !in Joined(w)
    decreases |w|
  {
    if w != [] {
      JoinedHasNoZone(w[..|w| - 1]);
      GroupChars(w[|w| - 1], '%');
    }
  }

  lemma AddressHasNoZone(w: Address, start: nat, length: nat)
    requires length == 0 || start + length <= 8
    ensures '%' !in AddressText(w, start, length)
  {
    hide Joined;
    JoinedHasNoZone(w);
    if length > 0 {
      JoinedHasNoZone(w[..start]);
      JoinedHasNoZone(w[start + length..]);
    }
  }

  /** With its zone too. */
  lemma ScopedReadsBack(w: Address, start: nat, length: nat, scope: u32)
    requires IsBest(w, start, length)
    ensures length == 0 || start + length <= 8
    ensures ReadScoped(AddressText(w, start, length) + ZoneText(scope)) == Some((w, scope))
  {
    hide IsBest, ReadAddress, AddressText, Find, Text, Read, AllDigits, ZoneText;
    AddressReadsBack(w, start, length);
    AddressHasNoZone(w, start, length);
    ZoneCut(AddressText(w, start, length), scope);
  }

  lemma ZoneCut(a: string, scope: u32)
    requires '%' !in a
    ensures var s := a + ZoneText(scope);
            && Find(s, '%') == |a| && s[..|a|] == a
            && if scope == 0 then |s| == |a|
               else |a| + 1 < |s| && AllDigits(s[|a| + 1..], 10) && Read(s[|a| + 1..], 10) == scope
  {
    hide Find, Text, Read;
    var z := ZoneText(scope);
    FindExact(a, '%', z);
    assert (a + z)[..|a|] == a;
    if scope != 0 {
      TextIsDigits(scope, 10, false);
      ReadText(scope, 10, false);
      assert (a + z)[|a| + 1..] == Text(scope, 10);
    }
  }

  lemma ZoneShows(w: Address, start: nat, length: nat, scope: u32)
    requires length == 0 || start + length <= 8
    ensures '%' in AddressText(w, start, length) + ZoneText(scope) <==> scope != 0
  {
    hide AddressText, Text;
    AddressHasNoZone(w, start, length);
    assert scope != 0 ==> ZoneText(scope)[0] == '%';
  }

  lemma Written(before: string, a: string, z: string)
    ensures (before + a + z)[|before|..] == a + z
  {
  }

  /** The words are those of the bytes, the high byte of each first. */
  predicate NamesBytes(words: seq<nat>, bytes: seq<u8>)
  {
    |bytes| == 16 && |words| == 8
    && forall i :: 0 <= i < 8 ==> words[i] / 256 == bytes[2 * i] && words[i] % 256 == bytes[2 * i + 1]
  }

  /** The text written for sixteen bytes and a zone reads back to them, has a zone part exactly when
      the zone is not zero, and compresses the leftmost longest run of zero words. */
  method FormatAddress(out: Sink<char>, bytes: seq<u8>, scope: u32)
    returns (ghost w: Address, ghost start: nat, ghost length: nat)
    requires |bytes| == 16
    modifies out
    ensures NamesBytes(w, bytes) && IsBest(w, start, length) && (length == 0 || start + length <= 8)
    ensures out.text == old(out.text) + AddressText(w, start, length) + ZoneText(scope)
    ensures var text := out.text[|old(out.text)|..];
            && ReadScoped(text) == Some((w, scope))
            && ('%' in text <==> scope != 0)
  {
    hide Text, AddressText, IsBest, ReadScoped, ZoneText;
    var words := WordsOf(bytes);
    var bestStart, bestLength := FindBestRun(words);
    BestShape(words, bestStart, bestLength);
    WriteAddress(out, words, bestStart, bestLength);
    WriteZone(out, scope);
    w, start, length := words, bestStart, bestLength;
    ScopedReadsBack(words, start, length, scope);
    ZoneShows(words, start, length, scope);
    Written(old(out.text), AddressText(words, start, length), ZoneText(scope));
  }
}
