/** The digit-grouping view: a left-to-right walk over decreasing powers of ten, against
    grouping defined from the right end. */
module Thousands {
  import opened Digits
  import opened Words
  import opened Output
  import opened Integers

  /** Groups of g digits counted from the right; g == 0 disables grouping. */
  function Grouped(t: string, sep: char, g: nat): (s: string)
  {
    if g == 0 || |t| <= g then t
    else Grouped(t[..|t| - g], sep, g) + [sep] + t[|t| - g..]
  }

  /** Drops every (g+1)-th character counted from the right. */
  function Ungrouped(s: string, g: nat): (t: string)
  {
    if g == 0 || |s| <= g then s
    else Ungrouped(s[..|s| - g - 1], g) + s[|s| - g..]
  }

  lemma UngroupLast(head: string, sep: char, tail: string, g: nat)
    requires g > 0 && |tail| == g
    ensures Ungrouped(head + [sep] + tail, g) == Ungrouped(head, g) + tail
  {
    var s := head + [sep] + tail;
    assert s[..|head|] == head && s[|head| + 1..] == tail;
  }

  /** Grouping only inserts: the digits come back untouched. */
  lemma {:induction false} UngroupGrouped(t: string, sep: char, g: nat)
    ensures Ungrouped(Grouped(t, sep, g), g) == t
    decreases |t|
  {
    if g > 0 && |t| > g {
      hide Ungrouped;
      var h, tail := t[..|t| - g], t[|t| - g..];
      UngroupGrouped(h, sep, g);
      UngroupLast(Grouped(h, sep, g), sep, tail, g);
      assert h + tail == t;
    }
  }

  /** The last group and the separator before it. */
  lemma GroupedEnd(t: string, sep: char, g: nat, r: nat)
    requires g > 0 && r <= g && r < |Grouped(t, sep, g)|
    ensures var s := Grouped(t, sep, g);
            if r == g then |t| > g && s[|s| - 1 - r] == sep else r < |t| && s[|s| - 1 - r] == t[|t| - 1 - r]
  {
  }

  /** Places beyond the last group are those of the digits before it. */
  lemma GroupedBefore(t: string, sep: char, g: nat, p: nat)
    requires g > 0 && g < p < |Grouped(t, sep, g)|
    ensures |t| > g && p - g - 1 < |Grouped(t[..|t| - g], sep, g)|
    ensures var s, sh := Grouped(t, sep, g), Grouped(t[..|t| - g], sep, g);
            s[|s| - 1 - p] == sh[|sh| - 1 - (p - g - 1)]
  {
  }

  /** Place r of the q-th group from the right: p places and d digits from the end. */
  lemma {:induction false} GroupPlace(t: string, sep: char, g: nat, q: nat, r: nat, p: nat, d: nat)
    requires g > 0 && r <= g && p == q * (g + 1) + r && d == q * g + r && p < |Grouped(t, sep, g)|
    ensures r < g ==> d < |t|
    ensures var s := Grouped(t, sep, g); s[|s| - 1 - p] == if r == g then sep else t[|t| - 1 - d]
    decreases q
  {
    hide Grouped;
    if q == 0 {
      GroupedEnd(t, sep, g, r);
    } else {
      OneGroupLess(q, g);
      GroupedBefore(t, sep, g, p);
      GroupPlace(t[..|t| - g], sep, g, q - 1, r, p - g - 1, d - g);
    }
  }

  lemma OneGroupLess(q: nat, g: nat)
    requires q >= 1
    ensures q * (g + 1) == (q - 1) * (g + 1) + (g + 1) && q * g == (q - 1) * g + g
    ensures (q - 1) * (g + 1) >= 0 && (q - 1) * g >= 0
  {
  }

  /** A separator stands exactly at the places, counted from the right, that leave g modulo g + 1;
      every other place holds the digit reached by not counting the separators. */
  lemma SeparatorPlaces(t: string, sep: char, g: nat, p: nat)
    requires g > 0 && p < |Grouped(t, sep, g)|
    ensures p % (g + 1) != g ==> 0 <= p - p / (g + 1) < |t|
    ensures var s := Grouped(t, sep, g);
            s[|s| - 1 - p] == if p % (g + 1) == g then sep else t[|t| - 1 - (p - p / (g + 1))]
  {
    hide Grouped;
    DivFacts(p, g + 1);
    var q, r := p / (g + 1), p % (g + 1);
    assert q * (g + 1) == q * g + q;
    GroupPlace(t, sep, g, q, r, p, p - q);
  }

  /** There is one separator fewer than there are groups. */
  lemma {:induction false} GroupedLength(t: string, sep: char, g: nat)
    requires g > 0 && t != ""
    ensures |Grouped(t, sep, g)| == |t| + (|t| - 1) / g
    decreases |t|
  {
    if |t| <= g {
      QuotientUnique(|t| - 1, g, 0, |t| - 1);
    } else {
      var h := t[..|t| - g];
      GroupedLength(h, sep, g);
      DivFacts(|h| - 1, g);
      var q, r := (|h| - 1) / g, (|h| - 1) % g;
      assert |t| - 1 == (q + 1) * g + r;
      QuotientUnique(|t| - 1, g, q + 1, r);
    }
  }

  lemma ModShift(p: nat, m: nat)
    requires m > 0 && p >= m
    ensures (p - m) % m == p % m
  {
    var q, r := (p - m) / m, (p - m) % m;
    assert p == (q + 1) * m + r by { assert p - m == q * m + r; }
    QuotientUnique(p, m, q + 1, r);
  }

  /** Whether a separator follows a digit that is `remaining` digits from the end. */
  predicate Boundary(remaining: nat, g: nat)
  {
    g != 0 && remaining > 1 && (remaining - 1) % g == 0
  }

  /** The walk: after each digit, a separator when the rest is a whole number of groups. */
  function Walk(t: string, sep: char, g: nat): (s: string)
  {
    if t == "" then ""
    else [t[0]] + (if Boundary(|t|, g) then [sep] else "") + Walk(t[1..], sep, g)
  }

  /** Whole groups to the right do not change whether a separator follows. */
  lemma BoundaryShift(n: nat, g: nat)
    requires g > 0 && n >= 1
    ensures Boundary(n + g, g) == (n == 1 || Boundary(n, g))
  {
    if n == 1 {
      QuotientUnique(g, g, 1, 0);
    } else {
      ModShift(n - 1 + g, g);
    }
  }

  lemma {:induction false} WalkSplit(a: string, b: string, sep: char, g: nat)
    requires g > 0 && |b| == g && a != ""
    ensures Walk(a + b, sep, g) == Walk(a, sep, g) + [sep] + Walk(b, sep, g)
  {
    BoundaryShift(|a|, g);
    hide Boundary;
    var wb := Walk(b, sep, g);
    assert (a + b)[0] == a[0] && (a + b)[1..] == a[1..] + b;
    if |a| == 1 {
      assert a[1..] + b == b;
      SingleWalk(a, sep, g);
      assert Walk(a + b, sep, g) == [a[0]] + [sep] + wb;
    } else {
      WalkSplit(a[1..], b, sep, g);
      var head, w := [a[0]] + (if Boundary(|a|, g) then [sep] else ""), Walk(a[1..], sep, g);
      assert Walk(a + b, sep, g) == head + (w + [sep] + wb);
      assert head + (w + [sep] + wb) == (head + w) + [sep] + wb;
    }
  }

  lemma SingleWalk(a: string, sep: char, g: nat)
    requires |a| == 1
    ensures Walk(a, sep, g) == a
  {
    assert a[1..] == "";
  }

  lemma {:induction false} WalkShort(t: string, sep: char, g: nat)
    requires |t| <= g || g == 0
    ensures Walk(t, sep, g) == t
  {
    if t != "" {
      WalkShort(t[1..], sep, g);
      if g != 0 { QuotientUnique(|t| - 1, g, 0, |t| - 1); }
      assert [t[0]] + t[1..] == t;
    }
  }

  lemma {:induction false} WalkIsGrouped(t: string, sep: char, g: nat)
    ensures Walk(t, sep, g) == Grouped(t, sep, g)
    decreases |t|
  {
    if g == 0 || |t| <= g {
      WalkShort(t, sep, g);
    } else {
      var a, b := t[..|t| - g], t[|t| - g..];
      assert t == a + b;
      WalkSplit(a, b, sep, g);
      WalkIsGrouped(a, sep, g);
      WalkShort(b, sep, g);
    }
  }

  method CountDigits(magnitude: u64) returns (digits: nat)
    ensures digits == |Text(magnitude, 10)|
  {
    digits := 1;
    var rest := magnitude;
    while rest >= 10
      invariant 0 <= rest && |Text(magnitude, 10)| == digits - 1 + |Text(rest, 10)|
    {
      TextStep(rest, 10, false);
      digits := digits + 1;
      rest := rest / 10;
    }
  }

  method PowerOfTen(digits: nat, ghost magnitude: u64) returns (divisor: u64)
    requires 1 <= digits == |Text(magnitude, 10)|
    ensures divisor == Pow(10, digits - 1)
  {
    LengthBounds(magnitude, false);
    hide Text, Pow;
    PowerSteps(0);
    divisor := 1;
    for i := 1 to digits
      invariant divisor == Pow(10, i - 1)
    {
      PowerSteps(i);
      divisor := divisor * 10;
    }
  }

  lemma PowerSteps(i: nat)
    requires i <= 19
    ensures Pow(10, 0) == 1 && (i > 0 ==> Pow(10, i) == 10 * Pow(10, i - 1)) && Pow(10, i) < TWO64
  {
    assert i > 0 ==> Pow(10, i) == 10 * Pow(10, i - 1);
    assert Pow(10, 0) == 1;
    hide Pow;
    PowerFacts();
    PowerMonotone(i, 19);
  }

  method FormatThousands(out: Sink<char>, value: int, separator: char, groupSize: u8)
    requires -TWO63 <= value < TWO64
    modifies out
    ensures out.text == old(out.text) + (if value < 0 then "-" else "")
                        + Grouped(Text(Magnitude(value), 10), separator, groupSize)
    ensures groupSize == 0 ==> out.text == old(out.text) + (if value < 0 then "-" else "") + Text(Magnitude(value), 10)
  {
    var magnitude: u64 := 0;
    if value < 0 {
      out.Put('-');
      magnitude := ToU64(TWO64 - 1 - ToU64(value) + 1);
    } else {
      magnitude := value;
    }
    assert magnitude == Magnitude(value);
    WriteGroups(out, magnitude, separator, groupSize);
  }

  lemma WalkStep(done: string, left: string, sep: char, g: nat)
    requires left != ""
    ensures done + Walk(left, sep, g)
         == done + [left[0]] + (if Boundary(|left|, g) then [sep] else "") + Walk(left[1..], sep, g)
  {
  }

  lemma PlaceDigit(n: nat, j: nat)
    requires j < |Text(n, 10)|
    ensures Text(n, 10)[j] == ('0' as int + n / Pow(10, |Text(n, 10)| - 1 - j) % 10) as char
  {
    DigitAt(n, 10, false, j);
  }

  method WriteGroups(out: Sink<char>, magnitude: u64, separator: char, groupSize: u8)
    modifies out
    ensures out.text == old(out.text) + Grouped(Text(magnitude, 10), separator, groupSize)
  {
    hide Text, Pow, Grouped;
    var digits := CountDigits(magnitude);
    var divisor := PowerOfTen(digits, magnitude);
    ghost var whole := Text(magnitude, 10);
    WalkIsGrouped(whole, separator, groupSize);
    ghost var left, goal := whole, out.text + Walk(whole, separator, groupSize);
    var remaining := digits;
    while remaining > 0
      invariant 0 <= remaining <= digits && left == whole[digits - remaining..]
      invariant divisor == Pow(10, if remaining > 0 then remaining - 1 else 0)
      invariant out.text + Walk(left, separator, groupSize) == goal
    {
      PlaceDigit(magnitude, digits - remaining);
      WalkStep(out.text, left, separator, groupSize);
      out.Put(('0' as int + magnitude / divisor % 10) as char);
      divisor := NextDivisor(divisor, remaining);
      if Boundary(remaining, groupSize) {
        out.Put(separator);
      }
      left := left[1..];
      remaining := remaining - 1;
    }
  }

  function NextDivisor(divisor: u64, ghost remaining: nat): (d: u64)
    requires remaining > 0 && divisor == Pow(10, remaining - 1)
    ensures d == Pow(10, if remaining > 1 then remaining - 2 else 0)
  {
    if divisor > 1 then divisor / 10 else 1
  }
}
