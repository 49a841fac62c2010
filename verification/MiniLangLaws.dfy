/** What expressions mean, operator by operator: laws that hold for all operands, said without the
    function that computes the meaning of an operator. */
module MiniLangLaws {
  import opened Words
  import opened Digits
  import opened MiniLang

  /** The meanings of two operands that both have a value. */
  predicate BothHaveValues(left: Tree, right: Tree, vars: seq<i64>)
  {
    WellFormed(left, |vars|) && WellFormed(right, |vars|) && Meaning(left, vars).Value? && Meaning(right, vars).Value?
  }

  /** Leaves: a number is itself, a variable is the value in its slot. */
  lemma Leaves(v: i64, slot: nat, token: nat, vars: seq<i64>)
    requires slot < |vars|
    ensures Meaning(Number(v, token), vars) == Value(v) && Meaning(Variable(slot, token), vars) == Value(vars[slot])
  {
  }

  /** The left operand fails first, then the right one, whatever the operator. */
  lemma FailuresInOrder(op: char, fn: Function, left: Tree, right: Tree, vars: seq<i64>)
    requires op in BUILTIN_OPERATORS && !fn.Abs? && WellFormed(left, |vars|) && WellFormed(right, |vars|)
    ensures var l, r := Meaning(left, vars), Meaning(right, vars);
            var b, u := Meaning(Binary(op, left, right), vars), Meaning(User(fn, left, right), vars);
            && (l.DivisionByZero? ==> b == l && u == l)
            && (l.Value? && r.DivisionByZero? ==> b == r && u == r)
            && (l.Value? && r.Value? ==> u.Value? && (b.DivisionByZero? <==> op == '/' && r.value == 0))
  {
    hide Arithmetic, Applied;
  }

  /** Sums, differences, products and negations are exact modulo 2^64. */
  lemma ArithmeticMeans(left: Tree, right: Tree, vars: seq<i64>)
    requires BothHaveValues(left, right, vars)
    ensures var l, r := Meaning(left, vars).value, Meaning(right, vars).value;
            && Meaning(Binary('+', left, right), vars) == Value(ToI64(l + r))
            && Meaning(Binary('-', left, right), vars) == Value(ToI64(l - r))
            && Meaning(Binary('*', left, right), vars) == Value(ToI64(l * r))
            && Meaning(Negate(left), vars) == Value(ToI64(0 - l))
  {
    hide ToI64;
  }

  /** Comparisons give 1 or 0. */
  lemma ComparisonsMean(left: Tree, right: Tree, vars: seq<i64>)
    requires BothHaveValues(left, right, vars)
    ensures var l, r := Meaning(left, vars).value, Meaning(right, vars).value;
            && Meaning(Binary('<', left, right), vars) == Value(if l < r then 1 else 0)
            && Meaning(Binary('>', left, right), vars) == Value(if l > r then 1 else 0)
  {
    hide ToI64;
    CastKeeps(0);
    CastKeeps(1);
  }

  /** A quotient is the integer nearest to the dividend from inside: the remainder has the sign of the
      dividend and is smaller than the divisor. It is exact unless the smallest integer is divided by
      -1, which gives the smallest integer again. */
  lemma DivisionMeans(left: Tree, right: Tree, vars: seq<i64>) returns (q: int)
    requires BothHaveValues(left, right, vars) && Meaning(right, vars).value != 0
    ensures var l, r := Meaning(left, vars).value, Meaning(right, vars).value;
            && Meaning(Binary('/', left, right), vars) == Value(ToI64(q))
            && (l >= 0 ==> 0 <= q * r <= l && l - q * r < (if r > 0 then r else 0 - r))
            && (l <= 0 ==> l <= q * r <= 0 && q * r - l < (if r > 0 then r else 0 - r))
            && (if l == -TWO63 && r == -1 then ToI64(q) == -TWO63 else ToI64(q) == q)
  {
    hide ToI64, CDiv;
    var l, r := Meaning(left, vars).value, Meaning(right, vars).value;
    q := CDiv(l, r);
    Truncates(l, r);
    QuotientRange(l, r);
  }

  lemma QuotientRange(l: int, r: int)
    requires -TWO63 <= l < TWO63 && r != 0
    ensures if l == -TWO63 && r == -1 then ToI64(CDiv(l, r)) == -TWO63 else ToI64(CDiv(l, r)) == CDiv(l, r)
  {
    hide ToI64, CDiv;
    var q := CDiv(l, r);
    Truncates(l, r);
    if r == -1 {
      assert q == -l;
    } else if r == 1 {
      assert q == l;
    } else {
      Halved(l, r, q);
    }
    CastKeeps(q);
  }

  lemma Halved(l: int, r: int, q: int)
    requires r > 1 || r < -1
    requires (l >= 0 ==> 0 <= q * r <= l) && (l <= 0 ==> l <= q * r <= 0)
    ensures -(if l >= 0 then l else -l) <= 2 * q <= (if l >= 0 then l else -l)
  {
    var a: nat := if q >= 0 then q else -q;
    var d: nat := if r >= 0 then r else -r;
    Signs(q, r);
    assert a * d == q * r || a * d == -(q * r);
    MulMonotone(2, d, a);
    assert 2 * a <= a * d;
  }

  /** A zero divisor is reported at its own token. */
  lemma ZeroDivisor(left: Tree, token: nat, slot: nat, vars: seq<i64>)
    requires WellFormed(left, |vars|) && Meaning(left, vars).Value? && slot < |vars| && vars[slot] == 0
    ensures Meaning(Binary('/', left, Number(0, token)), vars) == DivisionByZero(token)
    ensures Meaning(Binary('/', left, Variable(slot, token)), vars) == DivisionByZero(token)
  {
    hide Arithmetic, ToI64;
  }

  /** The condition chooses, and the branch not chosen does not matter, not even when it would fail. */
  lemma TernaryChooses(cond: Tree, yes: Tree, no: Tree, vars: seq<i64>)
    requires WellFormed(cond, |vars|) && WellFormed(yes, |vars|) && WellFormed(no, |vars|)
    ensures var c, t := Meaning(cond, vars), Meaning(Ternary(cond, yes, no), vars);
            && (c.Value? && c.value != 0 ==> t == Meaning(yes, vars))
            && (c.Value? && c.value == 0 ==> t == Meaning(no, vars))
            && (c.DivisionByZero? ==> t == c)
  {
  }

  /** The value of a function of some values. */
  predicate Computes(fn: Function, vs: seq<i64>, v: i64)
  {
    match fn
    case Max => v in vs && forall i :: 0 <= i < |vs| ==> vs[i] <= v
    case Min => v in vs && forall i :: 0 <= i < |vs| ==> v <= vs[i]
    case Abs =>
      |vs| > 0 && (v == vs[0] || v == 0 - (vs[0] as int)) && (v >= 0 || (v == vs[0] && v == -TWO63))
  }

  lemma AppliedComputes(fn: Function, vs: seq<i64>)
    requires vs != []
    ensures Computes(fn, vs, Applied(fn, vs))
  {
    hide Largest, Smallest, WrappedAbs;
    if fn == Abs {
      AbsComputes(vs[0]);
    }
  }

  lemma AbsComputes(x: i64)
    ensures var v := WrappedAbs(x);
            (v == x || v == 0 - (x as int)) && (v >= 0 || (v == x && v == -TWO63))
  {
    hide ToI64;
    CastKeeps(x);
    CastKeeps(0 - (x as int));
  }

  /** Arguments are evaluated from the left: all their values, or the failure of the first to fail. */
  lemma {:induction false} ArgumentsInOrder(ts: seq<Tree>, vars: seq<i64>)
    requires AllWellFormed(ts, |vars|)
    ensures forall i :: 0 <= i < |ts| ==> WellFormed(ts[i], |vars|)
    ensures var r := Meanings(ts, vars);
            if r.Values? then |r.values| == |ts| && forall i :: 0 <= i < |ts| ==> Meaning(ts[i], vars) == Value(r.values[i])
            else exists i :: 0 <= i < |ts| && Meaning(ts[i], vars) == DivisionByZero(r.token)
                             && forall k :: 0 <= k < i ==> Meaning(ts[k], vars).Value?
  {
    hide Meaning, WellFormed;
    if ts != [] {
      ArgumentsInOrder(ts[1..], vars);
      assert forall i :: 0 < i < |ts| ==> ts[i] == ts[1..][i - 1];
      var first, rest := Meaning(ts[0], vars), Meanings(ts[1..], vars);
      if !first.Value? {
        assert Meaning(ts[0], vars) == DivisionByZero(Meanings(ts, vars).token);
      } else if rest.Failed? {
        var i :| 0 <= i < |ts[1..]| && Meaning(ts[1..][i], vars) == DivisionByZero(rest.token)
                 && forall k :: 0 <= k < i ==> Meaning(ts[1..][k], vars).Value?;
        assert ts[i + 1] == ts[1..][i];
        forall k | 0 <= k < i + 1 ensures Meaning(ts[k], vars).Value? {
          if k > 0 {
            assert ts[k] == ts[1..][k - 1];
          }
        }
      }
    }
  }

  /** A call is the function of the values of its arguments. */
  lemma CallsMean(fn: Function, args: seq<Tree>, token: nat, vars: seq<i64>)
    requires Callable(fn, |args|) && AllWellFormed(args, |vars|)
    ensures var r, vs := Meaning(Call(fn, args, token), vars), Meanings(args, vars);
            if vs.Failed? then r == DivisionByZero(vs.token) else r.Value? && Computes(fn, vs.values, r.value)
  {
    hide Applied, Computes;
    var vs := Meanings(args, vars);
    if vs.Values? {
      AppliedComputes(fn, vs.values);
    }
  }

  /** A declared operator is its function of both operands. */
  lemma DeclaredOperatorsMean(fn: Function, left: Tree, right: Tree, vars: seq<i64>)
    requires !fn.Abs? && BothHaveValues(left, right, vars)
    ensures var r := Meaning(User(fn, left, right), vars);
            r.Value? && Computes(fn, [Meaning(left, vars).value, Meaning(right, vars).value], r.value)
  {
    hide Applied, Computes;
    AppliedComputes(fn, [Meaning(left, vars).value, Meaning(right, vars).value]);
  }
}
