/** Expressions of the mini language as trees, and what they mean. */
module MiniLang {
  import opened Words

  datatype Function = Abs | Max | Min

  /** Leaves and calls carry the token they came from. */
  datatype Tree =
    | Number(value: i64, token: nat)
    | Variable(slot: nat, token: nat)
    | Binary(op: char, left: Tree, right: Tree)
    | User(fn: Function, left: Tree, right: Tree)
    | Negate(operand: Tree)
    | Ternary(cond: Tree, yes: Tree, no: Tree)
    | Call(fn: Function, args: seq<Tree>, token: nat)

  const BUILTIN_OPERATORS: string := "+-*/<>"
  const MAX_ARGUMENTS: nat := 8

  /** The token at which an error of the expression is reported: for a division, that of its divisor. */
  function At(t: Tree): (token: nat)
  {
    match t
    case Number(_, token) => token
    case Variable(_, token) => token
    case Binary(_, _, right) => At(right)
    case User(_, _, right) => At(right)
    case Negate(operand) => At(operand)
    case Ternary(cond, _, _) => At(cond)
    case Call(_, _, token) => token
  }

  datatype Outcome = Value(value: i64) | DivisionByZero(token: nat)

  datatype Outcomes = Values(values: seq<i64>) | Failed(token: nat)

  predicate Callable(fn: Function, count: nat)
  {
    1 <= count <= MAX_ARGUMENTS && (fn.Abs? ==> count == 1)
  }

  /** What the parser lets through. */
  predicate WellFormed(t: Tree, variables: nat)
  {
    match t
    case Number(_, _) => true
    case Variable(slot, _) => slot < variables
    case Binary(op, left, right) =>
      op in BUILTIN_OPERATORS && WellFormed(left, variables) && WellFormed(right, variables)
    case User(fn, left, right) => !fn.Abs? && WellFormed(left, variables) && WellFormed(right, variables)
    case Negate(operand) => WellFormed(operand, variables)
    case Ternary(cond, yes, no) =>
      WellFormed(cond, variables) && WellFormed(yes, variables) && WellFormed(no, variables)
    case Call(fn, args, _) => Callable(fn, |args|) && AllWellFormed(args, variables)
  }

  predicate AllWellFormed(ts: seq<Tree>, variables: nat)
  {
    ts == [] || (WellFormed(ts[0], variables) && AllWellFormed(ts[1..], variables))
  }

  /** The exact integer an operator stands for, before it is wrapped to 64 bits. */
  function Arithmetic(op: char, l: int, r: int): (v: int)
    requires op in BUILTIN_OPERATORS && (op == '/' ==> r != 0)
  {
    match op
    case '+' => l + r
    case '-' => l - r
    case '*' => l * r
    case '>' => if l > r then 1 else 0
    case '<' => if l < r then 1 else 0
    case _ => CDiv(l, r)
  }

  function Largest(vs: seq<i64>): (m: i64)
    requires vs != []
    ensures m in vs && forall i :: 0 <= i < |vs| ==> vs[i] <= m
  {
    if |vs| == 1 then vs[0]
    else
      var rest := Largest(vs[1..]);
      if rest < vs[0] then vs[0] else rest
  }

  function Smallest(vs: seq<i64>): (m: i64)
    requires vs != []
    ensures m in vs && forall i :: 0 <= i < |vs| ==> m <= vs[i]
  {
    if |vs| == 1 then vs[0]
    else
      var rest := Smallest(vs[1..]);
      if vs[0] < rest then vs[0] else rest
  }

  /** The absolute value, wrapped: the smallest integer has none and stays itself. */
  function WrappedAbs(v: int): (m: i64)
  {
    if v < 0 then ToI64(-v) else ToI64(v)
  }

  function Applied(fn: Function, vs: seq<i64>): (v: i64)
    requires vs != []
  {
    match fn
    case Abs => WrappedAbs(vs[0])
    case Max => Largest(vs)
    case Min => Smallest(vs)
  }

  /** The value of a tree over the variables, or the first division by zero, operands taken left to
      right and only the chosen branch of a ternary looked at. */
  function Meaning(t: Tree, vars: seq<i64>): (r: Outcome)
    requires WellFormed(t, |vars|)
    decreases t
  {
    match t
    case Number(value, _) => Value(value)
    case Variable(slot, _) => Value(vars[slot])
    case Binary(op, left, right) =>
      var l := Meaning(left, vars);
      if !l.Value? then l
      else
        var r := Meaning(right, vars);
        if !r.Value? then r
        else if op == '/' && r.value == 0 then DivisionByZero(At(right))
        else Value(ToI64(Arithmetic(op, l.value, r.value)))
    case User(fn, left, right) =>
      var l := Meaning(left, vars);
      if !l.Value? then l
      else
        var r := Meaning(right, vars);
        if !r.Value? then r else Value(Applied(fn, [l.value, r.value]))
    case Negate(operand) =>
      var v := Meaning(operand, vars);
      if !v.Value? then v else Value(ToI64(0 - v.value))
    case Ternary(cond, yes, no) =>
      var c := Meaning(cond, vars);
      if !c.Value? then c else if c.value != 0 then Meaning(yes, vars) else Meaning(no, vars)
    case Call(fn, args, _) =>
      var vs := Meanings(args, vars);
      if vs.Failed? then DivisionByZero(vs.token) else Value(Applied(fn, vs.values))
  }

  function Meanings(ts: seq<Tree>, vars: seq<i64>): (r: Outcomes)
    requires AllWellFormed(ts, |vars|)
    ensures r.Values? ==> |r.values| == |ts|
    decreases ts
  {
    if ts == [] then Values([])
    else
      var first := Meaning(ts[0], vars);
      if !first.Value? then Failed(first.token)
      else
        var rest := Meanings(ts[1..], vars);
        if rest.Failed? then rest else Values([first.value] + rest.values)
  }

  /** Trees of numbers, variables, sums, differences, products and negations. */
  predicate Ring(t: Tree)
  {
    match t
    case Number(_, _) => true
    case Variable(_, _) => true
    case Binary(op, left, right) => (op == '+' || op == '-' || op == '*') && Ring(left) && Ring(right)
    case Negate(operand) => Ring(operand)
    case _ => false
  }

  function RingResult(op: char, l: int, r: int): (v: int)
  {
    if op == '+' then l + r else if op == '-' then l - r else l * r
  }

  /** Their value over the unbounded integers. */
  function Exact(t: Tree, vars: seq<i64>): (v: int)
    requires Ring(t) && WellFormed(t, |vars|)
  {
    match t
    case Number(value, _) => value
    case Variable(slot, _) => vars[slot]
    case Binary(op, left, right) =>
      RingResult(op, Exact(left, vars), Exact(right, vars))
    case Negate(operand) => -Exact(operand, vars)
  }

  lemma WrapBy(x: int) returns (k: int)
    ensures ToI64(x) == x + k * TWO64
  {
    k := if x % TWO64 < TWO63 then -(x / TWO64) else -(x / TWO64) - 1;
  }

  lemma WrapShift(x: int, k: int)
    ensures ToI64(x + k * TWO64) == ToI64(x)
  {
  }

  lemma ProductShift(x: int, y: int, k: int, j: int)
    ensures (x + k * TWO64) * (y + j * TWO64) == x * y + (x * j + k * y + k * j * TWO64) * TWO64
  {
    calc {
      (x + k * TWO64) * (y + j * TWO64);
      x * y + x * (j * TWO64) + k * TWO64 * y + k * TWO64 * (j * TWO64);
      x * y + x * j * TWO64 + k * y * TWO64 + k * j * TWO64 * TWO64;
    }
  }

  /** Wrapping the operands first does not change the wrapped result. */
  lemma WrapIsHomomorphic(op: char, x: int, y: int)
    requires op == '+' || op == '-' || op == '*'
    ensures ToI64(Arithmetic(op, ToI64(x), ToI64(y))) == ToI64(Arithmetic(op, x, y))
  {
    var k := WrapBy(x);
    var j := WrapBy(y);
    hide ToI64;
    if op == '+' {
      WrapShift(x + y, k + j);
    } else if op == '-' {
      WrapShift(x - y, k - j);
    } else {
      ProductShift(x, y, k, j);
      WrapShift(x * y, x * j + k * y + k * j * TWO64);
    }
  }

  lemma WrapNegates(x: int)
    ensures ToI64(0 - ToI64(x)) == ToI64(-x)
  {
    var k := WrapBy(x);
    hide ToI64;
    WrapShift(-x, -k);
  }

  /** Such an expression never fails, and however often its intermediate results wrapped around, its
      value is the exact integer wrapped once. */
  lemma {:induction false} RingIsExactModulo(t: Tree, vars: seq<i64>)
    requires Ring(t) && WellFormed(t, |vars|)
    ensures Meaning(t, vars) == Value(ToI64(Exact(t, vars)))
    decreases t
  {
    match t
    case Number(value, _) =>
    case Variable(slot, _) =>
    case Binary(op, left, right) =>
      hide ToI64, Arithmetic, RingResult;
      RingIsExactModulo(left, vars);
      RingIsExactModulo(right, vars);
      var l, r := Exact(left, vars), Exact(right, vars);
      WrapIsHomomorphic(op, l, r);
      RingOperator(op, l, r);
    case Negate(operand) =>
      hide ToI64, Arithmetic, RingResult;
      RingIsExactModulo(operand, vars);
      WrapNegates(Exact(operand, vars));
  }

  lemma RingOperator(op: char, l: int, r: int)
    requires op == '+' || op == '-' || op == '*'
    ensures Arithmetic(op, l, r) == RingResult(op, l, r)
  {
  }

  function Size(t: Tree): (n: nat)
    ensures n >= 1
  {
    match t
    case Number(_, _) => 1
    case Variable(_, _) => 1
    case Binary(_, left, right) => Size(left) + Size(right) + 1
    case User(_, left, right) => Size(left) + Size(right) + 1
    case Negate(operand) => Size(operand) + 1
    case Ternary(cond, yes, no) => Size(cond) + Size(yes) + Size(no) + 1
    case Call(_, args, _) => SizeAll(args) + 1
  }

  function SizeAll(ts: seq<Tree>): (n: nat)
  {
    if ts == [] then 0 else Size(ts[0]) + SizeAll(ts[1..])
  }
}
