/** The interpreter: actions that append nodes, evaluation over handles, and giving the nodes back. */
module MiniLangInterpreter {
  import opened Words
  import opened Options
  import opened Digits
  import opened MiniLang
  import opened MiniLangPool

  lemma UnsignedShift(x: int) returns (k: int)
    ensures ToU64(x) == x + k * TWO64
  {
    k := -(x / TWO64);
  }

  lemma UnsignedProduct(l: int, r: int)
    ensures ToI64(ToU64(l) as int * ToU64(r)) == ToI64(l * r)
  {
    var k := UnsignedShift(l);
    var j := UnsignedShift(r);
    hide ToU64, ToI64;
    ProductShift(l, r, k, j);
    WrapShift(l * r, l * j + k * r + k * j * TWO64);
  }

  lemma QuotientShrinks(n: nat, d: nat)
    requires d >= 1
    ensures 0 <= n / d <= n && (d > 1 && n > 0 ==> n / d < n)
  {
    DivFacts(n, d);
    MulMonotone(1, d, n / d);
    if d > 1 && n > 0 && n / d == n {
      MulMonotone(2, d, n);
      assert false;
    }
  }

  /** Every quotient fits, except by -1. */
  lemma QuotientFits(l: int, r: int)
    requires -TWO63 <= l < TWO63 && r != 0 && r != -1
    ensures -TWO63 <= CDiv(l, r) < TWO63
  {
    var n: nat := if l >= 0 then l else 0 - l;
    var d: nat := if r > 0 then r else 0 - r;
    QuotientShrinks(n, d);
    if r < 0 {
      SignedDivision(n, d);
    }
  }

  method Divide(at: nat, l: i64, r: i64) returns (v: Outcome)
    ensures v == if r == 0 then DivisionByZero(at) else Value(ToI64(CDiv(l, r)))
  {
    hide CDiv, ToI64, ToU64;
    if r == 0 {
      return DivisionByZero(at);
    }
    if r == -1 {
      ByMinusOne(l);
      v := Value(ToI64((0 as int) - ToU64(l)));
    } else {
      QuotientFits(l, r);
      WrapKeeps(CDiv(l, r));
      v := Value(CDiv(l, r));
    }
  }

  lemma ByMinusOne(x: int)
    ensures ToI64((0 as int) - ToU64(x)) == ToI64(CDiv(x, -1))
  {
    UnsignedSum(0, x);
    assert CDiv(x, -1) == -x;
  }

  lemma UnsignedSum(l: int, r: int)
    ensures ToI64(ToU64(l) as int + ToU64(r)) == ToI64(l + r)
    ensures ToI64(ToU64(l) as int - ToU64(r)) == ToI64(l - r)
  {
    var k := UnsignedShift(l);
    var j := UnsignedShift(r);
    hide ToU64, ToI64;
    WrapShift(l + r, k + j);
    WrapShift(l - r, k - j);
  }

  lemma WrapKeeps(x: int)
    requires -TWO63 <= x < TWO63
    ensures ToI64(x) == x
  {
  }

  /** The operator on machine words is the exact operation wrapped; only a zero divisor is an error. */
  method ApplyBinary(op: char, at: nat, l: i64, r: i64) returns (v: Outcome)
    requires op in BUILTIN_OPERATORS
    ensures v == if op == '/' && r == 0 then DivisionByZero(at) else Value(ToI64(Arithmetic(op, l, r)))
    ensures op == '+' ==> v == Value(ToI64(l + r))
    ensures op == '-' ==> v == Value(ToI64(l - r))
    ensures op == '*' ==> v == Value(ToI64(l * r))
    ensures op == '<' ==> v == Value(if l < r then 1 else 0)
    ensures op == '>' ==> v == Value(if l > r then 1 else 0)
  {
    var a: int, b: int := ToU64(l), ToU64(r);
    hide ToU64, ToI64, CDiv;
    match op
    case '+' =>
      UnsignedSum(l, r);
      v := Value(ToI64(a + b));
    case '-' =>
      UnsignedSum(l, r);
      v := Value(ToI64(a - b));
    case '*' =>
      UnsignedProduct(l, r);
      v := Value(ToI64(a * b));
    case '>' =>
      WrapKeeps(if l > r then 1 else 0);
      v := Value(if l > r then 1 else 0);
    case '<' =>
      WrapKeeps(if l < r then 1 else 0);
      v := Value(if l < r then 1 else 0);
    case _ =>
      v := Divide(at, l, r);
  }

  method AbsoluteValue(x: i64) returns (v: i64)
    ensures v == WrappedAbs(x)
    ensures (v == x || v == 0 - (x as int)) && (v >= 0 || (v == x && v == -TWO63))
  {
    if x < 0 {
      UnsignedSum(0, x);
      v := ToI64((0 as int) - ToU64(x));
    } else {
      v := x;
    }
  }

  method ApplyFunction(fn: Function, args: array<i64>, count: nat) returns (v: i64)
    requires 1 <= count <= args.Length
    ensures v == Applied(fn, args[..count])
    ensures fn == Max ==> v in args[..count] && forall i :: 0 <= i < count ==> args[i] <= v
    ensures fn == Min ==> v in args[..count] && forall i :: 0 <= i < count ==> v <= args[i]
    ensures fn == Abs ==> (v == args[0] || v == 0 - (args[0] as int)) && (v >= 0 || (v == args[0] && v == -TWO63))
  {
    if fn == Abs {
      v := AbsoluteValue(args[0]);
      return;
    }
    v := Extreme(fn == Max, args, count);
    if fn == Max {
      ExtremeIsUnique(args[..count], v, Largest(args[..count]), true);
    } else {
      ExtremeIsUnique(args[..count], v, Smallest(args[..count]), false);
    }
  }

  /** The largest or the smallest of the arguments. */
  method Extreme(largest: bool, args: array<i64>, count: nat) returns (best: i64)
    requires 1 <= count <= args.Length
    ensures IsExtreme(args[..count], best, largest)
    ensures best in args[..count]
    ensures forall i :: 0 <= i < count ==> if largest then args[i] <= best else best <= args[i]
  {
    best := args[0];
    var i := 1;
    while i < count
      invariant 1 <= i <= count
      invariant best in args[..i]
      invariant forall k :: 0 <= k < i ==> if largest then args[k] <= best else best <= args[k]
    {
      best := if largest then (if args[i] > best then args[i] else best)
              else if args[i] < best then args[i] else best;
      i := i + 1;
    }
  }

  ghost predicate IsExtreme(vs: seq<i64>, v: i64, largest: bool)
  {
    v in vs && forall i :: 0 <= i < |vs| ==> if largest then vs[i] <= v else v <= vs[i]
  }

  lemma ExtremeIsUnique(vs: seq<i64>, v: i64, w: i64, largest: bool)
    requires IsExtreme(vs, v, largest) && IsExtreme(vs, w, largest)
    ensures v == w
  {
  }

  function CallMeaning(fn: Function, vs: Outcomes): (r: Outcome)
    requires vs.Values? ==> vs.values != []
  {
    if vs.Failed? then DivisionByZero(vs.token) else Value(Applied(fn, vs.values))
  }

  function Prepended(vs: seq<i64>, r: Outcomes): (all: Outcomes)
  {
    if r.Failed? then r else Values(vs + r.values)
  }

  lemma PrependTwice(vs: seq<i64>, v: i64, r: Outcomes)
    ensures Prepended(vs, Prepended([v], r)) == Prepended(vs + [v], r)
  {
    assert r.Values? ==> vs + ([v] + r.values) == vs + [v] + r.values;
  }

  lemma NextArgument(pool: seq<Node>, ids: seq<nat>, i: nat, limit: nat, vars: seq<i64>)
    requires Sound(pool, |vars|) && limit <= |pool| && AllBelow(ids, limit) && i < |ids|
    requires AllWellFormed(UnfoldAll(pool, ids[i..], limit, |vars|), |vars|)
    ensures AllWellFormed(UnfoldAll(pool, ids[i + 1..], limit, |vars|), |vars|)
    ensures var first := Unfold(pool, ids[i], |vars|);
            WellFormed(first, |vars|) &&
            Meanings(UnfoldAll(pool, ids[i..], limit, |vars|), vars) ==
            (var v := Meaning(first, vars);
             if !v.Value? then Failed(v.token)
             else Prepended([v.value], Meanings(UnfoldAll(pool, ids[i + 1..], limit, |vars|), vars)))
  {
    hide Sound, Unfold, Meaning, WellFormed;
    var ts := UnfoldAll(pool, ids[i..], limit, |vars|);
    assert ids[i..][1..] == ids[i + 1..];
    assert ts[1..] == UnfoldAll(pool, ids[i + 1..], limit, |vars|);
  }

  lemma NoMoreArguments(pool: seq<Node>, ids: seq<nat>, limit: nat, vars: seq<i64>)
    requires Sound(pool, |vars|) && limit <= |pool| && AllBelow(ids, limit)
    ensures UnfoldAll(pool, ids[|ids|..], limit, |vars|) == [] && Meanings([], vars) == Values([])
  {
  }

  /** So many more nodes fit, by the limit and by the allocator. */
  predicate Room(allocates: nat -> bool, size: nat, count: nat)
  {
    size + count <= MAX_NODES && forall i: nat :: size <= i < size + count ==> allocates(i)
  }

  lemma RoomSplits(allocates: nat -> bool, size: nat, a: nat, b: nat)
    ensures Room(allocates, size, a + b) <==> Room(allocates, size, a) && Room(allocates, size + a, b)
  {
  }

  lemma StillUnfolds(before: seq<Node>, pool: seq<Node>, id: nat, variables: nat)
    requires Sound(before, variables) && Sound(pool, variables) && before <= pool && id < |before|
    ensures Unfold(pool, id, variables) == Unfold(before, id, variables)
  {
    assert pool[..|before|] == before;
    UnfoldStable(pool, |before|, id, variables);
  }

  class Interpreter {
    var pool: seq<Node>
    var vars: seq<i64>
    var userOperators: seq<(string, Function)>
    var allocates: nat -> bool  // whether the allocator grants a node to a pool of this size

    ghost predicate Valid()
      reads this
    {
      && |pool| <= MAX_NODES
      && Sound(pool, |vars|)
      && forall i :: 0 <= i < |userOperators| ==> !userOperators[i].1.Abs?
    }

    ghost function Tree(id: nat): (t: Tree)
      requires Valid() && id < |pool|
      reads this
    {
      Unfold(pool, id, |vars|)
    }

    /** node_pool::make: fails exactly when the pool is full or the allocator is, and then changes
        nothing. */
    method Make(n: Node) returns (id: Option<nat>)
      requires Valid() && Follows(pool, n, |vars|)
      modifies this`pool
      ensures Valid()
      ensures id.Some? <==> Room(allocates, |old(pool)|, 1)
      ensures id.None? ==> pool == old(pool)
      ensures id.Some? ==> pool == old(pool) + [n] && id.value == |old(pool)|
      ensures id.Some? ==> Tree(id.value) == TreeOf(old(pool), n, |vars|)
      ensures forall i: nat :: i < |old(pool)| ==> Tree(i) == Unfold(old(pool), i, |vars|)
    {
      PushUnfolds(pool, n, |vars|);
      hide Sound, Follows, Unfold, TreeOf;
      if |pool| >= MAX_NODES || !allocates(|pool|) {
        return None;
      }
      id := Some(|pool|);
      pool := pool + [n];
    }

    /** The function of a declared operator; an unknown spelling means max. */
    function FunctionOf(spelling: string): (fn: Function)
      requires Valid()
      reads this
      ensures !fn.Abs?
    {
      Lookup(userOperators, spelling)
    }

    /** A one-character builtin spelling makes a builtin node, any other a declared operator. */
    method MakeBinary(text: string, l: nat, r: nat) returns (id: Option<nat>)
      requires Valid() && l < |pool| && r < |pool|
      modifies this`pool
      ensures Valid() && (id.Some? <==> Room(allocates, |old(pool)|, 1))
      ensures id.None? ==> pool == old(pool)
      ensures id.Some? ==> old(pool) < pool && |pool| == |old(pool)| + 1 && id.value < |pool|
      ensures id.Some? && |text| == 1 && text[0] in BUILTIN_OPERATORS ==>
                Tree(id.value) == Binary(text[0], old(Tree(l)), old(Tree(r)))
      ensures id.Some? && !(|text| == 1 && text[0] in BUILTIN_OPERATORS) ==>
                Tree(id.value) == User(FunctionOf(text), old(Tree(l)), old(Tree(r)))
      ensures forall i: nat :: i < |old(pool)| ==> i < |pool| && Tree(i) == old(Tree(i))
    {
      hide Sound, Unfold;
      var op := if |text| == 1 then text[0] else '\0';
      var shape := BinaryNode(op, l, r);
      if op == '\0' || op !in BUILTIN_OPERATORS {
        shape := UserNode(FunctionOf(text), l, r);
      }
      id := Make(Node(shape, pool[r].at));
    }

    method MakePrefix(v: nat) returns (id: Option<nat>)
      requires Valid() && v < |pool|
      modifies this`pool
      ensures Valid() && (id.Some? <==> Room(allocates, |old(pool)|, 1))
      ensures id.None? ==> pool == old(pool)
      ensures id.Some? ==> old(pool) < pool && |pool| == |old(pool)| + 1
      ensures id.Some? ==> id.value < |pool| && Tree(id.value) == Negate(old(Tree(v)))
      ensures forall i: nat :: i < |old(pool)| ==> i < |pool| && Tree(i) == old(Tree(i))
    {
      hide Sound, Unfold;
      id := Make(Node(NegateNode(v), pool[v].at));
    }

    method MakeTernary(c: nat, t: nat, e: nat) returns (id: Option<nat>)
      requires Valid() && c < |pool| && t < |pool| && e < |pool|
      modifies this`pool
      ensures Valid() && (id.Some? <==> Room(allocates, |old(pool)|, 1))
      ensures id.None? ==> pool == old(pool)
      ensures id.Some? ==> old(pool) < pool && |pool| == |old(pool)| + 1
      ensures id.Some? ==> id.value < |pool| &&
                           Tree(id.value) == Ternary(old(Tree(c)), old(Tree(t)), old(Tree(e)))
      ensures forall i: nat :: i < |old(pool)| ==> i < |pool| && Tree(i) == old(Tree(i))
    {
      hide Sound, Unfold;
      id := Make(Node(TernaryNode(c, t, e), pool[c].at));
    }

    /** Walking the handles gives the meaning of the tree they stand for. */
    method Evaluate(id: nat) returns (r: Outcome)
      requires Valid() && id < |pool|
      ensures WellFormed(Tree(id), |vars|) && r == Meaning(Tree(id), vars)
      decreases id
    {
      UnfoldWellFormed(pool, id, |vars|);
      assert Follows(pool[..id], pool[id], |vars|);
      hide Sound, Applied, Arithmetic, ToI64;
      var n := pool[id];
      match n.shape
      case NumberNode(value) =>
        r := Value(value);
      case VariableNode(slot) =>
        r := Value(vars[slot]);
      case NegateNode(a) =>
        var v := Evaluate(a);
        if !v.Value? {
          return v;
        }
        UnsignedSum(0, v.value);
        r := Value(ToI64((0 as int) - ToU64(v.value)));
      case BinaryNode(op, a, b) =>
        var l, right := EvaluatePair(a, b, id);
        if !l.Value? {
          return l;
        }
        if !right.Value? {
          return right;
        }
        r := ApplyBinary(op, n.at, l.value, right.value);
      case UserNode(fn, a, b) =>
        var l, right := EvaluatePair(a, b, id);
        if !l.Value? {
          return l;
        }
        if !right.Value? {
          return right;
        }
        var pair := new i64[] [l.value, right.value];
        var v := ApplyFunction(fn, pair, 2);
        assert pair[..2] == [l.value, right.value];
        r := Value(v);
      case TernaryNode(a, b, c) =>
        var cond := Evaluate(a);
        if !cond.Value? {
          return cond;
        }
        r := Evaluate(if cond.value != 0 then b else c);
      case CallNode(fn, args) =>
        r := EvaluateCall(fn, args, id);
    }

    /** Both operands, the right one only if the left one has a value. */
    method EvaluatePair(a: nat, b: nat, limit: nat) returns (l: Outcome, r: Outcome)
      requires Valid() && limit <= |pool| && a < limit && b < limit
      ensures WellFormed(Tree(a), |vars|) && WellFormed(Tree(b), |vars|)
      ensures l == Meaning(Tree(a), vars) && (l.Value? ==> r == Meaning(Tree(b), vars))
      ensures At(Tree(b)) == pool[b].at
      decreases limit, 0
    {
      UnfoldWellFormed(pool, b, |vars|);
      hide Sound, Unfold, WellFormed, Meaning, At;
      l := Evaluate(a);
      r := l;
      if l.Value? {
        r := Evaluate(b);
      }
    }

    method EvaluateCall(fn: Function, ids: seq<nat>, limit: nat) returns (r: Outcome)
      requires Valid() && limit <= |pool| && AllBelow(ids, limit) && Callable(fn, |ids|)
      ensures AllWellFormed(UnfoldAll(pool, ids, limit, |vars|), |vars|)
      ensures r == CallMeaning(fn, Meanings(UnfoldAll(pool, ids, limit, |vars|), vars))
      decreases limit, 1
    {
      UnfoldAllWellFormed(pool, ids, limit, |vars|);
      hide Sound, Unfold, Meaning, WellFormed, Applied, UnfoldAll, Meanings, AllWellFormed;
      var values := new i64[MAX_ARGUMENTS];
      var failed := EvaluateArguments(values, ids, limit);
      if failed.Some? {
        return DivisionByZero(failed.value);
      }
      var v := ApplyFunction(fn, values, |ids|);
      r := Value(v);
    }

    /** Fills in the argument values from the left, up to the first failure. */
    method EvaluateArguments(values: array<i64>, ids: seq<nat>, limit: nat) returns (failed: Option<nat>)
      requires Valid() && limit <= |pool| && AllBelow(ids, limit) && |ids| <= values.Length
      requires AllWellFormed(UnfoldAll(pool, ids, limit, |vars|), |vars|)
      modifies values
      ensures Valid() && limit <= |pool|
      ensures Meanings(UnfoldAll(pool, ids, limit, |vars|), vars)
           == if failed.Some? then Failed(failed.value) else Values(values[..|ids|])
      decreases limit, 0
    {
      hide Sound, Unfold, Meaning, WellFormed, UnfoldAll, Meanings, AllWellFormed;
      ghost var all := Meanings(UnfoldAll(pool, ids, limit, |vars|), vars);
      var i := 0;
      assert ids[0..] == ids && values[..0] == [];
      while i < |ids|
        invariant 0 <= i <= |ids|
        invariant AllWellFormed(UnfoldAll(pool, ids[i..], limit, |vars|), |vars|)
        invariant all == Prepended(values[..i], Meanings(UnfoldAll(pool, ids[i..], limit, |vars|), vars))
      {
        NextArgument(pool, ids, i, limit, vars);
        var v := Evaluate(ids[i]);
        if !v.Value? {
          return Some(v.token);
        }
        ghost var before := values[..i];
        PrependTwice(before, v.value, Meanings(UnfoldAll(pool, ids[i + 1..], limit, |vars|), vars));
        values[i] := v.value;
        assert values[..i + 1] == before + [v.value];
        i := i + 1;
      }
      NoMoreArguments(pool, ids, limit, vars);
      assert ids[i..] == ids[|ids|..];
      failed := None;
    }

    /** Appends the nodes of a tree, children first, in the order the parser calls the actions. */
    method Build(t: Tree) returns (id: Option<nat>)
      requires Valid() && WellFormed(t, |vars|)
      modifies this`pool
      ensures Valid() && old(pool) <= pool
      ensures id.Some? <==> Room(allocates, |old(pool)|, Size(t))
      ensures id.Some? ==> |pool| == |old(pool)| + Size(t) && id.value < |pool| && Tree(id.value) == t
      decreases Size(t), 0
    {
      hide Sound, Unfold, Room;
      match t
      case Number(value, token) =>
        id := Make(Node(NumberNode(value), token));
      case Variable(slot, token) =>
        id := Make(Node(VariableNode(slot), token));
      case Negate(operand) =>
        id := BuildNegation(operand);
      case Binary(op, left, right) =>
        id := BuildBinary(op, left, right);
      case User(fn, left, right) =>
        id := BuildUser(fn, left, right);
      case Ternary(cond, yes, no) =>
        id := BuildTernary(cond, yes, no);
      case Call(fn, args, token) =>
        id := BuildCall(fn, args, token);
    }

    method BuildNegation(operand: Tree) returns (id: Option<nat>)
      requires Valid() && WellFormed(operand, |vars|)
      modifies this`pool
      ensures Valid() && old(pool) <= pool
      ensures id.Some? <==> Room(allocates, |old(pool)|, Size(operand) + 1)
      ensures id.Some? ==> |pool| == |old(pool)| + Size(operand) + 1
      ensures id.Some? ==> id.value < |pool| && Tree(id.value) == Negate(operand)
      decreases Size(operand), 1
    {
      hide Sound, Unfold, WellFormed, Size, Room;
      RoomSplits(allocates, |pool|, Size(operand), 1);
      var v := Build(operand);
      if v.None? {
        return None;
      }
      id := MakePrefix(v.value);
    }

    method BuildBinary(op: char, left: Tree, right: Tree) returns (id: Option<nat>)
      requires Valid() && op in BUILTIN_OPERATORS && WellFormed(left, |vars|) && WellFormed(right, |vars|)
      modifies this`pool
      ensures Valid() && old(pool) <= pool
      ensures id.Some? <==> Room(allocates, |old(pool)|, Size(left) + Size(right) + 1)
      ensures id.Some? ==> |pool| == |old(pool)| + Size(left) + Size(right) + 1
      ensures id.Some? ==> id.value < |pool| && Tree(id.value) == Binary(op, left, right)
      decreases Size(left) + Size(right), 2
    {
      hide Sound, Unfold, WellFormed, Size, Room;
      RoomSplits(allocates, |pool|, Size(left) + Size(right), 1);
      var l, r := BuildPair(left, right);
      if r.None? {
        return None;
      }
      id := MakeBinary([op], l, r.value);
    }

    method BuildUser(fn: Function, left: Tree, right: Tree) returns (id: Option<nat>)
      requires Valid() && !fn.Abs? && WellFormed(left, |vars|) && WellFormed(right, |vars|)
      modifies this`pool
      ensures Valid() && old(pool) <= pool
      ensures id.Some? <==> Room(allocates, |old(pool)|, Size(left) + Size(right) + 1)
      ensures id.Some? ==> |pool| == |old(pool)| + Size(left) + Size(right) + 1
      ensures id.Some? ==> id.value < |pool| && Tree(id.value) == User(fn, left, right)
      decreases Size(left) + Size(right), 2
    {
      hide Sound, Unfold, WellFormed, Size, Room;
      RoomSplits(allocates, |pool|, Size(left) + Size(right), 1);
      var l, r := BuildPair(left, right);
      if r.None? {
        return None;
      }
      id := Make(Node(UserNode(fn, l, r.value), pool[r.value].at));
    }

    method BuildCall(fn: Function, args: seq<Tree>, token: nat) returns (id: Option<nat>)
      requires Valid() && Callable(fn, |args|) && AllWellFormed(args, |vars|)
      modifies this`pool
      ensures Valid() && old(pool) <= pool
      ensures id.Some? <==> Room(allocates, |old(pool)|, SizeAll(args) + 1)
      ensures id.Some? ==> |pool| == |old(pool)| + SizeAll(args) + 1
      ensures id.Some? ==> id.value < |pool| && Tree(id.value) == Call(fn, args, token)
      decreases SizeAll(args), 2
    {
      hide Sound, Unfold, UnfoldAll, AllWellFormed, SizeAll, Room;
      RoomSplits(allocates, |pool|, SizeAll(args), 1);
      var ids := BuildAll(args);
      if ids.None? {
        return None;
      }
      id := Make(Node(CallNode(fn, ids.value), token));
    }

    method BuildTernary(cond: Tree, yes: Tree, no: Tree) returns (id: Option<nat>)
      requires Valid() && WellFormed(cond, |vars|) && WellFormed(yes, |vars|) && WellFormed(no, |vars|)
      modifies this`pool
      ensures Valid() && old(pool) <= pool
      ensures id.Some? <==> Room(allocates, |old(pool)|, Size(cond) + Size(yes) + Size(no) + 1)
      ensures id.Some? ==> |pool| == |old(pool)| + Size(cond) + Size(yes) + Size(no) + 1
      ensures id.Some? ==> id.value < |pool| && Tree(id.value) == Ternary(cond, yes, no)
      decreases Size(cond) + Size(yes) + Size(no), 3
    {
      hide Sound, Unfold, WellFormed, Size, Room;
      RoomSplits(allocates, |pool|, Size(cond) + Size(yes) + Size(no), 1);
      var c, l, r := BuildThree(cond, yes, no);
      if r.None? {
        return None;
      }
      id := MakeTernary(c, l, r.value);
    }

    method BuildThree(cond: Tree, yes: Tree, no: Tree) returns (c: nat, l: nat, r: Option<nat>)
      requires Valid() && WellFormed(cond, |vars|) && WellFormed(yes, |vars|) && WellFormed(no, |vars|)
      modifies this`pool
      ensures Valid() && old(pool) <= pool
      ensures r.Some? <==> Room(allocates, |old(pool)|, Size(cond) + Size(yes) + Size(no))
      ensures r.Some? ==> |pool| == |old(pool)| + Size(cond) + Size(yes) + Size(no)
      ensures r.Some? ==> c < |pool| && l < |pool| && r.value < |pool|
      ensures r.Some? ==> Tree(c) == cond && Tree(l) == yes && Tree(r.value) == no
      decreases Size(cond) + Size(yes) + Size(no), 2
    {
      hide Sound, Unfold, WellFormed, Size, Room;
      ghost var more := Size(yes) + Size(no);
      RoomSplits(allocates, |pool|, Size(cond), more);
      assert Size(cond) + Size(yes) + Size(no) == Size(cond) + more;
      var first := Build(cond);
      if first.None? {
        return 0, 0, None;
      }
      c := first.value;
      ghost var before := pool;
      l, r := BuildPair(yes, no);
      StillUnfolds(before, pool, c, |vars|);
    }

    method BuildPair(left: Tree, right: Tree) returns (l: nat, r: Option<nat>)
      requires Valid() && WellFormed(left, |vars|) && WellFormed(right, |vars|)
      modifies this`pool
      ensures Valid() && old(pool) <= pool
      ensures r.Some? <==> Room(allocates, |old(pool)|, Size(left) + Size(right))
      ensures r.Some? ==> |pool| == |old(pool)| + Size(left) + Size(right) && l < |pool| && r.value < |pool|
      ensures r.Some? ==> Tree(l) == left && Tree(r.value) == right
      decreases Size(left) + Size(right), 1
    {
      hide Sound, Unfold, WellFormed, Room;
      RoomSplits(allocates, |pool|, Size(left), Size(right));
      var first := Build(left);
      if first.None? {
        return 0, None;
      }
      l := first.value;
      ghost var before := pool;
      r := Build(right);
      StillUnfolds(before, pool, l, |vars|);
    }

    method BuildAll(ts: seq<Tree>) returns (ids: Option<seq<nat>>)
      requires Valid() && AllWellFormed(ts, |vars|)
      modifies this`pool
      ensures Valid() && old(pool) <= pool
      ensures ids.Some? <==> Room(allocates, |old(pool)|, SizeAll(ts))
      ensures ids.Some? ==> |pool| == |old(pool)| + SizeAll(ts) && AllBelow(ids.value, |pool|)
      ensures ids.Some? ==> UnfoldAll(pool, ids.value, |pool|, |vars|) == ts
      decreases SizeAll(ts), 1
    {
      hide Sound, Unfold, WellFormed;
      if ts != [] {
        RoomSplits(allocates, |pool|, Size(ts[0]), SizeAll(ts[1..]));
      }
      if ts == [] {
        return Some([]);
      }
      var first := Build(ts[0]);
      if first.None? {
        return None;
      }
      ghost var before := pool;
      var rest := BuildAll(ts[1..]);
      if rest.None? {
        return None;
      }
      StillUnfolds(before, pool, first.value, |vars|);
      ids := Some([first.value] + rest.value);
      assert ids.value[1..] == rest.value;
    }

    method Rollback(mark: nat)
      requires Valid()
      modifies this`pool
      ensures Valid() && pool == if mark < |old(pool)| then old(pool)[..mark] else old(pool)
    {
      if mark < |pool| {
        SoundPrefix(pool, mark, |vars|);
        pool := pool[..mark];
      }
    }

    /** Parse, evaluate, give the nodes back: the meaning of the expression if its nodes fit, and in
        either case the pool as it was. */
    method Expression(t: Tree) returns (r: Option<Outcome>)
      requires Valid() && WellFormed(t, |vars|)
      modifies this`pool
      ensures Valid() && pool == old(pool)
      ensures r == if Room(allocates, |pool|, Size(t)) then Some(Meaning(t, vars)) else None
      ensures r.Some? ==> |pool| + Size(t) <= 128
      ensures |pool| + Size(t) <= 128 && (forall i: nat :: i < 128 ==> allocates(i)) ==> r.Some?
    {
      hide Sound, Unfold, Meaning, WellFormed;
      var before := |pool|;
      var tree := Build(t);
      if tree.None? {
        Rollback(before);
        return None;
      }
      var value := Evaluate(tree.value);
      Rollback(before);
      r := Some(value);
    }
  }

  /** The function of the first declaration of a spelling. */
  function Lookup(ops: seq<(string, Function)>, spelling: string): (fn: Function)
    ensures fn == Max || exists i :: 0 <= i < |ops| && ops[i] == (spelling, fn)
    ensures (forall i :: 0 <= i < |ops| ==> ops[i].0 != spelling) ==> fn == Max
    ensures forall i :: 0 <= i < |ops| && ops[i].0 == spelling && (forall k :: 0 <= k < i ==> ops[k].0 != spelling) ==>
              fn == ops[i].1
  {
    if ops == [] then Max else if ops[0].0 == spelling then ops[0].1 else Lookup(ops[1..], spelling)
  }
}
