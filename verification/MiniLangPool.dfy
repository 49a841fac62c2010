/** The interpreter's node pool, an append-only sequence whose nodes refer to older ones by index,
    and the trees that its handles stand for. */
module MiniLangPool {
  import opened Words
  import opened MiniLang

  const MAX_NODES: nat := 128

  datatype Shape =
    | NumberNode(value: i64)
    | VariableNode(slot: nat)
    | BinaryNode(op: char, a: nat, b: nat)
    | UserNode(fn: Function, a: nat, b: nat)
    | NegateNode(a: nat)
    | TernaryNode(a: nat, b: nat, c: nat)
    | CallNode(fn: Function, args: seq<nat>)

  datatype Node = Node(shape: Shape, at: nat)

  predicate AllBelow(ids: seq<nat>, limit: nat)
  {
    forall i :: 0 <= i < |ids| ==> ids[i] < limit
  }

  /** A node that may come next: its children are in the pool already, it takes its error position
      from the child the parser takes it from, and the rest is what the parser allows. */
  predicate Follows(pool: seq<Node>, n: Node, variables: nat)
  {
    var size := |pool|;
    match n.shape
    case NumberNode(_) => true
    case VariableNode(slot) => slot < variables
    case BinaryNode(op, a, b) => op in BUILTIN_OPERATORS && a < size && b < size && n.at == pool[b].at
    case UserNode(fn, a, b) => !fn.Abs? && a < size && b < size && n.at == pool[b].at
    case NegateNode(a) => a < size && n.at == pool[a].at
    case TernaryNode(a, b, c) => a < size && b < size && c < size && n.at == pool[a].at
    case CallNode(fn, args) => Callable(fn, |args|) && AllBelow(args, size)
  }

  ghost predicate Sound(pool: seq<Node>, variables: nat)
  {
    forall i :: 0 <= i < |pool| ==> Follows(pool[..i], pool[i], variables)
  }

  lemma SoundPrefix(pool: seq<Node>, n: nat, variables: nat)
    requires Sound(pool, variables) && n <= |pool|
    ensures Sound(pool[..n], variables)
  {
    forall i | 0 <= i < n ensures Follows(pool[..n][..i], pool[..n][i], variables) {
      assert pool[..n][..i] == pool[..i];
    }
  }

  lemma SoundPush(pool: seq<Node>, n: Node, variables: nat)
    requires Sound(pool, variables) && Follows(pool, n, variables)
    ensures Sound(pool + [n], variables)
  {
    hide Follows;
    var grown := pool + [n];
    forall i | 0 <= i < |grown| ensures Follows(grown[..i], grown[i], variables) {
      assert grown[..i] == pool[..i];
      assert i == |pool| ==> grown[..i] == pool;
    }
  }

  /** The tree a handle stands for. */
  ghost function Unfold(pool: seq<Node>, id: nat, variables: nat): (t: Tree)
    requires Sound(pool, variables) && id < |pool|
    decreases id
  {
    assert Follows(pool[..id], pool[id], variables);
    match pool[id].shape
    case NumberNode(value) => Number(value, pool[id].at)
    case VariableNode(slot) => Variable(slot, pool[id].at)
    case BinaryNode(op, a, b) => Binary(op, Unfold(pool, a, variables), Unfold(pool, b, variables))
    case UserNode(fn, a, b) => User(fn, Unfold(pool, a, variables), Unfold(pool, b, variables))
    case NegateNode(a) => Negate(Unfold(pool, a, variables))
    case TernaryNode(a, b, c) =>
      Ternary(Unfold(pool, a, variables), Unfold(pool, b, variables), Unfold(pool, c, variables))
    case CallNode(fn, args) => Call(fn, UnfoldAll(pool, args, id, variables), pool[id].at)
  }

  ghost function UnfoldAll(pool: seq<Node>, ids: seq<nat>, limit: nat, variables: nat): (ts: seq<Tree>)
    requires Sound(pool, variables) && limit <= |pool| && AllBelow(ids, limit)
    ensures |ts| == |ids|
    decreases limit, |ids|
  {
    if ids == [] then []
    else [Unfold(pool, ids[0], variables)] + UnfoldAll(pool, ids[1..], limit, variables)
  }

  /** A parsed tree is well formed, and the position stored in its node is the position of the tree. */
  lemma {:induction false} UnfoldWellFormed(pool: seq<Node>, id: nat, variables: nat)
    requires Sound(pool, variables) && id < |pool|
    ensures WellFormed(Unfold(pool, id, variables), variables)
    ensures At(Unfold(pool, id, variables)) == pool[id].at
    decreases id
  {
    assert Follows(pool[..id], pool[id], variables);
    hide Sound;
    match pool[id].shape
    case NumberNode(_) =>
    case VariableNode(_) =>
    case BinaryNode(_, a, b) =>
      UnfoldWellFormed(pool, a, variables);
      UnfoldWellFormed(pool, b, variables);
    case UserNode(_, a, b) =>
      UnfoldWellFormed(pool, a, variables);
      UnfoldWellFormed(pool, b, variables);
    case NegateNode(a) =>
      UnfoldWellFormed(pool, a, variables);
    case TernaryNode(a, b, c) =>
      UnfoldWellFormed(pool, a, variables);
      UnfoldWellFormed(pool, b, variables);
      UnfoldWellFormed(pool, c, variables);
    case CallNode(_, args) =>
      UnfoldAllWellFormed(pool, args, id, variables);
  }

  lemma {:induction false} UnfoldAllWellFormed(pool: seq<Node>, ids: seq<nat>, limit: nat, variables: nat)
    requires Sound(pool, variables) && limit <= |pool| && AllBelow(ids, limit)
    ensures AllWellFormed(UnfoldAll(pool, ids, limit, variables), variables)
    decreases limit, |ids|
  {
    hide Sound, Unfold, WellFormed;
    if ids != [] {
      UnfoldWellFormed(pool, ids[0], variables);
      UnfoldAllWellFormed(pool, ids[1..], limit, variables);
      assert UnfoldAll(pool, ids, limit, variables)[1..] == UnfoldAll(pool, ids[1..], limit, variables);
    }
  }

  /** A handle stands for the same tree whatever has been appended since. */
  lemma {:induction false} UnfoldStable(pool: seq<Node>, n: nat, id: nat, variables: nat)
    requires Sound(pool, variables) && id < n <= |pool|
    ensures Sound(pool[..n], variables) && Unfold(pool[..n], id, variables) == Unfold(pool, id, variables)
    decreases id
  {
    SoundPrefix(pool, n, variables);
    assert Follows(pool[..id], pool[id], variables);
    hide Sound;
    match pool[id].shape
    case NumberNode(_) =>
    case VariableNode(_) =>
    case BinaryNode(_, a, b) =>
      UnfoldStable(pool, n, a, variables);
      UnfoldStable(pool, n, b, variables);
    case UserNode(_, a, b) =>
      UnfoldStable(pool, n, a, variables);
      UnfoldStable(pool, n, b, variables);
    case NegateNode(a) =>
      UnfoldStable(pool, n, a, variables);
    case TernaryNode(a, b, c) =>
      UnfoldStable(pool, n, a, variables);
      UnfoldStable(pool, n, b, variables);
      UnfoldStable(pool, n, c, variables);
    case CallNode(_, args) =>
      UnfoldAllStable(pool, n, args, id, variables);
  }

  lemma {:induction false} UnfoldAllStable(pool: seq<Node>, n: nat, ids: seq<nat>, limit: nat, variables: nat)
    requires Sound(pool, variables) && limit <= n <= |pool| && AllBelow(ids, limit)
    ensures Sound(pool[..n], variables)
    ensures UnfoldAll(pool[..n], ids, limit, variables) == UnfoldAll(pool, ids, limit, variables)
    decreases limit, |ids|
  {
    SoundPrefix(pool, n, variables);
    hide Sound, Unfold;
    if ids != [] {
      UnfoldStable(pool, n, ids[0], variables);
      UnfoldAllStable(pool, n, ids[1..], limit, variables);
    }
  }

  /** The tree of a node about to be appended. */
  ghost function TreeOf(pool: seq<Node>, n: Node, variables: nat): (t: Tree)
    requires Sound(pool, variables) && Follows(pool, n, variables)
  {
    match n.shape
    case NumberNode(value) => Number(value, n.at)
    case VariableNode(slot) => Variable(slot, n.at)
    case BinaryNode(op, a, b) => Binary(op, Unfold(pool, a, variables), Unfold(pool, b, variables))
    case UserNode(fn, a, b) => User(fn, Unfold(pool, a, variables), Unfold(pool, b, variables))
    case NegateNode(a) => Negate(Unfold(pool, a, variables))
    case TernaryNode(a, b, c) =>
      Ternary(Unfold(pool, a, variables), Unfold(pool, b, variables), Unfold(pool, c, variables))
    case CallNode(fn, args) => Call(fn, UnfoldAll(pool, args, |pool|, variables), n.at)
  }

  lemma PushUnfolds(pool: seq<Node>, n: Node, variables: nat)
    requires Sound(pool, variables) && Follows(pool, n, variables)
    ensures Sound(pool + [n], variables)
    ensures Unfold(pool + [n], |pool|, variables) == TreeOf(pool, n, variables)
    ensures forall id: nat :: id < |pool| ==> Unfold(pool + [n], id, variables) == Unfold(pool, id, variables)
  {
    SoundPush(pool, n, variables);
    var grown := pool + [n];
    assert grown[..|pool|] == pool;
    forall id: nat | id < |pool| ensures Unfold(grown, id, variables) == Unfold(pool, id, variables) {
      hide Follows, Unfold;
      UnfoldStable(grown, |pool|, id, variables);
    }
    if n.shape.CallNode? {
      UnfoldAllStable(grown, |pool|, n.shape.args, |pool|, variables);
    }
    hide Sound;
  }
}
