/** Day 8: walking a map of nodes. Each node has a left and a right child;
    `traverse` follows the whole instruction list once from a node. Part 2
    walks from every start node to an end node, checks that the walk then
    cycles back to the same end node with the same period, and combines the
    periods with an lcm.
 */
module Day8 {

  import opened Wrappers
  import Num

  datatype Dir = R | L

  /** A node name: exactly three bytes. */
  datatype Node = Node(b0: byte, b1: byte, b2: byte)

  const A: byte := 65
  const Z: byte := 90

  const START: Node := Node(A, A, A)
  const END: Node := Node(Z, Z, Z)

  predicate IsStart(n: Node)
  {
    n.b2 == A
  }

  predicate IsEnd(n: Node)
  {
    n.b2 == Z
  }

  /** `START` starts and `END` ends, and no node does both, so every walk
      from a start node takes at least one pass. */
  lemma StartAndEnd(n: Node)
    ensures IsStart(START) && IsEnd(END)
    ensures !(IsStart(n) && IsEnd(n))
  {
  }

  function Bytes(n: Node): seq<byte>
  {
    [n.b0, n.b1, n.b2]
  }

  /** `Node::from_str`: a node is any three bytes. */
  function NodeFromStr(s: seq<byte>): (r: Outcome<Node>)
    ensures r.Ok? <==> |s| == 3
    ensures r.Err? <==> |s| != 3
    ensures r.Err? ==> r.error == "invalid node"
  {
    if |s| == 3 then Ok(Node(s[0], s[1], s[2])) else Err("invalid node")
  }

  lemma NodeRoundTrip(n: Node, s: seq<byte>)
    ensures NodeFromStr(Bytes(n)) == Ok(n)
    ensures NodeFromStr(s).Ok? ==> Bytes(NodeFromStr(s).value) == s
  {
  }

  /** The children `(left, right)` of each node. */
  type NodeMap = map<Node, (Node, Node)>

  /** One instruction: look up the current node (panicking when it has no
      entry) and take the child the instruction names. */
  function Move(nodes: NodeMap, current: Node, d: Dir): (r: Outcome<Node>)
    ensures r.Ok? || r.Panic?
    ensures r.Panic? <==> current !in nodes
    ensures r.Ok? && d == R ==> r.value == nodes[current].1
    ensures r.Ok? && d == L ==> r.value == nodes[current].0
  {
    if current !in nodes then Panic
    else
      var (left, right) := nodes[current];
      match d
      case R => Ok(right)
      case L => Ok(left)
  }

  /** `traverse`: the instructions applied in order, once each. */
  function Traverse(nodes: NodeMap, start: Node, instrs: seq<Dir>): (r: Outcome<Node>)
    ensures r.Ok? || r.Panic?
    ensures |instrs| == 0 ==> r == Ok(start)
    decreases |instrs|
  {
    if |instrs| == 0 then Ok(start)
    else match Move(nodes, start, instrs[0])
      case Ok(next) => Traverse(nodes, next, instrs[1..])
      case _ => Panic
  }

  function Then(r: Outcome<Node>, nodes: NodeMap, instrs: seq<Dir>): Outcome<Node>
  {
    match r
    case Ok(m) => Traverse(nodes, m, instrs)
    case _ => Panic
  }

  /** Following `a + b` is following `a` and then `b`; together with
      `Move` for a single instruction this pins `Traverse` down. */
  lemma {:induction false} TraverseConcat(nodes: NodeMap, start: Node, a: seq<Dir>, b: seq<Dir>)
    ensures Traverse(nodes, start, a + b) == Then(Traverse(nodes, start, a), nodes, b)
    decreases |a|
  {
    if |a| == 0 {
      assert a + b == b;
    } else {
      assert (a + b)[0] == a[0] && (a + b)[1..] == a[1..] + b;
      match Move(nodes, start, a[0])
      case Ok(next) =>
        TraverseConcat(nodes, next, a[1..], b);
      case _ =>
    }
  }

  lemma TraverseOne(nodes: NodeMap, start: Node, d: Dir)
    ensures Traverse(nodes, start, [d]) == Move(nodes, start, d)
  {
    assert [d][1..] == [];
  }

  /** `k` whole passes over the instructions. */
  function Walk(nodes: NodeMap, instrs: seq<Dir>, start: Node, k: nat): (r: Outcome<Node>)
    ensures r.Ok? || r.Panic?
  {
    if k == 0 then Ok(start)
    else Then(Walk(nodes, instrs, start, k - 1), nodes, instrs)
  }

  lemma {:induction false} WalkAdd(nodes: NodeMap, instrs: seq<Dir>, start: Node, a: nat, b: nat)
    requires Walk(nodes, instrs, start, a).Ok?
    ensures Walk(nodes, instrs, start, a + b) == Walk(nodes, instrs, Walk(nodes, instrs, start, a).value, b)
    decreases b
  {
    if b > 0 {
      WalkAdd(nodes, instrs, start, a, b - 1);
    }
  }

  /** What the two `assert_eq!`s of part 2 check for one start node: its
      walk reaches `end` after `n` passes and comes back to `end` every `n`
      passes. */
  ghost predicate Cycles(nodes: NodeMap, instrs: seq<Dir>, start: Node, end: Node, n: nat)
  {
    n > 0 && IsEnd(end) && Walk(nodes, instrs, start, n) == Ok(end) && Walk(nodes, instrs, end, n) == Ok(end)
  }

  lemma {:induction false} CyclesAtMultiples(nodes: NodeMap, instrs: seq<Dir>, start: Node, end: Node, n: nat, q: nat)
    requires Cycles(nodes, instrs, start, end, n)
    requires q >= 1
    ensures Walk(nodes, instrs, start, q * n) == Ok(end)
    decreases q
  {
    if q > 1 {
      CyclesAtMultiples(nodes, instrs, start, end, n, q - 1);
      WalkAdd(nodes, instrs, start, (q - 1) * n, n);
      assert (q - 1) * n + n == q * n;
    }
  }

  /** The tail of part 2: `reduce(lcm).unwrap_or(1) * instrs.len()`. */
  function Part2Combine(distances: seq<nat>, len: nat): (r: nat)
    requires forall k :: 0 <= k < |distances| ==> distances[k] > 0
    ensures |distances| == 0 ==> r == len
    ensures forall k :: 0 <= k < |distances| ==> Num.Divides(distances[k] * len, r)
  {
    var l := Num.LcmAll(distances);
    forall k | 0 <= k < |distances|
      ensures Num.Divides(distances[k] * len, l * len)
    {
      ScaleDivides(distances[k], l, len);
    }
    l * len
  }

  lemma ScaleDivides(d: nat, l: nat, len: nat)
    requires d > 0 && Num.Divides(d, l)
    ensures Num.Divides(d * len, l * len)
  {
    Num.Cofactor(d, l);
    var q := l / d;
    assert l * len == (d * len) * q;
    Num.MultipleIsDivisible(d * len, q);
  }

  /** When every start node cycles as part 2 checks, after the combined
      number of passes every walk stands on its end node at once. */
  lemma AllAtEnd(nodes: NodeMap, instrs: seq<Dir>, starts: seq<Node>, ends: seq<Node>, distances: seq<nat>)
    requires |starts| == |ends| == |distances|
    requires forall k :: 0 <= k < |starts| ==> Cycles(nodes, instrs, starts[k], ends[k], distances[k])
    requires forall k :: 0 <= k < |distances| ==> distances[k] > 0
    ensures forall k :: 0 <= k < |starts| ==>
      Walk(nodes, instrs, starts[k], Num.LcmAll(distances)) == Ok(ends[k]) && IsEnd(ends[k])
  {
    var l := Num.LcmAll(distances);
    forall k | 0 <= k < |starts|
      ensures Walk(nodes, instrs, starts[k], l) == Ok(ends[k])
    {
      Num.Cofactor(distances[k], l);
      var q := l / distances[k];
      assert q >= 1;
      assert q * distances[k] == l;
      CyclesAtMultiples(nodes, instrs, starts[k], ends[k], distances[k], q);
    }
  }
}
