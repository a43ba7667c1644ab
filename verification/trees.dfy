/** The Huffman tree and `maketree`, the greedy merge of the two lightest
    nodes. Python's `heapq` is abstracted to a deterministic "take the first
    node of least weight" over the node list, with pushes appending. */
module Trees {
  import opened Wrappers
  import opened Dicts
  import opened Symbols

  /** A leaf holds one symbol and its frequency; an internal node owns exactly
      two children (left is bit 0, right is bit 1). Leaf detection is by
      constructor, not by probing a missing child. */
  datatype Tree = Leaf(sym: Symbol, freq: int) | Node(freq: int, left: Tree, right: Tree)

  /** The (symbol, frequency) pairs of the leaves, left to right. */
  function LeafPairs(t: Tree): seq<(Symbol, int)> {
    match t
    case Leaf(s, f) => [(s, f)]
    case Node(_, l, r) => LeafPairs(l) + LeafPairs(r)
  }

  /** The leaf pairs of every tree of a node list, in list order. */
  function QueuePairs(q: seq<Tree>): seq<(Symbol, int)>
    decreases |q|
  {
    if |q| == 0 then [] else LeafPairs(q[0]) + QueuePairs(q[1..])
  }

  /** The total frequency of a node list. */
  function Weight(q: seq<Tree>): int
    decreases |q|
  {
    if |q| == 0 then 0 else q[0].freq + Weight(q[1..])
  }

  /** Every internal node weighs what its two children weigh together. */
  predicate WellWeighted(t: Tree) {
    match t
    case Leaf(_, _) => true
    case Node(f, l, r) => f == l.freq + r.freq && WellWeighted(l) && WellWeighted(r)
  }

  /** Every internal node's left child (popped first) is no heavier than its
      right child. */
  predicate LeftLighter(t: Tree) {
    match t
    case Leaf(_, _) => true
    case Node(_, l, r) => l.freq <= r.freq && LeftLighter(l) && LeftLighter(r)
  }

  lemma {:induction false} QueueAppend(a: seq<Tree>, b: seq<Tree>)
    ensures QueuePairs(a + b) == QueuePairs(a) + QueuePairs(b)
    ensures Weight(a + b) == Weight(a) + Weight(b)
    decreases |a|
  {
    if |a| == 0 {
      assert a + b == b;
    } else {
      QueueAppend(a[1..], b);
      assert (a + b)[1..] == a[1..] + b;
    }
  }

  lemma {:induction false} QueueSplit(q: seq<Tree>, i: nat)
    requires i < |q|
    ensures QueuePairs(q) == QueuePairs(q[..i]) + LeafPairs(q[i]) + QueuePairs(q[i + 1..])
    ensures Weight(q) == Weight(q[..i]) + q[i].freq + Weight(q[i + 1..])
    decreases i
  {
    if i > 0 {
      QueueSplit(q[1..], i - 1);
      assert q[1..][..i - 1] == q[1..i];
      assert q[1..][i - 1] == q[i];
      assert q[1..][i..] == q[i + 1..];
      assert QueuePairs(q[..i]) == LeafPairs(q[0]) + QueuePairs(q[1..i]) by {
        assert q[..i][1..] == q[1..i];
      }
      assert Weight(q[..i]) == q[0].freq + Weight(q[1..i]) by {
        assert q[..i][1..] == q[1..i];
      }
    }
  }

  /** One leaf per dict entry, in iteration order: the nodes the callers push
      onto the heap before calling `maketree`. */
  function Leaves(d: Dict<Symbol, int>): (q: seq<Tree>)
    ensures |q| == |d|
    ensures forall i :: 0 <= i < |d| ==> q[i] == Leaf(d[i].0, d[i].1)
  {
    seq(|d|, i requires 0 <= i < |d| => Leaf(d[i].0, d[i].1))
  }

  /** The heap of a dict's leaves holds exactly the dict's entries, and weighs
      the sum of its values. */
  lemma {:induction false} LeavesOfDict(d: Dict<Symbol, int>)
    ensures QueuePairs(Leaves(d)) == d
    ensures Weight(Leaves(d)) == SumValues(d)
    ensures forall t :: t in Leaves(d) ==> WellWeighted(t) && LeftLighter(t)
    decreases |d|
  {
    if |d| > 0 {
      LeavesOfDict(d[1..]);
      assert Leaves(d)[1..] == Leaves(d[1..]);
    }
  }

  /** The position `heapq.heappop` takes a node from: the first node of least
      frequency. */
  function MinIndex(q: seq<Tree>): (i: nat)
    requires |q| > 0
    ensures i < |q|
    ensures forall j :: 0 <= j < |q| ==> q[i].freq <= q[j].freq
    ensures forall j :: 0 <= j < i ==> q[i].freq < q[j].freq
    decreases |q|
  {
    if |q| == 1 then 0
    else
      var j := MinIndex(q[..|q| - 1]);
      if q[|q| - 1].freq < q[j].freq then |q| - 1 else j
  }

  /** `heapq.heappop(nodes)`: a node of least frequency, and the rest. */
  function PopMin(q: seq<Tree>): (r: (Tree, seq<Tree>))
    requires |q| > 0
    ensures |r.1| == |q| - 1
    ensures r.0 in q && forall t :: t in r.1 ==> t in q
    ensures forall t :: t in q ==> r.0.freq <= t.freq
  {
    var i := MinIndex(q);
    (q[i], q[..i] + q[i + 1..])
  }

  /** A pop removes exactly one node: the popped node and the rest together
      are the queue, rearranged. */
  lemma PopMinPermutes(q: seq<Tree>)
    requires |q| > 0
    ensures multiset(q) == multiset{PopMin(q).0} + multiset(PopMin(q).1)
  {
    var i := MinIndex(q);
    assert q == q[..i] + [q[i]] + q[i + 1..];
  }

  /** Removing a node takes its leaves and its weight out of the node list. */
  lemma PopMinPreserves(q: seq<Tree>)
    requires |q| > 0
    ensures Weight(q) == PopMin(q).0.freq + Weight(PopMin(q).1)
    ensures multiset(QueuePairs(q)) == multiset(LeafPairs(PopMin(q).0)) + multiset(QueuePairs(PopMin(q).1))
  {
    var i := MinIndex(q);
    QueueSplit(q, i);
    QueueAppend(q[..i], q[i + 1..]);
  }

  /** One round of the `maketree` loop: pop the two lightest nodes, join them
      under a new node (first popped on the left) and push it back. */
  function Merge(nodes: seq<Tree>): (r: seq<Tree>)
    requires |nodes| >= 2
    ensures |r| == |nodes| - 1
    ensures r[|r| - 1].Node? && r[|r| - 1].freq == r[|r| - 1].left.freq + r[|r| - 1].right.freq
    ensures r[|r| - 1].left.freq <= r[|r| - 1].right.freq
    ensures forall i :: 0 <= i < |r| - 1 ==> r[|r| - 1].right.freq <= r[i].freq
  {
    var first := PopMin(nodes);
    var second := PopMin(first.1);
    second.1 + [Node(first.0.freq + second.0.freq, first.0, second.0)]
  }

  /** A merge loses no node: the nodes it leaves in place and the two it
      joins are, together, exactly the nodes it was given. */
  lemma MergePermutes(nodes: seq<Tree>)
    requires |nodes| >= 2
    ensures multiset(Merge(nodes)[..|nodes| - 2]) + multiset{Merge(nodes)[|nodes| - 2].left, Merge(nodes)[|nodes| - 2].right}
            == multiset(nodes)
  {
    var first := PopMin(nodes);
    var second := PopMin(first.1);
    MergeUnfold(nodes, first, second);
    PopMinPermutes(nodes);
    PopMinPermutes(first.1);
    assert Merge(nodes)[..|nodes| - 2] == second.1;
  }

  /** A merge keeps the leaves and the total weight of the node list, and the
      node it pushes weighs its children and has the lighter one on the left. */
  lemma MergePreserves(nodes: seq<Tree>)
    requires |nodes| >= 2
    ensures Weight(Merge(nodes)) == Weight(nodes)
    ensures multiset(QueuePairs(Merge(nodes))) == multiset(QueuePairs(nodes))
    ensures (forall t :: t in nodes ==> WellWeighted(t)) ==> forall t :: t in Merge(nodes) ==> WellWeighted(t)
    ensures (forall t :: t in nodes ==> LeftLighter(t)) ==> forall t :: t in Merge(nodes) ==> LeftLighter(t)
  {
    MergeContents(nodes);
    if forall t :: t in nodes ==> WellWeighted(t) {
      MergeWellWeighted(nodes);
    }
    if forall t :: t in nodes ==> LeftLighter(t) {
      MergeLeftLighter(nodes);
    }
  }

  lemma MergeUnfold(nodes: seq<Tree>, first: (Tree, seq<Tree>), second: (Tree, seq<Tree>))
    requires |nodes| >= 2 && first == PopMin(nodes) && |first.1| > 0 && second == PopMin(first.1)
    ensures Merge(nodes) == second.1 + [Node(first.0.freq + second.0.freq, first.0, second.0)]
  {
  }

  lemma MergeContents(nodes: seq<Tree>)
    requires |nodes| >= 2
    ensures Weight(Merge(nodes)) == Weight(nodes)
    ensures multiset(QueuePairs(Merge(nodes))) == multiset(QueuePairs(nodes))
  {
    var first := PopMin(nodes);
    var second := PopMin(first.1);
    var n := Node(first.0.freq + second.0.freq, first.0, second.0);
    MergeUnfold(nodes, first, second);
    QueueAppend(second.1, [n]);
    MergeWeight(nodes, first, second, n);
    MergeLeaves(nodes, first, second, n);
  }

  lemma MergeWeight(nodes: seq<Tree>, first: (Tree, seq<Tree>), second: (Tree, seq<Tree>), n: Tree)
    requires |nodes| >= 2 && first == PopMin(nodes) && |first.1| > 0 && second == PopMin(first.1)
    requires n == Node(first.0.freq + second.0.freq, first.0, second.0)
    requires Weight(second.1 + [n]) == Weight(second.1) + Weight([n])
    ensures Weight(second.1 + [n]) == Weight(nodes)
  {
    PopMinPreserves(nodes);
    PopMinPreserves(first.1);
    assert Weight([n]) == n.freq + Weight([]);
  }

  lemma MergeLeaves(nodes: seq<Tree>, first: (Tree, seq<Tree>), second: (Tree, seq<Tree>), n: Tree)
    requires |nodes| >= 2 && first == PopMin(nodes) && |first.1| > 0 && second == PopMin(first.1)
    requires n == Node(first.0.freq + second.0.freq, first.0, second.0)
    requires QueuePairs(second.1 + [n]) == QueuePairs(second.1) + QueuePairs([n])
    ensures multiset(QueuePairs(second.1 + [n])) == multiset(QueuePairs(nodes))
  {
    PopMinPreserves(nodes);
    PopMinPreserves(first.1);
    assert QueuePairs([n]) == LeafPairs(first.0) + LeafPairs(second.0) by {
      assert QueuePairs([n]) == LeafPairs(n) + QueuePairs([]);
    }
    MultisetChain(QueuePairs(nodes), LeafPairs(first.0), QueuePairs(first.1), LeafPairs(second.0), QueuePairs(second.1));
  }

  lemma MultisetChain<T>(all: seq<T>, x: seq<T>, rest: seq<T>, y: seq<T>, left: seq<T>)
    requires multiset(all) == multiset(x) + multiset(rest)
    requires multiset(rest) == multiset(y) + multiset(left)
    ensures multiset(left + (x + y)) == multiset(all)
  {
  }

  lemma MergeWellWeighted(nodes: seq<Tree>)
    requires |nodes| >= 2 && forall t :: t in nodes ==> WellWeighted(t)
    ensures forall t :: t in Merge(nodes) ==> WellWeighted(t)
  {
    var first := PopMin(nodes);
    var second := PopMin(first.1);
    var n := Node(first.0.freq + second.0.freq, first.0, second.0);
    assert WellWeighted(n);
    forall t | t in Merge(nodes)
      ensures WellWeighted(t)
    {
      if t != n { assert t in second.1; }
    }
  }

  lemma MergeLeftLighter(nodes: seq<Tree>)
    requires |nodes| >= 2 && forall t :: t in nodes ==> LeftLighter(t)
    ensures forall t :: t in Merge(nodes) ==> LeftLighter(t)
  {
    var first := PopMin(nodes);
    var second := PopMin(first.1);
    var n := Node(first.0.freq + second.0.freq, first.0, second.0);
    assert first.0.freq <= second.0.freq;
    assert LeftLighter(n);
    forall t | t in Merge(nodes)
      ensures LeftLighter(t)
    {
      if t != n { assert t in second.1; }
    }
  }

  /** `maketree(nodes)`: merge while more than one node is left. The list comes
      back empty when it went in empty. */
  function MakeTree(nodes: seq<Tree>): (r: seq<Tree>)
    ensures |nodes| == 0 ==> r == []
    ensures |nodes| > 0 ==> |r| == 1
    ensures |nodes| >= 2 ==> r[0].Node?
    decreases |nodes|
  {
    if |nodes| <= 1 then nodes
    else MakeTree(Merge(nodes))
  }

  /** The final root holds every leaf of the input exactly once, weighs the sum
      of the input weights, and inherits the per-node invariants of the input. */
  lemma {:induction false} MakeTreeInvariants(nodes: seq<Tree>)
    requires |nodes| > 0
    ensures MakeTree(nodes)[0].freq == Weight(nodes)
    ensures multiset(LeafPairs(MakeTree(nodes)[0])) == multiset(QueuePairs(nodes))
    ensures (forall t :: t in nodes ==> WellWeighted(t)) ==> WellWeighted(MakeTree(nodes)[0])
    ensures (forall t :: t in nodes ==> LeftLighter(t)) ==> LeftLighter(MakeTree(nodes)[0])
    decreases |nodes|
  {
    if |nodes| == 1 {
      assert QueuePairs(nodes) == LeafPairs(nodes[0]) + QueuePairs([]);
      assert Weight(nodes) == nodes[0].freq + Weight([]);
    } else {
      MergePreserves(nodes);
      MakeTreeInvariants(Merge(nodes));
    }
  }

  /** `maketree` on the leaves of a frequency dict, followed by `nodes[0]`,
      which raises IndexError when the dict is empty. */
  function BuildTree(d: Dict<Symbol, int>): (r: Result<Tree, PyError>)
    ensures r.Failure? <==> |d| == 0
    ensures r.Failure? ==> r.error == IndexError
  {
    var nodes := MakeTree(Leaves(d));
    if |nodes| == 0 then Failure(IndexError) else Success(nodes[0])
  }

  /** The tree built from a non-empty frequency dict: its leaves are exactly the
      dict's entries, each once; its root weighs the sum of the frequencies;
      every internal node weighs its two children and has the lighter one on
      the left; and it is a single leaf exactly when the dict has one entry. */
  lemma BuildTreeFacts(d: Dict<Symbol, int>)
    requires |d| > 0
    ensures BuildTree(d).Success?
    ensures multiset(LeafPairs(BuildTree(d).value)) == multiset(d)
    ensures BuildTree(d).value.freq == SumValues(d)
    ensures WellWeighted(BuildTree(d).value) && LeftLighter(BuildTree(d).value)
    ensures BuildTree(d).value.Node? <==> |d| >= 2
  {
    LeavesOfDict(d);
    MakeTreeInvariants(Leaves(d));
  }
}
