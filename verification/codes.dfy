/** The code table `getCodes` reads off a Huffman tree, the callers' patch for
    a one-symbol table, and what makes a table decodable: every code is the
    path from the root to a leaf carrying that code's symbol, so no code is a
    prefix of another. */
module Codes {
  import opened Wrappers
  import opened Dicts
  import opened Symbols
  import opened Trees

  /** A bit string; `false` is bit 0 (left) and `true` is bit 1 (right). */
  type Bits = seq<bool>

  /** `getCodes(node, dict, val)`: descend into the left child appending 0, then
      into the right child appending 1, and at a leaf store the path walked so
      far under the leaf's symbol. The root contributes no bit. */
  function GetCodes(t: Tree, d: Dict<Symbol, Bits>, path: Bits): (r: Dict<Symbol, Bits>)
    ensures DistinctKeys(d) ==> DistinctKeys(r)
  {
    match t
    case Leaf(s, _) => Set(d, s, path)
    case Node(_, left, right) => GetCodes(right, GetCodes(left, d, path + [false]), path + [true])
  }

  /** `getCodes(nodes[0], dict())`. */
  function CodeTable(t: Tree): (r: Dict<Symbol, Bits>)
    ensures DistinctKeys(r)
  {
    GetCodes(t, [], [])
  }

  /** The patch `compress` and `compressw` apply: when the table has a single
      entry, its code becomes 0. */
  function Patch(codes: Dict<Symbol, Bits>): (r: Dict<Symbol, Bits>)
    ensures |r| == |codes|
    ensures forall i :: 0 <= i < |r| ==> r[i].0 == codes[i].0
    ensures |codes| != 1 ==> r == codes
    ensures |codes| == 1 ==> r[0].1 == [false]
  {
    if |codes| == 1 then
      assert codes[0].0 == codes[0].0;
      FindUnique(codes, codes[0].0, 0);
      Set(codes, codes[0].0, [false])
    else codes
  }

  // ---------------------------------------------------------------------------
  // Root-to-leaf paths

  /** The node reached from `t` by following `bits`, or None when the walk runs
      past a leaf. */
  function Follow(t: Tree, bits: Bits): Option<Tree>
    decreases |bits|
  {
    if |bits| == 0 then Some(t)
    else match t
      case Leaf(_, _) => None
      case Node(_, left, right) => Follow(if bits[0] then right else left, bits[1..])
  }

  /** Following `c` from `t` ends exactly at a leaf carrying `s`. */
  predicate LeadsTo(t: Tree, c: Bits, s: Symbol) {
    var u := Follow(t, c);
    u.Some? && u.value.Leaf? && u.value.sym == s
  }

  lemma {:induction false} FollowAppend(t: Tree, a: Bits, b: Bits)
    ensures Follow(t, a + b) == match Follow(t, a) case None => None case Some(u) => Follow(u, b)
    decreases |a|
  {
    if |a| == 0 {
      assert a + b == b;
    } else if t.Node? {
      assert (a + b)[0] == a[0];
      assert (a + b)[1..] == a[1..] + b;
      FollowAppend(if a[0] then t.right else t.left, a[1..], b);
    }
  }

  /** Every entry's code leads from the root to a leaf carrying the entry's key. */
  predicate Sound(t: Tree, codes: Dict<Symbol, Bits>) {
    forall i :: 0 <= i < |codes| ==> LeadsTo(t, codes[i].1, codes[i].0)
  }

  /** No code is a prefix of (or equal to) another entry's code. */
  predicate PrefixFree(codes: Dict<Symbol, Bits>) {
    forall i, j :: 0 <= i < |codes| && 0 <= j < |codes| && i != j ==> !(codes[i].1 <= codes[j].1)
  }

  /** Prefixes `p` to every code of a table. */
  function Prefixed(p: Bits, ps: Dict<Symbol, Bits>): (r: Dict<Symbol, Bits>)
    ensures |r| == |ps|
  {
    seq(|ps|, i requires 0 <= i < |ps| => (ps[i].0, p + ps[i].1))
  }

  /** Each leaf of `t` paired with its root-to-leaf path, left to right: the
      reference definition `getCodes` is checked against. */
  function Paths(t: Tree): (r: Dict<Symbol, Bits>)
    ensures |r| == |LeafPairs(t)|
  {
    match t
    case Leaf(s, _) => [(s, [])]
    case Node(_, left, right) => Prefixed([false], Paths(left)) + Prefixed([true], Paths(right))
  }

  /** `Paths` lists the leaves in the order `LeafPairs` does. */
  lemma {:induction false} PathsKeys(t: Tree)
    ensures forall i :: 0 <= i < |Paths(t)| ==> Paths(t)[i].0 == LeafPairs(t)[i].0
  {
    match t
    case Leaf(_, _) =>
    case Node(_, left, right) =>
      PathsKeys(left);
      PathsKeys(right);
      var pl := Paths(left);
      forall i | 0 <= i < |Paths(t)| ensures Paths(t)[i].0 == LeafPairs(t)[i].0 {
        if i < |pl| {
          assert Paths(t)[i] == Prefixed([false], pl)[i];
          assert LeafPairs(t)[i] == LeafPairs(left)[i];
        } else {
          var k := i - |pl|;
          assert Paths(t)[i] == Prefixed([true], Paths(right))[k];
          assert LeafPairs(t)[i] == LeafPairs(right)[k];
        }
      }
  }

  /** Every path of `Paths(t)` leads to the leaf it is listed with. */
  lemma {:induction false} PathsSound(t: Tree)
    ensures Sound(t, Paths(t))
  {
    match t
    case Leaf(_, _) =>
    case Node(_, left, right) =>
      PathsSound(left);
      PathsSound(right);
      var pl := Paths(left);
      var pr := Paths(right);
      forall i | 0 <= i < |Paths(t)|
        ensures LeadsTo(t, Paths(t)[i].1, Paths(t)[i].0)
      {
        if i < |pl| {
          assert Paths(t)[i] == (pl[i].0, [false] + pl[i].1);
          assert ([false] + pl[i].1)[1..] == pl[i].1;
        } else {
          var k := i - |pl|;
          assert Paths(t)[i] == (pr[k].0, [true] + pr[k].1);
          assert ([true] + pr[k].1)[1..] == pr[k].1;
        }
      }
  }

  /** No key of `a` is a key of `b`. */
  predicate KeysApart<V, W>(a: Dict<Symbol, V>, b: Dict<Symbol, W>) {
    forall i, j :: 0 <= i < |a| && 0 <= j < |b| ==> a[i].0 != b[j].0
  }

  /** When the leaf symbols are distinct and none is already in `d`, `getCodes`
      appends one entry per leaf, in left-to-right order, holding the leaf's
      path behind `p`. */
  lemma {:induction false} GetCodesAppends(t: Tree, d: Dict<Symbol, Bits>, p: Bits)
    requires DistinctKeys(LeafPairs(t))
    requires KeysApart(d, LeafPairs(t))
    ensures GetCodes(t, d, p) == d + Prefixed(p, Paths(t))
  {
    match t
    case Leaf(s, _) =>
      GetCodesLeaf(t, d, p);
    case Node(_, left, right) =>
      var p0 := p + [false];
      var p1 := p + [true];
      FreshChildren(t, d, p0);
      GetCodesAppends(left, d, p0);
      GetCodesAppends(right, d + Prefixed(p0, Paths(left)), p1);
      GetCodesNode(t.freq, left, right, d, p);
  }

  /** The node step of `GetCodesAppends`, given what the recursive calls give. */
  lemma GetCodesNode(f: int, l: Tree, r: Tree, d: Dict<Symbol, Bits>, p: Bits)
    requires GetCodes(l, d, p + [false]) == d + Prefixed(p + [false], Paths(l))
    requires GetCodes(r, d + Prefixed(p + [false], Paths(l)), p + [true]) ==
             d + Prefixed(p + [false], Paths(l)) + Prefixed(p + [true], Paths(r))
    ensures GetCodes(Node(f, l, r), d, p) == d + Prefixed(p, Paths(Node(f, l, r)))
  {
    PrefixedNode(Node(f, l, r), p);
    AppendAssoc(d, Prefixed(p + [false], Paths(l)), Prefixed(p + [true], Paths(r)));
  }


  lemma GetCodesLeaf(t: Tree, d: Dict<Symbol, Bits>, p: Bits)
    requires t.Leaf? && KeysApart(d, LeafPairs(t))
    ensures GetCodes(t, d, p) == d + Prefixed(p, Paths(t))
  {
    assert LeafPairs(t)[0].0 == t.sym;
    assert !HasKey(d, t.sym);
    assert Prefixed(p, Paths(t)) == [(t.sym, p + [])];
    assert p + [] == p;
  }

  /** The preconditions of `GetCodesAppends` carry over to both recursive
      calls: the second one runs on the table the first one built. */
  lemma FreshChildren(t: Tree, d: Dict<Symbol, Bits>, p0: Bits)
    requires t.Node?
    requires DistinctKeys(LeafPairs(t))
    requires KeysApart(d, LeafPairs(t))
    ensures DistinctKeys(LeafPairs(t.left)) && DistinctKeys(LeafPairs(t.right))
    ensures KeysApart(d, LeafPairs(t.left))
    ensures KeysApart(d + Prefixed(p0, Paths(t.left)), LeafPairs(t.right))
  {
    var ll := LeafPairs(t.left);
    var lr := LeafPairs(t.right);
    DistinctSplit(ll, lr);
    forall i, j | 0 <= i < |d| && 0 <= j < |ll| ensures d[i].0 != ll[j].0 {
      assert LeafPairs(t)[j] == ll[j];
    }
    var a := Prefixed(p0, Paths(t.left));
    PathsKeys(t.left);
    forall i, j | 0 <= i < |d + a| && 0 <= j < |lr| ensures (d + a)[i].0 != lr[j].0 {
      if i < |d| {
        assert LeafPairs(t)[|ll| + j] == lr[j];
      } else {
        var k := i - |d|;
        assert (d + a)[i] == a[k];
        assert a[k].0 == Paths(t.left)[k].0;
      }
    }
  }

  /** Both halves of a table with distinct keys have distinct keys, and no key
      of one is a key of the other. */
  lemma DistinctSplit(a: Dict<Symbol, int>, b: Dict<Symbol, int>)
    requires DistinctKeys(a + b)
    ensures DistinctKeys(a) && DistinctKeys(b)
    ensures forall i, j :: 0 <= i < |a| && 0 <= j < |b| ==> a[i].0 != b[j].0
  {
    forall i, j | 0 <= i < j < |a| ensures a[i].0 != a[j].0 {
      assert (a + b)[i] == a[i] && (a + b)[j] == a[j];
    }
    forall i, j | 0 <= i < j < |b| ensures b[i].0 != b[j].0 {
      assert (a + b)[|a| + i] == b[i] && (a + b)[|a| + j] == b[j];
    }
    forall i, j | 0 <= i < |a| && 0 <= j < |b| ensures a[i].0 != b[j].0 {
      assert (a + b)[i] == a[i] && (a + b)[|a| + j] == b[j];
    }
  }

  lemma PrefixedNode(t: Tree, p: Bits)
    requires t.Node?
    ensures Prefixed(p, Paths(t)) == Prefixed(p + [false], Paths(t.left)) + Prefixed(p + [true], Paths(t.right))
  {
    var ul := Prefixed([false], Paths(t.left));
    var ur := Prefixed([true], Paths(t.right));
    PrefixedConcat(p, ul, ur);
    PrefixedTwice(p, [false], Paths(t.left));
    PrefixedTwice(p, [true], Paths(t.right));
  }

  lemma PrefixedConcat(p: Bits, a: Dict<Symbol, Bits>, b: Dict<Symbol, Bits>)
    ensures Prefixed(p, a + b) == Prefixed(p, a) + Prefixed(p, b)
  {
    var lhs := Prefixed(p, a + b);
    var rhs := Prefixed(p, a) + Prefixed(p, b);
    forall i | 0 <= i < |lhs| ensures lhs[i] == rhs[i] {
      if i < |a| {
        assert rhs[i] == Prefixed(p, a)[i];
      } else {
        assert rhs[i] == Prefixed(p, b)[i - |a|];
      }
    }
  }

  lemma PrefixedTwice(p: Bits, q: Bits, ps: Dict<Symbol, Bits>)
    ensures Prefixed(p, Prefixed(q, ps)) == Prefixed(p + q, ps)
  {
    var lhs := Prefixed(p, Prefixed(q, ps));
    var rhs := Prefixed(p + q, ps);
    forall i | 0 <= i < |lhs| ensures lhs[i] == rhs[i] {
      assert p + (q + ps[i].1) == (p + q) + ps[i].1;
    }
  }

  /** With distinct leaf symbols, `getCodes` lists exactly the root-to-leaf
      paths: one entry per leaf, in left-to-right order. */
  lemma CodeTableIsPaths(t: Tree)
    requires DistinctKeys(LeafPairs(t))
    ensures CodeTable(t) == Paths(t)
  {
    GetCodesAppends(t, [], []);
    assert Prefixed([], Paths(t)) == Paths(t) by {
      forall i | 0 <= i < |Paths(t)| ensures [] + Paths(t)[i].1 == Paths(t)[i].1 {
      }
    }
    assert [] + Prefixed([], Paths(t)) == Prefixed([], Paths(t));
  }

  /** A sound table with distinct keys is a prefix code: were one code a prefix
      of another, the shorter would stop at a leaf the longer walks past. */
  lemma SoundPrefixFree(t: Tree, codes: Dict<Symbol, Bits>)
    requires Sound(t, codes) && DistinctKeys(codes)
    ensures PrefixFree(codes)
  {
    forall i, j | 0 <= i < |codes| && 0 <= j < |codes| && i != j
      ensures !(codes[i].1 <= codes[j].1)
    {
      if codes[i].1 <= codes[j].1 {
        var a := codes[i].1;
        var rest := codes[j].1[|a|..];
        assert codes[j].1 == a + rest;
        FollowAppend(t, a, rest);
      }
    }
  }

  /** The table `getCodes` gives a tree whose leaf symbols are distinct: one
      entry per leaf, in leaf order; every code leads to its own symbol's leaf;
      no code is a prefix of another; and every code is non-empty exactly when
      the tree has two or more leaves. */
  lemma CodeTableFacts(t: Tree)
    requires DistinctKeys(LeafPairs(t))
    ensures |CodeTable(t)| == |LeafPairs(t)|
    ensures forall i :: 0 <= i < |CodeTable(t)| ==> CodeTable(t)[i].0 == LeafPairs(t)[i].0
    ensures Sound(t, CodeTable(t))
    ensures PrefixFree(CodeTable(t))
    ensures t.Node? ==> |CodeTable(t)| >= 2 && forall i :: 0 <= i < |CodeTable(t)| ==> |CodeTable(t)[i].1| > 0
    ensures t.Leaf? ==> CodeTable(t) == [(t.sym, [])]
  {
    CodeTableIsPaths(t);
    PathsKeys(t);
    PathsSound(t);
    SoundPrefixFree(t, CodeTable(t));
    if t.Node? {
      assert |LeafPairs(t.left)| >= 1 && |LeafPairs(t.right)| >= 1 by {
        LeafPairsNonEmpty(t.left);
        LeafPairsNonEmpty(t.right);
      }
      forall i | 0 <= i < |CodeTable(t)| ensures |CodeTable(t)[i].1| > 0 {
        assert LeadsTo(t, CodeTable(t)[i].1, CodeTable(t)[i].0);
      }
    }
  }

  lemma LeafPairsNonEmpty(t: Tree)
    ensures |LeafPairs(t)| >= 1
  {
    match t
    case Leaf(_, _) =>
    case Node(_, left, right) => LeafPairsNonEmpty(left);
  }

  /** A lone leaf gets the empty code from `getCodes`, which the callers then
      replace by 0. */
  lemma LoneLeafCode(s: Symbol, f: int)
    ensures CodeTable(Leaf(s, f)) == [(s, [])]
    ensures Patch(CodeTable(Leaf(s, f))) == [(s, [false])]
  {
    assert Patch([(s, [])])[0] == (s, [false]);
  }
  /** A table a prefix-code decoder accepts: non-empty, every code non-empty,
      and no code a prefix of another. */
  predicate ValidTable(codes: Dict<Symbol, Bits>) {
    |codes| > 0 && (forall i :: 0 <= i < |codes| ==> |codes[i].1| > 0) && PrefixFree(codes)
  }

  // ---------------------------------------------------------------------------
  // The table both compressors derive from a frequency dict

  /** Lines shared by `compress` and `compressw`: push one leaf per entry,
      `maketree`, take `nodes[0]` (IndexError when there is none), `getCodes`,
      and patch a single code to 0. */
  function CodesFor(freq: Dict<Symbol, int>): (r: Result<Dict<Symbol, Bits>, PyError>)
    ensures r.Failure? <==> |freq| == 0
  {
    var tree :- BuildTree(freq);
    Success(Patch(CodeTable(tree)))
  }

  /** Two tables listing the same keys in the same order have the same keys. */
  lemma SameKeys<V, W>(a: Dict<Symbol, V>, b: Dict<Symbol, W>, k: Symbol)
    requires |a| == |b| && forall i :: 0 <= i < |a| ==> a[i].0 == b[i].0
    ensures HasKey(a, k) <==> HasKey(b, k)
  {
    if HasKey(a, k) {
      assert b[Find(a, k).value].0 == k;
    }
    if HasKey(b, k) {
      assert a[Find(b, k).value].0 == k;
    }
  }

  /** The table of a non-empty frequency dict with distinct keys is a valid
      prefix code over exactly the dict's keys. With two or more entries it is
      the tree's own root-to-leaf table; with one entry it is that key with the
      code 0. */
  lemma CodesForFacts(freq: Dict<Symbol, int>)
    requires |freq| > 0 && DistinctKeys(freq)
    ensures CodesFor(freq).Success? && ValidTable(CodesFor(freq).value)
    ensures forall k :: HasKey(CodesFor(freq).value, k) <==> HasKey(freq, k)
    ensures |freq| >= 2 ==> BuildTree(freq).value.Node? && Sound(BuildTree(freq).value, CodesFor(freq).value)
    ensures |freq| == 1 ==> BuildTree(freq).value.Leaf? && CodesFor(freq).value == [(freq[0].0, [false])]
  {
    BuildTreeFacts(freq);
    CodesForKeys(freq);
    if |freq| >= 2 {
      CodesForNode(freq);
    } else {
      CodesForLeaf(freq);
    }
  }

  lemma CodesForKeys(freq: Dict<Symbol, int>)
    requires |freq| > 0 && DistinctKeys(freq)
    ensures CodesFor(freq).Success?
    ensures forall k :: HasKey(CodesFor(freq).value, k) <==> HasKey(freq, k)
  {
    BuildTreeFacts(freq);
    var tree := BuildTree(freq).value;
    var leaves := LeafPairs(tree);
    PermutationKeepsDistinct(leaves, freq);
    CodeTableFacts(tree);
    var codes := Patch(CodeTable(tree));
    assert CodesFor(freq).value == codes;
    forall k ensures HasKey(codes, k) <==> HasKey(freq, k) {
      SameKeys(codes, leaves, k);
      PermutationKeepsKey(leaves, freq, k);
    }
  }

  lemma CodesForNode(freq: Dict<Symbol, int>)
    requires |freq| >= 2 && DistinctKeys(freq)
    ensures CodesFor(freq).Success? && ValidTable(CodesFor(freq).value)
    ensures BuildTree(freq).value.Node? && Sound(BuildTree(freq).value, CodesFor(freq).value)
  {
    BuildTreeFacts(freq);
    var tree := BuildTree(freq).value;
    PermutationKeepsDistinct(LeafPairs(tree), freq);
    CodeTableFacts(tree);
    var codes := Patch(CodeTable(tree));
    assert CodesFor(freq).value == codes;
    SoundPrefixFree(tree, codes);
  }

  lemma CodesForLeaf(freq: Dict<Symbol, int>)
    requires |freq| == 1
    ensures BuildTree(freq).value.Leaf? && CodesFor(freq).value == [(freq[0].0, [false])]
    ensures ValidTable(CodesFor(freq).value)
  {
    BuildTreeFacts(freq);
    var tree := BuildTree(freq).value;
    var leaves := LeafPairs(tree);
    CodeTableFacts(tree);
    assert |leaves| == 1;
    assert freq[0] in multiset(leaves);
    assert CodesFor(freq).value == Patch(CodeTable(tree));
  }
}
