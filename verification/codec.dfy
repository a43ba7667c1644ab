/** Encoding a token list with a code table, `encodestr`, and the two decoders:
    the bit-by-bit tree walk of `decodestr` (word mode) and prefix-code table
    decoding (character mode). */
module Codec {
  import opened Wrappers
  import opened Dicts
  import opened Symbols
  import opened Trees
  import opened Codes

  // ---------------------------------------------------------------------------
  // Encoding

  /** The codes of the tokens, concatenated in order. Looking up a token that
      has no code raises KeyError, for the first such token. */
  function Encode(toks: seq<Symbol>, codes: Dict<Symbol, Bits>): (r: Result<Bits, PyError>)
    ensures r.Success? <==> forall i :: 0 <= i < |toks| ==> HasKey(codes, toks[i])
    ensures r.Failure? ==> r.error.KeyError? && !HasKey(codes, r.error.key) && r.error.key in toks
    decreases |toks|
  {
    if |toks| == 0 then Success([])
    else match Get(codes, toks[0])
      case None => Failure(KeyError(toks[0]))
      case Some(c) =>
        assert forall i :: 1 <= i < |toks| ==> toks[i] == toks[1..][i - 1];
        var rest :- Encode(toks[1..], codes);
        Success(c + rest)
  }

  /** Encoding a concatenation: the first failure wins, otherwise the bit
      strings concatenate. */
  lemma {:induction false} EncodeAppend(a: seq<Symbol>, b: seq<Symbol>, codes: Dict<Symbol, Bits>)
    ensures Encode(a + b, codes) ==
            match Encode(a, codes)
            case Failure(e) => Failure(e)
            case Success(x) =>
              match Encode(b, codes)
              case Failure(e) => Failure(e)
              case Success(y) => Success(x + y)
    decreases |a|
  {
    if |a| == 0 {
      assert a + b == b;
      match Encode(b, codes)
      case Failure(_) =>
      case Success(y) => assert [] + y == y;
    } else {
      assert (a + b)[0] == a[0];
      assert (a + b)[1..] == a[1..] + b;
      EncodeAppend(a[1..], b, codes);
      match Get(codes, a[0])
      case None =>
      case Some(c) =>
        match Encode(a[1..], codes)
        case Failure(_) =>
        case Success(x) =>
          match Encode(b, codes)
          case Failure(_) =>
          case Success(y) => assert c + (x + y) == (c + x) + y;
    }
  }

  /** The token loop of `encodestr`: `strcat` collects the current word and
      `laststr` the characters since the last separator; a space or newline
      closes the pending word and is a token of its own, and a word still
      pending at the end is the last token. */
  method SplitTokens(text: string) returns (toks: seq<Symbol>)
    ensures toks == Tokens(text)
  {
    toks := [];
    var strcat: string := "";
    var laststr: string := "";
    var i := 0;
    while i < |text|
      invariant 0 <= i <= |text|
      invariant strcat == laststr
      invariant laststr != "" <==> (i > 0 && !IsSep(text[i - 1]))
      invariant toks + (if laststr == "" then [] else [laststr]) == Tokens(text[..i])
    {
      var x := text[i];
      SplitStep(text[..i], x, toks, laststr);
      assert text[..i + 1] == text[..i] + [x];
      laststr := laststr + [x];
      if x != ' ' && x != '\n' {
        strcat := strcat + [x];
      }
      if x == ' ' {
        if strcat != "" {
          toks := toks + [strcat];
        }
        toks := toks + [" "];
        strcat := "";
        laststr := "";
      }
      if x == '\n' {
        if strcat != "" {
          toks := toks + [strcat];
        }
        toks := toks + ["\n"];
        strcat := "";
        laststr := "";
      }
      i := i + 1;
    }
    assert text[..i] == text;
    if laststr != "" {
      toks := toks + [laststr];
    }
  }

  /** One character of the token loop: a separator closes the pending word
      (if any) and is a token of its own; any other character extends the
      pending word, or starts one. */
  lemma SplitStep(prefix: string, x: char, toks: seq<Symbol>, pending: string)
    requires pending != "" <==> (|prefix| > 0 && !IsSep(prefix[|prefix| - 1]))
    requires toks + (if pending == "" then [] else [pending]) == Tokens(prefix)
    ensures IsSep(x) ==> (if pending == "" then toks else toks + [pending]) + [[x]] == Tokens(prefix + [x])
    ensures !IsSep(x) ==> toks + [pending + [x]] == Tokens(prefix + [x])
  {
    TokensLastWord(prefix);
    TokensStep(prefix, x);
    if !IsSep(x) {
      if pending == "" {
        assert pending + [x] == [x];
      } else {
        assert (toks + [pending])[..|toks|] == toks;
      }
    }
  }

  /** `encodestr(filecontent, codes)`: the tokens of the text, each replaced by
      its code; the first token without a code raises KeyError. */
  method EncodeStr(text: string, codes: Dict<Symbol, Bits>) returns (r: Result<Bits, PyError>)
    ensures r == Encode(Tokens(text), codes)
  {
    var toks := SplitTokens(text);
    var bits: Bits := [];
    var k := 0;
    while k < |toks|
      invariant 0 <= k <= |toks|
      invariant Encode(toks[..k], codes) == Success(bits)
    {
      assert toks[..k + 1] == toks[..k] + [toks[k]];
      EncodeAppend(toks[..k], [toks[k]], codes);
      assert [toks[k]][1..] == [];
      match Get(codes, toks[k]) {
        case None =>
          assert Encode([toks[k]], codes) == Failure(KeyError(toks[k]));
          assert Encode(toks[..k + 1], codes) == Failure(KeyError(toks[k]));
          assert toks == toks[..k + 1] + toks[k + 1..];
          EncodeAppend(toks[..k + 1], toks[k + 1..], codes);
          return Failure(KeyError(toks[k]));
        case Some(c) =>
          assert Encode([toks[k]], codes) == Success(c + []);
          assert c + [] == c;
          bits := bits + c;
      }
      k := k + 1;
    }
    assert toks[..k] == toks;
    return Success(bits);
  }

  // ---------------------------------------------------------------------------
  // Tree-walk decoding (word mode)

  /** `decodestr` from the node `cur` the walk has reached: each bit moves to a
      child (1 right, 0 left); on reaching a leaf its symbol is emitted and the
      walk restarts at the root. A bit read while standing on a leaf, which
      only happens when the root itself is a leaf, dereferences a missing child
      and raises AttributeError. Bits that end part-way down are dropped. */
  function Walk(bits: Bits, root: Tree, cur: Tree): (r: Result<seq<Symbol>, PyError>)
    ensures r.Failure? ==> r.error == AttributeError
    ensures root.Node? && cur.Node? ==> r.Success?
    decreases |bits|
  {
    if |bits| == 0 then Success([])
    else match cur
      case Leaf(_, _) => Failure(AttributeError)
      case Node(_, left, right) =>
        var next := if bits[0] then right else left;
        if next.Leaf? then
          var rest :- Walk(bits[1..], root, root);
          Success([next.sym] + rest)
        else Walk(bits[1..], root, next)
  }

  /** `decodestr(encoded, tree)`: the emitted symbols joined into one string.
      It raises, with AttributeError, exactly when the tree is a lone leaf and
      there is a bit to read. */
  function DecodeStr(bits: Bits, root: Tree): (r: Result<string, PyError>)
    ensures r.Failure? <==> root.Leaf? && |bits| > 0
    ensures r.Failure? ==> r.error == AttributeError
  {
    var syms :- Walk(bits, root, root);
    Success(Concat(syms))
  }

  /** Puts `syms` in front of a successful decoding; a failure stays a failure. */
  function Prepend(syms: seq<Symbol>, r: Result<seq<Symbol>, PyError>): Result<seq<Symbol>, PyError> {
    match r
    case Success(v) => Success(syms + v)
    case Failure(e) => Failure(e)
  }

  /** Walking a code that leads from `cur` to the leaf of `s` emits `s` and
      continues from the root. */
  lemma {:induction false} WalkCode(root: Tree, cur: Tree, c: Bits, s: Symbol, rest: Bits)
    requires cur.Node? && LeadsTo(cur, c, s)
    ensures Walk(c + rest, root, cur) == Prepend([s], Walk(rest, root, root))
    decreases |c|
  {
    var next := if c[0] then cur.right else cur.left;
    assert Follow(cur, c) == Follow(next, c[1..]);
    assert (c + rest)[0] == c[0];
    assert (c + rest)[1..] == c[1..] + rest;
    if |c| == 1 {
      assert c[1..] + rest == rest;
    } else {
      WalkCode(root, next, c[1..], s, rest);
    }
  }

  /** Bits that lead from `cur` to an internal node emit nothing. */
  lemma {:induction false} WalkPartial(root: Tree, cur: Tree, bits: Bits)
    requires cur.Node?
    requires Follow(cur, bits).Some? && Follow(cur, bits).value.Node?
    ensures Walk(bits, root, cur) == Success([])
    decreases |bits|
  {
    if |bits| > 0 {
      WalkPartial(root, if bits[0] then cur.right else cur.left, bits[1..]);
    }
  }

  /** Decoding the encoding of a token list with a sound table gives the tokens
      back, and bits left over after the last complete code are dropped. */
  lemma {:induction false} WalkRoundTrip(root: Tree, codes: Dict<Symbol, Bits>, toks: seq<Symbol>, tail: Bits)
    requires root.Node? && Sound(root, codes)
    requires forall i :: 0 <= i < |toks| ==> HasKey(codes, toks[i])
    requires Follow(root, tail).Some? && Follow(root, tail).value.Node?
    ensures Walk(Encode(toks, codes).value + tail, root, root) == Success(toks)
    decreases |toks|
  {
    if |toks| == 0 {
      assert Encode(toks, codes).value + tail == tail;
      WalkPartial(root, root, tail);
    } else {
      var j := Find(codes, toks[0]).value;
      var c := codes[j].1;
      assert LeadsTo(root, c, toks[0]);
      assert forall i :: 0 <= i < |toks[1..]| ==> toks[1..][i] == toks[i + 1];
      WalkRoundTrip(root, codes, toks[1..], tail);
      var rest := Encode(toks[1..], codes).value;
      assert Encode(toks, codes).value + tail == c + (rest + tail);
      WalkCode(root, root, c, toks[0], rest + tail);
      assert [toks[0]] + toks[1..] == toks;
    }
  }

  /** `decodestr` inverts `encodestr` on a tree of at least two leaves: the
      decoded string is the tokens joined, whatever incomplete code follows. */
  lemma DecodeStrRoundTrip(root: Tree, codes: Dict<Symbol, Bits>, toks: seq<Symbol>, tail: Bits)
    requires root.Node? && Sound(root, codes)
    requires forall i :: 0 <= i < |toks| ==> HasKey(codes, toks[i])
    requires Follow(root, tail).Some? && Follow(root, tail).value.Node?
    ensures DecodeStr(Encode(toks, codes).value + tail, root) == Success(Concat(toks))
  {
    WalkRoundTrip(root, codes, toks, tail);
  }

  /** A tree that is a single leaf decodes no bit string but the empty one. */
  lemma DecodeStrLoneLeaf(s: Symbol, f: int, bits: Bits)
    requires |bits| > 0
    ensures DecodeStr(bits, Leaf(s, f)) == Failure(AttributeError)
  {
  }

  // ---------------------------------------------------------------------------
  // Table decoding (character mode)

  /** The first entry whose code is a prefix of `bits`. */
  function Match(bits: Bits, codes: Dict<Symbol, Bits>): (r: Option<nat>)
    ensures r.Some? ==> r.value < |codes| && codes[r.value].1 <= bits
    ensures r.None? <==> forall i :: 0 <= i < |codes| ==> !(codes[i].1 <= bits)
    decreases |codes|
  {
    if |codes| == 0 then None
    else if codes[0].1 <= bits then Some(0)
    else match Match(bits, codes[1..])
      case None => None
      case Some(i) => Some(i + 1)
  }

  /** Repeatedly match a code at the front of the bits and emit its symbol. Bits
      that no code starts, including an incomplete code at the end, raise
      ValueError. */
  function TableWalk(bits: Bits, codes: Dict<Symbol, Bits>): (r: Result<seq<Symbol>, PyError>)
    requires forall i :: 0 <= i < |codes| ==> |codes[i].1| > 0
    ensures r.Failure? ==> r.error == ValueError
    ensures r.Success? ==> |r.value| <= |bits| && forall s :: s in r.value ==> HasKey(codes, s)
    decreases |bits|
  {
    if |bits| == 0 then Success([])
    else match Match(bits, codes)
      case None => Failure(ValueError)
      case Some(i) =>
        var rest :- TableWalk(bits[|codes[i].1|..], codes);
        Success([codes[i].0] + rest)
  }

  /** `bits.decode(table)`: a table that is not a prefix code is refused with
      ValueError before any bit is read. */
  function TableDecode(bits: Bits, codes: Dict<Symbol, Bits>): (r: Result<seq<Symbol>, PyError>)
    ensures !ValidTable(codes) ==> r == Failure(ValueError)
    ensures r.Failure? ==> r.error == ValueError
  {
    if !ValidTable(codes) then Failure(ValueError) else TableWalk(bits, codes)
  }

  /** Two prefixes of the same bit string are prefixes of one another. */
  lemma PrefixesComparable(a: Bits, b: Bits, s: Bits)
    requires a <= s && b <= s
    ensures a <= b || b <= a
  {
    if |a| <= |b| {
      assert a == b[..|a|];
    } else {
      assert b == a[..|b|];
    }
  }

  /** In a prefix code, the entry whose code starts `c + rest` is the entry of `c`. */
  lemma MatchCode(codes: Dict<Symbol, Bits>, j: nat, rest: Bits)
    requires ValidTable(codes) && j < |codes|
    ensures Match(codes[j].1 + rest, codes) == Some(j)
  {
    var bits := codes[j].1 + rest;
    assert codes[j].1 <= bits;
    var m := Match(bits, codes).value;
    PrefixesComparable(codes[m].1, codes[j].1, bits);
  }

  /** Table-decoding the encoding of a token list followed by more bits gives
      the tokens, then whatever the more bits decode to. */
  lemma {:induction false} TableWalkAppend(codes: Dict<Symbol, Bits>, toks: seq<Symbol>, bits: Bits, more: Bits)
    requires ValidTable(codes) && Encode(toks, codes) == Success(bits)
    ensures TableWalk(bits + more, codes) == Prepend(toks, TableWalk(more, codes))
    decreases |toks|
  {
    if |toks| == 0 {
      PrependNothing(TableWalk(more, codes));
      assert [] + more == more;
    } else {
      EncodeHead(toks, codes);
      var rest := Encode(toks[1..], codes).value;
      TableWalkAppend(codes, toks[1..], rest, more);
      var j := Find(codes, toks[0]).value;
      TableWalkAppendStep(codes, toks, j, rest, more);
    }
  }

  lemma TableWalkAppendStep(codes: Dict<Symbol, Bits>, toks: seq<Symbol>, j: nat, rest: Bits, more: Bits)
    requires ValidTable(codes) && |toks| > 0 && j < |codes| && codes[j].0 == toks[0]
    requires TableWalk(rest + more, codes) == Prepend(toks[1..], TableWalk(more, codes))
    ensures TableWalk(codes[j].1 + rest + more, codes) == Prepend(toks, TableWalk(more, codes))
  {
    assert codes[j].1 + rest + more == codes[j].1 + (rest + more);
    TableWalkStep(codes, j, rest + more);
    PrependCons(toks, TableWalk(more, codes));
  }

  /** Table-decoding bits that start with a code gives that code's symbol,
      then whatever the remaining bits decode to. */
  lemma TableWalkStep(codes: Dict<Symbol, Bits>, j: nat, rest: Bits)
    requires ValidTable(codes) && j < |codes|
    ensures TableWalk(codes[j].1 + rest, codes) == Prepend([codes[j].0], TableWalk(rest, codes))
  {
    MatchCode(codes, j, rest);
    DropCode(codes[j].1, rest);
  }

  lemma PrependNothing(r: Result<seq<Symbol>, PyError>)
    ensures Prepend([], r) == r
  {
    if r.Success? {
      assert [] + r.value == r.value;
    }
  }

  lemma PrependCons(toks: seq<Symbol>, r: Result<seq<Symbol>, PyError>)
    requires |toks| > 0
    ensures Prepend([toks[0]], Prepend(toks[1..], r)) == Prepend(toks, r)
  {
    if r.Success? {
      assert [toks[0]] + (toks[1..] + r.value) == toks + r.value;
    }
  }

  lemma DropCode(c: Bits, rest: Bits)
    ensures (c + rest)[|c|..] == rest
  {
  }

  /** A successful encoding of a non-empty token list is the first token's
      code followed by the encoding of the others. */
  lemma EncodeHead(toks: seq<Symbol>, codes: Dict<Symbol, Bits>)
    requires |toks| > 0 && Encode(toks, codes).Success?
    ensures Get(codes, toks[0]).Some? && Encode(toks[1..], codes).Success?
    ensures Encode(toks, codes).value == Get(codes, toks[0]).value + Encode(toks[1..], codes).value
  {
  }

  /** Table decoding inverts encoding: every symbol comes back, in order. */
  lemma TableRoundTrip(codes: Dict<Symbol, Bits>, toks: seq<Symbol>)
    requires ValidTable(codes)
    requires forall i :: 0 <= i < |toks| ==> HasKey(codes, toks[i])
    ensures TableDecode(Encode(toks, codes).value, codes) == Success(toks)
  {
    TableWalkAppend(codes, toks, Encode(toks, codes).value, []);
    assert Encode(toks, codes).value + [] == Encode(toks, codes).value;
    assert toks + [] == toks;
  }

  /** Unlike the tree walk, the table decoder refuses trailing bits that start
      no code. */
  lemma TableRejectsTail(codes: Dict<Symbol, Bits>, toks: seq<Symbol>, tail: Bits)
    requires ValidTable(codes)
    requires forall i :: 0 <= i < |toks| ==> HasKey(codes, toks[i])
    requires |tail| > 0 && Match(tail, codes).None?
    ensures TableDecode(Encode(toks, codes).value + tail, codes) == Failure(ValueError)
  {
    TableWalkAppend(codes, toks, Encode(toks, codes).value, tail);
  }
}
