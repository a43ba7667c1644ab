/** The two symbol models of the codec: single characters (`getFrequency`) and
    word/space/newline tokens (`encodestr`'s tokenizer and `getwordfreq`'s
    counts), together with Python's `Counter` and `str.split()`. */
module Symbols {
  import opened Wrappers
  import opened Dicts

  /** A symbol is a Python `str`: one character in character mode; a word, " "
      or "\n" in word mode. */
  type Symbol = string

  /** `''.join(ss)`. */
  function Concat(ss: seq<string>): string
    decreases |ss|
  {
    if |ss| == 0 then "" else Concat(ss[..|ss| - 1]) + ss[|ss| - 1]
  }

  lemma {:induction false} ConcatAppend(a: seq<string>, b: seq<string>)
    ensures Concat(a + b) == Concat(a) + Concat(b)
    decreases |b|
  {
    if |b| == 0 {
      assert a + b == a;
    } else {
      ConcatAppend(a, b[..|b| - 1]);
      assert (a + b)[..|a + b| - 1] == a + b[..|b| - 1];
    }
  }

  // ---------------------------------------------------------------------------
  // Counter

  /** `d[k] = d.get(k, 0) + 1`, the step `Counter` takes per element. */
  function Bump<K(==,!new)>(d: Dict<K, int>, k: K): (r: Dict<K, int>)
    ensures Get(r, k) == Some((match Get(d, k) case Some(n) => n case None => 0) + 1)
    ensures forall k' :: k' != k ==> Get(r, k') == Get(d, k')
    ensures DistinctKeys(d) ==> DistinctKeys(r)
  {
    Set(d, k, (match Get(d, k) case Some(n) => n case None => 0) + 1)
  }

  /** `Counter(xs)`: one entry per distinct element, in order of first
      occurrence, holding its number of occurrences. */
  function Count<K(==,!new)>(xs: seq<K>): (d: Dict<K, int>)
    ensures DistinctKeys(d)
    ensures forall k :: Get(d, k) == if k in xs then Some(multiset(xs)[k]) else None
    decreases |xs|
  {
    if |xs| == 0 then []
    else
      var init := xs[..|xs| - 1];
      var x := xs[|xs| - 1];
      assert xs == init + [x];
      CountStep(init, x, Count(init));
      Bump(Count(init), x)
  }

  lemma CountStep<K(!new)>(init: seq<K>, x: K, d: Dict<K, int>)
    requires forall k :: Get(d, k) == if k in init then Some(multiset(init)[k]) else None
    ensures forall k :: Get(Bump(d, x), k) == if k in init + [x] then Some(multiset(init + [x])[k]) else None
  {
    var r := Bump(d, x);
    assert multiset(init + [x]) == multiset(init) + multiset{x};
    forall k
      ensures Get(r, k) == if k in init + [x] then Some(multiset(init + [x])[k]) else None
    {
      if k == x {
        assert k in init + [x];
      } else {
        assert k in init + [x] <==> k in init;
      }
    }
  }

  /** The counts of a `Counter` add up to the number of elements counted. */
  lemma {:induction false} CountSum<K(!new)>(xs: seq<K>)
    ensures SumValues(Count(xs)) == |xs|
    decreases |xs|
  {
    if |xs| > 0 {
      var init := xs[..|xs| - 1];
      CountSum(init);
      SumValuesSet(Count(init), xs[|xs| - 1],
        (match Get(Count(init), xs[|xs| - 1]) case Some(n) => n case None => 0) + 1);
    }
  }

  // ---------------------------------------------------------------------------
  // Character model

  /** Iterating a `str` yields one-character strings. */
  function Chars(t: string): (cs: seq<Symbol>)
    ensures |cs| == |t|
    ensures forall i :: 0 <= i < |t| ==> cs[i] == [t[i]]
  {
    seq(|t|, i requires 0 <= i < |t| => [t[i]])
  }

  /** `getFrequency(t)`, that is `Counter(t)`: every character of `t`, as a
      one-character string, with its number of occurrences, and nothing else.
      The counts add up to `|t|`. */
  function CharFreq(t: string): (d: Dict<Symbol, int>)
    ensures DistinctKeys(d)
    ensures forall c :: Get(d, [c]) == if c in t then Some(multiset(t)[c]) else None
    ensures forall s :: |s| != 1 ==> Get(d, s) == None
    ensures SumValues(d) == |t|
  {
    CharsCounted(t);
    CountSum(Chars(t));
    Count(Chars(t))
  }

  /** The one-character strings of `t` occur as often as its characters. */
  lemma CharsCounted(t: string)
    ensures forall c :: multiset(Chars(t))[[c]] == multiset(t)[c]
    ensures forall s :: s in Chars(t) ==> |s| == 1
  {
    forall c ensures multiset(Chars(t))[[c]] == multiset(t)[c] {
      CharsOccurrences(t, c);
    }
  }

  lemma {:induction false} CharsOccurrences(t: string, c: char)
    ensures multiset(Chars(t))[[c]] == multiset(t)[c]
    decreases |t|
  {
    if |t| > 0 {
      var init := t[..|t| - 1];
      CharsOccurrences(init, c);
      assert Chars(t) == Chars(init) + [[t[|t| - 1]]];
      assert t == init + [t[|t| - 1]];
    }
  }

  lemma ConcatChars(t: string)
    ensures Concat(Chars(t)) == t
    decreases |t|
  {
    if |t| > 0 {
      var init := t[..|t| - 1];
      ConcatChars(init);
      assert Chars(t)[..|t| - 1] == Chars(init);
    }
  }

  // ---------------------------------------------------------------------------
  // Word model: encodestr's tokenizer

  predicate IsSep(c: char) {
    c == ' ' || c == '\n'
  }

  /** A word: a non-empty run of characters other than space and newline. */
  predicate IsWord(w: string) {
    |w| > 0 && forall i :: 0 <= i < |w| ==> !IsSep(w[i])
  }

  predicate IsToken(x: string) {
    x == " " || x == "\n" || IsWord(x)
  }

  ghost predicate AllTokens(r: seq<Symbol>) {
    forall i :: 0 <= i < |r| ==> IsToken(r[i])
  }

  /** Words are maximal: no word token is directly followed by another. */
  ghost predicate NoAdjacentWords(r: seq<Symbol>) {
    forall i, j :: 0 <= i < j < |r| && j == i + 1 ==> !(IsWord(r[i]) && IsWord(r[j]))
  }

  /** The token sequence `encodestr` builds, one character at a time: a space
      or a newline is a token of its own, and any other character extends the
      word just before it or starts a new one. */
  function Tokens(t: string): seq<Symbol>
    decreases |t|
  {
    if |t| == 0 then []
    else
      var p := Tokens(t[..|t| - 1]);
      var c := t[|t| - 1];
      if IsSep(c) || |p| == 0 || !IsWord(p[|p| - 1]) then p + [[c]]
      else p[..|p| - 1] + [p[|p| - 1] + [c]]
  }

  /** Appending one character to the text extends the token list as `Tokens`
      does for its last character. */
  lemma TokensStep(t: string, x: char)
    ensures IsSep(x) || |Tokens(t)| == 0 || !IsWord(Tokens(t)[|Tokens(t)| - 1]) ==>
              Tokens(t + [x]) == Tokens(t) + [[x]]
    ensures !IsSep(x) && |Tokens(t)| > 0 && IsWord(Tokens(t)[|Tokens(t)| - 1]) ==>
              Tokens(t + [x]) == Tokens(t)[..|Tokens(t)| - 1] + [Tokens(t)[|Tokens(t)| - 1] + [x]]
  {
    assert (t + [x])[..|t|] == t;
  }

  /** Tokenization covers the input: the tokens concatenate back to the text,
      none is empty, each is " ", "\n" or a word, no word directly follows
      another (so words are maximal runs), and the last token is a word exactly
      when the text ends in a character other than space and newline. */
  lemma TokensCover(t: string)
    ensures Concat(Tokens(t)) == t
    ensures forall i :: 0 <= i < |Tokens(t)| ==> IsToken(Tokens(t)[i])
    ensures NoAdjacentWords(Tokens(t))
    ensures (|Tokens(t)| > 0 && IsWord(Tokens(t)[|Tokens(t)| - 1])) <==> (|t| > 0 && !IsSep(t[|t| - 1]))
  {
    TokensConcat(t);
    TokensAreTokens(t);
    TokensMaximal(t);
    TokensLastWord(t);
  }

  lemma {:induction false} TokensConcat(t: string)
    ensures Concat(Tokens(t)) == t
    decreases |t|
  {
    if |t| > 0 {
      var init, last := t[..|t| - 1], t[|t| - 1];
      assert t == init + [last];
      TokensConcat(init);
      TokensConcatStep(init, last);
    }
  }

  /** Appending a character to the text appends it to the joined tokens. */
  lemma TokensConcatStep(init: string, c: char)
    requires Concat(Tokens(init)) == init
    ensures Concat(Tokens(init + [c])) == init + [c]
  {
    var p := Tokens(init);
    TokensStep(init, c);
    if IsSep(c) || |p| == 0 || !IsWord(p[|p| - 1]) {
      ConcatSnoc(p, [c]);
    } else {
      var q := p[..|p| - 1];
      var w := p[|p| - 1];
      assert p == q + [w];
      ConcatSnoc(q, w);
      ConcatSnoc(q, w + [c]);
      AppendAssoc(Concat(q), w, [c]);
    }
  }

  lemma ConcatSnoc(p: seq<string>, x: string)
    ensures Concat(p + [x]) == Concat(p) + x
  {
    assert (p + [x])[..|p|] == p;
  }

  lemma AppendAssoc<T>(a: seq<T>, b: seq<T>, c: seq<T>)
    ensures a + b + c == a + (b + c)
  {
  }

  lemma {:induction false} TokensAreTokens(t: string)
    ensures forall i :: 0 <= i < |Tokens(t)| ==> IsToken(Tokens(t)[i])
    decreases |t|
  {
    if |t| > 0 {
      var init := t[..|t| - 1];
      var p := Tokens(init);
      var c := t[|t| - 1];
      TokensAreTokens(init);
      var r := Tokens(t);
      if IsSep(c) || |p| == 0 || !IsWord(p[|p| - 1]) {
        forall i | 0 <= i < |r| ensures IsToken(r[i]) {
          if i < |p| {
            assert r[i] == p[i];
          } else {
            assert r[i] == [c];
            assert IsSep(c) || IsWord([c]);
          }
        }
      } else {
        var w := p[|p| - 1];
        assert IsWord(w);
        assert IsWord(w + [c]);
        forall i | 0 <= i < |r| ensures IsToken(r[i]) {
          if i < |p| - 1 {
            assert r[i] == p[i];
          }
        }
      }
    }
  }

  lemma {:induction false} TokensMaximal(t: string)
    ensures NoAdjacentWords(Tokens(t))
    decreases |t|
  {
    if |t| > 0 {
      var init := t[..|t| - 1];
      var p := Tokens(init);
      var c := t[|t| - 1];
      TokensMaximal(init);
      var r := Tokens(t);
      if IsSep(c) || |p| == 0 || !IsWord(p[|p| - 1]) {
        assert r == p + [[c]];
        forall i, j | 0 <= i < j < |r| && j == i + 1
          ensures !(IsWord(r[i]) && IsWord(r[j]))
        {
          assert r[i] == p[i];
          if j < |p| {
            assert r[j] == p[j];
          } else {
            assert r[j] == [c];
            assert IsWord([c]) ==> !IsSep([c][0]);
          }
        }
      } else {
        var q := p[..|p| - 1];
        assert r == q + [p[|p| - 1] + [c]];
        forall i, j | 0 <= i < j < |r| && j == i + 1
          ensures !(IsWord(r[i]) && IsWord(r[j]))
        {
          assert r[i] == p[i];
          if j < |q| {
            assert r[j] == p[j];
          }
        }
      }
    }
  }

  lemma {:induction false} TokensLastWord(t: string)
    ensures (|Tokens(t)| > 0 && IsWord(Tokens(t)[|Tokens(t)| - 1])) <==> (|t| > 0 && !IsSep(t[|t| - 1]))
    decreases |t|
  {
    if |t| > 0 {
      var init := t[..|t| - 1];
      var p := Tokens(init);
      var c := t[|t| - 1];
      if IsSep(c) || |p| == 0 || !IsWord(p[|p| - 1]) {
        assert IsSep(c) || IsWord([c]);
        assert IsWord([c]) ==> !IsSep([c][0]);
      } else {
        assert IsWord(p[|p| - 1] + [c]);
      }
    }
  }

  /** The tokens are the only decomposition of the text into tokens in which no
      two words are adjacent. */
  lemma {:induction false} TokensUnique(t: string, r: seq<Symbol>)
    requires Concat(r) == t
    requires forall i :: 0 <= i < |r| ==> IsToken(r[i])
    requires NoAdjacentWords(r)
    ensures r == Tokens(t)
    decreases |t|, |r|
  {
    if |r| > 0 {
      var r' := r[..|r| - 1];
      var x := r[|r| - 1];
      assert Concat(r) == Concat(r') + x;
      assert IsToken(x);
      var init := t[..|t| - 1];
      DropLastToken(r);
      if |x| == 1 {
        assert Concat(r') == init;
        TokensUnique(init, r');
        NewTokenStep(t, r);
      } else {
        assert Concat(r') + x[..|x| - 1] == init;
        DropLastLetter(r, init);
        TokensUnique(init, r' + [x[..|x| - 1]]);
        assert t == init + [x[|x| - 1]] by {
          assert t[|t| - 1] == x[|x| - 1];
        }
        LongerWordStep(init, x[|x| - 1], r);
      }
    }
  }

  /** The step of `TokensUnique` when the last token is one character. */
  lemma NewTokenStep(t: string, r: seq<Symbol>)
    requires |r| > 0 && Concat(r) == t && AllTokens(r) && NoAdjacentWords(r)
    requires |r[|r| - 1]| == 1
    requires r[..|r| - 1] == Tokens(t[..|t| - 1])
    ensures r == Tokens(t)
  {
    var r' := r[..|r| - 1];
    var x := r[|r| - 1];
    assert Concat(r) == Concat(r') + x;
    var init := t[..|t| - 1];
    var c := t[|t| - 1];
    assert t == init + [c];
    assert x == [c];
    TokensStep(init, c);
    if |r'| > 0 {
      assert r[|r'| - 1] == r'[|r'| - 1];
    }
    assert r == r' + [x];
  }

  /** The step of `TokensUnique` when the last token is a word of two or more
      characters, the last of which is `c`. */
  lemma LongerWordStep(init: string, c: char, r: seq<Symbol>)
    requires |r| > 0 && IsToken(r[|r| - 1]) && |r[|r| - 1]| >= 2 && r[|r| - 1][|r[|r| - 1]| - 1] == c
    requires r[..|r| - 1] + [r[|r| - 1][..|r[|r| - 1]| - 1]] == Tokens(init)
    ensures r == Tokens(init + [c])
  {
    var r' := r[..|r| - 1];
    var x := r[|r| - 1];
    var x' := x[..|x| - 1];
    assert x == x' + [c];
    assert IsWord(x') && !IsSep(c) by {
      assert |x| != 1;
      assert IsWord(x);
    }
    var p := Tokens(init);
    assert p[..|p| - 1] == r' && p[|p| - 1] == x';
    TokensStep(init, c);
    assert r == r' + [x];
  }

  /** Dropping the last token keeps a decomposition free of adjacent words. */
  lemma DropLastToken(r: seq<Symbol>)
    requires |r| > 0 && (forall i :: 0 <= i < |r| ==> IsToken(r[i])) && NoAdjacentWords(r)
    ensures AllTokens(r[..|r| - 1])
    ensures NoAdjacentWords(r[..|r| - 1])
  {
    var r' := r[..|r| - 1];
    forall i, j | 0 <= i < j < |r'| && j == i + 1
      ensures !(IsWord(r'[i]) && IsWord(r'[j]))
    {
      assert r'[i] == r[i] && r'[j] == r[j];
    }
  }

  /** Dropping the last character of a last word of two or more characters
      leaves a decomposition of the text without that character. */
  lemma DropLastLetter(r: seq<Symbol>, init: string)
    requires |r| > 0 && (forall i :: 0 <= i < |r| ==> IsToken(r[i])) && NoAdjacentWords(r)
    requires |r[|r| - 1]| >= 2 && Concat(r[..|r| - 1]) + r[|r| - 1][..|r[|r| - 1]| - 1] == init
    ensures Concat(r[..|r| - 1] + [r[|r| - 1][..|r[|r| - 1]| - 1]]) == init
    ensures AllTokens(r[..|r| - 1] + [r[|r| - 1][..|r[|r| - 1]| - 1]])
    ensures NoAdjacentWords(r[..|r| - 1] + [r[|r| - 1][..|r[|r| - 1]| - 1]])
  {
    var r' := r[..|r| - 1];
    var x := r[|r| - 1];
    var x' := x[..|x| - 1];
    var r'' := r' + [x'];
    assert r''[..|r'|] == r';
    assert IsWord(x) by {
      assert |x| != 1;
    }
    assert IsWord(x');
    forall i | 0 <= i < |r''| ensures IsToken(r''[i]) {
      if i < |r'| {
        assert r''[i] == r[i];
      }
    }
    forall i, j | 0 <= i < j < |r''| && j == i + 1
      ensures !(IsWord(r''[i]) && IsWord(r''[j]))
    {
      assert r''[i] == r[i];
      if j < |r'| {
        assert r''[j] == r[j];
      } else {
        assert IsWord(r[j]);
      }
    }
  }

  // ---------------------------------------------------------------------------
  // Word model: getwordfreq's counts

  /** The characters `str.isspace()` accepts, which `str.split()` splits on. */
  predicate IsPySpace(c: char) {
    || c == ' '
    || ('\t' <= c <= '\r')
    || ('\U{1C}' <= c <= '\U{1F}')
    || c == '\U{85}' || c == '\U{A0}' || c == '\U{1680}'
    || ('\U{2000}' <= c <= '\U{200A}')
    || c == '\U{2028}' || c == '\U{2029}' || c == '\U{202F}' || c == '\U{205F}' || c == '\U{3000}'
  }

  /** The only whitespace in `t` is spaces and newlines, the two characters the
      tokenizer treats as separators. */
  predicate OnlySpacesAndNewlines(t: string) {
    forall i :: 0 <= i < |t| ==> IsPySpace(t[i]) ==> IsSep(t[i])
  }

  /** `t.split()`: the maximal runs of non-whitespace characters. */
  function Split(t: string): (r: seq<string>)
    ensures forall i :: 0 <= i < |r| ==> |r[i]| > 0 && !IsPySpace(r[i][0])
    ensures |t| > 0 && !IsPySpace(t[|t| - 1]) ==> |r| > 0
    decreases |t|
  {
    if |t| == 0 then []
    else
      var p := Split(t[..|t| - 1]);
      var c := t[|t| - 1];
      if IsPySpace(c) then p
      else if |t| >= 2 && !IsPySpace(t[|t| - 2]) then p[..|p| - 1] + [p[|p| - 1] + [c]]
      else p + [[c]]
  }

  /** `sum(1 for x in t if x == c)`, the space and newline counters. */
  function CountChar(t: string, c: char): (n: int)
    ensures n == multiset(t)[c]
    decreases |t|
  {
    if |t| == 0 then 0
    else
      assert t == t[..|t| - 1] + [t[|t| - 1]];
      CountChar(t[..|t| - 1], c) + (if t[|t| - 1] == c then 1 else 0)
  }

  /** The counting part of `getwordfreq(t)`: the words of `t.split()` counted
      in order of first occurrence, then " " with the number of spaces and "\n"
      with the number of newlines, each only when that number is positive. */
  function WordFreq(t: string): (d: Dict<Symbol, int>)
    ensures DistinctKeys(d)
    ensures Get(d, " ") == if ' ' in t then Some(multiset(t)[' ']) else None
    ensures Get(d, "\n") == if '\n' in t then Some(multiset(t)['\n']) else None
    ensures forall w :: w != " " && w != "\n" ==>
              Get(d, w) == if w in Split(t) then Some(multiset(Split(t))[w]) else None
  {
    SplitHasNoSeparator(t);
    var spaces := CountChar(t, ' ');
    var breaks := CountChar(t, '\n');
    var words := Count(Split(t));
    var withSpaces := if spaces > 0 then Set(words, " ", spaces) else words;
    if breaks > 0 then Set(withSpaces, "\n", breaks) else withSpaces
  }

  /** The tokens that are words, in order. */
  function Words(ts: seq<Symbol>): seq<Symbol>
    decreases |ts|
  {
    if |ts| == 0 then []
    else
      var p := Words(ts[..|ts| - 1]);
      var x := ts[|ts| - 1];
      if x == " " || x == "\n" then p else p + [x]
  }

  lemma {:induction false} WordsOccurrences(ts: seq<Symbol>, k: Symbol)
    requires k != " " && k != "\n"
    ensures multiset(Words(ts))[k] == multiset(ts)[k]
    decreases |ts|
  {
    if |ts| > 0 {
      WordsOccurrences(ts[..|ts| - 1], k);
      assert ts == ts[..|ts| - 1] + [ts[|ts| - 1]];
    }
  }

  /** Each space (newline) of the text is exactly one " " ("\n") token. */
  lemma {:induction false} SeparatorTokens(t: string, c: char)
    requires IsSep(c)
    ensures multiset(Tokens(t))[[c]] == multiset(t)[c]
    decreases |t|
  {
    if |t| > 0 {
      var init, last := t[..|t| - 1], t[|t| - 1];
      assert t == init + [last];
      SeparatorTokens(init, c);
      SeparatorTokensStep(init, last, c);
    }
  }

  lemma SeparatorTokensStep(init: string, last: char, c: char)
    requires IsSep(c) && multiset(Tokens(init))[[c]] == multiset(init)[c]
    ensures multiset(Tokens(init + [last]))[[c]] == multiset(init + [last])[c]
  {
    var p := Tokens(init);
    TokensStep(init, last);
    MultisetSnoc(init, last, c);
    if IsSep(last) || |p| == 0 || !IsWord(p[|p| - 1]) {
      MultisetSnoc(p, [last], [c]);
    } else {
      var q := p[..|p| - 1];
      var w := p[|p| - 1];
      assert p == q + [w];
      assert w != [c] by {
        assert !IsSep(w[0]);
      }
      assert |w + [last]| >= 2;
      MultisetSnoc(q, w, [c]);
      MultisetSnoc(q, w + [last], [c]);
    }
  }

  lemma MultisetSnoc<T>(s: seq<T>, x: T, y: T)
    ensures multiset(s + [x])[y] == multiset(s)[y] + (if x == y then 1 else 0)
  {
  }

  /** On text whose only whitespace is spaces and newlines, `str.split()`
      yields exactly the word tokens of the tokenizer, in order. */
  lemma {:induction false} SplitIsWordTokens(t: string)
    requires OnlySpacesAndNewlines(t)
    ensures Split(t) == Words(Tokens(t))
    decreases |t|
  {
    if |t| > 0 {
      var init := t[..|t| - 1];
      assert OnlySpacesAndNewlines(init) by {
        forall i | 0 <= i < |init| ensures IsPySpace(init[i]) ==> IsSep(init[i]) {
          assert init[i] == t[i];
        }
      }
      var last := t[|t| - 1];
      assert t == init + [last];
      SplitIsWordTokens(init);
      SplitIsWordTokensStep(init, last);
    }
  }

  lemma SplitIsWordTokensStep(init: string, c: char)
    requires OnlySpacesAndNewlines(init) && (IsPySpace(c) ==> IsSep(c))
    requires Split(init) == Words(Tokens(init))
    ensures Split(init + [c]) == Words(Tokens(init + [c]))
  {
    var p := Tokens(init);
    if IsSep(c) || |p| == 0 || !IsWord(p[|p| - 1]) {
      SplitNewToken(init, c);
    } else {
      SplitLongerWord(init, c);
    }
  }

  /** The step when the character starts a new token. */
  lemma SplitNewToken(init: string, c: char)
    requires OnlySpacesAndNewlines(init) && (IsPySpace(c) ==> IsSep(c))
    requires Split(init) == Words(Tokens(init))
    requires IsSep(c) || |Tokens(init)| == 0 || !IsWord(Tokens(init)[|Tokens(init)| - 1])
    ensures Split(init + [c]) == Words(Tokens(init + [c]))
  {
    TokensStep(init, c);
    SplitSnoc(init, c);
    TokensLastWord(init);
    WordsSnoc(Tokens(init), [c]);
  }

  /** The step when the character extends the last word. */
  lemma SplitLongerWord(init: string, c: char)
    requires OnlySpacesAndNewlines(init) && (IsPySpace(c) ==> IsSep(c))
    requires Split(init) == Words(Tokens(init))
    requires !IsSep(c) && |Tokens(init)| > 0 && IsWord(Tokens(init)[|Tokens(init)| - 1])
    ensures Split(init + [c]) == Words(Tokens(init + [c]))
  {
    var p := Tokens(init);
    TokensStep(init, c);
    SplitSnoc(init, c);
    TokensLastWord(init);
    var q := p[..|p| - 1];
    var w := p[|p| - 1];
    assert p == q + [w];
    WordsSnoc(q, w);
    WordsSnoc(q, w + [c]);
    assert !IsPySpace(init[|init| - 1]);
    var sp := Split(init);
    assert sp[..|sp| - 1] == Words(q) && sp[|sp| - 1] == w;
  }

  /** Appending one character to the text extends `Split` as its definition
      does for the last character. */
  lemma SplitSnoc(init: string, c: char)
    ensures IsPySpace(c) ==> Split(init + [c]) == Split(init)
    ensures !IsPySpace(c) && |init| >= 1 && !IsPySpace(init[|init| - 1]) ==>
              Split(init + [c]) == Split(init)[..|Split(init)| - 1] + [Split(init)[|Split(init)| - 1] + [c]]
    ensures !IsPySpace(c) && (|init| == 0 || IsPySpace(init[|init| - 1])) ==> Split(init + [c]) == Split(init) + [[c]]
  {
    var t := init + [c];
    assert t[..|t| - 1] == init && t[|t| - 1] == c;
    if |init| >= 1 {
      assert t[|t| - 2] == init[|init| - 1];
    }
  }

  lemma WordsSnoc(ts: seq<Symbol>, x: Symbol)
    ensures Words(ts + [x]) == if x == " " || x == "\n" then Words(ts) else Words(ts) + [x]
  {
    assert (ts + [x])[..|ts|] == ts;
  }

  /** On text whose only whitespace is spaces and newlines, `getwordfreq`
      holds exactly the tokens of `encodestr`, each with its number of
      occurrences: words by occurrence, " " with the total number of spaces,
      "\n" with the total number of newlines. */
  lemma WordFreqMatchesTokens(t: string)
    requires OnlySpacesAndNewlines(t)
    ensures forall k :: Get(WordFreq(t), k) ==
                       (if k in Tokens(t) then Some(multiset(Tokens(t))[k]) else None)
  {
    forall k
      ensures Get(WordFreq(t), k) == if k in Tokens(t) then Some(multiset(Tokens(t))[k]) else None
    {
      WordFreqAt(t, k);
    }
  }

  /** The words of `Split` are never a separator token. */
  lemma SplitHasNoSeparator(t: string)
    ensures " " !in Split(t) && "\n" !in Split(t)
  {
    var split := Split(t);
    forall i | 0 <= i < |split|
      ensures split[i] != " " && split[i] != "\n"
    {
      assert !IsPySpace(split[i][0]);
    }
  }

  /** One key of `WordFreqMatchesTokens`. */
  lemma WordFreqAt(t: string, k: Symbol)
    requires OnlySpacesAndNewlines(t)
    ensures Get(WordFreq(t), k) == if k in Tokens(t) then Some(multiset(Tokens(t))[k]) else None
  {
    if k == "\n" || k == " " {
      SeparatorTokens(t, k[0]);
      assert [k[0]] == k;
    } else {
      SplitIsWordTokens(t);
      WordsOccurrences(Tokens(t), k);
    }
  }

  /** For "a\tb", `str.split` sees two words, while the tokenizer, which only
      separates at spaces and newlines, sees the single word "a\tb". */
  lemma TabWord()
    ensures Split("a\tb") == ["a", "b"]
    ensures Tokens("a\tb") == ["a\tb"]
  {
    TabSplit();
    TabTokens();
  }

  lemma TabSplitPrefix()
    ensures Split("a\t") == ["a"]
  {
    var t := "a\t";
    assert t[..1] == "a";
    assert Split(t[..1]) == ["a"];
  }

  lemma TabSplit()
    ensures Split("a\tb") == ["a", "b"]
  {
    var t := "a\tb";
    assert t[..2] == "a\t";
    TabSplitPrefix();
  }

  lemma TabTokensPrefix()
    ensures Tokens("a\t") == ["a\t"]
  {
    var t := "a\t";
    assert t[..1] == "a";
    assert Tokens(t[..1]) == ["a"];
    assert IsWord("a");
    assert "a" + ['\t'] == t;
  }

  lemma TabTokens()
    ensures Tokens("a\tb") == ["a\tb"]
  {
    var t := "a\tb";
    assert t[..2] == "a\t";
    TabTokensPrefix();
    assert IsWord("a\t");
    assert "a\t" + ['b'] == t;
  }

  /** The word counts of "a\tb" hold "a" but not the token "a\tb". */
  lemma TabWordFreq()
    ensures HasKey(WordFreq("a\tb"), "a") && !HasKey(WordFreq("a\tb"), "a\tb")
  {
    var words := ["a", "b"];
    TabSplit();
    WordKey("a\tb", "a");
    WordKey("a\tb", "a\tb");
    assert words[0] == "a";
    assert "a\tb" != words[0] && "a\tb" != words[1];
  }

  /** A key other than " " and "\n" is in the word-mode dict exactly when
      `split` yields it. */
  lemma WordKey(t: string, w: Symbol)
    requires w != " " && w != "\n"
    ensures HasKey(WordFreq(t), w) <==> w in Split(t)
  {
  }

}
