/** The compressed file and the two compress/decompress pipelines around the
    codec. A file is its bytes as bits: the header object, serialized to some
    whole number of bytes, followed by the payload bits zero-padded to whole
    bytes. The decompressor finds the payload from the file size and the bit
    count the header carries, then drops that entry to get the table back. */
module Container {
  import opened Wrappers
  import opened Dicts
  import opened Symbols
  import opened Trees
  import opened Codes
  import opened Codec

  // ---------------------------------------------------------------------------
  // Payload arithmetic

  /** `getbytes(n)`, `math.ceil(n / 8)`: the number of bytes `n` bits take. */
  function GetBytes(n: int): (r: int)
    ensures 8 * r - 7 <= n <= 8 * r
  {
    -((-n) / 8)
  }

  /** The bound pins the byte count down: no other number satisfies it. */
  lemma GetBytesUnique(n: int, r: int)
    requires 8 * r - 7 <= n <= 8 * r
    ensures r == GetBytes(n)
  {
  }

  /** A bit string that fills whole bytes, as every file does. */
  predicate WholeBytes(bits: Bits) {
    |bits| % 8 == 0
  }

  /** The payload as written to the file: zero bits up to a whole byte. */
  function Pad(bits: Bits): (r: Bits)
    ensures |r| == 8 * GetBytes(|bits|) && |r| - 8 < |bits| <= |r|
    ensures WholeBytes(r)
    ensures r[..|bits|] == bits
    ensures forall i :: |bits| <= i < |r| ==> !r[i]
  {
    bits + seq(8 * GetBytes(|bits|) - |bits|, _ => false)
  }

  function Min(a: int, b: int): int {
    if a <= b then a else b
  }

  /** Python's `s[start:]`, where a negative start counts from the end and an
      out-of-range start is clamped. */
  function SliceFrom<T>(s: seq<T>, start: int): (r: seq<T>)
    ensures |r| <= |s| && r == s[|s| - |r|..]
    ensures start < 0 ==> |r| == Min(-start, |s|)
    ensures start >= 0 ==> |r| == |s| - Min(start, |s|)
  {
    if start < 0 then
      if -start >= |s| then s else s[|s| + start..]
    else if start >= |s| then [] else s[start..]
  }

  /** The payload trim of `decompress`: with `filesize` the file's length in
      bytes, the header is taken to be `filesize - getbytes(size)` bytes long,
      the first `header*8 + size` bits of the file are read, and the last
      `size` of them kept. A negative bit count raises ValueError. The file
      size is the bit length divided by 8, which is exact for a file. */
  function ReadPayload(raw: Bits, size: int): (r: Result<Bits, PyError>)
    ensures r.Failure? <==> (|raw| / 8 - GetBytes(size)) * 8 + size < 0
    ensures r.Failure? ==> r.error == ValueError
  {
    var filesize := |raw| / 8;
    var dictsize := filesize - GetBytes(size);
    var n := dictsize * 8 + size;
    if n < 0 then Failure(ValueError)
    else Success(SliceFrom(raw[..n], -size))
  }

  /** A header of whole bytes, a payload of at least one bit, and whatever
      bits fill the payload's last byte: the trim gives back exactly the
      payload, whatever the fill bits are. */
  lemma PayloadTrim(header: Bits, payload: Bits, fill: Bits)
    requires WholeBytes(header) && |payload| > 0
    requires |fill| == 8 * GetBytes(|payload|) - |payload|
    ensures ReadPayload(header + payload + fill, |payload|) == Success(payload)
  {
    var raw := header + payload + fill;
    var n := (|raw| / 8 - GetBytes(|payload|)) * 8 + |payload|;
    assert n == |header| + |payload|;
    assert raw[..n] == header + payload;
  }

  /** The same for the payload as written, with zero fill bits. */
  lemma PaddedPayloadTrim(header: Bits, payload: Bits)
    requires WholeBytes(header) && |payload| > 0
    ensures ReadPayload(header + Pad(payload), |payload|) == Success(payload)
  {
    var fill := Pad(payload)[|payload|..];
    assert Pad(payload) == payload + fill;
    PayloadTrim(header, payload, fill);
    assert header + Pad(payload) == header + payload + fill;
  }

  /** With a bit count of 0, `encoded[-0:]` keeps every bit read: the whole
      header comes back as the payload. */
  lemma PayloadTrimZero(header: Bits)
    requires WholeBytes(header)
    ensures ReadPayload(header + Pad([]), 0) == Success(header)
  {
    assert header + Pad([]) == header;
    assert header[..|header|] == header;
  }

  // ---------------------------------------------------------------------------
  // Character mode

  /** A value of the character-mode header: a symbol's code, or the bit count
      stored under "size". */
  datatype Value = Code(bits: Bits) | BitCount(n: int)

  /** The code table as header entries. */
  function AsValues(codes: Dict<Symbol, Bits>): (r: Dict<Symbol, Value>)
    ensures |r| == |codes|
    ensures forall i :: 0 <= i < |codes| ==> r[i] == (codes[i].0, Code(codes[i].1))
  {
    seq(|codes|, i requires 0 <= i < |codes| => (codes[i].0, Code(codes[i].1)))
  }

  /** Header entries back to a code table; a value that is not a code cannot
      be handed to the decoder and raises TypeError. */
  function AsCodes(d: Dict<Symbol, Value>): (r: Result<Dict<Symbol, Bits>, PyError>)
    ensures r.Success? <==> forall i :: 0 <= i < |d| ==> d[i].1.Code?
    ensures r.Failure? ==> r.error == TypeError
    ensures r.Success? ==> AsValues(r.value) == d
    decreases |d|
  {
    if |d| == 0 then Success([])
    else match d[|d| - 1].1
      case BitCount(_) => Failure(TypeError)
      case Code(c) =>
        var init :- AsCodes(d[..|d| - 1]);
        assert AsValues(init + [(d[|d| - 1].0, c)]) == d;
        Success(init + [(d[|d| - 1].0, c)])
  }

  /** Storing a table in the header and reading it back loses nothing. */
  lemma {:induction false} AsCodesAsValues(codes: Dict<Symbol, Bits>)
    ensures AsCodes(AsValues(codes)) == Success(codes)
    decreases |codes|
  {
    if |codes| > 0 {
      var init := codes[..|codes| - 1];
      AsCodesAsValues(init);
      assert AsValues(codes)[..|codes| - 1] == AsValues(init);
      assert codes == init + [codes[|codes| - 1]];
    }
  }

  /** `compress` without the file handling: count the characters, build the
      code table, encode the text, and add the bit count under "size". The
      result is the header object and the payload bits. */
  function CompressChars(text: string): (r: Result<(Dict<Symbol, Value>, Bits), PyError>)
    ensures r.Failure? <==> |text| == 0
    ensures r.Failure? ==> r.error == IndexError
    ensures r.Success? ==> SizeOf(r.value.0) == Success(|r.value.1|)
  {
    var codes :- CodesFor(CharFreq(text));
    CharsEncodable(text);
    var a := Encode(Chars(text), codes).value;
    Success((Set(AsValues(codes), "size", BitCount(|a|)), a))
  }

  /** Character mode builds a code table exactly when the text is non-empty,
      and that table has a code for every character of the text. */
  lemma CharsEncodable(text: string)
    ensures CodesFor(CharFreq(text)).Success? <==> |text| > 0
    ensures |text| > 0 ==> Encode(Chars(text), CodesFor(CharFreq(text)).value).Success?
  {
    if |text| > 0 {
      assert Get(CharFreq(text), [text[0]]).Some?;
      CharKeys(text);
      CodesForFacts(CharFreq(text));
    }
  }

  /** `encoded["size"]`: KeyError when the entry is missing, TypeError when it
      holds a code rather than a count. */
  function SizeOf(header: Dict<Symbol, Value>): (r: Result<int, PyError>)
    ensures r.Success? <==> Get(header, "size").Some? && Get(header, "size").value.BitCount?
    ensures r.Success? ==> r.value == Get(header, "size").value.n
    ensures Get(header, "size").None? ==> r == Failure(KeyError("size"))
    ensures Get(header, "size").Some? && Get(header, "size").value.Code? ==> r == Failure(TypeError)
  {
    match Get(header, "size")
    case None => Failure(KeyError("size"))
    case Some(v) => if v.BitCount? then Success(v.n) else Failure(TypeError)
  }

  /** `decompress(filename, 1)`, given the header object and the file's bits:
      read "size", trim the payload, pop the "size" entry, and table-decode. */
  function DecompressChars(header: Dict<Symbol, Value>, raw: Bits): (r: Result<string, PyError>)
    ensures !HasKey(header, "size") ==> r == Failure(KeyError("size"))
    ensures r.Failure? ==> r.error == KeyError("size") || r.error == TypeError || r.error == ValueError
  {
    var size :- SizeOf(header);
    var payload :- ReadPayload(raw, size);
    var table := PopItem(header).0;
    var codes :- AsCodes(table);
    var syms :- TableDecode(payload, codes);
    Success(Concat(syms))
  }

  /** The table for a text's characters: a valid prefix code holding every
      character of the text and no key "size". */
  lemma CharCodes(text: string) returns (codes: Dict<Symbol, Bits>)
    requires |text| > 0
    ensures CodesFor(CharFreq(text)) == Success(codes) && ValidTable(codes)
    ensures forall i :: 0 <= i < |Chars(text)| ==> HasKey(codes, Chars(text)[i])
    ensures !HasKey(codes, "size")
  {
    var freq := CharFreq(text);
    CharKeys(text);
    CodesForFacts(freq);
    codes := CodesFor(freq).value;
  }

  /** Every character of the text is a key of its frequency dict, and "size",
      two characters long, is not. */
  lemma CharKeys(text: string)
    ensures forall i :: 0 <= i < |Chars(text)| ==> HasKey(CharFreq(text), Chars(text)[i])
    ensures !HasKey(CharFreq(text), "size")
  {
    forall i | 0 <= i < |Chars(text)| ensures HasKey(CharFreq(text), Chars(text)[i]) {
      assert Get(CharFreq(text), [text[i]]).Some?;
    }
    assert Get(CharFreq(text), "size") == None;
  }

  /** The key "size" is never a symbol of the table, so popping it restores
      the code table. */
  lemma PopSize(codes: Dict<Symbol, Bits>, n: int)
    requires !HasKey(codes, "size")
    ensures SizeOf(Set(AsValues(codes), "size", BitCount(n))) == Success(n)
    ensures PopItem(Set(AsValues(codes), "size", BitCount(n))).0 == AsValues(codes)
  {
    SameKeys(AsValues(codes), codes, "size");
    PopAfterInsert(AsValues(codes), "size", BitCount(n));
  }

  /** Encoding a non-empty token sequence yields at least one bit. */
  lemma EncodeNonEmpty(toks: seq<Symbol>, codes: Dict<Symbol, Bits>)
    requires |toks| > 0 && ValidTable(codes)
    requires forall i :: 0 <= i < |toks| ==> HasKey(codes, toks[i])
    ensures |Encode(toks, codes).value| > 0
  {
    EncodeHead(toks, codes);
    assert |Get(codes, toks[0]).value| > 0;
  }

  /** The steps of `decompress` in character mode, each succeeding. */
  lemma DecompressCharsSteps(header: Dict<Symbol, Value>, raw: Bits, p: Bits, codes: Dict<Symbol, Bits>, syms: seq<Symbol>)
    requires SizeOf(header).Success? && ReadPayload(raw, SizeOf(header).value) == Success(p)
    requires AsCodes(PopItem(header).0) == Success(codes) && TableDecode(p, codes) == Success(syms)
    ensures DecompressChars(header, raw) == Success(Concat(syms))
  {
  }

  /** Character mode round trip: any non-empty text compresses, and the file
      made of any whole-byte header serialization followed by the padded
      payload decompresses to the text. */
  lemma CharsRoundTrip(text: string, pickled: Bits)
    requires |text| > 0 && WholeBytes(pickled)
    ensures CompressChars(text).Success?
    ensures DecompressChars(CompressChars(text).value.0, pickled + Pad(CompressChars(text).value.1)) == Success(text)
  {
    var codes := CharCodes(text);
    var toks := Chars(text);
    var a := Encode(toks, codes).value;
    EncodeNonEmpty(toks, codes);
    var header := Set(AsValues(codes), "size", BitCount(|a|));
    assert CompressChars(text) == Success((header, a));
    PopSize(codes, |a|);
    PaddedPayloadTrim(pickled, a);
    AsCodesAsValues(codes);
    TableRoundTrip(codes, toks);
    DecompressCharsSteps(header, pickled + Pad(a), a, codes, toks);
    ConcatChars(text);
  }

  /** The empty text has nothing to build a tree from: `nodes[0]` raises
      IndexError. */
  lemma CompressCharsEmpty()
    ensures CompressChars("") == Failure(IndexError)
  {
    assert CharFreq("") == [];
  }

  // ---------------------------------------------------------------------------
  // Word mode

  /** The header key that carries the payload's bit count in word mode. */
  const SizeKey: Symbol := "thesize_ofinbits"

  /** `compressw` without the file handling: count words, spaces and newlines,
      build the code table, encode the tokens, and add the bit count under
      "thesize_ofinbits". A token with no code, such as a word holding a tab,
      which `split` separates but the tokenizer does not, raises KeyError. */
  function CompressWords(text: string): (r: Result<(Dict<Symbol, int>, Bits), PyError>)
    ensures |WordFreq(text)| == 0 ==> r == Failure(IndexError)
    ensures r.Failure? ==> r.error == IndexError || (r.error.KeyError? && r.error.key in Tokens(text))
    ensures r.Success? ==> WordSizeOf(r.value.0) == Success(|r.value.1|)
  {
    var freq := WordFreq(text);
    var codes :- CodesFor(freq);
    var encoded :- Encode(Tokens(text), codes);
    Success((Set(freq, SizeKey, |encoded|), encoded))
  }

  /** `encoded["thesize_ofinbits"]`: KeyError when the entry is missing. */
  function WordSizeOf(header: Dict<Symbol, int>): (r: Result<int, PyError>)
    ensures r.Success? <==> HasKey(header, SizeKey)
    ensures r.Success? ==> Get(header, SizeKey) == Some(r.value)
    ensures r.Failure? ==> r.error == KeyError(SizeKey)
  {
    match Get(header, SizeKey)
    case None => Failure(KeyError(SizeKey))
    case Some(n) => Success(n)
  }

  /** `decompress(filename, 2)`, given the header object and the file's bits:
      read the bit count, trim the payload, pop the count, rebuild the tree
      from the frequencies and walk it. */
  function DecompressWords(header: Dict<Symbol, int>, raw: Bits): (r: Result<string, PyError>)
    ensures !HasKey(header, SizeKey) ==> r == Failure(KeyError(SizeKey))
    ensures r.Failure? ==> r.error in {KeyError(SizeKey), ValueError, IndexError, AttributeError}
    ensures r.Failure? && r.error == AttributeError ==> |header| == 2
  {
    var size :- WordSizeOf(header);
    var payload :- ReadPayload(raw, size);
    var freq := PopItem(header).0;
    var tree :- BuildTree(freq);
    BuildTreeFacts(freq);
    DecodeStr(payload, tree)
  }

  /** For text whose only whitespace is spaces and newlines, the frequency
      keys are exactly the tokens, and every token has a code. */
  lemma WordCodes(text: string) returns (codes: Dict<Symbol, Bits>)
    requires OnlySpacesAndNewlines(text) && |text| > 0
    ensures CodesFor(WordFreq(text)) == Success(codes) && ValidTable(codes)
    ensures forall i :: 0 <= i < |Tokens(text)| ==> HasKey(codes, Tokens(text)[i])
    ensures forall k :: HasKey(WordFreq(text), k) <==> k in Tokens(text)
  {
    var freq := WordFreq(text);
    var toks := Tokens(text);
    WordKeys(text);
    TokensCover(text);
    assert |toks| > 0;
    assert toks[0] in toks;
    CodesForFacts(freq);
    codes := CodesFor(freq).value;
    forall i | 0 <= i < |toks| ensures HasKey(codes, toks[i]) {
      assert toks[i] in toks;
    }
  }

  /** The word-mode frequency keys are exactly the tokens. */
  lemma WordKeys(text: string)
    requires OnlySpacesAndNewlines(text)
    ensures forall k :: HasKey(WordFreq(text), k) <==> k in Tokens(text)
  {
    WordFreqMatchesTokens(text);
    forall k ensures HasKey(WordFreq(text), k) <==> k in Tokens(text) {
      assert Get(WordFreq(text), k) == if k in Tokens(text) then Some(multiset(Tokens(text))[k]) else None;
    }
  }

  /** The steps of `decompress` in word mode, each succeeding. */
  lemma DecompressWordsSteps(header: Dict<Symbol, int>, raw: Bits, p: Bits, tree: Tree, syms: string)
    requires WordSizeOf(header).Success? && ReadPayload(raw, WordSizeOf(header).value) == Success(p)
    requires BuildTree(PopItem(header).0) == Success(tree) && DecodeStr(p, tree) == Success(syms)
    ensures DecompressWords(header, raw) == Success(syms)
  {
  }

  /** What `compressw` produces for text whose only whitespace is spaces and
      newlines and that does not contain the word "thesize_ofinbits": the
      frequency dict plus the bit count, which reading and popping give back. */
  lemma WordsCompressed(text: string) returns (codes: Dict<Symbol, Bits>, encoded: Bits)
    requires OnlySpacesAndNewlines(text) && |text| > 0 && SizeKey !in Tokens(text)
    ensures CodesFor(WordFreq(text)) == Success(codes) && ValidTable(codes)
    ensures Encode(Tokens(text), codes) == Success(encoded) && |encoded| > 0
    ensures CompressWords(text) == Success((Set(WordFreq(text), SizeKey, |encoded|), encoded))
    ensures WordSizeOf(Set(WordFreq(text), SizeKey, |encoded|)) == Success(|encoded|)
    ensures PopItem(Set(WordFreq(text), SizeKey, |encoded|)).0 == WordFreq(text)
    ensures forall k :: HasKey(WordFreq(text), k) <==> k in Tokens(text)
  {
    var toks := Tokens(text);
    codes := WordCodes(text);
    encoded := Encode(toks, codes).value;
    EncodeNonEmpty(toks, codes);
    var freq := WordFreq(text);
    assert !HasKey(freq, SizeKey);
    PopAfterInsert(freq, SizeKey, |encoded|);
  }

  /** Word mode round trip: text whose only whitespace is spaces and newlines,
      that does not contain the word "thesize_ofinbits", and that has at least
      two distinct tokens compresses, and the file made of any whole-byte
      header serialization followed by the padded payload decompresses to the
      text. */
  lemma WordsRoundTrip(text: string, pickled: Bits)
    requires OnlySpacesAndNewlines(text) && SizeKey !in Tokens(text)
    requires exists i, j :: 0 <= i < j < |Tokens(text)| && Tokens(text)[i] != Tokens(text)[j]
    requires WholeBytes(pickled)
    ensures CompressWords(text).Success?
    ensures DecompressWords(CompressWords(text).value.0, pickled + Pad(CompressWords(text).value.1)) == Success(text)
  {
    var toks := Tokens(text);
    TokensCover(text);
    var codes, encoded := WordsCompressed(text);
    var freq := WordFreq(text);
    var i, j :| 0 <= i < j < |toks| && toks[i] != toks[j];
    assert toks[i] in toks && toks[j] in toks;
    TwoKeys(freq, toks[i], toks[j]);
    CodesForFacts(freq);
    var tree := BuildTree(freq).value;
    PaddedPayloadTrim(pickled, encoded);
    DecodeStrRoundTrip(tree, codes, toks, []);
    assert encoded + [] == encoded;
    DecompressWordsSteps(Set(freq, SizeKey, |encoded|), pickled + Pad(encoded), encoded, tree, text);
  }

  /** A dict holding two different keys has at least two entries. */
  lemma TwoKeys<V>(d: Dict<Symbol, V>, a: Symbol, b: Symbol)
    requires HasKey(d, a) && HasKey(d, b) && a != b
    ensures |d| >= 2
  {
    assert Find(d, a).value != Find(d, b).value;
  }

  /** Text with a single distinct token, such as "hello" or "   ", compresses,
      but its tree is a lone leaf: `decodestr` reads a bit at the leaf and
      raises AttributeError, so the file does not decompress. */
  lemma WordsLoneTokenFails(text: string, pickled: Bits)
    requires OnlySpacesAndNewlines(text) && |text| > 0 && SizeKey !in Tokens(text)
    requires forall i :: 0 <= i < |Tokens(text)| ==> Tokens(text)[i] == Tokens(text)[0]
    requires WholeBytes(pickled)
    ensures CompressWords(text).Success?
    ensures DecompressWords(CompressWords(text).value.0, pickled + Pad(CompressWords(text).value.1)) == Failure(AttributeError)
  {
    var toks := Tokens(text);
    var codes, encoded := WordsCompressed(text);
    var freq := WordFreq(text);
    TokensCover(text);
    OneKey(freq, toks);
    CodesForFacts(freq);
    var tree := BuildTree(freq).value;
    PaddedPayloadTrim(pickled, encoded);
    DecodeStrLoneLeaf(tree.sym, tree.freq, encoded);
  }

  /** A text holding the word "thesize_ofinbits" collides with the header
      key: storing the bit count overwrites that word's count in place, and
      `popitem` then removes a different entry, so the frequencies the
      decompressor rebuilds the tree from are not the ones the compressor
      used. */
  lemma WordsSizeKeyCollision(text: string)
    requires OnlySpacesAndNewlines(text) && SizeKey in Tokens(text)
    ensures CompressWords(text).Success?
    ensures PopItem(CompressWords(text).value.0).0 != WordFreq(text)
  {
    var toks := Tokens(text);
    TokensCover(text);
    assert |text| > 0;
    var codes := WordCodes(text);
    var freq := WordFreq(text);
    assert HasKey(freq, SizeKey);
    var encoded := Encode(toks, codes).value;
    assert CompressWords(text) == Success((Set(freq, SizeKey, |encoded|), encoded));
    PopAfterOverwrite(freq, SizeKey, |encoded|);
  }

  /** `str.split` separates words at a tab but the tokenizer does not: for
      "a\tb" the frequency dict holds "a" and "b" while the only token is
      "a\tb", which has no code, so compression raises KeyError. */
  lemma CompressWordsTab()
    ensures CompressWords("a\tb") == Failure(KeyError("a\tb"))
  {
    var t := "a\tb";
    TabTokens();
    TabWordFreq();
    CodesForFacts(WordFreq(t));
  }

  /** A dict whose keys all occur in a sequence of copies of one symbol has at
      most one entry. */
  lemma OneKey<V>(d: Dict<Symbol, V>, toks: seq<Symbol>)
    requires DistinctKeys(d) && |toks| > 0
    requires forall k :: HasKey(d, k) ==> k in toks
    requires forall i :: 0 <= i < |toks| ==> toks[i] == toks[0]
    ensures |d| <= 1
  {
    if |d| >= 2 {
      KeyAt(d, 0);
      KeyAt(d, 1);
      assert false;
    }
  }

  lemma KeyAt<K, V>(d: Dict<K, V>, i: nat)
    requires i < |d|
    ensures HasKey(d, d[i].0)
  {
  }
}
