# Huffman file compressor — a Dafny model of the codec core

The compressor in `huffman.py` works in two modes.

- **Character mode** (`compress` and `decompress(_, 1)`). It counts the characters of a text. It builds a Huffman tree by repeatedly merging the two lightest nodes. It reads the code table off the tree and encodes the text as the concatenation of the codes. The file holds the pickled table plus a `"size"` entry, followed by the payload bits padded to whole bytes. Decompression trims the payload by the file size and the bit count, pops the `"size"` entry, and decodes with the table.
- **Word mode** (`compressw` and `decompress(_, 2)`). The symbols are words, single spaces and single newlines. The header is the frequency dict plus a `"thesize_ofinbits"` entry. Decompression rebuilds the tree from the frequencies and walks it bit by bit.

The model is split into seven modules:

- `Wrappers`: `Option`, `Result`, and the Python exceptions the code can raise (`PyError`).
- `Dicts`: Python dicts as insertion-ordered entry lists.
  - `d[k] = v` is `Set`.
  - `popitem` is `PopItem`.
- `Symbols`:
  - `Counter`.
  - The character and word frequency tables (`getFrequency`, `getwordfreq`).
  - `str.split`.
  - The `encodestr` tokenizer.
- `Trees`: the tree datatype and `maketree`.
- `Codes`: `getCodes`, the one-code patch, and prefix-code facts.
- `Codec`:
  - The code concatenation of `a.encode` and `encodestr`.
  - The tree walk of `decodestr`.
  - The table decoder of `bits.decode`.
- `Container`:
  - `getbytes`.
  - The payload trim of `decompress`.
  - The two compress/decompress pipelines.
  - Their round trips and failure cases.

A raised exception is a `Failure` carrying the exception kind.

## Model

| member | source | states |
|---|---|---|
| Symbols.Count | huffman.py:27 | `Counter(xs)` has distinct keys, and each element of `xs` maps to its number of occurrences; nothing else is a key |
| Symbols.CountSum | huffman.py:27 | the counts of a `Counter` add up to the length of what was counted |
| Symbols.CharFreq | huffman.py:18-27 | the character frequency table maps each character of the text to its number of occurrences and has no other key; its keys are distinct one-character strings; its counts sum to the text length |
| Symbols.Bump | huffman.py:94-95 | incrementing a count (inserting 1 when absent) changes only that key's value |
| Symbols.TokensCover | huffman.py:207-224 | the reference tokenizer `Tokens` is characterised by this lemma and the next: the tokens concatenate back to the text; each token is " ", "\n" or a word without either; no two words are adjacent; the last token is a word exactly when the text ends in a character other than space or newline |
| Symbols.TokensUnique | huffman.py:207-224 | any token list with those properties is the tokenizer's output, so the tokenization is unique |
| Codec.SplitTokens | huffman.py:207-224 | the `strcat`/`laststr` loop produces exactly the reference token list |
| Codec.SplitStep | huffman.py:211-223 | one character of the loop: a separator closes the pending word and becomes its own token; any other character extends the pending word |
| Symbols.Split | huffman.py:92 | every word of `split()` is non-empty and starts with a character other than whitespace; text ending in a character other than whitespace has at least one word |
| Symbols.SplitIsWordTokens | huffman.py:92 | on text whose only whitespace is spaces and newlines, `split()` gives exactly the word tokens, in order |
| Symbols.WordsOccurrences | huffman.py:93-95 | removing the separators keeps the number of occurrences of every word |
| Symbols.CountChar | huffman.py:89-91 | the space and newline counters equal the number of occurrences of that character in the text |
| Symbols.SeparatorTokens | huffman.py:89-91 | the number of " " (or "\n") tokens equals the number of spaces (or newlines) in the text |
| Symbols.WordFreq | huffman.py:85-98 | the word frequency dict has distinct keys; " " maps to the number of spaces and "\n" to the number of newlines, each only when there is one; any other key is a word of `split()`, mapped to its number of occurrences there |
| Symbols.WordKey | huffman.py:92-95 | a key other than " " and "\n" is in the word frequency dict exactly when `split()` yields it |
| Symbols.WordFreqMatchesTokens | huffman.py:85-98 | on text whose only whitespace is spaces and newlines, `getwordfreq` maps each token to its number of occurrences among the tokens, and nothing else is a key |
| Symbols.SplitHasNoSeparator | huffman.py:92 | no word from `split()` is " " or "\n", so the word counts and the separator counts never share a key |
| Symbols.TabWord | huffman.py:92 | `split()` separates "a\tb" into "a" and "b", while the tokenizer keeps "a\tb" as one token |
| Symbols.TabWordFreq | huffman.py:85-98 | the frequency dict of "a\tb" has the key "a" but not the token "a\tb" |
| Trees.LeavesOfDict | huffman.py:113 | the heap pushed from a dict, one leaf per entry (`Leaves`, also at lines 173 and 266), lists exactly the dict's entries in order and weighs the sum of its counts |
| Trees.MinIndex | huffman.py:51-52 | the node `heappop` takes has the least frequency, and no earlier node has the same frequency |
| Trees.PopMin | huffman.py:51-52 | `heappop` returns a node of the queue that is no heavier than any node of it; the rest has one node fewer and holds only nodes of the queue |
| Trees.PopMinPermutes | huffman.py:51-52 | the popped node and the rest together are exactly the queue, as a multiset |
| Trees.PopMinPreserves | huffman.py:51-52 | popping a node moves its leaves and its weight out of the queue and loses nothing |
| Trees.Merge | huffman.py:50-56 | one round of the loop leaves one node fewer; the pushed node is internal, weighs its two children, has the lighter one on the left, and its right child is no heavier than any node left in the queue |
| Trees.MergePermutes | huffman.py:51-56 | the nodes left in place and the two children of the pushed node are exactly the nodes the round started with |
| Trees.MergePreserves | huffman.py:50-56 | a merge keeps the multiset of leaves and the total weight; the new node weighs its two children and has the lighter one on the left |
| Trees.MakeTree | huffman.py:41-57 | the loop ends with exactly one node for a non-empty queue (an internal node when there were at least two), and with none for an empty one |
| Trees.MakeTreeInvariants | huffman.py:41-57 | the final root holds every input leaf exactly once and weighs the sum of the input weights; every internal node weighs its children, and the lighter child is on the left |
| Trees.BuildTree | huffman.py:112-115 | `nodes[0]` after `maketree` raises IndexError exactly when the frequency dict is empty |
| Trees.BuildTreeFacts | huffman.py:112-115 | the tree of a non-empty dict has the dict's entries as leaves, each once; it weighs the frequency sum; it is a single leaf exactly when the dict has one entry |
| Codes.GetCodes | huffman.py:59-74 | `getCodes` keeps the keys of the dict it fills distinct |
| Codes.CodeTable | huffman.py:115 | the table `getCodes(nodes[0], {})` returns has distinct keys |
| Codes.GetCodesAppends | huffman.py:59-74 | `getCodes` appends one entry per leaf, left to right; each entry holds the leaf's root path (0 left, 1 right) behind the path walked so far |
| Codes.PathsSound | huffman.py:59-74 | every root-to-leaf path leads from the root to the leaf of its own symbol |
| Codes.SoundPrefixFree | huffman.py:59-74 | a sound table with distinct symbols is prefix-free |
| Codes.CodeTableFacts | huffman.py:59-74 | the code table has one entry per leaf in leaf order; every code leads to its own leaf; no code is a prefix of another; codes are non-empty when the root is internal; a lone leaf gets the empty code |
| Codes.Patch | huffman.py:116-117 | a table with exactly one entry has its code replaced by 0; any other table is unchanged |
| Codes.LoneLeafCode | huffman.py:115-117 | a lone leaf's empty code becomes 0 after the patch |
| Codes.CodesFor | huffman.py:112-117 | deriving the table fails exactly when the frequency dict is empty |
| Codes.CodesForFacts | huffman.py:112-117 | for a non-empty dict, the table is a valid prefix code over exactly the dict's keys; with two or more keys it is sound for the tree; with one key it maps that key to 0 |
| Codec.Encode | huffman.py:225-227 | encoding succeeds exactly when every token has a code; otherwise it raises KeyError naming a token that has no code |
| Codec.EncodeAppend | huffman.py:225-227 | encoding a concatenation concatenates the encodings, and the first failure wins |
| Codec.EncodeStr | huffman.py:207-228 | `encodestr` equals the reference encoding of the reference tokens, KeyError included |
| Codec.Walk | huffman.py:242-249 | the walk fails only with AttributeError, and never while both the root and the cursor are internal nodes |
| Codec.DecodeStr | huffman.py:240-251 | `decodestr` raises AttributeError exactly when the tree is a lone leaf and there is at least one bit |
| Codec.WalkCode | huffman.py:242-249 | walking one code emits its symbol and returns the cursor to the root |
| Codec.WalkPartial | huffman.py:242-249 | bits that stop part-way down the tree emit nothing; trailing bits are dropped |
| Codec.WalkRoundTrip | huffman.py:240-251 | for a tree with at least two leaves and a sound table, walking the encoding of the tokens plus any incomplete code gives the tokens back |
| Codec.DecodeStrRoundTrip | huffman.py:240-251 | `decodestr` of such an encoding returns the tokens joined into one string |
| Codec.MatchCode | huffman.py:169 | in a prefix code, the only code that starts a code followed by more bits is that code |
| Codec.TableWalk | huffman.py:169 | table decoding fails only with ValueError; on success it emits no more symbols than there are bits, and every symbol is a key of the table |
| Codec.EncodeHead | huffman.py:225-227 | a successful encoding of a non-empty token list is the first token's code followed by the encoding of the rest |
| Codec.TableWalkAppend | huffman.py:169 | table decoding consumes the encoded tokens one code at a time, then continues on the following bits |
| Codec.TableDecode | huffman.py:169 | a table that is not a non-empty prefix code of non-empty codes is refused with ValueError |
| Codec.TableRoundTrip | huffman.py:168-170 | table decoding of an encoding with a valid table gives every token back, in order |
| Codec.TableRejectsTail | huffman.py:169 | unlike the tree walk, the table decoder raises ValueError on trailing bits that start no code |
| Container.GetBytes | huffman.py:135-144 | `getbytes(n)` is the least number of bytes that holds `n` bits (8r-7 <= n <= 8r) |
| Container.Pad | huffman.py:123 | the payload as written fills `getbytes(n)` whole bytes, starts with the payload, and is zero after it |
| Container.SliceFrom | huffman.py:164 | `encoded[-size:]` is a suffix of `encoded`: for a negative start, the last min(-start, length) bits; for a non-negative start, all but the first min(start, length) bits, so `-0` keeps everything |
| Container.ReadPayload | huffman.py:160-164 | the trim fails exactly when the read length `(filesize - getbytes(size)) * 8 + size` is negative, and then with ValueError |
| Container.PayloadTrim | huffman.py:155-165 | for a whole-byte header, a non-empty payload and any fill bits up to the next byte boundary, the trim recovers exactly the payload |
| Container.PaddedPayloadTrim | huffman.py:123 | the same for the zero fill bits that writing the payload adds |
| Container.PayloadTrimZero | huffman.py:164 | with a bit count of 0, `encoded[-0:]` keeps the whole header rather than an empty payload |
| Container.AsCodes | huffman.py:166-169 | reading a header back as a code table fails exactly when some value is not a code, and then with TypeError; on success the table is the header's entries |
| Container.AsCodesAsValues | huffman.py:166-167 | storing a code table in the header and reading it back gives the same table |
| Dicts.Set | huffman.py:120 | `d[k] = v` stores `v` under `k` and leaves every other key's value alone; a new key is appended; an existing key keeps its place |
| Dicts.PopItem | huffman.py:166 | `popitem` removes the last entry: the remaining dict plus that entry is the dict |
| Dicts.PopAfterInsert | huffman.py:166 | popping right after inserting a fresh key restores the dict exactly |
| Container.SizeOf | huffman.py:158-160 | reading "size" gives the stored bit count exactly when that entry holds a count; KeyError when it is absent; TypeError when it holds a code, which the source raises in `getbytes(size)` at line 160 |
| Container.WordSizeOf | huffman.py:159 | reading "thesize_ofinbits" succeeds exactly when the key is present; otherwise KeyError |
| Container.PopSize | huffman.py:120 | the character-mode header yields the stored count under "size", and popping it gives the table back |
| Container.CompressChars | huffman.py:110-120 | compressing fails exactly on the empty text, and then with IndexError; on success the header's "size" entry is the payload's bit count |
| Container.CharsEncodable | huffman.py:111-119 | the character table exists exactly for non-empty text, and then `a.encode` succeeds |
| Container.DecompressChars | huffman.py:154-170 | a header without "size" raises KeyError; the only failures are KeyError for "size", TypeError and ValueError |
| Container.CharCodes | huffman.py:111-117 | the character table of a non-empty text is a valid prefix code with a code for every character and no key "size" |
| Container.CharsRoundTrip | huffman.py:110-170 | every non-empty text compresses in character mode, and with any whole-byte header serialization in front of the padded payload it decompresses to the text |
| Container.CompressCharsEmpty | huffman.py:111-115 | compressing the empty text raises IndexError at `nodes[0]` |
| Container.CompressWords | huffman.py:263-272 | an empty word frequency dict raises IndexError; the only other failure is KeyError for a token of the text; on success the header's "thesize_ofinbits" entry is the payload's bit count |
| Container.DecompressWords | huffman.py:154-175 | a header without "thesize_ofinbits" raises KeyError; the only failures are that KeyError, ValueError, IndexError and AttributeError, and AttributeError arises only when the header held one word besides the size entry |
| Container.WordCodes | huffman.py:264-270 | for text whose only whitespace is spaces and newlines, the word table is a valid prefix code with a code for every token, and the frequency keys are exactly the tokens |
| Container.WordsCompressed | huffman.py:263-272 | such text compresses to the frequency dict plus the bit count; reading the count and popping it restore the frequency dict |
| Container.WordsRoundTrip | huffman.py:157-175 | text whose only whitespace is spaces and newlines, with at least two distinct tokens and no token "thesize_ofinbits", compresses in word mode and decompresses to itself |
| Container.WordsLoneTokenFails | huffman.py:172-175 | text with a single distinct token compresses, but its tree is a lone leaf and decompression raises AttributeError |
| Container.WordsSizeKeyCollision | huffman.py:272 | when the text contains the word "thesize_ofinbits", storing the bit count overwrites that word's count, so popping the last entry does not give back the frequency dict |
| Container.CompressWordsTab | huffman.py:271 | compressing "a\tb" in word mode raises KeyError for the token "a\tb" |

## Left out

- File handling is not modelled: reading the text, file names, `os.stat`, writing files, timing, the compression rate and the menus, and `main.py` with its folder packing. The compressors take the text; the decompressors take the header object and the file's bits.
- Pickle is not modelled. Its output is an arbitrary whole-byte bit string (`pickled`) in front of the payload. The decompressors receive the header object directly, so the model takes `pickle.load` to invert `pickle.dump`.
- The file size in bytes is the file's bit length divided by 8. That is exact for a file.
- bitarray internals are not modelled. Bits are `seq<bool>` with `false` for 0. `a.encode` and the `to01`/`join` of `encodestr` are the same code concatenation (`Codec.Encode`).
- Codec.Encode: in character mode a missing code is reported as KeyError, while bitarray reports its own exception. That case cannot arise, because every character of the text has a code.
- Codec.TableDecode: the refusal of an invalid table and of bits that end inside a code is modelled as ValueError. The exact bitarray message and exception type are not modelled.
- Trees.MinIndex: `heapq` is abstracted. A pop takes the first node of least frequency in list order, and a push appends. The real heap layout decides among nodes of equal weight differently. Compressor and decompressor push the same entries in the same order, so they build the same tree either way.
- Container.GetBytes: `math.ceil(number / 8)` goes through a float. It is modelled as the exact ceiling, which differs only for bit counts beyond 2^53.
- Symbols.Split: the contract states only that each word starts with a non-whitespace character. The full maximal-run property is used where needed, through `Symbols.SplitIsWordTokens` and `Symbols.SplitHasNoSeparator`.
- Codes.GetCodes: its own contract states only that distinct keys stay distinct. What it appends (one entry per leaf, left to right, with the leaf's root path) is stated by `Codes.GetCodesAppends`.
- Codes.CodeTable: its own contract states only distinct keys. The full description of the table is `Codes.CodeTableFacts`.
- Codec.Walk: its own contract states only how it can fail. What it emits is stated by `Codec.WalkCode`, `Codec.WalkPartial` and `Codec.WalkRoundTrip`.
- Codec.TableWalk: its own contract states only the failure kind and bounds on the output. What it emits is stated by `Codec.TableWalkAppend` and `Codec.TableRoundTrip`.
- Container.DecompressChars: its own contract states the failure cases. The decompressed text is stated by `Container.CharsRoundTrip`.
- Container.DecompressWords: its own contract states the failure cases. The decompressed text is stated by `Container.WordsRoundTrip`.
- Container.CompressWords: which inputs succeed is stated by `Container.WordsCompressed`, for text whose only whitespace is spaces and newlines, and by `Container.CompressWordsTab` for the failing case.
- Symbols.IsPySpace lists the characters `str.isspace()` accepts by code point. Python's own table is not consulted, so a code point missing from the list would be a discrepancy in the model.
- Word-mode round trip: the defects of the code are stated as lemmas rather than assumed away:
  - a lone distinct token (`Container.WordsLoneTokenFails`);
  - the header key used as a word (`Container.WordsSizeKeyCollision`);
  - whitespace other than space and newline (`Container.CompressWordsTab`);
  - an empty input (`Container.CompressCharsEmpty`; in word mode, `Codes.CodesFor` fails the same way).
- Every input that would give a zero bit count fails before anything is written: the empty text in either mode, and in word mode a text made only of whitespace other than space and newline, such as "\t", whose frequency dict is empty. `Container.PayloadTrimZero` records what the trim would do with a zero count.
- The model follows the code as written, including behaviour a Huffman codec would usually avoid:
  - a lone-leaf tree raises AttributeError instead of emitting one symbol per bit;
  - trailing bits in the tree walk are dropped, not reported;
  - empty input raises IndexError instead of giving an empty file;
  - ties in the heap follow the queue rather than a canonical symbol order.
