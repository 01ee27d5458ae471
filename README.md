# Huffman compressor and decompressor, modelled in Dafny

The system is a pair of Node.js scripts.

- `zipper.js` counts byte frequencies and builds a Huffman tree with an
  array priority queue. The queue is re-sorted by frequency on every
  iteration, the two front nodes are merged, and the parent goes at the
  back. It then assigns codes by a recursive walk (`0` left, `1` right),
  concatenates the codes of the input bytes, pads with zero bits to a whole
  byte and writes the bytes, most-significant bit first.
- `unzip.js` expands the bytes back into bits. It reads the value of the
  last eight bits as a padding count and cuts that many bits off the end.
  Then it walks a hard-coded sample tree with a cursor that returns to the
  root after every leaf.

The model follows the code. Files and modules:

| file | module | models |
|---|---|---|
| `wrappers.dfy` | `Wrappers` | `Option` (a missing tree, an empty queue) and `Result` (the decoder's crash on a null child) |
| `bit_string.dfy` | `BitString` | bytes, bit strings (`seq<bool>`, `true` for `1`), `parseInt(.., 2)`, `toString(2).padStart(8, '0')`, packing and expansion |
| `huffman_tree.dfy` | `HuffmanTree` | `HuffmanNode` as `Tree = Leaf(sym, freq) \| Node(freq, left, right)`, and paths through a tree |
| `frequencies.dfy` | `Frequencies` | `calculateFrequencies`: counts, and the key order of the JavaScript `Map` |
| `tree_builder.dfy` | `TreeBuilder` | `buildHuffmanTree`: the stable sort, the merge step and the loop |
| `code_table.dfy` | `CodeTable` | `generateHuffmanCodes` / `traverse` |
| `encoder.dfy` | `Encoder` | the bit packing of `encodeFile` |
| `decoder.dfy` | `Decoder` | `decodeFile`: expansion, padding strip, tree walk, and the sample tree |
| `round_trip.dfy` | `RoundTrip` | the compressor script as a whole, and what the decoder recovers from its output |

The loops of the scripts are methods with loop invariants, each proved
equal to a specification function: `CalculateFrequencies`,
`BuildHuffmanTree`, `ConcatCodes`, `PackBits`, `ExpandBits` and
`WalkTree`. `EncodeFile`, `DecodeFile` and `Zip` contain no loop of their
own; they chain those methods as the scripts do. The properties are lemmas
about the specification functions.

Symbols are bytes. `String.fromCharCode(byte)` only relabels them, so the
sample tree's `'A'`, `'B'` and `'C'` are 65, 66 and 67.

## Behaviour as written

These behaviours are modelled as the code has them, although a tidier
Huffman format would differ.

- The padding length is `8 - len % 8`, so it runs from 1 to 8 and is never
  0 (`Encoder.Padding`).
- Nothing special happens for a one-symbol input. The root is a leaf, and
  the symbol's code is the empty bit string (`CodeTable.SingleLeafCode`,
  `RoundTrip.SingleSymbolInput`).
- An empty input builds no tree. The script would then crash in
  `traverse`, and the model returns `None` (`RoundTrip.Compress`).
- No header is written. The decoder takes its tree as a parameter, and the
  script passes it the fixed sample tree.
- The decoder does not get its padding count from the encoder. It reads the
  count from the data, so it disagrees with the encoder's zero fill (see
  Findings).
- A walk whose root is a leaf fails on its first bit, because
  `currentNode.left` is `null` (`Decoder.LeafRootFails`).
- Bits that end part-way down a code are dropped silently
  (`Decoder.WalkDropsPartialPath`).
- Equal frequencies keep their queue order, because the sort is stable,
  and a new parent goes behind every node already in the queue.

## Model

| member | source | states |
|---|---|---|
| BitString.ValueOfToBits | unzip.js:21 | reading the `width`-bit form of a value below 2^width gives back that value |
| BitString.ToBitsOfValue | zipper.js:94 | the fixed-width form of a bit string's value is that bit string |
| BitString.ByteOf | zipper.js:94 | the value of an 8-bit group is a byte whose 8-bit form is exactly that group |
| BitString.ByteOfByteBits | unzip.js:21 | a byte's 8-bit form reads back as the same byte |
| BitString.PackStep | zipper.js:93-95 | one unfolding of the definition of `Pack`: packing one more 8-bit group appends exactly that group's byte |
| BitString.ExpandAt | unzip.js:20-23 | bits 8i..8i+7 of the expansion are the 8-bit form of byte i |
| BitString.PackAt | zipper.js:93-96 | byte i of the packing is the value of bits 8i..8i+7 |
| BitString.ExpandPack | zipper.js:91-96 | expanding the packed bytes gives back the padded bit string |
| BitString.PackExpand | unzip.js:20-23 | re-packing the expansion of any byte sequence gives back the bytes |
| HuffmanTree.SymbolSetOfSyms | zipper.js:62-69 | a symbol is in the tree's symbol set exactly when it labels a leaf |
| HuffmanTree.DistinctOfSyms | zipper.js:35-37 | when every leaf symbol occurs once, the two subtrees of every node have disjoint symbols |
| HuffmanTree.SymbolSetNonEmpty | zipper.js:4-11 | every tree holds at least one symbol |
| HuffmanTree.FollowBounds | unzip.js:32-42 | a path that reaches a node is no longer than the tree is high, and a leaf it reaches carries a symbol of the tree |
| HuffmanTree.FollowAppend | unzip.js:32-37 | following `p + q` is following `p` and then `q` from where `p` ends, and fails if `p` runs past a leaf |
| Frequencies.FirstOccurrencesSpec | zipper.js:20-24 | the map's key order has no duplicates and holds exactly the bytes that occur |
| Frequencies.OccurrencesPositive | zipper.js:20-24 | a byte's count is positive exactly when the byte occurs |
| Frequencies.CalculateFrequencies | zipper.js:14-28 | the keys are exactly the bytes that occur, and each count is that byte's number of occurrences, which is positive. The key order is first-occurrence order, without duplicates. The entries equal `FrequencyEntries(data)` |
| Frequencies.WeightedCounts | zipper.js:18-25 | summing `count(b) * w(b)` over the entries equals summing `w` over the input, for every weight `w` |
| Frequencies.FrequencySum | zipper.js:18-25 | the counts sum to the input length |
| TreeBuilder.InsertPermutes | zipper.js:41 | inserting adds exactly the inserted node to the multiset of the queue |
| TreeBuilder.InsertBound | zipper.js:41 | inserting keeps a lower bound on frequencies that the node and the queue share |
| TreeBuilder.InsertSorted | zipper.js:41 | inserting into a queue sorted by frequency keeps it sorted |
| TreeBuilder.InsertKeepsOrder | zipper.js:41 | inserting keeps the order of each frequency class, and the new node goes in front of the nodes of its own frequency |
| TreeBuilder.SortIsStableSort | zipper.js:41 | the sort is sorted by frequency and is a permutation of the queue. Nodes of equal frequency keep their relative queue order |
| TreeBuilder.MergeTakesTwoLightest | zipper.js:41-50 | the parent is an internal node with `node1` left and `node2` right. Its frequency is their sum, and `node1.frequency <= node2.frequency <=` every remaining node. The queue loses exactly those two nodes |
| TreeBuilder.UnionOfMerge | zipper.js:43-50 | a merge keeps the multiset of leaves, and of leaf symbols, in the queue |
| TreeBuilder.WeightOfMerge | zipper.js:43-50 | a merge keeps the total frequency of the queue |
| TreeBuilder.BuildSpec | zipper.js:40-54 | from n >= 1 well-weighted nodes the loop ends with one well-weighted root. It holds every leaf of the queue and weighs the queue's total. From two or more nodes the root is internal |
| TreeBuilder.InitialQueueLeaves | zipper.js:35-37 | the initial queue's leaves are exactly the map's (symbol, count) entries |
| TreeBuilder.InitialQueueWeight | zipper.js:35-37 | the initial queue weighs the sum of the map's counts |
| TreeBuilder.BuildHuffmanTree | zipper.js:31-55 | no tree from an empty map. Otherwise exactly n-1 merges, and every parent's frequency is the sum of its children's. The leaves are the map entries, each once, and the root weighs the total count. One entry gives that leaf as the root, and two or more give an internal root |
| CodeTable.Codes | zipper.js:62-69 | the walk assigns a code to exactly the symbols of the tree |
| CodeTable.CodeLeadsToLeaf | zipper.js:62-69 | each code extends the prefix it started from by a path that leads to a leaf with that symbol |
| CodeTable.CodesArePaths | zipper.js:58-74 | every code is the path from the root to its symbol's leaf, so its length is that leaf's depth and at most the tree height. Under an internal root no code is empty |
| CodeTable.CodesPrefixFree | zipper.js:62-69 | no symbol's code is a prefix of another symbol's code |
| CodeTable.LeafPathsAreCodes | zipper.js:62-69 | when no symbol labels two leaves, the path to every leaf is exactly its symbol's code |
| CodeTable.SingleLeafCode | zipper.js:63-64 | one unfolding of the definition of `Codes`: a tree that is a single leaf gives that symbol the empty code |
| Encoder.Padding | zipper.js:88 | the padding length is between 1 and 8 and makes the bit count a multiple of 8 |
| Encoder.EncodedBitsSnoc | zipper.js:82-85 | appending a byte to the input appends its code to the encoded bits |
| Encoder.EncodedLength | zipper.js:82-85 | the encoded length is the sum over distinct bytes of count times code length |
| Encoder.ConcatCodes | zipper.js:82-85 | the loop yields the codes of the input bytes concatenated in input order |
| Encoder.PackBits | zipper.js:91-96 | the loop yields the packing: each byte is the MSB-first value of its 8-bit group, and expanding the bytes gives back the bits |
| Encoder.EncodeFile | zipper.js:77-96 | the output bytes expand to the code bits followed by `Padding` zero bits, a multiple of 8. The returned padding length is that padding |
| Decoder.ExpandBits | unzip.js:19-23 | the loop yields 8 bits per byte, bits 8i..8i+7 being the 8-bit form of byte i |
| Decoder.ParseBinary | unzip.js:27 | `parseInt(s, 2)` is NaN exactly for the empty string, and otherwise the value of `s`, below 2^|s| |
| Decoder.StripPaddingSpec | unzip.js:26-27 | the strip keeps a prefix. With `p` the value of the last 8 bits, it keeps length `8n - p` when `0 < p <= 8n`, and nothing when `p = 0` (`slice(0, -0)`), when `p > 8n`, or when the input is empty |
| Decoder.WalkTree | unzip.js:30-43 | the cursor loop gives `Walk(tree, bits)`: one step per bit, 0 left and 1 right, emitting at each leaf and resetting to the root, and failing when it steps from a leaf |
| Decoder.DecodeFile | unzip.js:14-43 | the decoder is the walk of the stripped expansion of the bytes |
| Decoder.DecodeInternalRoot | unzip.js:19-43 | with an internal root the decoder never fails on any bytes, emits at most 8 symbols per byte, and only symbols of the tree |
| Decoder.WalkSucceeds | unzip.js:32-43 | from an internal node of an internal root the walk cannot fail. It emits at most one symbol per bit, and only symbols of the tree |
| Decoder.InternalRootDecodes | unzip.js:32-43 | with an internal root every bit string decodes, to at most as many symbols as bits, all of them symbols of the tree |
| Decoder.LeafRootFails | unzip.js:33-39 | one unfolding of the definition of `WalkFrom`: with a leaf as the root any non-empty bit string fails with a null child, and the empty one decodes to nothing |
| Decoder.WalkPath | unzip.js:32-42 | the bits of a path from an internal node to a leaf emit that leaf's symbol, and the walk goes on from the root |
| Decoder.WalkDropsPartialPath | unzip.js:32-43 | trailing bits that end at an internal node emit nothing and raise no error |
| Decoder.SampleTree | unzip.js:67-71 | the sample tree is internal and holds 'A', 'B', 'C' |
| Decoder.SampleTreeDecodes | unzip.js:67-71 | in the sample tree 0 leads to 'A', 10 to 'B' and 11 to 'C', so 01011 decodes to ABC, followed by the rest |
| RoundTrip.TreeForSpec | zipper.js:117-120 | for a non-empty input the tree exists and holds exactly the input's bytes, once each, weighing the input length |
| RoundTrip.TreeForTwoSymbols | zipper.js:40-54 | two different bytes in the input make the root internal |
| RoundTrip.Compress | zipper.js:116-126 | the compressor produces output exactly for non-empty inputs |
| RoundTrip.Zip | zipper.js:116-126 | the four steps of the script compute `Compress` |
| RoundTrip.WalkCodes | unzip.js:30-43 | walking the concatenated codes of the tree's code table emits the coded symbols in order, then carries on from the root |
| RoundTrip.BitLevelRoundTrip | unzip.js:30-43 | for an internal root, walking the encoded bits of any message over the tree's symbols gives back the message |
| RoundTrip.CorrectedRoundTrip | zipper.js:88-89 | stripping the encoder's own padding length recovers every input with at least two different bytes |
| RoundTrip.AsWrittenDropsAB | unzip.js:26-27 | "AB" compresses to the single byte 64 and the decoder as written returns nothing. Stripping the encoder's padding returns "AB" |
| RoundTrip.SingleSymbolInput | zipper.js:63-64 | a one-symbol input gives a leaf root, the single byte 0 and padding 8; the decoder as written returns nothing |

## Left out

- File and process I/O (`fs.readFileSync`, `fs.writeFileSync`, `Buffer.from`, `console`, `process.argv`, `process.exit`): bytes come in as a parameter and go out as a result.
- The encoder reads the input file twice, once to count and once to encode. The model passes one input sequence to both steps.
- `decodedSymbols.join('')` and writing it as text depend on the platform's text encoding. The model ends at the decoded symbol sequence.
- The internals of `Array.prototype.sort`, `parseInt` and `toString(2)`: they are modelled by their specifications, a stable insertion sort by frequency and the MSB-first binary value and form.
- `String.prototype.slice` (`Decoder.SlicePosition`, `Decoder.Slice`) and `'0'.repeat` (`Encoder.Zeros`) are engine primitives written out directly by their definitions, with no contract of their own. What they feed is stated by `Decoder.StripPaddingSpec` and `Encoder.EncodeFile`.
- Optimality of the Huffman code: the code neither tests nor claims it.
- The `HuffmanNode` objects have `left` and `right` set after construction. They are never changed again, so a node is an immutable value built with its children. Aliasing between nodes is not modelled.
- The sample tree's frequencies are `null` in the code and 0 in the model. The decoder never reads them.
- The decoder's third branch, a bit that is neither `'0'` nor `'1'`, cannot happen with expanded bytes and is not modelled.
- Encoder.EncodeFile: requires a code for every input byte. Without one, `huffmanCodes.get` would return `undefined` and the string "undefined" would be appended. The script always passes a table that covers the input (`RoundTrip.TreeForSpec`, `CodeTable.Codes`), so that path is unreachable there and not modelled.
- The compressor's crash on empty input (`traverse(undefined)`) is modelled as the result `None`, not as an exception.

## Findings

| source | as written | input that shows it | evidently intended | confidence | as-written member | corrected member |
|---|---|---|---|---|---|---|
| unzip.js:26-27 | the padding count is the value of the last 8 bits of the file, and that many bits are cut from the end, although the encoder (zipper.js:88-89) appends plain zero bits and writes no count | "AB" gives codes A=0 and B=1 and the bits 01 plus six zeros, i.e. the single byte 64. The decoder cuts 64 bits from 8 and returns nothing | cut exactly the zero bits the encoder appended, a length the encoder knows and would have to record | not executed | RoundTrip.AsWrittenDropsAB | RoundTrip.CorrectedRoundTrip |
