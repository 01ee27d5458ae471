/** The compressor script (zipper.js:116-126) and what the decoder of
    unzip.js recovers from its output. */
module RoundTrip {
  import opened Wrappers
  import opened BitString
  import opened HuffmanTree
  import opened Frequencies
  import opened TreeBuilder
  import opened CodeTable
  import opened Encoder
  import opened Decoder

  /** What the compressor produces: the tree it built, the bytes it
      writes, and the padding length it computed (which it does not write). */
  datatype Compressed = Compressed(tree: Tree, bytes: seq<byte>, padding: nat)

  /** The tree `buildHuffmanTree` returns for the frequencies of `data`. */
  function TreeFor(data: seq<byte>): Option<Tree>
  {
    Build(InitialQueue(FrequencyEntries(data)))
  }

  /** For a non-empty input the tree exists, holds exactly the bytes that
      occur, once each, and weighs as much as the input is long. */
  lemma TreeForSpec(data: seq<byte>)
    requires data != []
    ensures var t := TreeFor(data);
            && t.Some?
            && (forall b :: b in SymbolSet(t.value) <==> b in data)
            && DistinctSymbols(t.value)
            && t.value.freq == |data|
  {
    var es := FrequencyEntries(data);
    var q := InitialQueue(es);
    FirstOccurrencesSpec(data);
    assert Symbols(es) == FirstOccurrences(data);
    assert data[0] in FirstOccurrences(data);
    InitialQueueSyms(es);
    InitialQueueWeight(es);
    FrequencySum(data);
    BuildSpec(q);
    var t := Build(q).value;
    SymbolSetOfSyms(t);
    NoDuplicatesOnce(Symbols(es));
    DistinctOfSyms(t);
  }

  /** Two different bytes in the input make the root an internal node. */
  lemma TreeForTwoSymbols(data: seq<byte>, a: byte, b: byte)
    requires a in data && b in data && a != b
    ensures TreeFor(data).Some? && TreeFor(data).value.Node?
  {
    var es := FrequencyEntries(data);
    FirstOccurrencesSpec(data);
    var order := FirstOccurrences(data);
    assert a in order && b in order;
    BuildSpec(InitialQueue(es));
  }

  /** The whole compressor on one input: no output for an empty input
      (where `traverse` would be handed `undefined`). */
  function Compress(data: seq<byte>): (r: Option<Compressed>)
    ensures r.None? <==> data == []
  {
    if data == [] then None
    else
      TreeForSpec(data);
      var tree := TreeFor(data).value;
      var codes := GenerateCodes(tree);
      var bits := EncodedBits(codes, data);
      var padding := Padding(|bits|);
      Some(Compressed(tree, Pack(bits + Zeros(padding)), padding))
  }

  /** Steps 1-4 of zipper.js:116-126 on one input sequence. */
  method Zip(data: seq<byte>) returns (r: Option<Compressed>)
    ensures r == Compress(data)
  {
    var frequencyMap, order := CalculateFrequencies(data);
    var huffmanTree;
    ghost var merges;
    huffmanTree, merges := BuildHuffmanTree(Entries(order, frequencyMap));
    if huffmanTree.None? {
      return None;
    }
    TreeForSpec(data);
    var huffmanCodes := GenerateCodes(huffmanTree.value);
    var encodedBytes, paddingLength := EncodeFile(data, huffmanCodes);
    r := Some(Compressed(huffmanTree.value, encodedBytes, paddingLength));
  }

  /** Walking the concatenated codes of an internal root's code table
      emits the coded symbols, in order, and then goes on from the root. */
  lemma {:induction false} WalkCodes(root: Tree, msg: seq<byte>, rest: Bits)
    requires root.Node? && forall b | b in msg :: b in GenerateCodes(root)
    ensures Walk(root, EncodedBits(GenerateCodes(root), msg) + rest) == Append(msg, Walk(root, rest))
  {
    var w := Walk(root, rest);
    if msg == [] {
      assert [] + rest == rest;
      assert w.Ok? ==> [] + w.value == w.value;
    } else {
      var codes := GenerateCodes(root);
      var tail := EncodedBits(codes, msg[1..]) + rest;
      assert EncodedBits(codes, msg) + rest == codes[msg[0]] + tail;
      CodesArePaths(root);
      WalkPath(root, root, codes[msg[0]], msg[0], tail);
      WalkCodes(root, msg[1..], rest);
      if w.Ok? {
        assert [msg[0]] + (msg[1..] + w.value) == msg + w.value;
      }
    }
  }

  /** Decode after encode at the bit-string level. */
  lemma BitLevelRoundTrip(root: Tree, msg: seq<byte>)
    requires root.Node? && forall b | b in msg :: b in GenerateCodes(root)
    ensures Walk(root, EncodedBits(GenerateCodes(root), msg)) == Ok(msg)
  {
    WalkCodes(root, msg, []);
    assert EncodedBits(GenerateCodes(root), msg) + [] == EncodedBits(GenerateCodes(root), msg);
    assert msg + [] == msg;
  }

  /** A decoder that strips the padding the encoder actually added,
      `padding` zero bits, instead of reading a count from the data. */
  function DecodeWithPadding(compressedData: seq<byte>, huffmanTree: Tree, padding: nat): Result<seq<byte>>
  {
    var bits := Expand(compressedData);
    Walk(huffmanTree, bits[..if padding <= |bits| then |bits| - padding else 0])
  }

  /** With the encoder's own padding length, every input with at least two
      different bytes is recovered exactly. */
  lemma CorrectedRoundTrip(data: seq<byte>, a: byte, b: byte)
    requires a in data && b in data && a != b
    ensures var c := Compress(data);
            c.Some? && DecodeWithPadding(c.value.bytes, c.value.tree, c.value.padding) == Ok(data)
  {
    TreeForSpec(data);
    TreeForTwoSymbols(data, a, b);
    var tree := TreeFor(data).value;
    var codes := GenerateCodes(tree);
    var bits := EncodedBits(codes, data);
    var p := Padding(|bits|);
    var padded := bits + Zeros(p);
    assert |padded| == |bits| + p && (|bits| + p) % 8 == 0;
    ExpandPack(padded);
    assert padded[..|bits|] == bits;
    BitLevelRoundTrip(tree, data);
  }

  /** The tree built for "AB": 'A' on the left of 'B'. */
  lemma TreeForAB()
    ensures TreeFor([65, 66]) == Some(Node(2, Leaf(65, 1), Leaf(66, 1)))
  {
    var data: seq<byte> := [65, 66];
    var first: seq<byte> := [65];
    assert data[..1] == first && first[..0] == [];
    assert FirstOccurrences(first) == [65];
    assert FirstOccurrences(data) == [65, 66];
    assert Occurrences(first, 65) == 1 && Occurrences(first, 66) == 0;
    assert Occurrences(data, 65) == 1 && Occurrences(data, 66) == 1;
    assert FrequencyEntries(data) == [(65, 1), (66, 1)];
    var q := InitialQueue([(65, 1), (66, 1)]);
    assert q == [Leaf(65, 1), Leaf(66, 1)];
    assert SortByFrequency(q) == q;
    assert MergeStep(q) == [Node(2, Leaf(65, 1), Leaf(66, 1))];
  }

  /** "AB" encodes to the bits 01. */
  lemma EncodedAB()
    ensures GenerateCodes(Node(2, Leaf(65, 1), Leaf(66, 1))) == map[65 := [false], 66 := [true]]
    ensures EncodedBits(map[65 := [false], 66 := [true]], [65, 66]) == [false, true]
  {
    assert [] + [false] == [false] && [] + [true] == [true];
    var codes: map<byte, Bits> := map[65 := [false], 66 := [true]];
    var data: seq<byte> := [65, 66];
    assert data[1..] == [66] && data[1..][1..] == [];
  }

  /** The decoder as written loses "AB": the bits 01 are padded to the
      single byte 64, and a count of 64 bits to strip empties the stream. */
  lemma AsWrittenDropsAB()
    ensures var c := Compress([65, 66]);
            && c.Some?
            && c.value.tree == Node(2, Leaf(65, 1), Leaf(66, 1))
            && c.value.bytes == [64]
            && Decode(c.value.bytes, c.value.tree) == Ok([])
            && DecodeWithPadding(c.value.bytes, c.value.tree, c.value.padding) == Ok([65, 66])
  {
    var data: seq<byte> := [65, 66];
    CorrectedRoundTrip(data, 65, 66);
    TreeForAB();
    var tree := Node(2, Leaf(65, 1), Leaf(66, 1));
    EncodedAB();
    PaddedAB();
  }

  /** The bits 01 padded with six zeros are the byte 64, and the decoder as
      written strips 64 bits from the eight it expands back to. */
  lemma PaddedAB()
    ensures Pack([false, true] + Zeros(Padding(2))) == [64]
    ensures Decode([64], Node(2, Leaf(65, 1), Leaf(66, 1))) == Ok([])
  {
    var padded := [false, true] + Zeros(6);
    assert padded == ByteBits(64);
    ByteOfByteBits(64);
    assert Expand([64]) == padded;
    StripPaddingSpec(padded);
    assert TrailingCount(padded) == 64;
  }

  lemma {:induction false} EmptyCodes(codes: map<byte, Bits>, data: seq<byte>)
    requires forall b | b in data :: b in codes && codes[b] == []
    ensures EncodedBits(codes, data) == []
  {
    if data != [] {
      EmptyCodes(codes, data[1..]);
    }
  }

  /** A one-symbol input builds a single leaf carrying the whole count. */
  lemma SingleSymbolTree(data: seq<byte>, s: byte)
    requires data != [] && forall i | 0 <= i < |data| :: data[i] == s
    ensures TreeFor(data) == Some(Leaf(s, |data|))
  {
    TreeForSpec(data);
    var tree := TreeFor(data).value;
    assert SymbolSet(tree) == {s} by {
      forall b ensures b in SymbolSet(tree) <==> b == s {
        assert b in data <==> b == s;
      }
    }
    if tree.Node? {
      SymbolSetNonEmpty(tree.left);
      SymbolSetNonEmpty(tree.right);
      assert false;
    }
  }

  /** A one-symbol input gets the empty code, so the encoder writes one zero
      byte and no decoder can tell how many symbols there were; the decoder
      as written returns nothing. */
  lemma SingleSymbolInput(data: seq<byte>, s: byte)
    requires data != [] && forall i | 0 <= i < |data| :: data[i] == s
    ensures var c := Compress(data);
            && c.Some?
            && c.value.tree == Leaf(s, |data|)
            && c.value.bytes == [0]
            && c.value.padding == 8
            && Decode(c.value.bytes, c.value.tree) == Ok([])
  {
    SingleSymbolTree(data, s);
    var codes := GenerateCodes(Leaf(s, |data|));
    assert codes == map[s := []];
    EmptyCodes(codes, data);
    ZeroByte();
  }

  /** Eight zero bits are the byte 0, and a count of 0 strips everything. */
  lemma ZeroByte()
    ensures Pack(Zeros(8)) == [0]
    ensures Expand([0]) == Zeros(8)
    ensures StripPadding(Zeros(8)) == []
  {
    var padded := Zeros(8);
    assert padded == ByteBits(0);
    ByteOfByteBits(0);
    assert Expand([0]) == padded;
    StripPaddingSpec(padded);
  }
}
