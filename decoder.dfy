/** `decodeFile` (unzip.js:14-52) without its file I/O: expand the bytes to
    bits, strip what the last eight bits say is padding, and walk the tree. */
module Decoder {
  import opened Wrappers
  import opened BitString
  import opened HuffmanTree

  /** The loop of unzip.js:20-23: every byte becomes its eight bits,
      most-significant first. */
  method ExpandBits(compressedData: seq<byte>) returns (decodedBits: Bits)
    ensures decodedBits == Expand(compressedData)
    ensures |decodedBits| == 8 * |compressedData|
    ensures forall i | 0 <= i < |compressedData| :: decodedBits[8 * i..8 * i + 8] == ByteBits(compressedData[i])
  {
    decodedBits := [];
    for i := 0 to |compressedData|
      invariant decodedBits == Expand(compressedData[..i])
    {
      ghost var next := compressedData[..i + 1];
      assert next[..i] == compressedData[..i] && next[i] == compressedData[i];
      decodedBits := decodedBits + ByteBits(compressedData[i]);
    }
    assert compressedData[..|compressedData|] == compressedData;
    forall i | 0 <= i < |compressedData|
      ensures decodedBits[8 * i..8 * i + 8] == ByteBits(compressedData[i])
    {
      ExpandAt(compressedData, i);
    }
  }

  /** How `String.prototype.slice` turns an integer argument into a
      position: a negative one counts from the end, and both are clamped to
      the string. */
  function SlicePosition(len: nat, k: int): nat
  {
    if k < 0 then (if len + k < 0 then 0 else len + k)
    else if k < len then k else len
  }

  /** `s.slice(start, end)` for integer arguments. */
  function Slice(s: Bits, start: int, end: int): Bits
  {
    var from, to := SlicePosition(|s|, start), SlicePosition(|s|, end);
    if from < to then s[from..to] else []
  }

  /** `parseInt(s, 2)` on a string of '0' and '1': NaN (None) for the
      empty string. */
  function ParseBinary(s: Bits): (r: Option<nat>)
    ensures r.None? <==> s == []
    ensures r.Some? ==> r.value == Value(s) && r.value < Pow2(|s|)
  {
    ValueBound(s);
    if s == [] then None else Some(Value(s))
  }

  /** unzip.js:26-27. The last eight bits are read as a count and that many
      bits are cut from the end. `-parseInt(...)` is NaN for an empty
      string, and `slice` reads NaN, like -0, as position 0. */
  function StripPadding(decodedBits: Bits): Bits
  {
    var paddingLength := Slice(decodedBits, -8, |decodedBits|);
    var count := ParseBinary(paddingLength);
    var end: int := if count.None? then 0 else -(count.value as int);
    Slice(decodedBits, 0, end)
  }

  /** The count the decoder reads: the value of the last (up to) eight bits. */
  function TrailingCount(bits: Bits): nat
  {
    Value(bits[if |bits| < 8 then 0 else |bits| - 8..])
  }

  /** What survives the strip: a prefix, `p` bits shorter for a count `p`
      between 1 and the length, and nothing at all for a count of 0 (the
      slice end is -0), a count beyond the length, or an empty input. */
  lemma StripPaddingSpec(bits: Bits)
    ensures var r, p := StripPadding(bits), TrailingCount(bits);
            && r == bits[..|r|]
            && |r| == (if 0 < p <= |bits| then |bits| - p else 0)
  {
    var paddingLength := Slice(bits, -8, |bits|);
    assert paddingLength == bits[if |bits| < 8 then 0 else |bits| - 8..];
  }

  /** Prefix a symbol to a successful decoding. */
  function Prepend(s: byte, r: Result<seq<byte>>): Result<seq<byte>>
  {
    match r
    case Ok(v) => Ok([s] + v)
    case Err(e) => Err(e)
  }

  /** Prefix a sequence of symbols to a successful decoding. */
  function Append(xs: seq<byte>, r: Result<seq<byte>>): Result<seq<byte>>
  {
    match r
    case Ok(v) => Ok(xs + v)
    case Err(e) => Err(e)
  }

  lemma AppendPrepend(xs: seq<byte>, s: byte, r: Result<seq<byte>>)
    ensures Append(xs, Prepend(s, r)) == Append(xs + [s], r)
  {
    if r.Ok? {
      assert xs + ([s] + r.value) == (xs + [s]) + r.value;
    }
  }

  /** The tree walk of unzip.js:30-43 from node `cursor`: each bit moves to
      a child, reaching a leaf emits its symbol and returns to `root`, and
      stepping from a leaf fails because its child is null. */
  function WalkFrom(root: Tree, cursor: Tree, bits: Bits): Result<seq<byte>>
    decreases |bits|
  {
    if bits == [] then Ok([])
    else match cursor
      case Leaf(_, _) => Err(NullNode)
      case Node(_, l, r) =>
        var next := if bits[0] then r else l;
        if next.Leaf? then Prepend(next.sym, WalkFrom(root, root, bits[1..]))
        else WalkFrom(root, next, bits[1..])
  }

  function Walk(root: Tree, bits: Bits): Result<seq<byte>>
  {
    WalkFrom(root, root, bits)
  }

  /** The loop of unzip.js:30-43. */
  method WalkTree(huffmanTree: Tree, decodedBits: Bits) returns (r: Result<seq<byte>>)
    ensures r == Walk(huffmanTree, decodedBits)
  {
    var currentNode := huffmanTree;
    var decodedSymbols: seq<byte> := [];
    assert decodedBits[0..] == decodedBits;
    ghost var all := Walk(huffmanTree, decodedBits);
    assert all.Ok? ==> [] + all.value == all.value;
    for i := 0 to |decodedBits|
      invariant Walk(huffmanTree, decodedBits)
                == Append(decodedSymbols, WalkFrom(huffmanTree, currentNode, decodedBits[i..]))
    {
      ghost var rest := decodedBits[i..];
      assert rest[0] == decodedBits[i] && rest[1..] == decodedBits[i + 1..];
      if currentNode.Leaf? {
        assert WalkFrom(huffmanTree, currentNode, rest) == Err(NullNode);
        return Err(NullNode);
      }
      currentNode := if decodedBits[i] then currentNode.right else currentNode.left;
      if currentNode.Leaf? {
        AppendPrepend(decodedSymbols, currentNode.sym, WalkFrom(huffmanTree, huffmanTree, decodedBits[i + 1..]));
        decodedSymbols := decodedSymbols + [currentNode.sym];
        currentNode := huffmanTree;
      }
    }
    assert decodedBits[|decodedBits|..] == [];
    assert decodedSymbols + [] == decodedSymbols;
    r := Ok(decodedSymbols);
  }

  /** The whole decoder on the bytes of a compressed file. */
  function Decode(compressedData: seq<byte>, huffmanTree: Tree): Result<seq<byte>>
  {
    Walk(huffmanTree, StripPadding(Expand(compressedData)))
  }

  method DecodeFile(compressedData: seq<byte>, huffmanTree: Tree) returns (decodedSymbols: Result<seq<byte>>)
    ensures decodedSymbols == Decode(compressedData, huffmanTree)
  {
    var decodedBits := ExpandBits(compressedData);
    decodedBits := StripPadding(decodedBits);
    decodedSymbols := WalkTree(huffmanTree, decodedBits);
  }

  /** From an internal node of an internal root the walk never fails,
      emits at most one symbol per bit, and emits only symbols of the tree. */
  lemma {:induction false} WalkSucceeds(root: Tree, cursor: Tree, bits: Bits)
    requires root.Node? && cursor.Node? && SymbolSet(cursor) <= SymbolSet(root)
    ensures var r := WalkFrom(root, cursor, bits);
            && r.Ok?
            && |r.value| <= |bits|
            && forall i | 0 <= i < |r.value| :: r.value[i] in SymbolSet(root)
    decreases |bits|
  {
    if bits != [] {
      var next := if bits[0] then cursor.right else cursor.left;
      if next.Leaf? {
        WalkSucceeds(root, root, bits[1..]);
        assert next.sym in SymbolSet(cursor);
      } else {
        WalkSucceeds(root, next, bits[1..]);
      }
    }
  }

  /** The decoder on any bits with an internal root. */
  lemma InternalRootDecodes(root: Tree, bits: Bits)
    requires root.Node?
    ensures var r := Walk(root, bits);
            && r.Ok?
            && |r.value| <= |bits|
            && forall i | 0 <= i < |r.value| :: r.value[i] in SymbolSet(root)
  {
    WalkSucceeds(root, root, bits);
  }

  /** The whole decoder with an internal root: it never fails, emits at
      most eight symbols per input byte, and only symbols of the tree. */
  lemma DecodeInternalRoot(compressedData: seq<byte>, huffmanTree: Tree)
    requires huffmanTree.Node?
    ensures var r := Decode(compressedData, huffmanTree);
            && r.Ok?
            && |r.value| <= 8 * |compressedData|
            && forall i | 0 <= i < |r.value| :: r.value[i] in SymbolSet(huffmanTree)
  {
    var bits := Expand(compressedData);
    StripPaddingSpec(bits);
    InternalRootDecodes(huffmanTree, StripPadding(bits));
  }

  /** A tree made of a single leaf (what a one-symbol input builds) makes
      the walk fail on the first bit: the leaf's child is null. */
  lemma LeafRootFails(s: byte, f: nat, bits: Bits)
    ensures Walk(Leaf(s, f), bits) == if bits == [] then Ok([]) else Err(NullNode)
  {
  }

  /** Bits along `path` from an internal `cursor` to a leaf `s` emit `s` and
      continue from the root. */
  lemma {:induction false} WalkPath(root: Tree, cursor: Tree, path: Bits, s: byte, rest: Bits)
    requires cursor.Node? && LeadsTo(cursor, path, s)
    ensures WalkFrom(root, cursor, path + rest) == Prepend(s, Walk(root, rest))
    decreases |path|
  {
    var bits := path + rest;
    assert path != [];
    assert bits[0] == path[0] && bits[1..] == path[1..] + rest;
    var next := if path[0] then cursor.right else cursor.left;
    assert Follow(cursor, path) == Follow(next, path[1..]);
    if next.Leaf? {
      assert path[1..] == [];
      assert path[1..] + rest == rest;
    } else {
      WalkPath(root, next, path[1..], s, rest);
    }
  }

  /** Trailing bits that stop at an internal node, short of any leaf, emit
      nothing: the partial code is dropped when the bits run out. */
  lemma {:induction false} WalkDropsPartialPath(root: Tree, cursor: Tree, path: Bits)
    requires Follow(cursor, path).Some? && Follow(cursor, path).value.Node?
    ensures WalkFrom(root, cursor, path) == Ok([])
    decreases |path|
  {
    if path != [] {
      var next := if path[0] then cursor.right else cursor.left;
      assert Follow(cursor, path) == Follow(next, path[1..]);
      if next.Leaf? {
        assert false;
      } else {
        WalkDropsPartialPath(root, next, path[1..]);
      }
    }
  }

  /** The tree hard-coded at unzip.js:67-71: 'A' on the left of the root,
      'B' and 'C' under its right child. Its frequencies are null there and
      0 here. */
  function SampleTree(): (t: Tree)
    ensures t.Node? && SymbolSet(t) == {65, 66, 67}
  {
    Node(0, Leaf(65, 0), Node(0, Leaf(66, 0), Leaf(67, 0)))
  }

  /** With the sample tree, 0 decodes to 'A', 10 to 'B' and 11 to 'C'. */
  lemma SampleTreeDecodes(rest: Bits)
    ensures LeadsTo(SampleTree(), [false], 65)
    ensures LeadsTo(SampleTree(), [true, false], 66)
    ensures LeadsTo(SampleTree(), [true, true], 67)
    ensures Walk(SampleTree(), [false, true, false, true, true] + rest)
            == Append([65, 66, 67], Walk(SampleTree(), rest))
  {
    var t := SampleTree();
    assert [false, true, false, true, true] + rest == [false] + ([true, false] + ([true, true] + rest));
    WalkPath(t, t, [true, true], 67, rest);
    WalkPath(t, t, [true, false], 66, [true, true] + rest);
    WalkPath(t, t, [false], 65, [true, false] + ([true, true] + rest));
    var w := Walk(t, rest);
    if w.Ok? {
      assert [65] + ([66] + ([67] + w.value)) == [65, 66, 67] + w.value;
    }
  }
}
