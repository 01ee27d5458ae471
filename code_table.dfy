/** Code assignment, `generateHuffmanCodes` and its helper `traverse`
    (zipper.js:58-74). `traverse` writes into a shared `Map`; the model
    returns that map. A later `set` of a key already present overwrites it,
    and the right subtree is walked after the left one, so the union below
    is right-biased, as Dafny's `+` on maps is. */
module CodeTable {
  import opened Wrappers
  import opened BitString
  import opened HuffmanTree

  /** `traverse(t, code)`: every leaf records the path that reached it,
      '0' for each left step and '1' for each right step. */
  function Codes(t: Tree, code: Bits): (r: map<byte, Bits>)
    ensures r.Keys == SymbolSet(t)
  {
    match t
    case Leaf(s, _) => map[s := code]
    case Node(_, l, rt) => Codes(l, code + [false]) + Codes(rt, code + [true])
  }

  /** `generateHuffmanCodes(root)` (zipper.js:58-74). */
  function GenerateCodes(root: Tree): map<byte, Bits>
  {
    Codes(root, [])
  }

  predicate IsPrefix(p: Bits, q: Bits)
  {
    |p| <= |q| && q[..|p|] == p
  }

  /** Each recorded code extends the starting code by a path from `t` to a
      leaf of that very symbol. */
  lemma {:induction false} CodeLeadsToLeaf(t: Tree, code: Bits, s: byte)
    requires s in Codes(t, code)
    ensures var c := Codes(t, code)[s];
            |code| <= |c| && c[..|code|] == code && LeadsTo(t, c[|code|..], s)
  {
    var c := Codes(t, code)[s];
    match t
    case Leaf(_, _) =>
      assert c[|code|..] == [];
    case Node(_, l, rt) =>
      var bit := s in Codes(rt, code + [true]);
      var child := if bit then rt else l;
      var start := code + [bit];
      assert c == Codes(child, start)[s];
      CodeLeadsToLeaf(child, start, s);
      assert c[..|start|] == start;
      assert c[..|code|] == start[..|code|];
      var path := c[|code|..];
      assert path[0] == bit && path[1..] == c[|start|..];
      assert Follow(t, path) == Follow(child, path[1..]);
  }

  /** Every symbol's code is a path from the root to a leaf of that symbol,
      so its length is that leaf's depth, at most the tree's height; under an
      internal root no code is empty. */
  lemma CodesArePaths(root: Tree)
    ensures forall s | s in GenerateCodes(root) ::
              && LeadsTo(root, GenerateCodes(root)[s], s)
              && |GenerateCodes(root)[s]| <= Height(root)
              && (root.Node? ==> GenerateCodes(root)[s] != [])
  {
    forall s | s in GenerateCodes(root)
      ensures LeadsTo(root, GenerateCodes(root)[s], s)
      ensures |GenerateCodes(root)[s]| <= Height(root)
    {
      var c := GenerateCodes(root)[s];
      CodeLeadsToLeaf(root, [], s);
      assert c[0..] == c;
      FollowBounds(root, c);
    }
  }

  /** No symbol's code is a prefix of another symbol's code. */
  lemma CodesPrefixFree(root: Tree)
    ensures forall a, b | a in GenerateCodes(root) && b in GenerateCodes(root) && a != b ::
              !IsPrefix(GenerateCodes(root)[a], GenerateCodes(root)[b])
  {
    var codes := GenerateCodes(root);
    CodesArePaths(root);
    forall a, b | a in codes && b in codes && a != b
      ensures !IsPrefix(codes[a], codes[b])
    {
      if IsPrefix(codes[a], codes[b]) {
        var ca, cb := codes[a], codes[b];
        var rest := cb[|ca|..];
        assert cb == ca + rest;
        FollowAppend(root, ca, rest);
        assert false;
      }
    }
  }

  /** When no symbol labels two leaves, the path to every leaf is exactly
      the code recorded for its symbol: codes and leaves correspond one to one. */
  lemma {:induction false} LeafPathsAreCodes(t: Tree, code: Bits, path: Bits, s: byte)
    requires DistinctSymbols(t) && LeadsTo(t, path, s)
    ensures s in Codes(t, code) && Codes(t, code)[s] == code + path
  {
    if path == [] {
      assert t.Leaf?;
    } else {
      var l, rt := t.left, t.right;
      var child := if path[0] then rt else l;
      var start := code + [path[0]];
      assert Follow(t, path) == Follow(child, path[1..]);
      LeafPathsAreCodes(child, start, path[1..], s);
      assert start + path[1..] == code + path;
      if !path[0] {
        FollowBounds(l, path[1..]);
        assert s !in SymbolSet(rt);
      }
    }
  }

  /** With one distinct symbol the root is a leaf and its code is empty. */
  lemma SingleLeafCode(s: byte, f: nat)
    ensures GenerateCodes(Leaf(s, f)) == map[s := []]
  {
  }
}
