/** The Huffman tree shared by both scripts (`HuffmanNode`, zipper.js:4-11 and
    unzip.js:4-11). A node whose `symbol` is not null is a leaf; a node whose
    `symbol` is null has its `left` and `right` set right after construction
    (zipper.js:46-48) and never changed again, so a tree is a value. */
module HuffmanTree {
  import opened Wrappers
  import opened BitString

  datatype Tree = Leaf(sym: byte, freq: nat) | Node(freq: nat, left: Tree, right: Tree)

  /** The (symbol, frequency) pairs at the leaves, with multiplicity. */
  function Leaves(t: Tree): multiset<(byte, nat)>
  {
    match t
    case Leaf(s, f) => multiset{(s, f)}
    case Node(_, l, r) => Leaves(l) + Leaves(r)
  }

  /** The symbols at the leaves, with multiplicity. */
  function Syms(t: Tree): multiset<byte>
  {
    match t
    case Leaf(s, _) => multiset{s}
    case Node(_, l, r) => Syms(l) + Syms(r)
  }

  /** The set of symbols at the leaves. */
  function SymbolSet(t: Tree): set<byte>
  {
    match t
    case Leaf(s, _) => {s}
    case Node(_, l, r) => SymbolSet(l) + SymbolSet(r)
  }

  lemma {:induction false} SymbolSetOfSyms(t: Tree)
    ensures forall s :: s in SymbolSet(t) <==> s in Syms(t)
  {
    if t.Node? {
      SymbolSetOfSyms(t.left);
      SymbolSetOfSyms(t.right);
    }
  }

  /** No symbol labels two leaves. */
  predicate DistinctSymbols(t: Tree)
  {
    match t
    case Leaf(_, _) => true
    case Node(_, l, r) => SymbolSet(l) !! SymbolSet(r) && DistinctSymbols(l) && DistinctSymbols(r)
  }

  /** A tree whose symbol multiset holds each symbol once has distinct symbols. */
  lemma {:induction false} DistinctOfSyms(t: Tree)
    requires forall s | s in Syms(t) :: Syms(t)[s] == 1
    ensures DistinctSymbols(t)
  {
    if t.Node? {
      var l, r := t.left, t.right;
      SymbolSetOfSyms(l);
      SymbolSetOfSyms(r);
      forall s | s in Syms(l)
        ensures Syms(l)[s] == 1 && s !in Syms(r)
      {
        assert Syms(t)[s] == Syms(l)[s] + Syms(r)[s];
      }
      forall s | s in Syms(r)
        ensures Syms(r)[s] == 1
      {
        assert Syms(t)[s] == Syms(l)[s] + Syms(r)[s];
      }
      DistinctOfSyms(l);
      DistinctOfSyms(r);
    }
  }

  /** Every internal node weighs the sum of its two children. */
  predicate WellWeighted(t: Tree)
  {
    match t
    case Leaf(_, _) => true
    case Node(f, l, r) => f == l.freq + r.freq && WellWeighted(l) && WellWeighted(r)
  }

  function Height(t: Tree): nat
  {
    match t
    case Leaf(_, _) => 0
    case Node(_, l, r) => 1 + (if Height(l) < Height(r) then Height(r) else Height(l))
  }

  /** Every tree holds at least one symbol. */
  lemma {:induction false} SymbolSetNonEmpty(t: Tree)
    ensures SymbolSet(t) != {}
  {
    if t.Node? {
      SymbolSetNonEmpty(t.left);
    }
  }

  /** The node reached from `t` by taking the left child on each `false`
      and the right child on each `true`; None once a path runs past a leaf
      (where the JavaScript child would be null). */
  function Follow(t: Tree, path: Bits): Option<Tree>
  {
    if path == [] then Some(t)
    else match t
      case Leaf(_, _) => None
      case Node(_, l, r) => Follow(if path[0] then r else l, path[1..])
  }

  /** `path` leads from `t` to a leaf labelled `s`. */
  predicate LeadsTo(t: Tree, path: Bits, s: byte)
  {
    var n := Follow(t, path);
    n.Some? && n.value.Leaf? && n.value.sym == s
  }

  /** A path that reaches a node is no longer than the tree is high, and a
      leaf it reaches carries one of the tree's symbols. */
  lemma {:induction false} FollowBounds(t: Tree, path: Bits)
    requires Follow(t, path).Some?
    ensures |path| <= Height(t)
    ensures Follow(t, path).value.Leaf? ==> Follow(t, path).value.sym in SymbolSet(t)
  {
    if path != [] {
      var child := if path[0] then t.right else t.left;
      FollowBounds(child, path[1..]);
    }
  }

  /** Following a concatenation is following its two parts in turn. */
  lemma {:induction false} FollowAppend(t: Tree, p: Bits, q: Bits)
    ensures Follow(t, p + q) == (match Follow(t, p)
                                 case None => None
                                 case Some(n) => Follow(n, q))
  {
    if p != [] {
      assert (p + q)[0] == p[0] && (p + q)[1..] == p[1..] + q;
      if t.Node? {
        FollowAppend(if p[0] then t.right else t.left, p[1..], q);
      }
    } else {
      assert p + q == q;
    }
  }
}
