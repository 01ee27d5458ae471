/** Tree construction, `buildHuffmanTree` (zipper.js:31-55).

    The priority queue is an array that is re-sorted by frequency with the
    stable `Array.prototype.sort` on every iteration; the two front nodes are
    shifted off and merged, and the parent is pushed at the back. The sort
    is modelled by its specification: a stable sort by frequency, written
    as an insertion sort on `seq<Tree>`. */
module TreeBuilder {
  import opened Wrappers
  import opened BitString
  import opened HuffmanTree
  import opened Frequencies

  /** One leaf per map entry, in entry order (zipper.js:35-37). */
  function InitialQueue(es: seq<(byte, nat)>): seq<Tree>
  {
    seq(|es|, i requires 0 <= i < |es| => Leaf(es[i].0, es[i].1))
  }

  /** The symbols of a sequence of entries, in order. */
  function Symbols(es: seq<(byte, nat)>): seq<byte>
  {
    seq(|es|, i requires 0 <= i < |es| => es[i].0)
  }

  predicate SortedByFrequency(q: seq<Tree>)
  {
    forall i, j | 0 <= i < j < |q| :: q[i].freq <= q[j].freq
  }

  /** The nodes of frequency `k`, in queue order. */
  function WithFrequency(q: seq<Tree>, k: nat): seq<Tree>
  {
    if q == [] then []
    else if q[0].freq == k then [q[0]] + WithFrequency(q[1..], k)
    else WithFrequency(q[1..], k)
  }

  /** Places `x` in front of the first node at least as heavy as it. */
  function Insert(x: Tree, s: seq<Tree>): (r: seq<Tree>)
    ensures |r| == |s| + 1
  {
    if s == [] then [x]
    else if x.freq <= s[0].freq then [x] + s
    else [s[0]] + Insert(x, s[1..])
  }

  /** `priorityQueue.sort((a, b) => a.frequency - b.frequency)` (zipper.js:41). */
  function SortByFrequency(q: seq<Tree>): (r: seq<Tree>)
    ensures |r| == |q|
  {
    if q == [] then [] else Insert(q[0], SortByFrequency(q[1..]))
  }

  lemma {:induction false} InsertPermutes(x: Tree, s: seq<Tree>)
    ensures multiset(Insert(x, s)) == multiset(s) + multiset{x}
  {
    if s != [] && x.freq > s[0].freq {
      InsertPermutes(x, s[1..]);
      assert s == [s[0]] + s[1..];
    }
  }

  /** Every node of `Insert(x, s)` is at least `lo` when `x` and every node
      of `s` are. */
  lemma {:induction false} InsertBound(x: Tree, s: seq<Tree>, lo: nat)
    requires lo <= x.freq && forall i | 0 <= i < |s| :: lo <= s[i].freq
    ensures forall i | 0 <= i < |Insert(x, s)| :: lo <= Insert(x, s)[i].freq
  {
    if s != [] && x.freq > s[0].freq {
      InsertBound(x, s[1..], lo);
      assert Insert(x, s) == [s[0]] + Insert(x, s[1..]);
    }
  }

  lemma {:induction false} InsertSorted(x: Tree, s: seq<Tree>)
    requires SortedByFrequency(s)
    ensures SortedByFrequency(Insert(x, s))
  {
    if s != [] && x.freq > s[0].freq {
      var tail := Insert(x, s[1..]);
      assert Insert(x, s) == [s[0]] + tail;
      InsertSorted(x, s[1..]);
      InsertBound(x, s[1..], s[0].freq);
    }
  }

  lemma WithFrequencyCons(t: Tree, s: seq<Tree>, k: nat)
    ensures WithFrequency([t] + s, k) == if t.freq == k then [t] + WithFrequency(s, k) else WithFrequency(s, k)
  {
  }

  /** Inserting keeps the relative order of each frequency class, and `x`
      goes in front of the nodes that weigh as much as it does. */
  lemma {:induction false} InsertKeepsOrder(x: Tree, s: seq<Tree>, k: nat)
    ensures WithFrequency(Insert(x, s), k)
            == if x.freq == k then [x] + WithFrequency(s, k) else WithFrequency(s, k)
  {
    if s == [] || x.freq <= s[0].freq {
      assert Insert(x, s) == [x] + s;
      WithFrequencyCons(x, s, k);
    } else {
      var tail := Insert(x, s[1..]);
      assert Insert(x, s) == [s[0]] + tail;
      assert [s[0]] + s[1..] == s;
      WithFrequencyCons(s[0], tail, k);
      WithFrequencyCons(s[0], s[1..], k);
      InsertKeepsOrder(x, s[1..], k);
    }
  }

  lemma {:induction false} SortSorted(q: seq<Tree>)
    ensures SortedByFrequency(SortByFrequency(q))
  {
    if q != [] {
      SortSorted(q[1..]);
      InsertSorted(q[0], SortByFrequency(q[1..]));
    }
  }

  lemma {:induction false} SortPermutes(q: seq<Tree>)
    ensures multiset(SortByFrequency(q)) == multiset(q)
  {
    if q != [] {
      SortPermutes(q[1..]);
      InsertPermutes(q[0], SortByFrequency(q[1..]));
      assert q == [q[0]] + q[1..];
    }
  }

  lemma {:induction false} SortKeepsOrder(q: seq<Tree>, k: nat)
    ensures WithFrequency(SortByFrequency(q), k) == WithFrequency(q, k)
  {
    if q != [] {
      SortKeepsOrder(q[1..], k);
      InsertKeepsOrder(q[0], SortByFrequency(q[1..]), k);
    }
  }

  /** The sort is a stable sort by frequency: sorted, a permutation of its
      input, and nodes of equal frequency keep their queue order. */
  lemma SortIsStableSort(q: seq<Tree>)
    ensures SortedByFrequency(SortByFrequency(q))
    ensures multiset(SortByFrequency(q)) == multiset(q)
    ensures forall k: nat :: WithFrequency(SortByFrequency(q), k) == WithFrequency(q, k)
  {
    SortSorted(q);
    SortPermutes(q);
    forall k: nat
      ensures WithFrequency(SortByFrequency(q), k) == WithFrequency(q, k)
    {
      SortKeepsOrder(q, k);
    }
  }

  /** Shift the two front nodes and push their parent (zipper.js:43-50). */
  function MergeFront(s: seq<Tree>): (r: seq<Tree>)
    requires |s| >= 2
    ensures |r| == |s| - 1
  {
    s[2..] + [Node(s[0].freq + s[1].freq, s[0], s[1])]
  }

  /** One iteration of the loop body (zipper.js:41-50). */
  function MergeStep(q: seq<Tree>): (r: seq<Tree>)
    requires |q| >= 2
    ensures |r| == |q| - 1
  {
    MergeFront(SortByFrequency(q))
  }

  /** A merge takes the two lightest nodes, lighter one first, and replaces
      them by a parent of their summed frequency at the back of the queue. */
  lemma MergeTakesTwoLightest(q: seq<Tree>)
    requires |q| >= 2
    ensures var r := MergeStep(q);
            var rest := r[..|r| - 1];
            var parent := r[|r| - 1];
            && parent.Node?
            && parent.freq == parent.left.freq + parent.right.freq
            && parent.left.freq <= parent.right.freq
            && (forall t | t in rest :: parent.right.freq <= t.freq)
            && multiset(q) == multiset{parent.left, parent.right} + multiset(rest)
  {
    var s := SortByFrequency(q);
    SortIsStableSort(q);
    var r := MergeStep(q);
    assert r[..|r| - 1] == s[2..];
    assert s == [s[0], s[1]] + s[2..];
    forall t | t in s[2..]
      ensures s[1].freq <= t.freq
    {
      var j :| 0 <= j < |s[2..]| && s[2..][j] == t;
      assert s[j + 2] == t;
    }
  }

  /** What the loop leaves in `priorityQueue[0]`; None for an empty queue,
      where `priorityQueue[0]` is `undefined` (zipper.js:54). */
  function Build(q: seq<Tree>): Option<Tree>
    decreases |q|
  {
    if |q| == 0 then None
    else if |q| == 1 then Some(q[0])
    else Build(MergeStep(q))
  }

  /** The union of `f` over the nodes of a queue (`f` is `Leaves` or `Syms`). */
  function QueueUnion<T>(q: seq<Tree>, f: Tree -> multiset<T>): multiset<T>
  {
    if q == [] then multiset{} else f(q[0]) + QueueUnion(q[1..], f)
  }

  function QueueWeight(q: seq<Tree>): nat
  {
    if q == [] then 0 else q[0].freq + QueueWeight(q[1..])
  }

  lemma {:induction false} UnionOfAppend<T>(a: seq<Tree>, b: seq<Tree>, f: Tree -> multiset<T>)
    ensures QueueUnion(a + b, f) == QueueUnion(a, f) + QueueUnion(b, f)
  {
    if a == [] {
      assert a + b == b;
    } else {
      var ab := a + b;
      assert ab[0] == a[0] && ab[1..] == a[1..] + b;
      assert QueueUnion(ab, f) == f(a[0]) + QueueUnion(a[1..] + b, f);
      UnionOfAppend(a[1..], b, f);
    }
  }

  lemma {:induction false} WeightOfAppend(a: seq<Tree>, b: seq<Tree>)
    ensures QueueWeight(a + b) == QueueWeight(a) + QueueWeight(b)
  {
    if a == [] {
      assert a + b == b;
    } else {
      var ab := a + b;
      assert ab[0] == a[0] && ab[1..] == a[1..] + b;
      WeightOfAppend(a[1..], b);
    }
  }

  lemma {:induction false} UnionOfInsert<T>(x: Tree, s: seq<Tree>, f: Tree -> multiset<T>)
    ensures QueueUnion(Insert(x, s), f) == f(x) + QueueUnion(s, f)
  {
    if s == [] {
      assert Insert(x, s) == [x];
    } else if x.freq <= s[0].freq {
      var r := [x] + s;
      assert r[0] == x && r[1..] == s;
    } else {
      var tail := Insert(x, s[1..]);
      var r := [s[0]] + tail;
      assert Insert(x, s) == r;
      assert r[0] == s[0] && r[1..] == tail;
      assert QueueUnion(r, f) == f(s[0]) + QueueUnion(tail, f);
      UnionOfInsert(x, s[1..], f);
    }
  }

  lemma {:induction false} WeightOfInsert(x: Tree, s: seq<Tree>)
    ensures QueueWeight(Insert(x, s)) == x.freq + QueueWeight(s)
  {
    if s == [] {
      assert Insert(x, s) == [x];
    } else if x.freq <= s[0].freq {
      var r := [x] + s;
      assert r[0] == x && r[1..] == s;
    } else {
      var tail := Insert(x, s[1..]);
      var r := [s[0]] + tail;
      assert Insert(x, s) == r;
      assert r[0] == s[0] && r[1..] == tail;
      WeightOfInsert(x, s[1..]);
    }
  }

  /** Sorting does not change the union of `f` over the queue. */
  lemma {:induction false} UnionOfSort<T>(q: seq<Tree>, f: Tree -> multiset<T>)
    ensures QueueUnion(SortByFrequency(q), f) == QueueUnion(q, f)
  {
    if q != [] {
      UnionOfInsert(q[0], SortByFrequency(q[1..]), f);
      UnionOfSort(q[1..], f);
    }
  }

  /** Sorting does not change the total weight of the queue. */
  lemma {:induction false} WeightOfSort(q: seq<Tree>)
    ensures QueueWeight(SortByFrequency(q)) == QueueWeight(q)
  {
    if q != [] {
      WeightOfInsert(q[0], SortByFrequency(q[1..]));
      WeightOfSort(q[1..]);
    }
  }

  lemma UnionOfMergeFront<T>(s: seq<Tree>, f: Tree -> multiset<T>)
    requires |s| >= 2
    requires forall w, l, r :: f(Node(w, l, r)) == f(l) + f(r)
    ensures QueueUnion(MergeFront(s), f) == QueueUnion(s, f)
  {
    var parent := Node(s[0].freq + s[1].freq, s[0], s[1]);
    var rest := s[2..];
    assert s[1..][1..] == rest;
    assert QueueUnion(s, f) == f(s[0]) + (f(s[1]) + QueueUnion(rest, f));
    assert QueueUnion([parent], f) == f(s[0]) + f(s[1]);
    UnionOfAppend(rest, [parent], f);
  }

  /** A merge keeps the union of any `f` that maps a parent to the union of
      its children (as `Leaves` and `Syms` do). */
  lemma UnionOfMerge<T>(q: seq<Tree>, f: Tree -> multiset<T>)
    requires |q| >= 2
    requires forall w, l, r :: f(Node(w, l, r)) == f(l) + f(r)
    ensures QueueUnion(MergeStep(q), f) == QueueUnion(q, f)
  {
    UnionOfMergeFront(SortByFrequency(q), f);
    UnionOfSort(q, f);
  }

  lemma WeightOfMergeFront(s: seq<Tree>)
    requires |s| >= 2
    ensures QueueWeight(MergeFront(s)) == QueueWeight(s)
  {
    var parent := Node(s[0].freq + s[1].freq, s[0], s[1]);
    var rest := s[2..];
    assert s[1..][1..] == rest;
    assert QueueWeight(s) == s[0].freq + (s[1].freq + QueueWeight(rest));
    assert QueueWeight([parent]) == parent.freq;
    WeightOfAppend(rest, [parent]);
  }

  /** A merge keeps the total weight of the queue. */
  lemma WeightOfMerge(q: seq<Tree>)
    requires |q| >= 2
    ensures QueueWeight(MergeStep(q)) == QueueWeight(q)
  {
    WeightOfMergeFront(SortByFrequency(q));
    WeightOfSort(q);
  }

  /** From a non-empty queue of well-weighted trees the loop ends with one
      well-weighted root that holds every leaf of the queue and weighs the
      queue's total; from two or more nodes that root is internal. */
  lemma {:induction false} BuildSpec(q: seq<Tree>)
    requires |q| >= 1 && forall t | t in q :: WellWeighted(t)
    ensures Build(q).Some? && WellWeighted(Build(q).value)
    ensures Leaves(Build(q).value) == QueueUnion(q, Leaves)
    ensures Syms(Build(q).value) == QueueUnion(q, Syms)
    ensures Build(q).value.freq == QueueWeight(q)
    ensures |q| >= 2 ==> Build(q).value.Node?
    decreases |q|
  {
    if |q| == 1 {
      assert q[1..] == [];
    } else {
      var s := SortByFrequency(q);
      SortPermutes(q);
      var r := MergeFront(s);
      assert r == MergeStep(q);
      assert s[0] in multiset(q) && s[1] in multiset(q);
      forall t | t in r
        ensures WellWeighted(t)
      {
        if t != r[|r| - 1] {
          assert t in s[2..];
          assert t in multiset(q);
        }
      }
      UnionOfMerge(q, Leaves);
      UnionOfMerge(q, Syms);
      WeightOfMerge(q);
      BuildSpec(r);
      if |r| == 1 {
        assert Build(q) == Some(r[0]);
      }
    }
  }

  lemma {:induction false} InitialQueueLeaves(es: seq<(byte, nat)>)
    ensures QueueUnion(InitialQueue(es), Leaves) == multiset(es)
  {
    if es != [] {
      var n := |es|;
      var init := es[..n - 1];
      var last := Leaf(es[n - 1].0, es[n - 1].1);
      assert InitialQueue(es) == InitialQueue(init) + [last];
      assert es == init + [es[n - 1]];
      assert QueueUnion([last], Leaves) == multiset{es[n - 1]};
      UnionOfAppend(InitialQueue(init), [last], Leaves);
      InitialQueueLeaves(init);
    }
  }

  lemma {:induction false} InitialQueueSyms(es: seq<(byte, nat)>)
    ensures QueueUnion(InitialQueue(es), Syms) == multiset(Symbols(es))
  {
    if es != [] {
      var n := |es|;
      var init := es[..n - 1];
      var last := Leaf(es[n - 1].0, es[n - 1].1);
      assert InitialQueue(es) == InitialQueue(init) + [last];
      assert Symbols(es) == Symbols(init) + [es[n - 1].0];
      assert QueueUnion([last], Syms) == multiset{es[n - 1].0};
      UnionOfAppend(InitialQueue(init), [last], Syms);
      InitialQueueSyms(init);
    }
  }

  lemma {:induction false} InitialQueueWeight(es: seq<(byte, nat)>)
    ensures QueueWeight(InitialQueue(es)) == TotalFrequency(es)
  {
    if es != [] {
      var n := |es|;
      var init := es[..n - 1];
      var last := Leaf(es[n - 1].0, es[n - 1].1);
      assert InitialQueue(es) == InitialQueue(init) + [last];
      assert QueueWeight([last]) == es[n - 1].1;
      WeightOfAppend(InitialQueue(init), [last]);
      InitialQueueWeight(init);
    }
  }

  /** A duplicate-free sequence holds each of its elements once. */
  lemma {:induction false} NoDuplicatesOnce(s: seq<byte>)
    requires NoDuplicates(s)
    ensures forall x | x in multiset(s) :: multiset(s)[x] == 1
  {
    if s != [] {
      var init := s[..|s| - 1];
      NoDuplicatesOnce(init);
      assert s == init + [s[|s| - 1]];
      assert s[|s| - 1] !in init;
    }
  }

  method BuildHuffmanTree(entries: seq<(byte, nat)>) returns (root: Option<Tree>, ghost merges: nat)
    ensures root == Build(InitialQueue(entries))
    ensures root.None? <==> entries == []
    ensures entries != [] ==> merges == |entries| - 1
    ensures root.Some? ==> && WellWeighted(root.value)
                           && Leaves(root.value) == multiset(entries)
                           && Syms(root.value) == multiset(Symbols(entries))
                           && root.value.freq == TotalFrequency(entries)
    ensures |entries| == 1 ==> root == Some(Leaf(entries[0].0, entries[0].1))
    ensures |entries| >= 2 ==> root.Some? && root.value.Node?
    ensures root.Some? && NoDuplicates(Symbols(entries)) ==> DistinctSymbols(root.value)
  {
    var priorityQueue: seq<Tree> := [];
    for i := 0 to |entries|
      invariant priorityQueue == InitialQueue(entries[..i])
    {
      priorityQueue := priorityQueue + [Leaf(entries[i].0, entries[i].1)];
    }
    assert entries[..|entries|] == entries;
    ghost var initial := priorityQueue;
    merges := 0;
    while |priorityQueue| > 1
      invariant Build(priorityQueue) == Build(initial)
      invariant merges + |priorityQueue| == |entries|
      decreases |priorityQueue|
    {
      ghost var before := priorityQueue;
      priorityQueue := SortByFrequency(priorityQueue);
      var node1 := priorityQueue[0];
      priorityQueue := priorityQueue[1..];
      var node2 := priorityQueue[0];
      priorityQueue := priorityQueue[1..];
      var parentNode := Node(node1.freq + node2.freq, node1, node2);
      priorityQueue := priorityQueue + [parentNode];
      merges := merges + 1;
      assert priorityQueue == MergeStep(before);
    }
    root := if |priorityQueue| == 0 then None else Some(priorityQueue[0]);
    InitialQueueLeaves(entries);
    InitialQueueSyms(entries);
    InitialQueueWeight(entries);
    if entries != [] {
      BuildSpec(initial);
      if NoDuplicates(Symbols(entries)) {
        NoDuplicatesOnce(Symbols(entries));
        DistinctOfSyms(root.value);
      }
    }
  }
}
