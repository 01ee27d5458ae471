/** Byte-frequency counting, `calculateFrequencies` (zipper.js:14-28).

    The JavaScript `Map` remembers the order in which its keys were first
    set, and `buildHuffmanTree` walks `entries()` in that order, so the
    model returns the counts together with that key order. */
module Frequencies {
  import opened BitString

  /** How many times `b` occurs in `data`. */
  function Occurrences(data: seq<byte>, b: byte): nat
  {
    if data == [] then 0
    else Occurrences(data[..|data| - 1], b) + (if data[|data| - 1] == b then 1 else 0)
  }

  /** The distinct bytes of `data` in the order of their first occurrence:
      the insertion order of the frequency map's keys. */
  function FirstOccurrences(data: seq<byte>): seq<byte>
  {
    if data == [] then []
    else
      var earlier := FirstOccurrences(data[..|data| - 1]);
      if data[|data| - 1] in earlier then earlier else earlier + [data[|data| - 1]]
  }

  predicate NoDuplicates(s: seq<byte>)
  {
    forall i, j | 0 <= i < j < |s| :: s[i] != s[j]
  }

  /** The counts as a map: exactly the bytes that occur, each with its count. */
  function FrequencyTable(data: seq<byte>): map<byte, nat>
  {
    map b | b in data :: Occurrences(data, b)
  }

  /** `frequencyMap.entries()` for a key order and a map (zipper.js:35). */
  function Entries(order: seq<byte>, freq: map<byte, nat>): seq<(byte, nat)>
    requires forall b | b in order :: b in freq
  {
    seq(|order|, i requires 0 <= i < |order| => (order[i], freq[order[i]]))
  }

  /** The entries of the map `calculateFrequencies(data)` returns. */
  function FrequencyEntries(data: seq<byte>): seq<(byte, nat)>
  {
    FirstOccurrencesSpec(data);
    Entries(FirstOccurrences(data), FrequencyTable(data))
  }

  function One(b: byte): nat
  {
    1
  }

  /** The sum of `freq * w(symbol)` over a sequence of entries. */
  function Weighted(es: seq<(byte, nat)>, w: byte -> nat): nat
  {
    if es == [] then 0
    else Weighted(es[..|es| - 1], w) + es[|es| - 1].1 * w(es[|es| - 1].0)
  }

  /** The sum of the frequencies of a sequence of entries. */
  function TotalFrequency(es: seq<(byte, nat)>): nat
  {
    Weighted(es, One)
  }

  /** The sum of `w(x)` over the bytes `x` of `data`. */
  function DataWeight(data: seq<byte>, w: byte -> nat): nat
  {
    if data == [] then 0 else DataWeight(data[..|data| - 1], w) + w(data[|data| - 1])
  }

  /** The key order lists each byte of the input exactly once. */
  lemma {:induction false} FirstOccurrencesSpec(data: seq<byte>)
    ensures NoDuplicates(FirstOccurrences(data))
    ensures forall b :: b in FirstOccurrences(data) <==> b in data
  {
    if data != [] {
      var init := data[..|data| - 1];
      FirstOccurrencesSpec(init);
      assert data == init + [data[|data| - 1]];
    }
  }

  /** A byte has a positive count exactly when it occurs. */
  lemma {:induction false} OccurrencesPositive(data: seq<byte>, b: byte)
    ensures Occurrences(data, b) > 0 <==> b in data
  {
    if data != [] {
      var init := data[..|data| - 1];
      OccurrencesPositive(init, b);
      assert data == init + [data[|data| - 1]];
    }
  }

  method CalculateFrequencies(data: seq<byte>) returns (freq: map<byte, nat>, order: seq<byte>)
    ensures forall b :: b in freq <==> b in data
    ensures forall b | b in freq :: freq[b] == Occurrences(data, b) && freq[b] > 0
    ensures order == FirstOccurrences(data) && NoDuplicates(order)
    ensures forall b :: b in order <==> b in freq
    ensures freq == FrequencyTable(data) && Entries(order, freq) == FrequencyEntries(data)
  {
    freq, order := map[], [];
    for i := 0 to |data|
      invariant forall b :: b in freq <==> b in data[..i]
      invariant forall b | b in freq :: freq[b] == Occurrences(data[..i], b)
      invariant order == FirstOccurrences(data[..i])
    {
      var b := data[i];
      assert data[..i + 1][..i] == data[..i];
      assert data[..i + 1] == data[..i] + [b];
      FirstOccurrencesSpec(data[..i]);
      assert forall c :: Occurrences(data[..i + 1], c) == Occurrences(data[..i], c) + (if c == b then 1 else 0);
      if b in freq {
        freq := freq[b := freq[b] + 1];
      } else {
        OccurrencesPositive(data[..i], b);
        freq := freq[b := 1];
        order := order + [b];
      }
    }
    assert data[..|data|] == data;
    FirstOccurrencesSpec(data);
    forall b | b in freq
      ensures freq[b] > 0
    {
      OccurrencesPositive(data, b);
    }
  }

  /** Bumping the count of one key of a duplicate-free order adds its weight once. */
  lemma {:induction false} WeightedBump(keys: seq<byte>, f: map<byte, nat>, g: map<byte, nat>, x: byte, w: byte -> nat)
    requires NoDuplicates(keys) && x in keys
    requires forall b | b in keys :: b in f && b in g
    requires g[x] == f[x] + 1
    requires forall b | b in keys && b != x :: g[b] == f[b]
    ensures Weighted(Entries(keys, g), w) == Weighted(Entries(keys, f), w) + w(x)
  {
    var n := |keys|;
    var init := keys[..n - 1];
    var y := keys[n - 1];
    assert Entries(keys, f)[..n - 1] == Entries(init, f);
    assert Entries(keys, g)[..n - 1] == Entries(init, g);
    if y == x {
      assert x !in init;
      assert Entries(init, g) == Entries(init, f);
    } else {
      WeightedBump(init, f, g, x, w);
    }
  }

  /** Appending a fresh key with count 1 adds its weight once. */
  lemma WeightedNewKey(keys: seq<byte>, f: map<byte, nat>, g: map<byte, nat>, x: byte, w: byte -> nat)
    requires x !in keys && x in g && g[x] == 1
    requires forall b | b in keys :: b in f && b in g && g[b] == f[b]
    ensures Weighted(Entries(keys + [x], g), w) == Weighted(Entries(keys, f), w) + w(x)
  {
    var es := Entries(keys + [x], g);
    assert es[..|keys|] == Entries(keys, g);
    assert Entries(keys, g) == Entries(keys, f);
  }

  /** Weighting the counted entries is weighting the input byte by byte. */
  lemma {:induction false} WeightedCounts(data: seq<byte>, w: byte -> nat)
    ensures Weighted(FrequencyEntries(data), w) == DataWeight(data, w)
  {
    if data != [] {
      var n := |data|;
      var init := data[..n - 1];
      var x := data[n - 1];
      WeightedCounts(init, w);
      FirstOccurrencesSpec(init);
      var keys := FirstOccurrences(init);
      var f := FrequencyTable(init);
      var g := FrequencyTable(data);
      assert data == init + [x];
      assert forall b :: b in g <==> b in f || b == x;
      assert forall b | b in keys :: b in f;
      assert forall b | b in g :: g[b] == Occurrences(init, b) + (if b == x then 1 else 0);
      if x in init {
        WeightedBump(keys, f, g, x, w);
      } else {
        OccurrencesPositive(init, x);
        WeightedNewKey(keys, f, g, x, w);
      }
    }
  }

  lemma {:induction false} DataWeightOne(data: seq<byte>)
    ensures DataWeight(data, One) == |data|
  {
    if data != [] {
      DataWeightOne(data[..|data| - 1]);
    }
  }

  /** The counts sum to the input length. */
  lemma FrequencySum(data: seq<byte>)
    ensures TotalFrequency(FrequencyEntries(data)) == |data|
  {
    WeightedCounts(data, One);
    DataWeightOne(data);
  }
}
