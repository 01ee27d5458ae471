/** Bit packing, the computational part of `encodeFile` (zipper.js:77-103):
    concatenate the codes of the input bytes, pad with zeros, and cut the
    bits into MSB-first bytes. */
module Encoder {
  import opened BitString
  import opened Frequencies

  /** The codes of the bytes of `data`, concatenated in input order. */
  function EncodedBits(codes: map<byte, Bits>, data: seq<byte>): Bits
    requires forall b | b in data :: b in codes
  {
    if data == [] then [] else codes[data[0]] + EncodedBits(codes, data[1..])
  }

  /** `8 - (encodedBits.length % 8)` (zipper.js:88): never 0, so an already
      aligned bit string still gets a whole byte of padding. */
  function Padding(n: nat): (p: nat)
    ensures 1 <= p <= 8 && (n + p) % 8 == 0
  {
    8 - n % 8
  }

  /** `'0'.repeat(n)` */
  function Zeros(n: nat): Bits
  {
    seq(n, i => false)
  }

  /** Code length per symbol, 0 for a symbol without a code. */
  function CodeLength(codes: map<byte, Bits>): byte -> nat
  {
    s => if s in codes then |codes[s]| else 0
  }

  lemma {:induction false} EncodedBitsSnoc(codes: map<byte, Bits>, data: seq<byte>, x: byte)
    requires forall b | b in data :: b in codes
    requires x in codes
    ensures EncodedBits(codes, data + [x]) == EncodedBits(codes, data) + codes[x]
  {
    if data == [] {
      assert data + [x] == [x];
    } else {
      var d := data + [x];
      assert d[0] == data[0] && d[1..] == data[1..] + [x];
      EncodedBitsSnoc(codes, data[1..], x);
    }
  }

  lemma {:induction false} EncodedBitsWeight(codes: map<byte, Bits>, data: seq<byte>)
    requires forall b | b in data :: b in codes
    ensures |EncodedBits(codes, data)| == DataWeight(data, CodeLength(codes))
  {
    if data != [] {
      var n := |data|;
      var init := data[..n - 1];
      assert data == init + [data[n - 1]];
      EncodedBitsSnoc(codes, init, data[n - 1]);
      EncodedBitsWeight(codes, init);
    }
  }

  /** The encoded length is the sum over the distinct input bytes of
      frequency times code length. */
  lemma EncodedLength(codes: map<byte, Bits>, data: seq<byte>)
    requires forall b | b in data :: b in codes
    ensures |EncodedBits(codes, data)| == Weighted(FrequencyEntries(data), CodeLength(codes))
  {
    EncodedBitsWeight(codes, data);
    WeightedCounts(data, CodeLength(codes));
  }

  /** The loop of zipper.js:82-85: append each byte's code in input order. */
  method ConcatCodes(data: seq<byte>, codes: map<byte, Bits>) returns (encodedBits: Bits)
    requires forall b | b in data :: b in codes
    ensures encodedBits == EncodedBits(codes, data)
  {
    encodedBits := [];
    for i := 0 to |data|
      invariant encodedBits == EncodedBits(codes, data[..i])
    {
      assert data[..i + 1] == data[..i] + [data[i]];
      EncodedBitsSnoc(codes, data[..i], data[i]);
      encodedBits := encodedBits + codes[data[i]];
    }
    assert data[..|data|] == data;
  }

  /** The loop of zipper.js:91-94: every group of eight bits becomes the byte
      it spells MSB first. */
  method PackBits(encodedBits: Bits) returns (encodedBytes: seq<byte>)
    requires |encodedBits| % 8 == 0
    ensures encodedBytes == Pack(encodedBits)
    ensures Expand(encodedBytes) == encodedBits
    ensures forall k | 0 <= k < |encodedBytes| :: encodedBytes[k] == ByteOf(encodedBits[8 * k..8 * k + 8])
  {
    encodedBytes := [];
    ghost var m := |encodedBits| / 8;
    assert |encodedBits| == 8 * m;
    var i := 0;
    while i < |encodedBits|
      invariant i == 8 * |encodedBytes| && i <= |encodedBits| && i % 8 == 0
      invariant encodedBytes == Pack(encodedBits[..i])
      decreases |encodedBits| - i
    {
      var group := encodedBits[i..i + 8];
      assert encodedBits[..i + 8] == encodedBits[..i] + group;
      PackStep(encodedBits[..i], group);
      encodedBytes := encodedBytes + [ByteOf(group)];
      i := i + 8;
    }
    assert encodedBits[..i] == encodedBits;
    ExpandPack(encodedBits);
    forall k | 0 <= k < |encodedBytes|
      ensures encodedBytes[k] == ByteOf(encodedBits[8 * k..8 * k + 8])
    {
      PackAt(encodedBits, k);
    }
  }

  /** `encodeFile` without its file I/O: the output bytes are the MSB-first
      packing of the code bits followed by 1..8 zero bits. The padding
      length is returned as well, although the script never writes it. */
  method EncodeFile(data: seq<byte>, codes: map<byte, Bits>) returns (encodedBytes: seq<byte>, paddingLength: nat)
    requires forall b | b in data :: b in codes
    ensures paddingLength == Padding(|EncodedBits(codes, data)|)
    ensures |EncodedBits(codes, data) + Zeros(Padding(|EncodedBits(codes, data)|))| % 8 == 0
    ensures encodedBytes == Pack(EncodedBits(codes, data) + Zeros(Padding(|EncodedBits(codes, data)|)))
    ensures Expand(encodedBytes) == EncodedBits(codes, data) + Zeros(Padding(|EncodedBits(codes, data)|))
  {
    var encodedBits := ConcatCodes(data, codes);
    paddingLength := Padding(|encodedBits|);
    encodedBits := encodedBits + Zeros(paddingLength);
    encodedBytes := PackBits(encodedBits);
  }
}
