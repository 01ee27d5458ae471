/** Bit strings and their MSB-first byte packing.

    Both scripts keep bits as JavaScript strings of '0' and '1'; here a bit
    string is a `seq<bool>` with `true` for '1'. A byte is a value 0..255,
    which is how `String.fromCharCode` and `Buffer.from` see it. */
module BitString {

  type byte = x: int | 0 <= x < 256

  type Bits = seq<bool>

  function Pow2(n: nat): (r: nat)
    ensures r >= 1
  {
    if n == 0 then 1 else 2 * Pow2(n - 1)
  }

  /** `parseInt(bits, 2)`: the unsigned value of a bit string read
      most-significant bit first (for a non-empty string). */
  function Value(bits: Bits): nat
  {
    if bits == [] then 0
    else 2 * Value(bits[..|bits| - 1]) + (if bits[|bits| - 1] then 1 else 0)
  }

  /** `v.toString(2).padStart(width, '0')`: the `width` low bits of `v`,
      most-significant first. */
  function ToBits(v: nat, width: nat): (r: Bits)
    ensures |r| == width
  {
    if width == 0 then [] else ToBits(v / 2, width - 1) + [v % 2 == 1]
  }

  lemma {:induction false} ValueBound(bits: Bits)
    ensures Value(bits) < Pow2(|bits|)
  {
    if bits != [] {
      ValueBound(bits[..|bits| - 1]);
    }
  }

  lemma {:induction false} ValueOfToBits(v: nat, width: nat)
    requires v < Pow2(width)
    ensures Value(ToBits(v, width)) == v
  {
    if width > 0 {
      ValueOfToBits(v / 2, width - 1);
      var r := ToBits(v, width);
      assert r[..width - 1] == ToBits(v / 2, width - 1);
    }
  }

  lemma {:induction false} ToBitsOfValue(bits: Bits)
    ensures ToBits(Value(bits), |bits|) == bits
  {
    if bits != [] {
      var n := |bits|;
      var init := bits[..n - 1];
      ToBitsOfValue(init);
      var v := Value(bits);
      assert v / 2 == Value(init);
      assert (v % 2 == 1) == bits[n - 1];
      assert bits == init + [bits[n - 1]];
    }
  }

  /** The 8-bit MSB-first form of a byte (unzip.js:21). */
  function ByteBits(b: byte): (r: Bits)
    ensures |r| == 8
  {
    ToBits(b, 8)
  }

  /** `parseInt(group, 2)` of an 8-bit group (zipper.js:94): the byte whose
      8-bit form is exactly `group`. */
  function ByteOf(group: Bits): (b: byte)
    requires |group| == 8
    ensures ByteBits(b) == group
  {
    ValueBound(group);
    ToBitsOfValue(group);
    Value(group)
  }

  lemma ByteOfByteBits(b: byte)
    ensures ByteOf(ByteBits(b)) == b
  {
    ValueOfToBits(b, 8);
  }

  /** The concatenated 8-bit forms of a byte sequence (unzip.js:19-23). */
  function Expand(bytes: seq<byte>): (r: Bits)
    ensures |r| == 8 * |bytes|
  {
    if bytes == [] then []
    else Expand(bytes[..|bytes| - 1]) + ByteBits(bytes[|bytes| - 1])
  }

  /** Cuts a bit string whose length is a multiple of 8 into MSB-first bytes
      (zipper.js:92-96). */
  function Pack(bits: Bits): (r: seq<byte>)
    requires |bits| % 8 == 0
    ensures 8 * |r| == |bits|
  {
    if bits == [] then []
    else Pack(bits[..|bits| - 8]) + [ByteOf(bits[|bits| - 8..])]
  }

  /** Packing one more group of eight bits appends its byte. */
  lemma PackStep(prefix: Bits, group: Bits)
    requires |prefix| % 8 == 0 && |group| == 8
    ensures |prefix + group| % 8 == 0
    ensures Pack(prefix + group) == Pack(prefix) + [ByteOf(group)]
  {
  }

  /** Bits 8i..8i+7 of the expansion are the form of byte i. */
  lemma {:induction false} ExpandAt(bytes: seq<byte>, i: nat)
    requires i < |bytes|
    ensures Expand(bytes)[8 * i..8 * i + 8] == ByteBits(bytes[i])
  {
    var n := |bytes|;
    var init := bytes[..n - 1];
    assert Expand(bytes) == Expand(init) + ByteBits(bytes[n - 1]);
    if i < n - 1 {
      ExpandAt(init, i);
      assert Expand(bytes)[8 * i..8 * i + 8] == Expand(init)[8 * i..8 * i + 8];
    } else {
      assert Expand(bytes)[8 * i..8 * i + 8] == ByteBits(bytes[n - 1]);
    }
  }

  /** Byte i of the packing is the value of bits 8i..8i+7. */
  lemma {:induction false} PackAt(bits: Bits, i: nat)
    requires |bits| % 8 == 0 && 8 * i < |bits|
    ensures Pack(bits)[i] == ByteOf(bits[8 * i..8 * i + 8])
  {
    var n := |bits|;
    var init := bits[..n - 8];
    assert Pack(bits) == Pack(init) + [ByteOf(bits[n - 8..])];
    if 8 * i < n - 8 {
      PackAt(init, i);
      assert init[8 * i..8 * i + 8] == bits[8 * i..8 * i + 8];
    } else {
      assert 8 * i == n - 8;
      assert |Pack(init)| == i;
      assert bits[8 * i..8 * i + 8] == bits[n - 8..];
    }
  }

  /** Expanding what was packed gives back the bits (the round trip of the
      encoder's packing with the decoder's expansion). */
  lemma {:induction false} ExpandPack(bits: Bits)
    requires |bits| % 8 == 0
    ensures Expand(Pack(bits)) == bits
  {
    if bits != [] {
      var n := |bits|;
      var init := bits[..n - 8];
      var group := bits[n - 8..];
      var b := ByteOf(group);
      var p := Pack(bits);
      assert p == Pack(init) + [b];
      assert p[..|p| - 1] == Pack(init);
      assert Expand(p) == Expand(Pack(init)) + ByteBits(b);
      ExpandPack(init);
      assert bits == init + group;
    }
  }

  /** Re-packing the expansion gives back the bytes. */
  lemma {:induction false} PackExpand(bytes: seq<byte>)
    ensures Pack(Expand(bytes)) == bytes
  {
    if bytes != [] {
      var n := |bytes|;
      var init := bytes[..n - 1];
      var last := bytes[n - 1];
      var e := Expand(bytes);
      assert e == Expand(init) + ByteBits(last);
      assert e[..|e| - 8] == Expand(init);
      assert e[|e| - 8..] == ByteBits(last);
      ByteOfByteBits(last);
      assert Pack(e) == Pack(Expand(init)) + [last];
      PackExpand(init);
      assert bytes == init + [last];
    }
  }
}
