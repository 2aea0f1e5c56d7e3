/** Bit strings: concatenating codes, padding, packing 8 bits to a byte and back,
    and trimming the padding off again (`compressFile`, `decompressFile`). */
module BitString {
  import opened Types

  function Pow2(n: nat): (r: nat)
    ensures r >= 1
  {
    if n == 0 then 1 else 2 * Pow2(n - 1)
  }

  /** `bitset<n>(v).to_string()`: the low `n` bits of `v`, most significant first. */
  function ToBits(v: nat, n: nat): (r: seq<Bit>)
    ensures |r| == n
  {
    if n == 0 then [] else ToBits(v / 2, n - 1) + [v % 2]
  }

  /** `bitset<n>(s).to_ulong()`: the value of a bit string read most significant first. */
  function FromBits(bs: seq<Bit>): (v: nat)
    ensures v < Pow2(|bs|)
  {
    if bs == [] then 0 else 2 * FromBits(bs[..|bs| - 1]) + bs[|bs| - 1]
  }

  /** Writing a value below 2^n as n bits and reading them back gives the value. */
  lemma {:induction false} FromToBits(v: nat, n: nat)
    requires v < Pow2(n)
    ensures FromBits(ToBits(v, n)) == v
  {
    if n > 0 {
      FromToBits(v / 2, n - 1);
      var r := ToBits(v, n);
      assert r[..n - 1] == ToBits(v / 2, n - 1);
    }
  }

  /** Reading n bits as a value and writing it back as n bits gives the bits. */
  lemma {:induction false} ToFromBits(bs: seq<Bit>)
    ensures ToBits(FromBits(bs), |bs|) == bs
  {
    if bs != [] {
      var init, last := bs[..|bs| - 1], bs[|bs| - 1];
      ToFromBits(init);
      var v := FromBits(bs);
      assert v == 2 * FromBits(init) + last;
      HalveBit(FromBits(init), last);
      assert bs == init + [last];
    }
  }

  lemma HalveBit(a: nat, b: Bit)
    ensures (2 * a + b) / 2 == a && (2 * a + b) % 2 == b
  {
  }

  /** `huffmanCodes[c]`: a byte without a code reads as the empty string. */
  function Lookup(codes: CodeTable, c: Byte): seq<Bit> {
    if c in codes then codes[c] else []
  }

  /** The codes of the bytes of `s`, one after another. */
  function EncodeBits(codes: CodeTable, s: seq<Byte>): seq<Bit> {
    if s == [] then [] else Lookup(codes, s[0]) + EncodeBits(codes, s[1..])
  }

  /** The loop `bitString += huffmanCodes[c]` over the input. */
  method EncodeInput(huffmanCodes: CodeTable, input: seq<Byte>) returns (bitString: seq<Bit>)
    ensures bitString == EncodeBits(huffmanCodes, input)
  {
    bitString := [];
    for i := 0 to |input|
      invariant EncodeBits(huffmanCodes, input) == bitString + EncodeBits(huffmanCodes, input[i..])
    {
      var c := input[i];
      assert EncodeBits(huffmanCodes, input[i..]) ==
             Lookup(huffmanCodes, c) + EncodeBits(huffmanCodes, input[i + 1..]) by {
        assert input[i..][1..] == input[i + 1..];
      }
      bitString := bitString + Lookup(huffmanCodes, c);
    }
  }

  /** `(8 - (bitString.size() % 8)) % 8`: the fewest zero bits, at most 7, that
      bring `n` bits to a whole number of bytes. */
  function Padding(n: nat): (p: Byte)
    ensures 0 <= p <= 7
    ensures (n + p) % 8 == 0
  {
    (8 - n % 8) % 8
  }

  /** `bitString.append(padding, '0')` appends these. */
  function Zeros(n: nat): (r: seq<Bit>)
    ensures |r| == n
    ensures forall i :: 0 <= i < n ==> r[i] == 0
  {
    seq(n, _ => 0)
  }

  /** Groups of 8 bits, each read as one byte with its first bit most significant. */
  function Pack(bits: seq<Bit>): (r: seq<Byte>)
    requires |bits| % 8 == 0
    ensures |r| == |bits| / 8
    decreases |bits|
  {
    if bits == [] then []
    else
      assert Pow2(8) == 256;
      [FromBits(bits[..8])] + Pack(bits[8..])
  }

  /** The packing of the bits from `i` on starts with the byte of bits `i..i+8`. */
  lemma PackAt(bits: seq<Bit>, i: nat)
    requires i < |bits| && (|bits| - i) % 8 == 0
    ensures i + 8 <= |bits| && (|bits| - i - 8) % 8 == 0
    ensures FromBits(bits[i..i + 8]) < 256
    ensures Pack(bits[i..]) == [FromBits(bits[i..i + 8])] + Pack(bits[i + 8..])
  {
    assert Pow2(8) == 256;
    assert bits[i..][..8] == bits[i..i + 8];
    assert bits[i..][8..] == bits[i + 8..];
  }

  /** The packing loop of `compressFile`: `bitset<8>(bitString.substr(i, 8))` for i = 0, 8, 16, ... */
  method PackBits(bitString: seq<Bit>) returns (payload: seq<Byte>)
    requires |bitString| % 8 == 0
    ensures payload == Pack(bitString)
  {
    payload := [];
    var i := 0;
    while i < |bitString|
      invariant 0 <= i <= |bitString| && (|bitString| - i) % 8 == 0
      invariant Pack(bitString) == payload + Pack(bitString[i..])
    {
      PackAt(bitString, i);
      var b := FromBits(bitString[i..i + 8]);
      payload := payload + [b];
      i := i + 8;
    }
  }

  /** Each byte as its 8 bits, most significant first, one byte after another. */
  function Unpack(bytes: seq<Byte>): (r: seq<Bit>)
    ensures |r| == 8 * |bytes|
  {
    if bytes == [] then [] else ToBits(bytes[0], 8) + Unpack(bytes[1..])
  }

  lemma {:induction false} UnpackAppend(a: seq<Byte>, b: seq<Byte>)
    ensures Unpack(a + b) == Unpack(a) + Unpack(b)
  {
    if a == [] {
      assert a + b == b;
    } else {
      calc {
        Unpack(a + b);
        { assert (a + b)[0] == a[0];
          assert (a + b)[1..] == a[1..] + b; }
        ToBits(a[0], 8) + Unpack(a[1..] + b);
        { UnpackAppend(a[1..], b); }
        ToBits(a[0], 8) + (Unpack(a[1..]) + Unpack(b));
        Unpack(a) + Unpack(b);
      }
    }
  }

  /** Unpacking a packed bit string gives the bit string back. */
  lemma {:induction false} UnpackPack(bits: seq<Bit>)
    requires |bits| % 8 == 0
    ensures Unpack(Pack(bits)) == bits
    decreases |bits|
  {
    if bits != [] {
      UnpackPack(bits[8..]);
      ToFromBits(bits[..8]);
      assert bits == bits[..8] + bits[8..];
    }
  }

  /** Packing the unpacked bits of a payload gives the payload back. */
  lemma {:induction false} PackUnpack(bytes: seq<Byte>)
    ensures Pack(Unpack(bytes)) == bytes
  {
    if bytes != [] {
      var bits := Unpack(bytes);
      PackUnpack(bytes[1..]);
      assert bits[..8] == ToBits(bytes[0], 8);
      assert bits[8..] == Unpack(bytes[1..]);
      assert Pow2(8) == 256;
      FromToBits(bytes[0], 8);
    }
  }

  /** `bitString.substr(0, bitString.size() - padding)`: the subtraction is on
      unsigned sizes, so a padding larger than the string wraps round to a huge
      count, which `substr` cuts back to the whole string. */
  function Trim(bits: seq<Bit>, padding: Byte): (r: seq<Bit>)
    ensures |r| == if padding <= |bits| then |bits| - padding else |bits|
    ensures r == bits[..|r|]
  {
    if padding <= |bits| then bits[..|bits| - padding] else bits
  }

  /** `bitString.append(padding, '0')` followed by the packing loop. */
  function Packed(bits: seq<Bit>): (r: seq<Byte>)
    ensures 8 * |r| == |bits| + Padding(|bits|)
  {
    Pack(bits + Zeros(Padding(|bits|)))
  }

  /** Unpacking the packed, padded bits and trimming the padding gives the bit
      string back: what the decompressor takes from what the compressor wrote. */
  lemma PackTrimRoundTrip(bits: seq<Bit>)
    ensures Trim(Unpack(Packed(bits)), Padding(|bits|)) == bits
  {
    var p := Padding(|bits|);
    var padded := bits + Zeros(p);
    assert Unpack(Pack(padded)) == padded by {
      UnpackPack(padded);
    }
    assert padded[..|bits|] == bits;
  }
}
