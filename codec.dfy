/** `compressFile` and `decompressFile` on in-memory files, and the round trip between them. */
module Codec {
  import opened Types
  import opened Frequency
  import opened CodeTree
  import opened BitString
  import opened Format
  import opened Decoder

  /** The table, padding and payload `compressFile` computes for a non-empty input. */
  function Encoded(input: seq<Byte>): Container
    requires input != []
  {
    var freqMap := Count(input);
    assert input[0] in freqMap;
    var bits := EncodeBits(GenerateCodes(HuffmanTree(freqMap), []), input);
    Container(freqMap, Padding(|bits|), Packed(bits))
  }

  /** The file `compressFile` writes for `input`. An empty input leaves the
      frequency table empty, where building the tree takes the top of an empty
      queue: `EmptyTable`. */
  function Compressed(input: seq<Byte>): (r: Result<seq<Field>>)
    ensures r.Err? <==> input == []
  {
    if input == [] then Err(EmptyTable) else Ok(Serialize(Encoded(input)))
  }

  /** What `decompressFile` writes for the file `fields`: the table, the tree
      rebuilt from it, the padding, the payload's bits less the padding, and the
      walk over them. */
  function Decompressed(fields: seq<Field>): Result<seq<Byte>> {
    var table :- ReadTable(fields);
    if table.0 == map[] then Err(EmptyTable)
    else
      var root := HuffmanTree(table.0);
      var body :- ReadBody(fields, table.1);
      Walk(root, root, Trim(Unpack(body.1), body.0), [])
  }

  /** `compressFile`. */
  method Compress(input: seq<Byte>) returns (r: Result<seq<Field>>)
    ensures r == Compressed(input)
  {
    if input == [] {
      return Err(EmptyTable);
    }
    var freqMap := CountBytes(input);
    assert freqMap != map[] by {
      assert input[0] in freqMap;
    }
    var root, huffmanCodes := BuildTree(freqMap);
    var header := WriteTable(freqMap);
    var padding, payload := EncodePayload(huffmanCodes, input);
    ghost var c := Container(freqMap, padding, payload);
    assert Encoded(input) == c;
    assert header + [Char(padding)] + ByteFields(payload) == Serialize(c);
    r := Ok(header + [Char(padding)] + ByteFields(payload));
  }

  /** The second pass of `compressFile`: the codes of the input, the padding
      and the packed bytes. */
  method EncodePayload(huffmanCodes: CodeTable, input: seq<Byte>) returns (padding: Byte, payload: seq<Byte>)
    ensures padding == Padding(|EncodeBits(huffmanCodes, input)|)
    ensures payload == Packed(EncodeBits(huffmanCodes, input))
  {
    var bitString := EncodeInput(huffmanCodes, input);
    padding := Padding(|bitString|);
    var padded := bitString + Zeros(padding);
    assert |padded| % 8 == 0 by {
      assert |padded| == |bitString| + padding;
    }
    payload := PackBits(padded);
  }

  /** `decompressFile`. */
  method Decompress(fields: seq<Field>) returns (r: Result<seq<Byte>>)
    ensures r == Decompressed(fields)
  {
    var table := ReadFreqTable(fields);
    if table.Err? {
      return Err(table.error);
    }
    var freqMap := table.value.0;
    if freqMap == map[] {
      return Err(EmptyTable);
    }
    var root, huffmanCodes := BuildTree(freqMap);
    var body := ReadPaddedBits(fields, table.value.1);
    if body.Err? {
      return Err(body.error);
    }
    var bitString := Trim(body.value.1, body.value.0);
    r := DecodeBits(root, bitString);
  }

  /** The bytes of `s` other than 0, in order. */
  function NonZero(s: seq<Byte>): (r: seq<Byte>)
    ensures |r| <= |s|
  {
    if s == [] then [] else (if s[0] != 0 then [s[0]] else []) + NonZero(s[1..])
  }

  lemma {:induction false} KeptNonZero(codes: CodeTable, s: seq<Byte>)
    requires forall i :: 0 <= i < |s| ==> (s[i] in codes <==> s[i] != 0)
    ensures Kept(codes, s) == NonZero(s)
    decreases |s|
  {
    if s != [] {
      assert forall i :: 0 <= i < |s| - 1 ==> s[1..][i] == s[i + 1];
      KeptNonZero(codes, s[1..]);
    }
  }

  lemma {:induction false} NonZeroAll(s: seq<Byte>)
    requires forall i :: 0 <= i < |s| ==> s[i] != 0
    ensures NonZero(s) == s
    decreases |s|
  {
    if s != [] {
      assert forall i :: 0 <= i < |s| - 1 ==> s[1..][i] == s[i + 1];
      NonZeroAll(s[1..]);
      assert [s[0]] + s[1..] == s;
    }
  }

  lemma {:induction false} EncodeEmptyCodes(codes: CodeTable, s: seq<Byte>)
    requires forall b :: b in codes ==> codes[b] == []
    ensures EncodeBits(codes, s) == []
    decreases |s|
  {
    if s != [] {
      EncodeEmptyCodes(codes, s[1..]);
    }
  }

  /** The bits the decompressor walks are the bits the compressor encoded. */
  lemma DecompressedBits(input: seq<Byte>)
    requires input != []
    ensures Count(input) != map[]
    ensures Decompressed(Compressed(input).value) ==
      Walk(HuffmanTree(Count(input)), HuffmanTree(Count(input)),
           EncodeBits(GenerateCodes(HuffmanTree(Count(input)), []), input), [])
  {
    var freqMap := Count(input);
    assert input[0] in freqMap;
    var bits := EncodeBits(GenerateCodes(HuffmanTree(freqMap), []), input);
    var c := Encoded(input);
    ReadTableSerialize(c);
    ReadBodySerialize(c);
    PackTrimRoundTrip(bits);
  }

  /** Decompressing what `compressFile` wrote gives back the input except its
      0 bytes, which get no code (`generateCodes` skips a leaf whose byte is
      `'\0'`), when the input has two or more distinct bytes; with a single
      distinct byte every code is empty and nothing comes back. */
  lemma RoundTrip(input: seq<Byte>)
    requires input != []
    ensures Decompressed(Compressed(input).value) ==
      Ok(if |Count(input)| == 1 then [] else NonZero(input))
  {
    var freqMap := Count(input);
    assert input[0] in freqMap;
    var root := HuffmanTree(freqMap);
    var codes := GenerateCodes(root, []);
    var bits := EncodeBits(codes, input);
    assert Decompressed(Compressed(input).value) == Walk(root, root, bits, []) by {
      DecompressedBits(input);
    }
    if |freqMap| == 1 {
      assert bits == [] by {
        HuffmanCodes(freqMap);
        EncodeEmptyCodes(codes, input);
      }
    } else {
      assert root.Node? by {
        HuffmanTreeShape(freqMap);
      }
      assert forall b :: b in codes ==> LeadsTo(root, codes[b], b) by {
        HuffmanCodes(freqMap);
      }
      assert Kept(codes, input) == NonZero(input) by {
        HuffmanCodes(freqMap);
        KeptNonZero(codes, input);
      }
      calc {
        Walk(root, root, bits, []);
        { assert bits + [] == bits; }
        Walk(root, root, bits + [], []);
        { WalkEncoded(root, codes, input, [], []); }
        Walk(root, root, [], [] + Kept(codes, input));
        { assert [] + Kept(codes, input) == NonZero(input); }
        Ok(NonZero(input));
      }
    }
  }

  /** An input of two or more distinct bytes, none of them 0, comes back whole. */
  lemma RoundTripWithoutZero(input: seq<Byte>)
    requires |Count(input)| >= 2
    requires forall i :: 0 <= i < |input| ==> input[i] != 0
    ensures Decompressed(Compressed(input).value) == Ok(input)
  {
    RoundTrip(input);
    NonZeroAll(input);
  }

  lemma CountExample()
    ensures Count([0, 65, 65]) == map[0 := 1, 65 := 2]
  {
    var input: seq<Byte> := [0, 65, 65];
    assert input[..2] == [0, 65];
    assert input[..2][..1] == [0];
    assert input[..2][..1][..0] == [];
  }

  /** The 0 byte of `[0, 'A', 'A']` is lost on the way. */
  lemma ZeroByteDropped()
    ensures Decompressed(Compressed([0, 65, 65]).value) == Ok([65, 65])
  {
    var input: seq<Byte> := [0, 65, 65];
    assert |Count(input)| == 2 by {
      CountExample();
    }
    assert NonZero(input) == [65, 65] by {
      assert input[1..] == [65, 65];
      assert input[1..][1..] == [65];
      assert input[1..][1..][1..] == [];
    }
    RoundTrip(input);
  }
}
