# Huffman compressor: a verified model of its codec

`huffman_c.cpp` is a command-line compressor.
- `-c` counts the bytes of a file and builds a Huffman tree from the counts.
- It writes the frequency table, the number of padding bits and the packed code bits to `compressed.huf`.
- `-x` reads such a file, rebuilds the same tree from the stored table, unpacks and trims the bits, and walks the tree to write the bytes back.

This project models that codec on in-memory values and proves what it does, edge cases included.

Modules, by the part of the program they follow:

- `Types`: bytes (0..255), bits (0/1), the code table, and a `Result` whose errors mark where the model stops although the program checks nothing.
  - `Truncated`: a read past the end of the file, where the program goes on with stale or uninitialised values.
  - `EmptyTable`: the top of an empty queue.
  - `NullChild`: a step below a root that is a leaf.
  - `Malformed`: a field of the wrong kind. It exists only because the model's fields are typed.
- `Frequency`: the counting loop (`freqMap[c]++`), the sum of the counts, and the ascending key order in which the table is iterated.
- `CodeTree`: covers three things.
  - `HuffmanNode` becomes the `Tree` datatype.
  - The priority-queue loop of `buildHuffmanTree` is the method `BuildTree`, proved against the function `HuffmanTree`.
  - `generateCodes` is the recursive function `GenerateCodes`.
  - The queue is a sequence. `top()` is the first node of least frequency, and a push appends.
- `BitString`: concatenating the codes, the padding, packing 8 bits per byte (most significant first), unpacking, and trimming the padding.
- `Format`: the compressed file as a sequence of fields (`Int` for an `int`, `Char` for a byte), the writer, and the reader.
- `Decoder`: the `currentNode` walk of `decompressFile`.
- `Codec`: `compressFile` and `decompressFile` put together, and the round trip between them.

What the program does at its edges, and what the model states:

- **Byte 0 gets no code.** `generateCodes` emits a code only for a leaf whose byte is not `'\0'`. So every 0 byte of the input vanishes on the round trip (`Codec.RoundTrip`, `Codec.ZeroByteDropped`).
- **One distinct byte.** The tree is a single leaf with the empty code. No bits are written and nothing comes back.
- **Empty input.** The queue is empty when `pq.top()` is taken. The model returns `EmptyTable`, and `BuildTree` requires a non-empty table.
- **Decoder failures and leniencies:**
  - A walk that must step from a leaf, which happens only when the root is a leaf and bits remain, follows a null child: `NullChild`.
  - A partial code at the end of the bits is dropped silently (`Decoder.WalkPartial`).
  - The padding is never range-checked. A padding larger than the bits leaves them whole, because `size() - padding` wraps around and `substr` clamps.

## Model

| member | source | states |
|---|---|---|
| Frequency.CountBytes | huffman_c.cpp:100-104 | the counting loop produces `Count(input)` |
| Frequency.Count | huffman_c.cpp:100-104 | a byte has an entry exactly when it occurs in the input |
| Frequency.CountIsOccurrences | huffman_c.cpp:100-104 | each byte's count is its number of occurrences in the input |
| Frequency.CountPermutation | huffman_c.cpp:100-104 | two inputs that are rearrangements of each other give the same table |
| Frequency.CountTotal | huffman_c.cpp:100-104 | the counts add up to the input length |
| Frequency.SortedKeys | huffman_c.cpp:54-56 | the table is iterated in strictly ascending key order, each key exactly once |
| CodeTree.MinIndex | huffman_c.cpp:46-50 | `top()` under `Compare`: a node of least frequency, the first one among equals |
| CodeTree.RemoveAtSpec | huffman_c.cpp:58-59 | `pop()` removes exactly the chosen node and keeps the others in order |
| CodeTree.MergeStepSpec | huffman_c.cpp:57-63 | one merge pops the two least frequent nodes, left first, and pushes a node over them whose frequency is their sum |
| CodeTree.MergeStep | huffman_c.cpp:57-63 | definition of one pass of the merge loop; its properties are proved in `CodeTree.MergeStepSpec` and `CodeTree.MergeStepMeasures` |
| CodeTree.Merge | huffman_c.cpp:57-65 | definition of the merge loop run to one node; its properties are proved in `CodeTree.MergeMeasures` and `CodeTree.HuffmanTreeShape` |
| CodeTree.HuffmanTree | huffman_c.cpp:52-65 | definition of the tree built from a table; its properties are proved in `CodeTree.HuffmanTreeShape` and `CodeTree.HuffmanCodes` |
| CodeTree.GenerateCodes | huffman_c.cpp:66-71 | definition of `generateCodes`; its properties are proved in `CodeTree.GenerateCodesSpec`, `CodeTree.CodeTableSpec` and `CodeTree.HuffmanCodes` |
| CodeTree.BuildTree | huffman_c.cpp:52-73 | the queue loop yields `HuffmanTree(freqMap)` and the codes its `generateCodes` walk assigns |
| CodeTree.SeedQueue | huffman_c.cpp:53-56 | the seeding loop pushes one leaf per table key, carrying its count, in key order |
| CodeTree.MergeQueue | huffman_c.cpp:57-65 | the merge loop followed by `top()` yields `Merge` of the seeded queue |
| CodeTree.HuffmanTreeShape | huffman_c.cpp:52-65 | frequencies are sums of children; each key is in exactly one leaf; `n-1` merges; a node exactly when there are 2 keys or more |
| CodeTree.GenerateCodesSpec | huffman_c.cpp:66-71 | bytes coded: the non-zero leaf bytes; each code is the prefix passed in followed by a path to that byte's leaf |
| CodeTree.PathsToLeaves | huffman_c.cpp:66-71 | a path to a leaf is never a proper prefix of a path to another leaf |
| CodeTree.CodeTableSpec | huffman_c.cpp:66-72 | root-to-leaf codes (0 = left, 1 = right), prefix-free; non-empty under a node, empty for a lone leaf |
| CodeTree.HuffmanCodes | huffman_c.cpp:52-72 | exactly the non-zero bytes of the table get codes; each leads to its own leaf; prefix-free; none is empty with 2 keys or more; the empty code with one key |
| BitString.EncodeBits | huffman_c.cpp:126-129 | definition of the concatenated codes; its properties are proved in `Decoder.WalkEncoded` and `Codec.EncodeEmptyCodes` |
| BitString.Pack | huffman_c.cpp:134-138 | definition of the packed bytes, one per 8 bits; its properties are proved in `BitString.UnpackPack` and `BitString.PackUnpack` |
| BitString.Unpack | huffman_c.cpp:165-167 | definition of the unpacked bits, 8 per byte; its properties are proved in `BitString.UnpackAppend`, `BitString.UnpackPack` and `BitString.PackUnpack` |
| BitString.EncodeInput | huffman_c.cpp:126-129 | the loop builds the codes of the input bytes concatenated, a byte without a code adding nothing |
| BitString.Padding | huffman_c.cpp:131 | the padding is between 0 and 7 and makes the bit count a multiple of 8 |
| BitString.Packed | huffman_c.cpp:131-138 | the payload has `(bits + padding) / 8` bytes |
| BitString.PackBits | huffman_c.cpp:134-138 | the packing loop turns each 8 bits into one byte, first bit most significant |
| BitString.FromToBits | huffman_c.cpp:135-136 | a byte written as 8 bits, most significant first, and read back is the same byte |
| BitString.ToFromBits | huffman_c.cpp:166 | 8 bits read as a byte and written back are the same bits |
| BitString.UnpackAppend | huffman_c.cpp:165-167 | unpacking appends 8 bits per payload byte, in order |
| BitString.UnpackPack | huffman_c.cpp:134-167 | unpacking packed bits gives the same bits |
| BitString.PackUnpack | huffman_c.cpp:134-167 | packing unpacked bytes gives the same bytes |
| BitString.Trim | huffman_c.cpp:169 | drops the last `padding` bits, or none when `padding` exceeds the length |
| BitString.PackTrimRoundTrip | huffman_c.cpp:131-169 | padding, packing, unpacking and trimming give the code bits back exactly |
| Format.Serialize | huffman_c.cpp:114-138 | definition of the file layout; its properties are proved in `Format.ParseSerialize` |
| Format.ReadTable | huffman_c.cpp:152-157 | definition of the table read; its properties are proved in `Format.ReadTableFields` and `Format.ReadTableSerialize` |
| Format.ReadBody | huffman_c.cpp:161-167 | definition of the padding and payload read; its properties are proved in `Format.ReadBodySerialize` |
| Format.Parse | huffman_c.cpp:152-167 | definition of the whole reader; its properties are proved in `Format.ParseSerialize` |
| Format.WriteTable | huffman_c.cpp:114-119 | the writer emits the entry count, then each `(byte, count)` pair in key order |
| Format.ReadFreqTable | huffman_c.cpp:152-157 | the reading loop produces `ReadTable(fields)`; a later pair for the same byte overwrites an earlier one |
| Format.ReadPaddedBits | huffman_c.cpp:161-167 | reads the padding byte, then expands every remaining byte into 8 bits |
| Format.ReadEntriesTable | huffman_c.cpp:152-157 | the table loop reads back exactly the pairs the writer wrote and stops after them |
| Format.ReadTableFields | huffman_c.cpp:152-157 | a count followed by the pairs of a table in key order reads back as that table |
| Format.ReadTableSerialize | huffman_c.cpp:114-157 | the reader rebuilds the written table, stopping where the padding begins |
| Format.ReadBodySerialize | huffman_c.cpp:132-167 | the reader recovers the written padding and payload |
| Format.ParseSerialize | huffman_c.cpp:114-162 | the reader takes every field back as written: same table, padding and payload |
| Decoder.Walk | huffman_c.cpp:175-182 | definition of the `currentNode` walk; its properties are proved in `Decoder.WalkPath`, `Decoder.WalkEncoded` and `Decoder.WalkPartial` |
| Decoder.DecodeBits | huffman_c.cpp:175-182 | the `currentNode` loop produces `Walk` from the root |
| Decoder.WalkPath | huffman_c.cpp:175-182 | a path from the root to a leaf writes that leaf's byte and returns to the root |
| Decoder.WalkEncoded | huffman_c.cpp:175-182 | on concatenated codes the walk writes the coded bytes in order and ends at the root |
| Decoder.WalkPartial | huffman_c.cpp:176-182 | bits that stop at an inner node write nothing and raise no error |
| Codec.Encoded | huffman_c.cpp:100-138 | definition of the table, padding and payload of a non-empty input; its properties are proved in `Codec.DecompressedBits` and `Codec.RoundTrip` |
| Codec.Decompressed | huffman_c.cpp:152-182 | definition of what `decompressFile` writes; its properties are proved in `Codec.DecompressedBits`, `Codec.RoundTrip` and `Codec.RoundTripWithoutZero` |
| Codec.Compressed | huffman_c.cpp:100-138 | compression fails (empty queue) exactly on the empty input |
| Codec.Compress | huffman_c.cpp:100-138 | `compressFile` writes `Compressed(input)` |
| Codec.EncodePayload | huffman_c.cpp:126-138 | the second pass gives the padding and the packed bytes of the input's codes |
| Codec.Decompress | huffman_c.cpp:149-182 | `decompressFile` writes `Decompressed(fields)` |
| Codec.DecompressedBits | huffman_c.cpp:152-169 | the decompressor rebuilds the same tree and walks exactly the bits the compressor encoded |
| Codec.KeptNonZero | huffman_c.cpp:68 | when exactly the non-zero bytes have codes, the decoded bytes are the non-zero input bytes |
| Codec.EncodeEmptyCodes | huffman_c.cpp:72 | with only empty codes the input produces no bits |
| Codec.RoundTrip | huffman_c.cpp:94-185 | for a non-empty input, decompression gives no bytes with one distinct byte, otherwise the input without its 0 bytes |
| Codec.RoundTripWithoutZero | huffman_c.cpp:94-185 | with 2 or more distinct bytes, none of them 0, decompression gives the input back |
| Codec.ZeroByteDropped | huffman_c.cpp:68 | the file for `[0, 'A', 'A']` decompresses to `['A', 'A']` |

## Left out

- `isBinaryFile`, `printHelp` and `main`. These cover file sniffing, argument handling and messages, not the codec.
- All `open`/`read`/`write`/`close`/`perror`/`cout` calls. The input and the compressed file are in-memory sequences. A failed `open` is not modelled.
- The native-endian `sizeof(int)` layout of the count fields. A count is one abstract `Int` field.
- Memory: the `new` allocations of tree nodes and their leak. The tree is a datatype.
- `Frequency.Count`: counts are unbounded integers. The 32-bit `int` overflow of a counter after 2^31 occurrences of a byte is not modelled.
- `CodeTree.MergeStep`: node frequencies are unbounded integer sums. In the program, `left->freq + right->freq` is a signed 32-bit `int` addition.
  - It overflows once the frequencies add up to 2^31 or more. That is undefined behaviour, and in practice it wraps.
  - When compressing, this happens for inputs of 2^31 bytes or more.
  - When decompressing, two stored counts whose sum exceeds `INT_MAX` are enough, in a file of a few bytes.
  - The program may then pick other minima than `MergeStep`. `CodeTree.HuffmanTreeShape`'s `HuffmanTree(m).freq == Total(m)` then holds only for the model, not for the program.
- `Format.ReadFreqTable`: the counts read back from a file are unbounded integers. `HuffmanTree` merges them without the program's 32-bit wrap-around.
- `Frequency.SortedKeys`: keys are iterated as unsigned bytes 0..255. `map<char,int>` with a signed `char` would put bytes 128..255 first. Both programs use the same order, so the round trip is unaffected.
- `CodeTree.MinIndex`: the tie-break among nodes of equal frequency (first in queue order, with pushes at the back) replaces the unspecified tie order of `std::priority_queue`. The tree is still a deterministic function of the table.
- `CodeTree.HuffmanTreeShape`: the optimality of Huffman codes (least total code length) is not proved.
- `Format.ReadFreqTable`: the source does not notice a read past the end of the file and carries on with stale or uninitialised values. The model returns `Truncated` instead.
- `Format.ReadFreqTable`: a field of the wrong kind gives `Malformed`. This case exists only because fields are typed here; the source reads raw bytes.
- `Codec.Decompressed`: `EmptyTable` and `NullChild` stand for undefined behaviour of the source: `top()` of an empty queue, and the dereference of a null child. The model stops with an error where the program would crash or run on.
