/** The compressed file: what `compressFile` writes and `decompressFile` reads back. */
module Format {
  import opened Types
  import opened Frequency
  import opened BitString

  /** One field of the file: an `int` (written with `sizeof(int)` bytes) or a single byte. */
  datatype Field = Int(i: int) | Char(c: Byte)

  /** What a compressed file carries: the frequency table, the number of padding bits, the packed bits. */
  datatype Container = Container(table: FreqMap, padding: Byte, payload: seq<Byte>)

  /** The (byte, count) pairs of the keys `ks`, in that order. */
  function TableFields(m: FreqMap, ks: seq<Byte>): (r: seq<Field>)
    requires forall k :: k in ks ==> k in m
    ensures |r| == 2 * |ks|
  {
    if ks == [] then [] else [Char(ks[0]), Int(m[ks[0]])] + TableFields(m, ks[1..])
  }

  function ByteFields(bs: seq<Byte>): (r: seq<Field>)
    ensures |r| == |bs|
    ensures forall i :: 0 <= i < |bs| ==> r[i] == Char(bs[i])
  {
    seq(|bs|, i requires 0 <= i < |bs| => Char(bs[i]))
  }

  /** The file layout: the entry count, the pairs in key order, the padding, then the payload. */
  function Serialize(c: Container): seq<Field> {
    [Int(|c.table|)] + TableFields(c.table, SortedKeys(c.table)) + [Char(c.padding)] + ByteFields(c.payload)
  }

  /** The first half of the writer: the entry count and the `for (auto& pair : freqMap)` loop. */
  method WriteTable(freqMap: FreqMap) returns (out: seq<Field>)
    ensures out == [Int(|freqMap|)] + TableFields(freqMap, SortedKeys(freqMap))
  {
    var keys := SortedKeys(freqMap);
    out := [Int(|freqMap|)];
    for i := 0 to |keys|
      invariant [Int(|freqMap|)] + TableFields(freqMap, keys) == out + TableFields(freqMap, keys[i..])
    {
      assert keys[i..][1..] == keys[i + 1..];
      out := out + [Char(keys[i]), Int(freqMap[keys[i]])];
    }
  }

  /** `read(fd, &c, sizeof(char))` at position `pos`. */
  function ReadChar(fields: seq<Field>, pos: nat): Result<Byte> {
    if pos >= |fields| then Err(Truncated)
    else match fields[pos]
      case Char(c) => Ok(c)
      case Int(_) => Err(Malformed)
  }

  /** `read(fd, &x, sizeof(int))` at position `pos`. */
  function ReadInt(fields: seq<Field>, pos: nat): Result<int> {
    if pos >= |fields| then Err(Truncated)
    else match fields[pos]
      case Int(i) => Ok(i)
      case Char(_) => Err(Malformed)
  }

  /** The table loop from position `pos` with `n` entries still to read: each
      pair sets `freqMap[c] = freq`, so a repeated byte keeps its last count.
      Gives the table and the position after it. */
  function ReadEntries(fields: seq<Field>, pos: nat, n: nat, acc: FreqMap): Result<(FreqMap, nat)>
    decreases n
  {
    if n == 0 then Ok((acc, pos))
    else
      var c :- ReadChar(fields, pos);
      var f :- ReadInt(fields, pos + 1);
      ReadEntries(fields, pos + 2, n - 1, acc[c := f])
  }

  /** The entry count and the table; a negative count reads no entry, as the `for` loop does. */
  function ReadTable(fields: seq<Field>): Result<(FreqMap, nat)> {
    var count :- ReadInt(fields, 0);
    ReadEntries(fields, 1, if count < 0 then 0 else count, map[])
  }

  /** Every field from `pos` on, read as payload bytes after those already in `acc`. */
  function ReadBytes(fields: seq<Field>, pos: nat, acc: seq<Byte>): Result<seq<Byte>>
    decreases |fields| - pos
  {
    if pos >= |fields| then Ok(acc)
    else match fields[pos]
      case Char(b) => ReadBytes(fields, pos + 1, acc + [b])
      case Int(_) => Err(Malformed)
  }

  /** The padding byte at `pos` and the payload after it. */
  function ReadBody(fields: seq<Field>, pos: nat): Result<(Byte, seq<Byte>)> {
    var padding :- ReadChar(fields, pos);
    var payload :- ReadBytes(fields, pos + 1, []);
    Ok((padding, payload))
  }

  /** The reader, field by field in the writer's order. */
  function Parse(fields: seq<Field>): Result<Container> {
    var table :- ReadTable(fields);
    var body :- ReadBody(fields, table.1);
    Ok(Container(table.0, body.0, body.1))
  }

  /** The table-reading part of `decompressFile`. */
  method ReadFreqTable(fields: seq<Field>) returns (r: Result<(FreqMap, nat)>)
    ensures r == ReadTable(fields)
  {
    var freqSize := ReadInt(fields, 0);
    if freqSize.Err? {
      return Err(freqSize.error);
    }
    var n: nat := if freqSize.value < 0 then 0 else freqSize.value;
    var freqMap: FreqMap := map[];
    var pos: nat := 1;
    for i := 0 to n
      invariant pos == 1 + 2 * i
      invariant ReadTable(fields) == ReadEntries(fields, pos, n - i, freqMap)
    {
      var c := ReadChar(fields, pos);
      if c.Err? {
        return Err(c.error);
      }
      var freq := ReadInt(fields, pos + 1);
      if freq.Err? {
        return Err(freq.error);
      }
      freqMap := freqMap[c.value := freq.value];
      pos := pos + 2;
    }
    r := Ok((freqMap, pos));
  }

  /** The padding read and the loop `bitString += bitset<8>(byte).to_string()`
      of `decompressFile`: the padding and the payload's unpacked bits. */
  method ReadPaddedBits(fields: seq<Field>, start: nat) returns (r: Result<(Byte, seq<Bit>)>)
    ensures r == match ReadBody(fields, start)
                 case Ok(body) => Ok((body.0, Unpack(body.1)))
                 case Err(e) => Err(e)
  {
    var padding := ReadChar(fields, start);
    if padding.Err? {
      return Err(padding.error);
    }
    var bitString: seq<Bit> := [];
    ghost var payload: seq<Byte> := [];
    var pos := start + 1;
    while pos < |fields|
      invariant start + 1 <= pos <= |fields|
      invariant ReadBytes(fields, start + 1, []) == ReadBytes(fields, pos, payload)
      invariant bitString == Unpack(payload)
      decreases |fields| - pos
    {
      if fields[pos].Int? {
        return Err(Malformed);
      }
      var byte := fields[pos].c;
      UnpackAppend(payload, [byte]);
      payload := payload + [byte];
      bitString := bitString + ToBits(byte, 8);
      pos := pos + 1;
    }
    r := Ok((padding.value, bitString));
  }

  function Restrict(m: FreqMap, ks: seq<Byte>): FreqMap
    requires forall k :: k in ks ==> k in m
  {
    map k | k in ks :: m[k]
  }

  lemma {:induction false} ReadEntriesTable(fields: seq<Field>, pos: nat, m: FreqMap, ks: seq<Byte>, acc: FreqMap)
    requires forall k :: k in ks ==> k in m
    requires pos + 2 * |ks| <= |fields|
    requires fields[pos..pos + 2 * |ks|] == TableFields(m, ks)
    ensures ReadEntries(fields, pos, |ks|, acc) == Ok((acc + Restrict(m, ks), pos + 2 * |ks|))
    decreases |ks|
  {
    if ks == [] {
      assert acc + Restrict(m, ks) == acc;
    } else {
      var k, rest := ks[0], ks[1..];
      var window := fields[pos..pos + 2 * |ks|];
      assert fields[pos] == Char(k) && fields[pos + 1] == Int(m[k]) &&
             fields[pos + 2..pos + 2 + 2 * |rest|] == TableFields(m, rest) by {
        assert window == [Char(k), Int(m[k])] + TableFields(m, rest);
        assert fields[pos] == window[0];
        assert fields[pos + 1] == window[1];
        assert fields[pos + 2..pos + 2 + 2 * |rest|] == window[2..];
      }
      calc {
        ReadEntries(fields, pos, |ks|, acc);
        ReadEntries(fields, pos + 2, |rest|, acc[k := m[k]]);
        { ReadEntriesTable(fields, pos + 2, m, rest, acc[k := m[k]]); }
        Ok((acc[k := m[k]] + Restrict(m, rest), pos + 2 * |ks|));
        { assert acc[k := m[k]] + Restrict(m, rest) == acc + Restrict(m, ks); }
        Ok((acc + Restrict(m, ks), pos + 2 * |ks|));
      }
    }
  }

  lemma {:induction false} ReadBytesFields(fields: seq<Field>, pos: nat, bs: seq<Byte>, acc: seq<Byte>)
    requires pos <= |fields|
    requires fields[pos..] == ByteFields(bs)
    ensures ReadBytes(fields, pos, acc) == Ok(acc + bs)
    decreases |bs|
  {
    if bs == [] {
      assert acc + bs == acc;
    } else {
      assert fields[pos] == fields[pos..][0] == Char(bs[0]);
      assert fields[pos + 1..] == ByteFields(bs[1..]);
      ReadBytesFields(fields, pos + 1, bs[1..], acc + [bs[0]]);
      assert acc + [bs[0]] + bs[1..] == acc + bs;
    }
  }

  /** The table part of a written file reads back as the table, ending where the padding starts. */
  lemma ReadTableSerialize(c: Container)
    ensures ReadTable(Serialize(c)) == Ok((c.table, 1 + 2 * |c.table|))
  {
    SerializeTable(c);
    ReadTableFields(Serialize(c), c.table);
  }

  /** A count followed by the pairs of `m` in key order reads back as `m`. */
  lemma ReadTableFields(fields: seq<Field>, m: FreqMap)
    requires 1 + 2 * |m| <= |fields|
    requires fields[0] == Int(|m|)
    requires fields[1..1 + 2 * |m|] == TableFields(m, SortedKeys(m))
    ensures ReadTable(fields) == Ok((m, 1 + 2 * |m|))
  {
    var keys := SortedKeys(m);
    var r := Restrict(m, keys);
    assert ReadEntries(fields, 1, |m|, map[]) == Ok((map[] + r, 1 + 2 * |m|)) by {
      ReadEntriesTable(fields, 1, m, keys, map[]);
    }
    assert map[] + r == m by {
      RestrictAll(m, keys);
    }
    calc {
      ReadTable(fields);
      { ReadTableStart(fields, |m|); }
      ReadEntries(fields, 1, |m|, map[]);
      Ok((map[] + r, 1 + 2 * |m|));
      Ok((m, 1 + 2 * |m|));
    }
  }

  lemma ReadTableStart(fields: seq<Field>, n: nat)
    requires |fields| > 0 && fields[0] == Int(n)
    ensures ReadTable(fields) == ReadEntries(fields, 1, n, map[])
  {
  }

  /** Where the writer puts the table: the count first, the pairs after it. */
  lemma SerializeTable(c: Container)
    ensures var fields := Serialize(c);
      && 1 + 2 * |c.table| <= |fields|
      && fields[0] == Int(|c.table|)
      && fields[1..1 + 2 * |c.table|] == TableFields(c.table, SortedKeys(c.table))
  {
    var fields := Serialize(c);
    var table := TableFields(c.table, SortedKeys(c.table));
    assert fields == [Int(|c.table|)] + table + ([Char(c.padding)] + ByteFields(c.payload));
  }

  lemma RestrictAll(m: FreqMap, ks: seq<Byte>)
    requires forall k :: k in ks <==> k in m
    ensures map[] + Restrict(m, ks) == m
  {
  }

  /** The body of a written file reads back as its padding and payload. */
  lemma ReadBodySerialize(c: Container)
    ensures ReadBody(Serialize(c), 1 + 2 * |c.table|) == Ok((c.padding, c.payload))
  {
    var fields := Serialize(c);
    var n := |c.table|;
    assert fields[1 + 2 * n] == Char(c.padding);
    assert fields[2 + 2 * n..] == ByteFields(c.payload);
    ReadBytesFields(fields, 2 + 2 * n, c.payload, []);
    assert [] + c.payload == c.payload;
  }

  /** The reader takes back exactly what the writer wrote: the same table, the
      same padding and the same payload. */
  lemma ParseSerialize(c: Container)
    ensures Parse(Serialize(c)) == Ok(c)
  {
    ReadTableSerialize(c);
    ReadBodySerialize(c);
  }
}
