/** Frequency counting (`compressFile`, the `freqMap[c]++` loop) and the
    fixed order in which the codec walks a frequency table. */
module Frequency {
  import opened Types

  /** Byte value to count; the decompressor fills it from a stored table, so counts are any int. */
  type FreqMap = map<Byte, int>

  /** `freqMap[c]++`: a byte not yet in the table starts from zero. */
  function Inc(m: FreqMap, c: Byte): FreqMap {
    m[c := (if c in m then m[c] else 0) + 1]
  }

  /** The table after reading the bytes of `s` one by one. */
  function Count(s: seq<Byte>): (r: FreqMap)
    ensures forall b :: b in r <==> b in s
  {
    if s == [] then map[]
    else
      assert forall b :: b in s <==> b in s[..|s| - 1] || b == s[|s| - 1] by {
        assert s == s[..|s| - 1] + [s[|s| - 1]];
      }
      Inc(Count(s[..|s| - 1]), s[|s| - 1])
  }

  /** The counting loop of `compressFile`. */
  method CountBytes(input: seq<Byte>) returns (freqMap: FreqMap)
    ensures freqMap == Count(input)
  {
    freqMap := map[];
    for i := 0 to |input|
      invariant freqMap == Count(input[..i])
    {
      var c := input[i];
      assert input[..i + 1][..i] == input[..i];
      freqMap := freqMap[c := (if c in freqMap then freqMap[c] else 0) + 1];
    }
    assert input[..|input|] == input;
  }

  /** Each byte's count is its number of occurrences. */
  lemma {:induction false} CountIsOccurrences(s: seq<Byte>)
    ensures forall b :: b in Count(s) ==> Count(s)[b] == multiset(s)[b]
  {
    if s != [] {
      var init, c := s[..|s| - 1], s[|s| - 1];
      CountIsOccurrences(init);
      assert s == init + [c];
      assert multiset(s) == multiset(init) + multiset{c};
    }
  }

  /** Counting does not depend on the order of the input bytes. */
  lemma CountPermutation(s: seq<Byte>, t: seq<Byte>)
    requires multiset(s) == multiset(t)
    ensures Count(s) == Count(t)
  {
    CountIsOccurrences(s);
    CountIsOccurrences(t);
    forall b ensures b in s <==> b in t {
      assert b in s <==> b in multiset(s);
      assert b in t <==> b in multiset(t);
    }
  }

  /** The sum of the counts of keys k..255. */
  function TotalFrom(m: FreqMap, k: int): int
    requires 0 <= k <= 256
    decreases 256 - k
  {
    if k == 256 then 0 else (if k in m then m[k] else 0) + TotalFrom(m, k + 1)
  }

  /** The sum of all counts of a table. */
  function Total(m: FreqMap): int {
    TotalFrom(m, 0)
  }

  lemma {:induction false} TotalFromInc(m: FreqMap, c: Byte, k: int)
    requires 0 <= k <= 256
    ensures TotalFrom(Inc(m, c), k) == TotalFrom(m, k) + (if k <= c then 1 else 0)
    decreases 256 - k
  {
    if k < 256 {
      TotalFromInc(m, c, k + 1);
    }
  }

  lemma {:induction false} TotalFromEmpty(k: int)
    requires 0 <= k <= 256
    ensures TotalFrom(map[], k) == 0
    decreases 256 - k
  {
    if k < 256 {
      TotalFromEmpty(k + 1);
    }
  }

  /** The counts of a table built from `s` add up to the length of `s`. */
  lemma {:induction false} CountTotal(s: seq<Byte>)
    ensures Total(Count(s)) == |s|
  {
    if s == [] {
      TotalFromEmpty(0);
    } else {
      var init, c := s[..|s| - 1], s[|s| - 1];
      CountTotal(init);
      TotalFromInc(Count(init), c, 0);
      assert Count(s) == Inc(Count(init), c);
      assert TotalFrom(Count(s), 0) == TotalFrom(Count(init), 0) + 1;
    }
  }

  ghost predicate Increasing(s: seq<Byte>) {
    forall i, j :: 0 <= i < j < |s| ==> s[i] < s[j]
  }

  /** The keys of `m` that are at least `k`, in ascending order. */
  function KeysFrom(m: FreqMap, k: int): (r: seq<Byte>)
    requires 0 <= k <= 256
    ensures forall b :: b in r <==> b in m && k <= b
    ensures Increasing(r)
    decreases 256 - k
  {
    if k == 256 then []
    else if k in m then
      var rest := KeysFrom(m, k + 1);
      assert forall j :: 0 <= j < |rest| ==> k < rest[j] by {
        forall j | 0 <= j < |rest| ensures k < rest[j] { assert rest[j] in rest; }
      }
      [k] + rest
    else KeysFrom(m, k + 1)
  }

  /** The order in which the codec iterates over a table: every key once, ascending. */
  function SortedKeys(m: FreqMap): (r: seq<Byte>)
    ensures forall b :: b in r <==> b in m
    ensures Increasing(r)
    ensures |r| == |m|
  {
    var r := KeysFrom(m, 0);
    IncreasingCard(r);
    assert Elements(r) == m.Keys;
    r
  }

  /** The set of elements of a sequence. */
  function Elements(s: seq<Byte>): (e: set<Byte>)
    ensures forall b :: b in e <==> b in s
  {
    if s == [] then {} else {s[0]} + Elements(s[1..])
  }

  lemma {:induction false} IncreasingCard(s: seq<Byte>)
    requires Increasing(s)
    ensures |Elements(s)| == |s|
  {
    if s != [] {
      assert Increasing(s[1..]);
      IncreasingCard(s[1..]);
      assert s[0] !in s[1..];
    }
  }
}
