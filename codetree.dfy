/** `HuffmanNode`, `Compare` and `buildHuffmanTree`: the priority-queue merge
    and the recursive code assignment. */
module CodeTree {
  import opened Types
  import opened Frequency

  /** A tree node. Internal nodes of the codec carry the byte '\0' as data;
      the model gives them no data field at all. */
  datatype Tree = Leaf(data: Byte, freq: int) | Node(left: Tree, right: Tree, freq: int)

  /** The position of `pq.top()` under `Compare`: a node of least frequency,
      and among nodes of equal frequency the one queued first. */
  function MinIndex(q: seq<Tree>): (i: nat)
    requires |q| > 0
    ensures i < |q|
    ensures forall j :: 0 <= j < |q| ==> q[i].freq <= q[j].freq
    ensures forall j :: 0 <= j < i ==> q[i].freq < q[j].freq
  {
    if |q| == 1 then 0
    else
      var k := MinIndex(q[1..]) + 1;
      if q[0].freq <= q[k].freq then 0 else k
  }

  /** `pq.pop()` of the node at position `i`. */
  function RemoveAt(q: seq<Tree>, i: nat): (r: seq<Tree>)
    requires i < |q|
    ensures |r| == |q| - 1
  {
    q[..i] + q[i + 1..]
  }

  /** What is left after removing position `i`: the other nodes, in their order. */
  lemma RemoveAtSpec(q: seq<Tree>, i: nat)
    requires i < |q|
    ensures multiset(RemoveAt(q, i)) + multiset{q[i]} == multiset(q)
    ensures forall j :: 0 <= j < |q| - 1 ==> RemoveAt(q, i)[j] == if j < i then q[j] else q[j + 1]
  {
    assert multiset(RemoveAt(q, i)) + multiset{q[i]} == multiset(q) by {
      assert q == q[..i] + [q[i]] + q[i + 1..];
    }
  }

  /** One pass of the merge loop: pop the two most urgent nodes, push their parent. */
  function MergeStep(q: seq<Tree>): (r: seq<Tree>)
    requires |q| >= 2
    ensures |r| == |q| - 1
  {
    var left := q[MinIndex(q)];
    var rest := RemoveAt(q, MinIndex(q));
    var right := rest[MinIndex(rest)];
    RemoveAt(rest, MinIndex(rest)) + [Node(left, right, left.freq + right.freq)]
  }

  /** A merge step removes two nodes of least frequency and pushes one parent
      whose frequency is the sum of theirs; the other nodes stay. */
  lemma MergeStepSpec(q: seq<Tree>)
    requires |q| >= 2
    ensures var r := MergeStep(q); var p := r[|r| - 1];
      && p.Node?
      && p.freq == p.left.freq + p.right.freq
      && multiset(r[..|r| - 1]) + multiset{p.left, p.right} == multiset(q)
      && (forall j :: 0 <= j < |q| ==> p.left.freq <= q[j].freq)
      && (forall j :: 0 <= j < |r| - 1 ==> p.right.freq <= r[j].freq)
  {
    var i := MinIndex(q);
    var rest := RemoveAt(q, i);
    var j := MinIndex(rest);
    RemoveAtSpec(q, i);
    RemoveAtSpec(rest, j);
    var r := MergeStep(q);
    assert r[..|r| - 1] == RemoveAt(rest, j);
    var p := r[|r| - 1];
    assert p == Node(q[i], rest[j], q[i].freq + rest[j].freq);
    forall k | 0 <= k < |r| - 1 ensures p.right.freq <= r[k].freq {
      assert r[k] == RemoveAt(rest, j)[k];
    }
  }

  /** The pops and the push of one loop pass, written out, are one merge step. */
  lemma PopsAreMergeStep(q: seq<Tree>, left: Tree, rest: seq<Tree>, right: Tree, r: seq<Tree>)
    requires |q| >= 2
    requires left == q[MinIndex(q)] && rest == RemoveAt(q, MinIndex(q))
    requires right == rest[MinIndex(rest)]
    requires r == RemoveAt(rest, MinIndex(rest)) + [Node(left, right, left.freq + right.freq)]
    ensures r == MergeStep(q)
  {
  }

  /** The loop `while (pq.size() > 1)` run to the end: the node left in the queue. */
  function Merge(q: seq<Tree>): Tree
    requires |q| >= 1
    decreases |q|
  {
    if |q| == 1 then q[0] else Merge(MergeStep(q))
  }

  /** The initial queue: one leaf per key, pushed in the order of `ks`. */
  function LeafQueue(m: FreqMap, ks: seq<Byte>): (q: seq<Tree>)
    requires forall k :: k in ks ==> k in m
    ensures |q| == |ks|
  {
    if ks == [] then [] else [Leaf(ks[0], m[ks[0]])] + LeafQueue(m, ks[1..])
  }

  /** The tree `buildHuffmanTree` builds from a non-empty table. It depends on
      the table alone, which is what lets the decompressor rebuild it. */
  function HuffmanTree(m: FreqMap): Tree
    requires m != map[]
  {
    var ks := SortedKeys(m);
    assert |ks| > 0;
    Merge(LeafQueue(m, ks))
  }

  /** `generateCodes`: each leaf whose byte is not 0 gets the path leading to it,
      '0' for a left step and '1' for a right one; a later entry overwrites an
      earlier one, as the map assignment does. */
  function GenerateCodes(t: Tree, code: seq<Bit>): CodeTable {
    match t
    case Leaf(d, _) => if d != 0 then map[d := code] else map[]
    case Node(l, r, _) => GenerateCodes(l, code + [0]) + GenerateCodes(r, code + [1])
  }

  /** `buildHuffmanTree`: seed the queue, merge, then assign codes from the root. */
  method BuildTree(freqMap: FreqMap) returns (root: Tree, huffmanCodes: CodeTable)
    requires freqMap != map[]
    ensures root == HuffmanTree(freqMap)
    ensures huffmanCodes == GenerateCodes(root, [])
  {
    var keys := SortedKeys(freqMap);
    var pq := SeedQueue(freqMap, keys);
    root := MergeQueue(pq);
    huffmanCodes := GenerateCodes(root, []);
  }

  /** The loop `for (auto& pair : freqMap) pq.push(...)`: one leaf per key. */
  method SeedQueue(freqMap: FreqMap, keys: seq<Byte>) returns (pq: seq<Tree>)
    requires forall k :: k in keys ==> k in freqMap
    ensures pq == LeafQueue(freqMap, keys)
  {
    pq := [];
    for i := 0 to |keys|
      invariant LeafQueue(freqMap, keys) == pq + LeafQueue(freqMap, keys[i..])
    {
      assert keys[i..] == [keys[i]] + keys[i + 1..];
      pq := pq + [Leaf(keys[i], freqMap[keys[i]])];
    }
    assert keys[|keys|..] == [];
  }

  /** The loop `while (pq.size() > 1)` and the final `pq.top()`. */
  method MergeQueue(queue: seq<Tree>) returns (root: Tree)
    requires |queue| >= 1
    ensures root == Merge(queue)
  {
    var pq := queue;
    while |pq| > 1
      invariant |pq| >= 1
      invariant Merge(pq) == Merge(queue)
      decreases |pq|
    {
      ghost var before := pq;
      var left := pq[MinIndex(pq)];
      pq := RemoveAt(pq, MinIndex(pq));
      ghost var rest := pq;
      var right := pq[MinIndex(pq)];
      pq := RemoveAt(pq, MinIndex(pq));
      pq := pq + [Node(left, right, left.freq + right.freq)];
      PopsAreMergeStep(before, left, rest, right, pq);
    }
    root := pq[0];
  }

  // ---- Shape of the merged tree ----

  /** The number of leaves that carry byte `b`. */
  function LeafCount(t: Tree, b: Byte): nat {
    match t
    case Leaf(d, _) => if d == b then 1 else 0
    case Node(l, r, _) => LeafCount(l, b) + LeafCount(r, b)
  }

  /** The number of internal nodes, one per merge. */
  function InternalCount(t: Tree): nat {
    match t
    case Leaf(_, _) => 0
    case Node(l, r, _) => 1 + InternalCount(l) + InternalCount(r)
  }

  /** Every internal node's frequency is the sum of its children's. */
  ghost predicate Weighted(t: Tree) {
    match t
    case Leaf(_, _) => true
    case Node(l, r, f) => f == l.freq + r.freq && Weighted(l) && Weighted(r)
  }

  function QueueFreq(q: seq<Tree>): int {
    if q == [] then 0 else q[0].freq + QueueFreq(q[1..])
  }

  function QueueLeafCount(q: seq<Tree>, b: Byte): nat {
    if q == [] then 0 else LeafCount(q[0], b) + QueueLeafCount(q[1..], b)
  }

  function QueueInternal(q: seq<Tree>): nat {
    if q == [] then 0 else InternalCount(q[0]) + QueueInternal(q[1..])
  }

  ghost predicate AllWeighted(q: seq<Tree>) {
    forall i :: 0 <= i < |q| ==> Weighted(q[i])
  }

  /** The queue measures add up over a concatenation. */
  lemma {:induction false} QueueSplit(a: seq<Tree>, c: seq<Tree>)
    ensures QueueFreq(a + c) == QueueFreq(a) + QueueFreq(c)
    ensures forall b :: QueueLeafCount(a + c, b) == QueueLeafCount(a, b) + QueueLeafCount(c, b)
    ensures QueueInternal(a + c) == QueueInternal(a) + QueueInternal(c)
  {
    if a == [] {
      assert a + c == c;
    } else {
      QueueSplit(a[1..], c);
      assert (a + c)[0] == a[0];
      assert (a + c)[1..] == a[1..] + c;
    }
  }

  /** Removing one node takes exactly its share out of each measure. */
  lemma RemoveAtMeasures(q: seq<Tree>, i: nat)
    requires i < |q|
    ensures QueueFreq(q) == q[i].freq + QueueFreq(RemoveAt(q, i))
    ensures forall b :: QueueLeafCount(q, b) == LeafCount(q[i], b) + QueueLeafCount(RemoveAt(q, i), b)
    ensures QueueInternal(q) == InternalCount(q[i]) + QueueInternal(RemoveAt(q, i))
  {
    var before, after := q[..i], q[i + 1..];
    var tail := [q[i]] + after;
    assert q == before + tail;
    assert RemoveAt(q, i) == before + after;
    assert tail[0] == q[i] && tail[1..] == after;
    QueueSplit(before, tail);
    QueueSplit(before, after);
  }

  /** Replacing the nodes at `i` and then `j` by their parent keeps the total
      frequency and the leaves, and adds one internal node. */
  lemma ReplaceTwoMeasures(q: seq<Tree>, i: nat, j: nat)
    requires i < |q| && j < |q| - 1
    ensures var rest := RemoveAt(q, i);
      var r := RemoveAt(rest, j) + [Node(q[i], rest[j], q[i].freq + rest[j].freq)];
      && QueueFreq(r) == QueueFreq(q)
      && (forall b :: QueueLeafCount(r, b) == QueueLeafCount(q, b))
      && QueueInternal(r) == QueueInternal(q) + 1
  {
    var rest := RemoveAt(q, i);
    var kept := RemoveAt(rest, j);
    var parent := Node(q[i], rest[j], q[i].freq + rest[j].freq);
    var r := kept + [parent];
    RemoveAtMeasures(q, i);
    RemoveAtMeasures(rest, j);
    QueueSplit(kept, [parent]);
    assert [parent][1..] == [];
    forall b ensures QueueLeafCount(r, b) == QueueLeafCount(q, b) {
      assert QueueLeafCount([parent], b) == LeafCount(q[i], b) + LeafCount(rest[j], b);
    }
  }

  /** A merge step keeps the total frequency and the leaves, and adds one internal node. */
  lemma MergeStepMeasures(q: seq<Tree>)
    requires |q| >= 2
    ensures QueueFreq(MergeStep(q)) == QueueFreq(q)
    ensures forall b :: QueueLeafCount(MergeStep(q), b) == QueueLeafCount(q, b)
    ensures QueueInternal(MergeStep(q)) == QueueInternal(q) + 1
  {
    var i := MinIndex(q);
    var j := MinIndex(RemoveAt(q, i));
    assert MergeStep(q) == RemoveAt(RemoveAt(q, i), j) + [Node(q[i], RemoveAt(q, i)[j], q[i].freq + RemoveAt(q, i)[j].freq)];
    ReplaceTwoMeasures(q, i, j);
  }

  /** A merge step of weighted trees pushes a weighted parent. */
  lemma MergeStepWeighted(q: seq<Tree>)
    requires |q| >= 2
    requires AllWeighted(q)
    ensures AllWeighted(MergeStep(q))
  {
    var i := MinIndex(q);
    var rest := RemoveAt(q, i);
    var j := MinIndex(rest);
    RemoveAtSpec(q, i);
    RemoveAtSpec(rest, j);
    assert Weighted(q[i]) && Weighted(rest[j]);
  }

  /** The merged tree has the queue's total frequency and leaves, every internal
      node is weighted, and the loop makes one merge fewer than there are nodes. */
  lemma {:induction false} MergeMeasures(q: seq<Tree>)
    requires |q| >= 1
    ensures Merge(q).freq == QueueFreq(q)
    ensures forall b :: LeafCount(Merge(q), b) == QueueLeafCount(q, b)
    ensures InternalCount(Merge(q)) == QueueInternal(q) + |q| - 1
    ensures AllWeighted(q) ==> Weighted(Merge(q))
    decreases |q|
  {
    if |q| == 1 {
      assert q[1..] == [];
    } else {
      MergeStepMeasures(q);
      if AllWeighted(q) {
        MergeStepWeighted(q);
      }
      MergeMeasures(MergeStep(q));
    }
  }

  /** The initial queue holds one leaf per key at least `k`: its total is their
      counts' sum, and it has no internal node. */
  lemma {:induction false} LeafQueueMeasures(m: FreqMap, k: int)
    requires 0 <= k <= 256
    ensures QueueFreq(LeafQueue(m, KeysFrom(m, k))) == TotalFrom(m, k)
    ensures forall b :: QueueLeafCount(LeafQueue(m, KeysFrom(m, k)), b) == if b in m && k <= b then 1 else 0
    ensures QueueInternal(LeafQueue(m, KeysFrom(m, k))) == 0
    ensures AllWeighted(LeafQueue(m, KeysFrom(m, k)))
    decreases 256 - k
  {
    if k < 256 {
      LeafQueueMeasures(m, k + 1);
      var ks := KeysFrom(m, k);
      if k in m {
        assert ks[1..] == KeysFrom(m, k + 1);
      }
      var q := LeafQueue(m, ks);
      assert forall i :: 0 <= i < |q| ==> q[i].Leaf? by {
        LeafQueueLeaves(m, ks);
      }
    }
  }

  lemma {:induction false} LeafQueueLeaves(m: FreqMap, ks: seq<Byte>)
    requires forall k :: k in ks ==> k in m
    ensures forall i :: 0 <= i < |ks| ==> LeafQueue(m, ks)[i].Leaf?
  {
    if ks != [] {
      LeafQueueLeaves(m, ks[1..]);
    }
  }

  /** The tree built from a table: every internal node's frequency is the sum of
      its children's, the root's is the sum of all counts, each key of the table
      is the byte of exactly one leaf and no other byte is, and there are
      |table| - 1 internal nodes, so the root is internal exactly when the table
      has at least two keys. */
  lemma HuffmanTreeShape(m: FreqMap)
    requires m != map[]
    ensures Weighted(HuffmanTree(m))
    ensures HuffmanTree(m).freq == Total(m)
    ensures forall b :: LeafCount(HuffmanTree(m), b) == if b in m then 1 else 0
    ensures InternalCount(HuffmanTree(m)) == |m| - 1
    ensures HuffmanTree(m).Node? <==> |m| >= 2
  {
    var ks := SortedKeys(m);
    assert ks == KeysFrom(m, 0);
    LeafQueueMeasures(m, 0);
    MergeMeasures(LeafQueue(m, ks));
  }

  // ---- The code table ----

  /** The node reached from `t` by following the path `p`: 0 to the left child,
      1 to the right; None when the path runs on past a leaf. */
  function At(t: Tree, p: seq<Bit>): Option<Tree>
    decreases |p|
  {
    if p == [] then Some(t)
    else match t
      case Leaf(_, _) => None
      case Node(l, r, _) => At(if p[0] == 0 then l else r, p[1..])
  }

  /** Following `p` from `t` ends at a leaf carrying `b`. */
  predicate LeadsTo(t: Tree, p: seq<Bit>, b: Byte) {
    var n := At(t, p); n.Some? && n.value.Leaf? && n.value.data == b
  }

  predicate IsPrefix(p: seq<Bit>, q: seq<Bit>) {
    |p| <= |q| && q[..|p|] == p
  }

  /** No code of the table is a prefix of another byte's code. */
  ghost predicate PrefixFree(codes: CodeTable) {
    forall a, b :: a in codes && b in codes && a != b ==> !IsPrefix(codes[a], codes[b])
  }

  /** Stepping once more: a path starting with `x` from a node goes through that child. */
  lemma AtStep(t: Tree, x: Bit, p: seq<Bit>)
    requires t.Node?
    ensures At(t, [x] + p) == At(if x == 0 then t.left else t.right, p)
  {
    assert ([x] + p)[1..] == p;
  }

  /** `generateCodes` called with the path `code` to `t`: the bytes that get a
      code are the leaf bytes of `t` other than 0, and each one's code is `code`
      followed by a path from `t` to a leaf carrying that byte. */
  lemma {:induction false} GenerateCodesSpec(t: Tree, code: seq<Bit>)
    ensures forall b :: b in GenerateCodes(t, code) <==> LeafCount(t, b) > 0 && b != 0
    ensures forall b :: b in GenerateCodes(t, code) ==>
      var c := GenerateCodes(t, code)[b];
      |code| <= |c| && c[..|code|] == code && LeadsTo(t, c[|code|..], b)
  {
    match t
    case Leaf(d, _) =>
    case Node(l, r, _) =>
      GenerateCodesSpec(l, code + [0]);
      GenerateCodesSpec(r, code + [1]);
      var codes := GenerateCodes(t, code);
      forall b | b in codes
        ensures var c := codes[b]; |code| <= |c| && c[..|code|] == code && LeadsTo(t, c[|code|..], b)
      {
        var c := codes[b];
        var x: Bit := if b in GenerateCodes(r, code + [1]) then 1 else 0;
        if x == 1 {
          assert c == GenerateCodes(r, code + [1])[b];
        } else {
          assert c == GenerateCodes(l, code + [0])[b];
        }
        ExtendPath(t, code, x, c, b);
      }
  }

  /** A path through a child, written after the step to that child, is a path from the node. */
  lemma ExtendPath(t: Tree, code: seq<Bit>, x: Bit, c: seq<Bit>, b: Byte)
    requires t.Node?
    requires |code| + 1 <= |c| && c[..|code| + 1] == code + [x]
    requires LeadsTo(if x == 0 then t.left else t.right, c[|code| + 1..], b)
    ensures |code| <= |c| && c[..|code|] == code && LeadsTo(t, c[|code|..], b)
  {
    assert c[..|code|] == c[..|code| + 1][..|code|];
    assert c[|code|..] == [x] + c[|code| + 1..];
    AtStep(t, x, c[|code| + 1..]);
  }

  /** Two paths to leaves, one a prefix of the other, are the same path to the same leaf. */
  lemma {:induction false} PathsToLeaves(t: Tree, p: seq<Bit>, q: seq<Bit>, a: Byte, b: Byte)
    requires LeadsTo(t, p, a) && LeadsTo(t, q, b) && IsPrefix(p, q)
    ensures p == q && a == b
    decreases |p|
  {
    if p != [] {
      assert t.Node?;
      var next := if p[0] == 0 then t.left else t.right;
      assert q[0] == p[0];
      AtStep(t, p[0], p[1..]);
      AtStep(t, q[0], q[1..]);
      assert p == [p[0]] + p[1..] && q == [q[0]] + q[1..];
      assert q[1..][..|p| - 1] == p[1..];
      PathsToLeaves(next, p[1..], q[1..], a, b);
    }
  }

  /** The code table of a tree: the leaf bytes other than 0 get codes, each code
      is a root-to-leaf path ending at a leaf of its byte (so its length is that
      leaf's depth), the table is prefix-free, no code is empty unless the root
      is a leaf, and a leaf root gives its byte the empty code. */
  lemma CodeTableSpec(t: Tree)
    ensures forall b :: b in GenerateCodes(t, []) <==> LeafCount(t, b) > 0 && b != 0
    ensures forall b :: b in GenerateCodes(t, []) ==> LeadsTo(t, GenerateCodes(t, [])[b], b)
    ensures PrefixFree(GenerateCodes(t, []))
    ensures t.Node? ==> forall b :: b in GenerateCodes(t, []) ==> GenerateCodes(t, [])[b] != []
    ensures t.Leaf? ==> forall b :: b in GenerateCodes(t, []) ==> GenerateCodes(t, [])[b] == []
  {
    var codes := GenerateCodes(t, []);
    GenerateCodesSpec(t, []);
    forall b | b in codes ensures LeadsTo(t, codes[b], b) {
      assert codes[b][0..] == codes[b];
    }
    forall a, b | a in codes && b in codes && a != b ensures !IsPrefix(codes[a], codes[b]) {
      if IsPrefix(codes[a], codes[b]) {
        PathsToLeaves(t, codes[a], codes[b], a, b);
      }
    }
  }

  /** The code table `buildHuffmanTree` hands back: exactly the keys of the
      table other than 0 get a code, each from its own leaf, prefix-free; with
      two keys or more no code is empty, with one key its code is empty. */
  lemma HuffmanCodes(m: FreqMap)
    requires m != map[]
    ensures var t := HuffmanTree(m); var codes := GenerateCodes(t, []);
      && (forall b :: b in codes <==> b in m && b != 0)
      && (forall b :: b in codes ==> LeadsTo(t, codes[b], b))
      && PrefixFree(codes)
      && (|m| >= 2 ==> forall b :: b in codes ==> codes[b] != [])
      && (|m| == 1 ==> forall b :: b in codes ==> codes[b] == [])
  {
    HuffmanTreeShape(m);
    CodeTableSpec(HuffmanTree(m));
  }
}
