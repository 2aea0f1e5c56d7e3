/** The decoding loop of `decompressFile`: walking the rebuilt tree bit by bit. */
module Decoder {
  import opened Types
  import opened CodeTree
  import opened BitString

  /** The walk from `cur` over `bits`, with `out` already written. Bit 0 goes
      left and bit 1 right; reaching a leaf writes its byte and returns to the
      root. A walk still inside the tree when the bits run out writes nothing
      more. Stepping from a leaf, which happens only when the root itself is a
      leaf, follows a null child and gives `NullChild`. */
  function Walk(root: Tree, cur: Tree, bits: seq<Bit>, out: seq<Byte>): Result<seq<Byte>>
    decreases |bits|
  {
    if bits == [] then Ok(out)
    else match cur
      case Leaf(_, _) => Err(NullChild)
      case Node(l, r, _) =>
        var next := if bits[0] == 0 then l else r;
        if next.Leaf? then Walk(root, root, bits[1..], out + [next.data])
        else Walk(root, next, bits[1..], out)
  }

  /** The loop `for (char bit : bitString)` starting at the root. */
  method DecodeBits(root: Tree, bitString: seq<Bit>) returns (r: Result<seq<Byte>>)
    ensures r == Walk(root, root, bitString, [])
  {
    var currentNode := root;
    var out: seq<Byte> := [];
    for i := 0 to |bitString|
      invariant Walk(root, root, bitString, []) == Walk(root, currentNode, bitString[i..], out)
    {
      assert bitString[i..][1..] == bitString[i + 1..];
      if currentNode.Leaf? {
        return Err(NullChild);
      }
      currentNode := if bitString[i] == 0 then currentNode.left else currentNode.right;
      if currentNode.Leaf? {
        out := out + [currentNode.data];
        currentNode := root;
      }
    }
    r := Ok(out);
  }

  /** The bytes of `s` that have a code in `codes`, in order. */
  function Kept(codes: CodeTable, s: seq<Byte>): (r: seq<Byte>)
    ensures |r| <= |s|
  {
    if s == [] then [] else (if s[0] in codes then [s[0]] else []) + Kept(codes, s[1..])
  }

  /** From an inner node, a path to a leaf carrying `b` walks there, writes `b`
      and carries on from the root. */
  lemma {:induction false} WalkPath(root: Tree, cur: Tree, p: seq<Bit>, b: Byte, rest: seq<Bit>, out: seq<Byte>)
    requires cur.Node? && LeadsTo(cur, p, b)
    ensures Walk(root, cur, p + rest, out) == Walk(root, root, rest, out + [b])
    decreases |p|
  {
    assert p != [];
    var next := if p[0] == 0 then cur.left else cur.right;
    assert At(cur, p) == At(next, p[1..]);
    assert (p + rest)[0] == p[0];
    assert (p + rest)[1..] == p[1..] + rest;
    if next.Node? {
      WalkPath(root, next, p[1..], b, rest, out);
    } else {
      assert p[1..] == [];
    }
  }

  /** Walking the concatenated codes of `s` from the root writes, in order,
      every byte of `s` that has a code and comes back to the root for what
      follows, provided each code leads from the root to its own byte. */
  lemma {:induction false} WalkEncoded(root: Tree, codes: CodeTable, s: seq<Byte>, rest: seq<Bit>, out: seq<Byte>)
    requires root.Node?
    requires forall b :: b in codes ==> LeadsTo(root, codes[b], b)
    ensures Walk(root, root, EncodeBits(codes, s) + rest, out) == Walk(root, root, rest, out + Kept(codes, s))
    decreases |s|
  {
    if s == [] {
      assert EncodeBits(codes, s) + rest == rest;
      assert out + Kept(codes, s) == out;
    } else {
      var c := s[0];
      var tail := EncodeBits(codes, s[1..]);
      if c in codes {
        calc {
          Walk(root, root, EncodeBits(codes, s) + rest, out);
          { assert EncodeBits(codes, s) + rest == codes[c] + (tail + rest); }
          Walk(root, root, codes[c] + (tail + rest), out);
          { WalkPath(root, root, codes[c], c, tail + rest, out); }
          Walk(root, root, tail + rest, out + [c]);
          { WalkEncoded(root, codes, s[1..], rest, out + [c]); }
          Walk(root, root, rest, out + [c] + Kept(codes, s[1..]));
          { assert out + [c] + Kept(codes, s[1..]) == out + Kept(codes, s); }
          Walk(root, root, rest, out + Kept(codes, s));
        }
      } else {
        calc {
          Walk(root, root, EncodeBits(codes, s) + rest, out);
          { assert EncodeBits(codes, s) == tail; }
          Walk(root, root, tail + rest, out);
          { WalkEncoded(root, codes, s[1..], rest, out); }
          Walk(root, root, rest, out + Kept(codes, s[1..]));
          { assert Kept(codes, s) == Kept(codes, s[1..]); }
          Walk(root, root, rest, out + Kept(codes, s));
        }
      }
    }
  }

  /** Bits that stop at an inner node write nothing: a partial code left at
      the end of the input is dropped without an error. */
  lemma {:induction false} WalkPartial(root: Tree, cur: Tree, p: seq<Bit>, out: seq<Byte>)
    requires cur.Node?
    requires At(cur, p).Some? && At(cur, p).value.Node?
    ensures Walk(root, cur, p, out) == Ok(out)
    decreases |p|
  {
    if p != [] {
      var next := if p[0] == 0 then cur.left else cur.right;
      assert At(cur, p) == At(next, p[1..]);
      if next.Node? {
        WalkPartial(root, next, p[1..], out);
      }
    }
  }
}
