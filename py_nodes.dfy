/**
 * The `Node` of node.py: 20 bytes of id data, plus a host and a port that travel with the
 * node but take no part in its comparisons. XOR and the first-set-bit search are the same
 * operations as on the 20-byte ids of main.go, except that `distance_key` gives the all-zero
 * distance the key 140 (`len(data) * 7`).
 */
module PyNodes {
  import opened Wrappers
  import opened NodeIds

  const DefaultHost: string := "localhost"
  const DefaultPort: int := 3000

  datatype Node = Node(data: NodeId, host: string, port: int)

  /**
   * `Node.__init__`: the constructor accepts `data` only when it is exactly 20 bytes long;
   * host and port default to `localhost` and 3000.
   */
  function NewNode(data: seq<bv8>, host: string := DefaultHost, port: int := DefaultPort): (r: Option<Node>)
    ensures r.Some? <==> |data| == IdLength
    ensures r.Some? ==> r.value.data == data && r.value.host == host && r.value.port == port
  {
    if |data| == IdLength then Some(Node(data, host, port)) else None
  }

  /** `__xor__`: the byte-wise XOR of the two nodes' data, as a node at the default address. */
  function XorNode(a: Node, b: Node): Node {
    Node(Xor(a.data, b.data), DefaultHost, DefaultPort)
  }

  /** `__eq__`: the data bytes agree; host and port are not looked at. */
  predicate Eq(a: Node, b: Node) {
    b.data == a.data
  }

  /** `__ne__`: the data bytes differ somewhere. */
  predicate Ne(a: Node, b: Node) {
    b.data != a.data
  }

  /**
   * `^` yields a 20-byte node at the default address; it is commutative as a whole node, and
   * XOR-ing twice with the same node gives back the data it started from.
   */
  lemma XorNodeLaws(a: Node, b: Node)
    ensures XorNode(a, b) == XorNode(b, a)
    ensures XorNode(XorNode(a, b), b).data == a.data
    ensures XorNode(a, a).data == Zero
  {
    XorCommutative(a.data, b.data);
    XorSelfInverse(a.data, b.data);
    XorSelfIsZero(a.data);
  }

  /** Twenty bytes of `'a'` (97) XOR twenty bytes of `'b'` (98) is 3 in every byte. */
  lemma XorNodeExample()
    ensures var a := Node(seq(IdLength, _ => 97), DefaultHost, DefaultPort);
            var b := Node(seq(IdLength, _ => 98), DefaultHost, DefaultPort);
            XorNode(a, b).data == seq(IdLength, _ => 3)
  {
    var a: NodeId := seq(IdLength, _ => 97);
    var b: NodeId := seq(IdLength, _ => 98);
    forall i | 0 <= i < IdLength ensures Xor(a, b)[i] == 3 {
      assert a[i] == 97 && b[i] == 98;
    }
  }

  /**
   * `==` and `!=` are exact complements; `==` is an equivalence that ignores host and port,
   * and it holds exactly when the XOR of the two nodes is all zero.
   */
  lemma EqualityLaws(a: Node, b: Node, c: Node)
    ensures Ne(a, b) <==> !Eq(a, b)
    ensures Eq(a, a)
    ensures Eq(a, b) ==> Eq(b, a)
    ensures Eq(a, b) && Eq(b, c) ==> Eq(a, c)
    ensures Eq(a, Node(a.data, b.host, b.port))
    ensures Eq(a, b) <==> XorNode(a, b).data == Zero
  {
    XorSelfIsZero(a.data);
    XorInjective(a.data, a.data, b.data);
  }

  // ------------------------------------------------------------ distance_key

  /** `distance_key`: the first set bit of the data, or `len(data) * 7` when there is none. */
  function DistanceKey(data: NodeId): (r: nat)
    ensures r < IdBits
  {
    match FirstSetBit(data, 0)
    case None => IdLength * 7
    case Some(k) => k
  }

  /**
   * `distance_key` as the nested scan it is: bytes in order, and within a byte the bits
   * `1 << i` for `i` from 7 down to 0, returning `bit_n * 8 + (7 - i)` at the first hit.
   */
  method ComputeDistanceKey(data: NodeId) returns (r: nat)
    ensures r == DistanceKey(data)
  {
    for bitN := 0 to IdLength
      invariant forall m :: 0 <= m < bitN * 8 ==> !Bit(data, m)
    {
      var i := 7;
      while i >= 0
        invariant -1 <= i <= 7
        invariant forall m :: 0 <= m < bitN * 8 + (7 - i) ==> !Bit(data, m)
      {
        BitOfByte(data, bitN, 7 - i);
        if data[bitN] & (1 << i) != 0 {
          FirstSetBitIs(data, bitN * 8 + (7 - i));
          return bitN * 8 + (7 - i);
        }
        i := i - 1;
      }
    }
    return IdLength * 7;
  }

  /**
   * Against main.go's `PrefixLen`: both find the same first set bit of a non-zero id, but
   * the all-zero id gets key 140 here and 159 there.
   */
  lemma DistanceKeyIsPrefixLen(x: NodeId)
    ensures x != Zero ==> DistanceKey(x) == PrefixLen(x)
    ensures x != Zero ==> Bit(x, DistanceKey(x)) && forall m :: 0 <= m < DistanceKey(x) ==> !Bit(x, m)
    ensures x == Zero ==> DistanceKey(x) == IdLength * 7 == 140
  {
    HasSetBitIffNonZero(x);
    PrefixLenIsFirstSetBit(x);
  }

  /**
   * The all-zero data shares key 140 with the data whose only set bit is bit 140, so a
   * node at distance zero cannot be told from one that differs in bit 140 alone.
   */
  lemma ZeroKeyCollides()
    ensures DistanceKey(Zero) == DistanceKey(Zero[17 := 8]) == 140
  {
    var x: NodeId := Zero[17 := 8];
    forall m | 0 <= m < 140 ensures !Bit(x, m) {
      if m < 136 {
        assert x[m / 8] == 0;
      } else {
        assert m / 8 == 17 && m % 8 < 4;
        var j := m % 8;
        assert (8 as bv8) & Mask(j) == 0 by {
          if j == 0 {} else if j == 1 {} else if j == 2 {} else {}
        }
      }
    }
    assert Bit(x, 140) by {
      assert 140 / 8 == 17 && 140 % 8 == 4;
    }
    assert x != Zero;
    DistanceKeyIsPrefixLen(x);
    DistanceKeyIsPrefixLen(Zero);
    FirstSetBitIs(x, 140);
  }

  /** Five zero bytes, then 31, then 255s: the first set bit is bit 3 of byte 5, key 43. */
  lemma DistanceKeyExample()
    ensures DistanceKey(seq(5, _ => 0) + [31] + seq(14, _ => 255)) == 43
  {
    var x: NodeId := seq(5, _ => 0) + [31] + seq(14, _ => 255);
    forall m | 0 <= m < 43 ensures !Bit(x, m) {
      if m < 40 {
        assert x[m / 8] == 0;
      } else {
        assert m / 8 == 5;
        var j := m % 8;
        assert (31 as bv8) & Mask(j) == 0 by {
          if j == 0 {} else if j == 1 {} else {}
        }
      }
    }
    assert Bit(x, 43) by {
      assert x[5] == 31 && 43 / 8 == 5 && 43 % 8 == 3;
    }
    FirstSetBitIs(x, 43);
  }

  /** Only bit 146 set (byte 18 is 32): a distance above zero whose key 146 exceeds 140. */
  lemma KeyAboveZeroKeyExample()
    ensures Zero[18 := 32] != Zero && DistanceKey(Zero[18 := 32]) == 146
  {
    var x: NodeId := Zero[18 := 32];
    forall m | 0 <= m < 146 ensures !Bit(x, m) {
      if m < 144 {
        assert x[m / 8] == 0;
      } else {
        assert m / 8 == 18 && m % 8 < 2;
        var j := m % 8;
        assert (32 as bv8) & Mask(j) == 0 by {
          if j == 0 {} else {}
        }
      }
    }
    assert Bit(x, 146) by {
      assert 146 / 8 == 18 && 146 % 8 == 2;
    }
    assert x[18] != Zero[18];
    FirstSetBitIs(x, 146);
  }

  /** The key of a pair's XOR does not depend on the order of the pair; equal nodes get 140. */
  lemma XorKeySymmetric(a: Node, b: Node)
    ensures DistanceKey(XorNode(a, b).data) == DistanceKey(XorNode(b, a).data)
    ensures Eq(a, b) ==> DistanceKey(XorNode(a, b).data) == 140
  {
    XorNodeLaws(a, b);
    if Eq(a, b) {
      XorSelfIsZero(a.data);
      DistanceKeyIsPrefixLen(Zero);
    }
  }
}
