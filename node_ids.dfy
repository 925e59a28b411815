/**
 * The 20-byte node identifier of main.go (`NodeID`): equality, byte-lexicographic order,
 * XOR and the index of the first set bit, which the routing table uses as bucket index.
 * `Less`, `Xor` and `PrefixLen` are specification functions, each with the loop the Go code
 * runs as a method proved equal to it; the loop of `Equals` is proved against `==`.
 */
module NodeIds {
  import opened Wrappers

  const IdLength: nat := 20
  const IdBits: nat := IdLength * 8

  type NodeId = s: seq<bv8> | |s| == IdLength witness seq(20, i => 0)

  /** The all-zero id. */
  const Zero: NodeId := [0, 0, 0, 0, 0, 0, 0, 0, 0, 0, 0, 0, 0, 0, 0, 0, 0, 0, 0, 0]

  /** The bit tested for position `j` (0 = most significant) of a byte. */
  function Mask(j: nat): bv8
    requires j < 8
  {
    1 << (7 - j)
  }

  /** Bit `k` of `x`, counting from the most significant bit of byte 0. */
  predicate Bit(x: NodeId, k: nat)
    requires k < IdBits
  {
    x[k / 8] & Mask(k % 8) != 0
  }

  // ---------------------------------------------------------------- Equals

  /** `Equals`: stops at the first differing byte. */
  method ComputeEquals(a: NodeId, b: NodeId) returns (r: bool)
    ensures r <==> a == b
  {
    var i := 0;
    while i < IdLength
      invariant 0 <= i <= IdLength
      invariant a[..i] == b[..i]
    {
      if a[i] != b[i] {
        return false;
      }
      i := i + 1;
    }
    assert a == a[..i] && b == b[..i];
    return true;
  }

  // ------------------------------------------------------------------ Less

  /** Byte-lexicographic comparison of `a` and `b` from byte `i` on. */
  predicate LessFrom(a: NodeId, b: NodeId, i: nat)
    requires i <= IdLength
    decreases IdLength - i
  {
    if i == IdLength then false
    else if a[i] != b[i] then a[i] < b[i]
    else LessFrom(a, b, i + 1)
  }

  /** Strict byte-lexicographic order (bytes compared unsigned). */
  predicate Less(a: NodeId, b: NodeId) {
    LessFrom(a, b, 0)
  }

  /** `Less`: the first differing byte decides; equal ids are not less. */
  method ComputeLess(a: NodeId, b: NodeId) returns (r: bool)
    ensures r == Less(a, b)
  {
    var i := 0;
    while i < IdLength
      invariant 0 <= i <= IdLength
      invariant LessFrom(a, b, i) == Less(a, b)
    {
      if a[i] != b[i] {
        return a[i] < b[i];
      }
      i := i + 1;
    }
    return false;
  }

  lemma {:induction false} LessFromCharacterised(a: NodeId, b: NodeId, i: nat)
    requires i <= IdLength
    ensures LessFrom(a, b, i) <==>
      exists k :: i <= k < IdLength && a[k] < b[k] && forall m :: i <= m < k ==> a[m] == b[m]
    decreases IdLength - i
  {
    if i < IdLength {
      LessFromCharacterised(a, b, i + 1);
      if a[i] == b[i] && LessFrom(a, b, i) {
        var k :| i + 1 <= k < IdLength && a[k] < b[k] && forall m :: i + 1 <= m < k ==> a[m] == b[m];
        assert forall m :: i <= m < k ==> a[m] == b[m];
      }
      if a[i] == b[i] && !LessFrom(a, b, i) {
        forall k | i <= k < IdLength && a[k] < b[k]
          ensures !forall m :: i <= m < k ==> a[m] == b[m]
        {
          assert k != i;
        }
      }
      if a[i] != b[i] && a[i] > b[i] {
        forall k | i <= k < IdLength && a[k] < b[k]
          ensures !forall m :: i <= m < k ==> a[m] == b[m]
        {
          assert k != i;
          assert !(a[i] == b[i]);
        }
      }
    }
  }

  /** `Less(a, b)` holds exactly when `a` and `b` agree up to some byte `k` and `a[k] < b[k]`. */
  lemma LessCharacterised(a: NodeId, b: NodeId)
    ensures Less(a, b) <==>
      exists k :: 0 <= k < IdLength && a[k] < b[k] && a[..k] == b[..k]
  {
    LessFromCharacterised(a, b, 0);
    if Less(a, b) {
      var k :| 0 <= k < IdLength && a[k] < b[k] && forall m :: 0 <= m < k ==> a[m] == b[m];
      assert a[..k] == b[..k];
    } else {
      forall k | 0 <= k < IdLength && a[k] < b[k] ensures a[..k] != b[..k] {
        var m :| 0 <= m < k && a[m] != b[m];
        assert a[..k][m] != b[..k][m];
      }
    }
  }

  lemma {:induction false} LessFromIrreflexive(a: NodeId, i: nat)
    requires i <= IdLength
    ensures !LessFrom(a, a, i)
    decreases IdLength - i
  {
    if i < IdLength {
      LessFromIrreflexive(a, i + 1);
    }
  }

  lemma {:induction false} LessFromTransitive(a: NodeId, b: NodeId, c: NodeId, i: nat)
    requires i <= IdLength
    requires LessFrom(a, b, i) && LessFrom(b, c, i)
    ensures LessFrom(a, c, i)
    decreases IdLength - i
  {
    if a[i] == b[i] && b[i] == c[i] {
      LessFromTransitive(a, b, c, i + 1);
    }
  }

  lemma {:induction false} LessFromTrichotomy(a: NodeId, b: NodeId, i: nat)
    requires i <= IdLength
    ensures LessFrom(a, b, i) || LessFrom(b, a, i) || a[i..] == b[i..]
    ensures !(LessFrom(a, b, i) && LessFrom(b, a, i))
    decreases IdLength - i
  {
    if i < IdLength && a[i] == b[i] {
      LessFromTrichotomy(a, b, i + 1);
      if a[i + 1..] == b[i + 1..] {
        assert a[i..] == [a[i]] + a[i + 1..] && b[i..] == [b[i]] + b[i + 1..];
      }
    }
  }

  /** `Less` is irreflexive. */
  lemma LessIrreflexive(a: NodeId)
    ensures !Less(a, a)
  {
    LessFromIrreflexive(a, 0);
  }

  /** `Less` is transitive. */
  lemma LessTransitive(a: NodeId, b: NodeId, c: NodeId)
    requires Less(a, b) && Less(b, c)
    ensures Less(a, c)
  {
    LessFromTransitive(a, b, c, 0);
  }

  /** For any two ids exactly one of `Less(a, b)`, `Less(b, a)`, `a == b` holds. */
  lemma LessTrichotomy(a: NodeId, b: NodeId)
    ensures Less(a, b) || Less(b, a) || a == b
    ensures Less(a, b) ==> !Less(b, a) && a != b
    ensures a == b ==> !Less(a, b)
  {
    LessFromTrichotomy(a, b, 0);
    assert a[0..] == a && b[0..] == b;
    LessIrreflexive(a);
  }

  // ------------------------------------------------------------------- Xor

  /** Byte-wise exclusive or. */
  function Xor(a: NodeId, b: NodeId): NodeId {
    seq(IdLength, i requires 0 <= i < IdLength => a[i] ^ b[i])
  }

  /** `Xor`: fills a fresh 20-byte array one byte at a time. */
  method ComputeXor(a: NodeId, b: NodeId) returns (r: NodeId)
    ensures r == Xor(a, b)
  {
    var res := new bv8[IdLength];
    for i := 0 to IdLength
      invariant forall k :: 0 <= k < i ==> res[k] == a[k] ^ b[k]
    {
      res[i] := a[i] ^ b[i];
    }
    r := res[..];
  }

  lemma XorCommutative(a: NodeId, b: NodeId)
    ensures Xor(a, b) == Xor(b, a)
  {
    forall i | 0 <= i < IdLength ensures Xor(a, b)[i] == Xor(b, a)[i] {
    }
  }

  lemma XorSelfInverse(a: NodeId, b: NodeId)
    ensures Xor(Xor(a, b), b) == a
  {
    forall i | 0 <= i < IdLength ensures Xor(Xor(a, b), b)[i] == a[i] {
    }
  }

  lemma XorSelfIsZero(a: NodeId)
    ensures Xor(a, a) == Zero
  {
    forall i | 0 <= i < IdLength ensures Xor(a, a)[i] == Zero[i] {
    }
  }

  /** XOR with a fixed id is injective, so distinct ids get distinct distances. */
  lemma XorInjective(t: NodeId, a: NodeId, b: NodeId)
    ensures Xor(t, a) == Xor(t, b) <==> a == b
  {
    if Xor(t, a) == Xor(t, b) {
      XorCommutative(t, a);
      XorCommutative(t, b);
      XorSelfInverse(a, t);
      XorSelfInverse(b, t);
    }
  }

  /** A bit of `Xor(a, b)` is set exactly where `a` and `b` differ. */
  lemma XorBit(a: NodeId, b: NodeId, k: nat)
    requires k < IdBits
    ensures Bit(Xor(a, b), k) <==> Bit(a, k) != Bit(b, k)
  {
    var p, q, m := a[k / 8], b[k / 8], Mask(k % 8);
    assert Xor(a, b)[k / 8] == p ^ q;
    assert ((p ^ q) & m != 0) == ((p & m != 0) != (q & m != 0));
  }

  // ------------------------------------------------------------- PrefixLen

  /** The first set bit of `x` at position `k` or later, scanning MSB first. */
  function FirstSetBit(x: NodeId, k: nat): (r: Option<nat>)
    requires k <= IdBits
    ensures r.Some? ==> k <= r.value < IdBits && Bit(x, r.value)
    ensures r.Some? ==> forall m :: k <= m < r.value ==> !Bit(x, m)
    ensures r.None? ==> forall m :: k <= m < IdBits ==> !Bit(x, m)
    decreases IdBits - k
  {
    if k == IdBits then None
    else if Bit(x, k) then Some(k)
    else FirstSetBit(x, k + 1)
  }

  /** A set bit with no set bit before it is the one `FirstSetBit` finds. */
  lemma FirstSetBitIs(x: NodeId, k: nat)
    requires k < IdBits && Bit(x, k)
    requires forall m :: 0 <= m < k ==> !Bit(x, m)
    ensures FirstSetBit(x, 0) == Some(k)
  {
  }

  lemma NonZeroByteHasBit(p: bv8)
    requires p != 0
    ensures exists j :: 0 <= j < 8 && p & Mask(j) != 0
  {
    if p & Mask(0) != 0 {
    } else if p & Mask(1) != 0 {
    } else if p & Mask(2) != 0 {
    } else if p & Mask(3) != 0 {
    } else if p & Mask(4) != 0 {
    } else if p & Mask(5) != 0 {
    } else if p & Mask(6) != 0 {
    } else {
      assert p & Mask(7) != 0;
    }
  }

  /** Bit `i * 8 + j` of an id is bit `j` of byte `i`. */
  lemma BitOfByte(x: NodeId, i: nat, j: nat)
    requires i < IdLength && j < 8
    ensures i * 8 + j < IdBits
    ensures Bit(x, i * 8 + j) <==> x[i] & Mask(j) != 0
  {
    assert (i * 8 + j) / 8 == i && (i * 8 + j) % 8 == j;
  }

  /** An id has a set bit exactly when it is not all zero. */
  lemma HasSetBitIffNonZero(x: NodeId)
    ensures (exists k :: 0 <= k < IdBits && Bit(x, k)) <==> x != Zero
  {
    if x != Zero {
      var i :| 0 <= i < IdLength && x[i] != 0;
      NonZeroByteHasBit(x[i]);
      var j :| 0 <= j < 8 && x[i] & Mask(j) != 0;
      BitOfByte(x, i, j);
    } else {
      forall k | 0 <= k < IdBits ensures !Bit(x, k) {
        assert x[k / 8] == 0;
      }
    }
  }

  /**
   * `PrefixLen`: the position of the first set bit, or `IdBits - 1` (159) when no bit is set.
   * Applied to `Xor(local, id)` it is the length of the prefix `id` shares with `local`.
   */
  function PrefixLen(x: NodeId): (r: nat)
    ensures r < IdBits
  {
    var first := FirstSetBit(x, 0);
    if first.None? then IdBits - 1 else first.value
  }

  /** The all-zero id gives 159; any other id gives the position of its first set bit. */
  lemma PrefixLenIsFirstSetBit(x: NodeId)
    ensures x == Zero ==> PrefixLen(x) == IdBits - 1
    ensures x != Zero ==> Bit(x, PrefixLen(x)) && forall m :: 0 <= m < PrefixLen(x) ==> !Bit(x, m)
  {
    HasSetBitIffNonZero(x);
  }

  /** `PrefixLen`: nested scan over bytes and bits with early return. */
  method ComputePrefixLen(x: NodeId) returns (r: nat)
    ensures r == PrefixLen(x)
  {
    for i := 0 to IdLength
      invariant forall m :: 0 <= m < i * 8 ==> !Bit(x, m)
    {
      for j := 0 to 8
        invariant forall m :: 0 <= m < i * 8 + j ==> !Bit(x, m)
      {
        BitOfByte(x, i, j);
        if x[i] & Mask(j) != 0 {
          FirstSetBitIs(x, i * 8 + j);
          return i * 8 + j;
        }
      }
    }
    return IdBits - 1;
  }

  /**
   * Applied to two ids, `PrefixLen` is symmetric; the ids agree on every bit before it and,
   * when they differ, differ at it; equal ids give the last bucket.
   */
  lemma SharedPrefix(a: NodeId, b: NodeId)
    ensures PrefixLen(Xor(a, b)) == PrefixLen(Xor(b, a))
    ensures forall m :: 0 <= m < PrefixLen(Xor(a, b)) ==> Bit(a, m) == Bit(b, m)
    ensures a != b ==> Bit(a, PrefixLen(Xor(a, b))) != Bit(b, PrefixLen(Xor(a, b)))
    ensures a == b ==> PrefixLen(Xor(a, b)) == IdBits - 1
  {
    XorCommutative(a, b);
    XorSelfIsZero(a);
    XorInjective(a, a, b);
    PrefixLenIsFirstSetBit(Xor(a, b));
    var r := PrefixLen(Xor(a, b));
    forall m | 0 <= m < r ensures Bit(a, m) == Bit(b, m) {
      XorBit(a, b, m);
    }
    XorBit(a, b, r);
  }

  /**
   * The all-zero id and the id whose only set bit is the last one share bucket 159:
   * identical ids and ids differing in the last bit cannot be told apart.
   */
  lemma LastBitSharesZeroBucket()
    ensures PrefixLen(Zero[IdLength - 1 := 1]) == PrefixLen(Zero) == IdBits - 1
  {
    var x: NodeId := Zero[IdLength - 1 := 1];
    assert x[19] == 1;
    forall m | 0 <= m < IdBits - 1 ensures !Bit(x, m) {
      if m < 152 {
        assert x[m / 8] == 0;
      } else {
        assert m / 8 == 19;
        var j := m % 8;
        assert j < 7;
        assert (1 as bv8) & Mask(j) == 0 by {
          if j == 0 {} else if j == 1 {} else if j == 2 {} else if j == 3 {}
          else if j == 4 {} else if j == 5 {} else {}
        }
      }
    }
    assert Bit(x, IdBits - 1) by {
      assert (IdBits - 1) / 8 == 19 && (IdBits - 1) % 8 == 7;
    }
    assert x != Zero;
    PrefixLenIsFirstSetBit(x);
    PrefixLenIsFirstSetBit(Zero);
  }

  /** Within one byte: with no set bit before `j`, the byte with bit `j` set is the larger. */
  lemma ByteOrderAtBit(p: bv8, q: bv8, j: nat)
    requires j < 8
    requires forall m :: 0 <= m < j ==> p & Mask(m) == 0 && q & Mask(m) == 0
    requires p & Mask(j) != 0 && q & Mask(j) == 0
    ensures q < p
  {
    if j == 0 {
    } else if j == 1 {
      assert p & Mask(0) == 0 && q & Mask(0) == 0;
    } else if j == 2 {
      assert p & Mask(0) == 0 && q & Mask(0) == 0;
      assert p & Mask(1) == 0 && q & Mask(1) == 0;
    } else if j == 3 {
      assert p & Mask(0) == 0 && q & Mask(0) == 0;
      assert p & Mask(1) == 0 && q & Mask(1) == 0;
      assert p & Mask(2) == 0 && q & Mask(2) == 0;
    } else {
      assert p & Mask(0) == 0 && q & Mask(0) == 0;
      assert p & Mask(1) == 0 && q & Mask(1) == 0;
      assert p & Mask(2) == 0 && q & Mask(2) == 0;
      assert p & Mask(3) == 0 && q & Mask(3) == 0;
      if j == 4 {
      } else if j == 5 {
        assert p & Mask(4) == 0 && q & Mask(4) == 0;
      } else if j == 6 {
        assert p & Mask(4) == 0 && q & Mask(4) == 0;
        assert p & Mask(5) == 0 && q & Mask(5) == 0;
      } else {
        assert p & Mask(4) == 0 && q & Mask(4) == 0;
        assert p & Mask(5) == 0 && q & Mask(5) == 0;
        assert p & Mask(6) == 0 && q & Mask(6) == 0;
      }
    }
  }

  /** A byte of an id whose eight bits are all clear is zero. */
  lemma ClearByte(x: NodeId, i: nat)
    requires i < IdLength
    requires forall m :: i * 8 <= m < i * 8 + 8 ==> !Bit(x, m)
    ensures x[i] == 0
  {
    if x[i] != 0 {
      NonZeroByteHasBit(x[i]);
      var j :| 0 <= j < 8 && x[i] & Mask(j) != 0;
      BitOfByte(x, i, j);
    }
  }

  /** Every byte before the one holding bit `k` is zero when no bit before `k` is set. */
  lemma ClearBytesBefore(x: NodeId, k: nat)
    requires k < IdBits
    requires forall m :: 0 <= m < k ==> !Bit(x, m)
    ensures forall b :: 0 <= b < k / 8 ==> x[b] == 0
  {
    forall b | 0 <= b < k / 8 ensures x[b] == 0 {
      assert b * 8 + 8 <= k;
      ClearByte(x, b);
    }
  }

  /** The bits of the byte holding bit `k` that come before it are clear when no bit before `k` is set. */
  lemma ClearBitsBefore(x: NodeId, k: nat)
    requires k < IdBits
    requires forall m :: 0 <= m < k ==> !Bit(x, m)
    ensures forall m :: 0 <= m < k % 8 ==> x[k / 8] & Mask(m) == 0
  {
    forall m | 0 <= m < k % 8 ensures x[k / 8] & Mask(m) == 0 {
      BitOfByte(x, k / 8, m);
      assert (k / 8) * 8 + m < k;
    }
  }

  /**
   * Of two non-zero XOR distances, the one whose first set bit comes later is the smaller
   * under `Less`: a longer shared prefix means a closer id.
   */
  lemma LongerPrefixIsCloser(x: NodeId, y: NodeId)
    requires x != Zero && y != Zero
    requires PrefixLen(x) < PrefixLen(y)
    ensures Less(y, x)
  {
    PrefixLenIsFirstSetBit(x);
    PrefixLenIsFirstSetBit(y);
    var k := PrefixLen(x);
    var i, j := k / 8, k % 8;
    ClearBytesBefore(x, k);
    ClearBytesBefore(y, k);
    assert x[..i] == y[..i];
    ClearBitsBefore(x, k);
    ClearBitsBefore(y, k);
    BitOfByte(x, i, j);
    BitOfByte(y, i, j);
    assert i * 8 + j == k;
    ByteOrderAtBit(x[i], y[i], j);
    LessCharacterised(y, x);
  }
}
