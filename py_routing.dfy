/**
 * The routing table of table.py: 256 buckets (`32 * 8`) indexed by `distance_key` of the
 * XOR of a node with the local node. `update` appends a node it has not seen to the back
 * of its bucket, with no capacity limit, and never reorders a bucket. `find_closest` reads
 * the buckets around the target's bucket, round by round, then sorts the (key, node) pairs
 * by key and keeps the first 20.
 */
module PyRouting {
  import opened NodeIds
  import opened Wrappers
  import opened PyNodes
  import Expansion
  import Sorting

  const BucketCount: nat := 32 * 8
  const ResultLimit: nat := 20
  /** The default `n` of `find_closest` and `_find_closest_bucket`. */
  const DefaultWanted: int := 20

  /** The bucket `update` files `n` under in the table of `local`. */
  function BucketOf(local: Node, n: Node): nat {
    DistanceKey(XorNode(local, n).data)
  }

  /** The buckets of a fresh table. */
  function EmptyBuckets(): (r: seq<seq<Node>>)
    ensures |r| == BucketCount && forall b :: 0 <= b < BucketCount ==> r[b] == []
  {
    seq(BucketCount, _ => [])
  }

  // ------------------------------------------------------------ Bucket state

  /** Python's `in` on a bucket: some entry is `==` to `n`. */
  predicate Holds(bucket: seq<Node>, n: Node) {
    exists k :: 0 <= k < |bucket| && Eq(bucket[k], n)
  }

  ghost predicate NoEqualNodes(bucket: seq<Node>) {
    forall p, q :: 0 <= p < q < |bucket| ==> !Eq(bucket[p], bucket[q])
  }

  /**
   * The table invariant: 256 buckets, none holding two equal nodes, each node in the bucket
   * of its own key.
   */
  ghost predicate WellPlaced(local: Node, bs: seq<seq<Node>>) {
    && |bs| == BucketCount
    && forall b :: 0 <= b < |bs| ==>
         && NoEqualNodes(bs[b])
         && forall k :: 0 <= k < |bs[b]| ==> BucketOf(local, bs[b][k]) == b
  }

  /** What `update` does to the one bucket it touches: an unseen node goes to the back. */
  function UpdatedBucket(bucket: seq<Node>, n: Node): seq<Node> {
    if Holds(bucket, n) then bucket else bucket + [n]
  }

  /** The whole table after `update(n)`. */
  function UpdatedTable(local: Node, bs: seq<seq<Node>>, n: Node): seq<seq<Node>>
    requires |bs| == BucketCount
  {
    bs[BucketOf(local, n) := UpdatedBucket(bs[BucketOf(local, n)], n)]
  }

  /** The bucket `update` leaves: no equal nodes when there were none, the old bucket as a prefix. */
  lemma UpdatedBucketFacts(bucket: seq<Node>, n: Node)
    requires NoEqualNodes(bucket)
    ensures var r := UpdatedBucket(bucket, n);
      && NoEqualNodes(r)
      && bucket <= r
      && |r| == |bucket| + (if Holds(bucket, n) then 0 else 1)
      && Holds(r, n)
      && forall k :: 0 <= k < |r| ==> r[k] == n || r[k] in bucket
  {
    var r := UpdatedBucket(bucket, n);
    if !Holds(bucket, n) {
      assert r[|bucket|] == n && Eq(r[|bucket|], n);
      forall p, q | 0 <= p < q < |r| ensures !Eq(r[p], r[q]) {
        if q < |bucket| {
          assert r[p] == bucket[p] && r[q] == bucket[q];
        } else {
          assert r[p] == bucket[p];
        }
      }
      forall k | 0 <= k < |r| ensures r[k] == n || r[k] in bucket {
        if k < |bucket| {
          assert r[k] == bucket[k];
        }
      }
    }
  }

  /**
   * `update` keeps the table invariant, leaves every other bucket as it was, and only ever
   * appends: the old bucket is a prefix of the new one, which grows by one exactly when no
   * equal node was there, however long the bucket already is; afterwards the node is held.
   */
  lemma UpdatePreservesInvariant(local: Node, bs: seq<seq<Node>>, n: Node)
    requires WellPlaced(local, bs)
    ensures var r := UpdatedTable(local, bs, n);
      && WellPlaced(local, r)
      && (forall b :: 0 <= b < BucketCount && b != BucketOf(local, n) ==> r[b] == bs[b])
      && bs[BucketOf(local, n)] <= r[BucketOf(local, n)]
      && |r[BucketOf(local, n)]| == |bs[BucketOf(local, n)]| + (if Holds(bs[BucketOf(local, n)], n) then 0 else 1)
      && Holds(r[BucketOf(local, n)], n)
  {
    var idx := BucketOf(local, n);
    var bucket := bs[idx];
    var r := UpdatedBucket(bucket, n);
    UpdatedBucketFacts(bucket, n);
    forall k | 0 <= k < |r| ensures BucketOf(local, r[k]) == idx {
      if r[k] != n {
        var j :| 0 <= j < |bucket| && bucket[j] == r[k];
      }
    }
  }

  /** `update` is idempotent: a second update with the same node changes nothing. */
  lemma UpdateIdempotent(local: Node, bs: seq<seq<Node>>, n: Node)
    requires |bs| == BucketCount
    ensures |UpdatedTable(local, bs, n)| == BucketCount
    ensures UpdatedTable(local, UpdatedTable(local, bs, n), n) == UpdatedTable(local, bs, n)
  {
    var idx := BucketOf(local, n);
    var r := UpdatedTable(local, bs, n);
    if !Holds(bs[idx], n) {
      assert r[idx][|bs[idx]|] == n;
      assert Eq(r[idx][|bs[idx]|], n);
    }
    assert Holds(r[idx], n);
    assert r[idx := r[idx]] == r;
  }

  /** Twenty `'a'` bytes as the local node: updating with twenty `'b'` bytes fills bucket 6. */
  lemma UpdateExample()
    ensures var local := Node(seq(IdLength, _ => 97), DefaultHost, DefaultPort);
            var b := Node(seq(IdLength, _ => 98), DefaultHost, DefaultPort);
            |UpdatedTable(local, EmptyBuckets(), b)[6]| == 1
  {
    var local := Node(seq(IdLength, _ => 97), DefaultHost, DefaultPort);
    var b := Node(seq(IdLength, _ => 98), DefaultHost, DefaultPort);
    XorNodeExample();
    var x := XorNode(local, b).data;
    assert x[0] == 3;
    forall m | 0 <= m < 6 ensures !Bit(x, m) {
      var j := m % 8;
      assert m / 8 == 0;
      assert (3 as bv8) & Mask(j) == 0 by {
        if j == 0 {} else if j == 1 {} else if j == 2 {} else if j == 3 {} else if j == 4 {} else {}
      }
    }
    assert Bit(x, 6);
    FirstSetBitIs(x, 6);
    assert BucketOf(local, b) == 6;
  }

  // ------------------------------------------------------------ Search entries

  /** A `(distance_key, node)` pair of the search result. */
  datatype Entry = Entry(key: nat, node: Node)

  /** The pairs the list comprehension of `_find_closest_bucket` makes of a bucket. */
  function Entries(ns: seq<Node>, target: Node): seq<Entry> {
    seq(|ns|, i requires 0 <= i < |ns| => Entry(DistanceKey(XorNode(target, ns[i]).data), ns[i]))
  }

  lemma EntriesAppend(a: seq<Node>, b: seq<Node>, target: Node)
    ensures Entries(a + b, target) == Entries(a, target) + Entries(b, target)
  {
  }

  /** Round `s` of the search appends the pairs of the buckets it reads. */
  lemma RoundEntries(bs: seq<seq<Node>>, start: nat, s: nat, target: Node)
    ensures s == 0 ==>
      Entries(Expansion.Collected(bs, start, 1), target) == Entries(Expansion.Side(bs, start), target)
    ensures s > 0 ==>
      Entries(Expansion.Collected(bs, start, s + 1), target)
        == Entries(Expansion.Collected(bs, start, s), target)
           + Entries(Expansion.Side(bs, start - s), target)
           + Entries(Expansion.Side(bs, start + s), target)
  {
    if s == 0 {
      Expansion.CollectedFirst(bs, start);
    } else {
      var before := Expansion.Collected(bs, start, s);
      var l, r := Expansion.Side(bs, start - s), Expansion.Side(bs, start + s);
      Expansion.CollectedNext(bs, start, s);
      EntriesAppend(before + l, r, target);
      EntriesAppend(before, l, target);
    }
  }

  /** The order `sorted` puts pairs in, by key alone; ties between nodes are left open. */
  predicate EntryLe(a: Entry, b: Entry) {
    a.key <= b.key
  }

  /** `sorted(result)`: the pairs in ascending key order (`SortEntriesSorted`). */
  function SortEntries(es: seq<Entry>): (r: seq<Entry>)
    ensures multiset(r) == multiset(es)
  {
    Sorting.InsertionSort(es, EntryLe)
  }

  lemma SortEntriesSorted(es: seq<Entry>)
    ensures Sorting.SortedBy(SortEntries(es), EntryLe)
  {
    Sorting.InsertionSortSorted(es, EntryLe);
  }

  /** The `[:20]` slice. */
  function Cut(s: seq<Entry>): seq<Entry> {
    if |s| <= ResultLimit then s else s[..ResultLimit]
  }

  /** The nodes `_find_closest_bucket(start, target, n)` reads, in reading order. */
  function Gathered(bs: seq<seq<Node>>, start: nat, n: int): seq<Node>
    requires start < |bs|
  {
    Expansion.Collected(bs, start, Expansion.StopRound(bs, start, n, 0))
  }

  /** What `_find_closest_bucket` returns. */
  function ClosestEntries(bs: seq<seq<Node>>, start: nat, target: Node, n: int): seq<Entry>
    requires start < |bs|
  {
    Cut(SortEntries(Entries(Gathered(bs, start, n), target)))
  }

  /** In a key-ordered sequence, an entry before position `m` has a key no larger than one from `m` on. */
  lemma SplitOrdered(sorted: seq<Entry>, m: nat, e: Entry, e': Entry)
    requires Sorting.SortedBy(sorted, EntryLe) && m <= |sorted|
    requires e in sorted[..m] && e' in multiset(sorted[m..])
    ensures e.key <= e'.key
  {
    var i :| 0 <= i < m && sorted[..m][i] == e;
    assert e' in sorted[m..];
    var j :| 0 <= j < |sorted| - m && sorted[m..][j] == e';
    assert sorted[i] == e && sorted[m + j] == e';
  }

  /** Cutting a key-ordered sequence to 20 keeps its smallest keys, still in order. */
  lemma CutKeepsSmallest(sorted: seq<Entry>)
    requires Sorting.SortedBy(sorted, EntryLe)
    ensures var r := Cut(sorted);
      && |r| == (if |sorted| <= ResultLimit then |sorted| else ResultLimit)
      && Sorting.SortedBy(r, EntryLe)
      && multiset(r) <= multiset(sorted)
      && (forall e, e' :: e in r && e' in multiset(sorted) - multiset(r) ==> e.key <= e'.key)
  {
    var r := Cut(sorted);
    var rest := sorted[|r|..];
    assert r == sorted[..|r|];
    assert sorted == r + rest;
    assert multiset(sorted) - multiset(r) == multiset(rest);
    forall e, e' | e in r && e' in multiset(rest) ensures e.key <= e'.key {
      SplitOrdered(sorted, |r|, e, e');
    }
  }

  /**
   * The result holds at most 20 pairs, in ascending key order, drawn from the pairs of the
   * nodes read; each pair carries its node's key, and every pair left out has a key no
   * smaller than any pair kept.
   */
  lemma ClosestEntriesSpec(bs: seq<seq<Node>>, start: nat, target: Node, n: int)
    requires start < |bs|
    ensures var all := Entries(Gathered(bs, start, n), target);
            var r := ClosestEntries(bs, start, target, n);
      && |r| == (if |all| <= ResultLimit then |all| else ResultLimit)
      && Sorting.SortedBy(r, EntryLe)
      && multiset(r) <= multiset(all)
      && (forall e :: e in r ==> e.key == DistanceKey(XorNode(target, e.node).data))
      && (forall e, e' :: e in r && e' in multiset(all) - multiset(r) ==> e.key <= e'.key)
  {
    var all := Entries(Gathered(bs, start, n), target);
    var sorted := SortEntries(all);
    var r := ClosestEntries(bs, start, target, n);
    SortEntriesSorted(all);
    assert |sorted| == |all| by {
      assert |multiset(sorted)| == |multiset(all)|;
    }
    CutKeepsSmallest(sorted);
    forall e | e in r ensures e.key == DistanceKey(XorNode(target, e.node).data) {
      assert e in multiset(r);
      assert e in multiset(all);
    }
  }

  /**
   * When the table holds fewer than `n` nodes, and at most 20, the search reads every bucket
   * and the result holds the pair of every node of the table.
   */
  lemma ClosestEntriesUnderpopulated(bs: seq<seq<Node>>, start: nat, target: Node, n: int)
    requires start < |bs|
    requires Expansion.Total(bs) < n && Expansion.Total(bs) <= ResultLimit
    ensures var r := ClosestEntries(bs, start, target, n);
      && |r| == Expansion.Total(bs)
      && forall b, x :: 0 <= b < |bs| && x in bs[b] ==> Entry(DistanceKey(XorNode(target, x).data), x) in r
  {
    Expansion.SmallTableReadsAll(bs, start, n, 0);
    var gathered := Gathered(bs, start, n);
    var all := Entries(gathered, target);
    var sorted := SortEntries(all);
    assert |sorted| == |all| by {
      assert |multiset(sorted)| == |multiset(all)|;
    }
    forall b, x | 0 <= b < |bs| && x in bs[b] ensures Entry(DistanceKey(XorNode(target, x).data), x) in sorted {
      assert x in gathered;
      var k :| 0 <= k < |gathered| && gathered[k] == x;
      assert all[k] == Entry(DistanceKey(XorNode(target, x).data), x);
      assert all[k] in multiset(sorted);
    }
  }

  /** A run of empty buckets holds nothing. */
  lemma {:induction false} SizeInEmpty(bs: seq<seq<Node>>, lo: nat, hi: nat)
    requires lo <= hi <= |bs|
    requires forall b :: lo <= b < hi ==> bs[b] == []
    ensures Expansion.SizeIn(bs, lo, hi) == 0
    decreases hi - lo
  {
    if lo < hi {
      SizeInEmpty(bs, lo + 1, hi);
    }
  }

  /** The table of the `find_closest` test: buckets 4, 3, 5 and 10 filled with six nodes. */
  function ScenarioTable(nodes: seq<Node>): (bs: seq<seq<Node>>)
    requires |nodes| == 6
    ensures |bs| == BucketCount
  {
    EmptyBuckets()[4 := nodes[..2]][3 := [nodes[2]]][5 := nodes[3..5]][10 := [nodes[5]]]
  }

  lemma ScenarioTotal(nodes: seq<Node>)
    requires |nodes| == 6
    ensures Expansion.Total(ScenarioTable(nodes)) == 6
    ensures forall k :: 0 <= k < 6 ==> exists b :: 0 <= b < BucketCount && nodes[k] in ScenarioTable(nodes)[b]
  {
    var bs := ScenarioTable(nodes);
    assert forall b :: 0 <= b < BucketCount && b != 3 && b != 4 && b != 5 && b != 10 ==> bs[b] == [];
    SizeInEmpty(bs, 0, 3);
    SizeInEmpty(bs, 6, 10);
    SizeInEmpty(bs, 11, |bs|);
    Expansion.SizeInSplit(bs, 0, 3, |bs|);
    Expansion.SizeInSplit(bs, 3, 6, |bs|);
    Expansion.SizeInSplit(bs, 6, 10, |bs|);
    Expansion.SizeInSplit(bs, 10, 11, |bs|);
    assert Expansion.SizeIn(bs, 3, 6) == 5;
    assert Expansion.SizeIn(bs, 10, 11) == 1;
    forall k | 0 <= k < 6 ensures exists b :: 0 <= b < BucketCount && nodes[k] in bs[b] {
      var b := if k < 2 then 4 else if k == 2 then 3 else if k < 5 then 5 else 10;
      assert nodes[k] in bs[b];
    }
  }

  /**
   * Six nodes filed as two in bucket 4, one in bucket 3, two in bucket 5 and one in
   * bucket 10, searched from bucket 4 for 20: the result is the six pairs, in key order.
   */
  lemma FindClosestScenario(nodes: seq<Node>, target: Node)
    requires |nodes| == 6
    ensures var r := ClosestEntries(ScenarioTable(nodes), 4, target, 20);
      && |r| == 6
      && Sorting.SortedBy(r, EntryLe)
      && forall k :: 0 <= k < 6 ==> Entry(DistanceKey(XorNode(target, nodes[k]).data), nodes[k]) in r
  {
    var bs := ScenarioTable(nodes);
    ScenarioTotal(nodes);
    ClosestEntriesUnderpopulated(bs, 4, target, 20);
    ClosestEntriesSpec(bs, 4, target, 20);
  }

  /** The data of a node: the only thing `==` compares. */
  function NodeData(n: Node): NodeId {
    n.data
  }

  /** In a well-placed table no two buckets, and no bucket, hold equal nodes. */
  lemma WellPlacedKeysApart(local: Node, bs: seq<seq<Node>>)
    requires WellPlaced(local, bs)
    ensures Expansion.KeysApart(bs, NodeData)
  {
    forall i, j, x, y | 0 <= i < |bs| && 0 <= j < |bs| && i != j && x in bs[i] && y in bs[j]
      ensures NodeData(x) != NodeData(y)
    {
      var p :| 0 <= p < |bs[i]| && bs[i][p] == x;
      var q :| 0 <= q < |bs[j]| && bs[j][q] == y;
    }
  }

  /** On a well-placed table the result names no node twice. */
  lemma ClosestEntriesDistinct(local: Node, bs: seq<seq<Node>>, start: nat, target: Node, n: int)
    requires WellPlaced(local, bs) && start < |bs|
    ensures var r := ClosestEntries(bs, start, target, n);
      forall i, j :: 0 <= i < j < |r| ==> !Eq(r[i].node, r[j].node)
  {
    var gathered := Gathered(bs, start, n);
    var all := Entries(gathered, target);
    var sorted := SortEntries(all);
    var r := ClosestEntries(bs, start, target, n);
    WellPlacedKeysApart(local, bs);
    Expansion.CollectedDistinct(bs, start, Expansion.StopRound(bs, start, n, 0), NodeData);
    assert Sorting.NoRepeats(all) by {
      forall p, q | 0 <= p < q < |all| ensures all[p] != all[q] {
        assert NodeData(gathered[p]) != NodeData(gathered[q]);
      }
    }
    Sorting.PermutationKeepsNoRepeats(sorted, all);
    forall i, j | 0 <= i < j < |r| ensures !Eq(r[i].node, r[j].node) {
      assert r[i] == sorted[i] && r[j] == sorted[j];
      assert sorted[i] in multiset(all) && sorted[j] in multiset(all);
      var p :| 0 <= p < |all| && all[p] == sorted[i];
      var q :| 0 <= q < |all| && all[q] == sorted[j];
      assert p != q;
      if p < q {
        assert NodeData(gathered[p]) != NodeData(gathered[q]);
      } else {
        assert NodeData(gathered[q]) != NodeData(gathered[p]);
      }
    }
  }

  /**
   * Ascending key order puts the farthest nodes first: of two pairs in the result whose
   * nodes differ from the target, a later pair with a larger key is strictly closer to the
   * target in XOR distance.
   */
  lemma ClosestEntriesFarthestFirst(bs: seq<seq<Node>>, start: nat, target: Node, n: int, i: nat, j: nat)
    requires start < |bs|
    requires i < j < |ClosestEntries(bs, start, target, n)|
    requires var r := ClosestEntries(bs, start, target, n);
      !Eq(target, r[i].node) && !Eq(target, r[j].node) && r[i].key < r[j].key
    ensures var r := ClosestEntries(bs, start, target, n);
      Less(Xor(target.data, r[j].node.data), Xor(target.data, r[i].node.data))
  {
    var r := ClosestEntries(bs, start, target, n);
    ClosestEntriesSpec(bs, start, target, n);
    assert r[i] in r && r[j] in r;
    var x, y := Xor(target.data, r[i].node.data), Xor(target.data, r[j].node.data);
    EqualityLaws(target, r[i].node, r[i].node);
    EqualityLaws(target, r[j].node, r[j].node);
    DistanceKeyIsPrefixLen(x);
    DistanceKeyIsPrefixLen(y);
    LongerPrefixIsCloser(x, y);
  }

  /**
   * The exception to farthest-first: a node equal to the target has key 140, so ascending
   * key order puts it ahead of every node whose key is above 140, although it is closer to
   * the target than any of them.
   */
  lemma ExactMatchSortsAsFar(target: Node, m: Node, f: Node)
    requires Eq(target, m) && DistanceKey(XorNode(target, f).data) > 140
    ensures DistanceKey(XorNode(target, m).data) == 140 < DistanceKey(XorNode(target, f).data)
    ensures Less(Xor(target.data, m.data), Xor(target.data, f.data))
  {
    var z, y := Xor(target.data, m.data), Xor(target.data, f.data);
    XorKeySymmetric(target, m);
    XorSelfIsZero(target.data);
    assert z == Zero;
    XorKeySymmetric(target, f);
    assert y != Zero;
    LessTrichotomy(z, y);
    LessCharacterised(y, z);
  }

  // ------------------------------------------------------------------- Table

  class RoutingTable {
    const node: Node
    var buckets: seq<seq<Node>>

    ghost predicate Valid()
      reads this
    {
      WellPlaced(node, buckets)
    }

    /**
     * `RoutingTable.__init__`: 256 empty buckets, then one `update` with the bootstrap node
     * when one is given.
     */
    constructor (node: Node, bootstrap: Option<Node>)
      ensures Valid() && this.node == node
      ensures bootstrap.None? ==> buckets == EmptyBuckets()
      ensures bootstrap.Some? ==> buckets == UpdatedTable(node, EmptyBuckets(), bootstrap.value)
    {
      this.node := node;
      buckets := EmptyBuckets();
      new;
      if bootstrap.Some? {
        Update(bootstrap.value);
      }
    }

    /**
     * `update`: appends `n` to the back of bucket `distance_key(self.node ^ n)` unless an
     * equal node is already there; every other bucket is left as it was.
     */
    method Update(n: Node)
      requires Valid()
      modifies this
      ensures Valid()
      ensures buckets == UpdatedTable(node, old(buckets), n)
      ensures forall b :: 0 <= b < BucketCount && b != BucketOf(node, n) ==> buckets[b] == old(buckets[b])
    {
      UpdatePreservesInvariant(node, buckets, n);
      var bucketN := ComputeDistanceKey(XorNode(node, n).data);
      if !Holds(buckets[bucketN], n) {
        buckets := buckets[bucketN := buckets[bucketN] + [n]];
      }
    }

    /** `find_closest`: the search started at the bucket of the target. */
    method FindClosest(target: Node, n: int := DefaultWanted) returns (result: seq<Entry>)
      requires |buckets| == BucketCount
      ensures result == ClosestEntries(buckets, BucketOf(node, target), target, n)
    {
      var start := ComputeDistanceKey(XorNode(node, target).data);
      result := FindClosestBucket(start, target, n);
    }

    /**
     * `_find_closest_bucket`: round `shift` reads bucket `start - shift` and, from round 1
     * on, bucket `start + shift`; the loop stops at the top of a round once both sides were
     * out of range in the previous round or `n` pairs are held. The pairs are then sorted
     * and cut to 20.
     */
    method FindClosestBucket(start: nat, target: Node, n: int := DefaultWanted) returns (result: seq<Entry>)
      requires start < |buckets|
      ensures result == ClosestEntries(buckets, start, target, n)
    {
      var shift := 0;
      var found: seq<Entry> := [];
      var finishedLeft, finishedRight := false, false;
      while !finishedLeft || !finishedRight
        invariant 0 <= shift <= |buckets| + 1
        invariant shift == 0 ==> !finishedLeft && !finishedRight
        invariant shift > 0 ==> finishedLeft == (start < shift - 1)
        invariant shift > 0 ==> finishedRight == (|buckets| <= start + shift - 1)
        invariant found == Entries(Expansion.Collected(buckets, start, shift), target)
        invariant forall s :: 0 <= s < shift ==> !Expansion.Stops(buckets, start, n, s)
        decreases |buckets| + 1 - shift
      {
        if |found| >= n {
          break;
        }
        assert !Expansion.Stops(buckets, start, n, shift);
        found := ReadShift(start, target, shift, found);
        finishedLeft := start - shift < 0;
        finishedRight := start + shift >= |buckets|;
        RoundEntries(buckets, start, shift, target);
        shift := shift + 1;
      }
      Expansion.StopRoundIs(buckets, start, n, 0, shift);
      result := Cut(SortEntries(found));
    }

    /** The two reads of round `shift`, each only when its index is in range. */
    method ReadShift(start: nat, target: Node, shift: nat, found: seq<Entry>) returns (next: seq<Entry>)
      requires start < |buckets|
      ensures shift == 0 ==> next == found + Entries(Expansion.Side(buckets, start), target)
      ensures shift > 0 ==> next == found + Entries(Expansion.Side(buckets, start - shift), target)
                                          + Entries(Expansion.Side(buckets, start + shift), target)
    {
      next := found;
      var leftIdx := start - shift;
      if leftIdx >= 0 {
        next := next + Entries(buckets[leftIdx], target);
      }
      var rightIdx := start + shift;
      if rightIdx < |buckets| && shift > 0 {
        next := next + Entries(buckets[rightIdx], target);
      }
    }
  }
}
