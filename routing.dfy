/**
 * The routing table of main.go: 160 buckets indexed by the shared-prefix length of a
 * contact's id with the local id, each holding at most `BucketSize` contacts, most recently
 * seen first; `Update` records a contact and `FindClosest` gathers contacts bucket by
 * bucket around the target's bucket and sorts them by XOR distance to the target.
 *
 * Buckets are sequences (front = index 0) instead of `container/list` lists, and contacts
 * are compared by id. Where the Go code cannot terminate or loses its results, the model
 * does what the code evidently intends; README.md lists each such place.
 */
module Routing {
  import opened Wrappers
  import opened NodeIds
  import Expansion
  import Sorting

  const BucketSize: nat := 20

  datatype Contact = Contact(id: NodeId)

  /** A contact together with its XOR distance to the search target. */
  datatype ContactRecord = ContactRecord(node: Contact, sortKey: NodeId)

  /** The bucket a contact with id `id` belongs in. */
  function BucketIndex(local: NodeId, id: NodeId): (r: nat)
    ensures r < IdBits
  {
    PrefixLen(Xor(local, id))
  }

  // ------------------------------------------------------------ Bucket state

  ghost predicate NoDuplicateIds(bucket: seq<Contact>) {
    forall p, q :: 0 <= p < q < |bucket| ==> bucket[p].id != bucket[q].id
  }

  /**
   * The table invariant: one bucket per bit, every bucket within capacity, without
   * duplicate ids, and holding only contacts that belong in it.
   */
  ghost predicate WellPlaced(local: NodeId, bs: seq<seq<Contact>>) {
    && |bs| == IdBits
    && forall b :: 0 <= b < |bs| ==>
         && |bs[b]| <= BucketSize
         && NoDuplicateIds(bs[b])
         && forall k :: 0 <= k < |bs[b]| ==> BucketIndex(local, bs[b][k].id) == b
  }

  /** The position of the first contact with id `id`, if any. */
  function IndexOf(bucket: seq<Contact>, id: NodeId): (r: Option<nat>)
    ensures r.Some? ==> r.value < |bucket| && bucket[r.value].id == id
    ensures r.Some? ==> forall k :: 0 <= k < r.value ==> bucket[k].id != id
    ensures r.None? ==> forall k :: 0 <= k < |bucket| ==> bucket[k].id != id
  {
    if bucket == [] then None
    else if bucket[0].id == id then Some(0)
    else match IndexOf(bucket[1..], id)
      case None => None
      case Some(k) => Some(k + 1)
  }

  /**
   * `FindNodeInList`, as a linear scan that compares ids and advances one entry per step.
   * The Go loop never moves past the front element and compares the stored `*Contact`
   * pointer with the argument, so as written it spins on a non-matching front and only finds
   * the very same contact object; the model scans at most the bucket's 20 entries by id.
   */
  method FindNodeInList(bucket: seq<Contact>, id: NodeId) returns (r: Option<nat>)
    ensures r == IndexOf(bucket, id)
  {
    var i := 0;
    while i < |bucket|
      invariant 0 <= i <= |bucket|
      invariant forall k :: 0 <= k < i ==> bucket[k].id != id
    {
      var same := ComputeEquals(bucket[i].id, id);
      if same {
        return Some(i);
      }
      i := i + 1;
    }
    return None;
  }

  /**
   * What `Update` does to the one bucket it touches: a known contact moves to the front,
   * an unknown one is pushed to the front when there is room and dropped otherwise.
   */
  function UpdatedBucket(bucket: seq<Contact>, c: Contact): seq<Contact> {
    match IndexOf(bucket, c.id)
    case Some(i) => [bucket[i]] + bucket[..i] + bucket[i + 1..]
    case None => if |bucket| < BucketSize then [c] + bucket else bucket
  }

  /** The whole table after `Update(c)`. */
  function UpdatedTable(local: NodeId, bs: seq<seq<Contact>>, c: Contact): seq<seq<Contact>>
    requires |bs| == IdBits
  {
    bs[BucketIndex(local, c.id) := UpdatedBucket(bs[BucketIndex(local, c.id)], c)]
  }

  /**
   * Updating a contact already in the bucket keeps the bucket's length and contents and
   * puts that contact first; an unknown contact is added at the front exactly when the
   * bucket has room, and otherwise the bucket is left as it was.
   */
  lemma UpdatePolicy(bucket: seq<Contact>, c: Contact)
    ensures IndexOf(bucket, c.id).Some? ==>
      var r := UpdatedBucket(bucket, c);
      && |r| == |bucket|
      && r[0].id == c.id
      && multiset(r) == multiset(bucket)
    ensures IndexOf(bucket, c.id).None? && |bucket| < BucketSize ==>
      UpdatedBucket(bucket, c) == [c] + bucket
    ensures IndexOf(bucket, c.id).None? && |bucket| >= BucketSize ==>
      UpdatedBucket(bucket, c) == bucket
  {
    if IndexOf(bucket, c.id).Some? {
      var i := IndexOf(bucket, c.id).value;
      assert bucket == bucket[..i] + [bucket[i]] + bucket[i + 1..];
      calc {
        multiset(UpdatedBucket(bucket, c));
        multiset([bucket[i]]) + multiset(bucket[..i]) + multiset(bucket[i + 1..]);
        multiset(bucket[..i] + [bucket[i]] + bucket[i + 1..]);
      }
    }
  }

  /** Every contact of the updated bucket is `c` or was already in the bucket. */
  lemma UpdatedBucketFrom(bucket: seq<Contact>, c: Contact)
    ensures forall k :: 0 <= k < |UpdatedBucket(bucket, c)| ==>
      UpdatedBucket(bucket, c)[k] == c || UpdatedBucket(bucket, c)[k] in bucket
  {
    UpdatePolicy(bucket, c);
    var r := UpdatedBucket(bucket, c);
    if IndexOf(bucket, c.id).Some? {
      forall k | 0 <= k < |r| ensures r[k] in bucket {
        assert r[k] in multiset(r);
      }
    }
  }

  lemma UpdatedBucketNoDuplicates(bucket: seq<Contact>, c: Contact)
    requires NoDuplicateIds(bucket)
    ensures NoDuplicateIds(UpdatedBucket(bucket, c))
  {
    var r := UpdatedBucket(bucket, c);
    match IndexOf(bucket, c.id)
    case Some(i) =>
      // position p of r holds bucket[origin(p)]
      forall p, q | 0 <= p < q < |r| ensures r[p].id != r[q].id {
        var op := if p == 0 then i else if p <= i then p - 1 else p;
        var oq := if q == 0 then i else if q <= i then q - 1 else q;
        assert r[p] == bucket[op] && r[q] == bucket[oq];
        assert op != oq;
      }
    case None =>
      if |bucket| < BucketSize {
        forall p, q | 0 <= p < q < |r| ensures r[p].id != r[q].id {
          assert r[q] == bucket[q - 1];
          if p > 0 {
            assert r[p] == bucket[p - 1];
          }
        }
      }
  }

  /**
   * `Update` keeps the table invariant: no bucket exceeds 20 entries, none holds an id twice,
   * and every contact stays in the bucket it belongs in.
   */
  lemma UpdatePreservesInvariant(local: NodeId, bs: seq<seq<Contact>>, c: Contact)
    requires WellPlaced(local, bs)
    ensures WellPlaced(local, UpdatedTable(local, bs, c))
  {
    var idx := BucketIndex(local, c.id);
    var r := UpdatedBucket(bs[idx], c);
    UpdatePolicy(bs[idx], c);
    UpdatedBucketFrom(bs[idx], c);
    UpdatedBucketNoDuplicates(bs[idx], c);
    forall k | 0 <= k < |r| ensures BucketIndex(local, r[k].id) == idx {
      if r[k] != c {
        var j :| 0 <= j < |bs[idx]| && bs[idx][j] == r[k];
      }
    }
  }

  /**
   * When the bucket of an unknown contact is full, `Update` changes nothing, and the
   * contact is then in no bucket at all.
   */
  lemma FullBucketDropsNewcomer(local: NodeId, bs: seq<seq<Contact>>, c: Contact)
    requires WellPlaced(local, bs)
    requires |bs[BucketIndex(local, c.id)]| == BucketSize
    requires forall k :: 0 <= k < BucketSize ==> bs[BucketIndex(local, c.id)][k].id != c.id
    ensures UpdatedTable(local, bs, c) == bs
    ensures forall b, k :: 0 <= b < IdBits && 0 <= k < |bs[b]| ==> bs[b][k].id != c.id
  {
    var idx := BucketIndex(local, c.id);
    UpdatePolicy(bs[idx], c);
    assert bs[idx := bs[idx]] == bs;
  }

  // ---------------------------------------------------------- Search records

  /** The records `CopyXorToVector` makes of a bucket's contacts. */
  function Records(cs: seq<Contact>, target: NodeId): (r: seq<ContactRecord>) {
    seq(|cs|, i requires 0 <= i < |cs| => ContactRecord(cs[i], Xor(target, cs[i].id)))
  }

  lemma RecordsAppend(a: seq<Contact>, b: seq<Contact>, target: NodeId)
    ensures Records(a + b, target) == Records(a, target) + Records(b, target)
  {
  }

  lemma RecordOfMember(cs: seq<Contact>, target: NodeId, c: Contact)
    requires c in cs
    ensures ContactRecord(c, Xor(target, c.id)) in Records(cs, target)
  {
    var k :| 0 <= k < |cs| && cs[k] == c;
    assert Records(cs, target)[k] == ContactRecord(c, Xor(target, c.id));
  }

  /**
   * `CopyXorToVector`, appending one record per contact while advancing through the bucket,
   * and returning the extended vector. The Go loop never advances, and it appends to its
   * own copy of the slice header, so the caller never sees the records; the model returns
   * them.
   */
  method CopyXorToVector(bucket: seq<Contact>, vec: seq<ContactRecord>, target: NodeId)
    returns (out: seq<ContactRecord>)
    ensures out == vec + Records(bucket, target)
  {
    out := vec;
    var i := 0;
    while i < |bucket|
      invariant 0 <= i <= |bucket|
      invariant out == vec + Records(bucket[..i], target)
    {
      var key := ComputeXor(target, bucket[i].id);
      assert bucket[..i + 1] == bucket[..i] + [bucket[i]];
      RecordsAppend(bucket[..i], [bucket[i]], target);
      out := out + [ContactRecord(bucket[i], key)];
      i := i + 1;
    }
    assert bucket[..i] == bucket;
  }

  /** `ContactRecord.Less` and `ContactRecordSlice.Less`: order by distance key. */
  predicate RecordLess(a: ContactRecord, b: ContactRecord) {
    Less(a.sortKey, b.sortKey)
  }

  /**
   * Records of two contacts for the same target: the order between them is strict exactly
   * when the contacts differ, since XOR with the target keeps distinct ids distinct.
   */
  lemma RecordOrderStrict(target: NodeId, x: Contact, y: Contact)
    ensures var rx, ry := ContactRecord(x, Xor(target, x.id)), ContactRecord(y, Xor(target, y.id));
      && (x != y ==> RecordLess(rx, ry) != RecordLess(ry, rx))
      && (x == y ==> !RecordLess(rx, ry))
  {
    XorInjective(target, x.id, y.id);
    LessTrichotomy(Xor(target, x.id), Xor(target, y.id));
  }

  /** "Not farther than": the order the final sort arranges records in. */
  predicate RecordLe(a: ContactRecord, b: ContactRecord) {
    !RecordLess(b, a)
  }

  lemma RecordLeTotalPreorder()
    ensures Sorting.TotalPreorder(RecordLe)
  {
    forall x, y ensures RecordLe(x, y) || RecordLe(y, x) {
      LessTrichotomy(x.sortKey, y.sortKey);
    }
    forall x, y, z | RecordLe(x, y) && RecordLe(y, z) ensures RecordLe(x, z) {
      LessTrichotomy(x.sortKey, y.sortKey);
      LessTrichotomy(y.sortKey, z.sortKey);
      LessTrichotomy(x.sortKey, z.sortKey);
      if Less(z.sortKey, x.sortKey) {
        if x.sortKey == y.sortKey {
        } else if y.sortKey == z.sortKey {
        } else {
          LessTransitive(x.sortKey, y.sortKey, z.sortKey);
        }
      }
    }
  }

  /** The `sort.Sort` step: the records put in distance order (`SortRecordsSorted`). */
  function SortRecords(recs: seq<ContactRecord>): (r: seq<ContactRecord>)
    ensures multiset(r) == multiset(recs)
  {
    Sorting.InsertionSort(recs, RecordLe)
  }

  lemma SortRecordsSorted(recs: seq<ContactRecord>)
    ensures Sorting.SortedBy(SortRecords(recs), RecordLe)
  {
    RecordLeTotalPreorder();
    Sorting.InsertionSortSorted(recs, RecordLe);
  }

  /** The id of a contact: the only thing the table compares contacts by. */
  function ContactId(c: Contact): NodeId {
    c.id
  }

  /** In a well-placed table no id occurs twice, within a bucket or across buckets. */
  lemma WellPlacedKeysApart(local: NodeId, bs: seq<seq<Contact>>)
    requires WellPlaced(local, bs)
    ensures Expansion.KeysApart(bs, ContactId)
  {
    forall i, j, x, y | 0 <= i < |bs| && 0 <= j < |bs| && i != j && x in bs[i] && y in bs[j]
      ensures ContactId(x) != ContactId(y)
    {
      var p :| 0 <= p < |bs[i]| && bs[i][p] == x;
      var q :| 0 <= q < |bs[j]| && bs[j][q] == y;
    }
  }

  /** Records of contacts with distinct ids, put in `RecordLe` order, are strictly ordered. */
  lemma SortedRecordsStrict(cs: seq<Contact>, target: NodeId, result: seq<ContactRecord>)
    requires NoDuplicateIds(cs)
    requires multiset(result) == multiset(Records(cs, target))
    requires Sorting.SortedBy(result, RecordLe)
    ensures forall i, j :: 0 <= i < j < |result| ==> RecordLess(result[i], result[j])
  {
    var recs := Records(cs, target);
    assert Sorting.NoRepeats(recs) by {
      forall p, q | 0 <= p < q < |recs| ensures recs[p] != recs[q] {
        assert recs[p].node == cs[p] && recs[q].node == cs[q];
      }
    }
    Sorting.PermutationKeepsNoRepeats(result, recs);
    forall i, j | 0 <= i < j < |result| ensures RecordLess(result[i], result[j]) {
      assert result[i] in multiset(recs) && result[j] in multiset(recs);
      var p :| 0 <= p < |recs| && recs[p] == result[i];
      var q :| 0 <= q < |recs| && recs[q] == result[j];
      RecordOrderStrict(target, cs[p], cs[q]);
    }
  }

  /** One round of the search appends the records of the two buckets it reads. */
  lemma RoundRecords(bs: seq<seq<Contact>>, home: nat, s: nat, target: NodeId)
    requires s > 0
    ensures Records(Expansion.Collected(bs, home, s + 1), target)
         == Records(Expansion.Collected(bs, home, s), target)
            + Records(Expansion.Side(bs, home - s), target)
            + Records(Expansion.Side(bs, home + s), target)
  {
    var before := Expansion.Collected(bs, home, s);
    var l, r := Expansion.Side(bs, home - s), Expansion.Side(bs, home + s);
    Expansion.CollectedNext(bs, home, s);
    RecordsAppend(before + l, r, target);
    RecordsAppend(before, l, target);
  }

  /**
   * The contacts `FindClosest` gathers for `target`: the home bucket first, then the
   * buckets around it in reading order, up to the round at which the search stops.
   */
  function Gathered(local: NodeId, bs: seq<seq<Contact>>, target: NodeId, count: int): seq<Contact>
    requires |bs| == IdBits
  {
    var home := BucketIndex(local, target);
    Expansion.Collected(bs, home, Expansion.StopRound(bs, home, count, 1))
  }

  /** What `FindClosest` returns: the records of the gathered contacts, sorted by distance. */
  function ClosestRecords(local: NodeId, bs: seq<seq<Contact>>, target: NodeId, count: int): (r: seq<ContactRecord>)
    requires |bs| == IdBits
  {
    SortRecords(Records(Gathered(local, bs, target, count), target))
  }

  /**
   * The result of a search is a permutation of the records of the gathered contacts, and it
   * is strictly ordered by distance to the target (no contact appears twice); each record
   * carries its contact's distance to the target.
   */
  lemma ClosestRecordsOrdered(local: NodeId, bs: seq<seq<Contact>>, target: NodeId, count: int)
    requires WellPlaced(local, bs)
    ensures var r := ClosestRecords(local, bs, target, count);
      && multiset(r) == multiset(Records(Gathered(local, bs, target, count), target))
      && (forall i, j :: 0 <= i < j < |r| ==> RecordLess(r[i], r[j]))
      && (forall rec :: rec in r ==> rec.sortKey == Xor(target, rec.node.id))
  {
    var home := BucketIndex(local, target);
    var rounds := Expansion.StopRound(bs, home, count, 1);
    var gathered := Gathered(local, bs, target, count);
    var collected := Records(gathered, target);
    var result := ClosestRecords(local, bs, target, count);
    WellPlacedKeysApart(local, bs);
    Expansion.CollectedDistinct(bs, home, rounds, ContactId);
    assert NoDuplicateIds(gathered) by {
      forall p, q | 0 <= p < q < |gathered| ensures gathered[p].id != gathered[q].id {
        assert ContactId(gathered[p]) != ContactId(gathered[q]);
      }
    }
    SortRecordsSorted(collected);
    SortedRecordsStrict(gathered, target, result);
    forall rec | rec in result ensures rec.sortKey == Xor(target, rec.node.id) {
      assert rec in multiset(collected);
    }
  }

  /**
   * Every gathered contact comes from a bucket within the search's reach; a search that
   * ends with fewer than `count` records has read every bucket.
   */
  lemma GatheredReach(local: NodeId, bs: seq<seq<Contact>>, target: NodeId, count: int, c: Contact)
    requires |bs| == IdBits
    ensures c in Gathered(local, bs, target, count) ==>
      exists b :: 0 <= b < IdBits && c in bs[b]
    ensures |Gathered(local, bs, target, count)| < count ==>
      (c in Gathered(local, bs, target, count) <==> exists b :: 0 <= b < IdBits && c in bs[b])
  {
    var home := BucketIndex(local, target);
    var rounds := Expansion.StopRound(bs, home, count, 1);
    if c in Gathered(local, bs, target, count) {
      var b := Expansion.CollectedFrom(bs, home, rounds, c);
    }
    if |Gathered(local, bs, target, count)| < count {
      forall b | 0 <= b < IdBits && c in bs[b] ensures c in Gathered(local, bs, target, count) {
        Expansion.ShortSearchGathersAll(bs, home, count, 1, b, c);
      }
    }
  }

  /**
   * When the table holds fewer than `count` contacts the search reads every bucket, and its
   * result holds exactly one record for every contact of the table.
   */
  lemma ClosestRecordsUnderpopulated(local: NodeId, bs: seq<seq<Contact>>, target: NodeId, count: int)
    requires |bs| == IdBits
    requires Expansion.Total(bs) < count
    ensures var r := ClosestRecords(local, bs, target, count);
      && |r| == Expansion.Total(bs)
      && forall b, c :: 0 <= b < IdBits && c in bs[b] ==> ContactRecord(c, Xor(target, c.id)) in r
  {
    var home := BucketIndex(local, target);
    Expansion.SmallTableReadsAll(bs, home, count, 1);
    var gathered := Gathered(local, bs, target, count);
    var collected := Records(gathered, target);
    var result := ClosestRecords(local, bs, target, count);
    assert |result| == |collected| by {
      assert |multiset(result)| == |multiset(collected)|;
    }
    forall b, c | 0 <= b < IdBits && c in bs[b] ensures ContactRecord(c, Xor(target, c.id)) in result {
      assert c in gathered;
      RecordOfMember(gathered, target, c);
      assert ContactRecord(c, Xor(target, c.id)) in multiset(result);
    }
  }

  /**
   * One round of the loop of `FindClosest` at distance `toMove`: the records of bucket
   * `home - toMove` and then of bucket `home + toMove` are appended where those buckets
   * exist, and each side that does not exist is reported as passed.
   */
  method ReadRound(bs: seq<seq<Contact>>, home: nat, target: NodeId, toMove: nat, collected: seq<ContactRecord>)
    returns (next: seq<ContactRecord>, leftPassed: bool, rightPassed: bool)
    requires |bs| == IdBits && home < IdBits
    ensures next == collected + Records(Expansion.Side(bs, home - toMove), target)
                              + Records(Expansion.Side(bs, home + toMove), target)
    ensures leftPassed <==> home < toMove
    ensures rightPassed <==> IdBits <= home + toMove
  {
    var left := home - toMove;
    var right := home + toMove;
    next := collected;
    leftPassed, rightPassed := false, false;
    if left >= 0 {
      next := CopyXorToVector(bs[left], next, target);
    } else {
      leftPassed := true;
    }
    if right < IdBits {
      next := CopyXorToVector(bs[right], next, target);
    } else {
      rightPassed := true;
    }
  }

  // ------------------------------------------------------------------- Table

  class RoutingTable {
    const node: NodeId
    const buckets: array<seq<Contact>>

    ghost predicate Valid()
      reads this, buckets
    {
      buckets.Length == IdBits && WellPlaced(node, buckets[..])
    }

    /** `NewRoutingTable`: 160 empty buckets for the local id `node`. */
    constructor (node: NodeId)
      ensures Valid() && this.node == node && fresh(buckets)
      ensures forall b :: 0 <= b < IdBits ==> buckets[b] == []
    {
      this.node := node;
      buckets := new seq<Contact>[IdBits](b => []);
    }

    /**
     * `Update`: records that `c` was seen. Only bucket `PrefixLen(Xor(node, c.id))` changes,
     * as `UpdatedBucket` says.
     */
    method Update(c: Contact)
      requires Valid()
      modifies buckets
      ensures Valid()
      ensures buckets[..] == UpdatedTable(node, old(buckets[..]), c)
      ensures forall b :: 0 <= b < IdBits && b != BucketIndex(node, c.id) ==> buckets[b] == old(buckets[b])
    {
      ghost var before := buckets[..];
      var x := ComputeXor(node, c.id);
      var prefix := ComputePrefixLen(x);
      var bucket := buckets[prefix];
      var found := FindNodeInList(bucket, c.id);
      match found {
        case Some(i) =>
          buckets[prefix] := [bucket[i]] + bucket[..i] + bucket[i + 1..];
        case None =>
          if |bucket| < BucketSize {
            buckets[prefix] := [c] + bucket;
          }
      }
      assert buckets[..] == UpdatedTable(node, before, c);
      UpdatePreservesInvariant(node, before, c);
    }

    /**
     * `FindClosest`: gathers the records of the target's bucket and of the buckets around
     * it, round by round, until `count` records are gathered or both sides ran out; then
     * sorts them by distance key. The buckets are only read. The result is not cut to `count`.
     * The Go code starts from `count` nil records, which makes the loop exit at once and the
     * sort dereference nil, and never increments `to_move`; the model starts empty and widens
     * the radius by one per round.
     */
    method FindClosest(target: NodeId, count: int) returns (result: seq<ContactRecord>)
      requires buckets.Length == IdBits
      ensures result == ClosestRecords(node, buckets[..], target, count)
    {
      var bs := buckets[..];
      var x := ComputeXor(node, target);
      var home := ComputePrefixLen(x);
      var collected := CopyXorToVector(bs[home], [], target);
      Expansion.CollectedFirst(bs, home);
      var toMove := 1;
      var doneLeft, doneRight := false, false;
      while !doneLeft || !doneRight
        invariant 1 <= toMove <= IdBits + 1
        invariant doneLeft == (home < toMove - 1)
        invariant doneRight == (IdBits <= home + toMove - 1)
        invariant collected == Records(Expansion.Collected(bs, home, toMove), target)
        invariant forall s :: 1 <= s < toMove ==> !Expansion.Stops(bs, home, count, s)
        decreases IdBits + 1 - toMove
      {
        if |collected| >= count {
          break;
        }
        assert !Expansion.Stops(bs, home, count, toMove);
        var leftPassed, rightPassed;
        collected, leftPassed, rightPassed := ReadRound(bs, home, target, toMove, collected);
        doneLeft := doneLeft || leftPassed;
        doneRight := doneRight || rightPassed;
        RoundRecords(bs, home, toMove, target);
        toMove := toMove + 1;
      }
      Expansion.StopRoundIs(bs, home, count, 1, toMove);
      result := SortRecords(collected);
    }
  }
}
