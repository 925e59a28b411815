/**
 * The bucket-expansion order shared by both closest-node searches. Round 0 reads the
 * start bucket; round s > 0 reads bucket `start - s` and then bucket `start + s`, each
 * only when it is a valid index. The search stops at the top of a round once both sides
 * ran out of range in the previous round, or once enough entries have been gathered.
 *
 * The reads are numbered one by one: read 0 is the start bucket, read 2s-1 the left side
 * of round s and read 2s its right side, so rounds 0 .. r-1 make the first 2r-1 reads.
 */
module Expansion {

  /** The bucket at index `i`, or nothing when `i` is out of range. */
  function Side<T>(bs: seq<seq<T>>, i: int): seq<T> {
    if 0 <= i < |bs| then bs[i] else []
  }

  /** The distance from the start of read number `k`: 0, -1, 1, -2, 2, and so on. */
  function Offset(k: nat): int {
    if k == 0 then 0 else if Offset(k - 1) >= 0 then -Offset(k - 1) - 1 else -Offset(k - 1)
  }

  /** The bucket index of read number `k`. */
  function Visit(start: nat, k: nat): int {
    start + Offset(k)
  }

  /** The entries of the first `k` reads, in reading order. */
  function Visited<T>(bs: seq<seq<T>>, start: nat, k: nat): seq<T> {
    if k == 0 then [] else Visited(bs, start, k - 1) + Side(bs, Visit(start, k - 1))
  }

  /** The number of reads made by rounds `0 .. rounds - 1`. */
  function Reads(rounds: nat): nat {
    if rounds == 0 then 0 else 2 * rounds - 1
  }

  /** The entries read by rounds `0 .. rounds - 1`, in reading order. */
  function Collected<T>(bs: seq<seq<T>>, start: nat, rounds: nat): seq<T> {
    Visited(bs, start, Reads(rounds))
  }

  /** Each read appends the bucket it reads. */
  lemma VisitedStep<T>(bs: seq<seq<T>>, start: nat, k: nat)
    ensures Visited(bs, start, k + 1) == Visited(bs, start, k) + Side(bs, Visit(start, k))
  {
  }

  /** Read `2s - 1` is the left side and read `2s` the right side at distance `s`. */
  lemma {:induction false} OffsetSides(s: nat)
    requires s > 0
    ensures Offset(2 * s - 1) == -(s as int)
    ensures Offset(2 * s) == s
  {
    if s > 1 {
      OffsetSides(s - 1);
    }
  }

  lemma VisitSides(start: nat, s: nat)
    requires s > 0
    ensures Visit(start, 2 * s - 1) == start - s
    ensures Visit(start, 2 * s) == start + s
  {
    OffsetSides(s);
  }

  /** Round 0 reads the start bucket. */
  lemma CollectedFirst<T>(bs: seq<seq<T>>, start: nat)
    ensures Collected(bs, start, 1) == Collected(bs, start, 0) + Side(bs, start)
  {
    VisitedStep(bs, start, 0);
  }

  /** Two reads append the two buckets they read, in order. */
  lemma VisitedTwo<T>(bs: seq<seq<T>>, start: nat, k: nat)
    ensures Visited(bs, start, k + 2) == Visited(bs, start, k) + Side(bs, Visit(start, k)) + Side(bs, Visit(start, k + 1))
  {
    VisitedStep(bs, start, k + 1);
    VisitedStep(bs, start, k);
  }

  /** Round `s > 0` appends the left side and then the right side at distance `s`. */
  lemma CollectedNext<T>(bs: seq<seq<T>>, start: nat, s: nat)
    requires s > 0
    ensures Collected(bs, start, s + 1) == Collected(bs, start, s) + Side(bs, start - s) + Side(bs, start + s)
  {
    var k := 2 * s - 1;
    assert Reads(s) == k && Reads(s + 1) == k + 2;
    VisitSides(start, s);
    VisitedTwo(bs, start, k);
  }

  /** Both sides are out of range at distance `s` in a table of `nb` buckets. */
  predicate Exhausted(start: nat, nb: nat, s: nat) {
    start < s && nb <= start + s
  }

  /** The search stops at the top of round `rounds`. */
  predicate Stops<T>(bs: seq<seq<T>>, start: nat, wanted: int, rounds: nat) {
    || (rounds > 0 && Exhausted(start, |bs|, rounds - 1))
    || |Collected(bs, start, rounds)| >= wanted
  }

  /** The first round at or after `from` at whose top the search stops. */
  function StopRound<T>(bs: seq<seq<T>>, start: nat, wanted: int, from: nat): (r: nat)
    requires start < |bs| && from <= |bs| + 1
    ensures from <= r <= |bs| + 1
    ensures Stops(bs, start, wanted, r)
    ensures forall s :: from <= s < r ==> !Stops(bs, start, wanted, s)
    decreases |bs| + 1 - from
  {
    if Stops(bs, start, wanted, from) then from
    else StopRound(bs, start, wanted, from + 1)
  }

  /** A round where the search stops, with no stop before it, is the round `StopRound` finds. */
  lemma StopRoundIs<T>(bs: seq<seq<T>>, start: nat, wanted: int, from: nat, r: nat)
    requires start < |bs| && from <= r <= |bs| + 1
    requires Stops(bs, start, wanted, r)
    requires forall s :: from <= s < r ==> !Stops(bs, start, wanted, s)
    ensures StopRound(bs, start, wanted, from) == r
  {
  }

  // ------------------------------------------------------------- What is read

  /** The read number at which bucket `i` is read. */
  function ReadOf(start: nat, i: nat): (k: nat)
    ensures Visit(start, k) == i
  {
    if i < start then VisitSides(start, start - i); 2 * (start - i) - 1
    else if i == start then 0
    else VisitSides(start, i - start); 2 * (i - start)
  }

  /** Bucket `i` lies within distance `rounds - 1` of the start, so rounds `0 .. rounds - 1` read it. */
  predicate InWindow(start: nat, rounds: nat, i: int) {
    i < start + rounds && start < i + rounds
  }

  lemma ReadOfInWindow(start: nat, rounds: nat, i: nat)
    requires InWindow(start, rounds, i)
    ensures ReadOf(start, i) < Reads(rounds)
  {
  }

  /** Read `k` lies within distance `(k + 1) / 2` of the start. */
  lemma {:induction false} OffsetRange(k: nat)
    ensures -(k + 1) <= 2 * Offset(k) <= k
  {
    if k > 0 {
      OffsetRange(k - 1);
    }
  }

  lemma ReadInWindow(start: nat, rounds: nat, k: nat)
    requires k < Reads(rounds)
    ensures InWindow(start, rounds, Visit(start, k))
  {
    OffsetRange(k);
  }

  lemma InLeft<T>(a: seq<T>, b: seq<T>, x: T)
    requires x in a
    ensures x in a + b
  {
  }

  lemma InRight<T>(a: seq<T>, b: seq<T>, x: T)
    requires x in b
    ensures x in a + b
  {
  }

  lemma InEither<T>(a: seq<T>, b: seq<T>, x: T)
    requires x in a + b
    ensures x in a || x in b
  {
  }

  /** What read `k` finds is among the entries of any longer run of reads. */
  lemma {:induction false} VisitedHas<T>(bs: seq<seq<T>>, start: nat, n: nat, k: nat, x: T)
    requires k < n && x in Side(bs, Visit(start, k))
    ensures x in Visited(bs, start, n)
  {
    VisitedStep(bs, start, n - 1);
    if k < n - 1 {
      VisitedHas(bs, start, n - 1, k, x);
      InLeft(Visited(bs, start, n - 1), Side(bs, Visit(start, n - 1)), x);
    } else {
      InRight(Visited(bs, start, n - 1), Side(bs, Visit(start, n - 1)), x);
    }
  }

  /** Every entry of a run of reads was found by one of its reads. */
  lemma {:induction false} VisitedFrom<T>(bs: seq<seq<T>>, start: nat, n: nat, x: T) returns (k: nat)
    requires x in Visited(bs, start, n)
    ensures k < n && x in Side(bs, Visit(start, k))
  {
    VisitedStep(bs, start, n - 1);
    InEither(Visited(bs, start, n - 1), Side(bs, Visit(start, n - 1)), x);
    if x in Side(bs, Visit(start, n - 1)) {
      k := n - 1;
    } else {
      k := VisitedFrom(bs, start, n - 1, x);
    }
  }

  /** An entry of a bucket within the window of the rounds done has been read. */
  lemma CollectedHas<T>(bs: seq<seq<T>>, start: nat, rounds: nat, i: nat, x: T)
    requires i < |bs| && InWindow(start, rounds, i) && x in bs[i]
    ensures x in Collected(bs, start, rounds)
  {
    var k := ReadOf(start, i);
    ReadOfInWindow(start, rounds, i);
    VisitedHas(bs, start, Reads(rounds), k, x);
  }

  /** Every entry read comes from a bucket within the window of the rounds done. */
  lemma CollectedFrom<T>(bs: seq<seq<T>>, start: nat, rounds: nat, x: T) returns (i: nat)
    requires x in Collected(bs, start, rounds)
    ensures i < |bs| && InWindow(start, rounds, i) && x in bs[i]
  {
    var k := VisitedFrom(bs, start, Reads(rounds), x);
    ReadInWindow(start, rounds, k);
    i := Visit(start, k);
  }

  /**
   * A search that ends short of `wanted` entries ran out of buckets on both sides, so it
   * has read every entry of every bucket.
   */
  lemma ShortSearchGathersAll<T>(bs: seq<seq<T>>, start: nat, wanted: int, from: nat, i: nat, x: T)
    requires start < |bs| && from <= |bs| + 1
    requires |Collected(bs, start, StopRound(bs, start, wanted, from))| < wanted
    requires i < |bs| && x in bs[i]
    ensures x in Collected(bs, start, StopRound(bs, start, wanted, from))
  {
    var r := StopRound(bs, start, wanted, from);
    assert InWindow(start, r, i);
    CollectedHas(bs, start, r, i, x);
  }

  // ------------------------------------------------------------- How much is read

  /** The number of entries in buckets `lo .. hi - 1`. */
  function SizeIn<T>(bs: seq<seq<T>>, lo: nat, hi: nat): nat
    requires lo <= hi <= |bs|
    decreases hi - lo
  {
    if lo == hi then 0 else |bs[lo]| + SizeIn(bs, lo + 1, hi)
  }

  /** The number of entries held in all buckets together. */
  function Total<T>(bs: seq<seq<T>>): nat {
    SizeIn(bs, 0, |bs|)
  }

  lemma {:induction false} SizeInRight<T>(bs: seq<seq<T>>, lo: nat, hi: nat)
    requires lo <= hi < |bs|
    ensures SizeIn(bs, lo, hi + 1) == SizeIn(bs, lo, hi) + |bs[hi]|
    decreases hi - lo
  {
    if lo < hi {
      SizeInRight(bs, lo + 1, hi);
    }
  }

  lemma {:induction false} SizeInSplit<T>(bs: seq<seq<T>>, lo: nat, mid: nat, hi: nat)
    requires lo <= mid <= hi <= |bs|
    ensures SizeIn(bs, lo, hi) == SizeIn(bs, lo, mid) + SizeIn(bs, mid, hi)
    decreases mid - lo
  {
    if lo < mid {
      SizeInSplit(bs, lo + 1, mid, hi);
    }
  }

  /** The lowest bucket index read in rounds `0 .. rounds - 1` (for `rounds > 0`). */
  function WindowLo(start: nat, rounds: nat): nat {
    if rounds <= start + 1 then start + 1 - rounds else 0
  }

  /** One past the highest bucket index read in rounds `0 .. rounds - 1` (for `rounds > 0`). */
  function WindowHi(start: nat, nb: nat, rounds: nat): nat {
    if start + rounds <= nb then start + rounds else nb
  }

  lemma CollectedFirstSize<T>(bs: seq<seq<T>>, start: nat)
    requires start < |bs|
    ensures |Collected(bs, start, 1)| == |bs[start]|
  {
    CollectedFirst(bs, start);
  }

  lemma CollectedNextSize<T>(bs: seq<seq<T>>, start: nat, s: nat)
    requires s > 0
    ensures |Collected(bs, start, s + 1)| == |Collected(bs, start, s)| + |Side(bs, start - s)| + |Side(bs, start + s)|
  {
    CollectedNext(bs, start, s);
  }

  /** The rounds done have read the buckets of one contiguous range, each once. */
  lemma {:induction false} CollectedSize<T>(bs: seq<seq<T>>, start: nat, rounds: nat)
    requires start < |bs| && rounds > 0
    ensures WindowLo(start, rounds) <= WindowHi(start, |bs|, rounds) <= |bs|
    ensures |Collected(bs, start, rounds)| == SizeIn(bs, WindowLo(start, rounds), WindowHi(start, |bs|, rounds))
  {
    if rounds == 1 {
      CollectedFirstSize(bs, start);
      assert WindowLo(start, 1) == start && WindowHi(start, |bs|, 1) == start + 1;
      assert SizeIn(bs, start, start + 1) == |bs[start]|;
    } else {
      var s := rounds - 1;
      CollectedSize(bs, start, s);
      CollectedNextSize(bs, start, s);
      var lo, hi := WindowLo(start, s), WindowHi(start, |bs|, s);
      var size := SizeIn(bs, lo, hi);
      var lo', hi' := WindowLo(start, rounds), WindowHi(start, |bs|, rounds);
      if s <= start {
        assert lo' == lo - 1;
        assert SizeIn(bs, lo', hi) == |bs[lo']| + size;
      } else {
        assert lo' == lo;
      }
      assert SizeIn(bs, lo', hi) == |Side(bs, start - s)| + size;
      if start + s < |bs| {
        assert hi' == hi + 1 && hi == start + s;
        SizeInRight(bs, lo', hi);
      } else {
        assert hi' == hi;
      }
    }
  }

  /** The search never reads more entries than the buckets hold. */
  lemma CollectedAtMostTotal<T>(bs: seq<seq<T>>, start: nat, rounds: nat)
    requires start < |bs|
    ensures |Collected(bs, start, rounds)| <= Total(bs)
  {
    if rounds > 0 {
      CollectedSize(bs, start, rounds);
      var lo, hi := WindowLo(start, rounds), WindowHi(start, |bs|, rounds);
      SizeInSplit(bs, 0, lo, |bs|);
      SizeInSplit(bs, lo, hi, |bs|);
    }
  }

  /**
   * A search that ends short of `wanted` entries stopped because both sides ran out, so it
   * gathered exactly as many entries as the buckets hold.
   */
  lemma ShortSearchReadsAll<T>(bs: seq<seq<T>>, start: nat, wanted: int, from: nat)
    requires start < |bs| && from <= |bs| + 1
    requires |Collected(bs, start, StopRound(bs, start, wanted, from))| < wanted
    ensures |Collected(bs, start, StopRound(bs, start, wanted, from))| == Total(bs)
  {
    var r := StopRound(bs, start, wanted, from);
    assert r > 0 && Exhausted(start, |bs|, r - 1);
    CollectedSize(bs, start, r);
    assert WindowLo(start, r) == 0 && WindowHi(start, |bs|, r) == |bs|;
  }

  /** A table holding fewer than `wanted` entries is read in full. */
  lemma SmallTableReadsAll<T>(bs: seq<seq<T>>, start: nat, wanted: int, from: nat)
    requires start < |bs| && from <= |bs| + 1
    requires Total(bs) < wanted
    ensures |Collected(bs, start, StopRound(bs, start, wanted, from))| == Total(bs)
    ensures forall i, x :: 0 <= i < |bs| && x in bs[i] ==> x in Collected(bs, start, StopRound(bs, start, wanted, from))
  {
    CollectedAtMostTotal(bs, start, StopRound(bs, start, wanted, from));
    ShortSearchReadsAll(bs, start, wanted, from);
    forall i, x | 0 <= i < |bs| && x in bs[i]
      ensures x in Collected(bs, start, StopRound(bs, start, wanted, from))
    {
      ShortSearchGathersAll(bs, start, wanted, from, i, x);
    }
  }

  // ------------------------------------------------------------- Nothing is read twice

  /** The offset of a read determines its number. */
  lemma {:induction false} OffsetDeterminesRead(k: nat)
    ensures Offset(k) < 0 ==> k == -2 * Offset(k) - 1
    ensures Offset(k) >= 0 ==> k == 2 * Offset(k)
  {
    if k > 0 {
      OffsetDeterminesRead(k - 1);
    }
  }

  /** No bucket is read twice. */
  lemma VisitInjective(start: nat, k: nat, l: nat)
    requires k != l
    ensures Visit(start, k) != Visit(start, l)
  {
    OffsetDeterminesRead(k);
    OffsetDeterminesRead(l);
  }

  /** No two entries of `s` share a key under `key`. */
  ghost predicate DistinctBy<T, K>(s: seq<T>, key: T -> K) {
    forall i, j :: 0 <= i < j < |s| ==> key(s[i]) != key(s[j])
  }

  /** Every bucket has distinct keys, and entries of different buckets have different keys. */
  ghost predicate KeysApart<T, K>(bs: seq<seq<T>>, key: T -> K) {
    && (forall i :: 0 <= i < |bs| ==> DistinctBy(bs[i], key))
    && (forall i, j, x, y :: 0 <= i < |bs| && 0 <= j < |bs| && i != j && x in bs[i] && y in bs[j] ==> key(x) != key(y))
  }

  lemma DistinctByAppend<T, K>(a: seq<T>, b: seq<T>, key: T -> K)
    requires DistinctBy(a, key) && DistinctBy(b, key)
    requires forall x, y :: x in a && y in b ==> key(x) != key(y)
    ensures DistinctBy(a + b, key)
  {
    var c := a + b;
    forall i, j | 0 <= i < j < |c| ensures key(c[i]) != key(c[j]) {
      if j < |a| {
        assert c[i] == a[i] && c[j] == a[j];
      } else if |a| <= i {
        assert c[i] == b[i - |a|] && c[j] == b[j - |a|];
      } else {
        assert c[i] == a[i] && c[j] == b[j - |a|];
      }
    }
  }

  lemma SideDistinct<T, K>(bs: seq<seq<T>>, i: int, key: T -> K)
    requires forall b :: 0 <= b < |bs| ==> DistinctBy(bs[b], key)
    ensures DistinctBy(Side(bs, i), key)
  {
  }

  /** What read `n` finds shares no key with what the reads before it found. */
  lemma VisitedApart<T, K>(bs: seq<seq<T>>, start: nat, n: nat, key: T -> K)
    requires KeysApart(bs, key)
    ensures forall x, y :: x in Visited(bs, start, n) && y in Side(bs, Visit(start, n)) ==> key(x) != key(y)
  {
    forall x, y | x in Visited(bs, start, n) && y in Side(bs, Visit(start, n)) ensures key(x) != key(y) {
      var k := VisitedFrom(bs, start, n, x);
      VisitInjective(start, k, n);
    }
  }

  /** Reads of buckets whose keys are apart gather entries with distinct keys. */
  lemma {:induction false} VisitedDistinct<T, K>(bs: seq<seq<T>>, start: nat, n: nat, key: T -> K)
    requires KeysApart(bs, key)
    ensures DistinctBy(Visited(bs, start, n), key)
  {
    if n > 0 {
      var before, last := Visited(bs, start, n - 1), Side(bs, Visit(start, n - 1));
      VisitedDistinct(bs, start, n - 1, key);
      VisitedApart(bs, start, n - 1, key);
      SideDistinct(bs, Visit(start, n - 1), key);
      DistinctByAppend(before, last, key);
      VisitedStep(bs, start, n - 1);
    }
  }

  /** The rounds done gather entries with distinct keys when the buckets' keys are apart. */
  lemma CollectedDistinct<T, K>(bs: seq<seq<T>>, start: nat, rounds: nat, key: T -> K)
    requires KeysApart(bs, key)
    ensures DistinctBy(Collected(bs, start, rounds), key)
  {
    VisitedDistinct(bs, start, Reads(rounds), key);
  }
}
