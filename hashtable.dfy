/**
 * The separate-chaining hash table every keyed lookup of the application goes
 * through: a fixed array of buckets, each None or a list of [key, value] pairs.
 */
module HashTables {
  import opened Wrappers

  /** Number of buckets a table gets when none is asked for. */
  const DefaultLength: nat := 4

  /** The modulus of Python's hash() on int: 2**61 - 1. */
  const HashModulus: int := 0x1FFF_FFFF_FFFF_FFFF

  /** Python's hash() on an int. */
  function PyIntHash(n: int): (r: int)
    ensures 0 <= n < HashModulus ==> r == n
    ensures r != -1
  {
    var m := if n >= 0 then n % HashModulus else -((-n) % HashModulus);
    if m == -1 then -2 else m
  }

  // ---------------------------------------------------------------------------
  // Buckets as values
  // ---------------------------------------------------------------------------

  type Bucket<K, V> = seq<(K, V)>
  type Buckets<K, V> = seq<Option<Bucket<K, V>>>

  /** Index of the first pair of `b` whose key is k, or |b| when there is none. */
  function KeyPos<K(==), V>(b: Bucket<K, V>, k: K): (j: nat)
    ensures j <= |b|
    ensures j < |b| ==> b[j].0 == k
    ensures forall j' :: 0 <= j' < j ==> b[j'].0 != k
  {
    if b == [] then 0 else if b[0].0 == k then 0 else 1 + KeyPos(b[1..], k)
  }

  /** The first position holding key k is determined by the keys before it. */
  lemma KeyPosIs<K, V>(b: Bucket<K, V>, k: K, j: nat)
    requires j <= |b| && (j < |b| ==> b[j].0 == k)
    requires forall j' :: 0 <= j' < j ==> b[j'].0 != k
    ensures KeyPos(b, k) == j
  {
  }

  /** The value paired with k in bucket b, if any. */
  function Find<K(==), V>(b: Bucket<K, V>, k: K): Option<V> {
    var j := KeyPos(b, k);
    if j < |b| then Some(b[j].1) else None
  }

  /** What put(k, v) makes of a bucket: overwrite the pair for k in place, or append one. */
  function Updated<K(==), V>(b: Bucket<K, V>, k: K, v: V): (r: Bucket<K, V>)
    ensures |r| == if KeyPos(b, k) < |b| then |b| else |b| + 1
  {
    var j := KeyPos(b, k);
    if j < |b| then b[j := (k, v)] else b + [(k, v)]
  }

  /** The key of the j-th pair of a bucket. */
  function KeyOf<K, V>(b: Bucket<K, V>, j: nat): K
    requires j < |b|
  {
    b[j].0
  }

  /** Keys of a bucket are pairwise different. */
  ghost predicate DistinctKeys<K, V>(b: Bucket<K, V>) {
    forall j, j' :: 0 <= j < |b| && 0 <= j' < |b| && KeyOf(b, j) == KeyOf(b, j') ==> j == j'
  }

  /** The bucket a key belongs to among n buckets. */
  function IndexOf<K>(hash: K -> int, n: nat, k: K): (i: nat)
    requires n > 0
    ensures i < n
  {
    hash(k) % n
  }

  /** The pairs of bucket i, a bucket that is None holding none. */
  function BucketAt<K, V>(bs: Buckets<K, V>, i: nat): Bucket<K, V>
    requires i < |bs|
  {
    if bs[i].Some? then bs[i].value else []
  }

  /** What a search of k's bucket finds. */
  function LookupIn<K(==), V>(bs: Buckets<K, V>, hash: K -> int, k: K): Option<V>
    requires |bs| > 0
  {
    Find(BucketAt(bs, IndexOf(hash, |bs|, k)), k)
  }

  /** The representation invariant, with `contents` the dictionary the buckets stand for. */
  ghost predicate WellFormed<K(!new), V>(bs: Buckets<K, V>, hash: K -> int, contents: map<K, V>) {
    |bs| > 0 &&
    (forall i, j :: 0 <= i < |bs| && 0 <= j < |BucketAt(bs, i)| ==> IndexOf(hash, |bs|, BucketAt(bs, i)[j].0) == i) &&
    (forall i :: 0 <= i < |bs| ==> DistinctKeys(BucketAt(bs, i))) &&
    (forall k {:trigger LookupIn(bs, hash, k)} :: LookupIn(bs, hash, k) == (if k in contents then Some(contents[k]) else None))
  }

  /** All pairs of all buckets, bucket by bucket, a missing bucket contributing nothing. */
  function Flatten<K, V>(bs: Buckets<K, V>): seq<(K, V)> {
    if bs == [] then [] else Flatten(bs[..|bs| - 1]) + BucketAt(bs, |bs| - 1)
  }

  predicate NoMissingBucket<K, V>(bs: Buckets<K, V>) {
    forall i :: 0 <= i < |bs| ==> bs[i].Some?
  }

  /** Overwriting or appending the pair for k leaves every other key's entry alone. */
  lemma FindUpdatedOther<K, V>(b: Bucket<K, V>, k: K, v: V, k': K)
    requires k' != k
    ensures Find(Updated(b, k, v), k') == Find(b, k')
  {
    var u := Updated(b, k, v);
    var p := KeyPos(b, k');
    if p < |b| {
      KeyPosIs(u, k', p);
    } else {
      KeyPosIs(u, k', |u|);
    }
  }

  /** After overwriting or appending, k is found with v. */
  lemma FindUpdatedSame<K, V>(b: Bucket<K, V>, k: K, v: V)
    ensures Find(Updated(b, k, v), k) == Some(v)
  {
    KeyPosIs(Updated(b, k, v), k, KeyPos(b, k));
  }

  /** What put(k, v) makes of the bucket array. */
  function PutInto<K(==), V>(bs: Buckets<K, V>, hash: K -> int, k: K, v: V): (r: Buckets<K, V>)
    requires |bs| > 0
    ensures |r| == |bs|
  {
    var i := IndexOf(hash, |bs|, k);
    bs[i := Some(Updated(BucketAt(bs, i), k, v))]
  }

  /** After put every pair still sits in the bucket its key hashes to. */
  lemma PutKeepsPlaces<K(!new), V>(bs: Buckets<K, V>, hash: K -> int, contents: map<K, V>, k: K, v: V)
    requires WellFormed(bs, hash, contents)
    ensures var bs' := PutInto(bs, hash, k, v);
            forall i', j :: 0 <= i' < |bs'| && 0 <= j < |BucketAt(bs', i')| ==> IndexOf(hash, |bs'|, BucketAt(bs', i')[j].0) == i'
  {
    var i := IndexOf(hash, |bs|, k);
    var b := BucketAt(bs, i);
    var bs' := PutInto(bs, hash, k, v);
    forall i', j | 0 <= i' < |bs'| && 0 <= j < |BucketAt(bs', i')|
      ensures IndexOf(hash, |bs'|, BucketAt(bs', i')[j].0) == i'
    {
      if i' != i {
        assert BucketAt(bs', i') == BucketAt(bs, i');
      } else if j < |b| {
        assert BucketAt(bs', i')[j].0 == b[j].0;
      } else {
        assert BucketAt(bs', i')[j].0 == k;
      }
    }
  }

  /** After put every bucket still holds each key at most once. */
  lemma PutKeepsDistinct<K(!new), V>(bs: Buckets<K, V>, hash: K -> int, contents: map<K, V>, k: K, v: V)
    requires WellFormed(bs, hash, contents)
    ensures var bs' := PutInto(bs, hash, k, v);
            forall i' :: 0 <= i' < |bs'| ==> DistinctKeys(BucketAt(bs', i'))
  {
    var i := IndexOf(hash, |bs|, k);
    var bs' := PutInto(bs, hash, k, v);
    var b, b' := BucketAt(bs, i), BucketAt(bs', i);
    assert DistinctKeys(b);
    var p := KeyPos(b, k);
    forall j, j' | 0 <= j < |b'| && 0 <= j' < |b'| && j != j' ensures KeyOf(b', j) != KeyOf(b', j') {
      if j != p && j' != p {
        assert KeyOf(b', j) == KeyOf(b, j) && KeyOf(b', j') == KeyOf(b, j');
      } else {
        var o := if j == p then j' else j;
        assert KeyOf(b', p) == k && KeyOf(b', o) == KeyOf(b, o);
        if o > p {
          assert KeyOf(b, o) != KeyOf(b, p);
        }
      }
    }
    forall i' | 0 <= i' < |bs'| && i' != i ensures DistinctKeys(BucketAt(bs', i')) {
      assert BucketAt(bs', i') == BucketAt(bs, i');
    }
  }

  /** After put the buckets answer every lookup as contents[k := v] does. */
  lemma PutKeepsLookups<K(!new), V>(bs: Buckets<K, V>, hash: K -> int, contents: map<K, V>, k: K, v: V)
    requires WellFormed(bs, hash, contents)
    ensures var bs' := PutInto(bs, hash, k, v);
            forall k' {:trigger LookupIn(bs', hash, k')} ::
              LookupIn(bs', hash, k') == (if k' in contents[k := v] then Some(contents[k := v][k']) else None)
  {
    var i := IndexOf(hash, |bs|, k);
    var b := BucketAt(bs, i);
    var bs' := PutInto(bs, hash, k, v);
    forall k' ensures LookupIn(bs', hash, k') == (if k' in contents[k := v] then Some(contents[k := v][k']) else None) {
      var ik := IndexOf(hash, |bs|, k');
      assert LookupIn(bs, hash, k') == (if k' in contents then Some(contents[k']) else None);
      if k' == k {
        FindUpdatedSame(b, k, v);
      } else if ik == i {
        FindUpdatedOther(b, k, v, k');
      } else {
        assert BucketAt(bs', ik) == BucketAt(bs, ik);
      }
    }
  }

  /** put keeps the representation invariant and the buckets then stand for contents[k := v]. */
  lemma PutKeepsWellFormed<K(!new), V>(bs: Buckets<K, V>, hash: K -> int, contents: map<K, V>, k: K, v: V)
    requires WellFormed(bs, hash, contents)
    ensures WellFormed(PutInto(bs, hash, k, v), hash, contents[k := v])
  {
    PutKeepsPlaces(bs, hash, contents, k, v);
    PutKeepsDistinct(bs, hash, contents, k, v);
    PutKeepsLookups(bs, hash, contents, k, v);
  }

  // ---------------------------------------------------------------------------
  // The table
  // ---------------------------------------------------------------------------

  class HashTable<K(==,!new), V> {
    /** Python's hash() on keys: an arbitrary function fixed for the life of the table. */
    const hash: K -> int
    var buckets: array<Option<Bucket<K, V>>>

    ghost var Contents: map<K, V>
    ghost var Repr: set<object>

    ghost predicate Valid()
      reads this, Repr
    {
      Repr == {this, buckets} && WellFormed(buckets[..], hash, Contents)
    }

    /** Validity and contents depend only on the objects the table owns. */
    twostate lemma StillValid()
      requires old(Valid()) && unchanged(this) && unchanged(old(Repr))
      ensures Valid() && Contents == old(Contents)
    {
    }

    /** The bucket k belongs to. */
    function Index(k: K): (i: nat)
      reads this, buckets
      requires buckets.Length > 0
      ensures i < buckets.Length
    {
      IndexOf(hash, buckets.Length, k)
    }

    constructor (length: nat, hash: K -> int)
      requires length > 0
      ensures Valid() && fresh(Repr)
      ensures this.hash == hash && buckets.Length == length
      ensures forall i :: 0 <= i < length ==> buckets[i] == None
      ensures Contents == map[]
    {
      this.hash := hash;
      buckets := new Option<Bucket<K, V>>[length](_ => None);
      Contents := map[];
      new;
      Repr := {this, buckets};
    }

    /** put: insert k with v, or overwrite the value already paired with k. */
    method Put(k: K, v: V)
      requires Valid()
      modifies Repr
      ensures Valid() && Repr == old(Repr)
      ensures buckets == old(buckets)
      ensures Contents == old(Contents)[k := v]
      ensures buckets[..] == old(buckets[..])[Index(k) := Some(Updated(BucketAt(old(buckets[..]), Index(k)), k, v))]
    {
      var i := hash(k) % buckets.Length;
      var b := if buckets[i].Some? then buckets[i].value else [];
      var j := 0;
      while j < |b| && b[j].0 != k
        invariant 0 <= j <= |b|
        invariant forall j' :: 0 <= j' < j ==> b[j'].0 != k
      {
        j := j + 1;
      }
      KeyPosIs(b, k, j);
      PutKeepsWellFormed(buckets[..], hash, Contents, k, v);
      if j < |b| {
        buckets[i] := Some(b[j := (k, v)]);
      } else {
        buckets[i] := Some(b + [(k, v)]);
      }
      Contents := Contents[k := v];
    }

    /** get: the value paired with k, or None whether or not its bucket exists. */
    method Get(k: K) returns (r: Option<V>)
      requires Valid()
      ensures r == if k in Contents then Some(Contents[k]) else None
    {
      var i := hash(k) % buckets.Length;
      assert LookupIn(buckets[..], hash, k) == if k in Contents then Some(Contents[k]) else None;
      if buckets[i].None? {
        return None;
      }
      var b := buckets[i].value;
      for j := 0 to |b|
        invariant forall j' :: 0 <= j' < j ==> b[j'].0 != k
      {
        if b[j].0 == k {
          KeyPosIs(b, k, j);
          return Some(b[j].1);
        }
      }
      KeyPosIs(b, k, |b|);
      return None;
    }

    /** __contains__: searches k's bucket, which raises when that bucket was never created. */
    method Contains(k: K) returns (r: Result<bool, Error>)
      requires Valid()
      ensures buckets[Index(k)].None? ==> r == Err(BucketMissing)
      ensures buckets[Index(k)].Some? ==> r == Ok(k in Contents)
    {
      var i := hash(k) % buckets.Length;
      assert LookupIn(buckets[..], hash, k) == if k in Contents then Some(Contents[k]) else None;
      if buckets[i].None? {
        return Err(BucketMissing);
      }
      var b := buckets[i].value;
      for j := 0 to |b|
        invariant forall j' :: 0 <= j' < j ==> b[j'].0 != k
      {
        if b[j].0 == k {
          KeyPosIs(b, k, j);
          return Ok(true);
        }
      }
      KeyPosIs(b, k, |b|);
      return Ok(false);
    }

    /** __iter__: every pair, bucket by bucket; walking into a bucket that is None raises. */
    method Iter() returns (r: Result<seq<(K, V)>, Error>)
      requires Valid()
      ensures r.Err? <==> !NoMissingBucket(buckets[..])
      ensures r.Ok? ==> r.value == Flatten(buckets[..])
      ensures r.Err? ==> r.error == BucketMissing
    {
      var acc: seq<(K, V)> := [];
      for i := 0 to buckets.Length
        invariant acc == Flatten(buckets[..i])
        invariant NoMissingBucket(buckets[..i])
      {
        if buckets[i].None? {
          return Err(BucketMissing);
        }
        assert buckets[..i + 1][..i] == buckets[..i];
        acc := acc + buckets[i].value;
      }
      assert buckets[..buckets.Length] == buckets[..];
      return Ok(acc);
    }
  }

  // ---------------------------------------------------------------------------
  // Iteration
  // ---------------------------------------------------------------------------

  /** A pair found in bucket i hashes to i and is the dictionary's entry for its key. */
  lemma StoredPair<K(!new), V>(bs: Buckets<K, V>, hash: K -> int, contents: map<K, V>, i: nat, j: nat)
    requires WellFormed(bs, hash, contents) && i < |bs| && j < |BucketAt(bs, i)|
    ensures var kv := BucketAt(bs, i)[j];
            IndexOf(hash, |bs|, kv.0) == i && kv.0 in contents && contents[kv.0] == kv.1
  {
    var b := BucketAt(bs, i);
    var k := b[j].0;
    assert IndexOf(hash, |bs|, k) == i;
    assert DistinctKeys(b);
    forall j' | 0 <= j' < j ensures b[j'].0 != k {
      assert KeyOf(b, j') != KeyOf(b, j);
    }
    KeyPosIs(b, k, j);
    assert LookupIn(bs, hash, k) == Some(BucketAt(bs, i)[j].1);
  }

  /** Position bookkeeping for Flatten over the first n buckets. */
  lemma {:induction false} FlattenPrefixFacts<K(!new), V>(bs: Buckets<K, V>, hash: K -> int, contents: map<K, V>, n: nat)
    requires WellFormed(bs, hash, contents) && n <= |bs|
    ensures var items := Flatten(bs[..n]);
            (forall j :: 0 <= j < |items| ==> IndexOf(hash, |bs|, items[j].0) < n) &&
            DistinctKeys(items) &&
            (forall j :: 0 <= j < |items| ==> items[j].0 in contents && contents[items[j].0] == items[j].1)
  {
    if n > 0 {
      FlattenPrefixFacts(bs, hash, contents, n - 1);
      var prev := Flatten(bs[..n - 1]);
      assert DistinctKeys(prev);
      var last := BucketAt(bs, n - 1);
      assert bs[..n][..n - 1] == bs[..n - 1];
      assert BucketAt(bs[..n], n - 1) == last;
      var items := Flatten(bs[..n]);
      assert items == prev + last;
      forall j | |prev| <= j < |items|
        ensures IndexOf(hash, |bs|, items[j].0) == n - 1
        ensures items[j].0 in contents && contents[items[j].0] == items[j].1
      {
        StoredPair(bs, hash, contents, n - 1, j - |prev|);
      }
      forall j, j' | 0 <= j < |items| && 0 <= j' < |items| && j != j'
        ensures KeyOf(items, j) != KeyOf(items, j')
      {
        if j >= |prev| && j' >= |prev| {
          assert items[j] == last[j - |prev|] && items[j'] == last[j' - |prev|];
          assert DistinctKeys(last);
          assert KeyOf(last, j - |prev|) != KeyOf(last, j' - |prev|);
        } else if j < |prev| && j' < |prev| {
          assert items[j] == prev[j] && items[j'] == prev[j'];
          assert DistinctKeys(prev);
          assert KeyOf(prev, j) != KeyOf(prev, j');
        } else if j < |prev| {
          assert items[j] == prev[j];
          assert IndexOf(hash, |bs|, prev[j].0) < n - 1;
        } else {
          assert items[j'] == prev[j'];
          assert IndexOf(hash, |bs|, prev[j'].0) < n - 1;
        }
      }
    }
  }

  /** The p-th pair of bucket i appears in the flattening of the first n buckets. */
  lemma {:induction false} FlattenLocate<K, V>(bs: Buckets<K, V>, n: nat, i: nat, p: nat)
    requires i < n <= |bs| && p < |BucketAt(bs, i)|
    ensures exists j :: 0 <= j < |Flatten(bs[..n])| && Flatten(bs[..n])[j] == BucketAt(bs, i)[p]
  {
    assert bs[..n][..n - 1] == bs[..n - 1];
    assert BucketAt(bs[..n], n - 1) == BucketAt(bs, n - 1);
    var prev := Flatten(bs[..n - 1]);
    assert Flatten(bs[..n]) == prev + BucketAt(bs, n - 1);
    if i == n - 1 {
      assert Flatten(bs[..n])[|prev| + p] == BucketAt(bs, i)[p];
    } else {
      FlattenLocate(bs, n - 1, i, p);
      var j :| 0 <= j < |prev| && prev[j] == BucketAt(bs, i)[p];
      assert Flatten(bs[..n])[j] == BucketAt(bs, i)[p];
    }
  }

  /**
   * Iterating a table yields every stored pair exactly once, with the value
   * stored for its key, and nothing else.
   */
  lemma IterationExactlyOnce<K(!new), V>(bs: Buckets<K, V>, hash: K -> int, contents: map<K, V>)
    requires WellFormed(bs, hash, contents)
    ensures var items := Flatten(bs);
            DistinctKeys(items) &&
            (forall j :: 0 <= j < |items| ==> items[j].0 in contents && contents[items[j].0] == items[j].1) &&
            (forall k :: k in contents ==> exists j :: 0 <= j < |items| && items[j] == (k, contents[k]))
  {
    assert bs[..|bs|] == bs;
    FlattenPrefixFacts(bs, hash, contents, |bs|);
    var items := Flatten(bs);
    forall k | k in contents ensures exists j :: 0 <= j < |items| && items[j] == (k, contents[k]) {
      var i := IndexOf(hash, |bs|, k);
      var p := KeyPos(BucketAt(bs, i), k);
      assert LookupIn(bs, hash, k) == Some(contents[k]);
      FlattenLocate(bs, |bs|, i, p);
    }
  }
}
