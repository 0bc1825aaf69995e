/**
 * The S3 side of image deletion, as values: a bucket's keys in listing order, the prefix
 * listing `bucket.list(prefix=...)`, deleting one key, and the state a bucket reaches once
 * every key under a prefix is gone.
 *
 * A bucket's listing may lag behind deletions: `lag[k]` deletes of key `k` are acknowledged
 * while the key is still listed, and the next one removes it. This is why
 * `remove_image_files` lists again after deleting and goes round once more when anything is
 * left; `Debt` is the measure that makes every such round shrink.
 */
module Storage {
  import opened Collections
  import opened PyStr

  type Key = String

  datatype Bucket = Bucket(keys: seq<Key>, lag: map<Key, nat>)

  /** An S3 key object: the key name and the bucket it was listed from. */
  datatype StorageObject = StorageObject(bucket: String, name: Key)

  /** Keys are unique in a bucket, and only listed keys can lag. */
  predicate ValidBucket(b: Bucket) {
    Distinct(b.keys) && forall k :: k in b.lag ==> k in b.keys
  }

  function LagOf(lag: map<Key, nat>, k: Key): nat {
    if k in lag then lag[k] else 0
  }

  /** `bucket.list(prefix=p)`: the keys under `p`, in listing order. */
  function Listing(b: Bucket, p: String): (r: seq<Key>)
    ensures forall k :: k in r <==> k in b.keys && StartsWith(k, p)
  {
    Filter(b.keys, (k: Key) => StartsWith(k, p))
  }

  /** The key objects of a listing from bucket `bucket`. */
  function Objects(bucket: String, keys: seq<Key>): (r: seq<StorageObject>)
    ensures |r| == |keys|
    ensures forall i :: 0 <= i < |r| ==> r[i] == StorageObject(bucket, keys[i])
  {
    if keys == [] then [] else [StorageObject(bucket, keys[0])] + Objects(bucket, keys[1..])
  }

  /** The key objects of a listing are exactly the bucket's objects named by a listed key. */
  lemma ObjectsMembers(bucket: String, keys: seq<Key>)
    ensures forall o :: o in Objects(bucket, keys) <==> o.bucket == bucket && o.name in keys
  {
    var objs := Objects(bucket, keys);
    forall o: StorageObject | o.bucket == bucket && o.name in keys ensures o in objs {
      var i :| 0 <= i < |keys| && keys[i] == o.name;
      assert objs[i] == o;
    }
  }

  /** `keys` without `k`. */
  function Remove(keys: seq<Key>, k: Key): (r: seq<Key>)
    ensures forall x :: x in r <==> x in keys && x != k
  {
    Filter(keys, (x: Key) => x != k)
  }

  /** Deleting key `k`: a lagging key stays listed with one lag less; any other key goes. */
  function Delete(b: Bucket, k: Key): (r: Bucket)
    ensures forall x :: x in r.keys ==> x in b.keys
    ensures forall x :: x in b.keys && x != k ==> x in r.keys
    ensures k !in r.keys <==> k !in b.keys || LagOf(b.lag, k) == 0
  {
    if LagOf(b.lag, k) > 0 then Bucket(b.keys, b.lag[k := LagOf(b.lag, k) - 1])
    else Bucket(Remove(b.keys, k), b.lag - {k})
  }

  lemma DeleteValid(b: Bucket, k: Key)
    requires ValidBucket(b)
    ensures ValidBucket(Delete(b, k))
  {
    if LagOf(b.lag, k) == 0 {
      FilterDistinct(b.keys, (x: Key) => x != k);
    }
  }

  /** The bucket with every key under `p` gone, and nothing else changed. */
  function Purge(b: Bucket, p: String): (r: Bucket)
    ensures forall k :: k in r.keys <==> k in b.keys && !StartsWith(k, p)
  {
    Bucket(Filter(b.keys, (k: Key) => !StartsWith(k, p)),
           map k | k in b.lag && !StartsWith(k, p) :: b.lag[k])
  }

  /** Removing a key under `p` leaves the keys outside `p` as they were, in order. */
  lemma {:induction false} PurgeRemove(keys: seq<Key>, k: Key, p: String)
    requires StartsWith(k, p)
    ensures Filter(Remove(keys, k), (x: Key) => !StartsWith(x, p)) == Filter(keys, (x: Key) => !StartsWith(x, p))
  {
    if keys != [] {
      PurgeRemove(keys[1..], k, p);
      var removed := Remove(keys, k);
      var rest := Remove(keys[1..], k);
      if keys[0] == k {
        assert removed == rest;
      } else {
        assert removed == [keys[0]] + rest;
        assert removed[0] == keys[0] && removed[1..] == rest;
      }
    }
  }

  /** Deleting a key under `p` does not touch what Purge keeps. */
  lemma PurgeDelete(b: Bucket, k: Key, p: String)
    requires StartsWith(k, p)
    ensures Purge(Delete(b, k), p) == Purge(b, p)
  {
    if LagOf(b.lag, k) == 0 {
      PurgeRemove(b.keys, k, p);
    }
  }

  /** Once nothing is listed under `p`, the bucket is its own purge. */
  lemma PurgeWhenNothingListed(b: Bucket, p: String)
    requires ValidBucket(b) && Listing(b, p) == []
    ensures Purge(b, p) == b
  {
    FilterKeepsAll(b.keys, (k: Key) => !StartsWith(k, p));
  }

  /**
   * Deletes still needed before nothing under `p` is listed: one per listed key, plus its lag.
   */
  function Debt(keys: seq<Key>, lag: map<Key, nat>, p: String): nat {
    if keys == [] then 0
    else (if StartsWith(keys[0], p) then 1 + LagOf(lag, keys[0]) else 0) + Debt(keys[1..], lag, p)
  }

  function BucketDebt(b: Bucket, p: String): nat {
    Debt(b.keys, b.lag, p)
  }

  /** Debt reads the lag of listed keys only. */
  lemma {:induction false} DebtFrame(keys: seq<Key>, lag: map<Key, nat>, lag': map<Key, nat>, p: String)
    requires forall k :: k in keys ==> LagOf(lag, k) == LagOf(lag', k)
    ensures Debt(keys, lag, p) == Debt(keys, lag', p)
  {
    if keys != [] {
      DebtFrame(keys[1..], lag, lag', p);
    }
  }

  /** Removing a listed key under `p` pays off its own share of the debt. */
  lemma {:induction false} DebtRemove(keys: seq<Key>, lag: map<Key, nat>, k: Key, p: String)
    requires Distinct(keys) && k in keys && StartsWith(k, p)
    ensures Debt(Remove(keys, k), lag, p) + 1 + LagOf(lag, k) == Debt(keys, lag, p)
  {
    var tail := keys[1..];
    DistinctTail(keys);
    if keys[0] == k {
      FilterKeepsAll(tail, (x: Key) => x != k);
      assert Remove(keys, k) == Remove(tail, k) == tail;
    } else {
      DebtRemove(tail, lag, k, p);
      var removed := Remove(keys, k);
      assert removed == [keys[0]] + Remove(tail, k);
      assert removed[0] == keys[0] && removed[1..] == Remove(tail, k);
    }
  }

  /** Lowering the lag of a listed key under `p` by one pays off one unit of debt. */
  lemma {:induction false} DebtDecrement(keys: seq<Key>, lag: map<Key, nat>, k: Key, v: nat, p: String)
    requires Distinct(keys) && k in keys && StartsWith(k, p) && LagOf(lag, k) == v + 1
    ensures Debt(keys, lag[k := v], p) + 1 == Debt(keys, lag, p)
  {
    var tail := keys[1..];
    DistinctTail(keys);
    if keys[0] == k {
      DebtFrame(tail, lag, lag[k := v], p);
    } else {
      DebtDecrement(tail, lag, k, v, p);
    }
  }

  /** Each delete of a listed key under `p` pays off exactly one unit of debt. */
  lemma DebtDelete(b: Bucket, k: Key, p: String)
    requires ValidBucket(b) && k in b.keys && StartsWith(k, p)
    ensures BucketDebt(Delete(b, k), p) + 1 == BucketDebt(b, p)
  {
    if LagOf(b.lag, k) > 0 {
      DebtDecrement(b.keys, b.lag, k, LagOf(b.lag, k) - 1, p);
    } else {
      DebtRemove(b.keys, b.lag, k, p);
      DebtFrame(Remove(b.keys, k), b.lag, b.lag - {k}, p);
    }
  }

  /**
   * `b` is `start` after `n` deletes of keys under `p`: still valid, with the same keys left once
   * the prefix is purged, and `n` deletes nearer to purged.
   */
  ghost predicate DeletedUnder(start: Bucket, b: Bucket, p: String, n: nat) {
    && ValidBucket(b)
    && Purge(b, p) == Purge(start, p)
    && BucketDebt(b, p) + n == BucketDebt(start, p)
  }

  /** Deleting one more listed key under `p` is one step further. */
  lemma DeleteListed(start: Bucket, b: Bucket, k: Key, p: String, n: nat)
    requires DeletedUnder(start, b, p, n) && k in b.keys && StartsWith(k, p)
    ensures DeletedUnder(start, Delete(b, k), p, n + 1)
  {
    DeleteValid(b, k);
    PurgeDelete(b, k, p);
    DebtDelete(b, k, p);
  }

  /** Deleting the keys of `objs` one after another, in order. */
  function DeleteObjects(b: Bucket, objs: seq<StorageObject>): Bucket
    decreases |objs|
  {
    if objs == [] then b else Delete(DeleteObjects(b, objs[..|objs| - 1]), objs[|objs| - 1].name)
  }

  /** A listed key that is not among the deleted ones is still listed. */
  lemma {:induction false} DeleteObjectsKeeps(b: Bucket, objs: seq<StorageObject>, k: Key)
    requires k in b.keys && forall j :: 0 <= j < |objs| ==> objs[j].name != k
    ensures k in DeleteObjects(b, objs).keys
    decreases |objs|
  {
    if objs != [] {
      DeleteObjectsKeeps(b, objs[..|objs| - 1], k);
    }
  }

  /**
   * Deleting distinct listed keys under `p` one after another takes the bucket one step
   * towards purged per key.
   */
  lemma {:induction false} DeleteObjectsUnder(b: Bucket, objs: seq<StorageObject>, p: String)
    requires ValidBucket(b)
    requires forall j :: 0 <= j < |objs| ==> objs[j].name in b.keys && StartsWith(objs[j].name, p)
    requires forall i, j :: 0 <= i < j < |objs| ==> objs[i].name != objs[j].name
    ensures DeletedUnder(b, DeleteObjects(b, objs), p, |objs|)
    decreases |objs|
  {
    if objs == [] {
      assert DeletedUnder(b, b, p, 0);
    } else {
      var n := |objs| - 1;
      var front := objs[..n];
      DeleteObjectsUnder(b, front, p);
      DeleteObjectsKeeps(b, front, objs[n].name);
      DeleteListed(b, DeleteObjects(b, front), objs[n].name, p, n);
    }
  }

  /** Deleting every key object listed under `p`, once each, is one step per listed key. */
  lemma DeleteListing(b: Bucket, bucket: String, p: String)
    requires ValidBucket(b)
    ensures DeletedUnder(b, DeleteObjects(b, Objects(bucket, Listing(b, p))), p, |Listing(b, p)|)
  {
    var keys := Listing(b, p);
    ListingDistinct(b, p);
    var objs := Objects(bucket, keys);
    assert forall j :: 0 <= j < |objs| ==> objs[j].name == keys[j] && keys[j] in keys;
    DeleteObjectsUnder(b, objs, p);
  }

  /** Debt is zero exactly when nothing is listed under `p`. */
  lemma {:induction false} DebtZero(b: Bucket, p: String)
    ensures BucketDebt(b, p) == 0 <==> Listing(b, p) == []
    decreases |b.keys|
  {
    if b.keys != [] {
      DebtZero(Bucket(b.keys[1..], b.lag), p);
    }
  }

  /** Without lag under `p`, the debt is the length of the listing. */
  lemma {:induction false} DebtWithoutLag(b: Bucket, p: String)
    requires forall k :: k in b.keys && StartsWith(k, p) ==> LagOf(b.lag, k) == 0
    ensures BucketDebt(b, p) == |Listing(b, p)|
    decreases |b.keys|
  {
    if b.keys != [] {
      DebtWithoutLag(Bucket(b.keys[1..], b.lag), p);
    }
  }

  /** The listing of a valid bucket has no key twice. */
  lemma ListingDistinct(b: Bucket, p: String)
    requires ValidBucket(b)
    ensures Distinct(Listing(b, p))
  {
    FilterDistinct(b.keys, (k: Key) => StartsWith(k, p));
  }
}
