/**
 * The object store as the download service sees it: a bucket is the
 * sequence of its objects in whatever order the store lists them, "list by
 * prefix" keeps the keys that begin with the prefix, and "get" returns the
 * data stored under a key.
 */
module ObjectStore {
  import opened JavaLang
  import opened Wrappers

  /** One stored object: its key and its bytes. */
  datatype StoredObject = StoredObject(key: JString, data: seq<Byte>)

  /** A bucket, its objects in the store's listing order (no order is assumed). */
  type Bucket = seq<StoredObject>

  /** No two objects of the bucket share a key, as in any real bucket. */
  predicate DistinctKeys(b: Bucket) {
    forall i, j | 0 <= i < j < |b| :: b[i].key != b[j].key
  }

  /** A sequence of keys in which no key appears twice. */
  predicate NoRepeats(keys: seq<JString>) {
    forall i, j | 0 <= i < j < |keys| :: keys[i] != keys[j]
  }

  /**
   * list(bucket, prefix): the keys that begin with prefix, in listing order.
   * Every matching key is listed, nothing else is, and no more keys than the
   * bucket holds.
   */
  function List(b: Bucket, prefix: JString): (keys: seq<JString>)
    ensures |keys| <= |b|
    ensures forall i | 0 <= i < |b| && StartsWith(b[i].key, prefix) :: b[i].key in keys
    ensures forall k | k in keys :: StartsWith(k, prefix) && exists i :: 0 <= i < |b| && b[i].key == k
  {
    if b == [] then []
    else (if StartsWith(b[0].key, prefix) then [b[0].key] else []) + List(b[1..], prefix)
  }

  /** Listing keeps the store's order: the listing of b1 + b2 is that of b1 followed by that of b2. */
  lemma {:induction false} ListAppend(b1: Bucket, b2: Bucket, prefix: JString)
    ensures List(b1 + b2, prefix) == List(b1, prefix) + List(b2, prefix)
  {
    if b1 != [] {
      assert (b1 + b2)[1..] == b1[1..] + b2;
      ListAppend(b1[1..], b2, prefix);
    } else {
      assert b1 + b2 == b2;
    }
  }

  /**
   * The first listed key is the key of the first object, in listing order,
   * whose key begins with the prefix.
   */
  lemma {:induction false} ListFirst(b: Bucket, prefix: JString)
    requires List(b, prefix) != []
    ensures exists i :: (0 <= i < |b| && b[i].key == List(b, prefix)[0]
      && StartsWith(b[i].key, prefix)
      && forall j | 0 <= j < i :: !StartsWith(b[j].key, prefix))
  {
    if !StartsWith(b[0].key, prefix) {
      ListFirst(b[1..], prefix);
      var i :| 0 <= i < |b[1..]| && b[1..][i].key == List(b[1..], prefix)[0]
        && StartsWith(b[1..][i].key, prefix)
        && forall j | 0 <= j < i :: !StartsWith(b[1..][j].key, prefix);
      assert b[i + 1] == b[1..][i];
      forall j | 0 <= j < i + 1 ensures !StartsWith(b[j].key, prefix) {
        if j > 0 {
          assert b[j] == b[1..][j - 1];
        }
      }
    } else {
      assert b[0].key == List(b, prefix)[0];
    }
  }

  /** A bucket whose keys are distinct lists every key at most once. */
  lemma {:induction false} ListNoRepeats(b: Bucket, prefix: JString)
    requires DistinctKeys(b)
    ensures NoRepeats(List(b, prefix))
  {
    if b != [] {
      var tail := List(b[1..], prefix);
      assert DistinctKeys(b[1..]) by {
        forall i, j | 0 <= i < j < |b[1..]| ensures b[1..][i].key != b[1..][j].key {
          assert b[1..][i] == b[i + 1] && b[1..][j] == b[j + 1];
        }
      }
      ListNoRepeats(b[1..], prefix);
      if StartsWith(b[0].key, prefix) {
        forall k | k in tail ensures k != b[0].key {
          var i :| 0 <= i < |b[1..]| && b[1..][i].key == k;
          assert b[i + 1] == b[1..][i];
        }
        var keys := List(b, prefix);
        assert keys == [b[0].key] + tail;
        forall i, j | 0 <= i < j < |keys| ensures keys[i] != keys[j] {
          assert keys[j] == tail[j - 1];
          if i > 0 {
            assert keys[i] == tail[i - 1];
          }
        }
      }
    }
  }

  /** get(bucket, key): the data of the first object stored under key, or None (the store's NotFound). */
  function Get(b: Bucket, key: JString): (r: Option<seq<Byte>>)
    ensures r.None? <==> forall i | 0 <= i < |b| :: b[i].key != key
    ensures r.Some? ==> exists i :: 0 <= i < |b| && b[i].key == key && b[i].data == r.value
  {
    if b == [] then None
    else if b[0].key == key then Some(b[0].data)
    else
      var r := Get(b[1..], key);
      assert forall i | 1 <= i < |b| :: b[i] == b[1..][i - 1];
      r
  }
}
