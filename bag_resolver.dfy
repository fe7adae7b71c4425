/**
 * Bag resolution in the download service: the bags (precomputed bundles) of
 * a dataset are the cache bucket's keys under the prefix dsId + ".bag.",
 * ordered newest first by comparing the keys as Java strings, descending;
 * the head bag is the first of them. A cached distribution file is found by
 * the prefix dsId + "-" + distId.
 */
module BagResolver {
  import opened JavaLang
  import opened Wrappers
  import opened ObjectStore

  const BagInfix: JString := Ascii(".bag.")
  const DistributionSeparator: JString := Ascii("-")

  /** The prefix that every bag key of dataset dsId begins with. */
  function BagPrefix(dsId: JString): JString {
    dsId + BagInfix
  }

  /** The prefix under which the cached file of one distribution of a dataset is stored. */
  function DistributionPrefix(dsId: JString, distId: JString): JString {
    dsId + DistributionSeparator + distId
  }

  // ---------------------------------------------------------------------------
  // The order of bags

  /**
   * The comparator handed to Collections.sort: bag2's key compared with
   * bag1's. Sorting ascending by it puts bag1 before bag2 when bag1's key is
   * the greater, that is, newest first.
   */
  function BagComparator(bag1: JString, bag2: JString): (r: int)
    ensures r <= 0 <==> CompareTo(bag1, bag2) >= 0
    ensures r == 0 <==> bag1 == bag2
  {
    CompareToFlips(bag1, bag2);
    CompareTo(bag2, bag1)
  }

  /** Newest first: every key compares at least as great as every key after it. */
  predicate NewestFirstOrder(s: seq<JString>) {
    forall i, j | 0 <= i < j < |s| :: CompareTo(s[i], s[j]) >= 0
  }

  /** Bag keys of one dataset compare as their suffixes do: the shared prefix never decides. */
  lemma {:induction false} BagOrderIsSuffixOrder(prefix: JString, s1: JString, s2: JString)
    ensures CompareTo(prefix + s1, prefix + s2) == CompareTo(s1, s2)
  {
    if prefix != [] {
      assert (prefix + s1)[1..] == prefix[1..] + s1;
      assert (prefix + s2)[1..] == prefix[1..] + s2;
      BagOrderIsSuffixOrder(prefix[1..], s1, s2);
    } else {
      assert prefix + s1 == s1 && prefix + s2 == s2;
    }
  }

  /** Places key k in front of the first key of s that it is at least as great as; this adds exactly k. */
  function InsertNewestFirst(k: JString, s: seq<JString>): (r: seq<JString>)
    ensures multiset(r) == multiset(s) + multiset{k}
  {
    if s == [] || BagComparator(k, s[0]) <= 0 then [k] + s
    else
      assert s == [s[0]] + s[1..];
      [s[0]] + InsertNewestFirst(k, s[1..])
  }

  /**
   * The keys in newest-first order: the specification of findBagsById's
   * sort. It sorts: the result is newest first and a permutation of the keys.
   */
  function NewestFirst(keys: seq<JString>): (r: seq<JString>)
    ensures NewestFirstOrder(r)
    ensures multiset(r) == multiset(keys)
  {
    if keys == [] then []
    else
      var rest := NewestFirst(keys[1..]);
      InsertFirstKey(keys, rest);
      InsertNewestFirst(keys[0], rest)
  }

  /** Inserting the first key into a newest-first arrangement of the others arranges all the keys newest first. */
  lemma InsertFirstKey(keys: seq<JString>, rest: seq<JString>)
    requires keys != [] && NewestFirstOrder(rest) && multiset(rest) == multiset(keys[1..])
    ensures NewestFirstOrder(InsertNewestFirst(keys[0], rest))
    ensures multiset(InsertNewestFirst(keys[0], rest)) == multiset(keys)
  {
    InsertNewestFirstKeepsOrder(keys[0], rest);
    assert keys == [keys[0]] + keys[1..];
  }

  /** A key at least as great as every key of a newest-first sequence can go in front of it. */
  lemma ConsNewestFirst(x: JString, rest: seq<JString>)
    requires NewestFirstOrder(rest)
    requires forall y | y in rest :: CompareTo(x, y) >= 0
    ensures NewestFirstOrder([x] + rest)
  {
    var r := [x] + rest;
    forall p, q | 0 <= p < q < |r| ensures CompareTo(r[p], r[q]) >= 0 {
      assert r[q] == rest[q - 1];
      if p > 0 {
        assert r[p] == rest[p - 1];
      }
    }
  }

  /** Inserting into a newest-first sequence keeps it newest first. */
  lemma {:induction false} InsertNewestFirstKeepsOrder(k: JString, s: seq<JString>)
    requires NewestFirstOrder(s)
    ensures NewestFirstOrder(InsertNewestFirst(k, s))
  {
    if s == [] {
    } else if BagComparator(k, s[0]) <= 0 {
      forall y | y in s ensures CompareTo(k, y) >= 0 {
        var m :| 0 <= m < |s| && s[m] == y;
        if m > 0 {
          CompareToTransitive(k, s[0], s[m]);
        }
      }
      ConsNewestFirst(k, s);
    } else {
      CompareToFlips(k, s[0]);
      var rest := InsertNewestFirst(k, s[1..]);
      TailNewestFirst(s);
      InsertNewestFirstKeepsOrder(k, s[1..]);
      forall y | y in rest ensures CompareTo(s[0], y) >= 0 {
        assert y in multiset(s[1..]) + multiset{k};
        if y != k {
          var m :| 0 <= m < |s[1..]| && s[1..][m] == y;
          assert s[m + 1] == y;
        }
      }
      ConsNewestFirst(s[0], rest);
    }
  }

  lemma TailNewestFirst(s: seq<JString>)
    requires NewestFirstOrder(s) && s != []
    ensures NewestFirstOrder(s[1..])
  {
    forall i, j | 0 <= i < j < |s[1..]| ensures CompareTo(s[1..][i], s[1..][j]) >= 0 {
      assert s[1..][i] == s[i + 1] && s[1..][j] == s[j + 1];
    }
  }

  /** Two newest-first arrangements of the same keys start with the same key. */
  lemma SameHead(s: seq<JString>, t: seq<JString>)
    requires NewestFirstOrder(s) && NewestFirstOrder(t)
    requires multiset(s) == multiset(t) && s != []
    ensures t != [] && s[0] == t[0]
  {
    assert |s| == |multiset(s)| == |multiset(t)| == |t|;
    assert s[0] in multiset(t) && t[0] in multiset(s);
    CompareToFlips(s[0], t[0]);
  }

  /**
   * There is only one newest-first arrangement of a collection of keys: the
   * sorted result does not depend on the order the store listed them in.
   */
  lemma {:induction false} NewestFirstUnique(s: seq<JString>, t: seq<JString>)
    requires NewestFirstOrder(s) && NewestFirstOrder(t)
    requires multiset(s) == multiset(t)
    ensures s == t
  {
    if s != [] {
      SameHead(s, t);
      assert s == [s[0]] + s[1..] && t == [t[0]] + t[1..];
      assert multiset(s[1..]) == multiset(s) - multiset{s[0]};
      assert multiset(t[1..]) == multiset(t) - multiset{t[0]};
      TailNewestFirst(s);
      TailNewestFirst(t);
      NewestFirstUnique(s[1..], t[1..]);
    } else {
      assert |t| == |multiset(t)| == 0;
    }
  }

  // ---------------------------------------------------------------------------
  // findBagsById and its callers

  /**
   * The bags of dataset dsId, newest first: what findBagsById and
   * findDataSetBags return. One per listed key, and a key is among them
   * exactly when some object of the bucket has it and it begins with the
   * bag prefix.
   */
  function DataSetBags(bucket: Bucket, dsId: JString): (bags: seq<JString>)
    ensures NewestFirstOrder(bags)
    ensures |bags| == |List(bucket, BagPrefix(dsId))|
    ensures multiset(bags) == multiset(List(bucket, BagPrefix(dsId)))
    ensures forall i | 0 <= i < |bucket| && StartsWith(bucket[i].key, BagPrefix(dsId)) :: bucket[i].key in bags
    ensures forall k | k in bags :: StartsWith(k, BagPrefix(dsId)) && exists i :: 0 <= i < |bucket| && bucket[i].key == k
  {
    var keys := List(bucket, BagPrefix(dsId));
    var bags := NewestFirst(keys);
    assert |bags| == |multiset(bags)| == |keys|;
    assert forall k :: k in keys <==> k in multiset(bags);
    bags
  }

  /** Newest first among the positions up to i, leaving out position j. */
  predicate NewestFirstExcept(s: seq<JString>, j: nat, i: nat)
    requires i < |s|
  {
    forall p, q | 0 <= p < q <= i && p != j && q != j :: CompareTo(s[p], s[q]) >= 0
  }

  /** The key at j compares at least as great as every key after it, up to i. */
  predicate NewestFrom(s: seq<JString>, j: nat, i: nat)
    requires j <= i < |s|
  {
    forall q | j < q <= i :: CompareTo(s[j], s[q]) >= 0
  }

  /** Swapping a key with a smaller left neighbour moves the one out-of-place position one step left. */
  lemma InsertionSwap(s: seq<JString>, j: nat, i: nat)
    requires 0 < j <= i < |s|
    requires CompareTo(s[j], s[j - 1]) > 0
    requires NewestFirstExcept(s, j, i) && NewestFrom(s, j, i)
    ensures var t := s[j - 1 := s[j]][j := s[j - 1]];
      NewestFirstExcept(t, j - 1, i) && NewestFrom(t, j - 1, i) && multiset(t) == multiset(s)
  {
    var t := s[j - 1 := s[j]][j := s[j - 1]];
    forall p, q | 0 <= p < q <= i && p != j - 1 && q != j - 1 ensures CompareTo(t[p], t[q]) >= 0 {
      if q == j {
        assert CompareTo(s[p], s[j - 1]) >= 0;
      } else if p == j {
        assert CompareTo(s[j - 1], s[q]) >= 0;
      }
    }
  }

  /**
   * One step of the insertion sort that stands in for Collections.sort:
   * a[i] moves left past every key that compares below it.
   */
  method InsertInto(a: array<JString>, i: nat)
    requires i < a.Length
    requires forall p, q | 0 <= p < q < i :: CompareTo(a[p], a[q]) >= 0
    modifies a
    ensures forall p, q | 0 <= p < q <= i :: CompareTo(a[p], a[q]) >= 0
    ensures multiset(a[..]) == multiset(old(a[..]))
    ensures a[i + 1..] == old(a[i + 1..])
  {
    var j := i;
    while j > 0 && BagComparator(a[j - 1], a[j]) > 0
      invariant 0 <= j <= i
      invariant NewestFirstExcept(a[..], j, i) && NewestFrom(a[..], j, i)
      invariant multiset(a[..]) == multiset(old(a[..]))
      invariant a[i + 1..] == old(a[i + 1..])
    {
      ghost var s := a[..];
      InsertionSwap(s, j, i);
      a[j - 1], a[j] := a[j], a[j - 1];
      assert a[..] == s[j - 1 := s[j]][j := s[j - 1]];
      j := j - 1;
    }
    InsertionDone(a[..], j, i);
  }

  /** Once the key at j is no greater than its left neighbour, positions 0 to i are newest first. */
  lemma InsertionDone(s: seq<JString>, j: nat, i: nat)
    requires j <= i < |s|
    requires j == 0 || CompareTo(s[j - 1], s[j]) >= 0
    requires NewestFirstExcept(s, j, i) && NewestFrom(s, j, i)
    ensures forall p, q | 0 <= p < q <= i :: CompareTo(s[p], s[q]) >= 0
  {
    forall p | 0 <= p < j ensures CompareTo(s[p], s[j]) >= 0 {
      if p < j - 1 {
        assert CompareTo(s[p], s[j - 1]) >= 0;
        CompareToTransitive(s[p], s[j - 1], s[j]);
      }
    }
  }

  /** Collections.sort with the bag comparator, in place on the array of listed keys. */
  method SortNewestFirst(a: array<JString>)
    modifies a
    ensures NewestFirstOrder(a[..])
    ensures multiset(a[..]) == multiset(old(a[..]))
  {
    var i := 0;
    while i < a.Length
      invariant 0 <= i <= a.Length
      invariant forall p, q | 0 <= p < q < i :: CompareTo(a[p], a[q]) >= 0
      invariant multiset(a[..]) == multiset(old(a[..]))
    {
      InsertInto(a, i);
      i := i + 1;
    }
  }

  /**
   * findBagsById: list the keys under dsId + ".bag.", sort them with the
   * bag comparator, and copy them into the result one by one.
   */
  method FindBagsById(bucket: Bucket, dsId: JString) returns (results: seq<JString>)
    ensures NewestFirstOrder(results)
    ensures multiset(results) == multiset(List(bucket, BagPrefix(dsId)))
    ensures results == DataSetBags(bucket, dsId)
  {
    var bagSummaries := List(bucket, BagPrefix(dsId));
    var a := new JString[|bagSummaries|](i requires 0 <= i < |bagSummaries| => bagSummaries[i]);
    assert a[..] == bagSummaries;
    SortNewestFirst(a);
    results := [];
    for i := 0 to a.Length
      invariant results == a[..i]
    {
      results := results + [a[i]];
    }
    assert results == a[..];
    NewestFirstUnique(results, NewestFirst(bagSummaries));
  }

  /** findDataSetBags: the bags of the dataset, newest first (the response is always 200 OK). */
  method FindDataSetBags(bucket: Bucket, dsId: JString) returns (bags: seq<JString>)
    ensures bags == DataSetBags(bucket, dsId)
    ensures forall k :: k in bags <==> k in List(bucket, BagPrefix(dsId))
  {
    bags := FindBagsById(bucket, dsId);
    assert forall k :: k in bags <==> k in multiset(bags);
  }

  /**
   * findDataSetHeadBag: the first bag of the newest-first list, which is the
   * greatest key under the dataset's bag prefix; None (a null body) when the
   * dataset has no bag.
   */
  function FindDataSetHeadBag(bucket: Bucket, dsId: JString): (head: Option<JString>)
    ensures head.None? <==> forall i | 0 <= i < |bucket| :: !StartsWith(bucket[i].key, BagPrefix(dsId))
    ensures head.Some? ==> head.value in List(bucket, BagPrefix(dsId))
    ensures head.Some? ==> forall i | 0 <= i < |bucket| && StartsWith(bucket[i].key, BagPrefix(dsId)) ::
      CompareTo(head.value, bucket[i].key) >= 0
  {
    var keys := List(bucket, BagPrefix(dsId));
    var results := DataSetBags(bucket, dsId);
    assert |results| == |multiset(results)| == |keys|;
    assert forall k :: k in keys <==> k in multiset(results);
    if |results| > 0 then
      Some(results[0])
    else
      None
  }

  /** With distinct keys the order is strict: no two bags compare equal. */
  lemma BagsStrictlyNewestFirst(bucket: Bucket, dsId: JString)
    requires DistinctKeys(bucket)
    ensures var bags := DataSetBags(bucket, dsId);
      forall i, j | 0 <= i < j < |bags| :: CompareTo(bags[i], bags[j]) > 0
  {
    var keys := List(bucket, BagPrefix(dsId));
    var bags := DataSetBags(bucket, dsId);
    ListNoRepeats(bucket, BagPrefix(dsId));
    NoRepeatsPermutation(keys, bags);
  }

  /** The bags found do not depend on the order in which the store lists the keys. */
  lemma BagsIgnoreListingOrder(b1: Bucket, b2: Bucket, dsId: JString)
    requires multiset(List(b1, BagPrefix(dsId))) == multiset(List(b2, BagPrefix(dsId)))
    ensures DataSetBags(b1, dsId) == DataSetBags(b2, dsId)
  {
    assert DataSetBags(b1, dsId) == NewestFirst(List(b1, BagPrefix(dsId)));
    assert DataSetBags(b2, dsId) == NewestFirst(List(b2, BagPrefix(dsId)));
    NewestFirstUnique(DataSetBags(b1, dsId), DataSetBags(b2, dsId));
  }

  lemma {:induction false} NoRepeatsCount(s: seq<JString>, x: JString)
    requires NoRepeats(s)
    ensures multiset(s)[x] <= 1
  {
    if s != [] {
      assert NoRepeats(s[1..]) by {
        forall i, j | 0 <= i < j < |s[1..]| ensures s[1..][i] != s[1..][j] {
          assert s[1..][i] == s[i + 1] && s[1..][j] == s[j + 1];
        }
      }
      NoRepeatsCount(s[1..], x);
      assert s == [s[0]] + s[1..];
      if x == s[0] {
        forall k | k in s[1..] ensures k != x {
          var m :| 0 <= m < |s[1..]| && s[1..][m] == k;
          assert s[m + 1] == k;
        }
        assert multiset(s[1..])[x] == 0;
      }
    }
  }

  /** A permutation of a sequence without repeats has none either. */
  lemma NoRepeatsPermutation(s: seq<JString>, t: seq<JString>)
    requires NoRepeats(s) && multiset(s) == multiset(t)
    ensures NoRepeats(t)
  {
    forall i, j | 0 <= i < j < |t| ensures t[i] != t[j] {
      if t[i] == t[j] {
        var x := t[i];
        assert t == t[..j] + t[j..];
        assert x in t[..j] && x in t[j..];
        assert multiset(t)[x] == multiset(t[..j])[x] + multiset(t[j..])[x];
        NoRepeatsCount(s, x);
        assert false;
      }
    }
  }

  /**
   * A bag key listed for the dataset that compares greater than every other
   * key listed for it is the head bag.
   */
  lemma GreatestIsHeadBag(bucket: Bucket, dsId: JString, m: nat)
    requires m < |bucket| && StartsWith(bucket[m].key, BagPrefix(dsId))
    requires forall i | 0 <= i < |bucket| && StartsWith(bucket[i].key, BagPrefix(dsId)) && bucket[i].key != bucket[m].key ::
      CompareTo(bucket[m].key, bucket[i].key) > 0
    ensures FindDataSetHeadBag(bucket, dsId) == Some(bucket[m].key)
  {
    var head := FindDataSetHeadBag(bucket, dsId);
    var i :| 0 <= i < |bucket| && bucket[i].key == head.value;
    assert CompareTo(head.value, bucket[m].key) >= 0;
    CompareToFlips(head.value, bucket[m].key);
  }

  /** Of three bags listed with the greatest in the middle, the middle one is the head bag. */
  lemma HeadOfThree(k1: JString, k2: JString, k3: JString, dsId: JString)
    requires StartsWith(k2, BagPrefix(dsId))
    requires CompareTo(k2, k1) > 0 && CompareTo(k2, k3) > 0
    ensures FindDataSetHeadBag([StoredObject(k1, []), StoredObject(k2, []), StoredObject(k3, [])], dsId) == Some(k2)
  {
    var bucket := [StoredObject(k1, []), StoredObject(k2, []), StoredObject(k3, [])];
    forall i | 0 <= i < |bucket| && StartsWith(bucket[i].key, BagPrefix(dsId)) && bucket[i].key != k2
      ensures CompareTo(k2, bucket[i].key) > 0
    {
      assert i == 0 || i == 2;
    }
    GreatestIsHeadBag(bucket, dsId, 1);
  }

  const D1: JString := Ascii("d1")
  const Bag1: JString := BagPrefix(D1) + Ascii("1")
  const Bag2: JString := BagPrefix(D1) + Ascii("2")
  const Bag3: JString := BagPrefix(D1) + Ascii("3")

  /** The bags d1.bag.1, d1.bag.3 and d1.bag.2, listed in that order. */
  const ThreeBags: Bucket := [StoredObject(Bag1, []), StoredObject(Bag3, []), StoredObject(Bag2, [])]

  /** d1.bag.3 is a bag of d1, and compares greater than d1.bag.1 and d1.bag.2. */
  lemma ExampleBagOrder()
    ensures StartsWith(Bag3, BagPrefix(D1))
    ensures CompareTo(Bag3, Bag1) > 0 && CompareTo(Bag3, Bag2) > 0
  {
    assert Ascii("3") == [0x33] && Ascii("1") == [0x31] && Ascii("2") == [0x32];
    assert CompareTo([0x33], [0x31]) > 0 && CompareTo([0x33], [0x32]) > 0;
    BagOrderIsSuffixOrder(BagPrefix(D1), Ascii("3"), Ascii("1"));
    BagOrderIsSuffixOrder(BagPrefix(D1), Ascii("3"), Ascii("2"));
    assert Bag3[..|BagPrefix(D1)|] == BagPrefix(D1);
  }

  /** Of the bags d1.bag.1, d1.bag.3 and d1.bag.2, d1.bag.3 is the head bag of dataset d1. */
  lemma HeadBagExample()
    ensures FindDataSetHeadBag(ThreeBags, D1) == Some(Bag3)
  {
    ExampleBagOrder();
    HeadOfThree(Bag1, Bag3, Bag2, D1);
  }

  // ---------------------------------------------------------------------------
  // Cached distribution files

  /**
   * getDistributionFileKey: the first key the store lists under
   * dsId + "-" + distId, or None (null) when nothing is listed.
   */
  function GetDistributionFileKey(bucket: Bucket, dsId: JString, distId: JString): (key: Option<JString>)
    ensures key.None? <==> forall i | 0 <= i < |bucket| :: !StartsWith(bucket[i].key, DistributionPrefix(dsId, distId))
    ensures key.Some? ==> exists i :: (0 <= i < |bucket| && bucket[i].key == key.value
      && StartsWith(key.value, DistributionPrefix(dsId, distId))
      && forall j | 0 <= j < i :: !StartsWith(bucket[j].key, DistributionPrefix(dsId, distId)))
  {
    var files := List(bucket, DistributionPrefix(dsId, distId));
    if |files| > 0 then
      ListFirst(bucket, DistributionPrefix(dsId, distId));
      Some(files[0])
    else
      None
  }

  /**
   * The lookup is by prefix only: a key stored for a distribution whose id
   * extends distId (distribution "10" when "1" is asked for) is returned too.
   */
  lemma DistributionLookupIsByPrefix(dsId: JString, distId: JString, more: JString, data: seq<Byte>)
    ensures var key := DistributionPrefix(dsId, distId + more);
      GetDistributionFileKey([StoredObject(key, data)], dsId, distId) == Some(key)
  {
    var key := DistributionPrefix(dsId, distId + more);
    assert key == DistributionPrefix(dsId, distId) + more;
    assert StartsWith(key, DistributionPrefix(dsId, distId));
  }

  /** A cached file handed to the caller: its key (the attachment name) and its bytes. */
  datatype CachedFile = CachedFile(key: JString, data: seq<Byte>)

  /**
   * downloadDistributionFile: the object under the first key listed for the
   * distribution, or None (null) without any download when none is listed.
   */
  function DownloadDistributionFile(bucket: Bucket, dsId: JString, distId: JString): (file: Option<CachedFile>)
    ensures file.None? <==> forall i | 0 <= i < |bucket| :: !StartsWith(bucket[i].key, DistributionPrefix(dsId, distId))
    ensures file.Some? ==> StartsWith(file.value.key, DistributionPrefix(dsId, distId))
    ensures file.Some? ==> Some(file.value.key) == GetDistributionFileKey(bucket, dsId, distId)
    ensures file.Some? ==> exists i :: 0 <= i < |bucket| && bucket[i] == StoredObject(file.value.key, file.value.data)
  {
    match GetDistributionFileKey(bucket, dsId, distId)
    case None => None
    case Some(key) =>
      var data := Get(bucket, key);
      Some(CachedFile(key, data.value))
  }
}
