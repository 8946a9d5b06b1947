/*
 * The key policies of libcpp's unordered containers
 * (uspace/lib/cpp/include/internal/hash_table_policies.hpp):
 * hash_single_policy (unordered_set, unordered_map) and hash_multi_policy
 * (unordered_multiset, unordered_multimap).
 *
 * The table is an array of buckets; each bucket is the sequence of values of
 * its circular list, read from its head (see HashIterators). The key of a
 * value (`get_key`) and the bucket of a key (`get_bucket_idx_`) are
 * parameters of the table; keys are compared with `==`.
 */
module HashPolicies {
  import opened Wrappers
  import opened HashIterators

  /* ---------------------------------------------------------------------- */
  /* Buckets                                                                 */
  /* ---------------------------------------------------------------------- */

  /** The number of nodes in all buckets. */
  function Total<V>(buckets: seq<seq<V>>): nat {
    if buckets == [] then 0 else |buckets[0]| + Total(buckets[1..])
  }

  /** Replacing one bucket changes the node count by the difference of the two lengths. */
  lemma {:induction false} TotalUpdate<V>(buckets: seq<seq<V>>, i: nat, b: seq<V>)
    requires i < |buckets|
    ensures Total(buckets[i := b]) + |buckets[i]| == Total(buckets) + |b|
  {
    if i > 0 {
      TotalUpdate(buckets[1..], i - 1, b);
      assert buckets[i := b][1..] == buckets[1..][i - 1 := b];
    }
  }

  /** Every node sits in the bucket its key hashes to. */
  predicate Consistent<K(==), V>(buckets: seq<seq<V>>, keyOf: V -> K, bucketOf: K -> nat) {
    forall i, j :: 0 <= i < |buckets| && 0 <= j < |buckets[i]| ==> bucketOf(keyOf(buckets[i][j])) == i
  }

  /** The position of the first node of `b` whose key is `key`: what the table's `find` reaches. */
  function FirstMatch<K(==), V>(b: seq<V>, keyOf: V -> K, key: K): (r: Option<nat>)
    ensures r.Some? ==> r.value < |b| && keyOf(b[r.value]) == key
    ensures r.Some? ==> forall j :: 0 <= j < r.value ==> keyOf(b[j]) != key
    ensures r.None? ==> forall j :: 0 <= j < |b| ==> keyOf(b[j]) != key
  {
    if b == [] then None
    else if keyOf(b[0]) == key then Some(0)
    else match FirstMatch(b[1..], keyOf, key)
      case None => None
      case Some(i) => Some(i + 1)
  }

  /** The number of nodes of `b` whose key is `key`. */
  function CountKey<K(==), V>(b: seq<V>, keyOf: V -> K, key: K): nat {
    if b == [] then 0
    else (if keyOf(b[|b| - 1]) == key then 1 else 0) + CountKey(b[..|b| - 1], keyOf, key)
  }

  lemma {:induction false} CountAppend<K, V>(a: seq<V>, b: seq<V>, keyOf: V -> K, key: K)
    ensures CountKey(a + b, keyOf, key) == CountKey(a, keyOf, key) + CountKey(b, keyOf, key)
    decreases |b|
  {
    if b != [] {
      assert (a + b)[..|a + b| - 1] == a + b[..|b| - 1];
      CountAppend(a, b[..|b| - 1], keyOf, key);
    } else {
      assert a + b == a;
    }
  }

  /** A bucket has nodes with the key exactly when its count is positive, and never more than its length. */
  lemma {:induction false} CountPositive<K, V>(b: seq<V>, keyOf: V -> K, key: K)
    ensures CountKey(b, keyOf, key) <= |b|
    ensures CountKey(b, keyOf, key) > 0 <==> exists j :: 0 <= j < |b| && keyOf(b[j]) == key
    ensures CountKey(b, keyOf, key) == |b| <==> forall j :: 0 <= j < |b| ==> keyOf(b[j]) == key
  {
    if b != [] {
      var p := b[..|b| - 1];
      CountPositive(p, keyOf, key);
      if CountKey(b, keyOf, key) > 0 && keyOf(b[|b| - 1]) != key {
        var j :| 0 <= j < |p| && keyOf(p[j]) == key;
        assert keyOf(b[j]) == key;
      }
      if CountKey(b, keyOf, key) == |b| {
        forall j | 0 <= j < |b|
          ensures keyOf(b[j]) == key
        {
          if j < |p| {
            assert b[j] == p[j];
          }
        }
      }
      if forall j :: 0 <= j < |b| ==> keyOf(b[j]) == key {
        assert forall j :: 0 <= j < |p| ==> p[j] == b[j];
      }
    }
  }

  /** No two nodes of `b` have the same key: what a single-key container promises. */
  predicate UniqueKeys<K(==), V>(b: seq<V>, keyOf: V -> K) {
    forall i, j :: 0 <= i < j < |b| ==> keyOf(b[i]) != keyOf(b[j])
  }

  /** With unique keys a key is counted at most once. */
  lemma {:induction false} UniqueCountAtMostOne<K, V>(b: seq<V>, keyOf: V -> K, key: K)
    ensures UniqueKeys(b, keyOf) ==> CountKey(b, keyOf, key) <= 1
  {
    if b != [] && UniqueKeys(b, keyOf) {
      var p := b[..|b| - 1];
      assert UniqueKeys(p, keyOf) by {
        assert forall j :: 0 <= j < |p| ==> p[j] == b[j];
      }
      UniqueCountAtMostOne(p, keyOf, key);
      if keyOf(b[|b| - 1]) == key {
        assert forall j :: 0 <= j < |p| ==> keyOf(p[j]) != key by {
          assert forall j :: 0 <= j < |p| ==> p[j] == b[j];
        }
        CountPositive(p, keyOf, key);
      }
    }
  }

  /** Equal keys stand next to each other: what a multi-key container keeps. */
  predicate Grouped<K(==), V>(b: seq<V>, keyOf: V -> K) {
    forall p, q, r :: 0 <= p < q < r < |b| ==> Between(b, keyOf, p, q, r)
  }

  /** The node between two nodes with the same key has that key too. */
  predicate Between<K(==), V>(b: seq<V>, keyOf: V -> K, p: nat, q: nat, r: nat)
    requires p < q < r < |b|
  {
    keyOf(b[p]) == keyOf(b[r]) ==> keyOf(b[q]) == keyOf(b[p])
  }

  /* ---------------------------------------------------------------------- */
  /* Single-key erase: the defect of lines 59-64                             */
  /* ---------------------------------------------------------------------- */

  /** How the erase loop ends. */
  datatype EraseOutcome = Erased(pos: nat) | NotFound | NullDereference

  /**
   * The loop of hash_single_policy::erase as written: `current` starts at
   * the bucket's head and the do-while body dereferences it before any
   * test, so an empty bucket (null head) is dereferenced.
   */
  function EraseScanAsWritten<K(==), V>(b: seq<V>, keyOf: V -> K, key: K): (r: EraseOutcome)
    ensures r.Erased? ==> r.pos < |b| && keyOf(b[r.pos]) == key
  {
    if b == [] then NullDereference
    else match FirstMatch(b, keyOf, key)
      case Some(i) => Erased(i)
      case None => NotFound
  }

  /** Erasing a key whose bucket is empty dereferences the null head. */
  lemma EraseEmptyBucketDereferencesNull<K, V>(keyOf: V -> K, key: K)
    ensures EraseScanAsWritten([], keyOf, key) == NullDereference
  {
  }

  /** The loop with a null check before the first dereference: an empty bucket has nothing to erase. */
  function EraseScan<K(==), V>(b: seq<V>, keyOf: V -> K, key: K): (r: EraseOutcome)
    ensures !r.NullDereference?
    ensures r.Erased? <==> exists j :: 0 <= j < |b| && keyOf(b[j]) == key
    ensures r.Erased? ==> r.pos < |b| && keyOf(b[r.pos]) == key
    ensures b != [] ==> r == EraseScanAsWritten(b, keyOf, key)
  {
    match FirstMatch(b, keyOf, key)
    case Some(i) => Erased(i)
    case None => NotFound
  }

  /* ---------------------------------------------------------------------- */
  /* Single-key insert: the defect of lines 45-53 and 175                    */
  /* ---------------------------------------------------------------------- */

  /**
   * What hash_single_policy::insert makes of bucket `b` as written: the key
   * is compared with the head only, and the value is prepended unless the
   * head has its key.
   */
  function HeadOnlyInsert<K(==), V>(b: seq<V>, keyOf: V -> K, v: V): (r: seq<V>)
    ensures r == b || r == [v] + b
    ensures exists j :: 0 <= j < |r| && keyOf(r[j]) == keyOf(v)
  {
    if b != [] && keyOf(b[0]) == keyOf(v) then b else assert ([v] + b)[0] == v; [v] + b
  }

  /** Inserting 2 into a bucket [1, 2] of a set of integers leaves 2 in it twice. */
  lemma HeadOnlyInsertDuplicates()
    ensures HeadOnlyInsert([1, 2], (x: int) => x, 2) == [2, 1, 2]
    ensures !UniqueKeys([2, 1, 2], (x: int) => x)
  {
    assert HeadOnlyInsert([1, 2], (x: int) => x, 2) == [2] + [1, 2];
    var k := (x: int) => x;
    assert k([2, 1, 2][0]) == k([2, 1, 2][2]);
  }

  /** The insert with the whole bucket searched for the key, as `find` does. */
  function SingleInsertBucket<K(==), V>(b: seq<V>, keyOf: V -> K, v: V): (r: seq<V>)
    ensures FirstMatch(b, keyOf, keyOf(v)).Some? ==> r == b
    ensures FirstMatch(b, keyOf, keyOf(v)).None? ==> r == [v] + b
    ensures UniqueKeys(b, keyOf) ==> UniqueKeys(r, keyOf)
    ensures exists j :: 0 <= j < |r| && keyOf(r[j]) == keyOf(v)
  {
    match FirstMatch(b, keyOf, keyOf(v))
    case Some(_) => b
    case None =>
      assert ([v] + b)[0] == v;
      assert forall j :: 1 <= j < |b| + 1 ==> ([v] + b)[j] == b[j - 1];
      [v] + b
  }

  /* ---------------------------------------------------------------------- */
  /* Single-key equal_range: the defect of lines 96 and 106                  */
  /* ---------------------------------------------------------------------- */

  /** The node `find` reaches for `key` in bucket `idx`: its first node with the key. */
  function FindIn<K(==), V>(table: seq<seq<V>>, keyOf: V -> K, key: K, idx: nat): (r: Option<Pos>)
    requires idx < |table|
    ensures r.Some? ==> r.value.idx == idx && IsNode(table, |table|, r.value)
                        && KeyAt(table, |table|, keyOf, r.value) == key
    ensures r.None? <==> forall j :: 0 <= j < |table[idx]| ==> keyOf(table[idx][j]) != key
  {
    match FirstMatch(table[idx], keyOf, key)
    case Some(i) => Some(Pos(idx, i))
    case None => None
  }

  /** What an equal_range answers: a pair of iterators (None is the end), or an increment of the end iterator. */
  datatype RangeAnswer = Range(first: Option<Pos>, last: Option<Pos>) | EndIncrement

  /**
   * hash_single_policy::equal_range as written: `make_pair(it, ++it)`.
   * make_pair takes both arguments by forwarding reference, so both bind to
   * `it` and are copied only after `++it` has run: both ends of the pair are
   * the node after the one found. When the key is absent, `it` is the end
   * iterator and `++it` dereferences its null node.
   */
  function SingleEqualRangeAsWritten<K(==), V>(table: seq<seq<V>>, keyOf: V -> K, key: K, idx: nat): (r: RangeAnswer)
    requires idx < |table|
    ensures r.EndIncrement? <==> FindIn(table, keyOf, key, idx).None?
    ensures r.Range? ==> r.first == r.last
  {
    match FindIn(table, keyOf, key, idx)
    case None => EndIncrement
    case Some(p) =>
      var next := Step(table, |table|, p);
      Range(next, next)
  }

  /**
   * A set holding 3 in its only bucket: equal_range(3) is the empty range
   * (end, end) although the key is present, and equal_range(4) increments
   * the end iterator.
   */
  lemma SingleEqualRangeAsWrittenEmpty()
    ensures SingleEqualRangeAsWritten([[3]], (x: int) => x, 3, 0) == Range(None, None)
    ensures SingleEqualRangeAsWritten([[3]], (x: int) => x, 4, 0) == EndIncrement
  {
    assert FindIn([[3]], (x: int) => x, 3, 0) == Some(Pos(0, 0));
    assert Step([[3]], 1, Pos(0, 0)) == None;
  }

  /* ---------------------------------------------------------------------- */
  /* Multi-key insert                                                        */
  /* ---------------------------------------------------------------------- */

  /** hash_multi_policy::insert: after the first node with the key, else at the head. */
  function MultiInsertBucket<K(==), V>(b: seq<V>, keyOf: V -> K, v: V): (r: seq<V>)
    ensures |r| == |b| + 1
  {
    match FirstMatch(b, keyOf, keyOf(v))
    case Some(i) => b[..i + 1] + [v] + b[i + 1..]
    case None => [v] + b
  }

  /** A multi-key insert counts the new key once more and every other key as before. */
  lemma MultiInsertCount<K, V>(b: seq<V>, keyOf: V -> K, v: V, key: K)
    ensures CountKey(MultiInsertBucket(b, keyOf, v), keyOf, key)
            == CountKey(b, keyOf, key) + if keyOf(v) == key then 1 else 0
  {
    assert CountKey([v], keyOf, key) == if keyOf(v) == key then 1 else 0 by {
      assert [v][..0] == [];
    }
    match FirstMatch(b, keyOf, keyOf(v))
    case Some(i) =>
      var pre, post := b[..i + 1], b[i + 1..];
      CountAppend(pre + [v], post, keyOf, key);
      CountAppend(pre, [v], keyOf, key);
      CountAppend(pre, post, keyOf, key);
      assert pre + post == b;
    case None =>
      CountAppend([v], b, keyOf, key);
  }

  /** A multi-key insert keeps equal keys next to each other. */
  lemma MultiInsertKeepsGroups<K, V>(b: seq<V>, keyOf: V -> K, v: V)
    requires Grouped(b, keyOf)
    ensures Grouped(MultiInsertBucket(b, keyOf, v), keyOf)
  {
    var c := MultiInsertBucket(b, keyOf, v);
    match FirstMatch(b, keyOf, keyOf(v))
    case Some(i) =>
      forall p, q, r | 0 <= p < q < r < |c|
        ensures Between(c, keyOf, p, q, r)
      {
        DupKey(b, keyOf, v, i, p);
        DupKey(b, keyOf, v, i, q);
        DupKey(b, keyOf, v, i, r);
        if Dup(i, p) < Dup(i, q) < Dup(i, r) {
          assert Between(b, keyOf, Dup(i, p), Dup(i, q), Dup(i, r));
        }
      }
    case None =>
      forall p, q, r | 0 <= p < q < r < |c|
        ensures Between(c, keyOf, p, q, r)
      {
        assert c[r] == b[r - 1] && c[q] == b[q - 1];
        if p > 0 {
          assert c[p] == b[p - 1];
          assert Between(b, keyOf, p - 1, q - 1, r - 1);
        }
      }
  }

  /** Position m of the bucket after an insert after position i, mapped back to the bucket before it. */
  function Dup(i: nat, m: nat): nat {
    if m <= i then m else m - 1
  }

  lemma DupKey<K, V>(b: seq<V>, keyOf: V -> K, v: V, i: nat, m: nat)
    requires i < |b| && keyOf(b[i]) == keyOf(v) && m < |b| + 1
    ensures Dup(i, m) < |b|
    ensures keyOf((b[..i + 1] + [v] + b[i + 1..])[m]) == keyOf(b[Dup(i, m)])
  {
  }

  /* ---------------------------------------------------------------------- */
  /* Multi-key equal_range: the end of the range                             */
  /* ---------------------------------------------------------------------- */

  /** How the loop that looks for the end of a range ends. */
  datatype RangeEnd = Past(last: Option<Pos>) | EndDereference

  /** The key of the node at `p`. */
  function KeyAt<K(==), V>(table: seq<seq<V>>, maxIdx: nat, keyOf: V -> K, p: Pos): K
    requires IsNode(table, maxIdx, p)
  {
    keyOf(table[p.idx][p.node])
  }

  /**
   * `do { ++last; } while (keys_equal(key, *last));` as written: the loop
   * dereferences `last` after every increment, also when it has become the
   * end iterator.
   */
  function RangeEndAsWritten<K(==), V>(table: seq<seq<V>>, maxIdx: nat, keyOf: V -> K, key: K, p: Pos): (r: RangeEnd)
    requires IsNode(table, maxIdx, p)
    decreases maxIdx - p.idx, |table[p.idx]| - p.node
  {
    match Step(table, maxIdx, p)
    case None => EndDereference
    case Some(q) =>
      if KeyAt(table, maxIdx, keyOf, q) == key then RangeEndAsWritten(table, maxIdx, keyOf, key, q)
      else Past(Some(q))
  }

  /** A multiset whose last node in iteration order has the key: equal_range dereferences the end iterator. */
  lemma RangeAtTableEndDereferencesEnd()
    ensures RangeEndAsWritten([[7]], 1, (x: int) => x, 7, Pos(0, 0)) == EndDereference
  {
    assert Step([[7]], 1, Pos(0, 0)) == None;
  }

  /** The loop with the end tested before the dereference. */
  function RangeLast<K(==), V>(table: seq<seq<V>>, maxIdx: nat, keyOf: V -> K, key: K, p: Pos): (r: Option<Pos>)
    requires IsNode(table, maxIdx, p)
    ensures r.Some? ==> IsNode(table, maxIdx, r.value) && KeyAt(table, maxIdx, keyOf, r.value) != key
    ensures RangeEndAsWritten(table, maxIdx, keyOf, key, p) == Past(r) || r.None?
    decreases maxIdx - p.idx, |table[p.idx]| - p.node
  {
    match Step(table, maxIdx, p)
    case None => None
    case Some(q) =>
      if KeyAt(table, maxIdx, keyOf, q) == key then RangeLast(table, maxIdx, keyOf, key, q)
      else Some(q)
  }

  /** The number of nodes with the key from position `i` of `b` on, before the first other key. */
  function Run<K(==), V>(b: seq<V>, keyOf: V -> K, key: K, i: nat): (r: nat)
    ensures i + r <= |b| || r == 0
    ensures forall j :: i <= j < i + r ==> keyOf(b[j]) == key
    ensures i + r < |b| ==> keyOf(b[i + r]) != key
    decreases |b| - i
  {
    if i < |b| && keyOf(b[i]) == key then 1 + Run(b, keyOf, key, i + 1) else 0
  }

  /**
   * In a consistent table, the range that starts at node `i` of the key's
   * bucket ends at the node after the run of equal keys: the next node of
   * the same bucket, or the head of the next non-empty bucket, or the end.
   */
  lemma {:induction false} RangeLastAfterRun<K, V>(table: seq<seq<V>>, keyOf: V -> K, bucketOf: K -> nat,
                                                  key: K, i: nat, j: nat)
    requires Consistent(table, keyOf, bucketOf)
    requires bucketOf(key) < |table|
    requires i <= j < i + Run(table[bucketOf(key)], keyOf, key, i)
    ensures IsNode(table, |table|, Pos(bucketOf(key), j))
    ensures RangeLast(table, |table|, keyOf, key, Pos(bucketOf(key), j))
            == Step(table, |table|, Pos(bucketOf(key), i + Run(table[bucketOf(key)], keyOf, key, i) - 1))
    decreases i + Run(table[bucketOf(key)], keyOf, key, i) - j
  {
    var idx := bucketOf(key);
    var b := table[idx];
    var n := Run(b, keyOf, key, i);
    var p := Pos(idx, j);
    match Step(table, |table|, p)
    case None =>
    case Some(q) =>
      if q.idx != idx {
        assert bucketOf(keyOf(table[q.idx][q.node])) == q.idx;
      } else if j + 1 < i + n {
        RangeLastAfterRun(table, keyOf, bucketOf, key, i, j + 1);
      }
  }

  /** A bucket whose nodes with the key are exactly those of [i, m) counts m - i of them. */
  lemma {:induction false} CountOfRun<K, V>(b: seq<V>, keyOf: V -> K, key: K, i: nat, m: nat)
    requires i <= m <= |b|
    requires forall j :: 0 <= j < i ==> keyOf(b[j]) != key
    requires forall j :: i <= j < m ==> keyOf(b[j]) == key
    requires forall j :: m <= j < |b| ==> keyOf(b[j]) != key
    ensures CountKey(b, keyOf, key) == m - i
  {
    if b != [] {
      var p := b[..|b| - 1];
      assert forall j :: 0 <= j < |p| ==> p[j] == b[j];
      if m == |b| && i < m {
        CountOfRun(p, keyOf, key, i, m - 1);
      } else if m == |b| {
        CountOfRun(p, keyOf, key, |p|, |p|);
      } else {
        CountOfRun(p, keyOf, key, i, m);
      }
    }
  }

  /** Once a grouped bucket leaves the key of node i at node m, no later node has it. */
  lemma NoReturn<K, V>(b: seq<V>, keyOf: V -> K, key: K, i: nat, m: nat)
    requires Grouped(b, keyOf)
    requires i < m <= |b| && keyOf(b[i]) == key && (m < |b| ==> keyOf(b[m]) != key)
    ensures forall j :: m <= j < |b| ==> keyOf(b[j]) != key
  {
    forall j | m < j < |b|
      ensures keyOf(b[j]) != key
    {
      assert Between(b, keyOf, i, m, j);
    }
  }

  /**
   * The nodes of a grouped bucket with the key are exactly the run that
   * starts at the first of them: equal_range spans them all.
   */
  lemma GroupedRunIsCount<K, V>(b: seq<V>, keyOf: V -> K, key: K)
    requires Grouped(b, keyOf)
    requires FirstMatch(b, keyOf, key).Some?
    ensures Run(b, keyOf, key, FirstMatch(b, keyOf, key).value) == CountKey(b, keyOf, key)
  {
    var i := FirstMatch(b, keyOf, key).value;
    GroupedRun(b, keyOf, key, i);
    CountOfRun(b, keyOf, key, i, i + Run(b, keyOf, key, i));
  }

  /** In a grouped bucket no node after the run that starts at node i has the key of node i. */
  lemma GroupedRun<K, V>(b: seq<V>, keyOf: V -> K, key: K, i: nat)
    requires Grouped(b, keyOf)
    requires i < |b| && keyOf(b[i]) == key
    ensures forall j :: i + Run(b, keyOf, key, i) <= j < |b| ==> keyOf(b[j]) != key
  {
    RunStarts(b, keyOf, key, i);
    NoReturn(b, keyOf, key, i, i + Run(b, keyOf, key, i));
  }

  /** A run that starts at a node with the key is not empty. */
  lemma RunStarts<K, V>(b: seq<V>, keyOf: V -> K, key: K, i: nat)
    requires i < |b| && keyOf(b[i]) == key
    ensures Run(b, keyOf, key, i) > 0
  {
  }

  /* ---------------------------------------------------------------------- */
  /* The table                                                               */
  /* ---------------------------------------------------------------------- */

  /** Where an insert puts its node: the bucket, and the node it is compared with (None when the head is null). */
  datatype Spot = Spot(idx: nat, target: Option<nat>)

  /** hash_table: the bucket array, the node count, and the key and bucket functions. */
  class HashTable<K(==,!new), V> {
    const table: array<seq<V>>
    var size: nat
    const keyOf: V -> K
    const bucketOf: K -> nat

    ghost predicate Valid()
      reads this, table
    {
      && (forall k :: bucketOf(k) < table.Length)
      && size == Total(table[..])
      && Consistent(table[..], keyOf, bucketOf)
    }

    constructor (buckets: nat, keyOf: V -> K, bucketOf: K -> nat)
      requires forall k :: bucketOf(k) < buckets
      ensures Valid() && fresh(table) && table.Length == buckets && size == 0
      ensures this.keyOf == keyOf && this.bucketOf == bucketOf
      ensures forall i :: 0 <= i < buckets ==> table[i] == []
    {
      table := new seq<V>[buckets](_ => []);
      size := 0;
      this.keyOf := keyOf;
      this.bucketOf := bucketOf;
      new;
      assert forall i :: 0 <= i < buckets ==> table[..][i] == [];
      ZeroTotal(table[..]);
    }

    /** The bucket of `key`. */
    function BucketOf(key: K): seq<V>
      reads this, table
      requires Valid()
    {
      table[bucketOf(key)]
    }

    /* ------------------------------- single ------------------------------ */

    /** hash_single_policy::count: 1 when `find` hits, 0 otherwise. */
    function SingleCount(key: K): (r: nat)
      reads this, table
      requires Valid()
      ensures r <= 1
      ensures r == 1 <==> exists j :: 0 <= j < |BucketOf(key)| && keyOf(BucketOf(key)[j]) == key
      ensures UniqueKeys(BucketOf(key), keyOf) ==> r == CountKey(BucketOf(key), keyOf, key)
    {
      CountPositive(BucketOf(key), keyOf, key);
      UniqueCountAtMostOne(BucketOf(key), keyOf, key);
      if FirstMatch(BucketOf(key), keyOf, key).Some? then 1 else 0
    }

    /** hash_single_policy::find_insertion_spot: the key's bucket and its head. */
    function SingleFindInsertionSpot(key: K): (r: Spot)
      reads this, table
      requires Valid()
      ensures r.idx == bucketOf(key) && r.idx < table.Length
      ensures r.target.Some? <==> table[r.idx] != []
      ensures r.target.Some? ==> r.target.value == 0
    {
      var idx := bucketOf(key);
      Spot(idx, if table[idx] == [] then None else Some(0))
    }

    /**
     * hash_single_policy::erase, with the null check the loop lacks: the
     * first node of the key's bucket with the key is unlinked (a removed
     * head makes the next node the head, or leaves the bucket empty), the
     * size drops by one and 1 is returned; otherwise nothing changes and 0
     * is returned.
     */
    method SingleErase(key: K) returns (r: nat)
      requires Valid()
      modifies this, table
      ensures Valid()
      ensures old(EraseScan(BucketOf(key), keyOf, key)).Erased? ==>
                var i := old(EraseScan(BucketOf(key), keyOf, key)).pos;
                r == 1 && size == old(size) - 1
                && table[bucketOf(key)] == old(table[bucketOf(key)][..i] + table[bucketOf(key)][i + 1..])
      ensures old(EraseScan(BucketOf(key), keyOf, key)).NotFound? ==>
                r == 0 && size == old(size) && table[bucketOf(key)] == old(table[bucketOf(key)])
      ensures forall i :: 0 <= i < table.Length && i != bucketOf(key) ==> table[i] == old(table[i])
    {
      var idx := bucketOf(key);
      var b := table[idx];
      if b == [] {
        return 0;
      }
      var current := 0;
      while true
        invariant current < |b|
        invariant forall j :: 0 <= j < current ==> keyOf(b[j]) != key
        decreases |b| - current
      {
        if keyOf(b[current]) == key {
          var c := b[..current] + b[current + 1..];
          assert forall j :: 0 <= j < |c| ==> c[j] == b[if j < current then j else j + 1];
          forall x | x in c
            ensures bucketOf(keyOf(x)) == idx
          {
            var j :| 0 <= j < |c| && c[j] == x;
          }
          SetBucket(idx, c);
          return 1;
        }
        current := NextInList(|b|, current);
        if current == 0 {
          break;
        }
      }
      return 0;
    }

    /**
     * hash_single_policy::insert (and emplace) as written: when the head of
     * the key's bucket has the key, that node is returned with false and the
     * size is unchanged; otherwise the value is prepended as the new head,
     * which is returned with true, and the size grows by one.
     */
    method SingleInsertAsWritten(v: V) returns (it: Pos, inserted: bool)
      requires Valid()
      modifies this, table
      ensures Valid()
      ensures it == Pos(bucketOf(keyOf(v)), 0)
      ensures table[bucketOf(keyOf(v))] == HeadOnlyInsert(old(table[bucketOf(keyOf(v))]), keyOf, v)
      ensures inserted <==> |table[bucketOf(keyOf(v))]| == old(|table[bucketOf(keyOf(v))]|) + 1
      ensures size == old(size) + if inserted then 1 else 0
      ensures forall i :: 0 <= i < table.Length && i != bucketOf(keyOf(v)) ==> table[i] == old(table[i])
    {
      var key := keyOf(v);
      var spot := SingleFindInsertionSpot(key);
      var b := table[spot.idx];
      if spot.target.Some? && keyOf(b[spot.target.value]) == key {
        return Pos(spot.idx, spot.target.value), false;
      }
      Prepend(spot.idx, v);
      return Pos(spot.idx, 0), true;
    }

    /**
     * The single-key insert with the whole bucket searched for the key: a
     * node with the key is returned with false and nothing changes;
     * otherwise the value becomes the head. Keys stay unique.
     */
    method SingleInsert(v: V) returns (it: Pos, inserted: bool)
      requires Valid()
      modifies this, table
      ensures Valid()
      ensures table[bucketOf(keyOf(v))] == SingleInsertBucket(old(table[bucketOf(keyOf(v))]), keyOf, v)
      ensures inserted <==> old(FirstMatch(table[bucketOf(keyOf(v))], keyOf, keyOf(v))).None?
      ensures it.idx == bucketOf(keyOf(v)) && it.node < |table[it.idx]| && keyOf(table[it.idx][it.node]) == keyOf(v)
      ensures size == old(size) + if inserted then 1 else 0
      ensures forall i :: 0 <= i < table.Length && i != bucketOf(keyOf(v)) ==> table[i] == old(table[i])
    {
      var key := keyOf(v);
      var spot := MultiFindInsertionSpot(key);
      var b := table[spot.idx];
      if spot.target.Some? && keyOf(b[spot.target.value]) == key {
        return Pos(spot.idx, spot.target.value), false;
      }
      Prepend(spot.idx, v);
      return Pos(spot.idx, 0), true;
    }

    /** `bucket->prepend(node)`: the value becomes the head of bucket `idx`. */
    method Prepend(idx: nat, v: V)
      requires Valid() && idx == bucketOf(keyOf(v))
      modifies this, table
      ensures Valid()
      ensures table[idx] == [v] + old(table[idx]) && size == old(size) + 1
      ensures forall i :: 0 <= i < table.Length && i != idx ==> table[i] == old(table[i])
    {
      var c := [v] + table[idx];
      forall x | x in c
        ensures bucketOf(keyOf(x)) == idx
      {
        if x != v {
          var j :| 0 <= j < |table[idx]| && table[idx][j] == x;
        }
      }
      SetBucket(idx, c);
    }

    /** Relinks bucket `idx` to hold `c`; the size follows the change in the number of nodes. */
    method SetBucket(idx: nat, c: seq<V>)
      requires Valid() && idx < table.Length
      requires forall x :: x in c ==> bucketOf(keyOf(x)) == idx
      modifies this, table
      ensures Valid()
      ensures table[idx] == c && size + old(|table[idx]|) == old(size) + |c|
      ensures forall i :: 0 <= i < table.Length && i != idx ==> table[i] == old(table[i])
    {
      ghost var before := table[..];
      var n := |table[idx]|;
      table[idx] := c;
      TotalUpdate(before, idx, c);
      assert table[..] == before[idx := c];
      size := size + |c| - n;
      assert Consistent(table[..], keyOf, bucketOf) by {
        forall i, j | 0 <= i < table.Length && 0 <= j < |table[i]|
          ensures bucketOf(keyOf(table[i][j])) == i
        {
          if i == idx {
            assert table[i][j] in c;
          } else {
            assert table[i] == before[i];
          }
        }
      }
    }

    /**
     * hash_single_policy::equal_range, with the found iterator copied before
     * it is incremented and the end iterator left alone: (end, end) when the
     * key is absent; otherwise the node `find` reaches and the node after it
     * in iteration order, a range of exactly that one node. Its second end
     * is the one the code as written returns for both.
     */
    method SingleEqualRange(key: K) returns (r: RangeAnswer)
      requires Valid()
      ensures FindIn(table[..], keyOf, key, bucketOf(key)).None? ==> r == Range(None, None)
      ensures FindIn(table[..], keyOf, key, bucketOf(key)).Some? ==>
                var p := FindIn(table[..], keyOf, key, bucketOf(key)).value;
                && r == Range(Some(p), Step(table[..], table.Length, p))
                && SingleEqualRangeAsWritten(table[..], keyOf, key, bucketOf(key)) == Range(r.last, r.last)
    {
      var idx := bucketOf(key);
      var found := FindIn(table[..], keyOf, key, idx);
      if found.None? {
        return Range(None, None);
      }
      var it := new HashTableIterator(table[..], idx, table.Length, Some(found.value.node), false);
      it.Increment();
      return Range(found, it.Node());
    }

    /* ------------------------------- multi ------------------------------- */

    /** hash_multi_policy::count: walks the key's circular list from its head and counts the nodes with the key. */
    method MultiCount(key: K) returns (r: nat)
      requires Valid()
      ensures r == CountKey(BucketOf(key), keyOf, key)
    {
      var b := table[bucketOf(key)];
      if b == [] {
        return 0;
      }
      var current := 0;
      r := 0;
      while true
        invariant current < |b|
        invariant r == CountKey(b[..current], keyOf, key)
        decreases |b| - current
      {
        assert b[..current + 1][..current] == b[..current];
        if keyOf(b[current]) == key {
          r := r + 1;
        }
        current := NextInList(|b|, current);
        if current == 0 {
          assert b[..|b|] == b;
          break;
        }
      }
    }

    /** hash_multi_policy::find_insertion_spot: the first node of the key's bucket with the key, else its head. */
    method MultiFindInsertionSpot(key: K) returns (spot: Spot)
      requires Valid()
      ensures spot.idx == bucketOf(key)
      ensures FirstMatch(BucketOf(key), keyOf, key).Some? ==> spot.target == FirstMatch(BucketOf(key), keyOf, key)
      ensures FirstMatch(BucketOf(key), keyOf, key).None? ==>
                spot.target == if BucketOf(key) == [] then None else Some(0)
    {
      var idx := bucketOf(key);
      var b := table[idx];
      if b != [] {
        var current := 0;
        while true
          invariant current < |b|
          invariant forall j :: 0 <= j < current ==> keyOf(b[j]) != key
          decreases |b| - current
        {
          if keyOf(b[current]) == key {
            return Spot(idx, Some(current));
          }
          current := NextInList(|b|, current);
          if current == 0 {
            break;
          }
        }
      }
      return Spot(idx, if b == [] then None else Some(0));
    }

    /**
     * hash_multi_policy::insert (and emplace): always inserts and answers
     * true; the node goes after the first node with its key, or becomes the
     * head when there is none. The iterator returned points at the new node.
     */
    method MultiInsert(v: V) returns (it: Pos, inserted: bool)
      requires Valid()
      modifies this, table
      ensures Valid() && inserted
      ensures table[bucketOf(keyOf(v))] == MultiInsertBucket(old(table[bucketOf(keyOf(v))]), keyOf, v)
      ensures it.idx == bucketOf(keyOf(v)) && it.node < |table[it.idx]| && table[it.idx][it.node] == v
      ensures size == old(size) + 1
      ensures forall i :: 0 <= i < table.Length && i != bucketOf(keyOf(v)) ==> table[i] == old(table[i])
    {
      var key := keyOf(v);
      var spot := MultiFindInsertionSpot(key);
      var b := table[spot.idx];
      if spot.target.Some? && keyOf(b[spot.target.value]) == key {
        var t := spot.target.value;
        var c := b[..t + 1] + [v] + b[t + 1..];
        InsertedMembers(b, t, v);
        forall x | x in c
          ensures bucketOf(keyOf(x)) == spot.idx
        {
          if x != v {
            var j :| 0 <= j < |b| && b[j] == x;
          }
        }
        SetBucket(spot.idx, c);
        assert c[t + 1] == v;
        return Pos(spot.idx, t + 1), true;
      }
      Prepend(spot.idx, v);
      return Pos(spot.idx, 0), true;
    }

    /**
     * hash_multi_policy::erase as evidently intended: every node of the
     * key's bucket with the key is unlinked, the size drops by their number,
     * which is returned.
     */
    method MultiErase(key: K) returns (r: nat)
      requires Valid()
      modifies this, table
      ensures Valid()
      ensures r == old(CountKey(BucketOf(key), keyOf, key)) && size == old(size) - r
      ensures table[bucketOf(key)] == Without(old(table[bucketOf(key)]), keyOf, key)
      ensures forall i :: 0 <= i < table.Length && i != bucketOf(key) ==> table[i] == old(table[i])
    {
      var idx := bucketOf(key);
      var b := table[idx];
      var kept;
      kept, r := Unlink(b, keyOf, key);
      forall x | x in kept
        ensures bucketOf(keyOf(x)) == idx
      {
        var j :| 0 <= j < |b| && b[j] == x;
      }
      SetBucket(idx, kept);
    }

    /**
     * hash_multi_policy::equal_range: (end, end) when the key is absent;
     * otherwise the node `find` reaches and the first node after it in
     * iteration order without the key, the end test corrected to come
     * before the dereference.
     */
    method MultiEqualRange(key: K) returns (first: Option<Pos>, last: Option<Pos>)
      requires Valid()
      ensures FirstMatch(BucketOf(key), keyOf, key).None? ==> first.None? && last.None?
      ensures FirstMatch(BucketOf(key), keyOf, key).Some? ==>
                first == Some(Pos(bucketOf(key), FirstMatch(BucketOf(key), keyOf, key).value))
                && IsNode(table[..], table.Length, first.value)
                && last == RangeLast(table[..], table.Length, keyOf, key, first.value)
    {
      var idx := bucketOf(key);
      var found := FirstMatch(table[idx], keyOf, key);
      if found.None? {
        return None, None;
      }
      var snapshot := table[..];
      var start := Pos(idx, found.value);
      first := Some(start);
      var it := new HashTableIterator(snapshot, idx, table.Length, Some(found.value), false);
      it.Increment();
      while it.current.Some? && keyOf(snapshot[it.idx][it.current.value]) == key
        invariant it.Valid() && it.table == snapshot && it.maxIdx == |snapshot|
        invariant it.current.Some? && KeyAt(snapshot, |snapshot|, keyOf, it.Node().value) == key ==>
                    RangeLast(snapshot, |snapshot|, keyOf, key, start) == RangeLast(snapshot, |snapshot|, keyOf, key, it.Node().value)
        invariant !(it.current.Some? && KeyAt(snapshot, |snapshot|, keyOf, it.Node().value) == key) ==>
                    RangeLast(snapshot, |snapshot|, keyOf, key, start) == it.Node()
        decreases |snapshot| - it.idx, if it.current.Some? && it.idx < |snapshot| then |snapshot[it.idx]| - it.current.value else 0
      {
        it.Increment();
      }
      last := it.Node();
    }
  }

  /**
   * The walk of hash_multi_policy::erase over one bucket: every node with
   * the key is unlinked and counted, the others are kept in order.
   */
  method Unlink<K(==), V>(b: seq<V>, keyOf: V -> K, key: K) returns (kept: seq<V>, removed: nat)
    ensures kept == Without(b, keyOf, key) && removed == CountKey(b, keyOf, key)
    ensures |kept| + removed == |b| && CountKey(kept, keyOf, key) == 0
  {
    kept := [];
    removed := 0;
    var current := 0;
    while current < |b|
      invariant current <= |b|
      invariant kept == Without(b[..current], keyOf, key)
      invariant removed == CountKey(b[..current], keyOf, key)
    {
      WithoutStep(b, keyOf, key, current);
      if keyOf(b[current]) == key {
        removed := removed + 1;
      } else {
        kept := kept + [b[current]];
      }
      current := current + 1;
    }
    assert b[..|b|] == b;
    WithoutCount(b, keyOf, key);
  }

  /** A node inserted after node t: the other nodes are those of the bucket. */
  lemma InsertedMembers<V>(b: seq<V>, t: nat, v: V)
    requires t < |b|
    ensures forall x :: x in b[..t + 1] + [v] + b[t + 1..] ==> x in b || x == v
  {
    forall x | x in b[..t + 1] + [v] + b[t + 1..] && x != v
      ensures x in b
    {
      if x in b[..t + 1] {
        var j :| 0 <= j < t + 1 && b[..t + 1][j] == x;
        assert b[j] == x;
      } else {
        var j :| 0 <= j < |b| - t - 1 && b[t + 1..][j] == x;
        assert b[t + 1 + j] == x;
      }
    }
  }

  /** A bucket without its nodes that have the key. */
  function Without<K(==), V>(b: seq<V>, keyOf: V -> K, key: K): (r: seq<V>)
    ensures forall x :: x in r ==> x in b && keyOf(x) != key
  {
    if b == [] then []
    else Without(b[..|b| - 1], keyOf, key) + if keyOf(b[|b| - 1]) == key then [] else [b[|b| - 1]]
  }

  lemma WithoutStep<K, V>(b: seq<V>, keyOf: V -> K, key: K, i: nat)
    requires i < |b|
    ensures Without(b[..i + 1], keyOf, key)
            == Without(b[..i], keyOf, key) + if keyOf(b[i]) == key then [] else [b[i]]
    ensures CountKey(b[..i + 1], keyOf, key) == CountKey(b[..i], keyOf, key) + if keyOf(b[i]) == key then 1 else 0
  {
    assert b[..i + 1][..i] == b[..i];
  }

  /** Removing the nodes with the key removes as many nodes as it counts, and leaves none. */
  lemma {:induction false} WithoutCount<K, V>(b: seq<V>, keyOf: V -> K, key: K)
    ensures |Without(b, keyOf, key)| + CountKey(b, keyOf, key) == |b|
    ensures CountKey(Without(b, keyOf, key), keyOf, key) == 0
  {
    if b != [] {
      var p := b[..|b| - 1];
      WithoutCount(p, keyOf, key);
      var w := Without(p, keyOf, key);
      var tail: seq<V> := if keyOf(b[|b| - 1]) == key then [] else [b[|b| - 1]];
      CountAppend(w, tail, keyOf, key);
      assert CountKey(tail, keyOf, key) == 0 by {
        if tail != [] {
          assert tail[..0] == [];
        }
      }
    }
  }

  /** Removing the nodes with the key from a concatenation removes them from each part. */
  lemma {:induction false} WithoutAppend<K, V>(a: seq<V>, c: seq<V>, keyOf: V -> K, key: K)
    ensures Without(a + c, keyOf, key) == Without(a, keyOf, key) + Without(c, keyOf, key)
    decreases |c|
  {
    if c == [] {
      assert a + c == a;
    } else {
      var last := c[|c| - 1];
      assert (a + c)[..|a + c| - 1] == a + c[..|c| - 1];
      WithoutAppend(a, c[..|c| - 1], keyOf, key);
    }
  }

  /** A stretch in which every node has the key is removed entirely; one with no such node is kept. */
  lemma {:induction false} WithoutUniform<K, V>(b: seq<V>, keyOf: V -> K, key: K)
    ensures (forall j :: 0 <= j < |b| ==> keyOf(b[j]) == key) ==> Without(b, keyOf, key) == []
    ensures (forall j :: 0 <= j < |b| ==> keyOf(b[j]) != key) ==> Without(b, keyOf, key) == b
  {
    if b != [] {
      WithoutUniform(b[..|b| - 1], keyOf, key);
      assert b[..|b| - 1] + [b[|b| - 1]] == b;
    }
  }

  lemma WithoutThree<K, V>(a: seq<V>, m: seq<V>, c: seq<V>, keyOf: V -> K, key: K)
    ensures Without(a + m + c, keyOf, key)
            == Without(a, keyOf, key) + Without(m, keyOf, key) + Without(c, keyOf, key)
  {
    WithoutAppend(a, m, keyOf, key);
    WithoutAppend(a + m, c, keyOf, key);
  }

  /** Removing the nodes with the key from a bucket where they form one stretch between two stretches without it. */
  lemma WithoutStretch<K, V>(pre: seq<V>, run: seq<V>, post: seq<V>, keyOf: V -> K, key: K)
    requires forall j :: 0 <= j < |pre| ==> keyOf(pre[j]) != key
    requires forall j :: 0 <= j < |run| ==> keyOf(run[j]) == key
    requires forall j :: 0 <= j < |post| ==> keyOf(post[j]) != key
    ensures Without(pre + run + post, keyOf, key) == pre + post
  {
    WithoutUniform(pre, keyOf, key);
    WithoutUniform(run, keyOf, key);
    WithoutUniform(post, keyOf, key);
    WithoutThree(pre, run, post, keyOf, key);
  }

  lemma SliceThree<V>(b: seq<V>, i: nat, n: nat)
    requires i + n <= |b|
    ensures b == b[..i] + b[i..i + n] + b[i + n..]
  {
    assert b[i..] == b[i..i + n] + b[i + n..];
    assert b == b[..i] + b[i..];
  }

  /** The same, for a bucket whose nodes `i .. i + n` are the only ones with the key. */
  lemma WithoutRun<K, V>(b: seq<V>, keyOf: V -> K, key: K, i: nat, n: nat)
    requires i + n <= |b|
    requires forall j :: 0 <= j < i ==> keyOf(b[j]) != key
    requires forall j :: i <= j < i + n ==> keyOf(b[j]) == key
    requires forall j :: i + n <= j < |b| ==> keyOf(b[j]) != key
    ensures Without(b, keyOf, key) == b[..i] + b[i + n..]
  {
    WithoutStretch(b[..i], b[i..i + n], b[i + n..], keyOf, key);
    SliceThree(b, i, n);
  }

  /**
   * In a grouped bucket, removing every node with the key is removing the run
   * that starts at the first node with it: what hash_multi_policy::erase
   * relies on when it stops after the first run.
   */
  lemma GroupedWithoutIsFirstRun<K, V>(b: seq<V>, keyOf: V -> K, key: K, i: nat, n: nat)
    requires Grouped(b, keyOf)
    requires FirstMatch(b, keyOf, key) == Some(i) && n == Run(b, keyOf, key, i)
    ensures i + n <= |b| && Without(b, keyOf, key) == b[..i] + b[i + n..]
  {
    assert forall j :: i + n <= j < |b| ==> keyOf(b[j]) != key by {
      GroupedRun(b, keyOf, key, i);
    }
    WithoutRun(b, keyOf, key, i, n);
  }

  lemma ZeroTotal<V>(buckets: seq<seq<V>>)
    requires forall i :: 0 <= i < |buckets| ==> buckets[i] == []
    ensures Total(buckets) == 0
  {
  }
}
