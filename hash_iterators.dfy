/*
 * The iterators of libcpp's unordered containers
 * (uspace/lib/cpp/include/internal/hash_table_iterators.hpp).
 *
 * A table is a sequence of buckets; a bucket is the sequence of values of
 * its circular list read from its head, so position 0 is the head and the
 * next node after the last position is the head again. A node is named by
 * its bucket index and its position in the bucket (`Pos`); a null node
 * pointer is `None`. The iterators never change the table, so they hold a
 * snapshot of its buckets.
 */
module HashIterators {
  import opened Wrappers

  /** A node of the table: bucket index and position in the bucket's list, counted from the head. */
  datatype Pos = Pos(idx: nat, node: nat)

  /** `p` names a node of one of the buckets below `maxIdx`. */
  predicate IsNode<T>(table: seq<seq<T>>, maxIdx: nat, p: Pos) {
    p.idx < maxIdx <= |table| && p.node < |table[p.idx]|
  }

  /** The first bucket at `from` or above, and below `maxIdx`, whose head is not null. */
  function NextNonEmpty<T>(table: seq<seq<T>>, from: nat, maxIdx: nat): (r: Option<nat>)
    requires maxIdx <= |table|
    ensures r.Some? ==> from <= r.value < maxIdx && table[r.value] != []
    ensures r.Some? ==> forall k :: from <= k < r.value ==> table[k] == []
    ensures r.None? ==> forall k :: from <= k < maxIdx ==> table[k] == []
    decreases maxIdx - from
  {
    if from >= maxIdx then None
    else if table[from] != [] then Some(from)
    else NextNonEmpty(table, from + 1, maxIdx)
  }

  /** The node `current_->next` names: the next position, or the head after the last one. */
  function NextInList(len: nat, node: nat): (r: nat)
    requires node < len
    ensures r < len
    ensures r == 0 <==> node + 1 == len
  {
    if node + 1 < len then node + 1 else 0
  }

  /**
   * What `operator++` of a table iterator makes of the node `p`: the next
   * node of its bucket; on wrapping around to the bucket's head, the head
   * of the next non-empty bucket below `maxIdx`; None (the end) if there is
   * none.
   */
  function Step<T>(table: seq<seq<T>>, maxIdx: nat, p: Pos): (r: Option<Pos>)
    requires IsNode(table, maxIdx, p)
    ensures r.Some? ==> IsNode(table, maxIdx, r.value)
    ensures r.Some? ==> r.value.idx > p.idx || (r.value.idx == p.idx && r.value.node == p.node + 1)
  {
    var next := NextInList(|table[p.idx]|, p.node);
    if next != 0 then Some(Pos(p.idx, next))
    else match NextNonEmpty(table, p.idx + 1, maxIdx)
      case Some(j) => Some(Pos(j, 0))
      case None => None
  }

  /** The node `begin()` names: the head of the first non-empty bucket. */
  function First<T>(table: seq<seq<T>>, maxIdx: nat): (r: Option<Pos>)
    requires maxIdx <= |table|
    ensures r.Some? ==> IsNode(table, maxIdx, r.value) && r.value.node == 0
    ensures r.None? <==> forall k :: 0 <= k < maxIdx ==> table[k] == []
  {
    match NextNonEmpty(table, 0, maxIdx)
    case Some(j) => Some(Pos(j, 0))
    case None => None
  }

  /** Every node of bucket `from`, then of bucket `from + 1`, and so on below `maxIdx`, each bucket from its head. */
  function Order<T>(table: seq<seq<T>>, from: nat, maxIdx: nat): seq<Pos>
    requires maxIdx <= |table|
    decreases maxIdx - from
  {
    if from >= maxIdx then []
    else Block(from, |table[from]|) + Order(table, from + 1, maxIdx)
  }

  /** The nodes of bucket `idx`, which holds `len` of them, from its head. */
  function Block(idx: nat, len: nat): (r: seq<Pos>)
    ensures |r| == len && forall k :: 0 <= k < len ==> r[k] == Pos(idx, k)
  {
    if len == 0 then [] else Block(idx, len - 1) + [Pos(idx, len - 1)]
  }

  /** `p` comes before `q` in bucket-then-list order. */
  predicate Before(p: Pos, q: Pos) {
    p.idx < q.idx || (p.idx == q.idx && p.node < q.node)
  }

  /** The order lists exactly the nodes of the buckets from `from` on, in strictly increasing order. */
  lemma {:induction false} OrderNodes<T>(table: seq<seq<T>>, from: nat, maxIdx: nat)
    requires maxIdx <= |table|
    ensures forall p :: p in Order(table, from, maxIdx) <==> from <= p.idx && IsNode(table, maxIdx, p)
    ensures forall a, b :: 0 <= a < b < |Order(table, from, maxIdx)| ==>
              Before(Order(table, from, maxIdx)[a], Order(table, from, maxIdx)[b])
    decreases maxIdx - from
  {
    if from < maxIdx {
      OrderNodes(table, from + 1, maxIdx);
      var block := Block(from, |table[from]|);
      var rest := Order(table, from + 1, maxIdx);
      assert Order(table, from, maxIdx) == block + rest;
      forall p: Pos | from <= p.idx && IsNode(table, maxIdx, p)
        ensures p in Order(table, from, maxIdx)
      {
        if p.idx == from {
          assert block[p.node] == p;
        } else {
          assert p in rest;
        }
      }
    }
  }

  /** The order from `from` starts at the head of the first non-empty bucket at or above `from`. */
  lemma {:induction false} OrderHead<T>(table: seq<seq<T>>, from: nat, maxIdx: nat)
    requires maxIdx <= |table|
    ensures Order(table, from, maxIdx) == [] <==> NextNonEmpty(table, from, maxIdx).None?
    ensures Order(table, from, maxIdx) != [] ==>
              Order(table, from, maxIdx)[0] == Pos(NextNonEmpty(table, from, maxIdx).value, 0)
    decreases maxIdx - from
  {
    if from < maxIdx {
      var block := Block(from, |table[from]|);
      var rest := Order(table, from + 1, maxIdx);
      assert Order(table, from, maxIdx) == block + rest;
      if table[from] != [] {
        assert Order(table, from, maxIdx)[0] == block[0];
      } else {
        assert block == [];
        OrderHead(table, from + 1, maxIdx);
      }
    }
  }

  /** From any node, `++` reaches the node that follows it in the order, and the last node's successor is the end. */
  lemma {:induction false} StepFollowsOrder<T>(table: seq<seq<T>>, from: nat, maxIdx: nat, k: nat)
    requires maxIdx <= |table|
    requires k < |Order(table, from, maxIdx)|
    ensures IsNode(table, maxIdx, Order(table, from, maxIdx)[k])
    ensures Step(table, maxIdx, Order(table, from, maxIdx)[k])
            == if k + 1 < |Order(table, from, maxIdx)| then Some(Order(table, from, maxIdx)[k + 1]) else None
    decreases maxIdx - from
  {
    var order := Order(table, from, maxIdx);
    var block := Block(from, |table[from]|);
    var rest := Order(table, from + 1, maxIdx);
    assert order == block + rest;
    if k < |block| {
      assert order[k] == Pos(from, k);
      if k + 1 == |block| {
        OrderHead(table, from + 1, maxIdx);
        if rest != [] {
          assert order[k + 1] == rest[0];
        }
      } else {
        assert order[k + 1] == Pos(from, k + 1);
      }
    } else {
      assert order[k] == rest[k - |block|];
      StepFollowsOrder(table, from + 1, maxIdx, k - |block|);
      if k + 1 < |order| {
        assert order[k + 1] == rest[k + 1 - |block|];
      }
    }
  }

  /** Where `n` applications of `++` lead from node `start` (None once the end is reached). */
  function Walk<T>(table: seq<seq<T>>, maxIdx: nat, start: Option<Pos>, n: nat): (r: Option<Pos>)
    requires start.Some? ==> IsNode(table, maxIdx, start.value)
    ensures r.Some? ==> IsNode(table, maxIdx, r.value)
    decreases n
  {
    if n == 0 || start.None? then start
    else Walk(table, maxIdx, Step(table, maxIdx, start.value), n - 1)
  }

  /**
   * Forward iteration: `n` increments from `begin()` reach the n-th node of
   * the order, and the end after exactly as many increments as there are
   * nodes; since the order lists each node once, every node of every
   * non-empty bucket is visited exactly once, bucket by bucket and each
   * bucket from its head.
   */
  lemma {:induction false} IterationVisitsOrder<T>(table: seq<seq<T>>, maxIdx: nat, n: nat)
    requires maxIdx <= |table|
    requires n <= |Order(table, 0, maxIdx)|
    ensures Walk(table, maxIdx, First(table, maxIdx), n)
            == if n < |Order(table, 0, maxIdx)| then Some(Order(table, 0, maxIdx)[n]) else None
  {
    var order := Order(table, 0, maxIdx);
    OrderHead(table, 0, maxIdx);
    if n > 0 {
      IterationVisitsOrder(table, maxIdx, n - 1);
      StepFollowsOrder(table, 0, maxIdx, n - 1);
      WalkLast(table, maxIdx, First(table, maxIdx), n - 1);
    }
  }

  /** One more increment after `n` is one step from where `n` increments lead. */
  lemma {:induction false} WalkLast<T>(table: seq<seq<T>>, maxIdx: nat, start: Option<Pos>, n: nat)
    requires start.Some? ==> IsNode(table, maxIdx, start.value)
    ensures var w := Walk(table, maxIdx, start, n);
      Walk(table, maxIdx, start, n + 1) == if w.Some? then Step(table, maxIdx, w.value) else None
    decreases n
  {
    if n > 0 && start.Some? {
      WalkLast(table, maxIdx, Step(table, maxIdx, start.value), n - 1);
    }
  }

  /* ---------------------------------------------------------------------- */
  /* The defect of lines 76, 101, 192 and 217                                */
  /* ---------------------------------------------------------------------- */

  /**
   * The bucket indices that `while (!table_[++idx_].head && idx_ < max_idx_)`
   * reads, as written, when the list of bucket `idx` wraps: the index is
   * incremented and the bucket read before the bound is tested. The first
   * read at or past the end of the table is the last one listed.
   */
  function ProbesAsWritten<T>(table: seq<seq<T>>, idx: nat, maxIdx: nat): (r: seq<nat>)
    ensures |r| > 0 && r[0] == idx + 1
    decreases |table| - idx
  {
    if idx + 1 >= |table| then [idx + 1]
    else if table[idx + 1] == [] && idx + 1 < maxIdx then [idx + 1] + ProbesAsWritten(table, idx + 1, maxIdx)
    else [idx + 1]
  }

  /**
   * With max_idx_ the bucket count, as the containers pass it, leaving the
   * last non-empty bucket reads `table_[max_idx_]`, one bucket past the end.
   */
  lemma {:induction false} WrapReadsPastEnd<T>(table: seq<seq<T>>, idx: nat)
    requires idx < |table|
    requires NextNonEmpty(table, idx + 1, |table|).None?
    ensures |table| in ProbesAsWritten(table, idx, |table|)
    decreases |table| - idx
  {
    if idx + 1 < |table| {
      assert table[idx + 1] == [];
      WrapReadsPastEnd(table, idx + 1);
    }
  }

  /** The smallest case: one bucket holding one node; `++` on it reads bucket 1 of 1. */
  lemma OneBucketReadsPastEnd(v: int)
    ensures ProbesAsWritten([[v]], 0, 1) == [1]
    ensures Step([[v]], 1, Pos(0, 0)) == None
  {
  }

  /* ---------------------------------------------------------------------- */
  /* Table iterators                                                         */
  /* ---------------------------------------------------------------------- */

  /**
   * hash_table_iterator and hash_table_const_iterator: the two differ only
   * in the constness of what they give access to (`readOnly`).
   */
  class HashTableIterator<T> {
    const table: seq<seq<T>>
    const maxIdx: nat
    const readOnly: bool
    var idx: nat
    var current: Option<nat>

    predicate Valid()
      reads this
    {
      maxIdx <= |table| && (current.Some? ==> IsNode(table, maxIdx, Pos(idx, current.value)))
    }

    /** The node the iterator points at; None is a null node pointer. */
    function Node(): Option<Pos>
      reads this
    {
      if current.Some? then Some(Pos(idx, current.value)) else None
    }

    constructor (table: seq<seq<T>>, idx: nat, maxIdx: nat, current: Option<nat>, readOnly: bool)
      ensures this.table == table && this.idx == idx && this.maxIdx == maxIdx
      ensures this.current == current && this.readOnly == readOnly
    {
      this.table := table;
      this.idx := idx;
      this.maxIdx := maxIdx;
      this.current := current;
      this.readOnly := readOnly;
    }

    /**
     * Prefix `operator++`, with the bucket search corrected to test the
     * bound before reading a bucket (`while (++idx_ < max_idx_ &&
     * !table_[idx_].head)`): every bucket read is in bounds.
     */
    method Increment()
      requires Valid() && current.Some?
      modifies this
      ensures Valid()
      ensures Node() == Step(table, maxIdx, old(Node()).value)
      ensures current.None? ==> idx == maxIdx
    {
      var next := NextInList(|table[idx]|, current.value);
      if next == 0 {
        /* back at the head of the bucket: find the next non-empty bucket */
        if idx < maxIdx {
          ghost var from := idx + 1;
          idx := idx + 1;
          while idx < maxIdx && table[idx] == []
            invariant from <= idx <= maxIdx
            invariant NextNonEmpty(table, idx, maxIdx) == NextNonEmpty(table, from, maxIdx)
            decreases maxIdx - idx
          {
            idx := idx + 1;
          }
          if idx < maxIdx {
            current := Some(0);
          } else {
            current := None;
          }
        } else {
          /* a valid iterator at a node has idx_ < max_idx_ */
          assert false;
        }
      } else {
        current := Some(next);
      }
    }

    /** Postfix `operator++`: an iterator at the old node, and this one advanced as by the prefix form. */
    method PostIncrement() returns (prev: HashTableIterator<T>)
      requires Valid() && current.Some?
      modifies this
      ensures fresh(prev) && prev.Valid()
      ensures prev.table == table && prev.maxIdx == maxIdx && prev.readOnly == readOnly
      ensures prev.idx == old(idx) && prev.current == old(current)
      ensures Valid() && Node() == Step(table, maxIdx, prev.Node().value)
    {
      prev := new HashTableIterator(table, idx, maxIdx, current, readOnly);
      Increment();
    }

    /**
     * `operator==`: compares node pointers only. Two iterators over the same
     * table are equal when both are at the end, whatever their bucket
     * indices, or both are at the same node.
     */
    function Equals(other: HashTableIterator<T>): (r: bool)
      reads this, other
      ensures r <==> (current.None? && other.current.None?)
                     || (current.Some? && other.current.Some? && idx == other.idx
                         && current.value == other.current.value)
    {
      Node() == other.Node()
    }

    /** The conversion to a const iterator keeps the table, both indices and the node. */
    method ToConst() returns (c: HashTableIterator<T>)
      ensures fresh(c) && c.readOnly
      ensures c.table == table && c.idx == idx && c.maxIdx == maxIdx && c.current == current
    {
      c := new HashTableIterator(table, idx, maxIdx, current, true);
    }
  }

  /* ---------------------------------------------------------------------- */
  /* Local (bucket) iterators                                                */
  /* ---------------------------------------------------------------------- */

  /** What `operator++` of a local iterator makes of position `node` in a bucket of `len` nodes. */
  function LocalStep(len: nat, node: nat): (r: Option<nat>)
    requires node < len
    ensures r.Some? ==> r.value < len
  {
    var next := NextInList(len, node);
    if next == 0 then None else Some(next)
  }

  /** Where `n` local increments lead from `start`. */
  function LocalWalk(len: nat, start: Option<nat>, n: nat): (r: Option<nat>)
    requires start.Some? ==> start.value < len
    ensures r.Some? ==> r.value < len
    decreases n
  {
    if n == 0 || start.None? then start
    else LocalWalk(len, LocalStep(len, start.value), n - 1)
  }

  /**
   * A local iterator started at the head visits position n after n
   * increments and is null after exactly `len`: each node of the bucket
   * once, from the head on.
   */
  lemma {:induction false} LocalVisitsEachOnce(len: nat, n: nat, start: nat)
    requires start + n <= len && start < len
    ensures LocalWalk(len, Some(start), n) == if start + n < len then Some(start + n) else None
    decreases n
  {
    if n > 0 {
      if start + 1 < len {
        LocalVisitsEachOnce(len, n - 1, start + 1);
      }
    }
  }

  /** hash_table_local_iterator and hash_table_const_local_iterator. */
  class LocalIterator<T> {
    const bucket: seq<T>
    const readOnly: bool
    var current: Option<nat>

    predicate Valid()
      reads this
    {
      current.Some? ==> current.value < |bucket|
    }

    constructor (bucket: seq<T>, current: Option<nat>, readOnly: bool)
      ensures this.bucket == bucket && this.current == current && this.readOnly == readOnly
    {
      this.bucket := bucket;
      this.current := current;
      this.readOnly := readOnly;
    }

    /** Prefix `operator++`: the next node, or null on coming back to the head. */
    method Increment()
      requires Valid() && current.Some?
      modifies this
      ensures Valid() && current == LocalStep(|bucket|, old(current).value)
    {
      var next := NextInList(|bucket|, current.value);
      if next == 0 {
        current := None;
      } else {
        current := Some(next);
      }
    }

    /** Postfix `operator++`. */
    method PostIncrement() returns (prev: LocalIterator<T>)
      requires Valid() && current.Some?
      modifies this
      ensures fresh(prev) && prev.bucket == bucket && prev.readOnly == readOnly
      ensures prev.current == old(current)
      ensures Valid() && current == LocalStep(|bucket|, prev.current.value)
    {
      prev := new LocalIterator(bucket, current, readOnly);
      Increment();
    }

    /** `operator==`: node pointers only; any two null local iterators are equal. */
    function Equals(other: LocalIterator<T>): (r: bool)
      reads this, other
      ensures current.None? && other.current.None? ==> r
      ensures current.Some? != other.current.Some? ==> !r
    {
      current == other.current
    }

    /** The conversion to a const local iterator keeps the head and the node. */
    method ToConst() returns (c: LocalIterator<T>)
      ensures fresh(c) && c.readOnly && c.bucket == bucket && c.current == current
    {
      c := new LocalIterator(bucket, current, true);
    }
  }
}
