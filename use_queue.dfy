/**
 * The list transformations behind the `useQueue` hook (src/utils/useQueue.ts): a list that
 * takes new elements at the front and, with a capacity, lets the oldest ones fall off the back.
 */
module UseQueue {
  import opened Wrappers

  /** The hook's state cell and its optional capacity (a JavaScript number, modelled as an integer). */
  datatype Queue<T> = Queue(items: seq<T>, capacity: Option<int>)

  /** `useState(initialQueue || [])` (line 18): an array is never falsy, so only a missing one gives []. */
  function Init<T>(initialQueue: Option<seq<T>>, capacity: Option<int>): (q: Queue<T>)
    ensures initialQueue.Some? ==> q.items == initialQueue.value
    ensures initialQueue.None? ==> q.items == []
    ensures q.capacity == capacity
  {
    Queue(initialQueue.GetOr([]), capacity)
  }

  /** How much of a list of length `n` `slice(0, end)` keeps: a negative end counts from the back. */
  function SliceEnd(n: nat, end: int): (k: nat)
    ensures k <= n
  {
    if end >= 0 then (if end < n then end else n)
    else if n + end > 0 then n + end else 0
  }

  function Min(a: int, b: int): int {
    if a < b then a else b
  }

  /** A capacity that counts: JavaScript treats a missing capacity and 0 alike as false. */
  predicate HasCapacity(capacity: Option<int>) {
    capacity.Some? && capacity.value != 0
  }

  /**
   * `enqueue(obj)` as written (lines 22-27): the new element first, then the old list cut
   * to the capacity minus one, or to its own length minus one when no capacity is set.
   */
  function Enqueue<T>(q: Queue<T>, obj: T): (r: Queue<T>)
    ensures r.capacity == q.capacity && |r.items| > 0 && r.items[0] == obj
    ensures r.items[1..] <= q.items
    ensures HasCapacity(q.capacity) && q.capacity.value >= 1 ==> |r.items| == Min(q.capacity.value, |q.items| + 1)
    ensures !HasCapacity(q.capacity) ==> |r.items| == if q.items == [] then 1 else |q.items|
  {
    var end := (if HasCapacity(q.capacity) then q.capacity.value else |q.items|) - 1;
    var kept := q.items[..SliceEnd(|q.items|, end)];
    assert ([obj] + kept)[1..] == kept;
    q.(items := [obj] + kept)
  }

  /** `reset(objs)` (lines 28-30): the contents become exactly `objs`. */
  function Reset<T>(q: Queue<T>, objs: seq<T>): (r: Queue<T>)
    ensures r.items == objs && r.capacity == q.capacity
  {
    q.(items := objs)
  }

  /** `enqueue` applied to each element of `xs` in turn. */
  function EnqueueAll<T>(q: Queue<T>, xs: seq<T>): Queue<T>
    decreases |xs|
  {
    if xs == [] then q else Enqueue(EnqueueAll(q, xs[..|xs| - 1]), xs[|xs| - 1])
  }

  function Reverse<T>(xs: seq<T>): (r: seq<T>)
    ensures |r| == |xs|
    decreases |xs|
  {
    if xs == [] then [] else [xs[|xs| - 1]] + Reverse(xs[..|xs| - 1])
  }

  /**
   * With a capacity `c >= 1`, starting from at most `c` elements, the queue holds the newest
   * elements first, followed by the old contents, cut to `c` elements: the oldest fall off the back.
   */
  lemma {:induction false} EnqueueAllNewestFirst<T>(q: Queue<T>, xs: seq<T>)
    requires q.capacity.Some? && q.capacity.value >= 1 && |q.items| <= q.capacity.value
    ensures EnqueueAll(q, xs).items == (Reverse(xs) + q.items)[..Min(q.capacity.value, |xs| + |q.items|)]
    ensures EnqueueAll(q, xs).capacity == q.capacity
    decreases |xs|
  {
    var c := q.capacity.value;
    if xs == [] {
      assert Reverse(xs) + q.items == q.items;
    } else {
      var front, x := xs[..|xs| - 1], xs[|xs| - 1];
      var all := Reverse(front) + q.items;
      var r := EnqueueAll(q, front);
      assert r == Queue(all[..Min(c, |all|)], Some(c)) by {
        EnqueueAllNewestFirst(q, front);
      }
      assert EnqueueAll(q, xs).items == ([x] + all)[..Min(c, |all| + 1)] by {
        assert EnqueueAll(q, xs) == Enqueue(r, x);
        EnqueueCut(all, c, x);
      }
      assert Reverse(xs) + q.items == [x] + all by {
        assert Reverse(xs) == [x] + Reverse(front);
      }
    }
  }

  /** One `enqueue` on a list already cut to the capacity. */
  lemma {:induction false} EnqueueCut<T>(all: seq<T>, c: int, x: T)
    requires c >= 1
    ensures Enqueue(Queue(all[..Min(c, |all|)], Some(c)), x).items == ([x] + all)[..Min(c, |all| + 1)]
  {
    var m := Min(c, |all|);
    var k := SliceEnd(m, c - 1);
    assert k == Min(c - 1, |all|);
    assert all[..m][..k] == all[..k];
    assert [x] + all[..k] == ([x] + all)[..k + 1];
  }

  /** With no capacity, as written, the queue never holds more than the newest element. */
  lemma {:induction false} EnqueueAllNoCapacity<T>(xs: seq<T>)
    requires xs != []
    ensures EnqueueAll(Queue([], None), xs).items == [xs[|xs| - 1]]
    decreases |xs|
  {
    var front := xs[..|xs| - 1];
    if front != [] {
      EnqueueAllNoCapacity(front);
    }
  }

  /** Enqueuing 1 and then 2 without a capacity leaves [2], not [2, 1]. */
  lemma {:induction false} NoCapacityDropsOlder()
    ensures Enqueue(Enqueue(Queue([], None), 1), 2).items == [2]
    ensures EnqueueIntended(EnqueueIntended(Queue([], None), 1), 2).items == [2, 1]
  {
  }

  /**
   * `enqueue` as the hook's documentation describes it: without a capacity nothing falls
   * off; with one, the list is cut to the capacity.
   */
  function EnqueueIntended<T>(q: Queue<T>, obj: T): (r: Queue<T>)
    ensures r.capacity == q.capacity && |r.items| > 0 && r.items[0] == obj
    ensures r.items[1..] <= q.items
    ensures !HasCapacity(q.capacity) ==> r.items == [obj] + q.items
  {
    var kept := if HasCapacity(q.capacity) then q.items[..SliceEnd(|q.items|, q.capacity.value - 1)] else q.items;
    assert ([obj] + kept)[1..] == kept;
    q.(items := [obj] + kept)
  }

  function EnqueueAllIntended<T>(q: Queue<T>, xs: seq<T>): Queue<T>
    decreases |xs|
  {
    if xs == [] then q else EnqueueIntended(EnqueueAllIntended(q, xs[..|xs| - 1]), xs[|xs| - 1])
  }

  /** Without a capacity the corrected queue keeps every element, newest first. */
  lemma {:induction false} EnqueueAllIntendedKeepsAll<T>(q: Queue<T>, xs: seq<T>)
    requires !HasCapacity(q.capacity)
    ensures EnqueueAllIntended(q, xs).items == Reverse(xs) + q.items
    ensures EnqueueAllIntended(q, xs).capacity == q.capacity
    decreases |xs|
  {
    if xs != [] {
      EnqueueAllIntendedKeepsAll(q, xs[..|xs| - 1]);
    }
  }

  /** With a capacity of at least one the correction changes nothing. */
  lemma {:induction false} IntendedAgrees<T>(q: Queue<T>, obj: T)
    requires HasCapacity(q.capacity) && q.capacity.value >= 1
    ensures EnqueueIntended(q, obj) == Enqueue(q, obj)
  {
  }
}
