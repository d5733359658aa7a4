/**
 * `queue_consumer`: takes results off the queue in FIFO order, puts an `ImageInfo`
 * whose parent is not resolved yet back at the tail, hands every other result to
 * the callback (an error tuple with `error=True`), marks its URL resolved and
 * advances the progress counter; any other value ends the loop.
 *
 * The queue is modelled sequentially over a given arrival order (the order in which
 * the downloads completed). The `None` sentinel is pushed only after every queued
 * item is done, so an empty queue ends the loop here as the sentinel does there.
 */
module ResultConsumer {
  import opened Records

  /** A call of `results_callback`: with the info, or with the message and `error=True`. */
  datatype Delivery = Delivered(info: ImageInfo) | ErrorDelivered(message: string)

  /** The callback a delivered queue item triggers. */
  function DeliveryOf(f: Finished): Delivery
    requires !f.Other?
  {
    if f.Info? then Delivered(f.info) else ErrorDelivered(f.message)
  }

  /** The item has to go back to the queue: an info whose parent URL is not resolved. */
  predicate Waits(f: Finished, resolved: set<string>) {
    f.Info? && f.info.parent.Some? && f.info.parent.value.url !in resolved
  }

  /** Arrival `j` is a result that, once delivered, resolves `url`. */
  ghost predicate ResolvedBy(arrivals: seq<Finished>, j: int, url: string) {
    0 <= j < |arrivals| && !arrivals[j].Other? && ResolvedUrl(arrivals[j]) == url
  }

  /** Every parent an arrival names is resolved by an arrival of lower rank, so no
      parent is missing and parents form no cycle. */
  ghost predicate ParentsAvailable(arrivals: seq<Finished>, rank: seq<nat>) {
    && |rank| == |arrivals|
    && forall k :: 0 <= k < |arrivals| && arrivals[k].Info? && arrivals[k].info.parent.Some? ==>
         exists j :: ResolvedBy(arrivals, j, arrivals[k].info.parent.value.url) && rank[j] < rank[k]
  }

  /** Every parent is resolved by an earlier arrival. */
  ghost predicate ParentsEarlier(arrivals: seq<Finished>) {
    forall k :: 0 <= k < |arrivals| && arrivals[k].Info? && arrivals[k].info.parent.Some? ==>
      exists j :: 0 <= j < k && ResolvedBy(arrivals, j, arrivals[k].info.parent.value.url)
  }

  /** No arrival is the sentinel. */
  ghost predicate NoSentinel(arrivals: seq<Finished>) {
    forall k :: 0 <= k < |arrivals| ==> !arrivals[k].Other?
  }

  /** The position of the first sentinel, or `|arrivals|` when none arrives. */
  function FirstSentinel(arrivals: seq<Finished>): (s: nat)
    ensures s <= |arrivals|
    ensures s < |arrivals| ==> arrivals[s].Other?
    ensures forall k :: 0 <= k < s ==> !arrivals[k].Other?
    ensures s == |arrivals| <==> NoSentinel(arrivals)
  {
    if arrivals == [] then 0
    else if arrivals[0].Other? then 0
    else
      var s := 1 + FirstSentinel(arrivals[1..]);
      assert forall k :: 1 <= k < |arrivals| ==> arrivals[k] == arrivals[1..][k - 1];
      s
  }

  /** The first sentinel is still queued at position `sp`, behind only results that
      arrived before it. */
  ghost predicate SentinelQueued(ids: seq<nat>, s: nat, sp: nat) {
    sp < |ids| && ids[sp] == s && forall k :: 0 <= k < sp ==> ids[k] < s
  }

  predicate DistinctIds(s: seq<nat>) {
    forall i, j :: 0 <= i < j < |s| ==> s[i] != s[j]
  }

  /** The delivered results, as positions in the arrival order, with their callbacks. */
  ghost predicate DeliveredMatches(arrivals: seq<Finished>, delivered: seq<Delivery>, order: seq<nat>) {
    && |delivered| == |order|
    && forall k :: 0 <= k < |order| ==>
         order[k] < |arrivals| && !arrivals[order[k]].Other? && delivered[k] == DeliveryOf(arrivals[order[k]])
  }

  /** A delivered info with a parent comes after a delivered result that resolves the
      parent's URL. */
  ghost predicate ParentFirst(arrivals: seq<Finished>, order: seq<nat>) {
    forall k :: 0 <= k < |order| && order[k] < |arrivals| && arrivals[order[k]].Info?
                && arrivals[order[k]].info.parent.Some? ==>
      exists t :: 0 <= t < k && ResolvedBy(arrivals, order[t], arrivals[order[k]].info.parent.value.url)
  }

  /** `resolved_urls` holds exactly the URLs of the delivered results. */
  ghost predicate ResolvedInv(arrivals: seq<Finished>, order: seq<nat>, resolved: set<string>) {
    forall u :: u in resolved <==> exists t :: 0 <= t < |order| && ResolvedBy(arrivals, order[t], u)
  }

  /** The queue's items, as positions in the arrival order. */
  ghost predicate QueueMatches(arrivals: seq<Finished>, queue: seq<Finished>, ids: seq<nat>) {
    |ids| == |queue| && forall k :: 0 <= k < |ids| ==> ids[k] < |arrivals| && queue[k] == arrivals[ids[k]]
  }

  function Range(n: nat): (r: seq<nat>)
    ensures |r| == n && forall i :: 0 <= i < n ==> r[i] == i
  {
    seq(n, i requires 0 <= i < n => i)
  }

  lemma {:induction false} RangeCount(n: nat, x: nat)
    ensures multiset(Range(n))[x] == if x < n then 1 else 0
    decreases n
  {
    if n > 0 {
      RangeCount(n - 1, x);
      assert Range(n) == Range(n - 1) + [n - 1];
    }
  }

  /** The position of the first item that need not wait, or `|q|`. */
  function FirstReady(q: seq<Finished>, resolved: set<string>): (p: nat)
    ensures p <= |q|
  {
    if q == [] then 0 else if !Waits(q[0], resolved) then 0 else 1 + FirstReady(q[1..], resolved)
  }

  lemma {:induction false} FirstReadyBelow(q: seq<Finished>, resolved: set<string>, p: nat)
    requires p < |q| && !Waits(q[p], resolved)
    ensures FirstReady(q, resolved) <= p
  {
    if p > 0 && Waits(q[0], resolved) {
      FirstReadyBelow(q[1..], resolved, p - 1);
    }
  }

  lemma {:induction false} FirstReadyAppend(q: seq<Finished>, x: Finished, resolved: set<string>)
    requires FirstReady(q, resolved) < |q|
    ensures FirstReady(q + [x], resolved) == FirstReady(q, resolved)
  {
    assert (q + [x])[0] == q[0];
    if Waits(q[0], resolved) {
      assert (q + [x])[1..] == q[1..] + [x];
      FirstReadyAppend(q[1..], x, resolved);
    }
  }

  /** A queue position whose item has the lowest rank in the queue. */
  function MinRankPos(ids: seq<nat>, rank: seq<nat>): (p: nat)
    requires |ids| > 0 && forall k :: 0 <= k < |ids| ==> ids[k] < |rank|
    ensures p < |ids| && forall k :: 0 <= k < |ids| ==> rank[ids[p]] <= rank[ids[k]]
  {
    if |ids| == 1 then 0
    else
      var p := MinRankPos(ids[1..], rank) + 1;
      assert forall k :: 1 <= k < |ids| ==> ids[1..][k - 1] == ids[k];
      if rank[ids[0]] <= rank[ids[p]] then 0 else p
  }

  /** Something in the queue is always ready: the item of lowest rank is, because the
      result resolving its parent has lower rank, so it has left the queue, so it has
      been delivered. */
  lemma SomeItemReady(arrivals: seq<Finished>, rank: seq<nat>, queue: seq<Finished>, ids: seq<nat>,
                      order: seq<nat>, resolved: set<string>)
    requires ParentsAvailable(arrivals, rank)
    requires queue != [] && QueueMatches(arrivals, queue, ids)
    requires multiset(ids) + multiset(order) == multiset(Range(|arrivals|))
    requires ResolvedInv(arrivals, order, resolved)
    ensures FirstReady(queue, resolved) < |queue|
  {
    var p := MinRankPos(ids, rank);
    var k := ids[p];
    if arrivals[k].Info? && arrivals[k].info.parent.Some? {
      var u := arrivals[k].info.parent.value.url;
      var j :| ResolvedBy(arrivals, j, u) && rank[j] < rank[k];
      assert j !in multiset(ids) by {
        forall t | 0 <= t < |ids| ensures ids[t] != j {
          assert rank[ids[p]] <= rank[ids[t]];
        }
      }
      RangeCount(|arrivals|, j);
      assert j in multiset(order);
      var t :| 0 <= t < |order| && order[t] == j;
      assert u in resolved;
    }
    FirstReadyBelow(queue, resolved, p);
  }

  /** With parents arriving first and the queue still in arrival order, the front item
      is ready. */
  lemma FrontReady(arrivals: seq<Finished>, queue: seq<Finished>, ids: seq<nat>, order: seq<nat>,
                   resolved: set<string>)
    requires ParentsEarlier(arrivals)
    requires queue != [] && QueueMatches(arrivals, queue, ids) && ids[0] == |order|
    requires forall k :: 0 <= k < |order| ==> order[k] == k
    requires ResolvedInv(arrivals, order, resolved)
    ensures !Waits(queue[0], resolved)
  {
    var k := ids[0];
    if arrivals[k].Info? && arrivals[k].info.parent.Some? {
      var u := arrivals[k].info.parent.value.url;
      var j :| 0 <= j < k && ResolvedBy(arrivals, j, u);
      assert order[j] == j;
      assert u in resolved;
    }
  }

  /** Everything in arrival order: the queue holds the rest, the callbacks the start. */
  ghost predicate FifoShape(arrivals: seq<Finished>, ids: seq<nat>, order: seq<nat>) {
    && |ids| == |arrivals| - |order|
    && (forall k :: 0 <= k < |ids| ==> ids[k] == |order| + k)
    && (forall k :: 0 <= k < |order| ==> order[k] == k)
  }

  /** What holds of the consumer's state at the top of each iteration. */
  ghost predicate ConsumerInv(arrivals: seq<Finished>, queue: seq<Finished>, ids: seq<nat>,
                              delivered: seq<Delivery>, order: seq<nat>, resolved: set<string>, fifo: bool) {
    && QueueMatches(arrivals, queue, ids)
    && multiset(ids) + multiset(order) == multiset(Range(|arrivals|))
    && DeliveredMatches(arrivals, delivered, order) && DistinctIds(order)
    && ResolvedInv(arrivals, order, resolved)
    && ParentFirst(arrivals, order)
    && (fifo ==> FifoShape(arrivals, ids, order))
  }

  /** Putting the front item back at the tail keeps the invariant. */
  lemma Requeue(arrivals: seq<Finished>, queue: seq<Finished>, ids: seq<nat>,
                delivered: seq<Delivery>, order: seq<nat>, resolved: set<string>)
    requires ConsumerInv(arrivals, queue, ids, delivered, order, resolved, false) && queue != []
    ensures ConsumerInv(arrivals, queue[1..] + [queue[0]], ids[1..] + [ids[0]], delivered, order, resolved, false)
  {
    var q, i := queue[1..] + [queue[0]], ids[1..] + [ids[0]];
    assert ids == [ids[0]] + ids[1..];
    assert multiset(i) == multiset(ids);
    forall k | 0 <= k < |i| ensures i[k] < |arrivals| && q[k] == arrivals[i[k]] {
      if k < |i| - 1 { assert i[k] == ids[k + 1] && q[k] == queue[k + 1]; }
    }
  }

  /** Delivering the front item keeps the invariant. */
  lemma Deliver(arrivals: seq<Finished>, queue: seq<Finished>, ids: seq<nat>,
                delivered: seq<Delivery>, order: seq<nat>, resolved: set<string>, fifo: bool)
    requires ConsumerInv(arrivals, queue, ids, delivered, order, resolved, fifo) && queue != []
    requires !Waits(queue[0], resolved) && !queue[0].Other?
    ensures ConsumerInv(arrivals, queue[1..], ids[1..], delivered + [DeliveryOf(queue[0])],
                        order + [ids[0]], resolved + {ResolvedUrl(queue[0])}, fifo)
  {
    DeliverCounts(arrivals, queue, ids, delivered, order);
    DeliverResolved(arrivals, ids[0], order, resolved);
    DeliverParentFirst(arrivals, ids[0], order, resolved);
    if fifo {
      assert FifoShape(arrivals, ids[1..], order + [ids[0]]);
    }
  }

  /** The delivered item leaves the queue and joins the callbacks, once. */
  lemma DeliverCounts(arrivals: seq<Finished>, queue: seq<Finished>, ids: seq<nat>,
                      delivered: seq<Delivery>, order: seq<nat>)
    requires queue != [] && QueueMatches(arrivals, queue, ids) && !queue[0].Other?
    requires multiset(ids) + multiset(order) == multiset(Range(|arrivals|))
    requires DeliveredMatches(arrivals, delivered, order) && DistinctIds(order)
    ensures QueueMatches(arrivals, queue[1..], ids[1..])
    ensures multiset(ids[1..]) + multiset(order + [ids[0]]) == multiset(Range(|arrivals|))
    ensures DeliveredMatches(arrivals, delivered + [DeliveryOf(queue[0])], order + [ids[0]])
    ensures DistinctIds(order + [ids[0]])
  {
    var id := ids[0];
    assert ids == [id] + ids[1..];
    RangeCount(|arrivals|, id);
    assert id !in multiset(order);
  }

  /** Marking the delivered item's URL keeps `resolved` equal to the delivered URLs. */
  lemma DeliverResolved(arrivals: seq<Finished>, id: nat, order: seq<nat>, resolved: set<string>)
    requires id < |arrivals| && !arrivals[id].Other?
    requires ResolvedInv(arrivals, order, resolved)
    ensures ResolvedInv(arrivals, order + [id], resolved + {ResolvedUrl(arrivals[id])})
  {
    var order', resolved' := order + [id], resolved + {ResolvedUrl(arrivals[id])};
    assert ResolvedBy(arrivals, order'[|order|], ResolvedUrl(arrivals[id]));
    forall u ensures u in resolved' <==> exists t :: 0 <= t < |order'| && ResolvedBy(arrivals, order'[t], u) {
      if u in resolved {
        var t :| 0 <= t < |order| && ResolvedBy(arrivals, order[t], u);
        assert order'[t] == order[t];
      }
      if exists t :: 0 <= t < |order'| && ResolvedBy(arrivals, order'[t], u) {
        var t :| 0 <= t < |order'| && ResolvedBy(arrivals, order'[t], u);
        if t < |order| { assert order[t] == order'[t]; }
      }
    }
  }

  /** An item that need not wait may follow everything delivered so far. */
  lemma DeliverParentFirst(arrivals: seq<Finished>, id: nat, order: seq<nat>, resolved: set<string>)
    requires id < |arrivals| && !Waits(arrivals[id], resolved)
    requires ResolvedInv(arrivals, order, resolved) && ParentFirst(arrivals, order)
    ensures ParentFirst(arrivals, order + [id])
  {
    var order' := order + [id];
    forall k | 0 <= k < |order'| && order'[k] < |arrivals| && arrivals[order'[k]].Info?
                && arrivals[order'[k]].info.parent.Some?
      ensures exists t :: 0 <= t < k && ResolvedBy(arrivals, order'[t], arrivals[order'[k]].info.parent.value.url)
    {
      if k < |order| {
        var t :| 0 <= t < k && ResolvedBy(arrivals, order[t], arrivals[order[k]].info.parent.value.url);
        assert order'[t] == order[t];
      } else {
        var u := arrivals[id].info.parent.value.url;
        assert u in resolved;
        var t :| 0 <= t < |order| && ResolvedBy(arrivals, order[t], u);
        assert order'[t] == order[t];
      }
    }
  }

  /**
   * The loop of `queue_consumer` over the results in arrival order. It returns the
   * callbacks made, in order, and the progress counter `i`; `order` says which
   * arrival each callback came from. Each delivered result is delivered once, with
   * `error=True` exactly for error tuples; an info with a parent is delivered only
   * after a result resolving the parent's URL; without a sentinel every arrival is
   * delivered; nothing that arrived after the first sentinel is ever delivered; and
   * when every parent arrives before its children nothing is put back, so the
   * callbacks follow the arrival order up to the first sentinel, where the loop stops.
   */
  method ConsumeQueue(arrivals: seq<Finished>, ghost rank: seq<nat>)
      returns (delivered: seq<Delivery>, count: nat, ghost order: seq<nat>)
    requires ParentsAvailable(arrivals, rank)
    ensures count == |delivered|
    ensures DeliveredMatches(arrivals, delivered, order) && DistinctIds(order)
    ensures ParentFirst(arrivals, order)
    ensures NoSentinel(arrivals) ==> |order| == |arrivals|
    ensures NoSentinel(arrivals) && ParentsEarlier(arrivals) ==> order == Range(|arrivals|)
    ensures forall k :: 0 <= k < |order| ==> order[k] < FirstSentinel(arrivals)
    ensures ParentsEarlier(arrivals) ==> order == Range(FirstSentinel(arrivals))
  {
    var queue := arrivals;
    ghost var ids := Range(|arrivals|);
    var resolved: set<string> := {};
    delivered, count, order := [], 0, [];
    ghost var fifo := ParentsEarlier(arrivals);
    ghost var s, sp := FirstSentinel(arrivals), FirstSentinel(arrivals);
    assert ids + order == ids;
    while queue != []
      invariant ConsumerInv(arrivals, queue, ids, delivered, order, resolved, fifo)
      invariant count == |delivered|
      invariant SentinelInv(arrivals, ids, order, s, sp)
      decreases |queue|, FirstReady(queue, resolved)
    {
      SomeItemReady(arrivals, rank, queue, ids, order, resolved);
      if fifo {
        FrontReady(arrivals, queue, ids, order, resolved);
      }
      var finished := queue[0];
      if Waits(finished, resolved) {
        // back to the tail: nothing is delivered and the counter stays
        FirstReadyAppend(queue[1..], finished, resolved);
        Requeue(arrivals, queue, ids, delivered, order, resolved);
        SentinelStays(arrivals, ids, order, s, sp);
        sp := if s < |arrivals| then sp - 1 else sp;
        queue := queue[1..] + [finished];
        ids := ids[1..] + [ids[0]];
        continue;
      }
      if finished.Other? {
        assert !NoSentinel(arrivals) by { assert arrivals[ids[0]].Other?; }
        SentinelReached(arrivals, ids, s, sp);
        break;
      }
      SentinelStays(arrivals, ids, order, s, sp);
      sp := if s < |arrivals| then sp - 1 else sp;
      // an info, or an error tuple with `error=True`; either way its URL is resolved
      Deliver(arrivals, queue, ids, delivered, order, resolved, fifo);
      delivered := delivered + [DeliveryOf(finished)];
      resolved := resolved + {ResolvedUrl(finished)};
      queue := queue[1..];
      order := order + [ids[0]];
      ids := ids[1..];
      count := count + 1;
    }
    ConsumerDone(arrivals, queue, ids, delivered, order, resolved, fifo, s);
  }

  /** What holds of the first sentinel at the top of each iteration: it is still
      queued, and nothing after it has been delivered. */
  ghost predicate SentinelInv(arrivals: seq<Finished>, ids: seq<nat>, order: seq<nat>, s: nat, sp: nat) {
    && s == FirstSentinel(arrivals)
    && (s < |arrivals| ==> SentinelQueued(ids, s, sp))
    && forall k :: 0 <= k < |order| ==> order[k] < s
  }

  /** The front result, which is not the sentinel, leaves from before it, whether it
      is delivered or put back. */
  lemma SentinelStays(arrivals: seq<Finished>, ids: seq<nat>, order: seq<nat>, s: nat, sp: nat)
    requires SentinelInv(arrivals, ids, order, s, sp)
    requires ids != [] && ids[0] < |arrivals| && !arrivals[ids[0]].Other?
    ensures s < |arrivals| ==> sp > 0
    ensures var sp' := if s < |arrivals| then sp - 1 else sp;
            SentinelInv(arrivals, ids[1..], order + [ids[0]], s, sp')
            && SentinelInv(arrivals, ids[1..] + [ids[0]], order, s, sp')
  {
    if s < |arrivals| {
      assert ids[0] != s;
    }
  }

  /** The front is the first sentinel exactly when the sentinel has reached it. */
  lemma SentinelReached(arrivals: seq<Finished>, ids: seq<nat>, s: nat, sp: nat)
    requires ids != [] && ids[0] < |arrivals| && arrivals[ids[0]].Other?
    requires s == FirstSentinel(arrivals) && SentinelQueued(ids, s, sp)
    ensures ids[0] == s && sp == 0
  {
  }

  /** What the invariant gives once the queue is empty or the sentinel was taken. */
  lemma ConsumerDone(arrivals: seq<Finished>, queue: seq<Finished>, ids: seq<nat>,
                     delivered: seq<Delivery>, order: seq<nat>, resolved: set<string>, fifo: bool, s: nat)
    requires ConsumerInv(arrivals, queue, ids, delivered, order, resolved, fifo)
    requires s == FirstSentinel(arrivals)
    requires (queue == [] && s == |arrivals|) || (queue != [] && ids[0] == s && s < |arrivals|)
    requires fifo == ParentsEarlier(arrivals)
    ensures NoSentinel(arrivals) ==> |order| == |arrivals|
    ensures ParentsEarlier(arrivals) ==> order == Range(s)
  {
    if queue == [] {
      RangeCountAll(order, |arrivals|);
    } else if fifo {
      assert |order| == s;
    }
  }

  /** A sequence with the multiset of `Range(n)` has length `n`. */
  lemma RangeCountAll(order: seq<nat>, n: nat)
    requires multiset(order) == multiset(Range(n))
    ensures |order| == n
  {
    assert |multiset(order)| == |order|;
  }
}
